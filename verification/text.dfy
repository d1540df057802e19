/** String and byte-string helpers that mirror the Rust standard library
    calls the node relies on: `str::starts_with`, `str::to_lowercase`,
    `String::into_bytes` and `std::str::from_utf8`. */
module Text {
  import opened Numeric

  /** `s.starts_with(p)`, compared character by character. */
  function StartsWith(s: string, p: string): (r: bool)
    ensures r <==> p <= s
    decreases |p|
  {
    if |p| == 0 then true
    else if |s| == 0 then false
    else s[0] == p[0] && StartsWith(s[1..], p[1..])
  }

  function LowerChar(c: char): char {
    if 'A' <= c <= 'Z' then (c as int + 32) as char else c
  }

  /** `to_lowercase`, restricted to the ASCII letters (other characters are
      kept as they are). */
  function AsciiLower(s: string): (r: string)
    ensures |r| == |s|
    ensures forall i :: 0 <= i < |s| ==> r[i] == LowerChar(s[i])
  {
    seq(|s|, i requires 0 <= i < |s| => LowerChar(s[i]))
  }

  /** `String::into_bytes`: the UTF-8 encoding of each Unicode scalar value. */
  function Utf8Encode(s: string): Bytes
  {
    if |s| == 0 then [] else Utf8EncodeChar(s[0]) + Utf8Encode(s[1..])
  }

  function Utf8EncodeChar(c: char): (r: Bytes)
    ensures 1 <= |r| <= 4
  {
    var v := c as int;
    if v < 0x80 then [v as u8]
    else if v < 0x800 then [(0xC0 + v / 0x40) as u8, (0x80 + v % 0x40) as u8]
    else if v < 0x1_0000 then
      [(0xE0 + v / 0x1000) as u8, (0x80 + v / 0x40 % 0x40) as u8, (0x80 + v % 0x40) as u8]
    else
      [(0xF0 + v / 0x4_0000) as u8, (0x80 + v / 0x1000 % 0x40) as u8,
       (0x80 + v / 0x40 % 0x40) as u8, (0x80 + v % 0x40) as u8]
  }

  predicate Cont(b: u8, lo: u8, hi: u8) {
    lo <= b <= hi
  }

  /** Length of the well-formed UTF-8 sequence at the front of `b`
      (table 3-7 of the Unicode Standard), or 0 when there is none. */
  function LeadingSequenceLength(b: Bytes): (k: nat)
    ensures k <= |b| && k <= 4
  {
    if |b| == 0 then 0
    else
      var b0 := b[0];
      if b0 <= 0x7F then 1
      else if 0xC2 <= b0 <= 0xDF then
        if |b| >= 2 && Cont(b[1], 0x80, 0xBF) then 2 else 0
      else if 0xE0 <= b0 <= 0xEF then
        var lo: u8 := if b0 == 0xE0 then 0xA0 else 0x80;
        var hi: u8 := if b0 == 0xED then 0x9F else 0xBF;
        if |b| >= 3 && Cont(b[1], lo, hi) && Cont(b[2], 0x80, 0xBF) then 3 else 0
      else if 0xF0 <= b0 <= 0xF4 then
        var lo: u8 := if b0 == 0xF0 then 0x90 else 0x80;
        var hi: u8 := if b0 == 0xF4 then 0x8F else 0xBF;
        if |b| >= 4 && Cont(b[1], lo, hi) && Cont(b[2], 0x80, 0xBF) && Cont(b[3], 0x80, 0xBF) then 4 else 0
      else 0
  }

  /** `std::str::from_utf8(b).is_ok()`. */
  predicate ValidUtf8(b: Bytes)
    decreases |b|
  {
    |b| == 0 || (LeadingSequenceLength(b) > 0 && ValidUtf8(b[LeadingSequenceLength(b)..]))
  }

  /** Every string's byte form is valid UTF-8: `into_bytes` never produces
      bytes that `from_utf8` refuses. */
  lemma {:induction false} Utf8EncodeValid(s: string)
    ensures ValidUtf8(Utf8Encode(s))
    decreases |s|
  {
    if |s| > 0 {
      var e := Utf8EncodeChar(s[0]);
      var rest := Utf8Encode(s[1..]);
      Utf8EncodeValid(s[1..]);
      EncodeCharLeads(s[0], rest);
      assert (e + rest)[|e|..] == rest;
    }
  }

  lemma EncodeCharLeads(c: char, rest: Bytes)
    ensures LeadingSequenceLength(Utf8EncodeChar(c) + rest) == |Utf8EncodeChar(c)|
  {
  }
}
