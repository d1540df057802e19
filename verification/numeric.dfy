/** Fixed-width unsigned integers and the conversions between them and text
    or bytes that the node performs: big-endian `u32` framing lengths,
    decimal rendering (`format!("{}", n)`) and `str::parse::<u16>()`. */
module Numeric {
  import opened Wrappers

  newtype u8 = x: int | 0 <= x < 0x100
  newtype u16 = x: int | 0 <= x < 0x1_0000
  newtype u32 = x: int | 0 <= x < 0x1_0000_0000
  newtype u64 = x: int | 0 <= x < 0x1_0000_0000_0000_0000

  type Bytes = seq<u8>

  const U32_MAX: int := 0xFFFF_FFFF
  const TWO_TO_THE_32: int := 0x1_0000_0000

  /** `u32::to_be_bytes`: most significant byte first. */
  function ToBe32(n: u32): (r: Bytes)
    ensures |r| == 4
  {
    var v1 := n as int / 0x100;
    var v2 := v1 / 0x100;
    [(v2 / 0x100) as u8, (v2 % 0x100) as u8, (v1 % 0x100) as u8, (n as int % 0x100) as u8]
  }

  /** `u32::from_be_bytes` on exactly four bytes. */
  function FromBe32(b: Bytes): (n: u32)
    requires |b| == 4
  {
    (((b[0] as int * 0x100 + b[1] as int) * 0x100 + b[2] as int) * 0x100 + b[3] as int) as u32
  }

  /** Reading back the four bytes written for a length gives that length. */
  lemma Be32RoundTrip(n: u32)
    ensures FromBe32(ToBe32(n)) == n
  {
    var v1 := n as int / 0x100;
    var v2 := v1 / 0x100;
    assert v2 == (v2 / 0x100) * 0x100 + v2 % 0x100;
    assert v1 == v2 * 0x100 + v1 % 0x100;
    assert n as int == v1 * 0x100 + n as int % 0x100;
  }

  /** Every four-byte prefix is the rendering of the length it denotes. */
  lemma Be32Surjective(b: Bytes)
    requires |b| == 4
    ensures ToBe32(FromBe32(b)) == b
  {
    var hi := b[0] as int * 0x100 + b[1] as int;
    var mid := hi * 0x100 + b[2] as int;
    var v := mid * 0x100 + b[3] as int;
    ByteSplit(mid, b[3] as int);
    ByteSplit(hi, b[2] as int);
    ByteSplit(b[0] as int, b[1] as int);
  }

  lemma ByteSplit(q: int, r: int)
    requires 0 <= r < 0x100
    ensures (q * 0x100 + r) / 0x100 == q && (q * 0x100 + r) % 0x100 == r
  {
  }

  /** `usize as u32`: keeps the low 32 bits. */
  function TruncateToU32(n: nat): (r: u32)
    ensures n < TWO_TO_THE_32 ==> r as int == n
  {
    (n % TWO_TO_THE_32) as u32
  }

  function DigitChar(d: nat): (c: char)
    requires d < 10
  {
    ['0', '1', '2', '3', '4', '5', '6', '7', '8', '9'][d]
  }

  predicate IsDigit(c: char) {
    '0' <= c <= '9'
  }

  function DigitValue(c: char): (d: nat)
    requires IsDigit(c)
    ensures d < 10
  {
    (c as int) - ('0' as int)
  }

  /** Decimal rendering of a natural number, as `format!("{}", n)` prints it:
      no sign, no leading zeros. */
  function Decimal(n: nat): (s: string)
    ensures |s| > 0
    ensures forall i :: 0 <= i < |s| ==> IsDigit(s[i])
    ensures |s| > 1 ==> s[0] != '0'
    decreases n
  {
    if n < 10 then [DigitChar(n)] else Decimal(n / 10) + [DigitChar(n % 10)]
  }

  predicate AllDigits(s: string) {
    forall i :: 0 <= i < |s| ==> IsDigit(s[i])
  }

  /** The number a string of decimal digits denotes (leading zeros allowed). */
  function DigitsValue(s: string): nat
    requires AllDigits(s)
    decreases |s|
  {
    if |s| == 0 then 0 else DigitsValue(s[..|s| - 1]) * 10 + DigitValue(s[|s| - 1])
  }

  /** `str::parse::<u16>()`: an optional leading '+' (a lone '+' is refused),
      then one or more ASCII digits whose value is at most 65535. */
  function ParseU16(s: string): Option<u16>
  {
    if |s| > 1 && s[0] == '+' then ParseU16Digits(s[1..]) else ParseU16Digits(s)
  }

  function ParseU16Digits(s: string): Option<u16>
  {
    if |s| == 0 || !AllDigits(s) then None
    else
      var v := DigitsValue(s);
      if v < 0x1_0000 then Some(v as u16) else None
  }

  lemma {:induction false} DigitsValueOfDecimal(n: nat)
    ensures AllDigits(Decimal(n)) && DigitsValue(Decimal(n)) == n
    decreases n
  {
    if n >= 10 {
      var s := Decimal(n);
      DigitsValueOfDecimal(n / 10);
      assert s[..|s| - 1] == Decimal(n / 10);
      assert DigitValue(DigitChar(n % 10)) == n % 10;
    } else {
      assert DigitValue(DigitChar(n)) == n;
    }
  }

  /** Parsing the decimal rendering of a port gives the port back, with or
      without an explicit '+'. */
  lemma ParseU16OfDecimal(p: u16)
    ensures ParseU16(Decimal(p as int)) == Some(p)
    ensures ParseU16("+" + Decimal(p as int)) == Some(p)
  {
    DigitsValueOfDecimal(p as int);
    var s := Decimal(p as int);
    assert ("+" + s)[1..] == s;
    assert s[0] != '+';
  }
}
