/** The byte encoding of a bundle. The node stores and transmits bundles as
    CBOR (`serde_cbor::to_vec` / `serde_cbor::from_slice`); what the node
    relies on is that decoding inverts encoding, that decoding can fail on
    arbitrary bytes, and that trailing bytes are refused. This module gives
    a concrete self-delimiting encoding with exactly those properties: the
    fields in declaration order, numbers and lengths as base-128 varints,
    text as its Unicode scalar values. */
module Codec {
  import opened Wrappers
  import opened Numeric
  import opened Bpv7

  const TWO_TO_THE_64: nat := 0x1_0000_0000_0000_0000

  /** Base-128 varint, least significant group first; the top bit of a byte
      says that more bytes follow. */
  function EncodeNat(n: nat): (r: Bytes)
    ensures |r| > 0
    decreases n
  {
    if n < 0x80 then [n as u8] else [(0x80 + n % 0x80) as u8] + EncodeNat(n / 0x80)
  }

  function DecodeNat(b: Bytes): (r: Option<(nat, Bytes)>)
    ensures r.Some? ==> |r.value.1| < |b|
    decreases |b|
  {
    if |b| == 0 then None
    else if b[0] < 0x80 then Some((b[0] as nat, b[1..]))
    else
      var (m, rest) :- DecodeNat(b[1..]);
      Some(((b[0] as nat - 0x80) + 0x80 * m, rest))
  }

  lemma {:induction false} DecodeNatRoundTrip(n: nat, rest: Bytes)
    ensures DecodeNat(EncodeNat(n) + rest) == Some((n, rest))
    decreases n
  {
    var e := EncodeNat(n) + rest;
    if n >= 0x80 {
      DecodeNatRoundTrip(n / 0x80, rest);
      assert e[1..] == EncodeNat(n / 0x80) + rest;
    } else {
      assert e[1..] == rest;
    }
  }

  function DecodeU64(b: Bytes): Option<(u64, Bytes)>
  {
    var (n, rest) :- DecodeNat(b);
    if n < TWO_TO_THE_64 then Some((n as u64, rest)) else None
  }

  /** A Unicode scalar value: what a Rust `char` (and a Dafny `char`) holds. */
  predicate IsScalar(v: nat) {
    v < 0xD800 || 0xE000 <= v < 0x11_0000
  }

  function EncodeText(s: string): (r: Bytes)
    decreases |s|
  {
    if |s| == 0 then [] else EncodeNat(s[0] as nat) + EncodeText(s[1..])
  }

  function DecodeText(count: nat, b: Bytes): (r: Option<(string, Bytes)>)
    ensures r.Some? ==> |r.value.1| <= |b|
    decreases count
  {
    if count == 0 then Some(([], b))
    else
      var (v, rest) :- DecodeNat(b);
      if !IsScalar(v) then None
      else
        var (tail, rest') :- DecodeText(count - 1, rest);
        Some(([v as char] + tail, rest'))
  }

  lemma {:induction false} DecodeTextRoundTrip(s: string, rest: Bytes)
    ensures DecodeText(|s|, EncodeText(s) + rest) == Some((s, rest))
    decreases |s|
  {
    if |s| > 0 {
      var tail := EncodeText(s[1..]) + rest;
      assert EncodeText(s) + rest == EncodeNat(s[0] as nat) + tail;
      DecodeNatRoundTrip(s[0] as nat, tail);
      DecodeTextRoundTrip(s[1..], rest);
      var v := s[0] as nat;
      assert IsScalar(v);
      assert v as char == s[0];
      assert DecodeText(|s|, EncodeText(s) + rest) == Some(([v as char] + s[1..], rest));
      assert [v as char] + s[1..] == s;
    } else {
      assert EncodeText(s) + rest == rest;
    }
  }

  function EncodeString(s: string): Bytes {
    EncodeNat(|s|) + EncodeText(s)
  }

  function DecodeString(b: Bytes): Option<(string, Bytes)> {
    var (n, rest) :- DecodeNat(b);
    DecodeText(n, rest)
  }

  lemma DecodeStringRoundTrip(s: string, rest: Bytes)
    ensures DecodeString(EncodeString(s) + rest) == Some((s, rest))
  {
    assert EncodeString(s) + rest == EncodeNat(|s|) + (EncodeText(s) + rest);
    DecodeNatRoundTrip(|s|, EncodeText(s) + rest);
    DecodeTextRoundTrip(s, rest);
  }

  function EncodeBytes(p: Bytes): Bytes {
    EncodeNat(|p|) + p
  }

  function DecodeBytes(b: Bytes): Option<(Bytes, Bytes)> {
    var (n, rest) :- DecodeNat(b);
    if n <= |rest| then Some((rest[..n], rest[n..])) else None
  }

  lemma DecodeBytesRoundTrip(p: Bytes, rest: Bytes)
    ensures DecodeBytes(EncodeBytes(p) + rest) == Some((p, rest))
  {
    assert EncodeBytes(p) + rest == EncodeNat(|p|) + (p + rest);
    DecodeNatRoundTrip(|p|, p + rest);
    assert (p + rest)[..|p|] == p && (p + rest)[|p|..] == rest;
  }

  /** `serde_cbor::to_vec(bundle)`. */
  function Encode(b: Bundle): (r: Bytes)
    ensures |r| > 0
  {
    var h := b.primary;
    [h.version] + (EncodeString(h.destination) + (EncodeString(h.source) + (EncodeString(h.reportTo)
      + (EncodeNat(h.creationTimestamp as nat) + (EncodeNat(h.lifetime as nat) + EncodeBytes(b.payload))))))
  }

  function DecodeFields(b: Bytes): Option<(Bundle, Bytes)>
  {
    if |b| == 0 then None
    else
      var version := b[0];
      var (destination, r1) :- DecodeString(b[1..]);
      var (source, r2) :- DecodeString(r1);
      var (reportTo, r3) :- DecodeString(r2);
      var (timestamp, r4) :- DecodeU64(r3);
      var (lifetime, r5) :- DecodeU64(r4);
      var (payload, r6) :- DecodeBytes(r5);
      Some((Bundle(PrimaryBlock(version, destination, source, reportTo, timestamp, lifetime), payload), r6))
  }

  /** `serde_cbor::from_slice::<Bundle>`: fails on malformed input and on
      input with bytes left over after the bundle. */
  function Decode(b: Bytes): Option<Bundle>
  {
    var (bundle, rest) :- DecodeFields(b);
    if |rest| == 0 then Some(bundle) else None
  }

  /** Decoding the encoding of a bundle gives the bundle back. */
  lemma RoundTrip(b: Bundle)
    ensures Decode(Encode(b)) == Some(b)
  {
    var h := b.primary;
    var t5 := EncodeBytes(b.payload);
    var t4 := EncodeNat(h.lifetime as nat) + t5;
    var t3 := EncodeNat(h.creationTimestamp as nat) + t4;
    var t2 := EncodeString(h.reportTo) + t3;
    var t1 := EncodeString(h.source) + t2;
    var t0 := EncodeString(h.destination) + t1;
    assert Encode(b)[1..] == t0;
    DecodeStringRoundTrip(h.destination, t1);
    DecodeStringRoundTrip(h.source, t2);
    DecodeStringRoundTrip(h.reportTo, t3);
    DecodeNatRoundTrip(h.creationTimestamp as nat, t4);
    assert DecodeU64(t3) == Some((h.creationTimestamp, t4));
    DecodeNatRoundTrip(h.lifetime as nat, t5);
    assert DecodeU64(t4) == Some((h.lifetime, t5));
    assert t5 == EncodeBytes(b.payload) + [];
    DecodeBytesRoundTrip(b.payload, []);
    assert DecodeFields(Encode(b)) == Some((b, []));
  }

  /** Distinct bundles have distinct encodings. */
  lemma EncodeInjective(a: Bundle, b: Bundle)
    requires Encode(a) == Encode(b)
    ensures a == b
  {
    RoundTrip(a);
    RoundTrip(b);
  }

  /** The empty byte string is not a bundle. */
  lemma EmptyDoesNotDecode()
    ensures Decode([]) == None
  {
  }
}
