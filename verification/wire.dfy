/**
  Byte-level vocabulary of the wire layer: bytes, fixed-width big-endian integers in
  two's complement, and the streaming primitives (`take`, `tag`, big-endian reads) the
  parsers are built from. A streaming read of more bytes than remain fails with
  `Incomplete`; a tag that disagrees with the input fails with `Mismatch`.
*/
module Wire {
  import opened Wrappers

  type uint8 = x: int | 0 <= x < 0x100
  type Bytes = seq<uint8>

  type int8 = x: int | -0x80 <= x < 0x80
  type int16 = x: int | -0x8000 <= x < 0x8000
  type int32 = x: int | -0x8000_0000 <= x < 0x8000_0000
  type int64 = x: int | -0x8000_0000_0000_0000 <= x < 0x8000_0000_0000_0000

  /** Why a streaming parser stopped: more input is needed, or the input is wrong. */
  datatype ParseError = Incomplete | Mismatch

  /** A parser's success value together with the unconsumed tail. */
  datatype Parsed<+T> = Parsed(value: T, rest: Bytes)

  function Pow256(n: nat): (r: nat)
    ensures r >= 1
  {
    if n == 0 then 1 else 256 * Pow256(n - 1)
  }

  lemma Pow256Values()
    ensures Pow256(1) == 0x100 && Pow256(2) == 0x1_0000
    ensures Pow256(4) == 0x1_0000_0000 && Pow256(8) == 0x1_0000_0000_0000_0000
  {
    assert Pow256(1) == 0x100;
    assert Pow256(2) == 0x1_0000;
    assert Pow256(3) == 0x100_0000;
    assert Pow256(4) == 0x1_0000_0000;
    assert Pow256(5) == 0x100_0000_0000;
    assert Pow256(6) == 0x1_0000_0000_0000;
    assert Pow256(7) == 0x100_0000_0000_0000;
  }

  /** The unsigned number v written as exactly n big-endian bytes. */
  function BeEncode(v: nat, n: nat): (r: Bytes)
    requires v < Pow256(n)
    ensures |r| == n
  {
    if n == 0 then []
    else
      assert v / 256 < Pow256(n - 1) by { DivBound(v, Pow256(n - 1)); }
      BeEncode(v / 256, n - 1) + [v % 256]
  }

  /** The unsigned number that the big-endian bytes s denote. */
  function BeDecode(s: Bytes): (r: nat)
    ensures r < Pow256(|s|)
  {
    if |s| == 0 then 0
    else
      var hi := BeDecode(s[..|s| - 1]);
      assert hi * 256 + s[|s| - 1] < Pow256(|s|) by { MulBound(hi, Pow256(|s| - 1), s[|s| - 1]); }
      hi * 256 + s[|s| - 1]
  }

  lemma DivBound(v: nat, p: nat)
    requires v < 256 * p
    ensures v / 256 < p
  {
  }

  lemma MulBound(hi: nat, p: nat, lo: nat)
    requires hi < p && lo < 256
    ensures hi * 256 + lo < 256 * p
  {
  }

  lemma {:induction false} BeDecodeEncode(v: nat, n: nat)
    requires v < Pow256(n)
    ensures BeDecode(BeEncode(v, n)) == v
  {
    if n > 0 {
      DivBound(v, Pow256(n - 1));
      var s := BeEncode(v, n);
      assert s[..n - 1] == BeEncode(v / 256, n - 1);
      BeDecodeEncode(v / 256, n - 1);
    }
  }

  lemma {:induction false} BeEncodeDecode(s: Bytes)
    ensures BeEncode(BeDecode(s), |s|) == s
  {
    if |s| > 0 {
      var init := s[..|s| - 1];
      BeEncodeDecode(init);
      var v := BeDecode(s);
      assert v / 256 == BeDecode(init) && v % 256 == s[|s| - 1];
      assert s == init + [s[|s| - 1]];
    }
  }

  /** Euclidean division is pinned down by quotient and remainder. */
  lemma ModUnique(v: int, p: int, q: int, r: int)
    requires p > 0 && 0 <= r < p && v == q * p + r
    ensures v % p == r
  {
    var d := q - v / p;
    assert d * p == v % p - r;
    assert d <= 0 by {
      if d > 0 { MulNonNegative(d - 1, p); }
    }
    assert d >= 0 by {
      if d < 0 { MulNonNegative(-d - 1, p); }
    }
  }

  /** ... and so is the quotient. */
  lemma DivUnique(v: int, p: int, q: int, r: int)
    requires p > 0 && 0 <= r < p && v == q * p + r
    ensures v / p == q && v % p == r
  {
    ModUnique(v, p, q, r);
    var d := v / p - q;
    assert d * p == 0;
    assert d <= 0 by {
      if d > 0 { MulNonNegative(d - 1, p); }
    }
    assert d >= 0 by {
      if d < 0 { MulNonNegative(-d - 1, p); }
    }
  }

  lemma MulNonNegative(a: int, b: int)
    requires a >= 0 && b >= 0
    ensures a * b >= 0
  {
  }

  /** Two's-complement bit pattern of v in n bytes: the `as uN` reinterpretation of the source. */
  function ToUnsigned(v: int, n: nat): (u: nat)
    ensures u < Pow256(n)
  {
    v % Pow256(n)
  }

  /** The signed n-byte integer whose bit pattern is u. */
  function ToSigned(u: nat, n: nat): int
  {
    if 2 * u >= Pow256(n) then u - Pow256(n) else u
  }

  predicate InSigned(v: int, n: nat)
  {
    -(Pow256(n) as int) <= 2 * v < Pow256(n)
  }

  lemma SignedUnsigned(v: int, n: nat)
    requires InSigned(v, n)
    ensures ToSigned(ToUnsigned(v, n), n) == v
  {
    if v >= 0 {
      ModUnique(v, Pow256(n), 0, v);
    } else {
      ModUnique(v, Pow256(n), -1, v + Pow256(n));
    }
  }

  lemma UnsignedSigned(u: nat, n: nat)
    requires u < Pow256(n)
    ensures InSigned(ToSigned(u, n), n)
    ensures ToUnsigned(ToSigned(u, n), n) == u
  {
    if 2 * u >= Pow256(n) {
      ModUnique(u - Pow256(n), Pow256(n), -1, u);
    } else {
      ModUnique(u, Pow256(n), 0, u);
    }
  }

  /** The bit pattern of a negative value is the value plus 256^n. */
  lemma ToUnsignedCases(v: int, n: nat)
    requires -(Pow256(n) as int) <= v < Pow256(n)
    ensures v >= 0 ==> ToUnsigned(v, n) == v
    ensures v < 0 ==> ToUnsigned(v, n) == v + Pow256(n)
  {
    if v >= 0 {
      ModUnique(v, Pow256(n), 0, v);
    } else {
      ModUnique(v, Pow256(n), -1, v + Pow256(n));
    }
  }

  lemma WrapIdentity(v: int, n: nat)
    ensures InSigned(v, n) ==> ToSigned(ToUnsigned(v, n), n) == v
  {
    if InSigned(v, n) { SignedUnsigned(v, n); }
  }

  /** The truncating `as iN` cast of the source: keep the low n bytes, read them back as signed. */
  function Wrap(v: int, n: nat): (r: int)
    ensures InSigned(r, n)
    ensures ToUnsigned(r, n) == ToUnsigned(v, n)
    ensures InSigned(v, n) ==> r == v
  {
    UnsignedSigned(ToUnsigned(v, n), n);
    WrapIdentity(v, n);
    ToSigned(ToUnsigned(v, n), n)
  }

  /** `to_be_bytes` of a signed n-byte integer. */
  function EncodeInt(v: int, n: nat): (r: Bytes)
    ensures |r| == n
  {
    BeEncode(ToUnsigned(v, n), n)
  }

  /** `from_be_bytes` of a signed integer as wide as s. */
  function DecodeInt(s: Bytes): (r: int)
    ensures InSigned(r, |s|)
  {
    UnsignedSigned(BeDecode(s), |s|);
    ToSigned(BeDecode(s), |s|)
  }

  lemma DecodeEncodeInt(v: int, n: nat)
    requires InSigned(v, n)
    ensures DecodeInt(EncodeInt(v, n)) == v
  {
    BeDecodeEncode(ToUnsigned(v, n), n);
    SignedUnsigned(v, n);
  }

  lemma EncodeDecodeInt(s: Bytes)
    ensures EncodeInt(DecodeInt(s), |s|) == s
  {
    BeEncodeDecode(s);
    UnsignedSigned(BeDecode(s), |s|);
  }

  /** Two encodings of the same width are equal exactly when the values agree modulo the width. */
  lemma EncodeIntInjective(a: int, b: int, n: nat)
    requires InSigned(a, n) && InSigned(b, n)
    requires EncodeInt(a, n) == EncodeInt(b, n)
    ensures a == b
  {
    DecodeEncodeInt(a, n);
    DecodeEncodeInt(b, n);
  }

  // Streaming primitives (nom `streaming` combinators).

  /** `take(n)`: the next n bytes, or `Incomplete` when fewer remain. */
  function Take(s: Bytes, n: nat): (r: Result<Parsed<Bytes>, ParseError>)
    ensures r.Ok? <==> n <= |s|
    ensures r.Ok? ==> r.value.value + r.value.rest == s && |r.value.value| == n
    ensures r.Err? ==> r.error == Incomplete
  {
    if n <= |s| then Ok(Parsed(s[..n], s[n..])) else Err(Incomplete)
  }

  /** A big-endian signed integer of n bytes (`be_i8`, `be_i16`, `be_i32`). */
  function TakeInt(s: Bytes, n: nat): (r: Result<Parsed<int>, ParseError>)
    ensures r.Ok? <==> n <= |s|
    ensures r.Ok? ==> r.value.rest == s[n..] && InSigned(r.value.value, n)
    ensures r.Ok? ==> EncodeInt(r.value.value, n) == s[..n]
  {
    if n <= |s| then
      EncodeDecodeInt(s[..n]);
      Ok(Parsed(DecodeInt(s[..n]), s[n..]))
    else Err(Incomplete)
  }

  /** A big-endian unsigned integer of n bytes. */
  function TakeUnsigned(s: Bytes, n: nat): (r: Result<Parsed<nat>, ParseError>)
    ensures r.Ok? <==> n <= |s|
    ensures r.Ok? ==> r.value.rest == s[n..] && r.value.value < Pow256(n)
    ensures r.Ok? ==> BeEncode(r.value.value, n) == s[..n]
  {
    if n <= |s| then
      BeEncodeDecode(s[..n]);
      Ok(Parsed(BeDecode(s[..n]), s[n..]))
    else Err(Incomplete)
  }

  /**
    `tag(t)` in streaming mode: succeeds when s starts with t; `Incomplete` when s is a
    proper prefix of t; `Mismatch` as soon as a compared byte differs.
  */
  function Tag(s: Bytes, t: Bytes): (r: Result<Bytes, ParseError>)
    ensures r.Ok? <==> |t| <= |s| && s[..|t|] == t
    ensures r.Ok? ==> r.value == s[|t|..]
    ensures r == Err(Incomplete) <==> |s| < |t| && s == t[..|s|]
  {
    if |t| <= |s| then
      if s[..|t|] == t then Ok(s[|t|..]) else Err(Mismatch)
    else if s == t[..|s|] then Err(Incomplete)
    else Err(Mismatch)
  }

  /** The ASCII bytes "TRTP", the protocol tag of both handshakes. */
  const TRTP: Bytes := [0x54, 0x52, 0x54, 0x50]
}
