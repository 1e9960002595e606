/**
  Transaction frames: a fixed 20-byte big-endian header followed by a body of
  parameters. The header names the transaction type by its 16-bit code; the body is a
  2-byte parameter count followed by, for each parameter, a 2-byte field id, a 2-byte
  length and that many data bytes.
*/
module Transactions {
  import opened Wrappers
  import opened Wire
  import opened Protocol
  import F = TransactionFields
  import TT = TransactionTypes

  datatype TransactionHeader = TransactionHeader(
    flags: int8,
    isReply: int8,
    typeId: int16,
    id: int32,
    errorCode: ErrorCode,
    totalSize: int32,
    dataSize: int32)

  /** The all-zero header (`Default`), whose type code 0 is `Reply`. */
  const DefaultHeader: TransactionHeader := TransactionHeader(0, 0, 0, 0, OkCode, 0, 0)

  const HeaderSize: nat := 20

  function EncodeHeader(h: TransactionHeader): (r: Bytes)
    ensures |r| == HeaderSize
    ensures r[0..1] == EncodeInt(h.flags, 1) && r[1..2] == EncodeInt(h.isReply, 1)
    ensures r[2..4] == EncodeInt(h.typeId, 2) && r[4..8] == EncodeInt(h.id, 4)
    ensures r[8..12] == EncodeErrorCode(h.errorCode)
    ensures r[12..16] == EncodeInt(h.totalSize, 4) && r[16..20] == EncodeInt(h.dataSize, 4)
  {
    EncodeInt(h.flags, 1) + EncodeInt(h.isReply, 1) + EncodeInt(h.typeId, 2) + EncodeInt(h.id, 4)
    + EncodeErrorCode(h.errorCode) + EncodeInt(h.totalSize, 4) + EncodeInt(h.dataSize, 4)
  }

  /** The header decoder: the same seven fields read back in the same order. */
  function DecodeHeader(s: Bytes): (r: Result<Parsed<TransactionHeader>, ParseError>)
    ensures r.Ok? <==> |s| >= HeaderSize
    ensures r.Err? ==> r.error == Incomplete
    ensures r.Ok? ==> EncodeHeader(r.value.value) == s[..HeaderSize] && r.value.rest == s[HeaderSize..]
  {
    var f :- TakeInt(s, 1);
    var ir :- TakeInt(f.rest, 1);
    var t :- TakeInt(ir.rest, 2);
    var id :- TakeInt(t.rest, 4);
    var e :- DecodeErrorCode(id.rest);
    var ts :- TakeInt(e.rest, 4);
    var ds :- TakeInt(ts.rest, 4);
    Pow256Values();
    var h := TransactionHeader(f.value, ir.value, t.value, id.value, e.value, ts.value, ds.value);
    assert s[..HeaderSize] == s[0..1] + s[1..2] + s[2..4] + s[4..8] + s[8..12] + s[12..16] + s[16..20];
    Ok(Parsed(h, ds.rest))
  }

  /** A header followed by anything decodes to itself and leaves exactly the rest. */
  lemma DecodeEncodeHeader(h: TransactionHeader, rest: Bytes)
    ensures DecodeHeader(EncodeHeader(h) + rest) == Ok(Parsed(h, rest))
  {
    var s := EncodeHeader(h) + rest;
    assert s[..HeaderSize] == EncodeHeader(h) && s[HeaderSize..] == rest;
    var g := DecodeHeader(s).value.value;
    assert EncodeHeader(g) == EncodeHeader(h);
    Pow256Values();
    EncodeIntInjective(g.flags, h.flags, 1);
    EncodeIntInjective(g.isReply, h.isReply, 1);
    EncodeIntInjective(g.typeId, h.typeId, 2);
    EncodeIntInjective(g.id, h.id, 4);
    EncodeIntInjective(g.errorCode.code, h.errorCode.code, 4);
    EncodeIntInjective(g.totalSize, h.totalSize, 4);
    EncodeIntInjective(g.dataSize, h.dataSize, 4);
  }

  /** `transaction_type`: the declared type named by the header's code. */
  function TransactionType(h: TransactionHeader): (r: Result<TT.TransactionType, ProtocolError>)
    ensures r.Ok? ==> TT.Code(r.value) == h.typeId
    ensures r.Err? ==> r.error == UnsupportedTransaction(h.typeId)
    ensures r.Err? <==> forall t: TT.TransactionType :: TT.Code(t) != h.typeId
  {
    TT.FromCodeSound(h.typeId);
    TT.FromCodeNone(h.typeId);
    match TT.FromCode(h.typeId)
    case Some(t) => Ok(t)
    case None => Err(UnsupportedTransaction(h.typeId))
  }

  /** `require_transaction_type`: the header itself when its type is `expected`. */
  function RequireType(h: TransactionHeader, expected: TT.TransactionType): (r: Result<TransactionHeader, ProtocolError>)
    ensures r.Ok? <==> h.typeId == TT.Code(expected)
    ensures r.Ok? ==> r.value == h
    ensures r.Err? && TransactionType(h).Err? ==> r.error == UnsupportedTransaction(h.typeId)
    ensures r.Err? && TransactionType(h).Ok? ==> r.error == UnexpectedTransaction(TT.Code(expected), h.typeId)
  {
    var t :- TransactionType(h);
    TT.FromCodeCode(expected);
    if t == expected then Ok(h)
    else
      assert TT.Code(t) != TT.Code(expected) by {
        if TT.Code(t) == TT.Code(expected) { TT.CodeInjective(t, expected); }
      }
      Err(UnexpectedTransaction(TT.Code(expected), TT.Code(t)))
  }

  /**
    `body_len`: `data_size` converted to a 64-bit `usize`. A negative size is
    sign-extended, so it names a body of at least 2^63 bytes instead of being rejected.
  */
  function BodyLen(h: TransactionHeader): (r: nat)
    ensures h.dataSize >= 0 ==> r == h.dataSize
    ensures h.dataSize < 0 ==> r == h.dataSize + 0x1_0000_0000_0000_0000 && r >= 0x8000_0000_0000_0000
  {
    Pow256Values();
    ToUnsignedCases(h.dataSize, 8);
    ToUnsigned(h.dataSize, 8)
  }

  /** One parameter of a transaction body. */
  datatype Parameter = Parameter(fieldId: F.FieldId, data: Bytes)

  datatype TransactionBody = TransactionBody(parameters: seq<Parameter>)

  /** `field_matches`. */
  predicate FieldMatches(p: Parameter, field: F.FieldId)
  {
    p.fieldId == field
  }

  /** Field id, then the 16-bit data length (as a `u16` cast), then the data. */
  function EncodeParameter(p: Parameter): (r: Bytes)
    ensures |r| == 4 + |p.data|
  {
    EncodeInt(p.fieldId, 2) + BeEncode(ToUnsigned(|p.data|, 2), 2) + p.data
  }

  function EncodeParameters(ps: seq<Parameter>): Bytes
  {
    if |ps| == 0 then [] else EncodeParameter(ps[0]) + EncodeParameters(ps[1..])
  }

  /** The parameter count as a `u16`, then every parameter in order. */
  function EncodeBody(b: TransactionBody): Bytes
  {
    BeEncode(ToUnsigned(|b.parameters|, 2), 2) + EncodeParameters(b.parameters)
  }

  /** The body's lengths fit the 16-bit length fields. */
  predicate Encodable(b: TransactionBody)
  {
    |b.parameters| < 0x1_0000 && forall i :: 0 <= i < |b.parameters| ==> |b.parameters[i].data| < 0x1_0000
  }

  function DecodeParameter(s: Bytes): (r: Result<Parsed<Parameter>, ParseError>)
    ensures r.Ok? ==> EncodeParameter(r.value.value) + r.value.rest == s
  {
    var id :- TakeInt(s, 2);
    var len :- TakeUnsigned(id.rest, 2);
    var data :- Take(len.rest, len.value);
    Pow256Values();
    ModUnique(|data.value|, Pow256(2), 0, |data.value|);
    assert s == s[..2] + (s[2..4] + (data.value + data.rest));
    Ok(Parsed(Parameter(id.value, data.value), data.rest))
  }

  /** `count(parameter, n)`: exactly n parameters in a row. */
  function DecodeParameters(s: Bytes, n: nat): (r: Result<Parsed<seq<Parameter>>, ParseError>)
    ensures r.Ok? ==> |r.value.value| == n && EncodeParameters(r.value.value) + r.value.rest == s
  {
    if n == 0 then Ok(Parsed([], s))
    else
      var p :- DecodeParameter(s);
      var ps :- DecodeParameters(p.rest, n - 1);
      assert ([p.value] + ps.value)[1..] == ps.value;
      Ok(Parsed([p.value] + ps.value, ps.rest))
  }

  /**
    The body decoder. An empty buffer is a body without parameters (the frames with
    `data_size` 0 that the server itself sends); otherwise a count and that many parameters.
  */
  function DecodeBody(s: Bytes): (r: Result<Parsed<TransactionBody>, ParseError>)
    ensures |s| == 0 ==> r == Ok(Parsed(TransactionBody([]), []))
    ensures |s| > 0 && r.Ok? ==> EncodeBody(r.value.value) + r.value.rest == s
  {
    if |s| == 0 then Ok(Parsed(TransactionBody([]), []))
    else
      var n :- TakeUnsigned(s, 2);
      var ps :- DecodeParameters(n.rest, n.value);
      Pow256Values();
      ModUnique(n.value, Pow256(2), 0, n.value);
      assert s == s[..2] + n.rest;
      Ok(Parsed(TransactionBody(ps.value), ps.rest))
  }

  lemma DecodeEncodeParameter(p: Parameter, rest: Bytes)
    requires |p.data| < 0x1_0000
    ensures DecodeParameter(EncodeParameter(p) + rest) == Ok(Parsed(p, rest))
  {
    Pow256Values();
    var s := EncodeParameter(p) + rest;
    ModUnique(|p.data|, Pow256(2), 0, |p.data|);
    assert s[..2] == EncodeInt(p.fieldId, 2);
    DecodeEncodeInt(p.fieldId, 2);
    assert s[2..] == BeEncode(|p.data|, 2) + (p.data + rest);
    BeDecodeEncode(|p.data|, 2);
    assert s[2..][..2] == BeEncode(|p.data|, 2);
    assert s[4..] == p.data + rest;
    assert s[4..][..|p.data|] == p.data;
  }

  lemma {:induction false} DecodeEncodeParameters(ps: seq<Parameter>, rest: Bytes)
    requires forall i :: 0 <= i < |ps| ==> |ps[i].data| < 0x1_0000
    ensures DecodeParameters(EncodeParameters(ps) + rest, |ps|) == Ok(Parsed(ps, rest))
  {
    if |ps| > 0 {
      var tail := EncodeParameters(ps[1..]) + rest;
      assert EncodeParameters(ps) + rest == EncodeParameter(ps[0]) + tail;
      DecodeEncodeParameter(ps[0], tail);
      DecodeEncodeParameters(ps[1..], rest);
      assert DecodeParameters(tail, |ps| - 1) == Ok(Parsed(ps[1..], rest));
      assert [ps[0]] + ps[1..] == ps;
    } else {
      assert EncodeParameters(ps) + rest == rest;
    }
  }

  /** An encodable body followed by anything decodes to itself and leaves exactly the rest. */
  lemma DecodeEncodeBody(b: TransactionBody, rest: Bytes)
    requires Encodable(b)
    ensures DecodeBody(EncodeBody(b) + rest) == Ok(Parsed(b, rest))
  {
    Pow256Values();
    var n := |b.parameters|;
    ModUnique(n, Pow256(2), 0, n);
    var s := EncodeBody(b) + rest;
    assert s == BeEncode(n, 2) + (EncodeParameters(b.parameters) + rest);
    assert s[..2] == BeEncode(n, 2);
    BeDecodeEncode(n, 2);
    assert s[2..] == EncodeParameters(b.parameters) + rest;
    DecodeEncodeParameters(b.parameters, rest);
  }

  datatype TransactionFrame = TransactionFrame(header: TransactionHeader, body: TransactionBody)

  /** A frame's header with both size fields set to the encoded body length, as an `i32`. */
  function Sized(f: TransactionFrame): (r: TransactionFrame)
    ensures r.body == f.body
    ensures r.header == f.header.(totalSize := r.header.totalSize, dataSize := r.header.dataSize)
    ensures |EncodeBody(f.body)| < 0x8000_0000 ==> r.header.dataSize == r.header.totalSize == |EncodeBody(f.body)|
  {
    Pow256Values();
    var n := Wrap(|EncodeBody(f.body)|, 4);
    TransactionFrame(f.header.(totalSize := n, dataSize := n), f.body)
  }

  /** A frame on the wire: the sized header, then the body. */
  function EncodeFrame(f: TransactionFrame): (r: Bytes)
    ensures |r| == HeaderSize + |EncodeBody(f.body)|
    ensures r[..HeaderSize] == EncodeHeader(Sized(f).header) && r[HeaderSize..] == EncodeBody(f.body)
  {
    EncodeHeader(Sized(f).header) + EncodeBody(f.body)
  }

  /** `TransactionFrame::empty(header)`: a frame without parameters. */
  function EmptyFrame(h: TransactionHeader): TransactionFrame
  {
    TransactionFrame(h, TransactionBody([]))
  }

  /** `require_transaction_type` lifted to frames: the frame itself, or the header's error. */
  function RequireFrameType(f: TransactionFrame, expected: TT.TransactionType): (r: Result<TransactionFrame, ProtocolError>)
    ensures r.Ok? <==> f.header.typeId == TT.Code(expected)
    ensures r.Ok? ==> r.value == f
    ensures r.Err? ==> r.error == RequireType(f.header, expected).error
  {
    var _ :- RequireType(f.header, expected);
    Ok(f)
  }
}
