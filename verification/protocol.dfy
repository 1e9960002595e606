/**
  The protocol layer's error type and the 4-byte error code carried by handshake
  replies and transaction headers.
*/
module Protocol {
  import opened Wrappers
  import opened Wire
  import F = TransactionFields

  /** Every way decoding or viewing a transaction can fail. */
  datatype ProtocolError =
    | Io
    | ParseHeader
    | ParseBody
    | MissingField(field: F.FieldId)
    | MalformedData(field: F.FieldId)
    | UnexpectedTransaction(expected: int16, encountered: int16)
    | UnsupportedTransaction(typeId: int16)
    | SystemError

  /** A signed 32-bit error code; zero means success. */
  datatype ErrorCode = ErrorCode(code: int32)

  /** `ErrorCode::ok()`, which is also the default. */
  const OkCode: ErrorCode := ErrorCode(0)

  function EncodeErrorCode(e: ErrorCode): (r: Bytes)
    ensures |r| == 4
  {
    EncodeInt(e.code, 4)
  }

  /** `be_i32` in streaming mode. */
  function DecodeErrorCode(s: Bytes): (r: Result<Parsed<ErrorCode>, ParseError>)
    ensures r.Ok? <==> |s| >= 4
    ensures r.Err? ==> r.error == Incomplete
    ensures r.Ok? ==> EncodeErrorCode(r.value.value) == s[..4] && r.value.rest == s[4..]
  {
    var n := TakeInt(s, 4);
    if n.Err? then Err(Incomplete)
    else
      Pow256Values();
      Ok(Parsed(ErrorCode(n.value.value), n.value.rest))
  }

  /** Decoding an encoded code followed by anything gives the code back and the rest untouched. */
  lemma DecodeEncodeErrorCode(e: ErrorCode, rest: Bytes)
    ensures DecodeErrorCode(EncodeErrorCode(e) + rest) == Ok(Parsed(e, rest))
  {
    var s := EncodeErrorCode(e) + rest;
    assert s[..4] == EncodeErrorCode(e);
    Pow256Values();
    DecodeEncodeInt(e.code, 4);
  }

  /** The success code is four zero bytes. */
  lemma OkCodeBytes()
    ensures EncodeErrorCode(OkCode) == [0, 0, 0, 0]
  {
    Pow256Values();
  }
}
