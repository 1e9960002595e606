/**
  The connection handshake. The client opens with "TRTP", a 4-byte sub-protocol id and
  two 2-byte version numbers (12 bytes); the server answers "TRTP" and a 4-byte error
  code (8 bytes). Both decoders are streaming: a prefix of a valid handshake is
  `Incomplete`, a wrong protocol tag is `Mismatch`.
*/
module Handshake {
  import opened Wrappers
  import opened Wire
  import opened Protocol

  datatype ClientHandshakeRequest = ClientHandshakeRequest(subProtocolId: int32, version: int16, subVersion: int16)

  datatype ServerHandshakeReply = ServerHandshakeReply(errorCode: ErrorCode)

  /** `ServerHandshakeReply::ok()`. */
  const OkReply: ServerHandshakeReply := ServerHandshakeReply(OkCode)

  function EncodeClient(h: ClientHandshakeRequest): (r: Bytes)
    ensures |r| == 12 && r[..4] == TRTP
    ensures r[4..8] == EncodeInt(h.subProtocolId, 4)
    ensures r[8..10] == EncodeInt(h.version, 2) && r[10..] == EncodeInt(h.subVersion, 2)
  {
    TRTP + EncodeInt(h.subProtocolId, 4) + EncodeInt(h.version, 2) + EncodeInt(h.subVersion, 2)
  }

  function DecodeClient(s: Bytes): (r: Result<Parsed<ClientHandshakeRequest>, ParseError>)
    ensures r.Ok? <==> |s| >= 12 && s[..4] == TRTP
    ensures r.Ok? ==> EncodeClient(r.value.value) == s[..12] && r.value.rest == s[12..]
    ensures r == Err(Incomplete) <==> |s| < 12 && s[..Min(|s|, 4)] == TRTP[..Min(|s|, 4)]
  {
    var body :- Tag(s, TRTP);
    var p :- TakeInt(body, 4);
    var v :- TakeInt(p.rest, 2);
    var sv :- TakeInt(v.rest, 2);
    Pow256Values();
    assert s[4..8] == body[..4] && s[8..10] == p.rest[..2] && s[10..12] == v.rest[..2];
    Ok(Parsed(ClientHandshakeRequest(p.value, v.value, sv.value), sv.rest))
  }

  function Min(a: int, b: int): int
  {
    if a < b then a else b
  }

  /** A client handshake followed by anything decodes to itself, leaving exactly the rest. */
  lemma DecodeEncodeClient(h: ClientHandshakeRequest, rest: Bytes)
    ensures DecodeClient(EncodeClient(h) + rest) == Ok(Parsed(h, rest))
  {
    var s := EncodeClient(h) + rest;
    assert s[..12] == EncodeClient(h) && s[12..] == rest;
    var h' := DecodeClient(s).value.value;
    Pow256Values();
    assert EncodeInt(h'.subProtocolId, 4) == EncodeInt(h.subProtocolId, 4);
    EncodeIntInjective(h'.subProtocolId, h.subProtocolId, 4);
    EncodeIntInjective(h'.version, h.version, 2);
    EncodeIntInjective(h'.subVersion, h.subVersion, 2);
  }

  function EncodeServer(h: ServerHandshakeReply): (r: Bytes)
    ensures |r| == 8 && r[..4] == TRTP && r[4..] == EncodeErrorCode(h.errorCode)
  {
    TRTP + EncodeErrorCode(h.errorCode)
  }

  function DecodeServer(s: Bytes): (r: Result<Parsed<ServerHandshakeReply>, ParseError>)
    ensures r.Ok? <==> |s| >= 8 && s[..4] == TRTP
    ensures r.Ok? ==> EncodeServer(r.value.value) == s[..8] && r.value.rest == s[8..]
    ensures r == Err(Incomplete) <==> |s| < 8 && s[..Min(|s|, 4)] == TRTP[..Min(|s|, 4)]
  {
    var body :- Tag(s, TRTP);
    var e :- DecodeErrorCode(body);
    assert s[4..8] == body[..4];
    Ok(Parsed(ServerHandshakeReply(e.value), e.rest))
  }

  /** A server reply followed by anything decodes to itself, leaving exactly the rest. */
  lemma DecodeEncodeServer(h: ServerHandshakeReply, rest: Bytes)
    ensures DecodeServer(EncodeServer(h) + rest) == Ok(Parsed(h, rest))
  {
    var s := EncodeServer(h) + rest;
    assert s[..4] == TRTP && s[4..] == EncodeErrorCode(h.errorCode) + rest;
    DecodeEncodeErrorCode(h.errorCode, rest);
  }

  /** `ok()` carries error code 0 and is "TRTP" followed by four zero bytes. */
  lemma OkReplyBytes()
    ensures OkReply.errorCode.code == 0
    ensures EncodeServer(OkReply) == [0x54, 0x52, 0x54, 0x50, 0, 0, 0, 0]
  {
    OkCodeBytes();
  }

  /** The client test vector: "TRTP", sub-protocol "HOTL", version 1, sub-version 2. */
  lemma ClientVector()
    ensures DecodeClient([0x54, 0x52, 0x54, 0x50, 0x48, 0x4f, 0x54, 0x4c, 0x00, 0x01, 0x00, 0x02])
      == Ok(Parsed(ClientHandshakeRequest(0x484f544c, 1, 2), []))
  {
    var h := ClientHandshakeRequest(0x484f544c, 1, 2);
    Pow256Values();
    assert EncodeClient(h) == [0x54, 0x52, 0x54, 0x50, 0x48, 0x4f, 0x54, 0x4c, 0x00, 0x01, 0x00, 0x02];
    DecodeEncodeClient(h, []);
    assert EncodeClient(h) + [] == EncodeClient(h);
  }

  /** The server test vector decodes to error code 0 with nothing left over. */
  lemma ServerVector()
    ensures DecodeServer([0x54, 0x52, 0x54, 0x50, 0, 0, 0, 0]) == Ok(Parsed(OkReply, []))
  {
    OkReplyBytes();
    DecodeEncodeServer(OkReply, []);
    assert EncodeServer(OkReply) + [] == EncodeServer(OkReply);
  }
}
