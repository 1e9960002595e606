/**
  The captured login transaction the protocol module's own unit test parses: a client
  logging in as "jyelloz" with password "123456" and icon 145.
*/
module LoginVector {
  import opened Wrappers
  import opened Wire
  import opened Protocol
  import F = TransactionFields
  import TT = TransactionTypes
  import opened Transactions
  import opened Frames
  import opened Parameters
  import opened Requests

  const HeaderBytes: Bytes := [
    0x00, 0x00, 0x00, 0x6b, 0x00, 0x00, 0x00, 0x01,
    0x00, 0x00, 0x00, 0x00, 0x00, 0x00, 0x00, 0x28,
    0x00, 0x00, 0x00, 0x28]

  const Cleartext: Bytes := [0x6a, 0x79, 0x65, 0x6c, 0x6c, 0x6f, 0x7a]
  const ObfuscatedLogin: Bytes := [0x95, 0x86, 0x9a, 0x93, 0x93, 0x90, 0x85]
  const Digits: Bytes := [0x31, 0x32, 0x33, 0x34, 0x35, 0x36]
  const ObfuscatedPassword: Bytes := [0xce, 0xcd, 0xcc, 0xcb, 0xca, 0xc9]

  /** The 60 bytes of the capture, grouped as header, count and the four parameters. */
  const Vector: Bytes :=
    HeaderBytes + [0x00, 0x04]
    + [0x00, 0x69, 0x00, 0x07] + ObfuscatedLogin
    + [0x00, 0x6a, 0x00, 0x06] + ObfuscatedPassword
    + [0x00, 0x66, 0x00, 0x07] + Cleartext
    + [0x00, 0x68, 0x00, 0x02, 0x00, 0x91]

  const Expected: LoginRequest :=
    LoginRequest(Some(LoginFromCleartext(Cleartext)), Some(Nickname(Cleartext)), Some(PasswordFromCleartext(Digits)), Some(145))

  /** The frame the vector carries: login, password, nickname, then the icon. */
  const VectorFrame: TransactionFrame := TransactionFrame(
    TransactionHeader(0, 0, 0x6b, 1, OkCode, 0x28, 0x28),
    TransactionBody([
      Parameter(0x69, ObfuscatedLogin),
      Parameter(0x6a, ObfuscatedPassword),
      Parameter(0x66, Cleartext),
      Parameter(0x68, [0x00, 0x91])]))

  lemma {:induction false} BeZero(k: nat)
    ensures Pow256(k) > 0 && BeEncode(0, k) == seq(k, _ => 0)
  {
    if k > 0 {
      BeZero(k - 1);
    }
  }

  /** A one-byte value written n bytes wide: leading zeros, then the value. */
  lemma SmallInt(v: nat, n: nat)
    requires 1 <= n && v < 0x100
    ensures n == 1 ==> EncodeInt(v, n) == [v]
    ensures n == 2 ==> EncodeInt(v, n) == [0, v]
    ensures n == 4 ==> EncodeInt(v, n) == [0, 0, 0, v]
  {
    var zeros := SmallBeEncode(v, n);
    if n == 2 {
      assert zeros == [0];
    } else if n == 4 {
      assert zeros == [0, 0, 0];
    }
  }

  /** The n-byte encoding of a value below 256 is n - 1 zero bytes followed by it. */
  lemma SmallBeEncode(v: nat, n: nat) returns (zeros: Bytes)
    requires 1 <= n && v < 0x100
    ensures zeros == seq(n - 1, _ => 0)
    ensures EncodeInt(v, n) == zeros + [v]
  {
    PowGrows(n);
    assert ToUnsigned(v, n) == v by { ModUnique(v, Pow256(n), 0, v); }
    assert v / 256 == 0 && v % 256 == v;
    BeZero(n - 1);
    zeros := BeEncode(0, n - 1);
  }

  lemma {:induction false} PowGrows(n: nat)
    requires n >= 1
    ensures Pow256(n) >= 0x100
  {
    if n > 1 {
      PowGrows(n - 1);
    }
  }

  lemma VectorHeader()
    ensures EncodeHeader(VectorFrame.header) == HeaderBytes
  {
    var h := VectorFrame.header;
    assert h == TransactionHeader(0, 0, 0x6b, 1, OkCode, 0x28, 0x28);
    HeaderFields(h);
  }

  lemma HeaderFields(h: TransactionHeader)
    requires h == TransactionHeader(0, 0, 0x6b, 1, OkCode, 0x28, 0x28)
    ensures EncodeHeader(h) == HeaderBytes
  {
    SmallHeader(h, 0, 0, 0x6b, 1, 0, 0x28, 0x28);
  }

  /** A header whose fields are all below 256 is those values, each behind its leading zero bytes. */
  lemma SmallHeader(h: TransactionHeader, a: nat, b: nat, c: nat, d: nat, e: nat, f: nat, g: nat)
    requires a < 0x80 && b < 0x80 && c < 0x100 && d < 0x100 && e < 0x100 && f < 0x100 && g < 0x100
    requires h == TransactionHeader(a, b, c, d, ErrorCode(e), f, g)
    ensures EncodeHeader(h) == [a, b, 0, c, 0, 0, 0, d, 0, 0, 0, e, 0, 0, 0, f, 0, 0, 0, g]
  {
    var r := EncodeHeader(h);
    SmallInt(a, 1);
    SmallInt(b, 1);
    SmallInt(c, 2);
    SmallInt(d, 4);
    HeaderFront(r[..8], a, b, c, d);
    SmallInt(e, 4);
    SmallInt(f, 4);
    SmallInt(g, 4);
    HeaderBack(r[8..], e, f, g);
    Join(r, 8, [a, b, 0, c, 0, 0, 0, d], [0, 0, 0, e, 0, 0, 0, f, 0, 0, 0, g]);
  }

  lemma HeaderFront(r: Bytes, a: nat, b: nat, c: nat, d: nat)
    requires |r| == 8 && r[0..1] == [a] && r[1..2] == [b] && r[2..4] == [0, c] && r[4..8] == [0, 0, 0, d]
    ensures r == [a, b, 0, c, 0, 0, 0, d]
  {
    assert r == r[0..1] + r[1..2] + r[2..4] + r[4..8];
  }

  lemma HeaderBack(r: Bytes, e: nat, f: nat, g: nat)
    requires |r| == 12 && r[0..4] == [0, 0, 0, e] && r[4..8] == [0, 0, 0, f] && r[8..12] == [0, 0, 0, g]
    ensures r == [0, 0, 0, e, 0, 0, 0, f, 0, 0, 0, g]
  {
    assert r == r[0..4] + r[4..8] + r[8..12];
  }

  /** A sequence whose first k elements are x and whose rest is y is x + y. */
  lemma Join(r: Bytes, k: nat, x: Bytes, y: Bytes)
    requires k <= |r| && r[..k] == x && r[k..] == y
    ensures r == x + y
  {
    assert r == r[..k] + r[k..];
  }

  lemma VectorParameters()
    ensures EncodeParameter(VectorFrame.body.parameters[0]) == [0x00, 0x69, 0x00, 0x07] + ObfuscatedLogin
    ensures EncodeParameter(VectorFrame.body.parameters[1]) == [0x00, 0x6a, 0x00, 0x06] + ObfuscatedPassword
    ensures EncodeParameter(VectorFrame.body.parameters[2]) == [0x00, 0x66, 0x00, 0x07] + Cleartext
    ensures EncodeParameter(VectorFrame.body.parameters[3]) == [0x00, 0x68, 0x00, 0x02, 0x00, 0x91]
  {
    SmallInt(0x69, 2);
    SmallInt(0x6a, 2);
    SmallInt(0x66, 2);
    SmallInt(0x68, 2);
    SmallInt(7, 2);
    SmallInt(6, 2);
    SmallInt(2, 2);
  }

  const P0: Bytes := [0x00, 0x69, 0x00, 0x07] + ObfuscatedLogin
  const P1: Bytes := [0x00, 0x6a, 0x00, 0x06] + ObfuscatedPassword
  const P2: Bytes := [0x00, 0x66, 0x00, 0x07] + Cleartext
  const P3: Bytes := [0x00, 0x68, 0x00, 0x02, 0x00, 0x91]

  lemma VectorParameterList()
    ensures EncodeParameters(VectorFrame.body.parameters) == P0 + (P1 + (P2 + P3))
  {
    var ps := VectorFrame.body.parameters;
    VectorParameters();
    assert EncodeParameters(ps[3..]) == P3 by {
      assert ps[3..][1..] == [];
      assert EncodeParameters(ps[3..]) == EncodeParameter(ps[3]) + [];
    }
    assert EncodeParameters(ps[2..]) == P2 + P3 by {
      assert ps[2..][1..] == ps[3..];
    }
    assert EncodeParameters(ps[1..]) == P1 + (P2 + P3) by {
      assert ps[1..][1..] == ps[2..];
    }
  }

  lemma VectorBody()
    ensures EncodeBody(VectorFrame.body) == Vector[HeaderSize..]
  {
    VectorParameterList();
    SmallInt(4, 2);
    assert Vector == HeaderBytes + ([0x00, 0x04] + (P0 + (P1 + (P2 + P3))));
  }

  /** The vector is one whole frame with nothing after it. */
  lemma VectorIsOneFrame()
    ensures NextFrame(Vector) == Step(Ok(VectorFrame), [])
  {
    VectorHeader();
    VectorBody();
    assert |Vector| == 60;
    var body := EncodeBody(VectorFrame.body);
    assert |body| == 0x28;
    assert Encodable(VectorFrame.body);
    var sized := Sized(VectorFrame);
    assert sized.header == VectorFrame.header;
    assert sized == VectorFrame;
    assert EncodeFrame(VectorFrame) == Vector[..HeaderSize] + Vector[HeaderSize..];
    assert EncodeFrame(VectorFrame) + [] == Vector;
    WriteThenRead(VectorFrame, []);
  }

  lemma VectorObfuscation()
    ensures LoginFromCleartext(Cleartext) == UserLogin(ObfuscatedLogin)
    ensures PasswordFromCleartext(Digits) == Password(ObfuscatedPassword)
  {
    InvertPointwise(Cleartext, ObfuscatedLogin);
    InvertPointwise(Digits, ObfuscatedPassword);
  }

  /** Bytes that are the complements of the cleartext, position by position, are its inversion. */
  lemma InvertPointwise(clear: Bytes, inverted: Bytes)
    requires |clear| == |inverted| && forall i :: 0 <= i < |clear| ==> inverted[i] == 0xff - clear[i]
    ensures Invert(clear) == inverted
  {
  }

  /** Both login decoders read the expected request from the vector. */
  lemma VectorLogin()
    ensures DecodeLogin(VectorFrame) == Ok(Expected)
    ensures DecodeLoginAsWritten(VectorFrame) == Ok(Expected)
  {
    F.LoginVectorFieldIds();
    assert TT.Code(TT.Login) == 0x6b;
    VectorObfuscation();
    VectorFields();
  }

  lemma VectorFields()
    ensures FindMap(VectorFrame.body.parameters, LoginFrom) == Expected.login
    ensures FindMap(VectorFrame.body.parameters, NicknameFrom) == Expected.nickname
    ensures FindMap(VectorFrame.body.parameters, PasswordFrom) == Expected.password
    ensures FindMap(VectorFrame.body.parameters, IconIdFrom) == Expected.iconId
    ensures FindMap(VectorFrame.body.parameters, IconIdFieldFrom) == Expected.iconId
  {
    VectorLoginField();
    VectorPasswordField();
    VectorNicknameField();
    VectorIcon();
  }

  lemma VectorLoginField()
    ensures FindMap(VectorFrame.body.parameters, LoginFrom) == Some(LoginFromCleartext(Cleartext))
  {
    F.LoginVectorFieldIds();
    VectorObfuscation();
    FindMapFirst(VectorFrame.body.parameters, LoginFrom, 0);
  }

  lemma VectorPasswordField()
    ensures FindMap(VectorFrame.body.parameters, PasswordFrom) == Some(PasswordFromCleartext(Digits))
  {
    F.LoginVectorFieldIds();
    VectorObfuscation();
    var ps := VectorFrame.body.parameters;
    assert PasswordFrom(ps[0]).Err?;
    FindMapFirst(ps, PasswordFrom, 1);
  }

  lemma VectorNicknameField()
    ensures FindMap(VectorFrame.body.parameters, NicknameFrom) == Some(Nickname(Cleartext))
  {
    F.LoginVectorFieldIds();
    var ps := VectorFrame.body.parameters;
    assert NicknameFrom(ps[0]).Err? && NicknameFrom(ps[1]).Err?;
    FindMapFirst(ps, NicknameFrom, 2);
  }

  lemma VectorIcon()
    ensures FindMap(VectorFrame.body.parameters, IconIdFrom) == Some(145)
    ensures FindMap(VectorFrame.body.parameters, IconIdFieldFrom) == Some(145)
  {
    F.LoginVectorFieldIds();
    var ps := VectorFrame.body.parameters;
    SmallInt(0x91, 2);
    Pow256Values();
    DecodeEncodeInt(0x91, 2);
    assert IconIdFrom(ps[3]) == Ok(145);
    FindMapFirst(ps, IconIdFrom, 3);
    FindMapFirst(ps, IconIdFieldFrom, 3);
  }
}
