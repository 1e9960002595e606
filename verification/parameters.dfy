/**
  Typed views of single parameters: the obfuscated credentials, field-checked byte
  payloads, fixed-width big-endian integers, file types and the depth-prefixed
  `FilePath` layout.
*/
module Parameters {
  import opened Wrappers
  import opened Wire
  import opened Protocol
  import F = TransactionFields
  import opened Transactions

  // Credentials.

  /** `invert_credential`: every byte replaced by its bitwise complement. */
  function Invert(data: Bytes): (r: Bytes)
    ensures |r| == |data|
    ensures forall i :: 0 <= i < |data| ==> r[i] == 0xff - data[i]
  {
    if |data| == 0 then [] else [0xff - data[0]] + Invert(data[1..])
  }

  /** Complementing twice gives the bytes back. */
  lemma InvertInvolution(data: Bytes)
    ensures Invert(Invert(data)) == data
  {
  }

  /** A login as carried on the wire (obfuscated). */
  datatype UserLogin = UserLogin(raw: Bytes)

  /** A password as carried on the wire (obfuscated). */
  datatype Password = Password(raw: Bytes)

  /** A nickname; its bytes are sent as they are. */
  datatype Nickname = Nickname(name: Bytes)

  function LoginFromCleartext(clear: Bytes): UserLogin
  {
    UserLogin(Invert(clear))
  }

  /** `UserLogin::invert`. */
  function InvertLogin(l: UserLogin): (r: UserLogin)
    ensures |r.raw| == |l.raw|
  {
    UserLogin(Invert(l.raw))
  }

  function PasswordFromCleartext(clear: Bytes): Password
  {
    Password(Invert(clear))
  }

  /** `Password::deobfuscate`. */
  function Deobfuscate(p: Password): (r: Bytes)
    ensures |r| == |p.raw|
  {
    Invert(p.raw)
  }

  /** Obfuscating a cleartext login and inverting it again gives the cleartext back. */
  lemma LoginCleartextRoundTrip(clear: Bytes)
    ensures InvertLogin(LoginFromCleartext(clear)).raw == clear
  {
    InvertInvolution(clear);
  }

  /** Deobfuscating an obfuscated password gives the cleartext back. */
  lemma PasswordCleartextRoundTrip(clear: Bytes)
    ensures Deobfuscate(PasswordFromCleartext(clear)) == clear
  {
    InvertInvolution(clear);
  }

  /** The nickname used when a client supplies none: "unnamed". */
  const DefaultNickname: Nickname := Nickname([0x75, 0x6e, 0x6e, 0x61, 0x6d, 0x65, 0x64])

  // Field-checked payloads.

  /** `take_if_matches`: the data of a parameter with the expected field id. */
  function TakeIfMatches(p: Parameter, field: F.FieldId): (r: Result<Bytes, ProtocolError>)
    ensures r.Ok? <==> p.fieldId == field
    ensures r.Ok? ==> r.value == p.data
    ensures r.Err? ==> r.error == UnexpectedTransaction(field, p.fieldId)
  {
    if FieldMatches(p, field) then Ok(p.data) else Err(UnexpectedTransaction(field, p.fieldId))
  }

  function NicknameFrom(p: Parameter): Result<Nickname, ProtocolError>
  {
    var data :- TakeIfMatches(p, F.UserName);
    Ok(Nickname(data))
  }

  function LoginFrom(p: Parameter): Result<UserLogin, ProtocolError>
  {
    var data :- TakeIfMatches(p, F.UserLogin);
    Ok(UserLogin(data))
  }

  function PasswordFrom(p: Parameter): Result<Password, ProtocolError>
  {
    var data :- TakeIfMatches(p, F.UserPassword);
    Ok(Password(data))
  }

  function NicknameParameter(n: Nickname): Parameter
  {
    Parameter(F.UserName, n.name)
  }

  function LoginParameter(l: UserLogin): Parameter
  {
    Parameter(F.UserLogin, l.raw)
  }

  function PasswordParameter(p: Password): Parameter
  {
    Parameter(F.UserPassword, p.raw)
  }

  /** Each byte-payload view recovers what its encoder wrote. */
  lemma ByteViewsRoundTrip(n: Nickname, l: UserLogin, p: Password)
    ensures NicknameFrom(NicknameParameter(n)) == Ok(n)
    ensures LoginFrom(LoginParameter(l)) == Ok(l)
    ensures PasswordFrom(PasswordParameter(p)) == Ok(p)
  {
  }

  // Fixed-width integers (`read_deku` / `new_deku`).

  /**
    A big-endian signed integer of `width` bytes read from a parameter's data. The field
    id is not consulted; data of any other length is `MalformedData(field)`.
  */
  function ReadInt(p: Parameter, width: nat, field: F.FieldId): (r: Result<int, ProtocolError>)
    ensures r.Ok? <==> |p.data| == width
    ensures r.Ok? ==> InSigned(r.value, width) && EncodeInt(r.value, width) == p.data
    ensures r.Err? ==> r.error == MalformedData(field)
  {
    if |p.data| == width then
      EncodeDecodeInt(p.data);
      Ok(DecodeInt(p.data))
    else Err(MalformedData(field))
  }

  /** A fixed-width integer parameter. */
  function IntParameter(field: F.FieldId, v: int, width: nat): (r: Parameter)
    ensures r.fieldId == field && |r.data| == width
  {
    Parameter(field, EncodeInt(v, width))
  }

  /** Whatever field id it arrives under, an encoded integer reads back as itself. */
  lemma ReadIntParameter(v: int, width: nat, any: F.FieldId, field: F.FieldId)
    requires InSigned(v, width)
    ensures ReadInt(IntParameter(any, v, width), width, field) == Ok(v)
  {
    DecodeEncodeInt(v, width);
  }

  lemma Int16Range(v: int)
    ensures InSigned(v, 2) <==> -0x8000 <= v < 0x8000
  {
    Pow256Values();
  }

  function ChatIdFrom(p: Parameter): (r: Result<int16, ProtocolError>)
    ensures r.Ok? <==> |p.data| == 2
    ensures r.Ok? ==> EncodeInt(r.value, 2) == p.data
    ensures r.Err? ==> r.error == MalformedData(F.ChatId)
  {
    var v :- ReadInt(p, 2, F.ChatId);
    Int16Range(v);
    Ok(v)
  }

  function IconIdFrom(p: Parameter): (r: Result<int16, ProtocolError>)
    ensures r.Ok? <==> |p.data| == 2
    ensures r.Ok? ==> EncodeInt(r.value, 2) == p.data
    ensures r.Err? ==> r.error == MalformedData(F.UserIconId)
  {
    var v :- ReadInt(p, 2, F.UserIconId);
    Int16Range(v);
    Ok(v)
  }

  function UserIdFrom(p: Parameter): (r: Result<int16, ProtocolError>)
    ensures r.Ok? <==> |p.data| == 2
    ensures r.Ok? ==> EncodeInt(r.value, 2) == p.data
    ensures r.Err? ==> r.error == MalformedData(F.UserId)
  {
    var v :- ReadInt(p, 2, F.UserId);
    Int16Range(v);
    Ok(v)
  }

  function UserFlagsFrom(p: Parameter): (r: Result<int16, ProtocolError>)
    ensures r.Ok? <==> |p.data| == 2
    ensures r.Ok? ==> EncodeInt(r.value, 2) == p.data
    ensures r.Err? ==> r.error == MalformedData(F.UserFlags)
  {
    var v :- ReadInt(p, 2, F.UserFlags);
    Int16Range(v);
    Ok(v)
  }

  /** The id decoders read the data alone: two parameters with equal data decode alike. */
  lemma IdDecodersIgnoreField(p: Parameter, q: Parameter)
    requires p.data == q.data
    ensures ChatIdFrom(p) == ChatIdFrom(q) && IconIdFrom(p) == IconIdFrom(q)
    ensures UserIdFrom(p) == UserIdFrom(q) && UserFlagsFrom(p) == UserFlagsFrom(q)
  {
  }

  /** An icon id written under its field decodes back. */
  lemma IconIdRoundTrip(v: int16)
    ensures IconIdFrom(IntParameter(F.UserIconId, v, 2)) == Ok(v)
  {
    Int16Range(v);
    ReadIntParameter(v, 2, F.UserIconId, F.UserIconId);
  }

  /** `ChatId::default()` and `ChatOptions::none()`. */
  const DefaultChatId: int16 := 1
  const DefaultChatOptions: int32 := 0

  /** `FileType::try_from`: the field must match and the data must be exactly 4 bytes. */
  function FileTypeFrom(p: Parameter): (r: Result<Bytes, ProtocolError>)
    ensures r.Ok? <==> p.fieldId == F.FileType && |p.data| == 4
    ensures r.Ok? ==> r.value == p.data
    ensures p.fieldId == F.FileType && |p.data| != 4 ==> r == Err(MalformedData(F.FileType))
    ensures p.fieldId != F.FileType ==> r == Err(UnexpectedTransaction(F.FileType, p.fieldId))
  {
    var data :- TakeIfMatches(p, F.FileType);
    if |data| != 4 then Err(MalformedData(F.FileType)) else Ok(data[..4])
  }

  // User list entries.

  datatype UserNameWithInfo = UserNameWithInfo(userId: int16, iconId: int16, userFlags: int16, usernameLen: int16, username: Nickname)

  /** `UserNameWithInfo::anonymous`: user id and flags 0, the length cast to `i16`. */
  function Anonymous(username: Nickname, iconId: int16): (r: UserNameWithInfo)
    ensures r.userId == 0 && r.userFlags == 0 && r.iconId == iconId && r.username == username
    ensures r.usernameLen == Wrap(|username.name|, 2)
    ensures |username.name| < 0x8000 ==> r.usernameLen == |username.name|
    ensures |username.name| >= 0x8000 ==> r.usernameLen != |username.name|
  {
    Pow256Values();
    UserNameWithInfo(0, iconId, 0, Wrap(|username.name|, 2), username)
  }

  // FilePath.

  datatype FilePath = Root | Directory(components: seq<Bytes>)

  /** `parse_depth`: an `i16`, converted to `usize` (sign-extending a negative depth). */
  function ParseDepth(s: Bytes): (r: Result<Parsed<nat>, ParseError>)
    ensures r.Ok? <==> |s| >= 2
    ensures r.Ok? ==> r.value.rest == s[2..] && r.value.value == ToUnsigned(DecodeInt(s[..2]), 8)
  {
    var d :- TakeInt(s, 2);
    assert d.value == DecodeInt(s[..2]) by { DecodeEncodeInt(d.value, 2); }
    Ok(Parsed(ToUnsigned(d.value, 8), d.rest))
  }

  /** `parse_path_component`: two ignored bytes, an `i8` length (sign-extended), the name. */
  function ParseComponent(s: Bytes): (r: Result<Parsed<Bytes>, ParseError>)
    ensures r.Ok? ==> |s| >= 3 + |r.value.value| && r.value.rest == s[3 + |r.value.value|..] && r.value.value == s[3..3 + |r.value.value|]
    ensures r.Ok? ==> |r.value.value| == ToUnsigned(DecodeInt(s[2..3]), 8)
    ensures r.Ok? <==> |s| >= 3 && ToUnsigned(DecodeInt(s[2..3]), 8) <= |s| - 3
    ensures r.Err? ==> r.error == Incomplete
  {
    var skip :- Take(s, 2);
    var len :- TakeInt(skip.rest, 1);
    assert len.value == DecodeInt(s[2..3]) by { DecodeEncodeInt(len.value, 1); }
    var name :- Take(len.rest, ToUnsigned(len.value, 8));
    Ok(Parsed(name.value, name.rest))
  }

  /** `count(parse_path_component, n)`. */
  function ParseComponents(s: Bytes, n: nat): (r: Result<Parsed<seq<Bytes>>, ParseError>)
    ensures r.Ok? ==> |r.value.value| == n && |s| >= 3 * n + |r.value.rest|
  {
    if n == 0 then Ok(Parsed([], s))
    else
      var c :- ParseComponent(s);
      var cs :- ParseComponents(c.rest, n - 1);
      Ok(Parsed([c.value] + cs.value, cs.rest))
  }

  function ParsePath(s: Bytes): Result<Parsed<seq<Bytes>>, ParseError>
  {
    var depth :- ParseDepth(s);
    ParseComponents(depth.rest, depth.value)
  }

  /** `FilePath::try_from(&[u8])`: any parse failure is `MalformedData(FilePath)`; trailing bytes are ignored. */
  function FilePathFromBytes(s: Bytes): (r: Result<FilePath, ProtocolError>)
    ensures r.Ok? ==> r.value.Directory?
    ensures r.Err? ==> r.error == MalformedData(F.FilePath)
  {
    match ParsePath(s)
    case Ok(p) => Ok(Directory(p.value))
    case Err(_) => Err(MalformedData(F.FilePath))
  }

  /** `FilePath::try_from(&Parameter)`. */
  function FilePathFrom(p: Parameter): (r: Result<FilePath, ProtocolError>)
    ensures p.fieldId != F.FilePath ==> r == Err(UnexpectedTransaction(F.FilePath, p.fieldId))
    ensures p.fieldId == F.FilePath ==> r == FilePathFromBytes(p.data)
  {
    var data :- TakeIfMatches(p, F.FilePath);
    FilePathFromBytes(data)
  }

  /** `FilePath::try_from(Option<&Parameter>)`: an absent parameter is the root. */
  function FilePathFromOption(p: Option<Parameter>): (r: Result<FilePath, ProtocolError>)
    ensures p.None? ==> r == Ok(Root)
    ensures p.Some? ==> r == FilePathFrom(p.value)
  {
    match p
    case None => Ok(Root)
    case Some(q) => FilePathFrom(q)
  }

  /** `encode_path_component`: two zero bytes, the length cast to `i8`, the name. */
  function EncodeComponent(c: Bytes): (r: Bytes)
    ensures |r| == 3 + |c| && r[..2] == [0, 0] && r[3..] == c
  {
    Pow256Values();
    [0, 0] + EncodeInt(Wrap(|c|, 1), 1) + c
  }

  function EncodeComponents(cs: seq<Bytes>): Bytes
  {
    if |cs| == 0 then [] else EncodeComponent(cs[0]) + EncodeComponents(cs[1..])
  }

  /** `encode_parameter`: the depth cast to `i16`, then every component. */
  function FilePathParameter(cs: seq<Bytes>): (r: Parameter)
    ensures r.fieldId == F.FilePath
  {
    Pow256Values();
    Parameter(F.FilePath, EncodeInt(Wrap(|cs|, 2), 2) + EncodeComponents(cs))
  }

  /** `Into<Option<Parameter>>`: the root is sent as no parameter at all. */
  function FilePathToOption(p: FilePath): (r: Option<Parameter>)
    ensures r.None? <==> p.Root?
  {
    match p
    case Root => None
    case Directory(cs) => Some(FilePathParameter(cs))
  }

  predicate EncodablePath(cs: seq<Bytes>)
  {
    |cs| < 0x8000 && forall i :: 0 <= i < |cs| ==> |cs[i]| < 0x80
  }

  lemma ComponentRoundTrip(c: Bytes, rest: Bytes)
    requires |c| < 0x80
    ensures ParseComponent(EncodeComponent(c) + rest) == Ok(Parsed(c, rest))
  {
    Pow256Values();
    var s := EncodeComponent(c) + rest;
    ToUnsignedCases(|c|, 1);
    assert s[2..3] == EncodeInt(|c|, 1);
    DecodeEncodeInt(|c|, 1);
    ToUnsignedCases(|c|, 8);
    assert s[3..] == c + rest;
  }

  lemma {:induction false} ComponentsRoundTrip(cs: seq<Bytes>, rest: Bytes)
    requires forall i :: 0 <= i < |cs| ==> |cs[i]| < 0x80
    ensures ParseComponents(EncodeComponents(cs) + rest, |cs|) == Ok(Parsed(cs, rest))
  {
    if |cs| == 0 {
      assert EncodeComponents(cs) + rest == rest;
    } else {
      var tail := EncodeComponents(cs[1..]) + rest;
      assert EncodeComponents(cs) + rest == EncodeComponent(cs[0]) + tail;
      ComponentRoundTrip(cs[0], tail);
      ComponentsRoundTrip(cs[1..], rest);
      assert [cs[0]] + cs[1..] == cs;
    }
  }

  /** A directory of at most 32767 components of at most 127 bytes each survives the round trip, whatever follows it. */
  lemma FilePathRoundTrip(cs: seq<Bytes>, trailing: Bytes)
    requires EncodablePath(cs)
    ensures FilePathFromBytes(FilePathParameter(cs).data + trailing) == Ok(Directory(cs))
  {
    Pow256Values();
    var s := FilePathParameter(cs).data + trailing;
    var depth := EncodeInt(Wrap(|cs|, 2), 2);
    assert s == depth + (EncodeComponents(cs) + trailing);
    assert depth == EncodeInt(|cs|, 2);
    DecodeEncodeInt(|cs|, 2);
    ToUnsignedCases(|cs|, 8);
    assert ParseDepth(s) == Ok(Parsed(|cs|, EncodeComponents(cs) + trailing));
    ComponentsRoundTrip(cs, trailing);
  }

  /** A directory sent as an optional parameter comes back as the same directory. */
  lemma FilePathOptionRoundTrip(cs: seq<Bytes>)
    requires EncodablePath(cs)
    ensures FilePathFromOption(FilePathToOption(Directory(cs))) == Ok(Directory(cs))
  {
    FilePathRoundTrip(cs, []);
    assert FilePathParameter(cs).data + [] == FilePathParameter(cs).data;
  }

  /** The root travels as an absent parameter; an empty directory is a real parameter that stays a directory. */
  lemma RootAndEmptyPath()
    ensures FilePathFromOption(FilePathToOption(Root)) == Ok(Root)
    ensures FilePathToOption(Directory([])).Some?
    ensures FilePathFromOption(FilePathToOption(Directory([]))) == Ok(Directory([]))
  {
    FilePathOptionRoundTrip([]);
  }

  /** The two bytes in front of each component's length are not inspected. */
  lemma ComponentIgnoresPrefix(a: uint8, b: uint8, s: Bytes)
    ensures ParseComponent([a, b] + s) == ParseComponent([0, 0] + s)
  {
    assert ([a, b] + s)[2..] == s == ([0, 0] + s)[2..];
  }

  /** A negative depth sign-extends to at least 2^63 components, more than any slice can hold. */
  lemma NegativeDepthRejected(s: Bytes)
    requires |s| >= 2 && DecodeInt(s[..2]) < 0 && |s| < 0x8000_0000_0000_0000
    ensures FilePathFromBytes(s) == Err(MalformedData(F.FilePath))
  {
    Pow256Values();
    var d := DecodeInt(s[..2]);
    assert InSigned(d, 2);
    ToUnsignedCases(d, 8);
  }

  /** A negative component length likewise cannot be satisfied. */
  lemma NegativeLengthRejected(s: Bytes)
    requires |s| >= 3 && DecodeInt(s[2..3]) < 0 && |s| < 0x8000_0000_0000_0000
    ensures ParseComponent(s).Err?
  {
    Pow256Values();
    var d := DecodeInt(s[2..3]);
    assert InSigned(d, 1);
    ToUnsignedCases(d, 8);
  }
}
