/**
  Typed requests built from and into transaction frames. Every decoder first checks
  the frame's transaction type, then scans the parameters: a field is the first
  parameter that converts to the wanted type, and a required field that nothing
  converts to is `MissingField`.
*/
module Requests {
  import opened Wrappers
  import opened Wire
  import opened Protocol
  import F = TransactionFields
  import TT = TransactionTypes
  import opened Transactions
  import opened Parameters

  /** `iter().find_map(|p| view(p).ok())`: the first parameter the view accepts. */
  function FindMap<T>(ps: seq<Parameter>, view: Parameter -> Result<T, ProtocolError>): (r: Option<T>)
    ensures r.None? <==> forall i :: 0 <= i < |ps| ==> view(ps[i]).Err?
    ensures r.Some? ==> exists i :: 0 <= i < |ps| && view(ps[i]) == Ok(r.value)
                          && forall j :: 0 <= j < i ==> view(ps[j]).Err?
  {
    if |ps| == 0 then None
    else if view(ps[0]).Ok? then Some(view(ps[0]).value)
    else
      var r := FindMap(ps[1..], view);
      assert forall i :: 1 <= i < |ps| ==> ps[i] == ps[1..][i - 1];
      r
  }

  /** Which parameter the first match came from. */
  lemma FindMapFirst<T>(ps: seq<Parameter>, view: Parameter -> Result<T, ProtocolError>, i: nat)
    requires i < |ps| && view(ps[i]).Ok?
    requires forall j :: 0 <= j < i ==> view(ps[j]).Err?
    ensures FindMap(ps, view) == Some(view(ps[i]).value)
  {
    var r := FindMap(ps, view);
    var k :| 0 <= k < |ps| && view(ps[k]) == Ok(r.value) && forall j :: 0 <= j < k ==> view(ps[j]).Err?;
    assert k == i;
  }

  // Login.

  datatype LoginRequest = LoginRequest(
    login: Option<UserLogin>,
    nickname: Option<Nickname>,
    password: Option<Password>,
    iconId: Option<int16>)

  /**
    `LoginRequest::try_from(TransactionFrame)` as written: the icon is the first parameter
    whose data is two bytes, whatever its field id.
  */
  function DecodeLoginAsWritten(f: TransactionFrame): (r: Result<LoginRequest, ProtocolError>)
    ensures r.Ok? <==> f.header.typeId == TT.Code(TT.Login)
    ensures r.Err? ==> r.error == RequireType(f.header, TT.Login).error
    ensures r.Ok? ==> r.value.login == FindMap(f.body.parameters, LoginFrom)
    ensures r.Ok? ==> r.value.nickname == FindMap(f.body.parameters, NicknameFrom)
    ensures r.Ok? ==> r.value.password == FindMap(f.body.parameters, PasswordFrom)
    ensures r.Ok? ==> r.value.iconId == FindMap(f.body.parameters, IconIdFrom)
  {
    var _ :- RequireFrameType(f, TT.Login);
    var ps := f.body.parameters;
    Ok(LoginRequest(FindMap(ps, LoginFrom), FindMap(ps, NicknameFrom), FindMap(ps, PasswordFrom), FindMap(ps, IconIdFrom)))
  }

  /** The icon view restricted to parameters that carry the icon field. */
  function IconIdFieldFrom(p: Parameter): (r: Result<int16, ProtocolError>)
    ensures r.Ok? <==> p.fieldId == F.UserIconId && |p.data| == 2
    ensures r.Ok? ==> r == IconIdFrom(p)
  {
    var _ :- TakeIfMatches(p, F.UserIconId);
    IconIdFrom(p)
  }

  /** The login decoder with the icon taken from the icon field only. */
  function DecodeLogin(f: TransactionFrame): (r: Result<LoginRequest, ProtocolError>)
    ensures r.Ok? <==> f.header.typeId == TT.Code(TT.Login)
    ensures r.Err? ==> r.error == RequireType(f.header, TT.Login).error
    ensures r.Ok? ==> r.value.login == FindMap(f.body.parameters, LoginFrom)
    ensures r.Ok? ==> r.value.nickname == FindMap(f.body.parameters, NicknameFrom)
    ensures r.Ok? ==> r.value.password == FindMap(f.body.parameters, PasswordFrom)
    ensures r.Ok? ==> r.value.iconId == FindMap(f.body.parameters, IconIdFieldFrom)
  {
    var _ :- RequireFrameType(f, TT.Login);
    var ps := f.body.parameters;
    Ok(LoginRequest(FindMap(ps, LoginFrom), FindMap(ps, NicknameFrom), FindMap(ps, PasswordFrom), FindMap(ps, IconIdFieldFrom)))
  }

  function OptionToSeq<T>(o: Option<T>): (r: seq<T>)
    ensures |r| <= 1 && (o.Some? <==> |r| == 1) && (o.Some? ==> r[0] == o.value)
  {
    match o
    case None => []
    case Some(v) => [v]
  }

  /** `Into<TransactionBody>`: the present fields in the order login, nickname, password, icon. */
  function EncodeLogin(req: LoginRequest): (r: TransactionBody)
    ensures |r.parameters| == |OptionToSeq(req.login)| + |OptionToSeq(req.nickname)|
                               + |OptionToSeq(req.password)| + |OptionToSeq(req.iconId)|
  {
    TransactionBody(
      OptionToSeq(Map(req.login, LoginParameter))
      + OptionToSeq(Map(req.nickname, NicknameParameter))
      + OptionToSeq(Map(req.password, PasswordParameter))
      + OptionToSeq(Map(req.iconId, (i: int16) => IntParameter(F.UserIconId, i, 2))))
  }

  function Map<T, U>(o: Option<T>, f: T -> U): (r: Option<U>)
    ensures r.Some? <==> o.Some?
    ensures r.Some? ==> r.value == f(o.value)
  {
    match o
    case None => None
    case Some(v) => Some(f(v))
  }

  function LoginFrame(h: TransactionHeader, req: LoginRequest): TransactionFrame
  {
    TransactionFrame(h.(typeId := TT.Code(TT.Login)), EncodeLogin(req))
  }

  /** A search over two runs of parameters looks at the first run before the second. */
  lemma {:induction false} FindMapConcat<T>(a: seq<Parameter>, b: seq<Parameter>, view: Parameter -> Result<T, ProtocolError>)
    ensures FindMap(a + b, view) == if FindMap(a, view).Some? then FindMap(a, view) else FindMap(b, view)
  {
    if |a| > 0 {
      assert (a + b)[1..] == a[1..] + b;
      FindMapConcat(a[1..], b, view);
    } else {
      assert a + b == b;
    }
  }

  /** The parameters of an encoded login, by field. */
  function LoginRun(req: LoginRequest): seq<Parameter> { OptionToSeq(Map(req.login, LoginParameter)) }
  function NicknameRun(req: LoginRequest): seq<Parameter> { OptionToSeq(Map(req.nickname, NicknameParameter)) }
  function PasswordRun(req: LoginRequest): seq<Parameter> { OptionToSeq(Map(req.password, PasswordParameter)) }
  function IconRun(req: LoginRequest): seq<Parameter> { OptionToSeq(Map(req.iconId, (i: int16) => IntParameter(F.UserIconId, i, 2))) }

  lemma EncodeLoginRuns(req: LoginRequest)
    ensures EncodeLogin(req).parameters == ((LoginRun(req) + NicknameRun(req)) + PasswordRun(req)) + IconRun(req)
  {
  }

  /** Each view finds its own run's parameter, and nothing in a run with another field. */
  lemma LoginRunsViews(req: LoginRequest)
    ensures FindMap(LoginRun(req), LoginFrom) == req.login
    ensures FindMap(NicknameRun(req), LoginFrom).None? && FindMap(PasswordRun(req), LoginFrom).None? && FindMap(IconRun(req), LoginFrom).None?
    ensures FindMap(NicknameRun(req), NicknameFrom) == req.nickname
    ensures FindMap(LoginRun(req), NicknameFrom).None? && FindMap(PasswordRun(req), NicknameFrom).None? && FindMap(IconRun(req), NicknameFrom).None?
    ensures FindMap(PasswordRun(req), PasswordFrom) == req.password
    ensures FindMap(LoginRun(req), PasswordFrom).None? && FindMap(NicknameRun(req), PasswordFrom).None? && FindMap(IconRun(req), PasswordFrom).None?
    ensures FindMap(IconRun(req), IconIdFieldFrom) == req.iconId
    ensures FindMap(LoginRun(req), IconIdFieldFrom).None? && FindMap(NicknameRun(req), IconIdFieldFrom).None? && FindMap(PasswordRun(req), IconIdFieldFrom).None?
  {
    LoginRunViews(req);
    NicknameRunViews(req);
    PasswordRunViews(req);
    IconRunViews(req);
  }

  lemma LoginRunViews(req: LoginRequest)
    ensures FindMap(LoginRun(req), LoginFrom) == req.login
    ensures FindMap(LoginRun(req), NicknameFrom).None? && FindMap(LoginRun(req), PasswordFrom).None?
    ensures FindMap(LoginRun(req), IconIdFieldFrom).None?
  {
    F.LoginVectorFieldIds();
    if req.login.Some? { ByteViewsRoundTrip(Nickname([]), req.login.value, Password([])); }
  }

  lemma NicknameRunViews(req: LoginRequest)
    ensures FindMap(NicknameRun(req), NicknameFrom) == req.nickname
    ensures FindMap(NicknameRun(req), LoginFrom).None? && FindMap(NicknameRun(req), PasswordFrom).None?
    ensures FindMap(NicknameRun(req), IconIdFieldFrom).None?
  {
    F.LoginVectorFieldIds();
    if req.nickname.Some? { ByteViewsRoundTrip(req.nickname.value, UserLogin([]), Password([])); }
  }

  lemma PasswordRunViews(req: LoginRequest)
    ensures FindMap(PasswordRun(req), PasswordFrom) == req.password
    ensures FindMap(PasswordRun(req), LoginFrom).None? && FindMap(PasswordRun(req), NicknameFrom).None?
    ensures FindMap(PasswordRun(req), IconIdFieldFrom).None?
  {
    F.LoginVectorFieldIds();
    if req.password.Some? { ByteViewsRoundTrip(Nickname([]), UserLogin([]), req.password.value); }
  }

  lemma IconRunViews(req: LoginRequest)
    ensures FindMap(IconRun(req), IconIdFieldFrom) == req.iconId
    ensures FindMap(IconRun(req), LoginFrom).None? && FindMap(IconRun(req), NicknameFrom).None?
    ensures FindMap(IconRun(req), PasswordFrom).None?
  {
    F.LoginVectorFieldIds();
    if req.iconId.Some? { IconIdRoundTrip(req.iconId.value); }
  }

  /** The corrected decoder inverts the encoder for every login request. */
  lemma DecodeEncodeLogin(h: TransactionHeader, req: LoginRequest)
    ensures DecodeLogin(LoginFrame(h, req)) == Ok(req)
  {
    var l, n, p, i := LoginRun(req), NicknameRun(req), PasswordRun(req), IconRun(req);
    EncodeLoginRuns(req);
    LoginRunsViews(req);
    FindMapConcat(l + n + p, i, LoginFrom);
    FindMapConcat(l + n, p, LoginFrom);
    FindMapConcat(l, n, LoginFrom);
    FindMapConcat(l + n + p, i, NicknameFrom);
    FindMapConcat(l + n, p, NicknameFrom);
    FindMapConcat(l, n, NicknameFrom);
    FindMapConcat(l + n + p, i, PasswordFrom);
    FindMapConcat(l + n, p, PasswordFrom);
    FindMapConcat(l, n, PasswordFrom);
    FindMapConcat(l + n + p, i, IconIdFieldFrom);
    FindMapConcat(l + n, p, IconIdFieldFrom);
    FindMapConcat(l, n, IconIdFieldFrom);
  }

  /**
    The as-written decoder loses the icon of a login whose obfuscated login is two bytes
    long: the login parameter comes first and its two bytes are read as the icon.
  */
  lemma LoginIconMisread()
    ensures var req := LoginRequest(Some(LoginFromCleartext([0x6a, 0x6f])), None, None, Some(145));
            && DecodeLoginAsWritten(LoginFrame(DefaultHeader, req)).value.iconId == Some(DecodeInt([0x95, 0x90]))
            && DecodeInt([0x95, 0x90]) == -27248
            && DecodeLogin(LoginFrame(DefaultHeader, req)) == Ok(req)
  {
    var req := LoginRequest(Some(LoginFromCleartext([0x6a, 0x6f])), None, None, Some(145));
    DecodeEncodeLogin(DefaultHeader, req);
    var ps := EncodeLogin(req).parameters;
    MisreadFirstParameter(req);
    IconViewOfTwoBytes(ps[0]);
    FindMapFirst(ps, IconIdFrom, 0);
    NegativeIcon();
  }

  lemma MisreadFirstParameter(req: LoginRequest)
    requires req == LoginRequest(Some(LoginFromCleartext([0x6a, 0x6f])), None, None, Some(145))
    ensures |EncodeLogin(req).parameters| > 0 && EncodeLogin(req).parameters[0] == Parameter(F.UserLogin, [0x95, 0x90])
  {
    EncodeLoginRuns(req);
    assert Invert([0x6a, 0x6f]) == [0x95, 0x90];
    assert LoginRun(req) == [Parameter(F.UserLogin, [0x95, 0x90])];
  }

  /** Any two-byte parameter reads as the icon id its bytes denote, whatever its field. */
  lemma IconViewOfTwoBytes(p: Parameter)
    requires |p.data| == 2
    ensures IconIdFrom(p) == Ok(DecodeInt(p.data))
  {
    DecodeEncodeInt(IconIdFrom(p).value, 2);
  }

  lemma NegativeIcon()
    ensures DecodeInt([0x95, 0x90]) == -27248
  {
    Pow256Values();
    BeDecodeTwo(0x95, 0x90);
  }

  /** Two big-endian bytes denote the high byte times 256 plus the low byte. */
  lemma BeDecodeTwo(hi: uint8, lo: uint8)
    ensures BeDecode([hi, lo]) == hi * 256 + lo
  {
    assert [hi, lo][..1] == [hi];
    assert [hi][..0] == [];
  }

  // Server agreement.

  datatype ServerBanner = BannerUrl(url: Bytes) | BannerData(data: Bytes)

  datatype ShowAgreement = ShowAgreement(agreement: Option<Bytes>, banner: Option<ServerBanner>)

  function AgreementFrom(p: Parameter): Result<Bytes, ProtocolError>
  {
    TakeIfMatches(p, F.ServerAgreement)
  }

  /**
    `ShowAgreement::try_from(TransactionBody)`: the first agreement parameter, unless any
    parameter says there is no agreement. The banner is never filled in, and decoding
    cannot fail.
  */
  function DecodeShowAgreement(b: TransactionBody): (r: ShowAgreement)
    ensures r.banner.None?
    ensures (exists i :: 0 <= i < |b.parameters| && b.parameters[i].fieldId == F.NoServerAgreement) ==> r.agreement.None?
    ensures (forall i :: 0 <= i < |b.parameters| ==> b.parameters[i].fieldId != F.NoServerAgreement)
              ==> r.agreement == FindMap(b.parameters, AgreementFrom)
  {
    var agreement := FindMap(b.parameters, AgreementFrom);
    var noAgreement := exists i :: 0 <= i < |b.parameters| && FieldMatches(b.parameters[i], F.NoServerAgreement);
    ShowAgreement(if noAgreement then None else agreement, None)
  }

  /** `Into<TransactionBody>`: the agreement text under the data field, or a no-agreement flag of 1. */
  function EncodeShowAgreement(s: ShowAgreement): (r: TransactionBody)
    ensures |r.parameters| == 1
    ensures s.agreement.Some? ==> r.parameters[0] == Parameter(F.Data, s.agreement.value)
    ensures s.agreement.None? ==> r.parameters[0].fieldId == F.NoServerAgreement
  {
    match s.agreement
    case Some(a) => TransactionBody([Parameter(F.Data, a)])
    case None => TransactionBody([IntParameter(F.NoServerAgreement, 1, 2)])
  }

  /** "No agreement" survives encoding and decoding. */
  lemma NoAgreementRoundTrip(banner: Option<ServerBanner>)
    ensures DecodeShowAgreement(EncodeShowAgreement(ShowAgreement(None, banner))) == ShowAgreement(None, None)
  {
    var b := EncodeShowAgreement(ShowAgreement(None, banner));
    assert b.parameters[0].fieldId == F.NoServerAgreement;
  }

  datatype ServerBannerType = Url | DataBanner

  /** `ServerBannerType::try_from(&Parameter)`: exactly [1] or [0]. */
  function BannerTypeFrom(p: Parameter): (r: Result<ServerBannerType, ProtocolError>)
    ensures r == Ok(Url) <==> p.data == [1]
    ensures r == Ok(DataBanner) <==> p.data == [0]
    ensures r.Err? <==> p.data != [0] && p.data != [1]
    ensures r.Err? ==> r.error == MalformedData(F.ServerBannerType)
  {
    if p.data == [1] then Ok(Url)
    else if p.data == [0] then Ok(DataBanner)
    else Err(MalformedData(F.ServerBannerType))
  }

  // Client user info.

  datatype SetClientUserInfo = SetClientUserInfo(username: Nickname, iconId: int16)

  /** `SetClientUserInfo::try_from(TransactionFrame)`: both fields are required. */
  function DecodeSetClientUserInfo(f: TransactionFrame): (r: Result<SetClientUserInfo, ProtocolError>)
    ensures f.header.typeId != TT.Code(TT.SetClientUserInfo) ==> r == Err(RequireType(f.header, TT.SetClientUserInfo).error)
    ensures f.header.typeId == TT.Code(TT.SetClientUserInfo) ==>
      if FindMap(f.body.parameters, NicknameFrom).None? then r == Err(MissingField(F.UserName))
      else if FindMap(f.body.parameters, IconIdFrom).None? then r == Err(MissingField(F.UserIconId))
      else r == Ok(SetClientUserInfo(FindMap(f.body.parameters, NicknameFrom).value, FindMap(f.body.parameters, IconIdFrom).value))
  {
    var _ :- RequireFrameType(f, TT.SetClientUserInfo);
    var ps := f.body.parameters;
    var username :- OkOr(FindMap(ps, NicknameFrom), MissingField(F.UserName));
    var icon :- OkOr(FindMap(ps, IconIdFrom), MissingField(F.UserIconId));
    Ok(SetClientUserInfo(username, icon))
  }

  /** `ok_or`. */
  function OkOr<T>(o: Option<T>, e: ProtocolError): (r: Result<T, ProtocolError>)
    ensures r.Ok? <==> o.Some?
    ensures r.Ok? ==> r.value == o.value
    ensures r.Err? ==> r.error == e
  {
    match o
    case Some(v) => Ok(v)
    case None => Err(e)
  }

  // Inviting users to a new chat.

  /**
    `InviteToNewChat::try_from(TransactionFrame)`: every user-id parameter, in order; the
    first malformed one fails the whole request.
  */
  function DecodeInviteToNewChat(f: TransactionFrame): (r: Result<seq<int16>, ProtocolError>)
    ensures f.header.typeId != TT.Code(TT.InviteToNewChat) ==> r == Err(RequireType(f.header, TT.InviteToNewChat).error)
    ensures f.header.typeId == TT.Code(TT.InviteToNewChat) ==> r == CollectUserIds(f.body.parameters)
  {
    var _ :- RequireFrameType(f, TT.InviteToNewChat);
    CollectUserIds(f.body.parameters)
  }

  /** The parameters carrying the user-id field, in order. */
  function UserIdParams(ps: seq<Parameter>): (r: seq<Parameter>)
    ensures |r| <= |ps|
    ensures forall k :: 0 <= k < |r| ==> r[k].fieldId == F.UserId && r[k] in ps
    ensures forall i :: 0 <= i < |ps| && ps[i].fieldId == F.UserId ==> ps[i] in r
  {
    if |ps| == 0 then []
    else
      assert forall i :: 1 <= i < |ps| ==> ps[i] == ps[1..][i - 1];
      if ps[0].fieldId == F.UserId then [ps[0]] + UserIdParams(ps[1..]) else UserIdParams(ps[1..])
  }

  /**
    `filter(field == UserId).map(UserId::try_from).collect::<Result<Vec<_>, _>>()`: the ids
    the user-id parameters carry, in order, or an error when one of them is not two bytes.
  */
  function CollectUserIds(ps: seq<Parameter>): (r: Result<seq<int16>, ProtocolError>)
    ensures r.Ok? <==> forall i :: 0 <= i < |ps| && ps[i].fieldId == F.UserId ==> |ps[i].data| == 2
    ensures r.Err? ==> r.error == MalformedData(F.UserId)
    ensures r.Ok? ==> |r.value| == |UserIdParams(ps)|
    ensures r.Ok? ==> forall k :: 0 <= k < |r.value| ==> EncodeInt(r.value[k], 2) == UserIdParams(ps)[k].data
  {
    if |ps| == 0 then Ok([])
    else
      var rest :- CollectUserIds(ps[1..]);
      assert forall i :: 1 <= i < |ps| ==> ps[i] == ps[1..][i - 1];
      if !FieldMatches(ps[0], F.UserId) then
        assert UserIdParams(ps) == UserIdParams(ps[1..]);
        Ok(rest)
      else
        var id :- UserIdFrom(ps[0]);
        ConsIds(id, rest, ps[0], UserIdParams(ps[1..]));
        Ok([id] + rest)
  }

  lemma ConsIds(id: int16, rest: seq<int16>, p: Parameter, ps: seq<Parameter>)
    requires EncodeInt(id, 2) == p.data && |rest| == |ps|
    requires forall k :: 0 <= k < |rest| ==> EncodeInt(rest[k], 2) == ps[k].data
    ensures forall k :: 0 <= k < 1 + |rest| ==> EncodeInt(([id] + rest)[k], 2) == ([p] + ps)[k].data
  {
  }

  /** `Into<TransactionFrame>`: one user-id parameter per invitee, in order. */
  function EncodeInviteToNewChat(ids: seq<int16>): (r: TransactionFrame)
    ensures r.header.typeId == TT.Code(TT.InviteToNewChat) && |r.body.parameters| == |ids|
    ensures forall i :: 0 <= i < |ids| ==> r.body.parameters[i] == IntParameter(F.UserId, ids[i], 2)
  {
    TransactionFrame(DefaultHeader.(typeId := TT.Code(TT.InviteToNewChat)), TransactionBody(UserIdParameters(ids)))
  }

  function UserIdParameters(ids: seq<int16>): (r: seq<Parameter>)
    ensures |r| == |ids| && forall i :: 0 <= i < |ids| ==> r[i] == IntParameter(F.UserId, ids[i], 2)
  {
    if |ids| == 0 then [] else [IntParameter(F.UserId, ids[0], 2)] + UserIdParameters(ids[1..])
  }

  lemma {:induction false} CollectUserIdParameters(ids: seq<int16>)
    ensures CollectUserIds(UserIdParameters(ids)) == Ok(ids)
  {
    if |ids| > 0 {
      var ps := UserIdParameters(ids);
      assert ps[1..] == UserIdParameters(ids[1..]);
      CollectUserIdParameters(ids[1..]);
      Int16Range(ids[0]);
      ReadIntParameter(ids[0], 2, F.UserId, F.UserId);
      assert [ids[0]] + ids[1..] == ids;
    }
  }

  /** The invitee list survives encoding and decoding unchanged. */
  lemma InviteToNewChatRoundTrip(ids: seq<int16>)
    ensures DecodeInviteToNewChat(EncodeInviteToNewChat(ids)) == Ok(ids)
  {
    CollectUserIdParameters(ids);
  }

  // File list entries.

  type FourCC = s: Bytes | |s| == 4 witness [0, 0, 0, 0]

  datatype FileNameWithInfo = FileNameWithInfo(fileType: FourCC, creator: FourCC, fileSize: int32, nameScript: int16, fileName: Bytes)

  /**
    `Into<Parameter>`: type, creator, size, four zero bytes, script, the name length cast to
    `i16`, then the name.
  */
  function FileNameWithInfoParameter(f: FileNameWithInfo): (r: Parameter)
    ensures r.fieldId == F.FileNameWithInfo && |r.data| == 20 + |f.fileName|
    ensures r.data[..4] == f.fileType && r.data[4..8] == f.creator
    ensures r.data[8..12] == EncodeInt(f.fileSize, 4) && r.data[12..16] == [0, 0, 0, 0]
    ensures r.data[16..18] == EncodeInt(f.nameScript, 2)
    ensures r.data[18..20] == EncodeInt(Wrap(|f.fileName|, 2), 2) && r.data[20..] == f.fileName
  {
    Pow256Values();
    var data := f.fileType + f.creator + EncodeInt(f.fileSize, 4) + [0, 0, 0, 0]
      + EncodeInt(f.nameScript, 2) + EncodeInt(Wrap(|f.fileName|, 2), 2) + f.fileName;
    Parameter(F.FileNameWithInfo, data)
  }

  /** The size, script and name length can be read back from the bytes (names under 32768 bytes). */
  lemma FileNameWithInfoFields(f: FileNameWithInfo)
    requires |f.fileName| < 0x8000
    ensures var d := FileNameWithInfoParameter(f).data;
      DecodeInt(d[8..12]) == f.fileSize && DecodeInt(d[16..18]) == f.nameScript
      && DecodeInt(d[18..20]) == |f.fileName| && d[20..20 + DecodeInt(d[18..20])] == f.fileName
  {
    var d := FileNameWithInfoParameter(f).data;
    Pow256Values();
    DecodeEncodeInt(f.fileSize, 4);
    DecodeEncodeInt(f.nameScript, 2);
    assert d[18..20] == EncodeInt(|f.fileName|, 2);
    DecodeEncodeInt(|f.fileName|, 2);
  }
}
