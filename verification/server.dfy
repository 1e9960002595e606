/**
  The server's per-connection policy: the connection state machine, the login exchange,
  which requests get which reply, how a new chat's invitations are addressed, and which
  broadcast notifications a connection writes to its client. Sockets, tasks and the
  shared-state services are left out; what they would report is passed in.
*/
module Server {
  import opened Wrappers
  import opened Wire
  import opened Protocol
  import opened Transactions
  import opened Parameters
  import Requests
  import F = TransactionFields
  import Chat
  import Users
  import Frames

  // The connection state machine.

  datatype State = New | Unauthenticated | Established | Closed | Borrowed

  /** Whether each phase's work (handshake, login, serving) succeeds on this connection. */
  datatype Outcomes = Outcomes(handshake: bool, login: bool, handle: bool)

  /** How far a state is along the connection's life. */
  function Stage(s: State): nat
  {
    match s
    case New => 0
    case Unauthenticated => 1
    case Established => 2
    case Closed => 3
    case Borrowed => 4
  }

  /**
    `State::process`: run the current phase; on success move to the next state, on failure
    stay `Borrowed`. A closed connection stays closed and reports success. Processing a
    borrowed state is a programming error (the source panics), so it is excluded.
  */
  function Process(s: State, o: Outcomes): (r: (State, bool))
    requires !s.Borrowed?
    ensures s.Closed? ==> r == (Closed, true)
    ensures r.1 ==> !r.0.Borrowed? && Stage(r.0) == if s.Closed? then 3 else Stage(s) + 1
    ensures !r.1 ==> r.0 == Borrowed
    ensures s.New? ==> r.1 == o.handshake
    ensures s.Unauthenticated? ==> r.1 == o.login
    ensures s.Established? ==> r.1 == o.handle
  {
    match s
    case New => if o.handshake then (Unauthenticated, true) else (Borrowed, false)
    case Unauthenticated => if o.login then (Established, true) else (Borrowed, false)
    case Established => if o.handle then (Closed, true) else (Borrowed, false)
    case Closed => (Closed, true)
  }

  /**
    The accept loop's `while conn.process().await.is_ok() {}`, run for at most `fuel`
    calls: the final state and the number of calls made.
  */
  function Drive(s: State, o: Outcomes, fuel: nat): (r: (State, nat))
    requires !s.Borrowed?
    ensures r.1 <= fuel
    decreases fuel
  {
    if fuel == 0 then (s, 0)
    else
      var (next, ok) := Process(s, o);
      if !ok then (next, 1)
      else
        var (last, calls) := Drive(next, o, fuel - 1);
        (last, calls + 1)
  }

  /** A closed connection is stepped again and again: the loop only ends when the budget does. */
  lemma {:induction false} ClosedKeepsStepping(o: Outcomes, fuel: nat)
    ensures Drive(Closed, o, fuel) == (Closed, fuel)
  {
    if fuel > 0 {
      ClosedKeepsStepping(o, fuel - 1);
    }
  }

  /**
    A connection from a fresh accept: the first failing phase leaves it `Borrowed` and
    stops the loop right after that call; when every phase succeeds it reaches `Closed`.
  */
  lemma SessionOutcome(o: Outcomes, fuel: nat)
    requires fuel >= 3
    ensures !o.handshake ==> Drive(New, o, fuel) == (Borrowed, 1)
    ensures o.handshake && !o.login ==> Drive(New, o, fuel) == (Borrowed, 2)
    ensures o.handshake && o.login && !o.handle ==> Drive(New, o, fuel) == (Borrowed, 3)
    ensures o.handshake && o.login && o.handle ==> Drive(New, o, fuel) == (Closed, fuel)
  {
    if o.handshake && o.login && o.handle {
      ClosedKeepsStepping(o, fuel - 3);
      assert Drive(Established, o, fuel - 2) == (Closed, fuel - 2);
      assert Drive(Unauthenticated, o, fuel - 1) == (Closed, fuel - 1);
    } else if o.handshake && o.login {
      assert Drive(Established, o, fuel - 2) == (Borrowed, 1);
    } else if o.handshake {
      assert Drive(Unauthenticated, o, fuel - 1) == (Borrowed, 1);
    }
  }

  // Per-connection globals.

  type int32 = x: int | -0x8000_0000 <= x < 0x8000_0000

  /** The logged-in user's id, once known, and the notification transaction counter (from 0). */
  datatype Globals = Globals(userId: Option<int16>, transactionId: int32)

  const FreshGlobals: Globals := Globals(None, 0)

  /** `next_transaction_id`: the counter's value, then the counter moves on (panics on overflow). */
  function NextTransactionId(g: Globals): (r: (int32, Globals))
    requires g.transactionId < 0x7fff_ffff
    ensures r.0 == g.transactionId && r.1 == g.(transactionId := g.transactionId + 1)
  {
    (g.transactionId, g.(transactionId := g.transactionId + 1))
  }

  /** The user list's `find`: the first record with the id. */
  function Find(us: seq<UserNameWithInfo>, id: int16): (r: Option<UserNameWithInfo>)
    ensures r.None? <==> forall i :: 0 <= i < |us| ==> us[i].userId != id
    ensures r.Some? ==> r.value in us && r.value.userId == id
    ensures r.Some? ==> exists i :: 0 <= i < |us| && us[i] == r.value && forall j :: 0 <= j < i ==> us[j].userId != id
  {
    if |us| == 0 then None else if us[0].userId == id then Some(us[0]) else Find(us[1..], id)
  }

  /** A user listed with the id, with no earlier user holding it, is the one found. */
  lemma FindIsFirst(us: seq<UserNameWithInfo>, id: int16, i: nat)
    requires i < |us| && us[i].userId == id
    requires forall j :: 0 <= j < i ==> us[j].userId != id
    ensures Find(us, id) == Some(us[i])
  {
    var r := Find(us, id);
    var k :| 0 <= k < |us| && us[k] == r.value && forall j :: 0 <= j < k ==> us[j].userId != id;
    assert k == i;
  }

  /** `Globals::user`: the record of the logged-in user, if it is listed. */
  function CurrentUser(g: Globals, us: seq<UserNameWithInfo>): (r: Option<UserNameWithInfo>)
    ensures g.userId.None? ==> r.None?
    ensures g.userId.Some? ==> r == Find(us, g.userId.value)
  {
    match g.userId
    case None => None
    case Some(id) => Find(us, id)
  }

  /** `chat_list`: the listed records of a room's members (none when the room does not exist). */
  function ChatList(c: Chat.Chats, us: seq<UserNameWithInfo>, id: int16): (r: set<UserNameWithInfo>)
    ensures forall u :: u in r <==> id in c.rooms && u.userId in c.rooms[id].users && Find(us, u.userId) == Some(u)
  {
    if id !in c.rooms then {}
    else
      var members := c.rooms[id].users;
      set m | m in members && Find(us, m).Some? :: Find(us, m).value
  }

  /** A user just added to the list is found as the current user under the id it was given. */
  lemma CurrentUserAfterAdd(g: Globals, u: Users.Users, user: UserNameWithInfo)
    requires Users.WellNumbered(u) && u.top + 1 < 0x8000
    requires g.userId == Some(Users.Add(u, user).id)
    ensures CurrentUser(g, Users.Add(u, user).list.users) == Some(Users.Add(u, user).user)
  {
    var a := Users.Add(u, user);
    Users.AddFresh(u, user);
    assert a.list.users[|u.users|] == a.user;
  }

  /** Once the user is removed from the list, the session no longer has a current user. */
  lemma CurrentUserAfterRemove(g: Globals, u: Users.Users, user: UserNameWithInfo)
    requires g.userId == Some(user.userId)
    ensures CurrentUser(g, Users.Remove(u, user).users) == None
  {
    var us := Users.Remove(u, user).users;
    assert forall i :: 0 <= i < |us| ==> us[i] in us;
  }

  /**
    Joining a room puts a listed user in its chat list and changes no one else's
    membership; leaving takes the user out, again leaving everyone else as they were.
  */
  lemma ChatListAfterJoin(c: Chat.Chats, us: seq<UserNameWithInfo>, id: int16, u: UserNameWithInfo)
    requires Find(us, u.userId) == Some(u)
    ensures u in ChatList(Chat.Join(c, id, u.userId), us, id)
    ensures id in c.rooms ==> forall v: UserNameWithInfo :: v.userId != u.userId ==>
      (v in ChatList(Chat.Join(c, id, u.userId), us, id) <==> v in ChatList(c, us, id))
  {
  }

  lemma ChatListAfterLeave(c: Chat.Chats, us: seq<UserNameWithInfo>, id: int16, u: UserNameWithInfo)
    ensures u !in ChatList(Chat.Leave(c, id, u.userId), us, id)
    ensures id in c.rooms ==> forall v: UserNameWithInfo :: v.userId != u.userId ==>
      (v in ChatList(Chat.Leave(c, id, u.userId), us, id) <==> v in ChatList(c, us, id))
  {
  }

  // Notifications.

  datatype Notification =
    | Empty
    | ChatMessage(room: Option<int16>)
    | InstantMessage(from: int16, to: int16)
    | Broadcast
    | DownloadInfo
    | News
    | UserConnect
    | UserUpdate
    | UserDisconnect
    | ChatRoomInvite(chatId: int16, userId: int16)
    | ChatRoomJoin(chatId: int16)
    | ChatRoomLeave(chatId: int16, userId: int16)
    | ChatRoomSubjectUpdate(chatId: int16)

  datatype FrameKind =
    | ChatFrame | ServerMessageFrame | DownloadInfoFrame | NewsFrame | NotifyUserChangeFrame
    | NotifyUserDeleteFrame | InviteToChatFrame | NotifyChatUserChangeFrame
    | NotifyChatUserDeleteFrame | NotifyChatSubjectFrame

  /** A written notification frame; `id` is set when the frame carries the connection's counter. */
  datatype Written = Written(kind: FrameKind, id: Option<int32>)

  /**
    `Established::notification`: every notification uses up one counter value. A chat
    line for a room goes only to that room's members; one without a room goes to all.
    Instant messages and invitations go only to the addressed user. The rest go to all.
  */
  function Notify(g: Globals, us: seq<UserNameWithInfo>, c: Chat.Chats, n: Notification): (r: (Option<Written>, Globals))
    requires g.transactionId < 0x7fff_ffff
    ensures r.1 == g.(transactionId := g.transactionId + 1)
    ensures n.Empty? ==> r.0.None?
    ensures n.ChatMessage? && n.room.None? ==> r.0 == Some(Written(ChatFrame, None))
    ensures n.ChatMessage? && n.room.Some? ==>
      (r.0.Some? <==> CurrentUser(g, us).Some? && CurrentUser(g, us).value in ChatList(c, us, n.room.value))
    ensures n.InstantMessage? ==>
      (r.0.Some? <==> CurrentUser(g, us).Some? && CurrentUser(g, us).value.userId == n.to)
    ensures n.ChatRoomInvite? ==>
      (r.0.Some? <==> CurrentUser(g, us).Some? && CurrentUser(g, us).value.userId == n.userId)
    ensures !n.Empty? && !n.ChatMessage? && !n.InstantMessage? && !n.ChatRoomInvite? ==> r.0.Some?
    ensures r.0.Some? && r.0.value.id.Some? ==> r.0.value.id.value == g.transactionId
    ensures r.0.Some? ==> (r.0.value.id.Some? <==> (n.ChatMessage? && n.room.Some?) || n.ChatRoomLeave?)
  {
    var current := CurrentUser(g, us);
    var (id, g') := NextTransactionId(g);
    var out := match n
      case Empty => None
      case ChatMessage(chatId) =>
        if chatId.None? then Some(Written(ChatFrame, None))
        else if current.Some? && current.value in ChatList(c, us, chatId.value) then Some(Written(ChatFrame, Some(id)))
        else None
      case InstantMessage(_, to) =>
        if current.Some? && current.value.userId == to then Some(Written(ServerMessageFrame, None)) else None
      case Broadcast => Some(Written(ServerMessageFrame, None))
      case DownloadInfo => Some(Written(DownloadInfoFrame, None))
      case News => Some(Written(NewsFrame, None))
      case UserConnect => Some(Written(NotifyUserChangeFrame, None))
      case UserUpdate => Some(Written(NotifyUserChangeFrame, None))
      case UserDisconnect => Some(Written(NotifyUserDeleteFrame, None))
      case ChatRoomInvite(_, user) =>
        if current.Some? && current.value.userId == user then Some(Written(InviteToChatFrame, None)) else None
      case ChatRoomJoin(_) => Some(Written(NotifyChatUserChangeFrame, None))
      case ChatRoomLeave(_, _) => Some(Written(NotifyChatUserDeleteFrame, Some(id)))
      case ChatRoomSubjectUpdate(_) => Some(Written(NotifyChatSubjectFrame, None));
    (out, g')
  }

  /**
    A room's chat line reaches a connection exactly when its user is logged in, listed,
    and a member of the room: the member list is looked up by id, so comparing records
    comes down to comparing ids.
  */
  lemma PrivateChatReach(g: Globals, us: seq<UserNameWithInfo>, c: Chat.Chats, room: int16)
    requires g.transactionId < 0x7fff_ffff
    ensures Notify(g, us, c, ChatMessage(Some(room))).0.Some? <==>
      g.userId.Some? && Find(us, g.userId.value).Some? && room in c.rooms && g.userId.value in c.rooms[room].users
  {
  }

  /** Over a run of notifications the counter advances once per notification, delivered or not. */
  function NotifyAll(g: Globals, us: seq<UserNameWithInfo>, c: Chat.Chats, ns: seq<Notification>): (r: (seq<Option<Written>>, Globals))
    requires g.transactionId + |ns| < 0x8000_0000
    ensures |r.0| == |ns| && r.1 == g.(transactionId := g.transactionId + |ns|)
    decreases |ns|
  {
    if |ns| == 0 then ([], g)
    else
      var (w, g') := Notify(g, us, c, ns[0]);
      var (ws, g'') := NotifyAll(g', us, c, ns[1..]);
      ([w] + ws, g'')
  }

  /** The frames that carry the counter carry distinct values: the i-th notification gets start + i. */
  lemma {:induction false} NotifyAllIds(g: Globals, us: seq<UserNameWithInfo>, c: Chat.Chats, ns: seq<Notification>, i: nat)
    requires g.transactionId + |ns| < 0x8000_0000 && i < |ns|
    ensures var w := NotifyAll(g, us, c, ns).0[i]; w.Some? && w.value.id.Some? ==> w.value.id.value == g.transactionId + i
    decreases |ns|
  {
    if i > 0 {
      var g' := Notify(g, us, c, ns[0]).1;
      NotifyAllIds(g', us, c, ns[1..], i - 1);
    }
  }

  // Login.

  /** `VersionedLoginRequest::old_style`: nickname and icon, when the login carried both. */
  function OldStyle(req: Requests.LoginRequest): (r: Option<(Nickname, int16)>)
    ensures r.Some? <==> req.nickname.Some? && req.iconId.Some?
    ensures r.Some? ==> r.value == (req.nickname.value, req.iconId.value)
  {
    if req.nickname.Some? && req.iconId.Some? then Some((req.nickname.value, req.iconId.value)) else None
  }

  /** What a successful login produces: the request with nickname and icon filled in, the user record, and the frames read. */
  datatype LoggedIn = LoggedIn(request: Requests.LoginRequest, user: UserNameWithInfo, framesRead: nat)

  /**
    The exchange after the login frame is decoded: an old-style login carries nickname and
    icon; otherwise the next frame must be `SetClientUserInfo` and supplies them (`fill_in`).
    `next` is the outcome of reading that frame; a read error ends the login with it.
  */
  function Exchange(req: Requests.LoginRequest, next: Result<TransactionFrame, ProtocolError>): (r: Result<LoggedIn, ProtocolError>)
    ensures r.Ok? ==> (r.value.framesRead == 1 <==> OldStyle(req).Some?) && r.value.framesRead in {1, 2}
    ensures OldStyle(req).Some? ==> r.Ok? && r.value.request == req
    ensures OldStyle(req).None? ==> (r.Ok? <==> next.Ok? && Requests.DecodeSetClientUserInfo(next.value).Ok?)
    ensures OldStyle(req).None? && next.Err? ==> r == Err(next.error)
    ensures OldStyle(req).None? && next.Ok? && Requests.DecodeSetClientUserInfo(next.value).Err? ==>
      r == Err(Requests.DecodeSetClientUserInfo(next.value).error)
    ensures r.Ok? ==> r.value.request.nickname == Some(r.value.user.username)
    ensures r.Ok? ==> r.value.request.iconId == Some(r.value.user.iconId)
    ensures r.Ok? ==> r.value.user == Anonymous(r.value.user.username, r.value.user.iconId)
    ensures r.Ok? ==> r.value.request.login == req.login && r.value.request.password == req.password
  {
    match OldStyle(req)
    case Some((nickname, icon)) => Ok(LoggedIn(req, Anonymous(nickname, icon), 1))
    case None =>
      var frame :- next;
      var info :- Requests.DecodeSetClientUserInfo(frame);
      var filled := req.(nickname := Some(info.username), iconId := Some(info.iconId));
      Ok(LoggedIn(filled, Anonymous(info.username, info.iconId), 2))
  }

  /**
    Read from the connection: a follow-up frame whose body does not parse ends a new-style
    login with `ParseBody`, and an exhausted connection ends it with `Io`.
  */
  lemma FollowUpReadErrors(req: Requests.LoginRequest, rest: Bytes)
    requires OldStyle(req).None?
    ensures Frames.Complete(rest) && DecodeBody(Frames.BodyBytes(rest)).Err? ==>
      Exchange(req, Frames.NextFrame(rest).result) == Err(ParseBody)
    ensures !Frames.Complete(rest) ==> Exchange(req, Frames.NextFrame(rest).result) == Err(Io)
  {
  }

  /** `Unauthenticated::login`: decode the first frame with `LoginRequest::try_from`, then the exchange. */
  function Login(first: TransactionFrame, next: Result<TransactionFrame, ProtocolError>): (r: Result<LoggedIn, ProtocolError>)
    ensures Requests.DecodeLoginAsWritten(first).Err? ==> r == Err(Requests.DecodeLoginAsWritten(first).error)
    ensures Requests.DecodeLoginAsWritten(first).Ok? ==> r == Exchange(Requests.DecodeLoginAsWritten(first).value, next)
  {
    var req :- Requests.DecodeLoginAsWritten(first);
    Exchange(req, next)
  }

  /** The same exchange on the decoder that reads the icon from the icon field only. */
  function LoginCorrected(first: TransactionFrame, next: Result<TransactionFrame, ProtocolError>): (r: Result<LoggedIn, ProtocolError>)
    ensures Requests.DecodeLogin(first).Err? ==> r == Err(Requests.DecodeLogin(first).error)
    ensures Requests.DecodeLogin(first).Ok? ==> r == Exchange(Requests.DecodeLogin(first).value, next)
  {
    var req :- Requests.DecodeLogin(first);
    Exchange(req, next)
  }

  /** An old-style login never reads a second frame: whatever follows is left for the session. */
  lemma OldStyleIgnoresNext(first: TransactionFrame, a: Result<TransactionFrame, ProtocolError>, b: Result<TransactionFrame, ProtocolError>)
    requires Requests.DecodeLoginAsWritten(first).Ok? && OldStyle(Requests.DecodeLoginAsWritten(first).value).Some?
    ensures Login(first, a) == Login(first, b)
    ensures Login(first, a).Ok? && Login(first, a).value.framesRead == 1
  {
  }

  /** `fill_in` turns any request into an old-style one carrying the supplied nickname and icon. */
  lemma FillInOldStyle(req: Requests.LoginRequest, nickname: Nickname, icon: int16)
    ensures OldStyle(req.(nickname := Some(nickname), iconId := Some(icon))) == Some((nickname, icon))
  {
  }

  /**
    A client that sends a two-byte login and a nickname but no icon, and then waits for the
    login reply, is logged in after one frame: `LoginRequest::try_from` takes the login's
    bytes as the icon. With the icon read from its own field, the server would wait for
    `SetClientUserInfo` instead, and a client that sends nothing more gets a read error.
  */
  lemma TwoByteLoginIsOldStyle()
    ensures var req := Requests.LoginRequest(Some(LoginFromCleartext([0x6a, 0x6f])), Some(Nickname([0x78])), None, None);
      var first := Requests.LoginFrame(DefaultHeader, req);
      && Login(first, Err(Io)).Ok? && Login(first, Err(Io)).value.framesRead == 1
      && Login(first, Err(Io)).value.user.iconId == -27248
      && LoginCorrected(first, Err(Io)) == Err(Io)
  {
    var req := Requests.LoginRequest(Some(LoginFromCleartext([0x6a, 0x6f])), Some(Nickname([0x78])), None, None);
    var first := Requests.LoginFrame(DefaultHeader, req);
    TwoByteLoginParameters(req);
    var ps := first.body.parameters;
    assert IconIdFrom(ps[0]) == Ok(-27248) by {
      assert IconIdFrom(ps[0]).value == DecodeInt([0x95, 0x90]);
      Pow256Values();
      Requests.BeDecodeTwo(0x95, 0x90);
    }
    Requests.FindMapFirst(ps, IconIdFrom, 0);
    Requests.DecodeEncodeLogin(DefaultHeader, req);
  }

  lemma TwoByteLoginParameters(req: Requests.LoginRequest)
    requires req == Requests.LoginRequest(Some(LoginFromCleartext([0x6a, 0x6f])), Some(Nickname([0x78])), None, None)
    ensures Requests.EncodeLogin(req).parameters == [Parameter(F.UserLogin, [0x95, 0x90]), Parameter(F.UserName, [0x78])]
  {
    Requests.EncodeLoginRuns(req);
    assert Invert([0x6a, 0x6f]) == [0x95, 0x90];
    assert Requests.LoginRun(req) == [Parameter(F.UserLogin, [0x95, 0x90])];
    assert Requests.NicknameRun(req) == [Parameter(F.UserName, [0x78])];
    assert Requests.PasswordRun(req) == [] && Requests.IconRun(req) == [];
  }

  // Requests on an established connection.

  /** The request decoders, tried in this order; the first that accepts the frame handles it. */
  datatype Handler =
    | ClientRequest | SendInstantMessage | SendBroadcast | InviteToNewChat | InviteToChat
    | JoinChat | LeaveChat | SetChatSubject | GetUser | KeepAlive

  const Handlers: seq<Handler> := [
    ClientRequest, SendInstantMessage, SendBroadcast, InviteToNewChat, InviteToChat,
    JoinChat, LeaveChat, SetChatSubject, GetUser, KeepAlive]

  /** The position of the first handler in `hs` whose decoder accepts the frame, or `|hs|`. */
  function FirstAccepting(hs: seq<Handler>, accepts: Handler -> bool): (i: nat)
    ensures i <= |hs|
    ensures i < |hs| ==> accepts(hs[i])
    ensures forall j :: 0 <= j < i ==> !accepts(hs[j])
  {
    if |hs| == 0 then 0
    else if accepts(hs[0]) then 0
    else
      assert forall j :: 1 <= j < |hs| ==> hs[j] == hs[1..][j - 1];
      1 + FirstAccepting(hs[1..], accepts)
  }

  /** The handler that takes the frame, if any decoder accepts it. */
  function Dispatch(hs: seq<Handler>, accepts: Handler -> bool): (r: Option<Handler>)
    ensures r.None? <==> forall i :: 0 <= i < |hs| ==> !accepts(hs[i])
    ensures r.Some? ==> exists i :: (0 <= i < |hs| && hs[i] == r.value && accepts(hs[i])
      && forall j :: 0 <= j < i ==> !accepts(hs[j]))
  {
    var i := FirstAccepting(hs, accepts);
    if i < |hs| then Some(hs[i]) else None
  }

  datatype ReplyKind =
    | HandlerReply | SendInstantMessageReply | GenericReply | InviteToNewChatReply
    | JoinChatReply | GetUserReply

  /**
    Why the session ends: the request needs a logged-in user and there is none, or the
    general client-request handler failed (its error is propagated with `?`).
  */
  datatype SessionError = UserUnavailable | HandlerFailed

  /** What the general client-request handler did: produced a reply, produced none, or failed. */
  datatype HandlerOutcome = Answered | Unanswered | Failed

  predicate NeedsUser(h: Handler)
  {
    h == InviteToNewChat || h == InviteToChat || h == JoinChat || h == LeaveChat
  }

  /**
    `Established::transaction`'s reply. Unrecognised requests, leaving a chat and setting a
    chat's subject are not answered; a general client request is answered if its handler
    produced a reply, and ends the session if the handler failed. Instant messages are
    acknowledged whether or not the addressee exists; a keep-alive and a broadcast get
    the generic reply.
  */
  function Reply(accepts: Handler -> bool, handler: HandlerOutcome, loggedIn: bool): (r: Result<Option<ReplyKind>, SessionError>)
    ensures var h := Dispatch(Handlers, accepts);
      && (r.Err? <==> (h.Some? && NeedsUser(h.value) && !loggedIn) || (h == Some(ClientRequest) && handler.Failed?))
      && (r == Err(HandlerFailed) <==> h == Some(ClientRequest) && handler.Failed?)
      && (r == Ok(None) <==> (h.None? || (h == Some(LeaveChat) && loggedIn) || h == Some(SetChatSubject)
          || (h == Some(ClientRequest) && handler.Unanswered?)))
      && (h == Some(KeepAlive) ==> r == Ok(Some(GenericReply)))
      && (h == Some(SendBroadcast) ==> r == Ok(Some(GenericReply)))
      && (h == Some(SendInstantMessage) ==> r == Ok(Some(SendInstantMessageReply)))
      && (h == Some(ClientRequest) && handler.Answered? ==> r == Ok(Some(HandlerReply)))
      && (h == Some(InviteToNewChat) && loggedIn ==> r == Ok(Some(InviteToNewChatReply)))
      && (h == Some(InviteToChat) && loggedIn ==> r == Ok(Some(InviteToNewChatReply)))
      && (h == Some(JoinChat) && loggedIn ==> r == Ok(Some(JoinChatReply)))
      && (h == Some(GetUser) ==> r == Ok(Some(GetUserReply)))
  {
    match Dispatch(Handlers, accepts)
    case None => Ok(None)
    case Some(h) =>
      if NeedsUser(h) && !loggedIn then Err(UserUnavailable)
      else if h == ClientRequest && handler.Failed? then Err(HandlerFailed)
      else
        Ok(match h
          case ClientRequest => if handler.Answered? then Some(HandlerReply) else None
          case SendInstantMessage => Some(SendInstantMessageReply)
          case SendBroadcast => Some(GenericReply)
          case InviteToNewChat => Some(InviteToNewChatReply)
          case InviteToChat => Some(InviteToNewChatReply)
          case JoinChat => Some(JoinChatReply)
          case LeaveChat => None
          case SetChatSubject => None
          case GetUser => Some(GetUserReply)
          case KeepAlive => Some(GenericReply))
  }

  /** A keep-alive that no earlier decoder claims is answered with the generic reply. */
  lemma KeepAliveAnswered(accepts: Handler -> bool, handler: HandlerOutcome, loggedIn: bool)
    requires forall h :: accepts(h) <==> h == KeepAlive
    ensures Reply(accepts, handler, loggedIn) == Ok(Some(GenericReply))
  {
    assert Handlers[9] == KeepAlive;
  }

  /** A frame no decoder accepts gets no reply and does not end the session. */
  lemma UnknownIgnored(accepts: Handler -> bool, handler: HandlerOutcome, loggedIn: bool)
    requires forall h :: !accepts(h)
    ensures Reply(accepts, handler, loggedIn) == Ok(None)
  {
  }

  // Creating a chat from an invitation.

  /** `filter(|user| creator != *user)`, keeping order. */
  function Without(us: seq<int16>, u: int16): (r: seq<int16>)
    ensures forall x :: x in r <==> x in us && x != u
    ensures |r| <= |us|
  {
    if |us| == 0 then [] else if us[0] == u then Without(us[1..], u) else [us[0]] + Without(us[1..], u)
  }

  lemma {:induction false} WithoutAppend(us: seq<int16>, vs: seq<int16>, u: int16)
    ensures Without(us + vs, u) == Without(us, u) + Without(vs, u)
  {
    if |us| == 0 {
      assert us + vs == vs;
    } else {
      assert (us + vs)[1..] == us[1..] + vs;
      WithoutAppend(us[1..], vs, u);
    }
  }

  /** The result of `chat_create`: the new room's id, the rooms, and the users sent an invitation. */
  datatype Created = Created(chatId: int16, chats: Chat.Chats, invitees: seq<int16>)

  /**
    The InviteToNewChat handler with `chat_create`: the creator is appended to the invited
    list, the room is created holding the creator alone, and every other listed user
    (duplicates included, in order) is sent an invitation to it.
  */
  function CreateChat(c: Chat.Chats, creator: int16, invited: seq<int16>): (r: Created)
    ensures r.chatId == c.next && r.chats.next == Chat.NextId(c.next)
    ensures c.next !in c.rooms ==> r.chatId in r.chats.rooms && r.chats.rooms[r.chatId] == Chat.Room(None, {creator})
    ensures forall k :: k != r.chatId ==> (k in r.chats.rooms <==> k in c.rooms)
    ensures forall k :: k != r.chatId && k in c.rooms ==> r.chats.rooms[k] == c.rooms[k]
    ensures |r.invitees| <= |invited|
    ensures forall u :: u in r.invitees <==> u in invited && u != creator
    ensures r.invitees == Without(invited, creator)
  {
    var listed := invited + [creator];
    var (id, c') := Chat.Create(c, [creator]);
    CreatorAlone(c, creator);
    WithoutAppend(invited, [creator], creator);
    assert Without([creator], creator) == [];
    Created(id, c', Without(listed, creator))
  }

  lemma CreatorAlone(c: Chat.Chats, creator: int16)
    ensures c.next !in c.rooms ==> var (id, c') := Chat.Create(c, [creator]);
      id in c'.rooms && c'.rooms[id] == Chat.Room(None, {creator})
  {
    if c.next !in c.rooms {
      Chat.CreateMembers(c, [creator]);
      assert (set u | u in [creator]) == {creator};
    }
  }

  /** The invitations published for a new chat reach exactly the invited users' connections. */
  lemma InvitesReachInvitees(c: Chat.Chats, creator: int16, invited: seq<int16>, g: Globals, us: seq<UserNameWithInfo>, cs: Chat.Chats)
    requires g.transactionId < 0x7fff_ffff && g.userId.Some? && Find(us, g.userId.value).Some?
    ensures var r := CreateChat(c, creator, invited);
      (exists i :: 0 <= i < |r.invitees| && Notify(g, us, cs, ChatRoomInvite(r.chatId, r.invitees[i])).0.Some?)
      <==> g.userId.value in invited && g.userId.value != creator
  {
    var r := CreateChat(c, creator, invited);
    var me := g.userId.value;
    if me in invited && me != creator {
      var i :| 0 <= i < |r.invitees| && r.invitees[i] == me;
      assert Notify(g, us, cs, ChatRoomInvite(r.chatId, r.invitees[i])).0.Some?;
    }
  }
}
