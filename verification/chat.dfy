/**
  Private chat rooms. Rooms are kept in a set keyed by chat id alone (hashing and
  equality look only at the id), which is a map from id to room; each room has an
  optional subject and a set of members. Every update takes the room out (or a fresh
  empty one), changes it and puts it back.
*/
module Chat {
  import opened Wrappers
  import opened Wire

  type ChatId = int16
  type UserId = int16

  datatype Room = Room(subject: Option<seq<uint8>>, users: set<UserId>)

  const EmptyRoom: Room := Room(None, {})

  /** `ChatRoom::add`. */
  function AddUser(r: Room, u: UserId): (r': Room)
    ensures r'.subject == r.subject && u in r'.users && r.users <= r'.users && |r'.users - r.users| <= 1
  {
    r.(users := r.users + {u})
  }

  /** `ChatRoom::remove`. */
  function RemoveUser(r: Room, u: UserId): (r': Room)
    ensures r'.subject == r.subject && u !in r'.users && r'.users <= r.users && |r.users - r'.users| <= 1
  {
    r.(users := r.users - {u})
  }

  /** Membership is a set: adding or removing twice is the same as once. */
  lemma MembershipIdempotent(r: Room, u: UserId)
    ensures AddUser(AddUser(r, u), u) == AddUser(r, u)
    ensures RemoveUser(RemoveUser(r, u), u) == RemoveUser(r, u)
    ensures u !in r.users ==> RemoveUser(AddUser(r, u), u) == r
  {
    AddTwice(r, u);
    RemoveTwice(r, u);
    if u !in r.users {
      AddThenRemove(r, u);
    }
  }

  lemma AddTwice(r: Room, u: UserId)
    ensures AddUser(AddUser(r, u), u) == AddUser(r, u)
  {
    assert r.users + {u} + {u} == r.users + {u};
  }

  lemma RemoveTwice(r: Room, u: UserId)
    ensures RemoveUser(RemoveUser(r, u), u) == RemoveUser(r, u)
  {
    assert r.users - {u} - {u} == r.users - {u};
  }

  lemma AddThenRemove(r: Room, u: UserId)
    requires u !in r.users
    ensures RemoveUser(AddUser(r, u), u) == r
  {
    assert r.users + {u} - {u} == r.users;
  }

  /** The id after `id`: computed in 32 bits and narrowed back to a chat id. */
  function NextId(id: ChatId): (r: ChatId)
    ensures id < 0x7fff ==> r == id + 1
    ensures id == 0x7fff ==> r == -0x8000
  {
    Pow256Values();
    Wrap(id + 1, 2)
  }

  /** The rooms and the id the next room will get (the default chat id, 1, to start). */
  datatype Chats = Chats(rooms: map<ChatId, Room>, next: ChatId)

  /** `Chats::new`. */
  const NoChats: Chats := Chats(map[], 1)

  /** `take_room`: the stored room (or a fresh empty one) and the rooms without it. */
  function TakeRoom(c: Chats, id: ChatId): (r: (Room, Chats))
    ensures id !in r.1.rooms && r.1.next == c.next
    ensures r.1.rooms == c.rooms - {id}
    ensures r.0 == if id in c.rooms then c.rooms[id] else EmptyRoom
  {
    (if id in c.rooms then c.rooms[id] else EmptyRoom, c.(rooms := c.rooms - {id}))
  }

  /** `return_room`: a set insert, which keeps an existing room with the same id. */
  function ReturnRoom(c: Chats, id: ChatId, room: Room): (r: Chats)
    ensures r.next == c.next && id in r.rooms
    ensures id !in c.rooms ==> r.rooms == c.rooms[id := room]
    ensures id in c.rooms ==> r == c
  {
    if id in c.rooms then c else c.(rooms := c.rooms[id := room])
  }

  /** Taking a room out and putting it back unchanged restores the store when the room exists. */
  lemma TakeReturn(c: Chats, id: ChatId)
    requires id in c.rooms
    ensures var t := TakeRoom(c, id); ReturnRoom(t.1, id, t.0) == c
  {
    var t := TakeRoom(c, id);
    assert ReturnRoom(t.1, id, t.0).rooms == c.rooms;
  }

  /** The update every operation applies to one room: take it, change it, return it. */
  function Update(c: Chats, id: ChatId, f: Room -> Room): (r: Chats)
    ensures r.next == c.next
    ensures r.rooms == c.rooms[id := f(if id in c.rooms then c.rooms[id] else EmptyRoom)]
  {
    var t := TakeRoom(c, id);
    var r := ReturnRoom(t.1, id, f(t.0));
    assert r.rooms == c.rooms[id := f(t.0)];
    r
  }

  /** `Chats::join`: the room (created empty if absent) gains the user; nothing else changes. */
  function Join(c: Chats, id: ChatId, u: UserId): (r: Chats)
    ensures r.next == c.next && id in r.rooms && u in r.rooms[id].users
    ensures id in c.rooms ==> r.rooms[id] == c.rooms[id].(users := c.rooms[id].users + {u})
    ensures id !in c.rooms ==> r.rooms[id] == Room(None, {u})
    ensures forall k :: k != id ==> (k in r.rooms <==> k in c.rooms)
    ensures forall k :: k != id && k in c.rooms ==> r.rooms[k] == c.rooms[k]
  {
    Update(c, id, (room: Room) => AddUser(room, u))
  }

  /** `Chats::leave`: the room loses the user; leaving a room that does not exist creates it empty. */
  function Leave(c: Chats, id: ChatId, u: UserId): (r: Chats)
    ensures r.next == c.next && id in r.rooms && u !in r.rooms[id].users
    ensures id in c.rooms ==> r.rooms[id] == c.rooms[id].(users := c.rooms[id].users - {u})
    ensures id !in c.rooms ==> r.rooms[id] == EmptyRoom
    ensures forall k :: k != id ==> (k in r.rooms <==> k in c.rooms)
    ensures forall k :: k != id && k in c.rooms ==> r.rooms[k] == c.rooms[k]
  {
    Update(c, id, (room: Room) => RemoveUser(room, u))
  }

  /** `Chats::set_subject`: the subject is replaced and the membership kept. */
  function SetSubject(c: Chats, id: ChatId, subject: seq<uint8>): (r: Chats)
    ensures r.next == c.next && id in r.rooms && r.rooms[id].subject == Some(subject)
    ensures r.rooms[id].users == (if id in c.rooms then c.rooms[id].users else {})
    ensures forall k :: k != id ==> (k in r.rooms <==> k in c.rooms)
    ensures forall k :: k != id && k in c.rooms ==> r.rooms[k] == c.rooms[k]
  {
    Update(c, id, (room: Room) => room.(subject := Some(subject)))
  }

  /** `Chats::room`: the lookup depends on the id only. */
  function RoomOf(c: Chats, id: ChatId): (r: Option<Room>)
    ensures r.Some? <==> id in c.rooms
    ensures r.Some? ==> r.value == c.rooms[id]
  {
    if id in c.rooms then Some(c.rooms[id]) else None
  }

  /** Looking a room up after a join, leave or subject change sees the change and nothing else. */
  lemma RoomOfAfterUpdates(c: Chats, id: ChatId, u: UserId, subject: seq<uint8>, k: ChatId)
    ensures RoomOf(Join(c, id, u), id).Some? && u in RoomOf(Join(c, id, u), id).value.users
    ensures RoomOf(Leave(c, id, u), id).Some? && u !in RoomOf(Leave(c, id, u), id).value.users
    ensures RoomOf(SetSubject(c, id, subject), id).Some? && RoomOf(SetSubject(c, id, subject), id).value.subject == Some(subject)
    ensures k != id ==> RoomOf(Join(c, id, u), k) == RoomOf(c, k)
    ensures k != id ==> RoomOf(Leave(c, id, u), k) == RoomOf(c, k)
    ensures k != id ==> RoomOf(SetSubject(c, id, subject), k) == RoomOf(c, k)
  {
  }

  /** `for user in users { join(chat, user) }`. */
  function JoinAll(c: Chats, id: ChatId, us: seq<UserId>): (r: Chats)
    ensures r.next == c.next
    ensures forall k :: k != id ==> (k in r.rooms <==> k in c.rooms)
    ensures forall k :: k != id && k in c.rooms ==> r.rooms[k] == c.rooms[k]
    decreases |us|
  {
    if |us| == 0 then c else JoinAll(Join(c, id, us[0]), id, us[1..])
  }

  /** After joining a list, the room holds its earlier members plus exactly the listed users. */
  lemma {:induction false} JoinAllMembers(c: Chats, id: ChatId, us: seq<UserId>)
    requires |us| > 0 || id in c.rooms
    ensures id in JoinAll(c, id, us).rooms
    ensures JoinAll(c, id, us).rooms[id].users == (if id in c.rooms then c.rooms[id].users else {}) + set u | u in us
    ensures id in c.rooms ==> JoinAll(c, id, us).rooms[id].subject == c.rooms[id].subject
    ensures id !in c.rooms ==> JoinAll(c, id, us).rooms[id].subject.None?
    decreases |us|
  {
    if |us| > 0 {
      var c' := Join(c, id, us[0]);
      var before := if id in c.rooms then c.rooms[id].users else {};
      assert c'.rooms[id].users == before + {us[0]};
      JoinAllMembers(c', id, us[1..]);
      assert JoinAll(c, id, us) == JoinAll(c', id, us[1..]);
      SetOfCons(us);
    } else {
      assert (set u | u in us) == {};
    }
  }

  lemma SetOfCons(us: seq<UserId>)
    requires |us| > 0
    ensures (set u | u in us) == {us[0]} + set u | u in us[1..]
  {
  }

  /** An empty list creates nothing. */
  lemma JoinNobody(c: Chats, id: ChatId)
    ensures JoinAll(c, id, []) == c
  {
  }

  /** `Chats::create`: the room takes the current next id, the id moves on, and the listed users join. */
  function Create(c: Chats, us: seq<UserId>): (r: (ChatId, Chats))
    ensures r.0 == c.next && r.1.next == NextId(c.next)
    ensures forall k :: k != r.0 ==> (k in r.1.rooms <==> k in c.rooms)
    ensures forall k :: k != r.0 && k in c.rooms ==> r.1.rooms[k] == c.rooms[k]
  {
    var id := c.next;
    (id, JoinAll(c.(next := NextId(c.next)), id, us))
  }

  /** The first room created from scratch has id 1, holds exactly the listed users and has no subject. */
  lemma FirstCreate(us: seq<UserId>)
    requires |us| > 0
    ensures var r := Create(NoChats, us);
      r.0 == 1 && r.1.next == 2 && 1 in r.1.rooms
      && r.1.rooms[1] == Room(None, set u | u in us)
  {
    JoinAllMembers(NoChats.(next := 2), 1, us);
  }

  /** Creating a room for a list with members gives a room holding them, without touching other rooms. */
  lemma CreateMembers(c: Chats, us: seq<UserId>)
    requires |us| > 0 && c.next !in c.rooms
    ensures var r := Create(c, us); r.0 in r.1.rooms && r.1.rooms[r.0] == Room(None, set u | u in us)
  {
    JoinAllMembers(c.(next := NextId(c.next)), c.next, us);
  }
}
