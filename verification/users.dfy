/**
  The list of connected users: records in insertion order, plus a counter from which
  each new user's id is taken (truncated to 16 bits).
*/
module Users {
  import opened Wire
  import opened Parameters

  datatype Users = Users(users: seq<UserNameWithInfo>, top: nat)

  /** `Users::new`. */
  const Empty: Users := Users([], 0)

  /** What `add` hands back: the new list, the caller's record with its id filled in, and the id. */
  datatype Added = Added(list: Users, user: UserNameWithInfo, id: int16)

  /** The id the counter value `top` becomes: `top as i16`. */
  function IdOf(top: nat): (r: int16)
    ensures InSigned(r, 2) && ToUnsigned(r, 2) == top % 0x1_0000
    ensures top < 0x8000 ==> r == top
  {
    Pow256Values();
    Wrap(top, 2)
  }

  /** `Users::add`: the record takes the counter's id, the counter moves on, and a copy is appended. */
  function Add(u: Users, user: UserNameWithInfo): (r: Added)
    ensures r.user == user.(userId := r.id) && r.id == IdOf(u.top)
    ensures r.list.users == u.users + [r.user] && r.list.top == u.top + 1
  {
    var id := IdOf(u.top);
    var named := user.(userId := id);
    Added(Users(u.users + [named], u.top + 1), named, id)
  }

  /** `Users::remove`: every entry with the same user id goes, the rest keep their order. */
  function Remove(u: Users, user: UserNameWithInfo): (r: Users)
    ensures r.top == u.top
    ensures forall x :: x in r.users <==> x in u.users && x.userId != user.userId
    ensures |r.users| <= |u.users|
  {
    Users(Retain(u.users, user.userId), u.top)
  }

  /** `retain(|u| u.user_id != id)`. */
  function Retain(us: seq<UserNameWithInfo>, id: int16): (r: seq<UserNameWithInfo>)
    ensures forall x :: x in r <==> x in us && x.userId != id
    ensures |r| <= |us|
  {
    if |us| == 0 then []
    else if us[0].userId != id then [us[0]] + Retain(us[1..], id)
    else Retain(us[1..], id)
  }

  /** Retaining distributes over concatenation, so the survivors keep their relative order. */
  lemma {:induction false} RetainConcat(a: seq<UserNameWithInfo>, b: seq<UserNameWithInfo>, id: int16)
    ensures Retain(a + b, id) == Retain(a, id) + Retain(b, id)
  {
    if |a| == 0 {
      assert a + b == b;
    } else {
      assert (a + b)[1..] == a[1..] + b;
      RetainConcat(a[1..], b, id);
    }
  }

  /** Removing a user that is not listed changes nothing. */
  lemma {:induction false} RetainAbsent(us: seq<UserNameWithInfo>, id: int16)
    requires forall i :: 0 <= i < |us| ==> us[i].userId != id
    ensures Retain(us, id) == us
  {
    if |us| > 0 {
      RetainAbsent(us[1..], id);
    }
  }

  /** `Users::borrow`: the records in insertion order. */
  function Borrow(u: Users): (r: seq<UserNameWithInfo>)
    ensures |r| == |u.users| && forall i :: 0 <= i < |r| ==> r[i] == u.users[i]
  {
    u.users
  }

  /** Adding then removing the same user restores the list, when its id was not in use. */
  lemma AddThenRemove(u: Users, user: UserNameWithInfo)
    requires forall i :: 0 <= i < |u.users| ==> u.users[i].userId != IdOf(u.top)
    ensures var a := Add(u, user); Remove(a.list, a.user).users == u.users
  {
    var a := Add(u, user);
    RetainConcat(u.users, [a.user], a.id);
    RetainAbsent(u.users, a.id);
    assert Retain([a.user], a.id) == [];
  }

  /** Users added while the counter is below 2^15 receive ids 0, 1, 2, ... */
  lemma SequentialIds(u: Users, a: UserNameWithInfo, b: UserNameWithInfo)
    requires u.top + 1 < 0x8000
    ensures var first := Add(u, a); var second := Add(first.list, b);
      first.id == u.top && second.id == u.top + 1 && first.id < second.id
  {
  }

  /** The ids in a list grown only by `add` from empty, while the counter stays below 2^15. */
  predicate WellNumbered(u: Users)
  {
    u.top < 0x8000 && forall i :: 0 <= i < |u.users| ==> 0 <= u.users[i].userId < u.top
  }

  /** `add` keeps every listed id below the counter, so the next id is always fresh. */
  lemma AddFresh(u: Users, user: UserNameWithInfo)
    requires WellNumbered(u) && u.top + 1 < 0x8000
    ensures forall i :: 0 <= i < |u.users| ==> u.users[i].userId != Add(u, user).id
    ensures WellNumbered(Add(u, user).list)
  {
  }
}
