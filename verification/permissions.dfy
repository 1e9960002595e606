/**
  Account permissions. Each operation has a number n, and a permission set is packed into
  a 64-bit access word by setting bit 63 - n (bit 63 being the most significant). The five
  categories use disjoint numbers, so an account's word is the bitwise OR of theirs.
  The word is kept as its 64 bits; as the signed `i64` of the user-access field it is
  the same eight big-endian bytes.
*/
module Permissions {
  import opened Wire

  datatype FileOperation =
    | Download | UploadToDropbox | UploadToFolder | DeleteFile | RenameFile | MoveFile
    | SetFileComment | CreateFolder | DeleteFolder | RenameFolder | MoveFolder
    | SetFolderComment | ViewDropBox | CreateAlias

  datatype UserOperation =
    | CanCreateUsers | CanDeleteUsers | CanReadUsers | CanModifyUsers | CanGetUserInfo
    | CanDisconnectUsers | CannotBeDisconnected

  datatype NewsOperation = ReadNews | PostNews

  datatype ChatOperation = ReadChat | SendChat

  datatype MiscOperation = CanUseAnyName | DontShowAgreement

  type Code = c: nat | c < 64

  function FileCode(op: FileOperation): (c: Code)
    ensures IsFileCode(c)
  {
    match op
    case Download => 2
    case UploadToDropbox => 1
    case UploadToFolder => 25
    case DeleteFile => 0
    case RenameFile => 3
    case MoveFile => 4
    case SetFileComment => 28
    case CreateFolder => 5
    case DeleteFolder => 6
    case RenameFolder => 7
    case MoveFolder => 8
    case SetFolderComment => 29
    case ViewDropBox => 30
    case CreateAlias => 31
  }

  function UserCode(op: UserOperation): (c: Code)
    ensures IsUserCode(c)
  {
    match op
    case CanCreateUsers => 14
    case CanDeleteUsers => 15
    case CanReadUsers => 16
    case CanModifyUsers => 17
    case CanGetUserInfo => 24
    case CanDisconnectUsers => 22
    case CannotBeDisconnected => 23
  }

  function NewsCode(op: NewsOperation): (c: Code)
    ensures IsNewsCode(c)
  {
    match op
    case ReadNews => 20
    case PostNews => 21
  }

  function ChatCode(op: ChatOperation): (c: Code)
    ensures IsChatCode(c)
  {
    match op
    case ReadChat => 9
    case SendChat => 10
  }

  function MiscCode(op: MiscOperation): (c: Code)
    ensures IsMiscCode(c)
  {
    match op
    case CanUseAnyName => 26
    case DontShowAgreement => 27
  }

  // The numbers of each category lie in their own ranges, so no two categories share a bit.

  predicate IsFileCode(c: Code) { c <= 8 || c == 25 || 28 <= c <= 31 }
  predicate IsUserCode(c: Code) { 14 <= c <= 17 || 22 <= c <= 24 }
  predicate IsNewsCode(c: Code) { 20 <= c <= 21 }
  predicate IsChatCode(c: Code) { 9 <= c <= 10 }
  predicate IsMiscCode(c: Code) { 26 <= c <= 27 }

  /** Every operation of each category, in declaration order (the iteration order). */
  const AllFile: seq<FileOperation> := [
    Download, UploadToDropbox, UploadToFolder, DeleteFile, RenameFile, MoveFile, SetFileComment,
    CreateFolder, DeleteFolder, RenameFolder, MoveFolder, SetFolderComment, ViewDropBox, CreateAlias]
  const AllUser: seq<UserOperation> := [
    CanCreateUsers, CanDeleteUsers, CanReadUsers, CanModifyUsers, CanGetUserInfo,
    CanDisconnectUsers, CannotBeDisconnected]
  const AllNews: seq<NewsOperation> := [ReadNews, PostNews]
  const AllChat: seq<ChatOperation> := [ReadChat, SendChat]
  const AllMisc: seq<MiscOperation> := [CanUseAnyName, DontShowAgreement]

  /**
    The 64-bit access word as its bits, most significant first: entry c is the bit
    `1 << (63 - c)` that operation number c sets.
  */
  type Word = w: seq<bool> | |w| == 64 witness seq(64, i => false)

  const Zero: Word := seq(64, i => false)

  /** `1 << (63 - c)`. */
  function Flag(c: Code): (r: Word)
    ensures forall d :: 0 <= d < 64 ==> (r[d] <==> d == c)
  {
    seq(64, i => i == c)
  }

  /** Bitwise OR. */
  function Or(a: Word, b: Word): (r: Word)
    ensures forall c :: 0 <= c < 64 ==> (r[c] <==> a[c] || b[c])
  {
    seq(64, i requires 0 <= i < 64 => a[i] || b[i])
  }

  /** `From<Permissions> for i64`: OR in the flag of every operation in the set. */
  function Pack<T(==,!new)>(ops: seq<T>, s: set<T>, code: T -> Code): Word
  {
    if |ops| == 0 then Zero
    else Or(if ops[0] in s then Flag(code(ops[0])) else Zero, Pack(ops[1..], s, code))
  }

  /** `From<i64> for Permissions`: every operation whose bit is set. */
  function Unpack<T(==,!new)>(ops: seq<T>, bits: Word, code: T -> Code): (r: set<T>)
    ensures forall op :: op in r <==> op in ops && bits[code(op)]
  {
    set op | op in ops && bits[code(op)]
  }

  /** A packed word has bit c set exactly when some operation in the set has number c. */
  lemma {:induction false} PackBit<T(!new)>(ops: seq<T>, s: set<T>, code: T -> Code, c: Code)
    ensures Pack(ops, s, code)[c] <==> exists i :: 0 <= i < |ops| && ops[i] in s && code(ops[i]) == c
  {
    if |ops| > 0 {
      PackBit(ops[1..], s, code, c);
      if exists i :: 1 <= i < |ops| && ops[i] in s && code(ops[i]) == c {
        var i :| 1 <= i < |ops| && ops[i] in s && code(ops[i]) == c;
        assert ops[1..][i - 1] == ops[i];
      }
      if exists i :: 0 <= i < |ops[1..]| && ops[1..][i] in s && code(ops[1..][i]) == c {
        var i :| 0 <= i < |ops[1..]| && ops[1..][i] in s && code(ops[1..][i]) == c;
        assert ops[i + 1] == ops[1..][i];
      }
    }
  }

  /** Numbers are one-to-one within a category. */
  predicate Distinct<T(==,!new)>(ops: seq<T>, code: T -> Code)
  {
    forall i, j :: 0 <= i < |ops| && 0 <= j < |ops| && code(ops[i]) == code(ops[j]) ==> i == j
  }

  /** Packing and unpacking a set of the category's operations gives the set back. */
  lemma UnpackPack<T(!new)>(ops: seq<T>, s: set<T>, code: T -> Code)
    requires Distinct(ops, code) && forall op :: op in s ==> op in ops
    ensures Unpack(ops, Pack(ops, s, code), code) == s
  {
    forall op | op in ops
      ensures Pack(ops, s, code)[code(op)] <==> op in s
    {
      PackBit(ops, s, code, code(op));
    }
  }

  // The five categories.

  lemma CodesDistinct()
    ensures Distinct(AllFile, FileCode) && Distinct(AllUser, UserCode) && Distinct(AllNews, NewsCode)
    ensures Distinct(AllChat, ChatCode) && Distinct(AllMisc, MiscCode)
  {
    FileCodesDistinct();
    UserCodesDistinct();
  }

  /** Numbers are one-to-one when some map sends each one back to its operation's position. */
  lemma DistinctByPosition<T(!new)>(ops: seq<T>, code: T -> Code, position: Code -> int)
    requires forall i :: 0 <= i < |ops| ==> position(code(ops[i])) == i
    ensures Distinct(ops, code)
  {
  }

  /** The position in the category list of the operation numbered c, or -1. */
  function FilePosition(c: Code): int
  {
    match c
    case 2 => 0
    case 1 => 1
    case 25 => 2
    case 0 => 3
    case 3 => 4
    case 4 => 5
    case 28 => 6
    case 5 => 7
    case 6 => 8
    case 7 => 9
    case 8 => 10
    case 29 => 11
    case 30 => 12
    case 31 => 13
    case _ => -1
  }

  /** The position in the category list of the operation numbered c, or -1. */
  function UserPosition(c: Code): int
  {
    match c
    case 14 => 0
    case 15 => 1
    case 16 => 2
    case 17 => 3
    case 24 => 4
    case 22 => 5
    case 23 => 6
    case _ => -1
  }

  lemma FileCodesDistinct()
    ensures Distinct(AllFile, FileCode)
  {
    forall i | 0 <= i < |AllFile| ensures FilePosition(FileCode(AllFile[i])) == i {
      if i == 0 {
        assert AllFile[0] == AllFile[i];
      } else if i == 1 {
        assert AllFile[1] == AllFile[i];
      } else if i == 2 {
        assert AllFile[2] == AllFile[i];
      } else if i == 3 {
        assert AllFile[3] == AllFile[i];
      } else if i == 4 {
        assert AllFile[4] == AllFile[i];
      } else if i == 5 {
        assert AllFile[5] == AllFile[i];
      } else if i == 6 {
        assert AllFile[6] == AllFile[i];
      } else if i == 7 {
        assert AllFile[7] == AllFile[i];
      } else if i == 8 {
        assert AllFile[8] == AllFile[i];
      } else if i == 9 {
        assert AllFile[9] == AllFile[i];
      } else if i == 10 {
        assert AllFile[10] == AllFile[i];
      } else if i == 11 {
        assert AllFile[11] == AllFile[i];
      } else if i == 12 {
        assert AllFile[12] == AllFile[i];
      } else {
        assert AllFile[13] == AllFile[i];
      }
    }
    DistinctByPosition(AllFile, FileCode, FilePosition);
  }

  lemma UserCodesDistinct()
    ensures Distinct(AllUser, UserCode)
  {
    forall i | 0 <= i < |AllUser| ensures UserPosition(UserCode(AllUser[i])) == i {
      if i == 0 {
        assert AllUser[0] == AllUser[i];
      } else if i == 1 {
        assert AllUser[1] == AllUser[i];
      } else if i == 2 {
        assert AllUser[2] == AllUser[i];
      } else if i == 3 {
        assert AllUser[3] == AllUser[i];
      } else if i == 4 {
        assert AllUser[4] == AllUser[i];
      } else if i == 5 {
        assert AllUser[5] == AllUser[i];
      } else {
        assert AllUser[6] == AllUser[i];
      }
    }
    DistinctByPosition(AllUser, UserCode, UserPosition);
  }

  /** The category lists name every operation. */
  lemma Complete()
    ensures forall op: FileOperation :: op in AllFile
    ensures forall op: UserOperation :: op in AllUser
    ensures forall op: NewsOperation :: op in AllNews
    ensures forall op: ChatOperation :: op in AllChat
    ensures forall op: MiscOperation :: op in AllMisc
  {
    forall op: FileOperation ensures op in AllFile {
      match op
      case Download => assert AllFile[0] == op;
      case UploadToDropbox => assert AllFile[1] == op;
      case UploadToFolder => assert AllFile[2] == op;
      case DeleteFile => assert AllFile[3] == op;
      case RenameFile => assert AllFile[4] == op;
      case MoveFile => assert AllFile[5] == op;
      case SetFileComment => assert AllFile[6] == op;
      case CreateFolder => assert AllFile[7] == op;
      case DeleteFolder => assert AllFile[8] == op;
      case RenameFolder => assert AllFile[9] == op;
      case MoveFolder => assert AllFile[10] == op;
      case SetFolderComment => assert AllFile[11] == op;
      case ViewDropBox => assert AllFile[12] == op;
      case CreateAlias => assert AllFile[13] == op;
    }
    forall op: UserOperation ensures op in AllUser {
      match op
      case CanCreateUsers => assert AllUser[0] == op;
      case CanDeleteUsers => assert AllUser[1] == op;
      case CanReadUsers => assert AllUser[2] == op;
      case CanModifyUsers => assert AllUser[3] == op;
      case CanGetUserInfo => assert AllUser[4] == op;
      case CanDisconnectUsers => assert AllUser[5] == op;
      case CannotBeDisconnected => assert AllUser[6] == op;
    }
    forall op: NewsOperation ensures op in AllNews {
      match op
      case ReadNews => assert AllNews[0] == op;
      case PostNews => assert AllNews[1] == op;
    }
    forall op: ChatOperation ensures op in AllChat {
      match op
      case ReadChat => assert AllChat[0] == op;
      case SendChat => assert AllChat[1] == op;
    }
    forall op: MiscOperation ensures op in AllMisc {
      match op
      case CanUseAnyName => assert AllMisc[0] == op;
      case DontShowAgreement => assert AllMisc[1] == op;
    }
  }

  /** An account's permissions, one set per category. */
  datatype Account = Account(
    file: set<FileOperation>,
    user: set<UserOperation>,
    news: set<NewsOperation>,
    chat: set<ChatOperation>,
    misc: set<MiscOperation>)

  /** `Default` of each category. */
  const DefaultAccount: Account := Account(
    {Download, UploadToDropbox}, {CanGetUserInfo}, {ReadNews}, {ReadChat, SendChat}, {CanUseAnyName})

  /** `From<UserAccountPermissions> for i64`: the OR of the five category words. */
  function AccountBits(a: Account): Word
  {
    Or(Or(Or(Or(Pack(AllFile, a.file, FileCode), Pack(AllUser, a.user, UserCode)),
      Pack(AllNews, a.news, NewsCode)), Pack(AllChat, a.chat, ChatCode)), Pack(AllMisc, a.misc, MiscCode))
  }

  /** `From<i64> for UserAccountPermissions`: every category reads the same word. */
  function AccountFromBits(bits: Word): (r: Account)
    ensures forall op :: op in r.file <==> bits[FileCode(op)]
    ensures forall op :: op in r.user <==> bits[UserCode(op)]
    ensures forall op :: op in r.news <==> bits[NewsCode(op)]
    ensures forall op :: op in r.chat <==> bits[ChatCode(op)]
    ensures forall op :: op in r.misc <==> bits[MiscCode(op)]
  {
    Complete();
    Account(Unpack(AllFile, bits, FileCode), Unpack(AllUser, bits, UserCode), Unpack(AllNews, bits, NewsCode),
      Unpack(AllChat, bits, ChatCode), Unpack(AllMisc, bits, MiscCode))
  }

  /** `Permissions::can`, for the file category: the bit of the operation is set. */
  predicate CanFile(bits: Word, op: FileOperation)
  {
    op in AccountFromBits(bits).file
  }

  /** Which category owns bit c, if any. */
  lemma AccountBit(a: Account, c: Code)
    ensures AccountBits(a)[c] <==>
      (exists op :: op in a.file && FileCode(op) == c) || (exists op :: op in a.user && UserCode(op) == c)
      || (exists op :: op in a.news && NewsCode(op) == c) || (exists op :: op in a.chat && ChatCode(op) == c)
      || (exists op :: op in a.misc && MiscCode(op) == c)
  {
    Complete();
    PackHas(AllFile, a.file, FileCode, c);
    PackHas(AllUser, a.user, UserCode, c);
    PackHas(AllNews, a.news, NewsCode, c);
    PackHas(AllChat, a.chat, ChatCode, c);
    PackHas(AllMisc, a.misc, MiscCode, c);
  }

  /** `PackBit` stated over the set rather than the list. */
  lemma PackHas<T(!new)>(ops: seq<T>, s: set<T>, code: T -> Code, c: Code)
    requires forall op :: op in s ==> op in ops
    ensures Pack(ops, s, code)[c] <==> exists op :: op in s && code(op) == c
  {
    PackBit(ops, s, code, c);
    if exists op :: op in s && code(op) == c {
      var op :| op in s && code(op) == c;
      var i :| 0 <= i < |ops| && ops[i] == op;
    }
  }

  lemma FileBit(a: Account, op: FileOperation)
    ensures AccountBits(a)[FileCode(op)] <==> op in a.file
  {
    AccountBit(a, FileCode(op));
  }

  lemma UserBit(a: Account, op: UserOperation)
    ensures AccountBits(a)[UserCode(op)] <==> op in a.user
  {
    AccountBit(a, UserCode(op));
  }

  lemma NewsBit(a: Account, op: NewsOperation)
    ensures AccountBits(a)[NewsCode(op)] <==> op in a.news
  {
    AccountBit(a, NewsCode(op));
  }

  lemma ChatBit(a: Account, op: ChatOperation)
    ensures AccountBits(a)[ChatCode(op)] <==> op in a.chat
  {
    AccountBit(a, ChatCode(op));
  }

  lemma MiscBit(a: Account, op: MiscOperation)
    ensures AccountBits(a)[MiscCode(op)] <==> op in a.misc
  {
    AccountBit(a, MiscCode(op));
  }

  /** The account word decodes back to the same five sets, because the categories' numbers are disjoint. */
  lemma AccountRoundTrip(a: Account)
    ensures AccountFromBits(AccountBits(a)) == a
  {
    var r := AccountFromBits(AccountBits(a));
    forall op: FileOperation ensures op in r.file <==> op in a.file { FileBit(a, op); }
    forall op: UserOperation ensures op in r.user <==> op in a.user { UserBit(a, op); }
    forall op: NewsOperation ensures op in r.news <==> op in a.news { NewsBit(a, op); }
    forall op: ChatOperation ensures op in r.chat <==> op in a.chat { ChatBit(a, op); }
    forall op: MiscOperation ensures op in r.misc <==> op in a.misc { MiscBit(a, op); }
  }

  // The word as an integer and as the eight bytes of the user-access field.

  function Pow2(n: nat): (r: nat)
    ensures r >= 1
  {
    if n == 0 then 1 else 2 * Pow2(n - 1)
  }

  /** The unsigned value of bits written most significant first. */
  function Value(bs: seq<bool>): (r: nat)
    ensures r < Pow2(|bs|)
  {
    if |bs| == 0 then 0 else 2 * Value(bs[..|bs| - 1]) + (if bs[|bs| - 1] then 1 else 0)
  }

  /** The low n bits of x, most significant first. */
  function BitsOf(x: nat, n: nat): (r: seq<bool>)
    ensures |r| == n
  {
    if n == 0 then [] else BitsOf(x / 2, n - 1) + [x % 2 == 1]
  }

  lemma {:induction false} BitsOfValue(bs: seq<bool>)
    ensures BitsOf(Value(bs), |bs|) == bs
  {
    if |bs| > 0 {
      var init := bs[..|bs| - 1];
      var v := Value(bs);
      assert v / 2 == Value(init);
      BitsOfValue(init);
      assert bs == init + [bs[|bs| - 1]];
    }
  }

  lemma {:induction false} ValueBitsOf(x: nat, n: nat)
    requires x < Pow2(n)
    ensures Value(BitsOf(x, n)) == x
  {
    if n > 0 {
      var r := BitsOf(x, n);
      assert r[..n - 1] == BitsOf(x / 2, n - 1);
      ValueBitsOf(x / 2, n - 1);
    }
  }

  /** Bits with only entry c set are worth `1 << (n - 1 - c)`. */
  lemma {:induction false} SingleBitValue(bs: seq<bool>, c: nat)
    requires c < |bs| && forall i :: 0 <= i < |bs| ==> (bs[i] <==> i == c)
    ensures Value(bs) == Pow2(|bs| - 1 - c)
  {
    var init := bs[..|bs| - 1];
    if c == |bs| - 1 {
      NoBitsValue(init);
    } else {
      SingleBitValue(init, c);
    }
  }

  lemma {:induction false} NoBitsValue(bs: seq<bool>)
    requires forall i :: 0 <= i < |bs| ==> !bs[i]
    ensures Value(bs) == 0
  {
    if |bs| > 0 {
      NoBitsValue(bs[..|bs| - 1]);
    }
  }

  /** Operation number c contributes `1 << (63 - c)` to the word's value. */
  lemma FlagValue(c: Code)
    ensures Value(Flag(c)) == Pow2(63 - c)
  {
    SingleBitValue(Flag(c), c);
  }

  lemma {:induction false} Pow2Bytes(n: nat)
    ensures Pow2(8 * n) == Pow256(n)
  {
    if n > 0 {
      Pow2Bytes(n - 1);
      var m := 8 * (n - 1);
      assert Pow2(m + 8) == 256 * Pow2(m) by {
        assert Pow2(m + 2) == 4 * Pow2(m);
        assert Pow2(m + 4) == 4 * Pow2(m + 2);
        assert Pow2(m + 6) == 4 * Pow2(m + 4);
        assert Pow2(m + 8) == 4 * Pow2(m + 6);
      }
    }
  }

  /** The user-access field: the word's eight big-endian bytes (the `i64` of the same bits). */
  function AccessBytes(w: Word): (r: Bytes)
    ensures |r| == 8
  {
    Pow2Bytes(8);
    BeEncode(Value(w), 8)
  }

  /** Reading the user-access field back into a word. */
  function AccessWord(s: Bytes): (r: Word)
    requires |s| == 8
  {
    BitsOf(BeDecode(s), 64)
  }

  /** Bytes to word and back, both ways; as an `i64` the bytes read as the word's signed value. */
  lemma AccessRoundTrip(w: Word, s: Bytes)
    requires |s| == 8
    ensures AccessWord(AccessBytes(w)) == w
    ensures AccessBytes(AccessWord(s)) == s
    ensures DecodeInt(AccessBytes(w)) == ToSigned(Value(w), 8)
  {
    Pow2Bytes(8);
    BeDecodeEncode(Value(w), 8);
    BitsOfValue(w);
    ValueBitsOf(BeDecode(s), 64);
    BeEncodeDecode(s);
  }

  /** An account survives the trip through the user-access field. */
  lemma AccountAccessRoundTrip(a: Account)
    ensures AccountFromBits(AccessWord(AccessBytes(AccountBits(a)))) == a
  {
    AccessRoundTrip(AccountBits(a), AccessBytes(AccountBits(a)));
    AccountRoundTrip(a);
  }

  // Serialised form: one boolean entry per operation.

  /** `FlagSet::serialize`: every operation of the category, in order, with whether it is in the set. */
  function Serialize<T(==,!new)>(ops: seq<T>, s: set<T>): (r: seq<(T, bool)>)
    ensures |r| == |ops| && forall i :: 0 <= i < |ops| ==> r[i] == (ops[i], ops[i] in s)
  {
    if |ops| == 0 then [] else [(ops[0], ops[0] in s)] + Serialize(ops[1..], s)
  }

  /** The visitor of `FlagSet::deserialize`: the keys marked true. */
  function Deserialize<T(==,!new)>(entries: seq<(T, bool)>): (r: set<T>)
    ensures forall k :: k in r <==> exists i :: 0 <= i < |entries| && entries[i] == (k, true)
  {
    if |entries| == 0 then {}
    else
      var rest := Deserialize(entries[1..]);
      assert forall i :: 1 <= i < |entries| ==> entries[i] == entries[1..][i - 1];
      if entries[0].1 then {entries[0].0} + rest else rest
  }

  /** Serialising then deserialising a set of the category's operations gives it back. */
  lemma SerializeRoundTrip<T(!new)>(ops: seq<T>, s: set<T>)
    requires forall op :: op in s ==> op in ops
    ensures Deserialize(Serialize(ops, s)) == s
  {
    var e := Serialize(ops, s);
    forall k ensures k in Deserialize(e) <==> k in s {
      if k in s {
        var i :| 0 <= i < |ops| && ops[i] == k;
        assert e[i] == (k, true);
      }
    }
  }
}
