/**
  The interactive account editor's pure rules: which usernames and nicknames it accepts,
  and how a multi-selection of permission checkboxes becomes a permission set. The
  terminal prompts themselves are not modelled; the user's answers are parameters.
*/
module UserEditor {

  /** A character of the username pattern `[a-z0-9_-]`. */
  predicate UsernameChar(c: char)
  {
    'a' <= c <= 'z' || '0' <= c <= '9' || c == '_' || c == '-'
  }

  /** The pattern `^[a-z0-9_-]{1,32}$`: 1 to 32 characters, each from the class. */
  predicate ValidUsername(s: string)
  {
    1 <= |s| <= 32 && forall i :: 0 <= i < |s| ==> UsernameChar(s[i])
  }

  /** The username validator, matching the pattern in one left-to-right scan. */
  method MatchUsername(s: string) returns (ok: bool)
    ensures ok <==> ValidUsername(s)
  {
    if |s| == 0 || |s| > 32 {
      return false;
    }
    var i := 0;
    while i < |s|
      invariant 0 <= i <= |s|
      invariant forall j :: 0 <= j < i ==> UsernameChar(s[j])
    {
      if !UsernameChar(s[i]) {
        return false;
      }
      i := i + 1;
    }
    return true;
  }

  /** The number of bytes a character takes in UTF-8. */
  function Utf8Width(c: char): (r: nat)
    ensures 1 <= r <= 4
    ensures r == 1 <==> (c as int) < 0x80
  {
    if (c as int) < 0x80 then 1
    else if (c as int) < 0x800 then 2
    else if (c as int) < 0x1_0000 then 3
    else 4
  }

  /** `s.as_bytes().len()`. */
  function Utf8Length(s: string): (r: nat)
    ensures |s| <= r <= 4 * |s|
  {
    if |s| == 0 then 0 else Utf8Length(s[..|s| - 1]) + Utf8Width(s[|s| - 1])
  }

  /** `byte_length(s, min, max)`: the UTF-8 length lies in [min, max], both ends included. */
  predicate ByteLength(s: string, min: nat, max: nat)
  {
    min <= Utf8Length(s) <= max
  }

  /** The nickname validator: 1 to 32 bytes of UTF-8. */
  predicate ValidNickname(s: string)
  {
    ByteLength(s, 1, 32)
  }

  /** A plain ASCII string is as many bytes as characters. */
  lemma {:induction false} AsciiLength(s: string)
    requires forall i :: 0 <= i < |s| ==> (s[i] as int) < 0x80
    ensures Utf8Length(s) == |s|
  {
    if |s| > 0 {
      AsciiLength(s[..|s| - 1]);
    }
  }

  /** Every valid username is also a valid nickname: its characters are ASCII. */
  lemma UsernameIsNickname(s: string)
    requires ValidUsername(s)
    ensures ValidNickname(s)
  {
    AsciiLength(s);
  }

  /**
    The nickname limit counts bytes, not characters: any 1 to 8 characters fit, a valid
    nickname never has more than 32 characters, and 17 two-byte characters do not fit.
  */
  lemma NicknameBounds(s: string)
    ensures 1 <= |s| <= 8 ==> ValidNickname(s)
    ensures ValidNickname(s) ==> 1 <= |s| <= 32
    ensures |s| == 17 && (forall i :: 0 <= i < |s| ==> s[i] == 'é') ==> !ValidNickname(s)
  {
    if |s| == 17 && forall i :: 0 <= i < |s| ==> s[i] == 'é' {
      TwoByteLength(s);
    }
  }

  lemma {:induction false} TwoByteLength(s: string)
    requires forall i :: 0 <= i < |s| ==> s[i] == 'é'
    ensures Utf8Length(s) == 2 * |s|
  {
    if |s| > 0 {
      TwoByteLength(s[..|s| - 1]);
    }
  }

  // Permission checkboxes.

  /** The checkbox list shown: every operation, ticked when the current set allows it. */
  function Checkboxes<T(==)>(ops: seq<T>, current: set<T>): (r: seq<(T, bool)>)
    ensures |r| == |ops| && forall i :: 0 <= i < |ops| ==> r[i] == (ops[i], ops[i] in current)
  {
    seq(|ops|, i requires 0 <= i < |ops| => (ops[i], ops[i] in current))
  }

  /**
    `input_permissions`: the new set holds exactly the operations at the selected indices;
    the previous contents are discarded.
  */
  function Selected<T(!new)>(ops: seq<T>, selection: seq<nat>): (r: set<T>)
    requires forall k :: 0 <= k < |selection| ==> selection[k] < |ops|
    ensures forall op :: op in r <==> exists k :: 0 <= k < |selection| && ops[selection[k]] == op
  {
    if |selection| == 0 then {}
    else
      var rest := Selected(ops, selection[1..]);
      assert forall k :: 1 <= k < |selection| ==> selection[k] == selection[1..][k - 1];
      {ops[selection[0]]} + rest
  }

  /** The indices a user accepting the defaults submits: those of the ticked boxes, in order. */
  function Ticked<T>(boxes: seq<(T, bool)>): (r: seq<nat>)
    ensures forall k :: 0 <= k < |r| ==> r[k] < |boxes| && boxes[r[k]].1
    ensures forall i :: 0 <= i < |boxes| && boxes[i].1 ==> i in r
  {
    if |boxes| == 0 then []
    else
      var last := |boxes| - 1;
      var init := Ticked(boxes[..last]);
      if boxes[last].1 then init + [last] else init
  }

  /** Submitting the pre-ticked boxes unchanged keeps the permission set as it was. */
  lemma KeepDefaults<T(!new)>(ops: seq<T>, current: set<T>)
    requires forall op :: op in current ==> op in ops
    ensures Selected(ops, Ticked(Checkboxes(ops, current))) == current
  {
    var boxes := Checkboxes(ops, current);
    var sel := Ticked(boxes);
    forall op ensures op in Selected(ops, sel) <==> op in current {
      if op in current {
        var i :| 0 <= i < |ops| && ops[i] == op;
        assert i in sel;
        var k :| 0 <= k < |sel| && sel[k] == i;
      }
    }
  }
}
