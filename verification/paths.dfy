/**
  Filesystem paths as lists of components, the way the server's path arithmetic sees
  them. Building a path pushes components one at a time; pushing the root component
  throws away everything before it, which is what makes an absolute path "win" when
  paths are joined. Windows prefixes and non-UTF-8 names are not modelled.
*/
module Paths {
  import opened Wrappers

  datatype Component = RootDir | CurDir | ParentDir | Normal(name: string)

  type Path = seq<Component>

  /** `PathBuf::push` of one component: the root restarts the path, anything else is appended. */
  function Push(buf: Path, c: Component): (r: Path)
    ensures c.RootDir? ==> r == [RootDir]
    ensures !c.RootDir? ==> r == buf + [c]
  {
    if c.RootDir? then [RootDir] else buf + [c]
  }

  /** `collect::<PathBuf>()` over a component iterator: push them in order onto an empty path. */
  function Collect(cs: seq<Component>): Path
  {
    if |cs| == 0 then [] else Push(Collect(cs[..|cs| - 1]), cs[|cs| - 1])
  }

  predicate Relative(cs: seq<Component>)
  {
    forall i :: 0 <= i < |cs| ==> !cs[i].RootDir?
  }

  /** A path whose only root component, if any, comes first: what `components()` yields. */
  predicate WellFormed(p: Path)
  {
    forall i :: 0 < i < |p| ==> !p[i].RootDir?
  }

  /** Appending relative components extends the collected path by exactly those components. */
  lemma {:induction false} CollectRelative(p: seq<Component>, q: seq<Component>)
    requires Relative(q)
    ensures Collect(p + q) == Collect(p) + q
    decreases |q|
  {
    if |q| == 0 {
      assert p + q == p;
    } else {
      var q' := q[..|q| - 1];
      assert (p + q)[..|p + q| - 1] == p + q';
      CollectRelative(p, q');
    }
  }

  /** A well-formed path collects to itself. */
  lemma {:induction false} CollectWellFormed(p: Path)
    requires WellFormed(p)
    ensures Collect(p) == p
    decreases |p|
  {
    if |p| > 0 {
      if |p| == 1 {
        assert Collect(p) == Push([], p[0]);
      } else {
        var init := p[..|p| - 1];
        assert WellFormed(init);
        CollectWellFormed(init);
      }
    }
  }

  /** Once a root component appears, everything collected before it is gone. */
  lemma {:induction false} CollectFromRoot(p: seq<Component>, q: seq<Component>)
    requires |q| > 0 && q[0].RootDir? && Relative(q[1..])
    ensures Collect(p + q) == q
  {
    assert p + q == (p + [RootDir]) + q[1..];
    CollectRelative(p + [RootDir], q[1..]);
    assert (p + [RootDir])[..|p + [RootDir]| - 1] == p;
    assert Collect(p + [RootDir]) == [RootDir];
    assert [RootDir] + q[1..] == q;
  }

  /** `file_name`: the last component when it is a name. */
  function FileName(p: Path): (r: Option<string>)
    ensures r.Some? <==> |p| > 0 && p[|p| - 1].Normal?
    ensures r.Some? ==> r.value == p[|p| - 1].name
  {
    if |p| > 0 && p[|p| - 1].Normal? then Some(p[|p| - 1].name) else None
  }

  /** `parent` of a path with a file name: everything before the name. */
  function Parent(p: Path): (r: Path)
    requires FileName(p).Some?
    ensures r + [Normal(FileName(p).value)] == p
  {
    p[..|p| - 1]
  }

  /** `with_file_name`: replace the file name, or push one when there is none. */
  function WithFileName(p: Path, name: string): (r: Path)
    ensures FileName(r) == Some(name)
    ensures FileName(p).Some? ==> r == Parent(p) + [Normal(name)]
    ensures FileName(p).None? ==> r == p + [Normal(name)]
  {
    if FileName(p).Some? then Parent(p) + [Normal(name)] else p + [Normal(name)]
  }

  const AppleDoublePrefix: string := "._"

  /**
    `get_appledouble`: the sidecar path `._name` next to the file. A path without a file
    name makes the source panic, so it is excluded here.
  */
  function AppleDoublePath(p: Path): (r: Path)
    requires FileName(p).Some?
    ensures |r| == |p| && r[..|p| - 1] == p[..|p| - 1]
    ensures FileName(r) == Some(AppleDoublePrefix + FileName(p).value)
  {
    WithFileName(p, AppleDoublePrefix + FileName(p).value)
  }

  /** The other spelling used when reading metadata, `parent().join("._" + name)`, gives the same path. */
  lemma AppleDoubleByJoin(p: Path)
    requires FileName(p).Some?
    ensures Push(Parent(p), Normal(AppleDoublePrefix + FileName(p).value)) == AppleDoublePath(p)
  {
  }
}
