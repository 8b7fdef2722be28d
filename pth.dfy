/**
 * The ancestor walk of gitconf (src/pth.rs). `PathIter` starts at a directory
 * and yields it and then each of its ancestors, popping one component per
 * step. The root `/` is never yielded: `/etc` is yielded in its place, and a
 * yield equal to the previous one is suppressed, so a walk from under `/etc`
 * yields `/etc` once.
 *
 * An absolute path is the sequence of its components; the root `/` is the
 * empty sequence.
 */
module Pth {
  import opened Wrappers

  type Path = seq<string>

  const Root: Path := []
  const Etc: Path := ["etc"]

  /** `buf.pop()` on a path that has a parent. */
  function Parent(p: Path): Path
    requires p != Root
  {
    p[..|p| - 1]
  }

  /** What `next` reports for the directory `buf`: the root reads as `/etc`. */
  function Shown(buf: Path): Path
  {
    if buf == Root then Etc else buf
  }

  /** Everything `next` still yields from the state (`buf`, `end`, `last`), in order. */
  function Yields(buf: Path, end: bool, last: Path): seq<Path>
    decreases if end then 0 else |buf| + 1
  {
    if end then []
    else
      (if Shown(buf) == last then [] else [Shown(buf)])
      + (if buf == Root then [] else Yields(Parent(buf), false, Shown(buf)))
  }

  /** The walk from `p`: `PathIter::new(p)` collected. */
  function Ancestors(p: Path): seq<Path>
  {
    Yields(p, false, Root)
  }

  class PathIter {
    var buf: Path
    var end: bool
    var last: Path

    /** The yields still to come. */
    function Rest(): seq<Path>
      reads this
    {
      Yields(buf, end, last)
    }

    /** `PathIter::new(path)`. */
    constructor New(path: Path)
      ensures Rest() == Ancestors(path)
      ensures buf == path && !end && last == Root
    {
      buf := path;
      end := false;
      last := Root;
    }

    /**
     * `Iterator::next`: the first of the yields still to come, if any. Once
     * `end` is set every later call returns `None`.
     */
    method Next() returns (r: Option<Path>)
      modifies this
      ensures old(Rest()) == [] ==> r == None && Rest() == []
      ensures old(Rest()) != [] ==> r == Some(old(Rest())[0]) && Rest() == old(Rest())[1..]
      ensures r == None ==> end
      ensures old(end) ==> r == None && end
    {
      while true
        invariant Rest() == old(Rest())
        invariant old(end) ==> end
        decreases if end then 0 else |buf| + 1
      {
        if end {
          return None;
        }
        var ret := if buf == Root then Etc else buf;
        var popped := buf != Root;
        if popped {
          buf := buf[..|buf| - 1];
        }
        end := !popped;
        if ret == last {
          continue;
        }
        last := ret;
        return Some(ret);
      }
    }
  }

  /** `PathIter::new(p).collect::<Vec<PathBuf>>()`. */
  method Collect(p: Path) returns (ps: seq<Path>)
    ensures ps == Ancestors(p)
  {
    var it := new PathIter.New(p);
    ps := [];
    while true
      invariant ps + it.Rest() == Ancestors(p)
      decreases |it.Rest()|
    {
      ghost var rest := it.Rest();
      var r := it.Next();
      if r.None? {
        assert rest == [];
        assert ps + rest == ps;
        return;
      }
      ghost var later := it.Rest();
      assert rest == [r.value] + later;
      assert ps + ([r.value] + later) == (ps + [r.value]) + later;
      ps := ps + [r.value];
    }
  }

  // ------------------------------------------------------------ the walk itself

  /** `p`, its parent, and so on, down to the one-component ancestor. */
  function Chain(p: Path): (r: seq<Path>)
    ensures |r| == |p|
  {
    if p == Root then [] else [p] + Chain(Parent(p))
  }

  /** The chain lists the prefixes of `p`, longest first. */
  lemma {:induction false} ChainAt(p: Path, i: nat)
    requires i < |p|
    ensures Chain(p)[i] == p[..|p| - i]
    decreases |p|
  {
    if i > 0 {
      ChainAt(Parent(p), i - 1);
      assert Parent(p)[..|Parent(p)| - (i - 1)] == p[..|p| - i];
    }
  }

  /** The walk from `buf` when the previous yield was a child of `buf` (or the walk has just started). */
  lemma {:induction false} YieldsChain(buf: Path, last: Path)
    requires last == Root || (last != Root && Parent(last) == buf)
    ensures Yields(buf, false, last)
         == Chain(buf) + (if (buf != Root && buf[0] == "etc") || (buf == Root && last == Etc) then [] else [Etc])
    decreases |buf|
  {
    if buf != Root {
      assert Shown(buf) != last by {
        if last != Root {
          assert |last| == |buf| + 1;
        }
      }
      YieldsChain(Parent(buf), buf);
      if |buf| == 1 {
        assert buf == Etc <==> buf[0] == "etc";
      } else {
        assert Parent(buf)[0] == buf[0];
      }
    }
  }

  /**
   * The walk from `p` in closed form: `p` and each ancestor but the root,
   * longest first, then `/etc` in place of the root unless `/etc` was just
   * yielded. So `/a/b/c` gives `/a/b/c`, `/a/b`, `/a`, `/etc`.
   */
  lemma AncestorsClosedForm(p: Path)
    ensures Ancestors(p) == Chain(p) + (if p != Root && p[0] == "etc" then [] else [Etc])
  {
    YieldsChain(p, Root);
  }

  /** The first yield is the start itself, or `/etc` for the root; the walk always ends at `/etc`. */
  lemma AncestorsEnds(p: Path)
    ensures |Ancestors(p)| > 0
    ensures Ancestors(p)[0] == Shown(p)
    ensures Ancestors(p)[|Ancestors(p)| - 1] == Etc
  {
    AncestorsClosedForm(p);
    if p != Root {
      ChainAt(p, 0);
      if p[0] == "etc" {
        ChainAt(p, |p| - 1);
        assert p[..1] == Etc;
      }
    }
  }

  /**
   * The root is never yielded; each yield but `/etc` is followed by its
   * parent (or by `/etc`); no two consecutive yields are equal; there are at
   * most one more yields than components.
   */
  lemma AncestorsShape(p: Path)
    ensures forall q <- Ancestors(p) :: q != Root
    ensures forall i :: 0 <= i < |Ancestors(p)| - 1 ==>
      var q := Ancestors(p)[i];
      q != Root && Ancestors(p)[i + 1] == Shown(Parent(q))
    ensures forall i :: 0 <= i < |Ancestors(p)| - 1 ==> Ancestors(p)[i] != Ancestors(p)[i + 1]
    ensures |Ancestors(p)| <= |p| + 1
  {
    AncestorsClosedForm(p);
    var a := Ancestors(p);
    var tail := if p != Root && p[0] == "etc" then [] else [Etc];
    forall q | q in a ensures q != Root {
      var i :| 0 <= i < |a| && a[i] == q;
      if i < |p| {
        ChainAt(p, i);
      }
    }
    forall i | 0 <= i < |a| - 1
      ensures a[i] != Root && a[i + 1] == Shown(Parent(a[i])) && a[i] != a[i + 1]
    {
      ChainAt(p, i);
      if i + 1 < |p| {
        ChainAt(p, i + 1);
        assert p[..|p| - i][..|p| - i - 1] == p[..|p| - (i + 1)];
      } else {
        assert i + 1 == |p| && tail == [Etc];
        assert a[i] == p[..1];
        assert p[..1] != Etc;
      }
    }
  }

  lemma TestAbc()
    ensures Ancestors(["a", "b", "c"]) == [["a", "b", "c"], ["a", "b"], ["a"], Etc]
  {
    var p := ["a", "b", "c"];
    assert Parent(p) == ["a", "b"] && Parent(Parent(p)) == ["a"] && Parent(Parent(Parent(p))) == Root;
    AncestorsClosedForm(p);
  }

  /** A walk from under `/etc` yields `/etc` once. */
  lemma TestEtc()
    ensures Ancestors(["etc", "x"]) == [["etc", "x"], Etc]
  {
    var p := ["etc", "x"];
    assert Parent(p) == Etc && Parent(Etc) == Root;
    AncestorsClosedForm(p);
  }

  /** From the root the only yield is `/etc`. */
  lemma TestRoot()
    ensures Ancestors(Root) == [Etc]
  {
    AncestorsClosedForm(Root);
  }
}
