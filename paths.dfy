/** Slash-separated paths in the cleaned form Go's `path.Join` produces, as
    sequences of path elements, for upward root discovery. */
module Paths {

  /** An absolute location: the elements below "/". */
  type Path = seq<string>

  /** A cleaned path. An absolute one is its elements below "/"; a relative one
      is `ups` leading ".." elements followed by `segs` (so "." has neither). */
  datatype Dir = Dir(absolute: bool, ups: nat, segs: seq<string>)

  function Min(a: nat, b: nat): nat {
    if a < b then a else b
  }

  /** path.Join(d, ".."): drop the last element; ".." of "/" is "/"; a relative
      path without elements gains a leading "..". */
  function Parent(d: Dir): Dir {
    if |d.segs| > 0 then d.(segs := d.segs[..|d.segs| - 1])
    else if d.absolute then d
    else d.(ups := d.ups + 1)
  }

  /** `d` after `i` steps of Parent. */
  function Ancestor(d: Dir, i: nat): Dir
    decreases i
  {
    if i == 0 then d else Parent(Ancestor(d, i - 1))
  }

  lemma {:induction false} AncestorShift(d: Dir, i: nat)
    ensures Ancestor(Parent(d), i) == Ancestor(d, i + 1)
    decreases i
  {
    if i > 0 {
      AncestorShift(d, i - 1);
    }
  }

  /** The absolute location that `d` names from the working directory `cwd`
      (".." of "/" is "/"). */
  function Resolve(cwd: Path, d: Dir): Path {
    if d.absolute then d.segs else cwd[..|cwd| - Min(d.ups, |cwd|)] + d.segs
  }

  /** The location `p` after `i` steps up: its first |p| - i elements. */
  function Up(p: Path, i: nat): Path {
    p[..|p| - Min(i, |p|)]
  }

  /** Stepping up a path and then resolving it is resolving it and then
      stepping up: candidate `i` of an upward search names the `i`-th
      ancestor of where the search started. */
  lemma {:induction false} ResolveAncestor(cwd: Path, d: Dir, i: nat)
    ensures Resolve(cwd, Ancestor(d, i)) == Up(Resolve(cwd, d), i)
    ensures Ancestor(d, i).absolute == d.absolute
    decreases i
  {
    if i > 0 {
      ResolveAncestor(cwd, d, i - 1);
      var a := Ancestor(d, i - 1);
      assert Ancestor(d, i) == Parent(a);
      ParentResolves(cwd, a);
      UpParent(Resolve(cwd, d), i - 1);
    }
  }

  /** One step of Parent is one step up of the location. */
  lemma ParentResolves(cwd: Path, a: Dir)
    ensures Resolve(cwd, Parent(a)) == Up(Resolve(cwd, a), 1)
    ensures Parent(a).absolute == a.absolute
  {
    if |a.segs| > 0 {
      var base := if a.absolute then [] else cwd[..|cwd| - Min(a.ups, |cwd|)];
      DropLast(base, a.segs);
    } else if !a.absolute {
      UpParent(cwd, a.ups);
    }
  }

  lemma DropLast(b: Path, s: Path)
    requires |s| > 0
    ensures (b + s)[..|b + s| - 1] == b + s[..|s| - 1]
  {
  }

  /** Climbing `n + 1` levels from `cwd` is climbing `n` and then one more. */
  lemma UpParent(cwd: Path, n: nat)
    ensures Up(Up(cwd, n), 1) == Up(cwd, n + 1)
  {
    if n < |cwd| {
      assert Up(cwd, n) == cwd[..|cwd| - n];
      assert Up(cwd, n + 1) == cwd[..|cwd| - n - 1];
    } else {
      assert Up(cwd, n) == [];
    }
  }

  /** Number of leading elements `a` and `b` share. */
  function CommonPrefix(a: Path, b: Path): (k: nat)
    ensures k <= |a| && k <= |b| && a[..k] == b[..k]
    ensures k < |a| && k < |b| ==> a[k] != b[k]
    decreases |a|
  {
    if |a| == 0 || |b| == 0 || a[0] != b[0] then 0
    else
      var k := CommonPrefix(a[1..], b[1..]);
      assert a[..k + 1] == [a[0]] + a[1..][..k];
      assert b[..k + 1] == [b[0]] + b[1..][..k];
      k + 1
  }

  /** filepath.Rel(cwd, target) for an absolute target: up from `cwd` to the
      longest common ancestor, then down to `target`. */
  function RelTo(cwd: Path, target: Path): Dir {
    var k := CommonPrefix(cwd, target);
    Dir(false, |cwd| - k, target[k..])
  }

  /** The relative path RelTo computes leads from `cwd` back to `target`. */
  lemma RelToResolves(cwd: Path, target: Path)
    ensures Resolve(cwd, RelTo(cwd, target)) == target
    ensures !RelTo(cwd, target).absolute
  {
    var k := CommonPrefix(cwd, target);
    assert cwd[..k] + target[k..] == target[..k] + target[k..] == target;
  }
}
