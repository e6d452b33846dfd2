/** Absolute, normalised file paths as lists of segments, and the operations of Node's
    `path` module on them.  The root directory is the empty list. */
module Paths {
  import opened JsText

  type Path = seq<string>

  /** A segment that names something. */
  predicate IsName(segment: string) {
    segment != "" && segment != "." && segment != ".."
  }

  predicate Normalised(p: Path) {
    forall segment :: segment in p ==> IsName(segment)
  }

  /** `path.dirname`; the root is its own parent. */
  function Dirname(p: Path): Path {
    if p == [] then [] else p[..|p| - 1]
  }

  /** Applies the segments of a relative path to a directory. */
  function Walk(pos: Path, segments: seq<string>): Path
    decreases |segments|
  {
    if segments == [] then pos
    else if segments[0] == "" || segments[0] == "." then Walk(pos, segments[1..])
    else if segments[0] == ".." then Walk(Dirname(pos), segments[1..])
    else Walk(pos + [segments[0]], segments[1..])
  }

  /** `path.resolve(dir, relative)` */
  function Resolve(dir: Path, relative: string): Path {
    Walk(dir, Split(relative, '/'))
  }

  function CommonLength(a: Path, b: Path): (n: nat)
    ensures n <= |a| && n <= |b| && a[..n] == b[..n]
    ensures n < |a| && n < |b| ==> a[n] != b[n]
  {
    if a == [] || b == [] || a[0] != b[0] then 0
    else
      var n := CommonLength(a[1..], b[1..]);
      assert a[..n + 1] == [a[0]] + a[1..][..n];
      assert b[..n + 1] == [b[0]] + b[1..][..n];
      n + 1
  }

  function Parents(n: nat): seq<string> {
    if n == 0 then [] else [".."] + Parents(n - 1)
  }

  /** `path.relative`, as a list of segments. */
  function Relative(from: Path, to: Path): seq<string> {
    var n := CommonLength(from, to);
    Parents(|from| - n) + to[n..]
  }

  // ---------------------------------------------------------------- lemmas

  lemma CommonLengthUnique(a: Path, b: Path, n: nat)
    requires n <= |a| && n <= |b| && a[..n] == b[..n]
    requires n < |a| && n < |b| ==> a[n] != b[n]
    ensures CommonLength(a, b) == n
  {
    var m := CommonLength(a, b);
    forall k | 0 <= k < n ensures a[k] == b[k] {
      assert a[k] == a[..n][k] && b[k] == b[..n][k];
    }
    forall k | 0 <= k < m ensures a[k] == b[k] {
      assert a[k] == a[..m][k] && b[k] == b[..m][k];
    }
  }

  lemma CommonLengthPrefix(root: Path, a: Path, b: Path)
    ensures CommonLength(root + a, root + b) == |root| + CommonLength(a, b)
  {
    var n := CommonLength(a, b);
    assert (root + a)[..|root| + n] == root + a[..n];
    assert (root + b)[..|root| + n] == root + b[..n];
    CommonLengthUnique(root + a, root + b, |root| + n);
  }

  /** Moving two files together keeps the position of one relative to the other. */
  lemma RelativeMoves(root: Path, other: Path, a: Path, b: Path)
    ensures Relative(root + a, root + b) == Relative(other + a, other + b)
  {
    CommonLengthPrefix(root, a, b);
    CommonLengthPrefix(other, a, b);
    var n := CommonLength(a, b);
    assert (root + b)[|root| + n..] == b[n..] == (other + b)[|other| + n..];
  }

  lemma {:induction false} WalkNames(pos: Path, names: seq<string>)
    requires Normalised(names)
    ensures Walk(pos, names) == pos + names
    decreases |names|
  {
    if names != [] {
      assert IsName(names[0]);
      WalkNames(pos + [names[0]], names[1..]);
      assert pos + [names[0]] + names[1..] == pos + names;
    }
  }

  lemma {:induction false} WalkParents(pos: Path, n: nat, names: seq<string>)
    requires n <= |pos|
    ensures Walk(pos, Parents(n) + names) == Walk(pos[..|pos| - n], names)
  {
    if n == 0 {
      assert Parents(n) + names == names && pos[..|pos|] == pos;
    } else {
      var up, all := pos[..|pos| - 1], Parents(n) + names;
      assert Parents(n)[1..] == Parents(n - 1);
      assert all[0] == ".." && all[1..] == Parents(n - 1) + names;
      assert up[..|up| - (n - 1)] == pos[..|pos| - n];
      WalkParents(up, n - 1, names);
    }
  }

  lemma NamesOf(p: Path, n: nat)
    requires Normalised(p) && n <= |p|
    ensures Normalised(p[n..])
  {
  }

  /** Walking the relative path from one directory to a target ends at the target. */
  lemma RelativeLeadsBack(from: Path, to: Path)
    requires Normalised(to)
    ensures Walk(from, Relative(from, to)) == to
  {
    var n := CommonLength(from, to);
    var names := to[n..];
    assert from[..|from| - (|from| - n)] == to[..n];
    WalkParents(from, |from| - n, names);
    NamesOf(to, n);
    WalkNames(to[..n], names);
    assert to[..n] + names == to;
  }

  // ---------------------------------------------------------------- specifiers

  /** Segments that can stand in a path text. */
  predicate Segments(names: seq<string>) {
    Normalised(names) && forall name :: name in names ==> '/' !in name
  }

  lemma SplitSegments(ups: seq<string>, names: seq<string>)
    requires Segments(names) && (forall up :: up in ups ==> '/' !in up) && ups != []
    ensures Split(Join(ups + names, "/"), '/') == ups + names
  {
    assert "/" == ['/'];
    SplitJoin(ups + names, '/');
  }

  /** `./a/b` leads down from the directory. */
  lemma ResolveDown(dir: Path, names: seq<string>)
    requires Segments(names)
    ensures Resolve(dir, Join(["."] + names, "/")) == dir + names
  {
    SplitSegments(["."], names);
    assert (["."] + names)[1..] == names;
    WalkNames(dir, names);
  }

  lemma {:induction false} ParentsAreDots(n: nat)
    ensures |Parents(n)| == n && forall up :: up in Parents(n) ==> up == ".."
  {
    if n > 0 {
      ParentsAreDots(n - 1);
    }
  }

  /** `../../a/b` leads up first. */
  lemma ResolveUp(dir: Path, n: nat, names: seq<string>)
    requires Segments(names) && 0 < n <= |dir|
    ensures Resolve(dir, Join(Parents(n) + names, "/")) == dir[..|dir| - n] + names
  {
    ParentsAreDots(n);
    SplitSegments(Parents(n), names);
    WalkParents(dir, n, names);
    WalkNames(dir[..|dir| - n], names);
  }
}
