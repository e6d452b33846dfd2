/** `resolveCommonAncestor` (scripts/load-channel-config-surface.ts): climbing from the
    first path until no other path lies outside. */
module CommonAncestor {
  import opened Wrappers
  import opened Paths

  /** `path.relative(from, to).startsWith("../")`; this is false when the relative path is
      exactly `..`. */
  predicate LeadsUp(from: Path, to: Path) {
    |Relative(from, to)| > 1 && Relative(from, to)[0] == ".."
  }

  /** Where climbing for one path stops. */
  function Meet(ancestor: Path, candidate: Path): Path {
    var n := CommonLength(ancestor, candidate);
    if n == |candidate| < |ancestor| then ancestor[..n + 1] else ancestor[..n]
  }

  function MeetAll(ancestor: Path, rest: seq<Path>): Path {
    if rest == [] then ancestor else Meet(MeetAll(ancestor, rest[..|rest| - 1]), rest[|rest| - 1])
  }

  /** The deepest directory common to all the paths. */
  function Deepest(first: Path, rest: seq<Path>): Path {
    if rest == [] then first
    else
      var d := Deepest(first, rest[..|rest| - 1]);
      d[..CommonLength(d, rest[|rest| - 1])]
  }

  lemma {:induction false} ParentsShape(n: nat)
    ensures |Parents(n)| == n && (n > 0 ==> Parents(n)[0] == "..")
  {
    if n > 0 {
      ParentsShape(n - 1);
    }
  }

  lemma LeadsUpShape(from: Path, to: Path)
    requires Normalised(to)
    ensures var n := CommonLength(from, to);
            LeadsUp(from, to) <==> |from| > n && |from| - n + |to| - n > 1
  {
    var n := CommonLength(from, to);
    var up, down := Parents(|from| - n), to[n..];
    ParentsShape(|from| - n);
    assert |Relative(from, to)| == |up| + |down|;
    if |from| > n {
      assert (up + down)[0] == up[0];
    } else if |to| > n {
      assert up == [] && (up + down)[0] == to[n];
      assert to[n] in to;
    }
  }

  /** One turn of the inner loop stays on the way to the meeting point. */
  lemma ClimbOnce(ancestor: Path, candidate: Path)
    requires Normalised(candidate)
    ensures LeadsUp(ancestor, candidate) ==> ancestor != [] && Meet(Dirname(ancestor), candidate) == Meet(ancestor, candidate)
    ensures !LeadsUp(ancestor, candidate) ==> Meet(ancestor, candidate) == ancestor
  {
    LeadsUpShape(ancestor, candidate);
    var n := CommonLength(ancestor, candidate);
    if LeadsUp(ancestor, candidate) {
      var up := Dirname(ancestor);
      assert up[..n] == ancestor[..n];
      CommonLengthUnique(up, candidate, n);
      if n == |candidate| {
        assert up[..n + 1] == ancestor[..n + 1];
      }
    } else {
      assert n < |ancestor| ==> n + 1 == |ancestor|;
      assert ancestor[..|ancestor|] == ancestor;
    }
  }

  /** `None` is the error for an empty list. */
  method ResolveCommonAncestor(paths: seq<Path>) returns (r: Option<Path>)
    requires forall p :: p in paths ==> Normalised(p)
    ensures r == if paths == [] then None else Some(MeetAll(paths[0], paths[1..]))
  {
    if paths == [] {
      return None;
    }
    var rest := paths[1..];
    var ancestor := paths[0];
    for i := 0 to |rest|
      invariant ancestor == MeetAll(paths[0], rest[..i])
    {
      var candidate := rest[i];
      ghost var start := ancestor;
      assert candidate in paths;
      ClimbOnce(ancestor, candidate);
      while LeadsUp(ancestor, candidate)
        invariant Meet(ancestor, candidate) == Meet(start, candidate)
        invariant LeadsUp(ancestor, candidate) ==> ancestor != []
        invariant !LeadsUp(ancestor, candidate) ==> Meet(ancestor, candidate) == ancestor
        decreases |ancestor|
      {
        // The script also stops at the root, which never leads up.
        ClimbOnce(ancestor, candidate);
        ancestor := Dirname(ancestor);
        ClimbOnce(ancestor, candidate);
      }
      assert rest[..i + 1][..i] == rest[..i];
    }
    assert rest[..|rest|] == rest;
    return Some(ancestor);
  }

  // ---------------------------------------------------------------- the deepest common directory

  lemma {:induction false} DeepestIsCommon(first: Path, rest: seq<Path>)
    ensures Deepest(first, rest) <= first
    ensures forall p :: p in rest ==> Deepest(first, rest) <= p
  {
    if rest != [] {
      var front, last := rest[..|rest| - 1], rest[|rest| - 1];
      DeepestIsCommon(first, front);
      assert rest == front + [last];
    }
  }

  /** Every directory that contains all the paths contains the deepest one. */
  lemma {:induction false} DeepestIsDeepest(first: Path, rest: seq<Path>, q: Path)
    requires q <= first && forall p :: p in rest ==> q <= p
    ensures q <= Deepest(first, rest)
  {
    if rest != [] {
      var front, last := rest[..|rest| - 1], rest[|rest| - 1];
      assert forall p :: p in front ==> p in rest;
      DeepestIsDeepest(first, front, q);
      var d := Deepest(first, front);
      assert last in rest;
      forall k | 0 <= k < |q| ensures d[k] == last[k] {
        assert d[k] == q[k] && last[k] == q[k];
      }
    }
  }

  /** Some path turns away from the first one right below `d`. */
  predicate Diverges(first: Path, rest: seq<Path>, d: Path) {
    exists p :: p in rest && |p| > |d| && |first| > |d| && p[|d|] != first[|d|]
  }

  /** What the loop has found after the paths `rest`. */
  ghost predicate Found(first: Path, rest: seq<Path>, d: Path, r: Path) {
    && d <= first
    && (forall p :: p in rest ==> d <= p)
    && if first == d || Diverges(first, rest, d) then r == d
       else d in rest && r == first[..|d| + 1]
  }

  lemma FoundStep(first: Path, rest: seq<Path>, c: Path, d: Path, r: Path)
    requires Found(first, rest, d, r)
    ensures Found(first, rest + [c], d[..CommonLength(d, c)], Meet(r, c))
  {
    var all, n := rest + [c], CommonLength(d, c);
    var d' := d[..n];
    forall p | p in all ensures d' <= p {
      if p in rest {
        assert d <= p;
      }
    }
    if r == d {
      FoundStepExact(first, rest, c, d);
    } else {
      FoundStepBelow(first, rest, c, d);
    }
  }

  lemma SameSoFar(first: Path, rest: seq<Path>, c: Path, d: Path, n: nat)
    requires d <= first && (forall p :: p in rest ==> d <= p) && n < |d|
    ensures Diverges(first, rest + [c], d[..n]) <==> |c| > n && c[n] != first[n]
  {
    var all := rest + [c];
    forall p | p in rest ensures p[n] == first[n] {
      assert p[n] == d[n] == first[n];
    }
    assert c in all;
  }

  lemma FoundStepExact(first: Path, rest: seq<Path>, c: Path, d: Path)
    requires Found(first, rest, d, d)
    ensures var n := CommonLength(d, c);
            if first == d[..n] || Diverges(first, rest + [c], d[..n]) then Meet(d, c) == d[..n]
            else d[..n] in rest + [c] && Meet(d, c) == first[..n + 1]
  {
    var all, n := rest + [c], CommonLength(d, c);
    if n < |d| {
      SameSoFar(first, rest, c, d, n);
      if n == |c| {
        assert c == d[..n] && c in all;
        assert first[..n + 1] == d[..n + 1];
      }
    } else {
      assert d[..n] == d;
      if Diverges(first, rest, d) {
        var p :| p in rest && |p| > |d| && |first| > |d| && p[|d|] != first[|d|];
        assert p in all;
      }
    }
  }

  lemma FoundStepBelow(first: Path, rest: seq<Path>, c: Path, d: Path)
    requires d <= first && (forall p :: p in rest ==> d <= p)
    requires first != d && !Diverges(first, rest, d) && d in rest
    ensures var n := CommonLength(d, c); var r := first[..|d| + 1];
            if first == d[..n] || Diverges(first, rest + [c], d[..n]) then Meet(r, c) == d[..n]
            else d[..n] in rest + [c] && Meet(r, c) == first[..n + 1]
  {
    var all, n := rest + [c], CommonLength(d, c);
    var r := first[..|d| + 1];
    assert r[..|d|] == d;
    if n < |d| {
      assert r[..n] == d[..n];
      CommonLengthUnique(r, c, n);
      SameSoFar(first, rest, c, d, n);
      if n == |c| {
        assert c == d[..n] && c in all;
        assert r[..n + 1] == first[..n + 1];
      }
    } else {
      assert d[..n] == d && d in all;
      BelowAtDepth(first, rest, c, d);
    }
  }

  lemma BelowAtDepth(first: Path, rest: seq<Path>, c: Path, d: Path)
    requires d < first && !Diverges(first, rest, d) && d <= c
    ensures var r := first[..|d| + 1];
            Meet(r, c) == if Diverges(first, rest + [c], d) then d else r
  {
    var r, all := first[..|d| + 1], rest + [c];
    assert r[..|d|] == d == c[..|d|];
    if |c| > |d| && c[|d|] != first[|d|] {
      assert c in all;
      CommonLengthUnique(r, c, |d|);
    } else if |c| > |d| {
      assert c[..|d| + 1] == r;
      CommonLengthUnique(r, c, |d| + 1);
      assert r[..|d| + 1] == r;
    } else {
      CommonLengthUnique(r, c, |d|);
    }
  }

  lemma {:induction false} LoopFinds(first: Path, rest: seq<Path>)
    ensures Found(first, rest, Deepest(first, rest), MeetAll(first, rest))
  {
    if rest != [] {
      var front, last := rest[..|rest| - 1], rest[|rest| - 1];
      LoopFinds(first, front);
      FoundStep(first, front, last, Deepest(first, front), MeetAll(first, front));
      assert front + [last] == rest;
    }
  }

  /** The result is the deepest common directory exactly when that is the first path itself
      or some path leaves it by another child; otherwise the result is one level too deep. */
  lemma AncestorExactly(first: Path, rest: seq<Path>)
    ensures var d := Deepest(first, rest);
            && (MeetAll(first, rest) == d <==> first == d || Diverges(first, rest, d))
            && (MeetAll(first, rest) != d ==> |d| < |first| && MeetAll(first, rest) == first[..|d| + 1])
  {
    LoopFinds(first, rest);
  }

  /** When no other path is a strict ancestor of the first, as for a package directory
      followed by files, the result is the deepest common directory. */
  lemma AncestorOfFiles(first: Path, rest: seq<Path>)
    requires forall p :: p in rest ==> !(p < first)
    ensures MeetAll(first, rest) == Deepest(first, rest)
  {
    LoopFinds(first, rest);
  }
}
