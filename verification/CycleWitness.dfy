/** `findCycleWitness` and `main` of the import-cycle check
    (scripts/check-import-cycles.ts): a depth-first search inside one component. */
module CycleWitness {
  import opened Wrappers
  import opened Digraph
  import opened StableSort
  import opened ImportCycles
  import opened ImportCyclePass

  function Members(s: seq<string>): set<string> {
    set v | v in s
  }

  // ---------------------------------------------------------------- the component's own graph

  function Keep(s: seq<string>, c: set<string>): seq<string> {
    if s == [] then []
    else (if s[0] in c then [s[0]] else []) + Keep(s[1..], c)
  }

  lemma {:induction false} KeepMembers(s: seq<string>, c: set<string>)
    ensures forall x :: x in Keep(s, c) <==> x in s && x in c
  {
    if s != [] {
      KeepMembers(s[1..], c);
      assert s == [s[0]] + s[1..];
    }
  }

  /** The graph with only the imports between members of `c`. */
  ghost function Within(g: Graph<string>, c: set<string>): Graph<string> {
    map v | v in c :: Keep(Successors(g, v), c)
  }

  lemma WithinEdge(g: Graph<string>, c: set<string>, v: string, w: string)
    ensures Edge(Within(g, c), v, w) <==> v in c && w in c && Edge(g, v, w)
  {
    KeepMembers(Successors(g, v), c);
  }

  // ---------------------------------------------------------------- cycles

  /** A real cycle inside `c`: consecutive nodes are imports, the last node closes the
      cycle at the first, and no other node repeats. */
  ghost predicate IsWitness(g: Graph<string>, c: set<string>, w: seq<string>) {
    && |w| >= 2
    && w[0] == w[|w| - 1]
    && Distinct(w[..|w| - 1])
    && (forall x :: x in w ==> x in c)
    && IsPath(g, w)
  }

  /** Some cycle inside `c` can be reached from `start` without leaving `c`. */
  ghost predicate CycleAhead(g: Graph<string>, c: set<string>, start: string) {
    exists v :: Reach(Within(g, c), start, v) && ReachPlus(Within(g, c), v, v)
  }

  /** The nodes given up by the search, each after everything it imports. */
  ghost predicate Exhausted(h: Graph<string>, finished: seq<string>) {
    && Distinct(finished)
    && (forall i, w {:trigger Edge(h, finished[i], w)} ::
          0 <= i < |finished| && Edge(h, finished[i], w) ==> w in finished[..i])
  }

  lemma ExhaustedPrefixClosed(h: Graph<string>, finished: seq<string>, n: nat)
    requires Exhausted(h, finished) && n <= |finished|
    ensures Closed(h, Members(finished[..n]))
  {
    forall v, w | v in finished[..n] && Edge(h, v, w) ensures w in finished[..n] {
      var i :| 0 <= i < n && finished[..n][i] == v;
      assert finished[i] == v;
      assert w in finished[..i];
      var j :| 0 <= j < i && finished[..i][j] == w;
      assert finished[..n][j] == w;
    }
  }

  lemma ExhaustedNoCycle(h: Graph<string>, finished: seq<string>, start: string, v: string)
    requires Exhausted(h, finished) && start in finished && Reach(h, start, v)
    ensures !ReachPlus(h, v, v)
  {
    ExhaustedPrefixClosed(h, finished, |finished|);
    assert finished[..|finished|] == finished;
    ClosedReach(h, Members(finished), start, v);
    var i :| 0 <= i < |finished| && finished[i] == v;
    ExhaustedPrefixClosed(h, finished, i);
    assert v !in finished[..i];
    forall x | Edge(h, v, x) ensures !Reach(h, x, v) {
      assert Edge(h, finished[i], x);
      EscapesNot(h, Members(finished[..i]), x, v);
    }
  }

  lemma EscapesNot(h: Graph<string>, s: set<string>, x: string, v: string)
    requires Closed(h, s) && x in s && v !in s
    ensures !Reach(h, x, v)
  {
    if Reach(h, x, v) {
      ClosedReach(h, s, x, v);
    }
  }

  // ---------------------------------------------------------------- the search

  /** The first position of `x`, or the length when it is absent. */
  function IndexOf(s: seq<string>, x: string): (i: nat)
    ensures i <= |s| && (i < |s| ==> s[i] == x)
    ensures x in s <==> i < |s|
  {
    if s == [] then 0 else if s[0] == x then 0 else 1 + IndexOf(s[1..], x)
  }

  /** The active path is a path from `start`, and everything else seen is given up. */
  ghost predicate SearchOk(g: Graph<string>, c: set<string>, start: string,
                           activePath: seq<string>, visited: set<string>, finished: seq<string>)
  {
    && Distinct(activePath)
    && (forall v :: v in visited <==> v in activePath || v in finished)
    && (forall v :: v in activePath ==> v !in finished)
    && visited <= c
    && (activePath != [] ==> activePath[0] == start && IsPath(Within(g, c), activePath))
    && Exhausted(Within(g, c), finished)
  }

  /** `node` may be visited next. */
  ghost predicate MayEnter(g: Graph<string>, c: set<string>, start: string,
                           activePath: seq<string>, visited: set<string>, node: string)
  {
    && node in c && node !in visited
    && if activePath == [] then node == start else Edge(Within(g, c), activePath[|activePath| - 1], node)
  }

  lemma PathGrows(h: Graph<string>, path: seq<string>, node: string)
    requires path == [] || (IsPath(h, path) && Edge(h, path[|path| - 1], node))
    ensures IsPath(h, path + [node])
  {
  }

  lemma EnterOk(g: Graph<string>, c: set<string>, start: string, activePath: seq<string>,
                visited: set<string>, finished: seq<string>, node: string)
    requires SearchOk(g, c, start, activePath, visited, finished)
    requires MayEnter(g, c, start, activePath, visited, node)
    ensures SearchOk(g, c, start, activePath + [node], visited + {node}, finished)
  {
    var path := activePath + [node];
    PathGrows(Within(g, c), activePath, node);
    assert Distinct(path);
    assert forall v :: v in path <==> v in activePath || v == node;
    assert path[0] == start;
  }

  /** A node all of whose imports inside the component are given up is given up too. */
  lemma GiveUpOk(g: Graph<string>, c: set<string>, start: string, before: seq<string>,
                 visited: set<string>, finished: seq<string>, node: string)
    requires SearchOk(g, c, start, before + [node], visited, finished)
    requires forall m :: 0 <= m < |Successors(g, node)| && Successors(g, node)[m] in c ==>
               Successors(g, node)[m] in finished
    ensures SearchOk(g, c, start, before, visited, finished + [node])
  {
    var path := before + [node];
    assert path[|before|] == node && node in path;
    assert forall k :: 0 <= k < |before| ==> path[k] == before[k];
    GiveUp(g, c, finished, node);
  }

  class WitnessSearch {
    const graph: Graph<string>
    const componentSet: set<string>
    const start: string
    var activePath: seq<string>
    var visited: set<string>
    ghost var finished: seq<string>

    ghost predicate Valid()
      reads this
    {
      SearchOk(graph, componentSet, start, activePath, visited, finished)
    }

    constructor (graph: Graph<string>, componentSet: set<string>, start: string)
      ensures this.graph == graph && this.componentSet == componentSet && this.start == start
      ensures Valid() && activePath == [] && finished == []
    {
      this.graph, this.componentSet, this.start := graph, componentSet, start;
      activePath, visited, finished := [], {}, [];
    }

    /** Put the node on the path. */
    method Open(node: string)
      requires Valid() && MayEnter(graph, componentSet, start, activePath, visited, node)
      modifies `activePath, `visited
      ensures Valid() && activePath == old(activePath) + [node] && visited == old(visited) + {node}
    {
      EnterOk(graph, componentSet, start, activePath, visited, finished, node);
      activePath := activePath + [node];
      visited := visited + {node};
    }

    /** Take the node off the path again: no cycle lies ahead of it. */
    method GiveBack(node: string, ghost before: seq<string>)
      requires Valid() && activePath == before + [node]
      requires forall m :: 0 <= m < |Successors(graph, node)| && Successors(graph, node)[m] in componentSet ==>
                 Successors(graph, node)[m] in finished
      modifies `activePath, `finished
      ensures Valid() && activePath == before && finished == old(finished) + [node]
    {
      GiveUpOk(graph, componentSet, start, before, visited, finished, node);
      activePath := activePath[..|activePath| - 1];
      finished := finished + [node];
    }

    method Visit(node: string) returns (r: Option<seq<string>>)
      requires Valid() && MayEnter(graph, componentSet, start, activePath, visited, node)
      modifies this
      ensures r.Some? ==> IsWitness(graph, componentSet, r.value)
      ensures r.Some? ==> Reach(Within(graph, componentSet), start, r.value[0])
      ensures r.None? ==> Valid() && activePath == old(activePath) && node in finished
      ensures r.None? ==> old(visited) <= visited && Members(old(finished)) <= Members(finished)
      decreases componentSet - visited, 0
    {
      ghost var path0, visited0, finished0 := activePath, visited, Members(finished);
      Open(node);
      var imports := Successors(graph, node);
      for k := 0 to |imports|
        invariant Valid() && activePath == path0 + [node]
        invariant visited0 + {node} <= visited && finished0 <= Members(finished)
        invariant forall m :: 0 <= m < k && imports[m] in componentSet ==> imports[m] in Members(finished)
      {
        if imports[k] in componentSet {
          r := Follow(imports[k]);
          if r.Some? {
            return r;
          }
        }
      }
      GiveBack(node, path0);
      return None;
    }

    /** One import of the last active node: it closes a cycle, is new, or is given up already. */
    method Follow(next: string) returns (r: Option<seq<string>>)
      requires Valid() && activePath != [] && next in componentSet
      requires Edge(graph, activePath[|activePath| - 1], next)
      modifies this
      ensures r.Some? ==> IsWitness(graph, componentSet, r.value)
      ensures r.Some? ==> Reach(Within(graph, componentSet), start, r.value[0])
      ensures r.None? ==> Valid() && activePath == old(activePath) && next in finished
      ensures r.None? ==> old(visited) <= visited && Members(old(finished)) <= Members(finished)
      decreases componentSet - visited, 1
    {
      var existingIndex := IndexOf(activePath, next);
      assert activePath[|activePath| - 1] in activePath;
      WithinEdge(graph, componentSet, activePath[|activePath| - 1], next);
      if existingIndex < |activePath| {
        BackEdge(graph, componentSet, activePath, existingIndex, next);
        return Some(activePath[existingIndex..] + [next]);
      }
      if next !in visited {
        r := Visit(next);
        return r;
      }
      return None;
    }
  }

  /** An import of the last active node that is itself active closes a cycle. */
  lemma BackEdge(g: Graph<string>, c: set<string>, path: seq<string>, i: nat, next: string)
    requires i < |path| && path[i] == next && Distinct(path) && IsPath(Within(g, c), path)
    requires Edge(Within(g, c), path[|path| - 1], next)
    ensures IsWitness(g, c, path[i..] + [next])
    ensures Reach(Within(g, c), path[0], next)
  {
    var h, w := Within(g, c), path[i..] + [next];
    forall a, b | 0 <= a < b < |w| && b == a + 1 ensures Edge(h, w[a], w[b]) && Edge(g, w[a], w[b]) {
      assert w[a] == path[a + i];
      if b < |w| - 1 {
        assert w[b] == path[b + i];
      }
      WithinEdge(g, c, w[a], w[b]);
    }
    forall x | x in w ensures x in c {
      var a :| 0 <= a < |w| && w[a] == x;
      if a == |w| - 1 {
        WithinEdge(g, c, w[a - 1], w[a]);
      } else {
        assert Edge(h, w[a], w[a + 1]);
        WithinEdge(g, c, w[a], w[a + 1]);
      }
    }
    assert w[..|w| - 1] == path[i..];
    assert Joins(h, path[..i + 1], path[0], next);
  }

  lemma GiveUp(g: Graph<string>, c: set<string>, finished: seq<string>, node: string)
    requires Exhausted(Within(g, c), finished) && node !in finished
    requires forall m :: 0 <= m < |Successors(g, node)| && Successors(g, node)[m] in c ==>
               Successors(g, node)[m] in finished
    ensures Exhausted(Within(g, c), finished + [node])
  {
    var h, more := Within(g, c), finished + [node];
    forall i, w | 0 <= i < |more| && Edge(h, more[i], w) ensures w in more[..i] {
      if i == |finished| {
        WithinEdge(g, c, node, w);
        assert more[..i] == finished;
      } else {
        assert Edge(h, finished[i], w);
        assert more[..i] == finished[..i];
      }
    }
  }

  lemma WitnessIsAhead(g: Graph<string>, c: set<string>, start: string, w: seq<string>)
    requires IsWitness(g, c, w) && Reach(Within(g, c), start, w[0])
    ensures CycleAhead(g, c, start)
  {
    var h := Within(g, c);
    forall a, b | 0 <= a < b < |w| && b == a + 1 ensures Edge(h, w[a], w[b]) {
      WithinEdge(g, c, w[a], w[b]);
    }
    PathTail(h, w);
    assert Joins(h, w[1..], w[1], w[0]);
    assert ReachPlus(h, w[0], w[0]);
  }

  /** `findCycleWitness`.  An absent or empty first name gives no witness; otherwise the
      bare component comes back exactly when the search has no cycle ahead of it. */
  method FindCycleWitness(component: seq<string>, graph: Graph<string>) returns (w: seq<string>)
    ensures component == [] || component[0] == "" ==> w == []
    ensures component != [] && component[0] != "" ==>
              if CycleAhead(graph, Members(component), component[0])
              then IsWitness(graph, Members(component), w)
              else w == component
  {
    var componentSet := Members(component);
    if component == [] || component[0] == "" {
      return [];
    }
    var search := new WitnessSearch(graph, componentSet, component[0]);
    var r := search.Visit(component[0]);
    if r.Some? {
      WitnessIsAhead(graph, componentSet, component[0], r.value);
      return r.value;
    }
    forall v | Reach(Within(graph, componentSet), component[0], v)
      ensures !ReachPlus(Within(graph, componentSet), v, v)
    {
      ExhaustedNoCycle(Within(graph, componentSet), search.finished, component[0], v);
    }
    return component;
  }

  // ---------------------------------------------------------------- every reported component has a witness

  /** A path between members of a component stays in it. */
  lemma PathStaysInside(g: Graph<string>, c: seq<string>, p: seq<string>, i: nat)
    requires IsScc(g, c) && IsPath(g, p) && p[0] in c && p[|p| - 1] in c && i < |p|
    ensures p[i] in c
  {
    assert Joins(g, p[..i + 1], p[0], p[i]);
    var rest := p[i..];
    forall a, b | 0 <= a < b < |rest| && b == a + 1 ensures Edge(g, rest[a], rest[b]) {
      assert rest[a] == p[a + i] && rest[b] == p[b + i];
    }
    assert Joins(g, rest, p[i], p[|p| - 1]);
    assert Reach(g, p[|p| - 1], p[0]);
    ReachTrans(g, p[i], p[|p| - 1], p[0]);
    assert Mutual(g, p[0], p[i]);
  }

  lemma ReachInside(g: Graph<string>, c: seq<string>, u: string, v: string)
    requires IsScc(g, c) && u in c && v in c
    ensures Reach(Within(g, Members(c)), u, v)
  {
    assert Reach(g, u, v);
    var p :| Joins(g, p, u, v);
    var inside := Members(c);
    forall a, b | 0 <= a < b < |p| && b == a + 1 ensures Edge(Within(g, inside), p[a], p[b]) {
      PathStaysInside(g, c, p, a);
      PathStaysInside(g, c, p, b);
      WithinEdge(g, inside, p[a], p[b]);
    }
    assert Joins(Within(g, inside), p, u, v);
  }

  lemma ComponentHasCycle(g: Graph<string>, c: seq<string>)
    requires IsScc(g, c) && (|c| > 1 || Edge(g, c[0], c[0]))
    ensures CycleAhead(g, Members(c), c[0])
  {
    var h := Within(g, Members(c));
    ReachSelf(h, c[0]);
    if Edge(g, c[0], c[0]) {
      WithinEdge(g, Members(c), c[0], c[0]);
    } else {
      ReachInside(g, c, c[0], c[1]);
      ReachInside(g, c, c[1], c[0]);
      ReachDistinct(h, c[0], c[1]);
      var x :| Edge(h, c[0], x) && Reach(h, x, c[1]);
      ReachTrans(h, x, c[1], c[0]);
    }
    assert ReachPlus(h, c[0], c[0]);
  }

  /** One witness for every reported component, in the printed order. */
  method FindWitnesses(graph: Graph<string>, components: seq<seq<string>>) returns (witnesses: seq<seq<string>>)
    requires CyclicComponents(graph, components) && "" !in Vertices(graph)
    ensures |witnesses| == |components|
    ensures forall i :: 0 <= i < |components| ==> IsWitness(graph, Members(components[i]), witnesses[i])
  {
    witnesses := [];
    for i := 0 to |components|
      invariant |witnesses| == i
      invariant forall k :: 0 <= k < i ==> IsWitness(graph, Members(components[k]), witnesses[k])
    {
      var c := components[i];
      assert c in components;
      ComponentHasCycle(graph, c);
      FirstNotEmpty(graph, c);
      var w := FindCycleWitness(c, graph);
      witnesses := witnesses + [w];
    }
  }

  /** `main` after the graph is built: the exit code, the components and their witnesses.
      `None` is the thrown error. */
  method CheckImportCycles(graph: Graph<string>, leq: (string, string) -> bool)
    returns (r: Option<(int, seq<seq<string>>, seq<seq<string>>)>)
    requires TotalPreorder(leq)
    ensures r.None? <==> "" in Vertices(graph)
    ensures r.Some? ==> r.value.0 == if Acyclic(graph) then 0 else 1
    ensures r.Some? ==> CycleReport(graph, leq, r.value.1) && |r.value.2| == |r.value.1|
    ensures r.Some? ==> forall i :: 0 <= i < |r.value.1| ==>
                          IsWitness(graph, Members(r.value.1[i]), r.value.2[i])
  {
    var search := new SccPass(graph, leq);
    var found := search.Collect();
    if found.None? {
      return None;
    }
    if found.value == [] {
      return Some((0, [], []));
    }
    var witnesses := FindWitnesses(graph, found.value);
    return Some((1, found.value, witnesses));
  }

  lemma FirstNotEmpty(g: Graph<string>, c: seq<string>)
    requires IsScc(g, c) && (|c| > 1 || Edge(g, c[0], c[0])) && "" !in Vertices(g)
    ensures c[0] != ""
  {
    if |c| > 1 {
      assert c[0] in c && c[1] in c;
      assert Mutual(g, c[0], c[1]);
      MutualHasKey(g, c[0], c[1]);
    }
  }
}
