/** `collectStronglyConnectedComponents` as the script runs it
    (scripts/check-import-cycles.ts), proved against the graph-theoretic meaning of
    its result.

    The script's recursion and pop loop work on the fields below.  A `false` or `None`
    result stands for the thrown "stack underflow" error: the script tests the popped
    value for truthiness, so an empty node name triggers it. */
module ImportCyclePass {
  import opened Wrappers
  import opened JsText
  import opened Digraph
  import opened StableSort
  import opened ImportCycles

  /** What the script reports: two nodes or more, or a node importing itself. */
  predicate Cyclic(g: Graph<string>, c: seq<string>, root: string) {
    |c| > 1 || Edge(g, root, root)
  }

  /** `components` holds the cyclic ones among the popped components, each sorted by
      name; `from` says which popped component each of them is. */
  ghost predicate Reported(g: Graph<string>, leq: (string, string) -> bool, popped: seq<seq<string>>,
                           components: seq<seq<string>>, from: seq<nat>)
  {
    && |from| == |components|
    && (forall i :: 0 <= i < |from| ==> from[i] < |popped|)
    && (forall i, j :: 0 <= i < j < |from| ==> from[i] < from[j])
    && (forall i :: 0 <= i < |from| ==> components[i] == Sort(leq, popped[from[i]]))
    && (forall k :: 0 <= k < |popped| ==> (k in from <==> CyclicList(g, popped[k])))
  }

  lemma ReportedNext(g: Graph<string>, leq: (string, string) -> bool, popped: seq<seq<string>>,
                     components: seq<seq<string>>, from: seq<nat>, c: seq<string>)
    requires Reported(g, leq, popped, components, from)
    ensures CyclicList(g, c) ==> Reported(g, leq, popped + [c], components + [Sort(leq, c)], from + [|popped|])
    ensures !CyclicList(g, c) ==> Reported(g, leq, popped + [c], components, from)
  {
    var more := popped + [c];
    forall k | 0 <= k < |more|
      ensures CyclicList(g, c) ==> (k in from + [|popped|] <==> CyclicList(g, more[k]))
      ensures !CyclicList(g, c) ==> (k in from <==> CyclicList(g, more[k]))
    {
      if k < |popped| {
        assert more[k] == popped[k];
      }
    }
  }

  /** A list of popped nodes that the script reports: its last node is the one popped last. */
  ghost predicate CyclicList(g: Graph<string>, c: seq<string>) {
    c != [] && Cyclic(g, c, c[|c| - 1])
  }

  function CycleSignature(leq: (string, string) -> bool, files: seq<string>): string {
    Join(Sort(leq, files), "\n")
  }

  /** Larger components first, then by signature. */
  function ComponentOrder(leq: (string, string) -> bool): (seq<string>, seq<string>) -> bool {
    (a: seq<string>, b: seq<string>) =>
      |a| > |b| || (|a| == |b| && leq(CycleSignature(leq, a), CycleSignature(leq, b)))
  }

  lemma NextReached(g: Graph<string>, calls: set<string>, node: string, next: string, k: nat)
    requires k < |Successors(g, node)| && next == Successors(g, node)[k]
    requires forall x :: x in calls ==> Reach(g, x, node)
    ensures next in Vertices(g)
    ensures forall x :: x in calls + {node} ==> Reach(g, x, next)
  {
    assert Edge(g, node, next);
    ReachEdge(g, node, next);
    forall x | x in calls ensures Reach(g, x, next) {
      ReachTrans(g, x, node, next);
    }
  }

  lemma ComponentOrderIsPreorder(leq: (string, string) -> bool)
    requires TotalPreorder(leq)
    ensures TotalPreorder(ComponentOrder(leq))
  {
    var order := ComponentOrder(leq);
    forall a, b ensures order(a, b) || order(b, a) {
      assert leq(CycleSignature(leq, a), CycleSignature(leq, b)) || leq(CycleSignature(leq, b), CycleSignature(leq, a));
    }
    forall a, b, c | order(a, b) && order(b, c) ensures order(a, c) {
      if |a| == |b| == |c| {
        assert leq(CycleSignature(leq, a), CycleSignature(leq, b));
        assert leq(CycleSignature(leq, b), CycleSignature(leq, c));
      }
    }
  }

  // ---------------------------------------------------------------- what a finished pass has found

  /** Distinct nodes that import each other, directly or not, share a component; so
      does a node that imports itself. */
  ghost predicate CoversCycles(g: Graph<string>, components: seq<seq<string>>) {
    && (forall u, v {:trigger Mutual(g, u, v)} :: u != v && Mutual(g, u, v) ==>
          exists c :: c in components && u in c && v in c)
    && (forall u {:trigger Edge(g, u, u)} :: Edge(g, u, u) ==> exists c :: c in components && u in c)
  }

  /** Each component is maximal, strongly connected and cyclic, and they share no node. */
  ghost predicate CyclicComponents(g: Graph<string>, components: seq<seq<string>>) {
    && (forall c :: c in components ==> IsScc(g, c) && (|c| > 1 || Edge(g, c[0], c[0])))
    && (forall i, j :: 0 <= i < j < |components| ==> Disjoint(components[i], components[j]))
  }

  /** The meaning of the script's result. */
  ghost predicate CycleReport(g: Graph<string>, leq: (string, string) -> bool, components: seq<seq<string>>) {
    && CyclicComponents(g, components)
    && CoversCycles(g, components)
    && (components == [] <==> Acyclic(g))
    && (forall c :: c in components ==> SortedBy(leq, c))
    && InReportOrder(leq, components)
  }

  ghost predicate ReportedBefore(leq: (string, string) -> bool, a: seq<string>, b: seq<string>) {
    |a| > |b| || (|a| == |b| && leq(Join(a, "\n"), Join(b, "\n")))
  }

  /** Sizes do not grow, and components of one size are ordered by their lines. */
  ghost predicate InReportOrder(leq: (string, string) -> bool, components: seq<seq<string>>) {
    forall i, j :: 0 <= i < j < |components| ==> ReportedBefore(leq, components[i], components[j])
  }

  lemma SignatureOfSorted(leq: (string, string) -> bool, c: seq<string>)
    requires SortedBy(leq, c)
    ensures CycleSignature(leq, c) == Join(c, "\n")
  {
    SortSorted(leq, c);
  }

  lemma OrderIsReportOrder(leq: (string, string) -> bool, components: seq<seq<string>>)
    requires TotalPreorder(leq) && forall c :: c in components ==> SortedBy(leq, c)
    ensures var r := Sort(ComponentOrder(leq), components);
            InReportOrder(leq, r) && forall c :: c in r <==> c in components
  {
    var order, r := ComponentOrder(leq), Sort(ComponentOrder(leq), components);
    ComponentOrderIsPreorder(leq);
    SortCorrect(order, components);
    SortMembers(order, components);
    forall i, j | 0 <= i < j < |r| ensures ReportedBefore(leq, r[i], r[j]) {
      assert order(r[i], r[j]) && r[i] in r && r[j] in r;
      SignatureOfSorted(leq, r[i]);
      SignatureOfSorted(leq, r[j]);
    }
  }

  lemma DisjointInOrder(leq: (string, string) -> bool, components: seq<seq<string>>)
    requires TotalPreorder(leq)
    requires forall i, j :: 0 <= i < j < |components| ==> Disjoint(components[i], components[j])
    requires forall c :: c in components ==> c != []
    ensures var r := Sort(ComponentOrder(leq), components);
            forall i, j :: 0 <= i < j < |r| ==> Disjoint(r[i], r[j])
  {
    var order, r := ComponentOrder(leq), Sort(ComponentOrder(leq), components);
    ComponentOrderIsPreorder(leq);
    SortMembers(order, components);
    forall i, j | 0 <= i < j < |components| ensures components[i] != components[j] {
      assert components[i] in components && components[i][0] in components[i];
    }
    SortDistinct(order, components);
    forall i, j | 0 <= i < j < |r| ensures Disjoint(r[i], r[j]) {
      assert r[i] in components && r[j] in components;
      var k :| 0 <= k < |components| && components[k] == r[i];
      var m :| 0 <= m < |components| && components[m] == r[j];
      assert k != m;
    }
  }

  lemma NoAnchor(g: Graph<string>, s: Pass, x: string)
    requires x in s.index
    ensures !Anchored(g, {}, s, x)
  {
  }

  /** With no visit active and every key numbered, the stack is empty and every node is done. */
  lemma AllDone(g: Graph<string>, s: Pass)
    requires Inv(g, {}, s) && g.Keys <= s.index.Keys
    ensures s.on == {} && s.Done() == s.index.Keys == Vertices(g) && "" !in Vertices(g)
  {
    forall x | x in s.index ensures x !in s.on {
      NoAnchor(g, s, x);
    }
    assert s.Done() == s.index.Keys;
    forall w | w in Vertices(g) ensures w in s.Done() {
      if w !in g.Keys {
        var v :| v in g.Keys && w in g[v];
        assert Edge(g, v, w);
      }
    }
  }

  lemma MutualHasKey(g: Graph<string>, u: string, v: string)
    requires u != v && Mutual(g, u, v)
    ensures u in g.Keys
  {
    ReachDistinct(g, u, v);
    var x :| Edge(g, u, x) && Reach(g, x, v);
  }

  lemma SortedScc(g: Graph<string>, leq: (string, string) -> bool, c: seq<string>)
    requires TotalPreorder(leq) && IsScc(g, c)
    ensures IsScc(g, Sort(leq, c)) && SortedBy(leq, Sort(leq, c)) && |Sort(leq, c)| == |c|
    ensures forall x :: x in Sort(leq, c) <==> x in c
  {
    SortCorrect(leq, c);
    SortMembers(leq, c);
    SortDistinct(leq, c);
  }

  /** A popped component that is cyclic is reported, sorted. */
  lemma ReportedMember(g: Graph<string>, leq: (string, string) -> bool, s: Pass,
                       components: seq<seq<string>>, from: seq<nat>, d: seq<string>) returns (c: seq<string>)
    requires TotalPreorder(leq) && PoppedOk(g, s) && Reported(g, leq, s.popped, components, from)
    requires d in s.popped && CyclicList(g, d)
    ensures c in components && forall v :: v in d ==> v in c
  {
    var k :| 0 <= k < |s.popped| && s.popped[k] == d;
    assert k in from;
    var i :| 0 <= i < |from| && from[i] == k;
    SortedScc(g, leq, d);
    c := components[i];
    assert c == Sort(leq, d);
  }

  lemma HomeOf(g: Graph<string>, s: Pass, u: string) returns (d: seq<string>)
    requires PoppedOk(g, s) && u in s.Done()
    ensures d in s.popped && u in d && IsScc(g, d)
  {
    d :| d in s.popped && u in d;
  }

  lemma HomeOfPair(g: Graph<string>, d: seq<string>, u: string, v: string)
    requires IsScc(g, d) && u in d && u != v && Mutual(g, u, v)
    ensures v in d && CyclicList(g, d)
  {
    assert v in d;
    assert |d| > 1;
  }

  lemma HomeOfLoop(g: Graph<string>, d: seq<string>, u: string)
    requires u in d && Edge(g, u, u)
    ensures CyclicList(g, d)
  {
    if |d| == 1 {
      assert d[|d| - 1] == u;
    }
  }

  lemma ReportedPair(g: Graph<string>, leq: (string, string) -> bool, s: Pass,
                     components: seq<seq<string>>, from: seq<nat>, u: string, v: string)
    requires TotalPreorder(leq) && PoppedOk(g, s) && Reported(g, leq, s.popped, components, from)
    requires s.Done() == Vertices(g) && u != v && Mutual(g, u, v)
    ensures exists c :: c in components && u in c && v in c
  {
    MutualHasKey(g, u, v);
    var d := HomeOf(g, s, u);
    HomeOfPair(g, d, u, v);
    var c := ReportedMember(g, leq, s, components, from, d);
  }

  lemma ReportedLoop(g: Graph<string>, leq: (string, string) -> bool, s: Pass,
                     components: seq<seq<string>>, from: seq<nat>, u: string)
    requires TotalPreorder(leq) && PoppedOk(g, s) && Reported(g, leq, s.popped, components, from)
    requires s.Done() == Vertices(g) && Edge(g, u, u)
    ensures exists c :: c in components && u in c
  {
    var d := HomeOf(g, s, u);
    HomeOfLoop(g, d, u);
    var c := ReportedMember(g, leq, s, components, from, d);
  }

  lemma ReportedCovers(g: Graph<string>, leq: (string, string) -> bool, s: Pass,
                       components: seq<seq<string>>, from: seq<nat>)
    requires TotalPreorder(leq) && PoppedOk(g, s) && Reported(g, leq, s.popped, components, from)
    requires s.Done() == Vertices(g)
    ensures CoversCycles(g, components)
  {
    forall u, v | u != v && Mutual(g, u, v) ensures exists c :: c in components && u in c && v in c {
      ReportedPair(g, leq, s, components, from, u, v);
    }
    forall u | Edge(g, u, u) ensures exists c :: c in components && u in c {
      ReportedLoop(g, leq, s, components, from, u);
    }
  }

  lemma ReportedComponents(g: Graph<string>, leq: (string, string) -> bool, s: Pass,
                           components: seq<seq<string>>, from: seq<nat>)
    requires TotalPreorder(leq) && PoppedOk(g, s) && Reported(g, leq, s.popped, components, from)
    ensures CyclicComponents(g, components)
    ensures forall c :: c in components ==> SortedBy(leq, c)
  {
    forall i | 0 <= i < |components|
      ensures IsScc(g, components[i]) && SortedBy(leq, components[i])
      ensures |components[i]| > 1 || Edge(g, components[i][0], components[i][0])
      ensures forall v :: v in components[i] <==> v in s.popped[from[i]]
    {
      var d := s.popped[from[i]];
      assert d in s.popped;
      SortedScc(g, leq, d);
      assert from[i] in from;
      assert CyclicList(g, d);
      if |d| == 1 {
        assert d[0] in d;
        assert components[i][0] in components[i];
      }
    }
    forall i, j | 0 <= i < j < |components| ensures Disjoint(components[i], components[j]) {
      assert Disjoint(s.popped[from[i]], s.popped[from[j]]);
    }
  }

  lemma NoneIffAcyclic(g: Graph<string>, components: seq<seq<string>>)
    requires CyclicComponents(g, components) && CoversCycles(g, components)
    ensures components == [] <==> Acyclic(g)
  {
    if components != [] {
      var c := components[0];
      assert c in components;
      if Edge(g, c[0], c[0]) {
        ReachSelf(g, c[0]);
        assert ReachPlus(g, c[0], c[0]);
      } else {
        assert c[0] != c[1] && Reach(g, c[0], c[1]) && Reach(g, c[1], c[0]);
        ReachDistinct(g, c[0], c[1]);
        var x :| Edge(g, c[0], x) && Reach(g, x, c[1]);
        ReachTrans(g, x, c[1], c[0]);
        assert ReachPlus(g, c[0], c[0]);
      }
    }
    forall v | ReachPlus(g, v, v) ensures components != [] {
      var x :| Edge(g, v, x) && Reach(g, x, v);
      ReachEdge(g, v, x);
      assert x == v || Mutual(g, v, x);
    }
  }

  lemma ReportedCorrect(g: Graph<string>, leq: (string, string) -> bool, s: Pass,
                        components: seq<seq<string>>, from: seq<nat>)
    requires TotalPreorder(leq) && PoppedOk(g, s) && Reported(g, leq, s.popped, components, from)
    requires s.Done() == Vertices(g)
    ensures CyclicComponents(g, components) && CoversCycles(g, components)
    ensures components == [] <==> Acyclic(g)
    ensures forall c :: c in components ==> SortedBy(leq, c)
  {
    ReportedComponents(g, leq, s, components, from);
    ReportedCovers(g, leq, s, components, from);
    NoneIffAcyclic(g, components);
  }

  /** Ordering the component list changes neither its members nor their disjointness. */
  lemma FinalOrder(g: Graph<string>, leq: (string, string) -> bool, components: seq<seq<string>>)
    requires TotalPreorder(leq)
    requires CyclicComponents(g, components) && CoversCycles(g, components)
    requires components == [] <==> Acyclic(g)
    requires forall c :: c in components ==> SortedBy(leq, c)
    ensures CycleReport(g, leq, Sort(ComponentOrder(leq), components))
  {
    var r := Sort(ComponentOrder(leq), components);
    OrderIsReportOrder(leq, components);
    DisjointInOrder(leq, components);
    forall u, v | u != v && Mutual(g, u, v) ensures exists c :: c in r && u in c && v in c {
      var c :| c in components && u in c && v in c;
      assert c in r;
    }
    forall u | Edge(g, u, u) ensures exists c :: c in r && u in c {
      var c :| c in components && u in c;
      assert c in r;
    }
  }

  /** The membership set mirrors the stack, and visit numbers grow up the stack. */
  ghost predicate StackOk(stack: seq<string>, onStack: set<string>, index: map<string, nat>) {
    && (forall v :: v in onStack <==> v in stack)
    && onStack <= index.Keys
    && (forall i, j :: 0 <= i < j < |stack| ==> index[stack[i]] < index[stack[j]])
  }

  /** `visits` logs each start of a visit: the index map numbers them in that order. */
  ghost predicate VisitsNumbered(visits: seq<string>, index: map<string, nat>, nextIndex: nat) {
    && |visits| == nextIndex
    && (forall i :: 0 <= i < |visits| ==> visits[i] in index && index[visits[i]] == i)
    && (forall v :: v in index ==> index[v] < nextIndex && visits[index[v]] == v)
  }

  lemma TopRemoved(stack: seq<string>, onStack: set<string>, index: map<string, nat>)
    requires StackOk(stack, onStack, index) && stack != []
    ensures StackOk(stack[..|stack| - 1], onStack - {stack[|stack| - 1]}, index)
    ensures forall v :: v in onStack ==> index[v] <= index[stack[|stack| - 1]]
    ensures forall v :: v in stack[..|stack| - 1] ==> v in onStack && index[v] < index[stack[|stack| - 1]]
  {
    var rest, top := stack[..|stack| - 1], stack[|stack| - 1];
    assert stack == rest + [top];
    forall v | v in rest ensures v != top && index[v] < index[top] {
      var k :| 0 <= k < |rest| && rest[k] == v;
      assert stack[k] == v;
    }
  }

  /** A node numbered next goes on top. */
  lemma TopAdded(stack: seq<string>, onStack: set<string>, visits: seq<string>, index: map<string, nat>, n: nat, node: string)
    requires StackOk(stack, onStack, index) && VisitsNumbered(visits, index, n) && node !in index
    ensures StackOk(stack + [node], onStack + {node}, index[node := n])
    ensures VisitsNumbered(visits + [node], index[node := n], n + 1)
  {
    forall v | v in stack ensures index[v] < n {
      assert v in onStack;
    }
  }

  /** Every low-link in `before` still stands, except `node`'s. */
  ghost predicate LowKept(before: map<string, nat>, after: map<string, nat>, node: string) {
    forall v :: v in before && v != node ==> v in after && after[v] == before[v]
  }

  lemma LowTakenOver(before: map<string, nat>, after: map<string, nat>, node: string, next: string, low: nat)
    requires LowKept(before, after, next) && node in before && next !in before
    ensures node in after && after[node] == before[node]
    ensures LowKept(before, after[node := low], node)
  {
  }

  lemma LowKeptThrough(before: map<string, nat>, mid: map<string, nat>, after: map<string, nat>, node: string, low: nat)
    requires mid == before[node := low] && LowKept(mid, after, node)
    ensures LowKept(before, after, node)
  {
    forall v | v in before && v != node ensures v in after && after[v] == before[v] {
      assert v in mid && mid[v] == before[v];
    }
  }

  class SccPass {
    const graph: Graph<string>
    const leq: (string, string) -> bool

    var nextIndex: nat
    var stack: seq<string>
    var onStack: set<string>
    var indexByNode: map<string, nat>
    var lowLinkByNode: map<string, nat>
    var components: seq<seq<string>>
    ghost var popped: seq<seq<string>>
    ghost var from: seq<nat>
    ghost var visits: seq<string>

    ghost function View(): Pass
      reads this
    {
      Pass(indexByNode, onStack, popped)
    }

    ghost predicate Valid()
      reads this
    {
      && StackOk(stack, onStack, indexByNode)
      && VisitsNumbered(visits, indexByNode, nextIndex)
      && lowLinkByNode.Keys == indexByNode.Keys
      && Reported(graph, leq, popped, components, from)
    }

    constructor (graph: Graph<string>, leq: (string, string) -> bool)
      ensures this.graph == graph && this.leq == leq
      ensures Valid() && Inv(graph, {}, View()) && visits == []
    {
      this.graph, this.leq := graph, leq;
      nextIndex, stack, onStack := 0, [], {};
      indexByNode, lowLinkByNode, components := map[], map[], [];
      popped, from, visits := [], [], [];
    }

    /** The do-while loop: take nodes off the stack until `node` comes off. */
    method PopComponent(node: string) returns (ok: bool, component: seq<string>)
      requires StackOk(stack, onStack, indexByNode) && node in onStack
      modifies `stack, `onStack
      ensures !ok ==> "" in old(onStack)
      ensures ok ==> StackOk(stack, onStack, indexByNode) && onStack == old(onStack) - set v | v in component
      ensures ok ==> ListsUpper(old(View()), node, component) && "" !in component
      ensures ok ==> component != [] && component[|component| - 1] == node
    {
      component := [];
      var current: Option<string> := None;
      while current != Some(node)
        invariant StackOk(stack, onStack, indexByNode) && onStack <= old(onStack)
        invariant forall v :: v in component <==> v in old(onStack) && v !in onStack
        invariant forall u, v :: u in onStack && v in component ==> indexByNode[u] < indexByNode[v]
        invariant forall v :: v in component ==> indexByNode[v] >= indexByNode[node]
        invariant Distinct(component) && "" !in component
        invariant if current == Some(node) then component != [] && component[|component| - 1] == node
                  else node in onStack
        decreases |stack|
      {
        current := if |stack| == 0 then None else Some(stack[|stack| - 1]);
        if current == None || current == Some("") {
          return false, component;
        }
        TopRemoved(stack, onStack, indexByNode);
        stack := stack[..|stack| - 1];
        onStack := onStack - {current.value};
        component := component + [current.value];
      }
      return true, component;
    }

    /** Number the node and put it on the stack. */
    method Number(node: string)
      requires Valid() && node !in indexByNode
      modifies `indexByNode, `lowLinkByNode, `visits, `nextIndex, `stack, `onStack
      ensures Valid() && View() == Push(old(View()), node, old(nextIndex))
      ensures lowLinkByNode == old(lowLinkByNode)[node := old(nextIndex)]
    {
      TopAdded(stack, onStack, visits, indexByNode, nextIndex, node);
      indexByNode := indexByNode[node := nextIndex];
      lowLinkByNode := lowLinkByNode[node := nextIndex];
      visits := visits + [node];
      nextIndex := nextIndex + 1;
      stack := stack + [node];
      onStack := onStack + {node};
    }

    /** The opening lines of a visit. */
    method Enter(node: string, ghost calls: set<string>)
      requires Valid() && Inv(graph, calls, View())
      requires node in Vertices(graph) && node !in indexByNode
      requires forall x :: x in calls ==> Reach(graph, x, node)
      modifies this
      ensures Valid() && View() == Push(old(View()), node, old(nextIndex))
      ensures Inv(graph, calls + {node}, View())
      ensures Looping(graph, View(), node, 0, old(nextIndex))
      ensures lowLinkByNode == old(lowLinkByNode)[node := old(nextIndex)]
    {
      PushKeeps(graph, calls, View(), node, nextIndex);
      LoopStart(graph, View(), node, nextIndex);
      Number(node);
    }

    /** `lowLinkByNode.set(node, low)` */
    method SetLow(node: string, low: nat)
      requires Valid() && node in lowLinkByNode
      modifies `lowLinkByNode
      ensures Valid() && lowLinkByNode == old(lowLinkByNode)[node := low]
    {
      lowLinkByNode := lowLinkByNode[node := low];
    }

    /** The last lines of the script's visit: sort and record a cyclic component. */
    method Record(node: string, component: seq<string>)
      requires Reported(graph, leq, popped, components, from)
      requires component != [] && component[|component| - 1] == node
      modifies `components, `popped, `from
      ensures popped == old(popped) + [component] && Reported(graph, leq, popped, components, from)
    {
      ReportedNext(graph, leq, popped, components, from, component);
      popped := popped + [component];
      if |component| > 1 || Edge(graph, node, node) {
        components := components + [Sort(leq, component)];
        from := from + [|popped| - 1];
      }
    }

    /** Pop the component of `node` and record it. */
    method PopAndRecord(node: string) returns (ok: bool, component: seq<string>)
      requires Valid() && node in onStack
      modifies `stack, `onStack, `components, `popped, `from
      ensures !ok ==> "" in old(onStack)
      ensures ok ==> Valid() && View() == Pop(old(View()), component)
      ensures ok ==> ListsUpper(old(View()), node, component) && "" !in component
    {
      ok, component := PopComponent(node);
      if ok {
        Record(node, component);
      }
    }

    /** The last lines of a visit that ends with its component. */
    method PopOff(node: string, ghost calls: set<string>) returns (ok: bool)
      requires Valid() && ReadyToPop(graph, calls, View(), node) && node in onStack
      requires lowLinkByNode[node] == indexByNode[node]
      modifies `stack, `onStack, `components, `popped, `from
      ensures !ok ==> "" in Vertices(graph)
      ensures ok ==> Valid() && Inv(graph, calls, View())
      ensures ok ==> Returned(graph, View(), node, indexByNode[node], lowLinkByNode[node])
      ensures ok ==> LowerKept(old(View()), View(), node)
    {
      ghost var s := View();
      var component;
      ok, component := PopAndRecord(node);
      if ok {
        PopKeeps(graph, calls, s, node, component);
        PopReturned(graph, s, node, component);
      }
    }

    /** Keep the node on the stack, or pop its component. */
    method Leave(node: string, ghost calls: set<string>) returns (ok: bool)
      requires Valid() && Inv(graph, calls + {node}, View()) && node !in calls && node in onStack
      requires forall x :: x in calls ==> indexByNode[x] < indexByNode[node] && Reach(graph, x, node)
      requires Looping(graph, View(), node, |Successors(graph, node)|, lowLinkByNode[node])
      modifies `stack, `onStack, `components, `popped, `from
      ensures !ok ==> "" in Vertices(graph)
      ensures ok ==> Valid() && Inv(graph, calls, View())
      ensures ok ==> Returned(graph, View(), node, indexByNode[node], lowLinkByNode[node])
      ensures ok ==> LowerKept(old(View()), View(), node)
    {
      if lowLinkByNode[node] != indexByNode[node] {
        Stays(graph, calls, View(), node, lowLinkByNode[node]);
        return true;
      }
      MayPop(graph, calls, View(), node);
      ok := PopOff(node, calls);
    }

    /** The first branch: visit a new node and take over its low-link. */
    method VisitImport(node: string, next: string, ghost calls: set<string>, ghost k: nat) returns (ok: bool)
      requires Valid() && Inv(graph, calls + {node}, View())
      requires Looping(graph, View(), node, k, lowLinkByNode[node])
      requires k < |Successors(graph, node)| && next == Successors(graph, node)[k] && next !in indexByNode
      requires forall x :: x in calls ==> Reach(graph, x, node)
      modifies this
      ensures !ok ==> "" in Vertices(graph)
      ensures ok ==> Valid() && Inv(graph, calls + {node}, View())
      ensures ok ==> Extends(old(View()), View(), old(nextIndex)) && old(nextIndex) <= nextIndex
      ensures ok ==> Looping(graph, View(), node, k + 1, lowLinkByNode[node])
      ensures ok ==> LowKept(old(lowLinkByNode), lowLinkByNode, node)
      decreases Vertices(graph) - indexByNode.Keys, 1
    {
      ghost var s, low0, n := View(), lowLinkByNode, nextIndex;
      NextReached(graph, calls, node, next, k);
      ok := Visit(next, calls + {node});
      if ok {
        ghost var t := View();
        LoopReturned(graph, s, t, node, k, low0[node], n, lowLinkByNode[next]);
        LowTakenOver(low0, lowLinkByNode, node, next, Min(low0[node], lowLinkByNode[next]));
        SetLow(node, Min(lowLinkByNode[node], lowLinkByNode[next]));
        assert View() == t;
      }
    }

    /** One round of the import loop: the script's three branches. */
    method Scan(node: string, next: string, ghost calls: set<string>, ghost k: nat) returns (ok: bool)
      requires Valid() && Inv(graph, calls + {node}, View())
      requires Looping(graph, View(), node, k, lowLinkByNode[node])
      requires k < |Successors(graph, node)| && next == Successors(graph, node)[k]
      requires forall x :: x in calls ==> Reach(graph, x, node)
      modifies this
      ensures !ok ==> "" in Vertices(graph)
      ensures ok ==> Valid() && Inv(graph, calls + {node}, View())
      ensures ok ==> Extends(old(View()), View(), old(nextIndex)) && old(nextIndex) <= nextIndex
      ensures ok ==> Looping(graph, View(), node, k + 1, lowLinkByNode[node])
      ensures ok ==> LowKept(old(lowLinkByNode), lowLinkByNode, node)
      decreases Vertices(graph) - indexByNode.Keys, 2
    {
      ghost var s, low := View(), lowLinkByNode[node];
      if next !in indexByNode {
        ok := VisitImport(node, next, calls, k);
      } else if next in onStack {
        LoopOnStack(graph, s, node, k, low);
        SetLow(node, Min(lowLinkByNode[node], indexByNode[next]));
        assert View() == s;
        ok := true;
      } else {
        LoopOffStack(graph, s, node, k, low);
        ok := true;
      }
    }

    /** The import loop. */
    method ScanAll(node: string, ghost calls: set<string>) returns (ok: bool)
      requires Valid() && Inv(graph, calls + {node}, View())
      requires Looping(graph, View(), node, 0, lowLinkByNode[node])
      requires forall x :: x in calls ==> Reach(graph, x, node)
      modifies this
      ensures !ok ==> "" in Vertices(graph)
      ensures ok ==> Valid() && Inv(graph, calls + {node}, View())
      ensures ok ==> Extends(old(View()), View(), old(nextIndex)) && old(nextIndex) <= nextIndex
      ensures ok ==> Looping(graph, View(), node, |Successors(graph, node)|, lowLinkByNode[node])
      ensures ok ==> LowKept(old(lowLinkByNode), lowLinkByNode, node)
      decreases Vertices(graph) - indexByNode.Keys, 3
    {
      var imports := Successors(graph, node);
      for k := 0 to |imports|
        invariant Valid() && Inv(graph, calls + {node}, View())
        invariant Extends(old(View()), View(), old(nextIndex)) && old(nextIndex) <= nextIndex
        invariant Looping(graph, View(), node, k, lowLinkByNode[node])
        invariant LowKept(old(lowLinkByNode), lowLinkByNode, node)
      {
        ok := Scan(node, imports[k], calls, k);
        if !ok {
          return false;
        }
      }
      return true;
    }

    method Visit(node: string, ghost calls: set<string>) returns (ok: bool)
      requires Valid() && Inv(graph, calls, View())
      requires node in Vertices(graph) && node !in indexByNode
      requires forall x :: x in calls ==> Reach(graph, x, node)
      modifies this
      ensures !ok ==> "" in Vertices(graph)
      ensures ok ==> Valid() && Inv(graph, calls, View())
      ensures ok ==> Extends(old(View()), View(), old(nextIndex)) && old(nextIndex) <= nextIndex
      ensures ok ==> node in indexByNode && Returned(graph, View(), node, old(nextIndex), lowLinkByNode[node])
      ensures ok ==> LowKept(old(lowLinkByNode), lowLinkByNode, node)
      decreases Vertices(graph) - indexByNode.Keys, 0
    {
      ghost var s0, n, low0 := View(), nextIndex, lowLinkByNode;
      Enter(node, calls);
      ok := ScanAll(node, calls);
      if ok {
        ghost var s := View();
        LowKeptThrough(low0, low0[node := n], lowLinkByNode, node, n);
        LoopEnds(graph, calls, s0, node, n, s);
        ok := Leave(node, calls);
        if ok {
          VisitExtends(s0, node, n, s, View());
        }
      }
    }

    /** The whole pass.  Map iteration order is left open: any key not yet numbered may be next. */
    method Collect() returns (r: Option<seq<seq<string>>>)
      requires TotalPreorder(leq)
      requires Valid() && Inv(graph, {}, View())
      modifies this
      ensures r.None? <==> "" in Vertices(graph)
      ensures r.Some? ==> CycleReport(graph, leq, r.value)
      ensures r.Some? ==> VisitsNumbered(visits, indexByNode, nextIndex) && indexByNode.Keys == Vertices(graph)
    {
      var rest := graph.Keys;
      while rest != {}
        invariant Valid() && Inv(graph, {}, View())
        invariant graph.Keys - rest <= indexByNode.Keys
        decreases rest
      {
        var node :| node in rest;
        rest := rest - {node};
        if node !in indexByNode {
          ghost var before := indexByNode;
          var ok := Visit(node, {});
          if !ok {
            return None;
          }
          assert before.Keys <= indexByNode.Keys;
        }
      }
      AllDone(graph, View());
      ReportedCorrect(graph, leq, View(), components, from);
      FinalOrder(graph, leq, components);
      return Some(Sort(ComponentOrder(leq), components));
    }
  }
}
