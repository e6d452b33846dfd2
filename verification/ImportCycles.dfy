/** The invariant behind the strongly-connected-components pass of the import-cycle
    check (scripts/check-import-cycles.ts), and one lemma for each step of the pass. */
module ImportCycles {
  import opened Digraph
  import opened StableSort

  // ---------------------------------------------------------------- components

  ghost predicate IsScc(g: Graph<string>, c: seq<string>) {
    && c != []
    && Distinct(c)
    && (forall u, v {:trigger Reach(g, u, v)} :: u in c && v in c ==> Reach(g, u, v))
    && (forall u, v {:trigger Mutual(g, u, v)} :: u in c && Mutual(g, u, v) ==> v in c)
  }

  ghost predicate Disjoint(c: seq<string>, d: seq<string>) {
    forall v :: v in c ==> v !in d
  }

  // ---------------------------------------------------------------- invariant

  /** The pass without its low-links: visit numbers, the nodes on the stack, and every
      component taken off the stack so far. */
  datatype Pass = Pass(index: map<string, nat>, on: set<string>, popped: seq<seq<string>>)
  {
    ghost function Done(): set<string> {
      index.Keys - on
    }
  }

  ghost predicate Nested(g: Graph<string>, calls: set<string>, s: Pass) {
    calls <= s.on <= s.index.Keys <= Vertices(g)
  }

  /** `x` reaches some node on the call stack that is not above it. */
  ghost predicate Anchored(g: Graph<string>, calls: set<string>, s: Pass, x: string)
    requires calls <= s.index.Keys && x in s.index
  {
    exists y :: y in calls && s.index[y] <= s.index[x] && Reach(g, x, y)
  }

  ghost predicate AllAnchored(g: Graph<string>, calls: set<string>, s: Pass)
    requires Nested(g, calls, s)
  {
    forall x {:trigger Anchored(g, calls, s, x)} :: x in s.on ==> Anchored(g, calls, s, x)
  }

  /** An active node reaches everything above it on the stack. */
  ghost predicate CallsReachUp(g: Graph<string>, calls: set<string>, s: Pass)
    requires Nested(g, calls, s)
  {
    forall x, y {:trigger Reach(g, x, y)} ::
      x in calls && y in s.on && s.index[x] <= s.index[y] ==> Reach(g, x, y)
  }

  /** All imports of a node whose visit is over have been visited. */
  ghost predicate FinishedSeen(g: Graph<string>, calls: set<string>, s: Pass) {
    forall x, w {:trigger Edge(g, x, w)} :: x in s.index && x !in calls && Edge(g, x, w) ==> w in s.index
  }

  /** The popped components partition the nodes off the stack. */
  ghost predicate PoppedOk(g: Graph<string>, s: Pass) {
    && (forall c :: c in s.popped ==> IsScc(g, c))
    && (forall v {:trigger v in s.Done()} :: v in s.Done() <==> exists c :: c in s.popped && v in c)
    && (forall i, j :: 0 <= i < j < |s.popped| ==> Disjoint(s.popped[i], s.popped[j]))
    && "" !in s.Done()
  }

  /** The invariant of the whole pass; `calls` are the nodes whose visit is active. */
  ghost predicate Inv(g: Graph<string>, calls: set<string>, s: Pass) {
    && Nested(g, calls, s)
    && AllAnchored(g, calls, s)
    && CallsReachUp(g, calls, s)
    && FinishedSeen(g, calls, s)
    && Closed(g, s.Done())
    && PoppedOk(g, s)
  }

  /** What a visit that starts with number `n` may change. */
  ghost predicate Extends(s: Pass, t: Pass, n: nat) {
    && (forall v :: v in s.index ==> v in t.index && t.index[v] == s.index[v] && (v in t.on <==> v in s.on))
    && (forall v :: v in t.index && v !in s.index ==> t.index[v] >= n)
  }

  // ---------------------------------------------------------------- entering a node

  function Push(s: Pass, node: string, n: nat): Pass {
    s.(index := s.index[node := n], on := s.on + {node})
  }

  lemma PushAnchored(g: Graph<string>, calls: set<string>, s: Pass, node: string, n: nat)
    requires Nested(g, calls, s) && AllAnchored(g, calls, s)
    requires node in Vertices(g) && node !in s.index
    ensures Nested(g, calls + {node}, Push(s, node, n))
    ensures AllAnchored(g, calls + {node}, Push(s, node, n))
  {
    var t := Push(s, node, n);
    forall x | x in t.on ensures Anchored(g, calls + {node}, t, x) {
      if x == node {
        ReachSelf(g, node);
      } else {
        assert Anchored(g, calls, s, x);
      }
    }
  }

  lemma PushReachUp(g: Graph<string>, calls: set<string>, s: Pass, node: string, n: nat)
    requires Nested(g, calls, s) && CallsReachUp(g, calls, s)
    requires node in Vertices(g) && node !in s.index
    requires forall v :: v in s.index ==> s.index[v] < n
    requires forall x :: x in calls ==> Reach(g, x, node)
    ensures Nested(g, calls + {node}, Push(s, node, n))
    ensures CallsReachUp(g, calls + {node}, Push(s, node, n))
  {
    ReachSelf(g, node);
  }

  lemma PushKeeps(g: Graph<string>, calls: set<string>, s: Pass, node: string, n: nat)
    requires Inv(g, calls, s)
    requires node in Vertices(g) && node !in s.index
    requires forall v :: v in s.index ==> s.index[v] < n
    requires forall x :: x in calls ==> Reach(g, x, node)
    ensures Inv(g, calls + {node}, Push(s, node, n))
  {
    assert Push(s, node, n).Done() == s.Done();
    PushAnchored(g, calls, s, node, n);
    PushReachUp(g, calls, s, node, n);
  }

  // ---------------------------------------------------------------- leaving a node on the stack

  lemma LeaveAnchored(g: Graph<string>, calls: set<string>, s: Pass, node: string, low: string, x: string)
    requires Nested(g, calls + {node}, s) && AllAnchored(g, calls + {node}, s)
    requires low in s.on && s.index[low] < s.index[node] && Reach(g, node, low)
    requires x in s.on
    ensures Anchored(g, calls, s, x)
  {
    assert Anchored(g, calls + {node}, s, x);
    var y :| y in calls + {node} && s.index[y] <= s.index[x] && Reach(g, x, y);
    if y == node {
      assert Anchored(g, calls + {node}, s, low);
      var z :| z in calls + {node} && s.index[z] <= s.index[low] && Reach(g, low, z);
      ReachTrans(g, x, node, low);
      ReachTrans(g, x, low, z);
    }
  }

  lemma LeaveAllAnchored(g: Graph<string>, calls: set<string>, s: Pass, node: string, low: string)
    requires Nested(g, calls + {node}, s) && AllAnchored(g, calls + {node}, s)
    requires low in s.on && s.index[low] < s.index[node] && Reach(g, node, low)
    ensures AllAnchored(g, calls, s)
  {
    forall x | x in s.on ensures Anchored(g, calls, s, x) {
      LeaveAnchored(g, calls, s, node, low, x);
    }
  }

  /** A node that reaches something lower on the stack stays there. */
  lemma LeaveKeeps(g: Graph<string>, calls: set<string>, s: Pass, node: string, low: string)
    requires Inv(g, calls + {node}, s) && node !in calls
    requires forall w :: Edge(g, node, w) ==> w in s.index
    requires low in s.on && s.index[low] < s.index[node] && Reach(g, node, low)
    ensures Inv(g, calls, s)
  {
    LeaveAllAnchored(g, calls, s, node, low);
  }

  // ---------------------------------------------------------------- popping a component

  /** The nodes on the stack from `node` upwards. */
  ghost function Upper(s: Pass, node: string): set<string>
    requires s.on <= s.index.Keys && node in s.index
  {
    set v | v in s.on && s.index[v] >= s.index[node]
  }

  /** The state in which the script starts to pop: every import of `node` has been
      looked at, and nothing from it upwards imports anything lower on the stack. */
  ghost predicate ReadyToPop(g: Graph<string>, calls: set<string>, s: Pass, node: string) {
    && node !in calls
    && Inv(g, calls + {node}, s)
    && (forall x :: x in calls ==> s.index[x] < s.index[node] && Reach(g, x, node))
    && (forall w :: Edge(g, node, w) ==> w in s.index)
    && (forall a, b {:trigger Edge(g, a, b)} :: a in Upper(s, node) && b in s.on && Edge(g, a, b) ==> b in Upper(s, node))
  }

  lemma UpperMutual(g: Graph<string>, calls: set<string>, s: Pass, node: string, x: string)
    requires ReadyToPop(g, calls, s, node) && x in Upper(s, node)
    ensures Mutual(g, x, node) && x !in calls
  {
    assert Anchored(g, calls + {node}, s, x);
    var y :| y in calls + {node} && s.index[y] <= s.index[x] && Reach(g, x, y);
    ReachSelf(g, node);
    ReachTrans(g, x, y, node);
  }

  lemma UpperClosed(g: Graph<string>, calls: set<string>, s: Pass, node: string)
    requires ReadyToPop(g, calls, s, node)
    ensures Closed(g, s.Done() + Upper(s, node))
  {
    forall v, w | v in s.Done() + Upper(s, node) && Edge(g, v, w)
      ensures w in s.Done() + Upper(s, node)
    {
      if v in Upper(s, node) {
        UpperMutual(g, calls, s, node, v);
        assert w in s.index;
      }
    }
  }

  lemma UpperMaximal(g: Graph<string>, calls: set<string>, s: Pass, node: string, u: string, v: string)
    requires ReadyToPop(g, calls, s, node)
    requires u in Upper(s, node) && Mutual(g, u, v)
    ensures v in Upper(s, node)
  {
    UpperClosed(g, calls, s, node);
    ClosedReach(g, s.Done() + Upper(s, node), u, v);
    if v in s.Done() {
      ClosedReach(g, s.Done(), v, u);
      assert false;
    }
  }

  lemma UpperConnected(g: Graph<string>, calls: set<string>, s: Pass, node: string, u: string, v: string)
    requires ReadyToPop(g, calls, s, node)
    requires u in Upper(s, node) && v in Upper(s, node)
    ensures Reach(g, u, v)
  {
    UpperMutual(g, calls, s, node, u);
    UpperMutual(g, calls, s, node, v);
    ReachTrans(g, u, node, v);
  }

  /** `c` lists the stack from `node` upwards. */
  ghost predicate ListsUpper(s: Pass, node: string, c: seq<string>)
    requires s.on <= s.index.Keys && node in s.index
  {
    Distinct(c) && forall v :: v in c <==> v in Upper(s, node)
  }

  lemma UpperIsScc(g: Graph<string>, calls: set<string>, s: Pass, node: string, c: seq<string>)
    requires ReadyToPop(g, calls, s, node) && ListsUpper(s, node, c)
    ensures IsScc(g, c)
  {
    assert node in c;
    forall u, v | u in c && v in c ensures Reach(g, u, v) {
      UpperConnected(g, calls, s, node, u, v);
    }
    forall u, v | u in c && Mutual(g, u, v) ensures v in c {
      UpperMaximal(g, calls, s, node, u, v);
    }
  }

  function Pop(s: Pass, c: seq<string>): Pass {
    s.(on := s.on - (set v | v in c), popped := s.popped + [c])
  }

  lemma PopPopped(g: Graph<string>, s: Pass, c: seq<string>)
    requires PoppedOk(g, s) && s.on <= s.index.Keys
    requires IsScc(g, c) && "" !in c && forall v :: v in c ==> v in s.on
    ensures PoppedOk(g, Pop(s, c))
    ensures Pop(s, c).Done() == s.Done() + set v | v in c
  {
    var t := Pop(s, c);
    forall v ensures v in t.Done() <==> exists d :: d in t.popped && v in d {
      assert t.popped[|s.popped|] == c;
      if v in s.Done() {
        var d :| d in s.popped && v in d;
        assert d in t.popped;
      }
    }
    forall i, j | 0 <= i < j < |t.popped| ensures Disjoint(t.popped[i], t.popped[j]) {
      if j == |s.popped| {
        assert t.popped[i] in s.popped;
        assert forall v :: v in t.popped[i] ==> v in s.Done();
      }
    }
  }

  lemma PopAnchored(g: Graph<string>, calls: set<string>, s: Pass, node: string, x: string)
    requires Nested(g, calls + {node}, s) && AllAnchored(g, calls + {node}, s)
    requires x in s.on && x !in Upper(s, node)
    ensures Anchored(g, calls, s, x)
  {
    assert Anchored(g, calls + {node}, s, x);
    var y :| y in calls + {node} && s.index[y] <= s.index[x] && Reach(g, x, y);
    assert y in calls;
  }

  lemma PopKeeps(g: Graph<string>, calls: set<string>, s: Pass, node: string, c: seq<string>)
    requires ReadyToPop(g, calls, s, node) && ListsUpper(s, node, c) && "" !in c
    ensures Inv(g, calls, Pop(s, c))
  {
    var t := Pop(s, c);
    UpperIsScc(g, calls, s, node, c);
    UpperClosed(g, calls, s, node);
    PopPopped(g, s, c);
    assert t.Done() == s.Done() + Upper(s, node);
    forall x | x in t.on ensures Anchored(g, calls, t, x) {
      PopAnchored(g, calls, s, node, x);
      assert Anchored(g, calls, s, x);
    }
  }

  // ---------------------------------------------------------------- low-links

  /** The low-link value is the index of a node on the stack that `node` reaches. */
  ghost predicate LowWitness(g: Graph<string>, s: Pass, node: string, low: nat) {
    exists y :: y in s.on && y in s.index && s.index[y] == low && Reach(g, node, y)
  }

  /** No node numbered `from` or more imports a stack node below `n` that is below `low`. */
  ghost predicate LowBound(g: Graph<string>, s: Pass, n: nat, from: nat, low: nat)
    requires s.on <= s.index.Keys
  {
    forall a, b {:trigger Edge(g, a, b)} ::
      a in s.on && b in s.on && s.index[a] >= from && s.index[b] < n && Edge(g, a, b) ==> low <= s.index[b]
  }

  /** What the visit of `node`, number `n`, hands back to the visit that called it. */
  ghost predicate Returned(g: Graph<string>, s: Pass, node: string, n: nat, low: nat)
    requires s.on <= s.index.Keys
  {
    && node in s.index && s.index[node] == n
    && (if node in s.on then low < n && LowWitness(g, s, node, low) else low == n)
    && LowBound(g, s, n, n, low)
  }

  /** The facts about the import loop in the visit of `node` after its first `k` imports. */
  ghost predicate Looping(g: Graph<string>, s: Pass, node: string, k: nat, low: nat)
    requires s.on <= s.index.Keys
  {
    && node in s.on
    && k <= |Successors(g, node)|
    && (forall m :: 0 <= m < k ==> Successors(g, node)[m] in s.index)
    && low <= s.index[node]
    && LowWitness(g, s, node, low)
    && LowBound(g, s, s.index[node], s.index[node] + 1, low)
    && (forall m :: 0 <= m < k ==> SeenBound(s, node, Successors(g, node)[m], low))
  }

  ghost predicate SeenBound(s: Pass, node: string, next: string, low: nat)
    requires s.on <= s.index.Keys && node in s.index
  {
    next in s.on && s.index[next] < s.index[node] ==> low <= s.index[next]
  }

  function Min(a: nat, b: nat): nat {
    if a <= b then a else b
  }

  lemma LoopStart(g: Graph<string>, s: Pass, node: string, n: nat)
    requires s.on <= s.index.Keys && node !in s.index
    requires forall v :: v in s.index ==> s.index[v] < n
    ensures Looping(g, Push(s, node, n), node, 0, n)
  {
    ReachSelf(g, node);
  }

  /** An import that is on the stack lowers the low-link to its index. */
  lemma LoopOnStack(g: Graph<string>, s: Pass, node: string, k: nat, low: nat)
    requires s.on <= s.index.Keys && Looping(g, s, node, k, low)
    requires k < |Successors(g, node)| && Successors(g, node)[k] in s.on
    ensures Looping(g, s, node, k + 1, Min(low, s.index[Successors(g, node)[k]]))
  {
    assert Edge(g, node, Successors(g, node)[k]);
    ReachEdge(g, node, Successors(g, node)[k]);
  }

  /** An import that is finished and off the stack changes nothing. */
  lemma LoopOffStack(g: Graph<string>, s: Pass, node: string, k: nat, low: nat)
    requires s.on <= s.index.Keys && Looping(g, s, node, k, low)
    requires k < |Successors(g, node)|
    requires Successors(g, node)[k] in s.index && Successors(g, node)[k] !in s.on
    ensures Looping(g, s, node, k + 1, low)
  {
  }

  lemma ReturnedWitness(g: Graph<string>, s: Pass, t: Pass, node: string, low: nat, next: string, n: nat, nextLow: nat)
    requires s.on <= s.index.Keys && t.on <= t.index.Keys && Extends(s, t, n)
    requires node in s.on && s.index[node] < n && low <= s.index[node] && LowWitness(g, s, node, low)
    requires Edge(g, node, next) && Returned(g, t, next, n, nextLow)
    ensures LowWitness(g, t, node, Min(low, nextLow))
  {
    if nextLow < low {
      var y :| y in t.on && t.index[y] == nextLow && Reach(g, next, y);
      ReachEdge(g, node, next);
      ReachTrans(g, node, next, y);
    } else {
      var y :| y in s.on && s.index[y] == low && Reach(g, node, y);
      assert y in t.on && t.index[y] == low;
    }
  }

  lemma ReturnedBound(g: Graph<string>, s: Pass, t: Pass, i: nat, low: nat, next: string, n: nat, nextLow: nat)
    requires s.on <= s.index.Keys && t.on <= t.index.Keys && Extends(s, t, n) && i < n
    requires LowBound(g, s, i, i + 1, low) && Returned(g, t, next, n, nextLow)
    ensures LowBound(g, t, i, i + 1, Min(low, nextLow))
  {
  }

  /** A recursive visit, number `n`, lowers the low-link to the one it returned. */
  lemma LoopReturned(g: Graph<string>, s: Pass, t: Pass, node: string, k: nat, low: nat, n: nat, nextLow: nat)
    requires s.on <= s.index.Keys && t.on <= t.index.Keys && Extends(s, t, n)
    requires Looping(g, s, node, k, low) && k < |Successors(g, node)|
    requires forall v :: v in s.index ==> s.index[v] < n
    requires Returned(g, t, Successors(g, node)[k], n, nextLow)
    ensures Looping(g, t, node, k + 1, Min(low, nextLow))
  {
    var next := Successors(g, node)[k];
    assert Edge(g, node, next);
    ReturnedWitness(g, s, t, node, low, next, n, nextLow);
    ReturnedBound(g, s, t, s.index[node], low, next, n, nextLow);
  }

  lemma LoopDone(g: Graph<string>, s: Pass, node: string, low: nat)
    requires s.on <= s.index.Keys && node in s.on
    requires forall u, v :: u in s.index && v in s.index && s.index[u] == s.index[v] ==> u == v
    requires Looping(g, s, node, |Successors(g, node)|, low)
    ensures forall w :: Edge(g, node, w) ==> w in s.index
    ensures forall a, b :: a in Upper(s, node) && b in s.on && s.index[b] < s.index[node] && Edge(g, a, b)
              ==> low <= s.index[b]
  {
    forall a, b | a in Upper(s, node) && b in s.on && s.index[b] < s.index[node] && Edge(g, a, b)
      ensures low <= s.index[b]
    {
      if a == node {
        var m :| 0 <= m < |Successors(g, node)| && Successors(g, node)[m] == b;
        assert SeenBound(s, node, Successors(g, node)[m], low);
      }
    }
  }

  /** The end of a visit that keeps `node` on the stack. */
  lemma Stays(g: Graph<string>, calls: set<string>, s: Pass, node: string, low: nat)
    requires Inv(g, calls + {node}, s) && node !in calls && node in s.on
    requires forall u, v :: u in s.index && v in s.index && s.index[u] == s.index[v] ==> u == v
    requires Looping(g, s, node, |Successors(g, node)|, low) && low != s.index[node]
    ensures Inv(g, calls, s)
    ensures Returned(g, s, node, s.index[node], low)
  {
    LoopDone(g, s, node, low);
    var y :| y in s.on && y in s.index && s.index[y] == low && Reach(g, node, y);
    LeaveKeeps(g, calls, s, node, y);
  }

  /** The end of a visit that pops `node`'s component. */
  lemma MayPop(g: Graph<string>, calls: set<string>, s: Pass, node: string)
    requires Inv(g, calls + {node}, s) && node !in calls && node in s.on
    requires forall x :: x in calls ==> s.index[x] < s.index[node] && Reach(g, x, node)
    requires forall u, v :: u in s.index && v in s.index && s.index[u] == s.index[v] ==> u == v
    requires Looping(g, s, node, |Successors(g, node)|, s.index[node])
    ensures ReadyToPop(g, calls, s, node)
  {
    LoopDone(g, s, node, s.index[node]);
  }

  /** Numbers stay, and so does the stack below `node`. */
  ghost predicate LowerKept(s: Pass, t: Pass, node: string)
    requires node in s.index
  {
    t.index == s.index && forall v :: v in s.index && s.index[v] < s.index[node] ==> (v in t.on <==> v in s.on)
  }

  /** The state after popping: the visit returns its own number as its low-link. */
  lemma PopReturned(g: Graph<string>, s: Pass, node: string, c: seq<string>)
    requires s.on <= s.index.Keys && node in s.on && ListsUpper(s, node, c)
    ensures Returned(g, Pop(s, c), node, s.index[node], s.index[node])
    ensures LowerKept(s, Pop(s, c), node)
  {
  }

  /** From the start of a visit, number `n`, to the end of its import loop. */
  lemma LoopEnds(g: Graph<string>, calls: set<string>, s0: Pass, node: string, n: nat, s: Pass)
    requires Nested(g, calls, s0) && node !in s0.index
    requires forall v :: v in s0.index ==> s0.index[v] < n
    requires Extends(Push(s0, node, n), s, n + 1)
    ensures node !in calls && node in s.on && node in s.index && s.index[node] == n
    ensures forall x :: x in calls ==> x in s.index && s.index[x] < n
  {
  }

  /** From the start of a visit to its end. */
  lemma VisitExtends(s0: Pass, node: string, n: nat, s: Pass, t: Pass)
    requires node !in s0.index && forall v :: v in s0.index ==> s0.index[v] < n
    requires Extends(Push(s0, node, n), s, n + 1)
    requires node in s.index && s.index[node] == n && LowerKept(s, t, node)
    ensures Extends(s0, t, n)
  {
  }
}
