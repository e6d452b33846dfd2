/** Finite directed graphs given by successor lists, and reachability in them. */
module Digraph {

  type Graph<V> = map<V, seq<V>>

  /** `graph.get(v) ?? []` */
  function Successors<V>(g: Graph<V>, v: V): seq<V> {
    if v in g then g[v] else []
  }

  /** Every node the graph names, as a key or as a successor. */
  function Vertices<V>(g: Graph<V>): set<V> {
    g.Keys + set v, w | v in g.Keys && w in g[v] :: w
  }

  predicate Edge<V(==)>(g: Graph<V>, v: V, w: V) {
    w in Successors(g, v)
  }

  ghost predicate IsPath<V>(g: Graph<V>, p: seq<V>) {
    |p| > 0 && forall i, j :: 0 <= i < j < |p| && j == i + 1 ==> Edge(g, p[i], p[j])
  }

  ghost predicate Joins<V>(g: Graph<V>, p: seq<V>, v: V, w: V) {
    IsPath(g, p) && p[0] == v && p[|p| - 1] == w
  }

  ghost predicate Reach<V(!new)>(g: Graph<V>, v: V, w: V) {
    exists p :: Joins(g, p, v, w)
  }

  /** `v` reaches `w` along at least one edge. */
  ghost predicate ReachPlus<V(!new)>(g: Graph<V>, v: V, w: V) {
    exists x :: Edge(g, v, x) && Reach(g, x, w)
  }

  ghost predicate Mutual<V(!new)>(g: Graph<V>, v: V, w: V) {
    Reach(g, v, w) && Reach(g, w, v)
  }

  ghost predicate Acyclic<V(!new)>(g: Graph<V>) {
    forall v :: !ReachPlus(g, v, v)
  }

  ghost predicate Closed<V(!new)>(g: Graph<V>, s: set<V>) {
    forall v, w {:trigger Edge(g, v, w)} :: v in s && Edge(g, v, w) ==> w in s
  }

  lemma ReachSelf<V(!new)>(g: Graph<V>, v: V)
    ensures Reach(g, v, v)
  {
    assert Joins(g, [v], v, v);
  }

  lemma ReachTrans<V(!new)>(g: Graph<V>, u: V, v: V, w: V)
    requires Reach(g, u, v) && Reach(g, v, w)
    ensures Reach(g, u, w)
  {
    var p :| Joins(g, p, u, v);
    var q :| Joins(g, q, v, w);
    var r := p + q[1..];
    forall i, j | 0 <= i < j < |r| && j == i + 1 ensures Edge(g, r[i], r[j]) {
      if i >= |p| - 1 {
        assert r[i] == q[i - (|p| - 1)];
        assert r[j] == q[j - (|p| - 1)];
      }
    }
    assert Joins(g, r, u, w);
  }

  lemma ReachEdge<V(!new)>(g: Graph<V>, v: V, w: V)
    requires Edge(g, v, w)
    ensures Reach(g, v, w)
  {
    assert Joins(g, [v, w], v, w);
  }

  lemma PathTail<V>(g: Graph<V>, p: seq<V>)
    requires IsPath(g, p) && |p| > 1
    ensures IsPath(g, p[1..])
  {
    var q := p[1..];
    forall i, j | 0 <= i < j < |q| && j == i + 1 ensures Edge(g, q[i], q[j]) {
      assert q[i] == p[i + 1] && q[j] == p[j + 1];
    }
  }

  lemma {:induction false} ClosedPath<V(!new)>(g: Graph<V>, s: set<V>, p: seq<V>)
    requires Closed(g, s) && IsPath(g, p) && p[0] in s
    ensures p[|p| - 1] in s
  {
    if |p| > 1 {
      assert Edge(g, p[0], p[1]);
      PathTail(g, p);
      ClosedPath(g, s, p[1..]);
    }
  }

  lemma ClosedReach<V(!new)>(g: Graph<V>, s: set<V>, v: V, w: V)
    requires Closed(g, s) && v in s && Reach(g, v, w)
    ensures w in s
  {
    var p :| Joins(g, p, v, w);
    ClosedPath(g, s, p);
  }

  /** A path of two or more nodes starts with an edge. */
  lemma ReachDistinct<V(!new)>(g: Graph<V>, v: V, w: V)
    requires Reach(g, v, w) && v != w
    ensures ReachPlus(g, v, w)
  {
    var p :| Joins(g, p, v, w);
    assert Edge(g, p[0], p[1]);
    PathTail(g, p);
    assert Joins(g, p[1..], p[1], w);
  }
}
