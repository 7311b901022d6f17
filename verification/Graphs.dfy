/** Weighted directed graphs without cycles, paths and their costs. */
module Graphs {

  datatype Edge = Edge(cost: nat, dst: nat)

  /** Outgoing edges of each node. */
  type Graph = seq<seq<Edge>>

  predicate WellFormed(g: Graph) {
    forall u, i :: 0 <= u < |g| && 0 <= i < |g[u]| ==> g[u][i].dst < |g|
  }

  /** A numbering that every edge increases: there are no cycles. */
  predicate Ranked(g: Graph, rank: seq<nat>)
    requires WellFormed(g)
  {
    |rank| == |g| && forall u, i :: 0 <= u < |g| && 0 <= i < |g[u]| ==> rank[u] < rank[g[u][i].dst]
  }

  predicate Positive(g: Graph) {
    forall u, i :: 0 <= u < |g| && 0 <= i < |g[u]| ==> g[u][i].cost > 0
  }

  /** Edge number `edge` of node `node`. */
  datatype Step = Step(node: nat, edge: nat)

  predicate IsEdge(g: Graph, e: Step, v: nat) {
    e.node < |g| && e.edge < |g[e.node]| && g[e.node][e.edge].dst == v
  }

  /** p leads from s to t. */
  predicate IsPath(g: Graph, s: nat, p: seq<Step>, t: nat) {
    if p == [] then s == t
    else
      var last := p[|p| - 1];
      IsEdge(g, last, t) && IsPath(g, s, p[..|p| - 1], last.node)
  }

  function PathCost(g: Graph, p: seq<Step>): nat
    requires forall k :: 0 <= k < |p| ==> p[k].node < |g| && p[k].edge < |g[p[k].node]|
  {
    if p == [] then 0
    else
      var last := p[|p| - 1];
      PathCost(g, p[..|p| - 1]) + g[last.node][last.edge].cost
  }

  lemma {:induction false} PathEdges(g: Graph, s: nat, p: seq<Step>, t: nat)
    requires IsPath(g, s, p, t)
    ensures forall k :: 0 <= k < |p| ==> p[k].node < |g| && p[k].edge < |g[p[k].node]|
  {
    if p != [] {
      PathEdges(g, s, p[..|p| - 1], p[|p| - 1].node);
    }
  }

  /** Cost of a path. */
  ghost function Cost(g: Graph, s: nat, p: seq<Step>, t: nat): nat
    requires IsPath(g, s, p, t)
  {
    PathEdges(g, s, p, t);
    PathCost(g, p)
  }

  /** No path from s to t costs more than p. */
  ghost predicate Longest(g: Graph, s: nat, p: seq<Step>, t: nat) {
    IsPath(g, s, p, t) && forall q :: IsPath(g, s, q, t) ==> Cost(g, s, q, t) <= Cost(g, s, p, t)
  }

  ghost predicate Reachable(g: Graph, s: nat, t: nat) {
    exists p :: IsPath(g, s, p, t)
  }

  ghost predicate AllReachable(g: Graph, s: nat) {
    forall t :: 0 <= t < |g| ==> Reachable(g, s, t)
  }

  lemma {:induction false} PathRaisesRank(g: Graph, rank: seq<nat>, s: nat, p: seq<Step>, t: nat)
    requires WellFormed(g) && Ranked(g, rank) && s < |g| && t < |g| && IsPath(g, s, p, t)
    ensures rank[s] <= rank[t]
  {
    if p != [] {
      PathRaisesRank(g, rank, s, p[..|p| - 1], p[|p| - 1].node);
    }
  }

  // ----- Counting incoming edges

  /** Number of edges in es that lead to v. */
  function EdgesTo(es: seq<Edge>, v: nat): nat {
    if es == [] then 0 else EdgesTo(es[..|es| - 1], v) + if es[|es| - 1].dst == v then 1 else 0
  }

  /** Number of edges to v from the nodes below n that are in d. */
  function InFrom(g: Graph, d: set<nat>, v: nat, n: nat): nat
    requires n <= |g|
  {
    if n == 0 then 0 else InFrom(g, d, v, n - 1) + if n - 1 in d then EdgesTo(g[n - 1], v) else 0
  }

  /** Number of edges to v from the nodes below n. */
  function InAll(g: Graph, v: nat, n: nat): nat
    requires n <= |g|
  {
    if n == 0 then 0 else InAll(g, v, n - 1) + EdgesTo(g[n - 1], v)
  }

  function InDegree(g: Graph, v: nat): nat {
    InAll(g, v, |g|)
  }

  lemma {:induction false} InFromAdd(g: Graph, d: set<nat>, u: nat, v: nat, n: nat)
    requires n <= |g| && u !in d
    ensures InFrom(g, d + {u}, v, n) == InFrom(g, d, v, n) + if u < n then EdgesTo(g[u], v) else 0
  {
    if n > 0 {
      InFromAdd(g, d, u, v, n - 1);
    }
  }

  lemma {:induction false} InFromNone(g: Graph, v: nat, n: nat)
    requires n <= |g|
    ensures InFrom(g, {}, v, n) == 0
  {
    if n > 0 {
      InFromNone(g, v, n - 1);
    }
  }

  /** Nodes outside d that have an edge to v are missing from the count. */
  lemma {:induction false} InFromMissing(g: Graph, d: set<nat>, v: nat, n: nat)
    requires n <= |g|
    ensures InFrom(g, d, v, n) <= InAll(g, v, n)
    ensures forall u :: 0 <= u < n && u !in d ==>
              InFrom(g, d, v, n) + EdgesTo(g[u], v) <= InAll(g, v, n)
  {
    if n > 0 {
      InFromMissing(g, d, v, n - 1);
    }
  }

  lemma {:induction false} EdgeCounts(es: seq<Edge>, i: nat)
    requires i < |es|
    ensures EdgesTo(es[..i], es[i].dst) + 1 <= EdgesTo(es, es[i].dst)
  {
    EdgesToPrefix(es, i, es[i].dst);
    EdgesToGrows(es, i + 1, es[i].dst);
  }

  lemma EdgesToPrefix(es: seq<Edge>, i: nat, v: nat)
    requires i < |es|
    ensures EdgesTo(es[..i + 1], v) == EdgesTo(es[..i], v) + if es[i].dst == v then 1 else 0
  {
    assert es[..i + 1][..i] == es[..i];
  }

  lemma {:induction false} EdgesToGrows(es: seq<Edge>, i: nat, v: nat)
    requires i <= |es|
    ensures EdgesTo(es[..i], v) <= EdgesTo(es, v)
    decreases |es| - i
  {
    if i < |es| {
      EdgesToPrefix(es, i, v);
      EdgesToGrows(es, i + 1, v);
    } else {
      assert es[..i] == es;
    }
  }

  lemma {:induction false} CountedEdge(es: seq<Edge>, v: nat) returns (i: nat)
    requires EdgesTo(es, v) > 0
    ensures i < |es| && es[i].dst == v
  {
    if es[|es| - 1].dst == v {
      i := |es| - 1;
    } else {
      i := CountedEdge(es[..|es| - 1], v);
    }
  }

  lemma {:induction false} InAllWitness(g: Graph, v: nat, n: nat) returns (e: Step)
    requires n <= |g| && InAll(g, v, n) > 0
    ensures IsEdge(g, e, v)
  {
    if EdgesTo(g[n - 1], v) > 0 {
      var i := CountedEdge(g[n - 1], v);
      e := Step(n - 1, i);
    } else {
      e := InAllWitness(g, v, n - 1);
    }
  }

  lemma EdgeIsCounted(g: Graph, e: Step, v: nat)
    requires IsEdge(g, e, v)
    ensures EdgesTo(g[e.node], v) > 0 && InDegree(g, v) > 0
  {
    EdgeCounts(g[e.node], e.edge);
    InFromMissing(g, {}, v, |g|);
    assert e.node !in {};
  }

  /** Nothing leads back to the node that reaches everything. */
  lemma SourceHasNoEdges(g: Graph, rank: seq<nat>, s: nat)
    requires WellFormed(g) && Ranked(g, rank) && s < |g| && AllReachable(g, s)
    ensures InDegree(g, s) == 0
  {
    if InDegree(g, s) > 0 {
      var e := InAllWitness(g, s, |g|);
      assert Reachable(g, s, e.node);
      var p :| IsPath(g, s, p, e.node);
      PathRaisesRank(g, rank, s, p, e.node);
    }
  }

  lemma OthersHaveEdges(g: Graph, s: nat, v: nat)
    requires s < |g| && AllReachable(g, s) && v < |g| && v != s
    ensures InDegree(g, v) > 0
  {
    assert Reachable(g, s, v);
    var p :| IsPath(g, s, p, v);
    EdgeIsCounted(g, p[|p| - 1], v);
  }
}
