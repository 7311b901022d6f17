/** The work queue of the critical-path analysis, on values: what one pass over a graph in
topological order leaves in the nodes. */
module Relaxation {
  import opened Graphs

  /** The mutable fields of all nodes; pred is -1 for none. */
  datatype Marks = Marks(visited: seq<nat>, cost: seq<nat>, pred: seq<int>, edge: seq<nat>)

  predicate Sized(g: Graph, m: Marks) {
    |m.visited| == |m.cost| == |m.pred| == |m.edge| == |g|
  }

  /** A visit of node v along an edge of cost w from u, for a path of total cost c. */
  function Visited(m: Marks, v: nat, u: nat, w: nat, c: nat): Marks
    requires v < |m.visited| == |m.cost| == |m.pred| == |m.edge|
  {
    if c > m.cost[v] then
      Marks(m.visited[v := m.visited[v] + 1], m.cost[v := c], m.pred[v := u], m.edge[v := w])
    else m.(visited := m.visited[v := m.visited[v] + 1])
  }

  /** Every edge is relaxed. */
  predicate Relaxed(g: Graph, cost: seq<nat>)
    requires WellFormed(g) && |cost| == |g|
  {
    forall u, i :: 0 <= u < |g| && 0 <= i < |g[u]| ==> cost[u] + g[u][i].cost <= cost[g[u][i].dst]
  }

  /** The predecessor of v lies on an edge that accounts for v's cost. */
  ghost predicate TightAt(g: Graph, m: Marks, v: nat)
    requires Sized(g, m) && v < |g|
  {
    && 0 <= m.pred[v] < |g|
    && m.cost[v] == m.cost[m.pred[v]] + m.edge[v]
    && exists i :: 0 <= i < |g[m.pred[v]]| && g[m.pred[v]][i] == Edge(m.edge[v], v)
  }

  /** What a finished analysis leaves: longest distances, and predecessors that realise them. */
  ghost predicate Solved(g: Graph, s: nat, m: Marks)
    requires WellFormed(g)
  {
    && Sized(g, m) && s < |g| && m.cost[s] == 0
    && Relaxed(g, m.cost)
    && forall v :: 0 <= v < |g| && v != s ==> TightAt(g, m, v)
  }

  /** What an analysis may start from: nothing, or the result for smaller edge costs. */
  ghost predicate PriorAt(g: Graph, m: Marks, v: nat)
    requires Sized(g, m) && v < |g|
  {
    m.cost[v] == 0
    || (&& 0 <= m.pred[v] < |g|
        && m.cost[v] == m.cost[m.pred[v]] + m.edge[v]
        && exists i :: 0 <= i < |g[m.pred[v]]| && g[m.pred[v]][i].dst == v
                       && m.edge[v] <= g[m.pred[v]][i].cost)
  }

  ghost predicate Prior(g: Graph, s: nat, m: Marks) {
    && Sized(g, m) && s < |g| && m.cost[s] == 0
    && forall v :: 0 <= v < |g| ==> PriorAt(g, m, v)
  }

  /** No path costs more than the distance of its end. */
  lemma {:induction false} RelaxedIsUpperBound(g: Graph, s: nat, m: Marks, p: seq<Step>, t: nat)
    requires WellFormed(g) && Solved(g, s, m) && t < |g| && IsPath(g, s, p, t)
    ensures Cost(g, s, p, t) <= m.cost[t]
  {
    if p != [] {
      RelaxedIsUpperBound(g, s, m, p[..|p| - 1], p[|p| - 1].node);
    }
  }

  /** Following predecessors from t gives a path of exactly that cost. */
  lemma {:induction false} TightIsRealised(g: Graph, rank: seq<nat>, s: nat, m: Marks, t: nat)
    returns (p: seq<Step>)
    requires WellFormed(g) && Ranked(g, rank) && Solved(g, s, m) && t < |g|
    ensures IsPath(g, s, p, t) && Cost(g, s, p, t) == m.cost[t]
    decreases rank[t]
  {
    if t == s {
      p := [];
    } else {
      assert TightAt(g, m, t);
      var u := m.pred[t];
      var i :| 0 <= i < |g[u]| && g[u][i] == Edge(m.edge[t], t);
      var q := TightIsRealised(g, rank, s, m, u);
      p := q + [Step(u, i)];
      assert p[..|p| - 1] == q;
    }
  }

  /** A graph with at least the same costs on the same edges. */
  predicate Dominates(h: Graph, g: Graph) {
    |h| == |g| && forall u :: 0 <= u < |g| ==>
      |h[u]| == |g[u]| && forall i :: 0 <= i < |g[u]| ==>
        h[u][i].dst == g[u][i].dst && g[u][i].cost <= h[u][i].cost
  }

  /** Results for smaller costs need not be cleared before the next analysis. */
  lemma SolvedIsPrior(g: Graph, h: Graph, s: nat, m: Marks, m': Marks)
    requires WellFormed(g) && WellFormed(h) && Dominates(h, g) && Solved(g, s, m)
    requires m' == m.(visited := m'.visited) && |m'.visited| == |g|
    ensures Prior(h, s, m')
  {
    forall v | 0 <= v < |h|
      ensures PriorAt(h, m', v)
    {
      if v != s {
        assert TightAt(g, m, v);
        var u := m.pred[v];
        var i :| 0 <= i < |g[u]| && g[u][i] == Edge(m.edge[v], v);
        assert h[u][i].dst == v && m.edge[v] <= h[u][i].cost;
      }
    }
  }

  // ----- The pass

  /** Edge i of u has been looked at: u is done, or is node n with j edges behind it. */
  predicate Done(d: set<nat>, n: int, j: nat, u: int, i: int) {
    u in d || (u == n && i < j)
  }

  predicate NoDuplicates(q: seq<nat>) {
    forall a, b :: 0 <= a < b < |q| ==> q[a] != q[b]
  }

  function SeenInto(g: Graph, d: set<nat>, n: int, j: nat, v: nat): nat
    requires 0 <= n ==> n < |g| && j <= |g[n]|
  {
    InFrom(g, d, v, |g|) + if 0 <= n then EdgesTo(g[n][..j], v) else 0
  }

  /** Queue and counters: the queue holds the nodes all of whose incoming edges were seen. */
  ghost predicate QueueOk(g: Graph, s: nat, d: set<nat>, n: int, j: nat, q: seq<nat>, m: Marks)
    requires 0 <= n ==> n < |g| && j <= |g[n]|
    requires Sized(g, m)
  {
    && (forall u :: u in d ==> 0 <= u < |g| && u != n && u !in q)
    && (forall u :: u in q ==> u < |g| && u != n)
    && NoDuplicates(q)
    && (forall v: nat :: v < |g| ==> m.visited[v] == SeenInto(g, d, n, j, v))
    && (forall v: nat :: v < |g| ==>
          (v in d || v in q || v == n <==> v == s || SeenInto(g, d, n, j, v) == InDegree(g, v)))
  }

  ghost predicate CostsOk(g: Graph, s: nat, d: set<nat>, n: int, j: nat, m: Marks, m0: Marks)
    requires WellFormed(g) && Sized(g, m) && Sized(g, m0) && s < |g|
  {
    && m.cost[s] == 0
    && (forall v :: 0 <= v < |g| ==> m0.cost[v] <= m.cost[v])
    && (forall u, i :: 0 <= u < |g| && 0 <= i < |g[u]| && Done(d, n, j, u, i) ==>
          m.cost[u] + g[u][i].cost <= m.cost[g[u][i].dst])
    && (forall v: nat :: v < |g| ==> Supported(g, d, n, m, m0, v))
  }

  /** v's cost is still the one it came with, or comes from a node whose cost is final. */
  ghost predicate Supported(g: Graph, d: set<nat>, n: int, m: Marks, m0: Marks, v: nat)
    requires Sized(g, m) && Sized(g, m0) && v < |g|
  {
    || (m.cost[v] == m0.cost[v] && m.pred[v] == m0.pred[v] && m.edge[v] == m0.edge[v])
    || (TightAt(g, m, v) && (m.pred[v] in d || m.pred[v] == n))
  }

  lemma Start(g: Graph, s: nat, m: Marks)
    requires WellFormed(g) && Prior(g, s, m) && AllReachable(g, s) && InDegree(g, s) == 0
    requires forall v :: 0 <= v < |g| ==> m.visited[v] == 0
    ensures QueueOk(g, s, {}, -1, 0, [s], m) && CostsOk(g, s, {}, -1, 0, m, m)
  {
    forall v: nat | v < |g|
      ensures InFrom(g, {}, v, |g|) == 0 && (v != s ==> InDegree(g, v) > 0)
    {
      InFromNone(g, v, |g|);
      if v != s {
        OthersHaveEdges(g, s, v);
      }
    }
  }

  lemma Pop(g: Graph, s: nat, d: set<nat>, q: seq<nat>, m: Marks, m0: Marks)
    requires WellFormed(g) && Sized(g, m) && Sized(g, m0) && s < |g| && q != []
    requires QueueOk(g, s, d, -1, 0, q, m) && CostsOk(g, s, d, -1, 0, m, m0)
    ensures q[0] < |g| && q[0] !in d
    ensures QueueOk(g, s, d, q[0], 0, q[1..], m) && CostsOk(g, s, d, q[0], 0, m, m0)
  {
    var n := q[0];
    assert n in q;
    assert g[n][..0] == [];
    assert forall u :: u in q <==> u == n || u in q[1..];
    forall v: nat | v < |g|
      ensures Supported(g, d, n, m, m0, v)
    {
      assert Supported(g, d, -1, m, m0, v);
    }
  }

  lemma Finish(g: Graph, s: nat, d: set<nat>, n: nat, q: seq<nat>, m: Marks, m0: Marks)
    requires WellFormed(g) && Sized(g, m) && Sized(g, m0) && s < |g| && n < |g|
    requires QueueOk(g, s, d, n, |g[n]|, q, m) && CostsOk(g, s, d, n, |g[n]|, m, m0)
    ensures QueueOk(g, s, d + {n}, -1, 0, q, m) && CostsOk(g, s, d + {n}, -1, 0, m, m0)
  {
    assert n !in d && n !in q;
    assert g[n][..|g[n]|] == g[n];
    forall v: nat | v < |g|
      ensures SeenInto(g, d + {n}, -1, 0, v) == SeenInto(g, d, n, |g[n]|, v)
    {
      InFromAdd(g, d, n, v, |g|);
    }
    forall v: nat | v < |g|
      ensures Supported(g, d + {n}, -1, m, m0, v)
    {
      assert Supported(g, d, n, m, m0, v);
    }
  }

  /** A node that the current edge leads to is not done, not queued, and not the source. */
  lemma TargetIsOpen(g: Graph, s: nat, d: set<nat>, n: nat, j: nat, q: seq<nat>, m: Marks)
    requires WellFormed(g) && Sized(g, m) && s < |g| && n < |g| && j < |g[n]|
    requires InDegree(g, s) == 0 && QueueOk(g, s, d, n, j, q, m)
    ensures var v := g[n][j].dst;
            && v != s && v !in d && v !in q && v != n
            && SeenInto(g, d, n, j, v) < InDegree(g, v)
  {
    var v := g[n][j].dst;
    EdgeIsCounted(g, Step(n, j), v);
    assert n !in d;
    InFromMissing(g, d, v, |g|);
    EdgeCounts(g[n], j);
  }

  /** One edge: the counter of its end moves, its cost is raised, and it enters the queue with
      its last incoming edge. */
  lemma VisitQueue(g: Graph, s: nat, d: set<nat>, n: nat, j: nat, q: seq<nat>, m: Marks, c: nat)
    requires WellFormed(g) && Sized(g, m) && s < |g| && n < |g| && j < |g[n]|
    requires InDegree(g, s) == 0 && QueueOk(g, s, d, n, j, q, m)
    ensures var v := g[n][j].dst; var m' := Visited(m, v, n, g[n][j].cost, c);
            && Sized(g, m')
            && QueueOk(g, s, d, n, j + 1,
                       if m'.visited[v] == InDegree(g, v) then q + [v] else q, m')
  {
    TargetIsOpen(g, s, d, n, j, q, m);
    var t := g[n][j].dst;
    forall v: nat | v < |g|
      ensures SeenInto(g, d, n, j + 1, v) == SeenInto(g, d, n, j, v) + if v == t then 1 else 0
    {
      EdgesToPrefix(g[n], j, v);
    }
    assert forall u :: u in q + [t] <==> u in q || u == t;
  }

  lemma VisitCosts(g: Graph, s: nat, d: set<nat>, n: nat, j: nat, q: seq<nat>, m: Marks, m0: Marks)
    requires WellFormed(g) && Sized(g, m) && Sized(g, m0) && s < |g| && n < |g| && j < |g[n]|
    requires InDegree(g, s) == 0 && QueueOk(g, s, d, n, j, q, m) && CostsOk(g, s, d, n, j, m, m0)
    ensures var v := g[n][j].dst;
            var m' := Visited(m, v, n, g[n][j].cost, m.cost[n] + g[n][j].cost);
            CostsOk(g, s, d, n, j + 1, m', m0)
  {
    TargetIsOpen(g, s, d, n, j, q, m);
    var t, w := g[n][j].dst, g[n][j].cost;
    var m' := Visited(m, t, n, w, m.cost[n] + w);
    forall v: nat | v < |g|
      ensures Supported(g, d, n, m', m0, v)
    {
      assert Supported(g, d, n, m, m0, v);
      if v == t && m.cost[n] + w > m.cost[t] {
        assert g[n][j] == Edge(w, t);
      }
    }
  }

  /** An empty queue means every node is done: a node left over with the least rank would have
      had all its incoming edges seen. */
  lemma {:induction false} AllDone(g: Graph, rank: seq<nat>, s: nat, d: set<nat>, m: Marks, v: nat)
    requires WellFormed(g) && Ranked(g, rank) && Sized(g, m) && s < |g| && v < |g|
    requires AllReachable(g, s) && QueueOk(g, s, d, -1, 0, [], m)
    ensures v in d
    decreases rank[v]
  {
    if v != s {
      forall u | 0 <= u < |g| && u !in d
        ensures EdgesTo(g[u], v) == 0
      {
        if EdgesTo(g[u], v) > 0 {
          var i := CountedEdge(g[u], v);
          AllDone(g, rank, s, d, m, u);
        }
      }
      AllIn(g, d, v, |g|);
    }
  }

  lemma {:induction false} AllIn(g: Graph, d: set<nat>, v: nat, n: nat)
    requires n <= |g| && forall u :: 0 <= u < |g| && u !in d ==> EdgesTo(g[u], v) == 0
    ensures InFrom(g, d, v, n) == InAll(g, v, n)
  {
    if n > 0 {
      AllIn(g, d, v, n - 1);
    }
  }

  /** With positive costs, a finished pass has solved the graph. */
  lemma PassSolves(g: Graph, rank: seq<nat>, s: nat, d: set<nat>, m: Marks, m0: Marks)
    requires WellFormed(g) && Ranked(g, rank) && Positive(g) && AllReachable(g, s)
    requires Sized(g, m) && s < |g| && Prior(g, s, m0)
    requires QueueOk(g, s, d, -1, 0, [], m) && CostsOk(g, s, d, -1, 0, m, m0)
    ensures Solved(g, s, m)
  {
    forall u | 0 <= u < |g|
      ensures u in d
    {
      AllDone(g, rank, s, d, m, u);
    }
    forall v: nat | v < |g| && v != s
      ensures TightAt(g, m, v)
    {
      SomeCost(g, s, m, v);
      PriorIsTight(g, s, d, m, m0, v);
    }
  }

  lemma SomeCost(g: Graph, s: nat, m: Marks, v: nat)
    requires WellFormed(g) && Positive(g) && AllReachable(g, s) && Sized(g, m) && s < |g|
    requires Relaxed(g, m.cost) && v < |g| && v != s
    ensures m.cost[v] > 0
  {
    OthersHaveEdges(g, s, v);
    var e := InAllWitness(g, v, |g|);
    assert g[e.node][e.edge].cost > 0;
  }

  /** A cost kept from before is accounted for by the new edge costs as well. */
  lemma PriorIsTight(g: Graph, s: nat, d: set<nat>, m: Marks, m0: Marks, v: nat)
    requires WellFormed(g) && Sized(g, m) && s < |g| && v < |g| && Prior(g, s, m0)
    requires CostsOk(g, s, d, -1, 0, m, m0) && Relaxed(g, m.cost) && m.cost[v] > 0
    ensures TightAt(g, m, v)
  {
    assert Supported(g, d, -1, m, m0, v);
    if m.cost[v] == m0.cost[v] && m.pred[v] == m0.pred[v] && m.edge[v] == m0.edge[v] {
      assert PriorAt(g, m0, v);
      var u := m0.pred[v];
      var i :| 0 <= i < |g[u]| && g[u][i].dst == v && m0.edge[v] <= g[u][i].cost;
      assert m0.cost[u] <= m.cost[u];
      assert m.cost[u] + g[u][i].cost <= m.cost[v];
      assert g[u][i] == Edge(m.edge[v], v);
    }
  }
}
