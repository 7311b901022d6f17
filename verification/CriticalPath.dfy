/** Basic-block graphs of a kernel and their critical path. */
module CriticalPaths {
  import opened Graphs
  import opened Relaxation

  datatype Access = NoAccess | Scratchpad | Dram

  class DagNode {
    const bb: nat         // basic block
    const access: Access  // request at the end of the block
    const accessCost: nat
    var out: seq<(nat, DagNode)>
    var indegree: nat
    var visited: nat
    var cost: nat
    var pred: DagNode?
    var predEdge: nat
    ghost var pos: nat    // place in the list of nodes of its graph

    constructor (b: nat, a: Access, c: nat)
      ensures bb == b && access == a && accessCost == c
      ensures out == [] && indegree == 0 && visited == 0 && cost == 0 && pred == null && predEdge == 0
    {
      bb, access, accessCost := b, a, c;
      out, indegree, visited, cost, pred, predEdge := [], 0, 0, 0, null, 0;
    }

    method AddOut(c: nat, n: DagNode)
      modifies `out, n`indegree
      ensures out == old(out) + [(c, n)] && n.indegree == old(n.indegree) + 1
    {
      out := out + [(c, n)];
      n.indegree := n.indegree + 1;
    }

    /** Count a visit and keep the costlier path; true on the last incoming edge. */
    method Visit(n: DagNode, edgeCost: nat, c: nat) returns (last: bool)
      modifies `visited, `cost, `pred, `predEdge
      ensures visited == old(visited) + 1 && last == (visited == indegree)
      ensures if c > old(cost) then cost == c && pred == n && predEdge == edgeCost
              else cost == old(cost) && pred == old(pred) && predEdge == old(predEdge)
    {
      visited := visited + 1;
      if c > cost {
        cost, pred, predEdge := c, n, edgeCost;
      }
      last := visited == indegree;
    }

    /** The block alone; its access is dropped when scratchpad accesses count as compute. */
    method CopyNode(strip: bool) returns (n: DagNode)
      ensures fresh(n) && n.bb == bb && n.predEdge == predEdge
      ensures n.access == (if strip && access == Scratchpad then NoAccess else access)
      ensures n.accessCost == if strip && access == Scratchpad then 0 else accessCost
      ensures n.out == [] && n.indegree == 0
    {
      if strip && access == Scratchpad {
        n := new DagNode(bb, NoAccess, 0);
      } else {
        n := new DagNode(bb, access, accessCost);
      }
      n.predEdge := predEdge;
    }
  }

  // ----- The node objects as a graph

  function Extra(n: DagNode, spAsCompute: bool): nat {
    if spAsCompute && n.access == Scratchpad then n.accessCost else 0
  }

  /** The nodes, at their places, and their edges are those of g. */
  ghost predicate Mirrors(nodes: seq<DagNode>, spAsCompute: bool, g: Graph)
    reads nodes`pos, nodes`out
  {
    && |g| == |nodes|
    && (forall u :: 0 <= u < |nodes| ==> nodes[u].pos == u)
    && (forall u :: 0 <= u < |nodes| ==> |nodes[u].out| == |g[u]|)
    && (forall u, i :: 0 <= u < |nodes| && 0 <= i < |g[u]| ==>
          && g[u][i].dst < |nodes|
          && nodes[u].out[i].1 == nodes[g[u][i].dst]
          && g[u][i].cost == nodes[u].out[i].0 + Extra(nodes[u], spAsCompute))
  }

  ghost predicate CountsIn(nodes: seq<DagNode>, g: Graph)
    reads nodes`indegree
  {
    |g| == |nodes| && forall v :: 0 <= v < |nodes| ==> nodes[v].indegree == InDegree(g, v)
  }

  ghost function PosOf(nodes: seq<DagNode>, n: DagNode?): int
    reads nodes`pos
  {
    if n != null && n in nodes then n.pos else -1
  }

  ghost function Visits(nodes: seq<DagNode>): (r: seq<nat>)
    reads nodes`visited
    ensures |r| == |nodes| && forall v :: 0 <= v < |nodes| ==> r[v] == nodes[v].visited
  {
    if nodes == [] then [] else Visits(nodes[..|nodes| - 1]) + [nodes[|nodes| - 1].visited]
  }

  ghost function Costs(nodes: seq<DagNode>): (r: seq<nat>)
    reads nodes`cost
    ensures |r| == |nodes| && forall v :: 0 <= v < |nodes| ==> r[v] == nodes[v].cost
  {
    if nodes == [] then [] else Costs(nodes[..|nodes| - 1]) + [nodes[|nodes| - 1].cost]
  }

  ghost function PredEdges(nodes: seq<DagNode>): (r: seq<nat>)
    reads nodes`predEdge
    ensures |r| == |nodes| && forall v :: 0 <= v < |nodes| ==> r[v] == nodes[v].predEdge
  {
    if nodes == [] then [] else PredEdges(nodes[..|nodes| - 1]) + [nodes[|nodes| - 1].predEdge]
  }

  ghost function Preds(nodes: seq<DagNode>, n: nat): (r: seq<int>)
    requires n <= |nodes|
    reads nodes`pos, nodes`pred
    ensures |r| == n && forall v :: 0 <= v < n ==> r[v] == PosOf(nodes, nodes[v].pred)
  {
    if n == 0 then [] else Preds(nodes, n - 1) + [PosOf(nodes, nodes[n - 1].pred)]
  }

  /** The mutable fields of all nodes. */
  ghost function MarksOf(nodes: seq<DagNode>): (m: Marks)
    reads nodes`pos, nodes`visited, nodes`cost, nodes`pred, nodes`predEdge
    ensures |m.visited| == |m.cost| == |m.pred| == |m.edge| == |nodes|
  {
    Marks(Visits(nodes), Costs(nodes), Preds(nodes, |nodes|), PredEdges(nodes))
  }

  ghost function Positions(q: seq<DagNode>): (ps: seq<nat>)
    reads q`pos
    ensures |ps| == |q| && forall k :: 0 <= k < |q| ==> ps[k] == q[k].pos
  {
    if q == [] then [] else Positions(q[..|q| - 1]) + [q[|q| - 1].pos]
  }

  ghost function UpTo(n: nat): (s: set<nat>)
    ensures forall u: nat :: u in s <==> u < n
  {
    if n == 0 then {} else UpTo(n - 1) + {n - 1}
  }

  lemma OneLessLeft(n: nat, d: set<nat>, u: nat)
    requires u < n && u !in d
    ensures UpTo(n) - (d + {u}) < UpTo(n) - d
  {
    assert u in UpTo(n) - d && u !in UpTo(n) - (d + {u});
  }

  lemma OutSize(nodes: seq<DagNode>, spAsCompute: bool, g: Graph, n: DagNode)
    requires Mirrors(nodes, spAsCompute, g) && n in nodes
    ensures |g| == |nodes| && n.pos < |g| && |n.out| == |g[n.pos]|
  {
  }

  /** Edge j of a node, in the graph and among the nodes. */
  lemma EdgeIs(nodes: seq<DagNode>, spAsCompute: bool, g: Graph, n: DagNode, j: nat)
    requires Mirrors(nodes, spAsCompute, g) && CountsIn(nodes, g) && n in nodes && j < |n.out|
    ensures |g| == |nodes| && n.pos < |g| && |n.out| == |g[n.pos]|
    ensures forall u :: 0 <= u < |nodes| ==> nodes[u].pos == u
    ensures var t := n.out[j].1;
            && t in nodes && t.pos < |g| && t.indegree == InDegree(g, t.pos)
            && g[n.pos][j] == Edge(n.out[j].0 + Extra(n, spAsCompute), t.pos)
  {
    hide InDegree;
  }

  lemma MarksAt(nodes: seq<DagNode>, n: DagNode)
    requires n in nodes && forall u :: 0 <= u < |nodes| ==> nodes[u].pos == u
    ensures n.pos < |nodes| && MarksOf(nodes).cost[n.pos] == n.cost
  {
    hide Costs, Visits, Preds, PredEdges;
  }

  lemma PositionsAppend(q: seq<DagNode>, n: DagNode)
    ensures Positions(q + [n]) == Positions(q) + [n.pos]
  {
  }

  class Dag {
    var nodes: seq<DagNode>
    var source: DagNode
    var sink: DagNode

    constructor (ns: seq<DagNode>, first: DagNode, last: DagNode)
      ensures nodes == ns && source == first && sink == last
    {
      nodes, source, sink := ns, first, last;
    }

    /** Source and sink are in the graph; every node can be reached; there is no cycle. */
    ghost predicate Valid(spAsCompute: bool, g: Graph, rank: seq<nat>)
      reads this, nodes`pos, nodes`out, nodes`indegree
    {
      && Mirrors(nodes, spAsCompute, g) && CountsIn(nodes, g)
      && WellFormed(g) && Ranked(g, rank) && Positive(g)
      && source in nodes && sink in nodes && source != sink
      && AllReachable(g, PosOf(nodes, source))
    }

    method ResetVisited()
      modifies nodes`visited
      ensures forall n :: n in nodes ==> n.visited == 0
    {
      for k := 0 to |nodes|
        invariant forall i :: 0 <= i < k ==> nodes[i].visited == 0
      {
        nodes[k].visited := 0;
      }
    }

    /** The pass in topological order. */
    method Relax(spAsCompute: bool, ghost g: Graph, ghost rank: seq<nat>)
      requires Valid(spAsCompute, g, rank)
      requires Prior(g, PosOf(nodes, source), MarksOf(nodes))
      modifies nodes`visited, nodes`cost, nodes`pred, nodes`predEdge
      ensures Solved(g, PosOf(nodes, source), MarksOf(nodes))
    {
      hide QueueOk, CostsOk, Prior, InDegree, Visits, Costs, Preds, PredEdges, Solved;
      ghost var s := PosOf(nodes, source);
      SourceHasNoEdges(g, rank, s);
      ghost var m0 := Prepare(g, s);
      Process(spAsCompute, g, rank, m0);
    }

    /** Clear the counters and queue the source. */
    method Prepare(ghost g: Graph, ghost s: nat) returns (ghost m0: Marks)
      requires WellFormed(g) && |g| == |nodes| && s < |g| && AllReachable(g, s) && InDegree(g, s) == 0
      requires Prior(g, s, MarksOf(nodes))
      modifies nodes`visited
      ensures m0 == MarksOf(nodes) && Sized(g, m0) && Prior(g, s, m0)
      ensures QueueOk(g, s, {}, -1, 0, [s], m0) && CostsOk(g, s, {}, -1, 0, m0, m0)
    {
      hide Visits, Costs, Preds, PredEdges, QueueOk, CostsOk, PriorAt, InDegree, Reachable;
      ghost var start := MarksOf(nodes);
      ResetVisited();
      m0 := MarksOf(nodes);
      assert m0.cost == start.cost && m0.pred == start.pred && m0.edge == start.edge;
      PriorIgnoresVisited(g, s, start, m0);
      Start(g, s, m0);
    }

    method Process(spAsCompute: bool, ghost g: Graph, ghost rank: seq<nat>, ghost m0: Marks)
      requires Valid(spAsCompute, g, rank) && InDegree(g, PosOf(nodes, source)) == 0
      requires Sized(g, m0) && Prior(g, PosOf(nodes, source), m0)
      requires QueueOk(g, PosOf(nodes, source), {}, -1, 0, [PosOf(nodes, source)], MarksOf(nodes))
      requires CostsOk(g, PosOf(nodes, source), {}, -1, 0, MarksOf(nodes), m0)
      modifies nodes`visited, nodes`cost, nodes`pred, nodes`predEdge
      ensures Solved(g, PosOf(nodes, source), MarksOf(nodes))
    {
      hide QueueOk, CostsOk, Prior, Ranked, Positive, AllReachable, InDegree, Visits, Costs, Preds, PredEdges,
           Positions, Solved, Mirrors, CountsIn, WellFormed, MarksOf;
      ghost var s := PosOf(nodes, source);
      OutSize(nodes, spAsCompute, g, source);
      var wq := [source];
      ghost var d: set<nat> := {};
      assert Positions(wq) == [s];
      while wq != []
        invariant forall n :: n in wq ==> n in nodes
        invariant QueueOk(g, s, d, -1, 0, Positions(wq), MarksOf(nodes))
        invariant CostsOk(g, s, d, -1, 0, MarksOf(nodes), m0)
        decreases UpTo(|nodes|) - d
      {
        var n := wq[0];
        OutSize(nodes, spAsCompute, g, n);
        Pop(g, s, d, Positions(wq), MarksOf(nodes), m0);
        assert Positions(wq)[1..] == Positions(wq[1..]);
        wq := VisitOut(n, wq[1..], spAsCompute, g, rank, d, m0);
        Finish(g, s, d, n.pos, Positions(wq), MarksOf(nodes), m0);
        OneLessLeft(|nodes|, d, n.pos);
        d := d + {n.pos};
      }
      assert Positions(wq) == [];
      PassSolves(g, rank, s, d, MarksOf(nodes), m0);
    }

    /** All edges of one node. */
    method VisitOut(n: DagNode, rest: seq<DagNode>, spAsCompute: bool,
                    ghost g: Graph, ghost rank: seq<nat>, ghost d: set<nat>, ghost m0: Marks)
      returns (wq: seq<DagNode>)
      requires Valid(spAsCompute, g, rank) && n in nodes && Sized(g, m0)
      requires InDegree(g, PosOf(nodes, source)) == 0
      requires forall x :: x in rest ==> x in nodes
      requires QueueOk(g, PosOf(nodes, source), d, n.pos, 0, Positions(rest), MarksOf(nodes))
      requires CostsOk(g, PosOf(nodes, source), d, n.pos, 0, MarksOf(nodes), m0)
      modifies nodes`visited, nodes`cost, nodes`pred, nodes`predEdge
      ensures forall x :: x in wq ==> x in nodes
      ensures QueueOk(g, PosOf(nodes, source), d, n.pos, |g[n.pos]|, Positions(wq), MarksOf(nodes))
      ensures CostsOk(g, PosOf(nodes, source), d, n.pos, |g[n.pos]|, MarksOf(nodes), m0)
    {
      hide QueueOk, CostsOk, Ranked, Positive, AllReachable, InDegree, Visits, Costs, Preds, PredEdges, Positions,
           WellFormed, Mirrors, CountsIn, MarksOf;
      ghost var s, u := PosOf(nodes, source), n.pos;
      OutSize(nodes, spAsCompute, g, n);
      OutSize(nodes, spAsCompute, g, source);
      wq := rest;
      for j := 0 to |n.out|
        invariant forall x :: x in wq ==> x in nodes
        invariant QueueOk(g, s, d, u, j, Positions(wq), MarksOf(nodes))
        invariant CostsOk(g, s, d, u, j, MarksOf(nodes), m0)
      {
        wq := VisitEdge(n, j, wq, spAsCompute, g, rank, d, m0);
      }
    }

    /** A visit, seen in the fields of all nodes. */
    method VisitNode(t: DagNode, n: DagNode, edgeCost: nat, c: nat) returns (last: bool)
      requires t in nodes && n in nodes
      requires forall u :: 0 <= u < |nodes| ==> nodes[u].pos == u
      modifies nodes`visited, nodes`cost, nodes`pred, nodes`predEdge
      ensures MarksOf(nodes) == Visited(old(MarksOf(nodes)), t.pos, n.pos, edgeCost, c)
      ensures last == (MarksOf(nodes).visited[t.pos] == t.indegree)
    {
      hide Visits, Costs, Preds, PredEdges;
      ghost var before := MarksOf(nodes);
      last := t.Visit(n, edgeCost, c);
      ghost var after, expected := MarksOf(nodes), Visited(before, t.pos, n.pos, edgeCost, c);
      assert after.visited == expected.visited;
      assert after.cost == expected.cost;
      assert after.pred == expected.pred;
      assert after.edge == expected.edge;
    }

    /** One edge. */
    method VisitEdge(n: DagNode, j: nat, wq: seq<DagNode>, spAsCompute: bool,
                     ghost g: Graph, ghost rank: seq<nat>, ghost d: set<nat>, ghost m0: Marks)
      returns (wq': seq<DagNode>)
      requires Valid(spAsCompute, g, rank) && n in nodes && Sized(g, m0) && j < |n.out|
      requires InDegree(g, PosOf(nodes, source)) == 0
      requires forall x :: x in wq ==> x in nodes
      requires QueueOk(g, PosOf(nodes, source), d, n.pos, j, Positions(wq), MarksOf(nodes))
      requires CostsOk(g, PosOf(nodes, source), d, n.pos, j, MarksOf(nodes), m0)
      modifies nodes`visited, nodes`cost, nodes`pred, nodes`predEdge
      ensures forall x :: x in wq' ==> x in nodes
      ensures QueueOk(g, PosOf(nodes, source), d, n.pos, j + 1, Positions(wq'), MarksOf(nodes))
      ensures CostsOk(g, PosOf(nodes, source), d, n.pos, j + 1, MarksOf(nodes), m0)
    {
      hide QueueOk, CostsOk, Ranked, Positive, AllReachable, InDegree, Visits, Costs, Preds, PredEdges, Positions,
           Visited, EdgesTo, WellFormed, Mirrors, CountsIn, MarksOf;
      EdgeIs(nodes, spAsCompute, g, n, j);
      OutSize(nodes, spAsCompute, g, source);
      var edge := n.out[j];
      var nodeCost := edge.0;
      if spAsCompute && n.access == Scratchpad {
        nodeCost := nodeCost + n.accessCost;
      }
      MarksAt(nodes, n);
      ghost var s, before := PosOf(nodes, source), MarksOf(nodes);
      VisitQueue(g, s, d, n.pos, j, Positions(wq), before, before.cost[n.pos] + nodeCost);
      VisitCosts(g, s, d, n.pos, j, Positions(wq), before, m0);
      var lastInEdge := VisitNode(edge.1, n, nodeCost, n.cost + nodeCost);
      wq' := wq;
      if lastInEdge {
        wq' := wq + [edge.1];
        PositionsAppend(wq, edge.1);
      }
    }

    /** Copy the nodes from sink to source along the predecessors. */
    method Extract(strip: bool, ghost spAsCompute: bool, ghost g: Graph, ghost rank: seq<nat>)
      returns (chain: seq<DagNode>, ghost trail: seq<Step>)
      requires Valid(spAsCompute, g, rank)
      requires Solved(g, PosOf(nodes, source), MarksOf(nodes))
      ensures IsPath(g, PosOf(nodes, source), trail, PosOf(nodes, sink))
      ensures Cost(g, PosOf(nodes, source), trail, PosOf(nodes, sink)) == MarksOf(nodes).cost[sink.pos]
      ensures IsCopy(nodes, g, strip, chain, trail, sink) && fresh(chain)
    {
      hide Visits, Costs, Preds, PredEdges, Positive, Solved, AllReachable, IsCopy, IsPath, Ranked, CountsIn,
           PathCost, WellFormed,
           IsEdge, Cost, MarksOf;
      MarksAt(nodes, sink);
      ghost var m := MarksOf(nodes);
      var n := sink;
      var head := n.CopyNode(strip);
      chain, trail := [head], [];
      var first := true;
      EmptyTrail(g, sink.pos);
      CopyStarts(nodes, g, strip, head, sink);
      RankSized(g, rank);
      while first || n != source
        invariant n in nodes && (first ==> n == sink)
        invariant IsPath(g, n.pos, trail, sink.pos)
        invariant n.pos < |m.cost| && Cost(g, n.pos, trail, sink.pos) + m.cost[n.pos] == m.cost[sink.pos]
        invariant IsCopy(nodes, g, strip, chain, trail, sink) && fresh(chain)
        invariant chain != [] && chain[0] == head && head.predEdge == n.predEdge
        decreases rank[n.pos], first
      {
        ghost var v := n.pos;
        ghost var e := PredEdge(nodes, g, PosOf(nodes, source), n);
        PrependStep(g, e, v, trail, sink.pos);
        RankDrops(g, rank, e);
        n := n.pred;
        head := CopyBefore(n, strip, head, g, chain, trail, e);
        chain, trail := [head] + chain, [e] + trail;
        first := false;
      }
      SourceCost(g, PosOf(nodes, source), MarksOf(nodes));
    }

    /** Copy a node in front of the chain copied so far. */
    method CopyBefore(n: DagNode, strip: bool, head: DagNode, ghost g: Graph, ghost chain: seq<DagNode>,
                      ghost trail: seq<Step>, ghost e: Step) returns (c: DagNode)
      requires chain != [] && chain[0] == head && IsCopy(nodes, g, strip, chain, trail, sink)
      requires e.node < |nodes| && e.node < |g| && e.edge < |g[e.node]| && nodes[e.node] == n
      requires g[e.node][e.edge].cost == head.predEdge
      modifies head`indegree
      ensures fresh(c) && c.predEdge == n.predEdge
      ensures IsCopy(nodes, g, strip, [c] + chain, [e] + trail, sink)
    {
      c := n.CopyNode(strip);
      c.AddOut(head.predEdge, head);
      CopyGrows(nodes, g, strip, chain, trail, sink, n, c, e);
    }

    /** The critical path of the graph, as a graph of its own: a chain from a copy of the
        source to a copy of the sink whose edges add up to the most that any path costs. What
        the analysis leaves in the nodes may be what a previous, cheaper analysis left. */
    method CriticalPath(spAsCompute: bool, ghost g: Graph, ghost rank: seq<nat>)
      returns (cp: Dag, ghost trail: seq<Step>)
      requires Valid(spAsCompute, g, rank)
      requires Prior(g, PosOf(nodes, source), MarksOf(nodes))
      modifies nodes`visited, nodes`cost, nodes`pred, nodes`predEdge
      ensures Solved(g, PosOf(nodes, source), MarksOf(nodes))
      ensures Longest(g, PosOf(nodes, source), trail, PosOf(nodes, sink))
      ensures fresh(cp) && IsCopy(nodes, g, spAsCompute, cp.nodes, trail, sink)
      ensures IsChain(cp)
    {
      hide Visits, Costs, Preds, PredEdges, Prior, Solved, Positive, AllReachable, Ranked, IsCopy, IsPath, PathCost,
           CountsIn,
           Cost, Longest, Mirrors;
      Relax(spAsCompute, g, rank);
      cp, trail := ExtractDag(spAsCompute, spAsCompute, g, rank);
    }

    method ExtractDag(strip: bool, ghost spAsCompute: bool, ghost g: Graph, ghost rank: seq<nat>)
      returns (cp: Dag, ghost trail: seq<Step>)
      requires Valid(spAsCompute, g, rank)
      requires Solved(g, PosOf(nodes, source), MarksOf(nodes))
      ensures Longest(g, PosOf(nodes, source), trail, PosOf(nodes, sink))
      ensures Solved(g, PosOf(nodes, source), MarksOf(nodes))
      ensures fresh(cp) && IsCopy(nodes, g, strip, cp.nodes, trail, sink)
      ensures IsChain(cp)
    {
      hide Visits, Costs, Preds, PredEdges, Solved, Positive, AllReachable, Ranked, IsCopy, IsPath, PathCost,
           CountsIn, Cost, Mirrors, WellFormed, Longest;
      var chain;
      OutSize(nodes, spAsCompute, g, sink);
      chain, trail := Extract(strip, spAsCompute, g, rank);
      IsLongest(g, PosOf(nodes, source), MarksOf(nodes), trail, PosOf(nodes, sink));
      CopyNotEmpty(nodes, g, strip, chain, trail, sink);
      cp := new Dag(chain, chain[0], chain[|chain| - 1]);
    }
  }

  /** From the first of its nodes to the last. */
  ghost predicate IsChain(cp: Dag)
    reads cp
  {
    cp.nodes != [] && cp.source == cp.nodes[0] && cp.sink == cp.nodes[|cp.nodes| - 1]
  }

  /** chain copies the nodes along trail and the one it ends in, each with one edge to the
      next, of the cost the edge has in g. */
  ghost predicate IsCopy(nodes: seq<DagNode>, g: Graph, strip: bool, chain: seq<DagNode>,
                         trail: seq<Step>, sink: DagNode)
    reads chain`out
  {
    && |chain| == |trail| + 1
    && (forall k :: 0 <= k < |trail| ==>
          && trail[k].node < |nodes| && trail[k].node < |g| && trail[k].edge < |g[trail[k].node]|
          && CopyOf(chain[k], nodes[trail[k].node], strip)
          && chain[k].out == [(g[trail[k].node][trail[k].edge].cost, chain[k + 1])])
    && CopyOf(chain[|trail|], sink, strip) && chain[|trail|].out == []
  }

  predicate CopyOf(c: DagNode, n: DagNode, strip: bool) {
    && c.bb == n.bb
    && c.access == (if strip && n.access == Scratchpad then NoAccess else n.access)
    && c.accessCost == if strip && n.access == Scratchpad then 0 else n.accessCost
  }

  lemma CopyStarts(nodes: seq<DagNode>, g: Graph, strip: bool, c: DagNode, sink: DagNode)
    requires CopyOf(c, sink, strip) && c.out == []
    ensures IsCopy(nodes, g, strip, [c], [], sink)
  {
  }

  lemma RankSized(g: Graph, rank: seq<nat>)
    requires WellFormed(g) && Ranked(g, rank)
    ensures |rank| == |g|
  {
  }

  lemma RankDrops(g: Graph, rank: seq<nat>, e: Step)
    requires WellFormed(g) && Ranked(g, rank) && e.node < |g| && e.edge < |g[e.node]|
    ensures |rank| == |g| && rank[e.node] < rank[g[e.node][e.edge].dst]
  {
  }

  lemma CopyNotEmpty(nodes: seq<DagNode>, g: Graph, strip: bool, chain: seq<DagNode>,
                     trail: seq<Step>, sink: DagNode)
    requires IsCopy(nodes, g, strip, chain, trail, sink)
    ensures |chain| > 0
  {
  }

  lemma CopyGrows(nodes: seq<DagNode>, g: Graph, strip: bool, chain: seq<DagNode>, trail: seq<Step>,
                  sink: DagNode, n: DagNode, c: DagNode, e: Step)
    requires IsCopy(nodes, g, strip, chain, trail, sink)
    requires e.node < |nodes| && e.node < |g| && e.edge < |g[e.node]| && nodes[e.node] == n
    requires CopyOf(c, n, strip) && c.out == [(g[e.node][e.edge].cost, chain[0])]
    ensures IsCopy(nodes, g, strip, [c] + chain, [e] + trail, sink)
  {
  }

  lemma IsLongest(g: Graph, s: nat, m: Marks, p: seq<Step>, t: nat)
    requires WellFormed(g) && Solved(g, s, m) && t < |g|
    requires IsPath(g, s, p, t) && Cost(g, s, p, t) == m.cost[t]
    ensures Longest(g, s, p, t)
  {
    forall q | IsPath(g, s, q, t)
      ensures Cost(g, s, q, t) <= m.cost[t]
    {
      RelaxedIsUpperBound(g, s, m, q, t);
    }
  }

  lemma EmptyTrail(g: Graph, t: nat)
    ensures IsPath(g, t, [], t) && Cost(g, t, [], t) == 0
  {
  }

  lemma SourceCost(g: Graph, s: nat, m: Marks)
    requires WellFormed(g) && Solved(g, s, m)
    ensures s < |m.cost| && m.cost[s] == 0
  {
  }

  /** The edge that the predecessor of n stands for. */
  lemma PredEdge(nodes: seq<DagNode>, g: Graph, s: nat, n: DagNode) returns (e: Step)
    requires WellFormed(g) && |g| == |nodes| && (forall u :: 0 <= u < |nodes| ==> nodes[u].pos == u)
    requires n in nodes && n.pos != s && Solved(g, s, MarksOf(nodes))
    ensures n.pred != null && n.pred in nodes && e.node == n.pred.pos < |g|
    ensures e.edge < |g[e.node]| && g[e.node][e.edge] == Edge(n.predEdge, n.pos) && IsEdge(g, e, n.pos)
    ensures MarksOf(nodes).cost[n.pos] == MarksOf(nodes).cost[e.node] + n.predEdge
  {
    hide Visits, Costs, Preds, PredEdges;
    var m := MarksOf(nodes);
    assert TightAt(g, m, n.pos);
    var u := m.pred[n.pos];
    var i :| 0 <= i < |g[u]| && g[u][i] == Edge(m.edge[n.pos], n.pos);
    e := Step(u, i);
  }

  /** A path extended at its start. */
  lemma {:induction false} PrependStep(g: Graph, e: Step, s: nat, p: seq<Step>, t: nat)
    requires IsEdge(g, e, s) && IsPath(g, s, p, t)
    ensures IsPath(g, e.node, [e] + p, t)
    ensures Cost(g, e.node, [e] + p, t) == g[e.node][e.edge].cost + Cost(g, s, p, t)
  {
    if p == [] {
      assert ([e] + p)[..0] == [];
    } else {
      var k := |p| - 1;
      PrependStep(g, e, s, p[..k], p[k].node);
      assert ([e] + p)[..k + 1] == [e] + p[..k];
    }
  }

  lemma PriorIgnoresVisited(g: Graph, s: nat, m: Marks, m': Marks)
    requires Prior(g, s, m) && m' == m.(visited := m'.visited) && |m'.visited| == |g|
    ensures Prior(g, s, m')
  {
    forall v: nat | v < |g|
      ensures PriorAt(g, m', v)
    {
      assert PriorAt(g, m, v);
    }
  }

  // ----- Two analyses of one graph

  /** Nodes that no analysis has touched. */
  ghost predicate Untouched(nodes: seq<DagNode>)
    reads nodes`cost
  {
    forall n :: n in nodes ==> n.cost == 0
  }

  lemma UntouchedIsPrior(nodes: seq<DagNode>, g: Graph, s: nat)
    requires Untouched(nodes) && |g| == |nodes| && s < |g|
    ensures Prior(g, s, MarksOf(nodes))
  {
    hide Visits, Costs, Preds, PredEdges;
    assert forall v :: 0 <= v < |g| ==> MarksOf(nodes).cost[v] == nodes[v].cost;
  }

  /** Counting scratchpad accesses as compute only adds to edges. */
  lemma AccessAdds(nodes: seq<DagNode>, g: Graph, h: Graph)
    requires Mirrors(nodes, false, g) && Mirrors(nodes, true, h)
    ensures Dominates(h, g)
  {
  }

  // What the weights are, in the fields of the nodes alone.

  predicate OnNodes(nodes: seq<DagNode>, r: seq<Step>)
    reads nodes`out
  {
    forall k :: 0 <= k < |r| ==> r[k].node < |nodes| && r[k].edge < |nodes[r[k].node].out|
  }

  /** Time on the edges along a path. */
  function EdgeTime(nodes: seq<DagNode>, r: seq<Step>): nat
    requires OnNodes(nodes, r)
    reads nodes`out
  {
    if r == [] then 0
    else
      var e := r[|r| - 1];
      EdgeTime(nodes, r[..|r| - 1]) + nodes[e.node].out[e.edge].0
  }

  /** Time in scratchpad requests along a path. */
  function ScratchpadTime(nodes: seq<DagNode>, r: seq<Step>): nat
    requires OnNodes(nodes, r)
    reads nodes`out
  {
    if r == [] then 0
    else
      var n := nodes[r[|r| - 1].node];
      ScratchpadTime(nodes, r[..|r| - 1]) + if n.access == Scratchpad then n.accessCost else 0
  }

  /** Both analyses see the same paths. The first weighs them by their edges; the second moves the
      time of scratchpad requests to the edges and loses none of it. */
  ghost predicate MovesTime(nodes: seq<DagNode>, g: Graph, h: Graph)
    reads nodes`out
  {
    forall s: nat, r, t: nat ::
      && (IsPath(g, s, r, t) <==> IsPath(h, s, r, t))
      && (IsPath(g, s, r, t) ==>
            && OnNodes(nodes, r) && Cost(g, s, r, t) == EdgeTime(nodes, r)
            && Cost(h, s, r, t) == EdgeTime(nodes, r) + ScratchpadTime(nodes, r))
  }

  lemma {:induction false} SamePaths(g: Graph, h: Graph, s: nat, r: seq<Step>, t: nat)
    requires |g| == |h| && forall u :: 0 <= u < |g| ==> |g[u]| == |h[u]|
    requires forall u, i :: 0 <= u < |g| && 0 <= i < |g[u]| ==> g[u][i].dst == h[u][i].dst
    ensures IsPath(g, s, r, t) <==> IsPath(h, s, r, t)
  {
    if r != [] {
      SamePaths(g, h, s, r[..|r| - 1], r[|r| - 1].node);
    }
  }

  lemma {:induction false} TimesAlong(nodes: seq<DagNode>, g: Graph, h: Graph, s: nat, r: seq<Step>, t: nat)
    requires Mirrors(nodes, false, g) && Mirrors(nodes, true, h) && IsPath(g, s, r, t) && IsPath(h, s, r, t)
    ensures OnNodes(nodes, r) && Cost(g, s, r, t) == EdgeTime(nodes, r)
    ensures Cost(h, s, r, t) == EdgeTime(nodes, r) + ScratchpadTime(nodes, r)
  {
    if r != [] {
      TimesAlong(nodes, g, h, s, r[..|r| - 1], r[|r| - 1].node);
    }
  }

  lemma TimeIsMoved(nodes: seq<DagNode>, g: Graph, h: Graph)
    requires Mirrors(nodes, false, g) && Mirrors(nodes, true, h)
    ensures MovesTime(nodes, g, h)
  {
    forall s: nat, r, t: nat
      ensures IsPath(g, s, r, t) <==> IsPath(h, s, r, t)
      ensures IsPath(g, s, r, t) ==>
                && OnNodes(nodes, r) && Cost(g, s, r, t) == EdgeTime(nodes, r)
                && Cost(h, s, r, t) == EdgeTime(nodes, r) + ScratchpadTime(nodes, r)
    {
      SamePaths(g, h, s, r, t);
      if IsPath(g, s, r, t) {
        TimesAlong(nodes, g, h, s, r, t);
      }
    }
  }

  /** The critical path with scratchpad requests as accesses, then with them as compute. Costs
      and predecessors are not cleared in between. */
  method AnalyseBoth(dag: Dag, ghost g: Graph, ghost h: Graph, ghost rank: seq<nat>)
    returns (access: Dag, execute: Dag, ghost p: seq<Step>, ghost q: seq<Step>)
    requires dag.Valid(false, g, rank) && dag.Valid(true, h, rank) && Untouched(dag.nodes)
    modifies dag.nodes`visited, dag.nodes`cost, dag.nodes`pred, dag.nodes`predEdge
    ensures Longest(g, PosOf(dag.nodes, dag.source), p, PosOf(dag.nodes, dag.sink))
    ensures Longest(h, PosOf(dag.nodes, dag.source), q, PosOf(dag.nodes, dag.sink))
    ensures IsCopy(dag.nodes, g, false, access.nodes, p, dag.sink) && IsChain(access)
    ensures IsCopy(dag.nodes, h, true, execute.nodes, q, dag.sink) && IsChain(execute)
    ensures fresh(access) && fresh(execute)
    ensures MovesTime(dag.nodes, g, h)
  {
    hide Visits, Costs, Preds, PredEdges, Prior, Solved, Positive, AllReachable, Ranked, IsCopy, IsPath, PathCost,
         Dominates, InDegree,
         Longest, MarksOf, WellFormed, Mirrors, CountsIn, MovesTime;
    OutSize(dag.nodes, false, g, dag.source);
    TimeIsMoved(dag.nodes, g, h);
    ghost var s := PosOf(dag.nodes, dag.source);
    UntouchedIsPrior(dag.nodes, g, s);
    access, p := dag.CriticalPath(false, g, rank);
    AccessAdds(dag.nodes, g, h);
    SolvedIsPrior(g, h, s, MarksOf(dag.nodes), MarksOf(dag.nodes));
    execute, q := dag.CriticalPath(true, h, rank);
  }
}
