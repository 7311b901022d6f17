/** From a critical path to its phases: the execute phases add up to the costliest path. */
module CriticalPhases {
  import opened Graphs
  import opened Relaxation
  import opened CriticalPaths
  import opened PathPhases
  import PhaseList

  /** A block of a node; its access is dropped when scratchpad accesses count as computation. */
  function BlockOf(n: DagNode, strip: bool): Block {
    if strip && n.access == Scratchpad then Block(false, false, 0)
    else Block(n.access != NoAccess, n.access == Scratchpad, n.accessCost)
  }

  function Blocks(nodes: seq<DagNode>, strip: bool): (bs: seq<Block>)
    ensures |bs| == |nodes| && forall u :: 0 <= u < |nodes| ==> bs[u] == BlockOf(nodes[u], strip)
  {
    if nodes == [] then [] else Blocks(nodes[..|nodes| - 1], strip) + [BlockOf(nodes[|nodes| - 1], strip)]
  }

  /** The node as the phase list sees it. */
  function NodeOf(n: DagNode, edgeCost: nat): PhaseList.PathNode {
    PhaseList.PathNode(edgeCost, n.access != NoAccess, n.access == Scratchpad, n.accessCost)
  }

  /** The nodes along a path with their own times. */
  function RealPath(nodes: seq<DagNode>, r: seq<Step>): (path: seq<PhaseList.PathNode>)
    requires OnNodes(nodes, r)
    reads nodes`out
    ensures |path| == |r|
    ensures forall k :: 0 <= k < |r| ==>
              path[k] == NodeOf(nodes[r[k].node], nodes[r[k].node].out[r[k].edge].0)
  {
    if r == [] then []
    else
      var e := r[|r| - 1];
      RealPath(nodes, r[..|r| - 1]) + [NodeOf(nodes[e.node], nodes[e.node].out[e.edge].0)]
  }

  lemma TimesOfStep(nodes: seq<DagNode>, g: Graph, strip: bool, e: Step)
    requires Mirrors(nodes, strip, g) && e.node < |g| && e.edge < |g[e.node]|
    ensures e.node < |nodes| && e.edge < |nodes[e.node].out|
    ensures var n := NodeOf(nodes[e.node], nodes[e.node].out[e.edge].0);
            NodeAt(g, Blocks(nodes, strip), e) == if strip then PhaseList.AsExecute(n) else n
  {
  }

  /** What the phases are taken of: all times along the path, and for the second analysis the same
      with scratchpad requests moved into the computation. */
  lemma TimesOfPath(nodes: seq<DagNode>, g: Graph, strip: bool, r: seq<Step>)
    requires Mirrors(nodes, strip, g) && OnGraph(g, Blocks(nodes, strip), r)
    ensures OnNodes(nodes, r)
    ensures Along(g, Blocks(nodes, strip), r)
         == if strip then PhaseList.Folded(RealPath(nodes, r)) else RealPath(nodes, r)
  {
    hide Mirrors, NodeAt, NodeOf, Along, RealPath, PhaseList.Folded, PhaseList.AsExecute;
    forall k | 0 <= k < |r|
      ensures r[k].node < |nodes| && r[k].edge < |nodes[r[k].node].out|
      ensures NodeAt(g, Blocks(nodes, strip), r[k])
           == var n := NodeOf(nodes[r[k].node], nodes[r[k].node].out[r[k].edge].0);
              if strip then PhaseList.AsExecute(n) else n
    {
      TimesOfStep(nodes, g, strip, r[k]);
    }
  }

  /** ps are the phases of a costliest path, and what its execute phases add up to. */
  ghost predicate PhasesFor(g: Graph, blocks: seq<Block>, s: nat, t: nat, trail: seq<Step>, ps: seq<PhaseList.Phase>,
                            pipeDepth: nat)
  {
    && Longest(g, s, trail, t) && OnGraph(g, blocks, trail)
    && var path := Along(g, blocks, trail);
       && IsPhases(ps, path, pipeDepth)
       && PhaseList.Count(ps, PhaseList.Execute) + PhaseList.Tail(path) + (if ps == [] then pipeDepth else 0)
          == pipeDepth + Cost(g, s, trail, t)
  }

  /** ps are the phases of a path with its nodes' own times, scratchpad requests as computation or not. */
  ghost predicate PhasesInTime(nodes: seq<DagNode>, strip: bool, r: seq<Step>, ps: seq<PhaseList.Phase>,
                               pipeDepth: nat)
    reads nodes`out
  {
    OnNodes(nodes, r)
    && IsPhases(ps, if strip then PhaseList.Folded(RealPath(nodes, r)) else RealPath(nodes, r), pipeDepth)
  }

  lemma PhasesAreInTime(nodes: seq<DagNode>, g: Graph, strip: bool, s: nat, t: nat, trail: seq<Step>,
                        ps: seq<PhaseList.Phase>, pipeDepth: nat)
    requires Mirrors(nodes, strip, g) && PhasesFor(g, Blocks(nodes, strip), s, t, trail, ps, pipeDepth)
    ensures PhasesInTime(nodes, strip, trail, ps, pipeDepth)
  {
    hide IsPhases, Longest, Mirrors;
    TimesOfPath(nodes, g, strip, trail);
  }

  /** Walk the chain from source to sink. */
  method Walk(cp: Dag, ghost nodes: seq<DagNode>, ghost g: Graph, ghost strip: bool, ghost trail: seq<Step>,
              ghost sink: DagNode)
    returns (path: seq<PhaseList.PathNode>)
    requires IsCopy(nodes, g, strip, cp.nodes, trail, sink) && IsChain(cp) && |g| == |nodes|
    ensures OnGraph(g, Blocks(nodes, strip), trail) && path == Along(g, Blocks(nodes, strip), trail)
  {
    path := [];
    var n := cp.source;
    ghost var k := 0;
    ghost var blocks := Blocks(nodes, strip);
    ChainOnGraph(nodes, g, strip, cp.nodes, trail, sink);
    while n != cp.sink
      invariant k == |path| <= |trail| && n == cp.nodes[k]
      invariant forall i :: 0 <= i < k ==> path[i] == NodeAt(g, blocks, trail[i])
      decreases |trail| - k
    {
      OneEdge(nodes, g, strip, cp.nodes, trail, sink, k);
      var (cost, next) := n.out[0];
      path := path + [NodeOf(n, cost)];
      n := next;
      k := k + 1;
    }
    if k < |trail| {
      OneEdge(nodes, g, strip, cp.nodes, trail, sink, k);
    }
  }

  lemma ChainOnGraph(nodes: seq<DagNode>, g: Graph, strip: bool, chain: seq<DagNode>, trail: seq<Step>, sink: DagNode)
    requires IsCopy(nodes, g, strip, chain, trail, sink) && |g| == |nodes|
    ensures OnGraph(g, Blocks(nodes, strip), trail)
  {
  }

  /** All nodes of a chain but the last have one edge, to the next. */
  lemma OneEdge(nodes: seq<DagNode>, g: Graph, strip: bool, chain: seq<DagNode>, trail: seq<Step>, sink: DagNode,
                k: nat)
    requires IsCopy(nodes, g, strip, chain, trail, sink) && k < |trail| && |g| == |nodes|
    ensures |chain| == |trail| + 1 && chain[|trail|].out == []
    ensures trail[k].node < |g| && trail[k].edge < |g[trail[k].node]|
    ensures chain[k].out == [(g[trail[k].node][trail[k].edge].cost, chain[k + 1])]
    ensures NodeOf(chain[k], chain[k].out[0].0) == NodeAt(g, Blocks(nodes, strip), trail[k])
  {
    assert CopyOf(chain[k], nodes[trail[k].node], strip);
  }

  /** The phases of a critical path. What the execute phases take, with the edges after the last
      access, is the cost of the costliest path and of filling the pipeline; each access on the path
      has a phase of its own. */
  method PhasesOf(cp: Dag, pipeDepth: nat, ghost nodes: seq<DagNode>, ghost g: Graph, ghost strip: bool,
                  ghost trail: seq<Step>, ghost s: nat, ghost sink: DagNode, ghost t: nat)
    returns (ps: seq<PhaseList.Phase>)
    requires IsCopy(nodes, g, strip, cp.nodes, trail, sink) && Longest(g, s, trail, t)
    requires IsChain(cp) && |g| == |nodes|
    ensures PhasesFor(g, Blocks(nodes, strip), s, t, trail, ps, pipeDepth)
  {
    hide IsCopy, Longest;
    LongestIsPath(g, s, trail, t);
    var path := Walk(cp, nodes, g, strip, trail, sink);
    EdgesAreCost(g, Blocks(nodes, strip), trail);
    ps := PhaseList.BuildPhases(path, pipeDepth);
  }

  /** Both phase lists of the analysis: for the costliest path when scratchpad requests are accesses,
      and when they are computation. */
  method AnalysePhases(dag: Dag, pipeDepth: nat, ghost g: Graph, ghost h: Graph, ghost rank: seq<nat>)
    returns (access: seq<PhaseList.Phase>, execute: seq<PhaseList.Phase>, ghost p: seq<Step>, ghost q: seq<Step>)
    requires dag.Valid(false, g, rank) && dag.Valid(true, h, rank) && Untouched(dag.nodes)
    modifies dag.nodes`visited, dag.nodes`cost, dag.nodes`pred, dag.nodes`predEdge
    ensures PhasesFor(g, Blocks(dag.nodes, false), dag.source.pos, dag.sink.pos, p, access, pipeDepth)
    ensures PhasesFor(h, Blocks(dag.nodes, true), dag.source.pos, dag.sink.pos, q, execute, pipeDepth)
    ensures MovesTime(dag.nodes, g, h)
    ensures PhasesInTime(dag.nodes, false, p, access, pipeDepth) && PhasesInTime(dag.nodes, true, q, execute, pipeDepth)
  {
    hide Longest, IsCopy, PhasesFor, MovesTime, PhasesInTime;
    ghost var s, t := dag.source.pos, dag.sink.pos;
    OutSize(dag.nodes, false, g, dag.source);
    OutSize(dag.nodes, false, g, dag.sink);
    var first, second;
    first, second, p, q := AnalyseBoth(dag, g, h, rank);
    access := PhasesOf(first, pipeDepth, dag.nodes, g, false, p, s, dag.sink, t);
    execute := PhasesOf(second, pipeDepth, dag.nodes, h, true, q, s, dag.sink, t);
    PhasesAreInTime(dag.nodes, g, false, s, t, p, access, pipeDepth);
    PhasesAreInTime(dag.nodes, h, true, s, t, q, execute, pipeDepth);
  }
}
