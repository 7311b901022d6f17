/** The analysis of a kernel as a whole: from its graph of basic blocks to the reported bound. */
module KernelBounds {
  import opened Arith
  import opened Graphs
  import opened CriticalPaths
  import opened PathDominance
  import opened PathPhases
  import opened CriticalPhases
  import opened PhaseList
  import opened RefreshInflation
  import opened WorkDistribution

  /** Reported figures. Without an access on the path there are no phases, and nothing is known. */
  datatype Figures = NoPhases | Figures(best: nat, bound: nat, single: nat)

  /** The figures of a phase list for k work-groups. */
  ghost predicate FiguresOf(t: Timing, ps: seq<Phase>, k: nat, upload: nat, f: Figures)
    requires Usable(t)
  {
    if ps == [] then f == NoPhases
    else
      && f.Figures? && f.best <= f.bound <= f.single
      && f.best == Max(Max(PerfectParallelism(ps, k), Inflate(t, Count(ps, AccessDram) * k)) + upload,
                       Inflate(t, DoubleBuffered(ps, k)) + upload)
      && f.single == Inflate(t, SingleBuffered(ps, k) + upload)
      && f.bound == Inflate(t, Wcet(ps, k) + upload) && CoversAll(t, ps, k, upload, f.bound)
  }

  /** Work-group wg takes path q, no longer on any edge or in any access than the nodes say, and no
      longer for a phase than that adds up to; scratchpad requests are part of the computation or not. */
  ghost predicate Takes(nodes: seq<DagNode>, g: Graph, s: nat, t: nat, strip: bool, pipeDepth: nat, dur: Durations,
                        wg: nat, q: seq<Step>, path: seq<PathNode>, qs: seq<Phase>)
    reads nodes`out
  {
    && IsPath(g, s, q, t) && OnNodes(nodes, q) && NoSlower(path, RealPath(nodes, q))
    && IsPhases(qs, if strip then Folded(path) else path, pipeDepth)
    && forall i :: 0 <= i < |qs| ==> dur(wg, i) <= qs[i].cost
  }

  ghost predicate TakesPath(nodes: seq<DagNode>, g: Graph, s: nat, t: nat, strip: bool, pipeDepth: nat,
                            dur: Durations, wg: nat)
    reads nodes`out
  {
    exists q, path, qs :: Takes(nodes, g, s, t, strip, pipeDepth, dur, wg, q, path, qs)
  }

  ghost predicate Feasible(nodes: seq<DagNode>, g: Graph, s: nat, t: nat, strip: bool, pipeDepth: nat, dur: Durations)
    reads nodes`out
  {
    forall wg: nat :: TakesPath(nodes, g, s, t, strip, pipeDepth, dur, wg)
  }

  /** If no access can be avoided, the phases of the costliest path bound those of every work-group. */
  lemma FeasibleIsBounded(nodes: seq<DagNode>, g: Graph, rank: seq<nat>, s: nat, t: nat, strip: bool,
                          trail: seq<Step>, ps: seq<Phase>, pipeDepth: nat, dur: Durations)
    requires Mirrors(nodes, strip, g) && WellFormed(g) && Ranked(g, rank)
    requires SingleExit(g, Blocks(nodes, strip)) && Unavoidable(g, Blocks(nodes, strip), s, t)
    requires PhasesFor(g, Blocks(nodes, strip), s, t, trail, ps, pipeDepth)
    requires Feasible(nodes, g, s, t, strip, pipeDepth, dur)
    ensures Bounded(ps, dur)
  {
    hide IsPhases, IsPath, Longest, OnGraph, Along, SingleExit, Unavoidable, WellFormed, Ranked, Mirrors, NoSlower,
         Folded, RealPath, OnNodes;
    forall wg: nat, i: nat | i < |ps|
      ensures dur(wg, i) <= ps[i].cost
    {
      assert TakesPath(nodes, g, s, t, strip, pipeDepth, dur, wg);
      var q, path, qs :| Takes(nodes, g, s, t, strip, pipeDepth, dur, wg, q, path, qs);
      WithinCostliest(nodes, g, rank, s, t, strip, trail, ps, q, path, qs, pipeDepth);
    }
  }

  lemma WithinCostliest(nodes: seq<DagNode>, g: Graph, rank: seq<nat>, s: nat, t: nat, strip: bool,
                        trail: seq<Step>, ps: seq<Phase>, q: seq<Step>, path: seq<PathNode>, qs: seq<Phase>,
                        pipeDepth: nat)
    requires Mirrors(nodes, strip, g) && WellFormed(g) && Ranked(g, rank)
    requires SingleExit(g, Blocks(nodes, strip)) && Unavoidable(g, Blocks(nodes, strip), s, t)
    requires PhasesFor(g, Blocks(nodes, strip), s, t, trail, ps, pipeDepth)
    requires IsPath(g, s, q, t) && OnNodes(nodes, q) && NoSlower(path, RealPath(nodes, q))
    requires IsPhases(qs, if strip then Folded(path) else path, pipeDepth)
    ensures |qs| == |ps| && forall i :: 0 <= i < |qs| ==> qs[i].cost <= ps[i].cost
  {
    hide IsPhases, IsPath, Longest, Along, SingleExit, Unavoidable, WellFormed, Ranked, Mirrors, NoSlower,
         Folded, RealPath, OnNodes;
    PathEdges(g, s, q, t);
    TimesOfPath(nodes, g, strip, q);
    FoldedNoSlower(path, RealPath(nodes, q));
    var all := Along(g, Blocks(nodes, strip), q);
    var rs := PhasesExist(all, pipeDepth);
    PhasesNoSlower(if strip then Folded(path) else path, all, qs, rs, pipeDepth);
    UnavoidableWithin(g, Blocks(nodes, strip), rank, s, t, trail, q, ps, rs, pipeDepth);
  }

  /** Accesses do not branch, and no path misses one. */
  ghost predicate Predictable(g: Graph, blocks: seq<Block>, s: nat, t: nat) {
    SingleExit(g, blocks) && Unavoidable(g, blocks, s, t)
  }

  /** The bound covers every run of k work-groups. */
  ghost predicate Safe(nodes: seq<DagNode>, g: Graph, s: nat, t: nat, strip: bool, pipeDepth: nat, timing: Timing,
                       ps: seq<Phase>, k: nat, upload: nat, bound: nat)
    requires Usable(timing) && ps != []
    reads nodes`out
  {
    forall dur: Durations :: Feasible(nodes, g, s, t, strip, pipeDepth, dur) ==>
      Covers(timing, bound, Makespan(ps, dur, k) + upload)
  }

  lemma BoundIsSafe(nodes: seq<DagNode>, g: Graph, rank: seq<nat>, s: nat, t: nat, strip: bool, trail: seq<Step>,
                    ps: seq<Phase>, pipeDepth: nat, timing: Timing, k: nat, upload: nat, f: Figures)
    requires Mirrors(nodes, strip, g) && WellFormed(g) && Ranked(g, rank)
    requires Predictable(g, Blocks(nodes, strip), s, t)
    requires PhasesFor(g, Blocks(nodes, strip), s, t, trail, ps, pipeDepth)
    requires Usable(timing) && FiguresOf(timing, ps, k, upload, f) && ps != []
    ensures Safe(nodes, g, s, t, strip, pipeDepth, timing, ps, k, upload, f.bound)
  {
    hide PhasesFor, Feasible, Covers, Makespan, Bounded, WellFormed, Ranked, SingleExit, Unavoidable, Mirrors;
    forall dur: Durations | Feasible(nodes, g, s, t, strip, pipeDepth, dur)
      ensures Covers(timing, f.bound, Makespan(ps, dur, k) + upload)
    {
      FeasibleIsBounded(nodes, g, rank, s, t, strip, trail, ps, pipeDepth, dur);
    }
  }

  method Report(t: Timing, ps: seq<Phase>, k: nat, upload: nat) returns (f: Figures)
    requires Usable(t) && Alternating(ps) && 1 <= k
    ensures FiguresOf(t, ps, k, upload, f)
  {
    hide Wcet, Inflate, CoversAll, PerfectParallelism, DoubleBuffered, SingleBuffered, Count;
    if ps == [] {
      f := NoPhases;
    } else {
      var best, bound, single := ReportBounds(t, ps, k, upload);
      f := Figures(best, bound, single);
    }
  }

  /** Both analyses of a kernel for a grid of d0 by d1 threads, scratchpad requests as accesses and as
      computation. Where no access can be avoided, the bound leaves time for all work-groups,
      whichever paths they take, for the upload of the program and for all refreshes. */
  method AnalyseKernel(dag: Dag, pipeDepth: nat, timing: Timing, d0: nat, d1: nat, w: nat, upload: nat,
                       ghost g: Graph, ghost h: Graph, ghost rank: seq<nat>)
    returns (asAccess: Figures, asExecute: Figures, access: seq<Phase>, execute: seq<Phase>,
             ghost p: seq<Step>, ghost q: seq<Step>)
    requires dag.Valid(false, g, rank) && dag.Valid(true, h, rank) && Untouched(dag.nodes)
    requires Usable(timing) && d0 > 0 && d1 > 0 && w <= 5
    modifies dag.nodes`visited, dag.nodes`cost, dag.nodes`pred, dag.nodes`predEdge
    ensures PhasesFor(g, Blocks(dag.nodes, false), dag.source.pos, dag.sink.pos, p, access, pipeDepth)
    ensures PhasesFor(h, Blocks(dag.nodes, true), dag.source.pos, dag.sink.pos, q, execute, pipeDepth)
    ensures MovesTime(dag.nodes, g, h)
    ensures PhasesInTime(dag.nodes, false, p, access, pipeDepth) && PhasesInTime(dag.nodes, true, q, execute, pipeDepth)
    ensures FiguresOf(timing, access, Workgroups(d0, d1, w), upload, asAccess)
    ensures FiguresOf(timing, execute, Workgroups(d0, d1, w), upload, asExecute)
    ensures asAccess.Figures? && Predictable(g, Blocks(dag.nodes, false), dag.source.pos, dag.sink.pos) ==>
              Safe(dag.nodes, g, dag.source.pos, dag.sink.pos, false, pipeDepth, timing, access,
                   Workgroups(d0, d1, w), upload, asAccess.bound)
    ensures asExecute.Figures? && Predictable(h, Blocks(dag.nodes, true), dag.source.pos, dag.sink.pos) ==>
              Safe(dag.nodes, h, dag.source.pos, dag.sink.pos, true, pipeDepth, timing, execute,
                   Workgroups(d0, d1, w), upload, asExecute.bound)
  {
    hide PhasesFor, Predictable, Safe, Workgroups, Wcet, Inflate, CoversAll, Alternating, MovesTime, PhasesInTime,
         Mirrors, CountsIn, WellFormed, Ranked, AllReachable, Positive, Untouched, FiguresOf;
    access, execute, p, q := AnalysePhases(dag, pipeDepth, g, h, rank);
    var k := Workgroups(d0, d1, w);
    SomeGroup(d0, d1, w);
    ghost var s, t := dag.source.pos, dag.sink.pos;
    PhasesAlternate(g, Blocks(dag.nodes, false), s, t, p, access, pipeDepth);
    PhasesAlternate(h, Blocks(dag.nodes, true), s, t, q, execute, pipeDepth);
    asAccess := Report(timing, access, k, upload);
    asExecute := Report(timing, execute, k, upload);
    NoFiguresWithoutPhases(timing, access, k, upload, asAccess);
    NoFiguresWithoutPhases(timing, execute, k, upload, asExecute);
    if access != [] && Predictable(g, Blocks(dag.nodes, false), s, t) {
      BoundIsSafe(dag.nodes, g, rank, s, t, false, p, access, pipeDepth, timing, k, upload, asAccess);
    }
    if execute != [] && Predictable(h, Blocks(dag.nodes, true), s, t) {
      BoundIsSafe(dag.nodes, h, rank, s, t, true, q, execute, pipeDepth, timing, k, upload, asExecute);
    }
  }

  lemma NoFiguresWithoutPhases(t: Timing, ps: seq<Phase>, k: nat, upload: nat, f: Figures)
    requires Usable(t) && FiguresOf(t, ps, k, upload, f)
    ensures f.Figures? <==> ps != []
  {
  }

  lemma PhasesAlternate(g: Graph, blocks: seq<Block>, s: nat, t: nat, trail: seq<Step>, ps: seq<Phase>, pipeDepth: nat)
    requires PhasesFor(g, blocks, s, t, trail, ps, pipeDepth)
    ensures Alternating(ps)
  {
  }

  lemma SomeGroup(d0: nat, d1: nat, w: nat)
    requires d0 > 0 && d1 > 0 && w <= 5
    ensures Workgroups(d0, d1, w) >= 1
  {
    hide Width, Height, DivUp;
    CeilingIs(d0, Width(w), 0);
    CeilingIs(d1, Height(w), 0);
    MulMono(1, DivUp(d0, Width(w)), DivUp(d1, Height(w)));
  }
}
