/** The worst-case execution time of a kernel from its list of execute and access phases.

Two work-group slots share one compute unit and one memory. The analysis uses a closed form;
here it is compared with the schedule itself. */
module PhaseList {
  import opened Arith

  datatype Kind = Execute | AccessSp | AccessDram

  datatype Phase = Phase(kind: Kind, cost: nat)

  /** Execute phases at even, access phases at odd positions. */
  predicate Alternating(ps: seq<Phase>) {
    |ps| % 2 == 0 && forall i :: 0 <= i < |ps| ==> (ps[i].kind == Execute <==> i % 2 == 0)
  }

  function Total(ps: seq<Phase>): nat {
    if ps == [] then 0 else Total(ps[..|ps| - 1]) + ps[|ps| - 1].cost
  }

  function Count(ps: seq<Phase>, kind: Kind): nat {
    if ps == [] then 0
    else Count(ps[..|ps| - 1], kind) + if ps[|ps| - 1].kind == kind then ps[|ps| - 1].cost else 0
  }

  lemma CountAppend(front: seq<Phase>, last: Phase)
    ensures forall kind ::
              Count(front + [last], kind) == Count(front, kind) + if last.kind == kind then last.cost else 0
    ensures Total(front + [last]) == Total(front) + last.cost
  {
    assert (front + [last])[..|front|] == front;
  }

  // ----- From the critical path to the phase list

  datatype PathNode = PathNode(edgeCost: nat, access: bool, scratchpad: bool, accessCost: nat)

  function NodeCosts(path: seq<PathNode>): nat {
    if path == [] then 0
    else
      var n := path[|path| - 1];
      NodeCosts(path[..|path| - 1]) + n.edgeCost + if n.access then n.accessCost else 0
  }

  /** Cost of the edges alone. */
  function Edges(path: seq<PathNode>): nat {
    if path == [] then 0 else Edges(path[..|path| - 1]) + path[|path| - 1].edgeCost
  }

  /** Cost of the edges after the last access: the compute time that no phase carries. */
  function Tail(path: seq<PathNode>): nat {
    if path == [] then 0
    else
      var n := path[|path| - 1];
      if n.access then 0 else Tail(path[..|path| - 1]) + n.edgeCost
  }

  /** A scratchpad request that counts as computation. */
  function AsExecute(n: PathNode): PathNode {
    if n.access && n.scratchpad then PathNode(n.edgeCost + n.accessCost, false, false, 0) else n
  }

  /** The same path with all its scratchpad requests as computation. */
  function Folded(path: seq<PathNode>): (p: seq<PathNode>)
    ensures |p| == |path| && forall k :: 0 <= k < |path| ==> p[k] == AsExecute(path[k])
  {
    if path == [] then [] else Folded(path[..|path| - 1]) + [AsExecute(path[|path| - 1])]
  }

  lemma {:induction false} FoldingKeepsTime(path: seq<PathNode>)
    ensures NodeCosts(Folded(path)) == NodeCosts(path)
  {
    if path != [] {
      FoldingKeepsTime(path[..|path| - 1]);
      assert Folded(path)[..|path| - 1] == Folded(path[..|path| - 1]);
    }
  }

  /** Nodes with an access. */
  function Accesses(path: seq<PathNode>): nat {
    if path == [] then 0 else Accesses(path[..|path| - 1]) + if path[|path| - 1].access then 1 else 0
  }

  lemma {:induction false} AccessesIsZero(path: seq<PathNode>)
    ensures Accesses(path) == 0 <==> forall i :: 0 <= i < |path| ==> !path[i].access
  {
    if path != [] {
      AccessesIsZero(path[..|path| - 1]);
      assert forall i :: 0 <= i < |path| - 1 ==> path[..|path| - 1][i] == path[i];
    }
  }

  /** Phase 2 * j + 1 is the access of node i, and with it all costs up to that node are in. */
  predicate Closes(ps: seq<Phase>, j: nat, path: seq<PathNode>, i: nat, pipeDepth: nat)
    requires i < |path|
  {
    && 2 * j + 2 <= |ps|
    && ps[2 * j + 1] == Phase(if path[i].scratchpad then AccessSp else AccessDram, path[i].accessCost)
    && Total(ps[..2 * j + 2]) == pipeDepth + NodeCosts(path[..i + 1])
  }

  lemma StaysClosed(ps: seq<Phase>, more: seq<Phase>, j: nat, path: seq<PathNode>, i: nat, pipeDepth: nat)
    requires i < |path| && Closes(ps, j, path, i, pipeDepth)
    ensures Closes(ps + more, j, path, i, pipeDepth)
  {
    assert (ps + more)[..2 * j + 2] == ps[..2 * j + 2];
  }

  lemma PairAdded(ps: seq<Phase>, e: Phase, a: Phase)
    ensures Total(ps + [e, a]) == Total(ps) + e.cost + a.cost
    ensures e.kind == Execute && a.kind != Execute ==> Count(ps + [e, a], Execute) == Count(ps, Execute) + e.cost
    ensures Alternating(ps) && e.kind == Execute && a.kind != Execute ==> Alternating(ps + [e, a])
  {
    assert ps + [e, a] == (ps + [e]) + [a];
    CountAppend(ps, e);
    CountAppend(ps + [e], a);
  }

  lemma PairCloses(ps: seq<Phase>, j: nat, path: seq<PathNode>, i: nat, pipeDepth: nat)
    requires i < |path| && |ps| == 2 * j + 2 && Total(ps) == pipeDepth + NodeCosts(path[..i + 1])
    requires ps[2 * j + 1] == Phase(if path[i].scratchpad then AccessSp else AccessDram, path[i].accessCost)
    ensures Closes(ps, j, path, i, pipeDepth)
  {
    assert ps[..2 * j + 2] == ps;
  }

  /** The nodes before the sink become alternating phases, a pair for every access in order:
      its own cost, and before it the execution since the access before. Nothing is lost except
      the edges after the last access, and the pipeline is filled once. */
  method BuildPhases(path: seq<PathNode>, pipeDepth: nat) returns (ps: seq<Phase>)
    ensures Alternating(ps) && |ps| == 2 * Accesses(path)
    ensures forall i :: 0 <= i < |path| && path[i].access ==> Closes(ps, Accesses(path[..i]), path, i, pipeDepth)
    ensures Total(ps) + Tail(path) + (if ps == [] then pipeDepth else 0) == pipeDepth + NodeCosts(path)
    ensures Count(ps, Execute) + Tail(path) + (if ps == [] then pipeDepth else 0) == pipeDepth + Edges(path)
    ensures ps == [] <==> forall i :: 0 <= i < |path| ==> !path[i].access
  {
    ps := [];
    var execute := pipeDepth;
    for i := 0 to |path|
      invariant Alternating(ps) && |ps| == 2 * Accesses(path[..i])
      invariant execute == Tail(path[..i]) + if ps == [] then pipeDepth else 0
      invariant Total(ps) + execute == pipeDepth + NodeCosts(path[..i])
      invariant Count(ps, Execute) + execute == pipeDepth + Edges(path[..i])
      invariant forall x :: 0 <= x < i && path[x].access ==> Closes(ps, Accesses(path[..x]), path, x, pipeDepth)
    {
      hide Closes, Alternating, Total, Count;
      assert path[..i + 1][..i] == path[..i];
      var n := path[i];
      execute := execute + n.edgeCost;
      if n.access {
        var e := Phase(Execute, execute);
        var a := Phase(if n.scratchpad then AccessSp else AccessDram, n.accessCost);
        PairAdded(ps, e, a);
        forall x | 0 <= x < i && path[x].access
          ensures Closes(ps + [e, a], Accesses(path[..x]), path, x, pipeDepth)
        {
          StaysClosed(ps, [e, a], Accesses(path[..x]), path, x, pipeDepth);
        }
        ps := ps + [e, a];
        PairCloses(ps, Accesses(path[..i]), path, i, pipeDepth);
        execute := 0;
      }
    }
    assert path[..|path|] == path;
    AccessesIsZero(path);
  }

  // ----- The closed form

  /** Cost of the s-th phase of a slot that runs work-group after work-group. */
  function P(ps: seq<Phase>, s: nat): nat
    requires ps != []
  {
    ps[s % |ps|].cost
  }

  /** Sum of max(P(j), P(j - 1)) for 1 <= j <= s. */
  function Interleaved(ps: seq<Phase>, s: nat): nat
    requires ps != []
  {
    if s == 0 then 0 else Interleaved(ps, s - 1) + Max(P(ps, s), P(ps, s - 1))
  }

  function Wcet(ps: seq<Phase>, k: nat): nat
    requires ps != []
  {
    Interleaved(ps, |ps|) * (k / 2)
    + if k % 2 == 1 then Total(ps) else Min(ps[0].cost, ps[|ps| - 1].cost)
  }

  /** The loop over adjacent phases, the last one followed by the first. */
  method ComputeWcet(ps: seq<Phase>, k: nat) returns (w: nat)
    requires |ps| >= 2
    ensures w == Wcet(ps, k)
  {
    hide P;
    var total, interleaved := 0, 0;
    for i := 0 to |ps|
      invariant total == Total(ps[..i]) && interleaved == Interleaved(ps, i)
    {
      assert ps[..i + 1][..i] == ps[..i];
      PhaseAt(ps, i);
      NextPhase(ps, i);
      total := total + ps[i].cost;
      interleaved := interleaved + Max(ps[i].cost, ps[(i + 1) % |ps|].cost);
    }
    assert ps[..|ps|] == ps;
    w := interleaved * (k / 2);
    if k % 2 == 1 {
      w := w + total;
    } else {
      w := w + Min(ps[0].cost, ps[|ps| - 1].cost);
    }
  }

  /** The wrapped neighbour index. */
  lemma NextPhase(ps: seq<Phase>, i: nat)
    requires i < |ps|
    ensures P(ps, i + 1) == ps[(i + 1) % |ps|].cost
  {
  }

  lemma PhaseAt(ps: seq<Phase>, i: nat)
    requires i < |ps|
    ensures P(ps, i) == ps[i].cost
    ensures P(ps, |ps|) == ps[0].cost
  {
    DivModUnique(i, |ps|, 0, i);
    DivModUnique(|ps|, |ps|, 1, 0);
  }

  lemma Periodic(ps: seq<Phase>, s: nat)
    requires ps != []
    ensures P(ps, s + |ps|) == P(ps, s)
  {
    AddMultiple(s, 1, |ps|);
  }

  lemma {:induction false} InterleavedShift(ps: seq<Phase>, s: nat)
    requires ps != []
    ensures Interleaved(ps, s + |ps|) == Interleaved(ps, s) + Interleaved(ps, |ps|)
  {
    if s > 0 {
      InterleavedShift(ps, s - 1);
      Periodic(ps, s);
      Periodic(ps, s - 1);
    }
  }

  /** Length of the first m rounds of a slot. */
  function Rounds(ps: seq<Phase>, m: nat): nat {
    if m == 0 then 0 else Rounds(ps, m - 1) + |ps|
  }

  lemma {:induction false} InterleavedRounds(ps: seq<Phase>, m: nat)
    requires ps != []
    ensures Interleaved(ps, Rounds(ps, m)) == Interleaved(ps, |ps|) * m
  {
    if m > 0 {
      InterleavedRounds(ps, m - 1);
      InterleavedShift(ps, Rounds(ps, m - 1));
      assert Interleaved(ps, |ps|) * m == Interleaved(ps, |ps|) * (m - 1) + Interleaved(ps, |ps|);
    }
  }

  lemma {:induction false} RoundsMod(ps: seq<Phase>, m: nat)
    requires ps != []
    ensures Rounds(ps, m) % |ps| == 0
    ensures m > 0 ==> (Rounds(ps, m) - 1) % |ps| == |ps| - 1
  {
    if m > 0 {
      RoundsMod(ps, m - 1);
      AddMultiple(Rounds(ps, m - 1), 1, |ps|);
      AddMod(Rounds(ps, m - 1), |ps| - 1, |ps|);
    }
  }

  // ----- The schedule

  /** Actual durations: of phase i of work-group g. */
  type Durations = (nat, nat) -> nat

  ghost predicate Bounded(ps: seq<Phase>, dur: Durations) {
    forall g: nat, i: nat :: i < |ps| ==> dur(g, i) <= ps[i].cost
  }

  /** Phases slot 0 and slot 1 run for k work-groups. */
  function Length(ps: seq<Phase>, k: nat, slot: nat): nat {
    Rounds(ps, if slot == 0 then (k + 1) / 2 else k / 2)
  }

  function Duration(ps: seq<Phase>, dur: Durations, slot: nat, s: nat): nat
    requires ps != []
  {
    dur(2 * (s / |ps|) + slot, s % |ps|)
  }

  /** When slot's s-th phase finishes. It starts once the slot's previous phase is done and
      the other slot has released the unit it needs: execute and access take turns, slot 0
      first. A phase that does not exist delays nothing. */
  function Finish(ps: seq<Phase>, dur: Durations, k: nat, slot: nat, s: int): nat
    requires ps != [] && slot <= 1
    decreases s, slot
  {
    if s < 0 || s >= Length(ps, k, slot) then 0
    else
      var own := Finish(ps, dur, k, slot, s - 1);
      var other := if slot == 0 then Finish(ps, dur, k, 1, s - 2) else Finish(ps, dur, k, 0, s);
      Max(own, other) + Duration(ps, dur, slot, s)
  }

  /** When the last of k work-groups is done. */
  function Makespan(ps: seq<Phase>, dur: Durations, k: nat): nat
    requires ps != []
  {
    Max(Finish(ps, dur, k, 0, Length(ps, k, 0) - 1), Finish(ps, dur, k, 1, Length(ps, k, 1) - 1))
  }

  lemma LengthOrder(ps: seq<Phase>, k: nat)
    ensures Length(ps, k, 1) <= Length(ps, k, 0)
    ensures k % 2 == 0 ==> Length(ps, k, 0) == Length(ps, k, 1)
    ensures k % 2 == 1 ==> Length(ps, k, 0) == Length(ps, k, 1) + |ps|
  {
    if k % 2 == 1 {
      assert (k + 1) / 2 == k / 2 + 1;
    }
  }

  /** When both slots have finished the phases before step s; slot 1 runs one phase behind. */
  function Front(ps: seq<Phase>, dur: Durations, k: nat, s: nat): nat
    requires ps != []
  {
    Max(Finish(ps, dur, k, 0, s - 1), Finish(ps, dur, k, 1, s - 2))
  }

  function StepTime(ps: seq<Phase>, dur: Durations, k: nat, s: nat): nat
    requires ps != []
  {
    Max(if s < Length(ps, k, 0) then Duration(ps, dur, 0, s) else 0,
        if 1 <= s && s - 1 < Length(ps, k, 1) then Duration(ps, dur, 1, s - 1) else 0)
  }

  /** The slots move in lock-step, although nothing but the shared units makes them. */
  lemma FrontStep(ps: seq<Phase>, dur: Durations, k: nat, s: nat)
    requires ps != [] && (s < Length(ps, k, 0) || 1 <= s <= Length(ps, k, 1))
    ensures Front(ps, dur, k, s + 1) == Front(ps, dur, k, s) + StepTime(ps, dur, k, s)
  {
    hide Length, Duration;
    LengthOrder(ps, k);
  }

  function StepBound(ps: seq<Phase>, k: nat, s: nat): nat
    requires ps != []
  {
    Max(if s < Length(ps, k, 0) then P(ps, s) else 0,
        if 1 <= s && s - 1 < Length(ps, k, 1) then P(ps, s - 1) else 0)
  }

  function Barrier(ps: seq<Phase>, k: nat, s: nat): nat
    requires ps != []
  {
    if s == 0 then 0 else Barrier(ps, k, s - 1) + StepBound(ps, k, s - 1)
  }

  /** All phases take their bound. */
  function AtBounds(ps: seq<Phase>): Durations {
    (g: nat, i: nat) => if i < |ps| then ps[i].cost else 0
  }

  function Steps(ps: seq<Phase>, k: nat): nat {
    Length(ps, k, 0) + if k % 2 == 0 then 1 else 0
  }

  lemma DurationBounded(ps: seq<Phase>, dur: Durations, slot: nat, s: nat)
    requires ps != [] && Bounded(ps, dur)
    ensures Duration(ps, dur, slot, s) <= P(ps, s)
    ensures Duration(ps, AtBounds(ps), slot, s) == P(ps, s)
  {
    ModBound(s, |ps|);
  }

  lemma StepBounded(ps: seq<Phase>, dur: Durations, k: nat, s: nat)
    requires ps != [] && Bounded(ps, dur)
    ensures StepTime(ps, dur, k, s) <= StepBound(ps, k, s)
    ensures StepTime(ps, AtBounds(ps), k, s) == StepBound(ps, k, s)
  {
    hide Length, Duration, P, Bounded, AtBounds;
    DurationBounded(ps, dur, 0, s);
    if s >= 1 {
      DurationBounded(ps, dur, 1, s - 1);
    }
  }

  lemma {:induction false} FrontBounded(ps: seq<Phase>, dur: Durations, k: nat, s: nat)
    requires ps != [] && Bounded(ps, dur) && 1 <= k && s <= Steps(ps, k)
    ensures Front(ps, dur, k, s) <= Barrier(ps, k, s)
    ensures Front(ps, AtBounds(ps), k, s) == Barrier(ps, k, s)
  {
    hide Length, Front, StepTime, StepBound;
    if s == 0 {
      NothingFirst(ps, dur, k);
      NothingFirst(ps, AtBounds(ps), k);
    } else {
      LengthOrder(ps, k);
      RoundsPositive(ps, k);
      FrontBounded(ps, dur, k, s - 1);
      FrontStep(ps, dur, k, s - 1);
      FrontStep(ps, AtBounds(ps), k, s - 1);
      StepBounded(ps, dur, k, s - 1);
    }
  }

  lemma RoundsPositive(ps: seq<Phase>, k: nat)
    requires ps != [] && 1 <= k
    ensures Length(ps, k, 0) >= |ps|
  {
    assert (k + 1) / 2 >= 1;
  }

  lemma NothingFirst(ps: seq<Phase>, dur: Durations, k: nat)
    requires ps != []
    ensures Front(ps, dur, k, 0) == 0
  {
  }

  lemma MakespanIsFront(ps: seq<Phase>, dur: Durations, k: nat)
    requires |ps| >= 2 && 1 <= k
    ensures Makespan(ps, dur, k) == Front(ps, dur, k, Steps(ps, k))
  {
    hide Length, Duration;
    LengthOrder(ps, k);
    RoundsPositive(ps, k);
    var c0: int, c1: int := Length(ps, k, 0), Length(ps, k, 1);
    if k % 2 == 1 {
      FinishGrows(ps, dur, k, c1 + 1, c0 - 1);
      assert Finish(ps, dur, k, 1, c1 - 1) <= Finish(ps, dur, k, 0, c1 + 1);
    }
  }

  lemma {:induction false} FinishGrows(ps: seq<Phase>, dur: Durations, k: nat, s: nat, t: nat)
    requires ps != [] && s <= t < Length(ps, k, 0)
    ensures Finish(ps, dur, k, 0, s) <= Finish(ps, dur, k, 0, t)
    decreases t
  {
    if s < t {
      FinishGrows(ps, dur, k, s, t - 1);
    }
  }

  // ----- The closed form is the barrier schedule

  lemma {:induction false} BarrierInterleaves(ps: seq<Phase>, k: nat, s: nat)
    requires ps != [] && s < Length(ps, k, 0) && s <= Length(ps, k, 1)
    ensures Barrier(ps, k, s + 1) == P(ps, 0) + Interleaved(ps, s)
  {
    hide Length;
    if s > 0 {
      BarrierInterleaves(ps, k, s - 1);
    } else {
      assert Barrier(ps, k, 1) == Barrier(ps, k, 0) + StepBound(ps, k, 0);
    }
  }

  /** An odd last work-group runs by itself. */
  lemma {:induction false} BarrierAlone(ps: seq<Phase>, k: nat, j: nat)
    requires k % 2 == 1 && 1 <= j <= |ps|
    ensures Barrier(ps, k, Length(ps, k, 1) + j)
         == Interleaved(ps, Length(ps, k, 1)) + Total(ps[..j])
  {
    hide Length;
    var c := Length(ps, k, 1);
    LengthOrder(ps, k);
    LengthPhase(ps, k, j - 1);
    assert ps[..j][..j - 1] == ps[..j - 1];
    if j == 1 {
      BarrierInterleaves(ps, k, c);
    } else {
      BarrierAlone(ps, k, j - 1);
      assert StepBound(ps, k, c + j - 1) == P(ps, c + j - 1);
    }
  }

  lemma LengthPhase(ps: seq<Phase>, k: nat, j: nat)
    requires j < |ps|
    ensures P(ps, Length(ps, k, 1) + j) == ps[j].cost
    ensures Length(ps, k, 1) > 0 ==> P(ps, Length(ps, k, 1) - 1) == ps[|ps| - 1].cost
  {
    RoundsMod(ps, k / 2);
    AddMod(Length(ps, k, 1), j, |ps|);
  }

  lemma BarrierIsWcet(ps: seq<Phase>, k: nat)
    requires |ps| >= 2 && 1 <= k
    ensures Barrier(ps, k, Steps(ps, k)) == Wcet(ps, k)
  {
    hide P, Total, Rounds;
    var c := Length(ps, k, 1);
    LengthOrder(ps, k);
    RoundsPositive(ps, k);
    InterleavedRounds(ps, k / 2);
    LengthPhase(ps, k, 0);
    PhaseAt(ps, 0);
    if k % 2 == 1 {
      BarrierAlone(ps, k, |ps|);
      assert ps[..|ps|] == ps;
    } else {
      hide Length;
      BarrierInterleaves(ps, k, c - 1);
      assert StepBound(ps, k, c) == P(ps, c - 1);
    }
  }

  /** Whatever the phases take, within their bounds, k work-groups are done by the closed
      form; and they take exactly that long when every phase takes its bound. */
  lemma WcetIsSoundAndExact(ps: seq<Phase>, dur: Durations, k: nat)
    requires |ps| >= 2 && 1 <= k && Bounded(ps, dur)
    ensures Makespan(ps, dur, k) <= Wcet(ps, k)
    ensures Makespan(ps, AtBounds(ps), k) == Wcet(ps, k)
  {
    hide *;
    FrontBounded(ps, dur, k, Steps(ps, k));
    MakespanIsFront(ps, dur, k);
    MakespanIsFront(ps, AtBounds(ps), k);
    BarrierIsWcet(ps, k);
  }

  // ----- Bounds on the closed form

  /** Perfect parallelism: the busiest unit works all the time (without refresh). */
  function PerfectParallelism(ps: seq<Phase>, k: nat): nat {
    Max(Max(Count(ps, Execute) * k, Count(ps, AccessSp) * k), Count(ps, AccessDram) * k)
  }

  function DoubleBuffered(ps: seq<Phase>, k: nat): nat {
    Total(ps) * DivUp(k, 2)
  }

  function SingleBuffered(ps: seq<Phase>, k: nat): nat {
    Total(ps) * k
  }

  /** What a slot spends in phases of one kind, in its first n phases. */
  function Spent(ps: seq<Phase>, kind: Kind, n: nat): nat
    requires ps != []
  {
    if n == 0 then 0
    else Spent(ps, kind, n - 1) + if ps[(n - 1) % |ps|].kind == kind then ps[(n - 1) % |ps|].cost else 0
  }

  /** What both slots spend in it for k work-groups. */
  function SpentByBoth(ps: seq<Phase>, kind: Kind, k: nat): nat
    requires ps != []
  {
    Spent(ps, kind, Length(ps, k, 0)) + Spent(ps, kind, Length(ps, k, 1))
  }

  lemma {:induction false} SpentInRound(ps: seq<Phase>, kind: Kind, m: nat, i: nat)
    requires ps != [] && i <= |ps|
    ensures Spent(ps, kind, Rounds(ps, m) + i) == Spent(ps, kind, Rounds(ps, m)) + Count(ps[..i], kind)
  {
    hide Rounds;
    if i > 0 {
      SpentInRound(ps, kind, m, i - 1);
      RoundsMod(ps, m);
      AddMod(Rounds(ps, m), i - 1, |ps|);
      assert ps[..i] == ps[..i - 1] + [ps[i - 1]];
      CountAppend(ps[..i - 1], ps[i - 1]);
      assert Spent(ps, kind, Rounds(ps, m) + i)
          == Spent(ps, kind, Rounds(ps, m) + (i - 1)) + if ps[i - 1].kind == kind then ps[i - 1].cost else 0;
    }
  }

  lemma {:induction false} SpentInRounds(ps: seq<Phase>, kind: Kind, m: nat)
    requires ps != []
    ensures Spent(ps, kind, Rounds(ps, m)) == Count(ps, kind) * m
  {
    if m > 0 {
      SpentInRounds(ps, kind, m - 1);
      SpentInRound(ps, kind, m - 1, |ps|);
      assert ps[..|ps|] == ps;
      Distribute(Count(ps, kind), m - 1, 1);
    }
  }

  /** What the bounds are: the work of the busiest unit, of the busier slot, and of both slots one after
      the other, in the schedule whose phases take their costs. */
  lemma BoundsAre(ps: seq<Phase>, k: nat)
    requires ps != []
    ensures PerfectParallelism(ps, k)
         == Max(Max(SpentByBoth(ps, Execute, k), SpentByBoth(ps, AccessSp, k)), SpentByBoth(ps, AccessDram, k))
    ensures DoubleBuffered(ps, k)
         == Spent(ps, Execute, Length(ps, k, 0)) + Spent(ps, AccessSp, Length(ps, k, 0))
            + Spent(ps, AccessDram, Length(ps, k, 0))
    ensures SingleBuffered(ps, k)
         == SpentByBoth(ps, Execute, k) + SpentByBoth(ps, AccessSp, k) + SpentByBoth(ps, AccessDram, k)
  {
    hide Count, Total, Spent, Rounds;
    var e, s, d := Count(ps, Execute), Count(ps, AccessSp), Count(ps, AccessDram);
    SpentOf(ps, Execute, k);
    SpentOf(ps, AccessSp, k);
    SpentOf(ps, AccessDram, k);
    KindsAdd(ps);
    ThreeTimes(e, s, d, DivUp(k, 2));
    ThreeTimes(e, s, d, k);
  }

  lemma ThreeTimes(a: nat, b: nat, c: nat, m: nat)
    ensures (a + b + c) * m == a * m + b * m + c * m
  {
  }

  lemma SpentOf(ps: seq<Phase>, kind: Kind, k: nat)
    requires ps != []
    ensures Spent(ps, kind, Length(ps, k, 0)) == Count(ps, kind) * DivUp(k, 2)
    ensures SpentByBoth(ps, kind, k) == Count(ps, kind) * k
  {
    hide Count, Spent, Rounds;
    SpentInRounds(ps, kind, (k + 1) / 2);
    SpentInRounds(ps, kind, k / 2);
    Distribute(Count(ps, kind), (k + 1) / 2, k / 2);
    assert (k + 1) / 2 + k / 2 == k;
  }

  lemma {:induction false} KindsAdd(ps: seq<Phase>)
    ensures Total(ps) == Count(ps, Execute) + Count(ps, AccessSp) + Count(ps, AccessDram)
  {
    if ps != [] {
      KindsAdd(ps[..|ps| - 1]);
    }
  }

  method TotalCost(ps: seq<Phase>) returns (t: nat)
    ensures t == Total(ps)
  {
    t := 0;
    for i := 0 to |ps|
      invariant t == Total(ps[..i])
    {
      assert ps[..i + 1][..i] == ps[..i];
      t := t + ps[i].cost;
    }
    assert ps[..|ps|] == ps;
  }

  /** Phase n - 1 executes exactly when n is odd, and is counted for its own kind only. */
  lemma CountStep(ps: seq<Phase>, n: nat)
    requires Alternating(ps) && 1 <= n <= |ps|
    ensures Count(ps[..n], Execute)
         == Count(ps[..n - 1], Execute) + if n % 2 == 1 then P(ps, n - 1) else 0
    ensures Count(ps[..n], AccessSp) + Count(ps[..n], AccessDram)
         == Count(ps[..n - 1], AccessSp) + Count(ps[..n - 1], AccessDram)
            + if n % 2 == 1 then 0 else P(ps, n - 1)
    ensures Total(ps[..n]) == Total(ps[..n - 1]) + P(ps, n - 1)
  {
    hide P;
    var front, last := ps[..n - 1], ps[n - 1];
    assert ps[..n] == front + [last];
    CountAppend(front, last);
    PhaseAt(ps, n - 1);
    Parity(n);
  }

  lemma Parity(n: nat)
    requires n >= 1
    ensures n % 2 == 1 <==> (n - 1) % 2 == 0
  {
  }

  /** Each maximum over two neighbours is at least the execute and at least the access phase
      of the pair, and at most their sum. */
  lemma {:induction false} PairBounds(ps: seq<Phase>, n: nat)
    requires Alternating(ps) && 1 <= n <= |ps|
    ensures 2 * Count(ps[..n], Execute) - P(ps, 0) - (if n % 2 == 1 then P(ps, n - 1) else 0)
         <= Interleaved(ps, n - 1)
    ensures 2 * (Count(ps[..n], AccessSp) + Count(ps[..n], AccessDram))
            - (if n % 2 == 1 then 0 else P(ps, n - 1))
         <= Interleaved(ps, n - 1)
    ensures Interleaved(ps, n - 1) <= 2 * Total(ps[..n]) - P(ps, 0) - P(ps, n - 1)
  {
    hide Count, P, Total;
    CountStep(ps, n);
    if n > 1 {
      PairBounds(ps, n - 1);
      assert Interleaved(ps, n - 1) == Interleaved(ps, n - 2) + Max(P(ps, n - 1), P(ps, n - 2));
    } else {
      EmptyCounts(ps);
    }
  }

  lemma EmptyCounts(ps: seq<Phase>)
    ensures Count(ps[..0], Execute) == Count(ps[..0], AccessSp) == Count(ps[..0], AccessDram) == 0
    ensures Total(ps[..0]) == 0
  {
  }

  /** Bounds on one full round of two interleaved slots. */
  lemma RoundBounds(ps: seq<Phase>)
    requires Alternating(ps) && ps != []
    ensures var r, e := Interleaved(ps, |ps|), Min(ps[0].cost, ps[|ps| - 1].cost);
            && 2 * Count(ps, Execute) <= r
            && 2 * Count(ps, AccessSp) <= r && 2 * Count(ps, AccessDram) <= r
            && r + e <= 2 * Total(ps) && Total(ps) <= r
    ensures Count(ps, Execute) <= Total(ps) && Count(ps, AccessSp) <= Total(ps)
    ensures Count(ps, AccessDram) <= Total(ps)
  {
    hide Count, P, Total;
    var n := |ps|;
    PairBounds(ps, n);
    CountsSum(ps, n);
    assert ps[..n] == ps;
    PhaseAt(ps, 0);
    PhaseAt(ps, n - 1);
    assert Interleaved(ps, n) == Interleaved(ps, n - 1) + Max(P(ps, n), P(ps, n - 1));
  }

  lemma {:induction false} CountsSum(ps: seq<Phase>, n: nat)
    requires Alternating(ps) && n <= |ps|
    ensures Count(ps[..n], Execute) + Count(ps[..n], AccessSp) + Count(ps[..n], AccessDram)
         == Total(ps[..n])
  {
    if n > 0 {
      CountStep(ps, n);
      CountsSum(ps, n - 1);
    }
  }

  /** The closed form lies between both lower bounds and the single-buffered time. */
  lemma WcetBounds(ps: seq<Phase>, k: nat)
    requires Alternating(ps) && ps != [] && 1 <= k
    ensures PerfectParallelism(ps, k) <= Wcet(ps, k)
    ensures DoubleBuffered(ps, k) <= Wcet(ps, k)
    ensures Wcet(ps, k) <= SingleBuffered(ps, k)
  {
    hide Count, Interleaved, Total;
    RoundBounds(ps);
    var r, m, t := Interleaved(ps, |ps|), k / 2, Total(ps);
    HalfWork(Count(ps, Execute), r, t, k);
    HalfWork(Count(ps, AccessSp), r, t, k);
    HalfWork(Count(ps, AccessDram), r, t, k);
    HalfRounds(r, t, Min(ps[0].cost, ps[|ps| - 1].cost), k);
  }

  /** As if both slots only ever ran the same phase: a lower bound. */
  method ComputeDoubleBuffered(ps: seq<Phase>, k: nat) returns (w: nat)
    ensures w == DoubleBuffered(ps, k)
    ensures Alternating(ps) && ps != [] && 1 <= k ==> w <= Wcet(ps, k)
  {
    var t := TotalCost(ps);
    w := t * DivUp(k, 2);
    if Alternating(ps) && ps != [] && 1 <= k {
      WcetBounds(ps, k);
    }
  }

  /** With one slot only: an upper bound. */
  method ComputeSingleBuffered(ps: seq<Phase>, k: nat) returns (w: nat)
    ensures w == SingleBuffered(ps, k)
    ensures Alternating(ps) && ps != [] && 1 <= k ==> Wcet(ps, k) <= w
  {
    var t := TotalCost(ps);
    w := t * k;
    if Alternating(ps) && ps != [] && 1 <= k {
      WcetBounds(ps, k);
    }
  }

  lemma HalfWork(x: nat, r: nat, t: nat, k: nat)
    requires 2 * x <= r && x <= t
    ensures x * k <= r * (k / 2) + if k % 2 == 1 then t else 0
  {
    var m := k / 2;
    MulMono(2 * x, r, m);
    assert x * k == 2 * x * m + x * (k % 2);
  }

  lemma HalfRounds(r: nat, t: nat, e: nat, k: nat)
    requires t <= r && r + e <= 2 * t && 1 <= k
    ensures t * DivUp(k, 2) <= r * (k / 2) + if k % 2 == 1 then t else 0
    ensures r * (k / 2) + (if k % 2 == 1 then t else e) <= t * k
  {
    var m := k / 2;
    MulMono(t, r, m);
    MulMono(r, 2 * t - e, m);
    if k % 2 == 1 {
      assert DivUp(k, 2) == m + 1 && k == 2 * m + 1;
      Distribute(t, m, 1);
      Distribute(t, 2 * m, 1);
      DoubleProduct(t, e, m);
    } else {
      assert DivUp(k, 2) == m && k == 2 * m && m >= 1;
      DoubleProduct(t, e, m);
      MulMono(1, m, e);
    }
  }

  lemma Distribute(a: nat, b: nat, c: nat)
    ensures a * (b + c) == a * b + a * c
  {
  }

  lemma DoubleProduct(t: nat, e: nat, m: nat)
    ensures (2 * t - e) * m == t * (2 * m) - m * e
    ensures 0 <= m * e
  {
  }

  /** More work-groups never take less time. */
  lemma WcetIsMonotone(ps: seq<Phase>, j: nat, k: nat)
    requires Alternating(ps) && ps != [] && 1 <= j <= k
    ensures Wcet(ps, j) <= Wcet(ps, k)
    decreases k
  {
    if j < k {
      WcetIsMonotone(ps, j, k - 1);
      RoundBounds(ps);
      MinBelowTotal(ps);
      NextIsNotLess(Interleaved(ps, |ps|), Total(ps), Min(ps[0].cost, ps[|ps| - 1].cost), k);
    }
  }

  lemma NextIsNotLess(r: nat, t: nat, e: nat, k: nat)
    requires t <= r && e <= t && 1 <= k
    ensures r * ((k - 1) / 2) + (if (k - 1) % 2 == 1 then t else e)
         <= r * (k / 2) + if k % 2 == 1 then t else e
  {
    if k % 2 == 0 {
      assert k / 2 == (k - 1) / 2 + 1;
      Distribute(r, (k - 1) / 2, 1);
    } else {
      assert k / 2 == (k - 1) / 2;
    }
  }

  lemma {:induction false} MinBelowTotal(ps: seq<Phase>)
    requires ps != []
    ensures Min(ps[0].cost, ps[|ps| - 1].cost) <= Total(ps)
  {
  }
}
