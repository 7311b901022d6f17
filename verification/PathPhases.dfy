/** The phases of any path through a graph, piece by piece, and a graph where those of the costliest one
are not enough.

The analysis takes the path with the most computation; what its accesses cost plays no part in
the choice. */
module PathPhases {
  import opened Arith
  import opened Graphs
  import opened PhaseList

  /** What ends a basic block. */
  datatype Block = Block(access: bool, scratchpad: bool, accessCost: nat)

  predicate OnGraph(g: Graph, blocks: seq<Block>, p: seq<Step>) {
    |blocks| == |g| && forall k :: 0 <= k < |p| ==> p[k].node < |g| && p[k].edge < |g[p[k].node]|
  }

  /** The nodes along a path, without the one it ends in. */
  function Along(g: Graph, blocks: seq<Block>, p: seq<Step>): (path: seq<PathNode>)
    requires OnGraph(g, blocks, p)
    ensures |path| == |p|
    ensures forall k :: 0 <= k < |p| ==> path[k] == NodeAt(g, blocks, p[k])
  {
    if p == [] then [] else Along(g, blocks, p[..|p| - 1]) + [NodeAt(g, blocks, p[|p| - 1])]
  }

  function NodeAt(g: Graph, blocks: seq<Block>, e: Step): PathNode
    requires |blocks| == |g| && e.node < |g| && e.edge < |g[e.node]|
  {
    var b := blocks[e.node];
    PathNode(g[e.node][e.edge].cost, b.access, b.scratchpad, b.accessCost)
  }

  /** ps are the phases of a path: a pair for every access, complete up to each. */
  ghost predicate IsPhases(ps: seq<Phase>, path: seq<PathNode>, pipeDepth: nat) {
    && Alternating(ps) && |ps| == 2 * Accesses(path)
    && forall i :: 0 <= i < |path| && path[i].access ==> Closes(ps, Accesses(path[..i]), path, i, pipeDepth)
  }

  // ----- Paths in pieces

  /** Where a path to t is after i steps. */
  function At(p: seq<Step>, t: nat, i: nat): nat
    requires i <= |p|
  {
    if i < |p| then p[i].node else t
  }

  lemma {:induction false} PathSplit(g: Graph, s: nat, p: seq<Step>, t: nat, i: nat)
    requires IsPath(g, s, p, t) && i <= |p|
    ensures IsPath(g, s, p[..i], At(p, t, i)) && IsPath(g, At(p, t, i), p[i..], t)
    ensures Cost(g, s, p, t) == Cost(g, s, p[..i], At(p, t, i)) + Cost(g, At(p, t, i), p[i..], t)
    decreases |p|
  {
    if i == |p| {
      assert p[..i] == p && p[i..] == [];
    } else {
      var n := |p| - 1;
      var u := p[n].node;
      PathSplit(g, s, p[..n], u, i);
      assert p[..n][..i] == p[..i];
      assert p[i..][..n - i] == p[..n][i..] && p[i..][n - i] == p[n];
      assert At(p[..n], u, i) == At(p, t, i);
    }
  }

  lemma {:induction false} PathJoin(g: Graph, s: nat, p: seq<Step>, m: nat, q: seq<Step>, t: nat)
    requires IsPath(g, s, p, m) && IsPath(g, m, q, t)
    ensures IsPath(g, s, p + q, t) && Cost(g, s, p + q, t) == Cost(g, s, p, m) + Cost(g, m, q, t)
    decreases |q|
  {
    if q == [] {
      assert p + q == p;
    } else {
      var n := |q| - 1;
      PathJoin(g, s, p, m, q[..n], q[n].node);
      assert (p + q)[..|p| + n] == p + q[..n] && (p + q)[|p| + n] == q[n];
    }
  }

  /** Cost of the first i steps. */
  ghost function Reached(g: Graph, s: nat, p: seq<Step>, t: nat, i: nat): nat
    requires IsPath(g, s, p, t) && i <= |p|
  {
    PathSplit(g, s, p, t, i);
    Cost(g, s, p[..i], At(p, t, i))
  }

  lemma Middle(g: Graph, s: nat, p: seq<Step>, t: nat, m: nat, n: nat)
    requires IsPath(g, s, p, t) && m <= n <= |p|
    ensures IsPath(g, At(p, t, m), p[m..n], At(p, t, n))
    ensures Cost(g, At(p, t, m), p[m..n], At(p, t, n)) == Reached(g, s, p, t, n) - Reached(g, s, p, t, m)
  {
    PathSplit(g, s, p, t, m);
    PathSplit(g, s, p, t, n);
    PathSplit(g, s, p[..n], At(p, t, n), m);
    assert p[..n][..m] == p[..m] && p[..n][m..] == p[m..n];
    assert At(p[..n], At(p, t, n), m) == At(p, t, m);
  }

  lemma Leads(g: Graph, s: nat, p: seq<Step>, t: nat, i: nat)
    requires IsPath(g, s, p, t) && i < |p|
    ensures p[i].node < |g| && p[i].edge < |g[p[i].node]|
    ensures At(p, t, i + 1) == g[p[i].node][p[i].edge].dst
    ensures At(p, t, 0) == s
  {
    PathSplit(g, s, p, t, i + 1);
    PathSplit(g, s, p, t, 0);
    assert p[..i + 1][i] == p[i];
  }

  lemma StartIsSource(g: Graph, s: nat, p: seq<Step>, t: nat)
    requires IsPath(g, s, p, t)
    ensures At(p, t, 0) == s
  {
    PathSplit(g, s, p, t, 0);
  }

  /** Between two nodes that both visit, the costliest path takes at least as long as any other. */
  lemma SegmentIsLonger(g: Graph, s: nat, p: seq<Step>, q: seq<Step>, t: nat, m: nat, n: nat, m': nat, n': nat)
    requires Longest(g, s, p, t) && IsPath(g, s, q, t) && m <= n <= |p| && m' <= n' <= |q|
    requires At(p, t, m) == At(q, t, m') && At(p, t, n) == At(q, t, n')
    ensures Reached(g, s, q, t, n') - Reached(g, s, q, t, m') <= Reached(g, s, p, t, n) - Reached(g, s, p, t, m)
  {
    hide IsPath, Cost;
    LongestIsPath(g, s, p, t);
    var a, b := At(p, t, m), At(p, t, n);
    PathSplit(g, s, p, t, m);
    PathSplit(g, s, p, t, n);
    Middle(g, s, q, t, m', n');
    PathJoin(g, s, p[..m], a, q[m'..n'], b);
    PathJoin(g, s, p[..m] + q[m'..n'], b, p[n..], t);
  }

  lemma LongestIsPath(g: Graph, s: nat, p: seq<Step>, t: nat)
    requires Longest(g, s, p, t)
    ensures IsPath(g, s, p, t)
  {
  }

  // ----- One phase of a path

  /** The j-th access of a path. */
  lemma {:induction false} AccessNumber(path: seq<PathNode>, j: nat) returns (i: nat)
    requires j < Accesses(path)
    ensures i < |path| && path[i].access && Accesses(path[..i]) == j
  {
    var n := |path| - 1;
    if path[n].access && Accesses(path[..n]) == j {
      i := n;
    } else {
      i := AccessNumber(path[..n], j);
      assert path[..n][..i] == path[..i];
    }
  }

  lemma AlongPrefix(g: Graph, blocks: seq<Block>, p: seq<Step>, n: nat)
    requires OnGraph(g, blocks, p) && n <= |p|
    ensures Along(g, blocks, p)[..n] == Along(g, blocks, p[..n])
  {
  }

  lemma {:induction false} EdgesAreReached(g: Graph, blocks: seq<Block>, s: nat, p: seq<Step>, t: nat, n: nat)
    requires OnGraph(g, blocks, p) && IsPath(g, s, p, t) && n <= |p|
    ensures Edges(Along(g, blocks, p)[..n]) == Reached(g, s, p, t, n)
  {
    PathSplit(g, s, p, t, n);
    AlongPrefix(g, blocks, p, n);
    EdgesAreCost(g, blocks, p[..n]);
  }

  lemma {:induction false} EdgesAreCost(g: Graph, blocks: seq<Block>, p: seq<Step>)
    requires OnGraph(g, blocks, p)
    ensures Edges(Along(g, blocks, p)) == PathCost(g, p)
  {
    if p != [] {
      AlongPrefix(g, blocks, p, |p| - 1);
      EdgesAreCost(g, blocks, p[..|p| - 1]);
    }
  }

  /** Without an access in between, only edges cost anything. */
  lemma {:induction false} OnlyEdges(path: seq<PathNode>, m: nat, i: nat)
    requires m <= i <= |path| && Accesses(path[..m]) == Accesses(path[..i])
    ensures NodeCosts(path[..i]) - NodeCosts(path[..m]) == Edges(path[..i]) - Edges(path[..m])
    decreases i
  {
    if m < i {
      assert path[..i][..i - 1] == path[..i - 1];
      AccessesGrow(path, m, i - 1);
      OnlyEdges(path, m, i - 1);
    }
  }

  lemma {:induction false} AccessesGrow(path: seq<PathNode>, m: nat, i: nat)
    requires m <= i <= |path|
    ensures Accesses(path[..m]) <= Accesses(path[..i])
    decreases i
  {
    if m < i {
      assert path[..i][..i - 1] == path[..i - 1];
      AccessesGrow(path, m, i - 1);
    }
  }

  lemma LaterAccess(path: seq<PathNode>, i: nat, k: nat)
    requires i < k <= |path| && path[i].access
    ensures Accesses(path[..i]) < Accesses(path[..k])
  {
    assert path[..i + 1][..i] == path[..i];
    AccessesGrow(path, i + 1, k);
  }

  /** Where the j-th phase pair of a path starts: after the access before, or at the source. */
  predicate StartsAt(path: seq<PathNode>, j: nat, m: nat) {
    && m <= |path|
    && if j == 0 then m == 0 else m > 0 && path[m - 1].access && Accesses(path[..m - 1]) == j - 1
  }

  lemma PhasePair(ps: seq<Phase>, path: seq<PathNode>, pipeDepth: nat, j: nat, m: nat, i: nat)
    requires IsPhases(ps, path, pipeDepth) && StartsAt(path, j, m)
    requires i < |path| && path[i].access && Accesses(path[..i]) == j
    ensures m <= i && 2 * j + 2 <= |ps| && ps[2 * j].kind == Execute
    ensures ps[2 * j].cost == Edges(path[..i + 1]) - Edges(path[..m]) + if j == 0 then pipeDepth else 0
    ensures ps[2 * j + 1] == Phase(if path[i].scratchpad then AccessSp else AccessDram, path[i].accessCost)
  {
    hide IsPhases;
    PhaseTotals(ps, path, pipeDepth, j, i);
    if j > 0 {
      PhaseTotals(ps, path, pipeDepth, j - 1, m - 1);
      assert path[..m][..m - 1] == path[..m - 1];
      if i < m {
        AccessesGrow(path, i, m - 1);
      }
    }
    OnlyEdges(path, m, i);
    assert path[..i + 1][..i] == path[..i];
    PairTotal(ps, j);
    assert j == 0 ==> ps[..2 * j] == [] && path[..m] == [];
  }

  lemma PairTotal(ps: seq<Phase>, j: nat)
    requires 2 * j + 2 <= |ps|
    ensures Total(ps[..2 * j + 2]) == Total(ps[..2 * j]) + ps[2 * j].cost + ps[2 * j + 1].cost
  {
    assert ps[..2 * j + 2][..2 * j + 1] == ps[..2 * j + 1];
    assert ps[..2 * j + 1][..2 * j] == ps[..2 * j];
  }

  lemma PhaseTotals(ps: seq<Phase>, path: seq<PathNode>, pipeDepth: nat, j: nat, i: nat)
    requires IsPhases(ps, path, pipeDepth) && i < |path| && path[i].access && Accesses(path[..i]) == j
    ensures 2 * j + 2 <= |ps| && ps[2 * j].kind == Execute
    ensures Total(ps[..2 * j + 2]) == pipeDepth + NodeCosts(path[..i + 1])
    ensures ps[2 * j + 1] == Phase(if path[i].scratchpad then AccessSp else AccessDram, path[i].accessCost)
  {
    assert Closes(ps, j, path, i, pipeDepth);
    assert 2 * j % 2 == 0;
  }

  // ----- Less time along a path

  /** The same accesses, and no more time anywhere. */
  ghost predicate NoSlower(a: seq<PathNode>, b: seq<PathNode>) {
    && |a| == |b|
    && forall k :: 0 <= k < |a| ==>
         && a[k].access == b[k].access && a[k].scratchpad == b[k].scratchpad
         && a[k].edgeCost <= b[k].edgeCost && a[k].accessCost <= b[k].accessCost
  }

  lemma FoldedNoSlower(a: seq<PathNode>, b: seq<PathNode>)
    requires NoSlower(a, b)
    ensures NoSlower(Folded(a), Folded(b))
  {
  }

  lemma {:induction false} SameAccesses(a: seq<PathNode>, b: seq<PathNode>, n: nat)
    requires NoSlower(a, b) && n <= |a|
    ensures Accesses(a[..n]) == Accesses(b[..n])
  {
    if n > 0 {
      SameAccesses(a, b, n - 1);
      assert a[..n][..n - 1] == a[..n - 1] && b[..n][..n - 1] == b[..n - 1];
    }
  }

  lemma {:induction false} EdgesNoSlower(a: seq<PathNode>, b: seq<PathNode>, m: nat, n: nat)
    requires NoSlower(a, b) && m <= n <= |a|
    ensures Edges(a[..n]) - Edges(a[..m]) <= Edges(b[..n]) - Edges(b[..m])
    decreases n
  {
    if m < n {
      EdgesNoSlower(a, b, m, n - 1);
      assert a[..n][..n - 1] == a[..n - 1] && b[..n][..n - 1] == b[..n - 1];
    }
  }

  /** Where pair j of a path starts, and its access. */
  lemma PairOf(path: seq<PathNode>, j: nat) returns (m: nat, i: nat)
    requires j < Accesses(path)
    ensures StartsAt(path, j, m) && m <= i < |path| && path[i].access && Accesses(path[..i]) == j
  {
    i := AccessNumber(path, j);
    if j == 0 {
      m := 0;
    } else {
      var k := AccessNumber(path, j - 1);
      m := k + 1;
      if i <= k {
        AccessesGrow(path, i, k);
      }
    }
  }

  lemma PairNoSlower(a: seq<PathNode>, b: seq<PathNode>, ps: seq<Phase>, qs: seq<Phase>, pipeDepth: nat, j: nat)
    requires NoSlower(a, b) && IsPhases(ps, a, pipeDepth) && IsPhases(qs, b, pipeDepth) && j < Accesses(a)
    ensures 2 * j + 2 <= |ps| && 2 * j + 2 <= |qs|
    ensures ps[2 * j].cost <= qs[2 * j].cost && ps[2 * j + 1].cost <= qs[2 * j + 1].cost
  {
    hide IsPhases;
    var m, i := PairOf(a, j);
    SameAccesses(a, b, i);
    if j > 0 {
      SameAccesses(a, b, m - 1);
    }
    PhasePair(ps, a, pipeDepth, j, m, i);
    PhasePair(qs, b, pipeDepth, j, m, i);
    EdgesNoSlower(a, b, m, i + 1);
  }

  /** Phases take no more time where the path takes none more. */
  lemma PhasesNoSlower(a: seq<PathNode>, b: seq<PathNode>, ps: seq<Phase>, qs: seq<Phase>, pipeDepth: nat)
    requires NoSlower(a, b) && IsPhases(ps, a, pipeDepth) && IsPhases(qs, b, pipeDepth)
    ensures |ps| == |qs| && forall x :: 0 <= x < |ps| ==> ps[x].cost <= qs[x].cost
  {
    SameAccesses(a, b, |a|);
    assert a[..|a|] == a && b[..|b|] == b;
    assert |ps| == |qs| == 2 * Accesses(a);
    hide IsPhases, NoSlower;
    forall x | 0 <= x < |ps|
      ensures ps[x].cost <= qs[x].cost
    {
      PairNoSlower(a, b, ps, qs, pipeDepth, x / 2);
    }
  }

  // ----- Paths that miss an access

  /** The phases take no more than the path and the fill of the pipeline. */
  lemma PhasesBelowPath(ps: seq<Phase>, path: seq<PathNode>, pipeDepth: nat)
    requires IsPhases(ps, path, pipeDepth)
    ensures Total(ps) <= pipeDepth + NodeCosts(path)
  {
    if ps != [] {
      var j := Accesses(path) - 1;
      var i := AccessNumber(path, j);
      PhaseTotals(ps, path, pipeDepth, j, i);
      assert ps[..2 * j + 2] == ps;
      CostsGrow(path, i + 1);
    }
  }

  lemma {:induction false} CostsGrow(path: seq<PathNode>, n: nat)
    requires n <= |path|
    ensures NodeCosts(path[..n]) <= NodeCosts(path)
  {
    if n < |path| {
      CostsGrow(path[..|path| - 1], n);
      assert path[..|path| - 1][..n] == path[..n];
    } else {
      assert path[..n] == path;
    }
  }

  lemma {:induction false} PhaseBelowTotal(ps: seq<Phase>, x: nat)
    requires x < |ps|
    ensures ps[x].cost <= Total(ps)
  {
    if x < |ps| - 1 {
      PhaseBelowTotal(ps[..|ps| - 1], x);
    }
  }

  lemma AloneIsTotal(ps: seq<Phase>)
    requires ps != []
    ensures Wcet(ps, 1) == Total(ps)
  {
  }

  /** One access that costs more than all of another path. */
  lemma DearerIsLonger(a: seq<PathNode>, b: seq<PathNode>, i: nat, ps: seq<Phase>, qs: seq<Phase>, pipeDepth: nat)
    requires IsPhases(ps, a, pipeDepth) && IsPhases(qs, b, pipeDepth) && ps != []
    requires i < |b| && b[i].access && b[i].accessCost > pipeDepth + NodeCosts(a)
    ensures qs != [] && Wcet(ps, 1) < Wcet(qs, 1)
  {
    hide IsPhases, Wcet;
    PhasesBelowPath(ps, a, pipeDepth);
    PhaseTotals(qs, b, pipeDepth, Accesses(b[..i]), i);
    PhaseBelowTotal(qs, 2 * Accesses(b[..i]) + 1);
    AloneIsTotal(ps);
    AloneIsTotal(qs);
  }

  /** A path that never visits u does not see what ends it. */
  lemma OtherBlocks(g: Graph, blocks: seq<Block>, others: seq<Block>, p: seq<Step>, u: nat)
    requires OnGraph(g, blocks, p) && u < |blocks| == |others| && others == blocks[u := others[u]]
    requires forall k :: 0 <= k < |p| ==> p[k].node != u
    ensures OnGraph(g, others, p) && Along(g, others, p) == Along(g, blocks, p)
  {
  }

  /** A block on a path that is not on another: with a dear enough access, the closed form over the
      other path is too small for one work-group already, however much it computes. */
  lemma DearAccessBreaks(g: Graph, blocks: seq<Block>, p: seq<Step>, q: seq<Step>, i: nat, pipeDepth: nat)
    returns (dearer: seq<Block>)
    requires OnGraph(g, blocks, p) && OnGraph(g, blocks, q) && i < |q| && blocks[q[i].node].access
    requires forall k :: 0 <= k < |p| ==> p[k].node != q[i].node
    ensures exists c: nat :: dearer == blocks[q[i].node := blocks[q[i].node].(accessCost := c)]
    ensures forall ps, qs ::
              && ps != [] && IsPhases(ps, Along(g, dearer, p), pipeDepth)
              && IsPhases(qs, Along(g, dearer, q), pipeDepth) ==>
                qs != [] && Wcet(ps, 1) < Wcet(qs, 1)
  {
    var u := q[i].node;
    var c := pipeDepth + NodeCosts(Along(g, blocks, p)) + 1;
    dearer := blocks[u := blocks[u].(accessCost := c)];
    hide Along, IsPhases, Wcet;
    OtherBlocks(g, blocks, dearer, p, u);
    var a, b := Along(g, dearer, p), Along(g, dearer, q);
    assert b[i].access && b[i].accessCost == c;
    forall ps, qs | ps != [] && IsPhases(ps, a, pipeDepth) && IsPhases(qs, b, pipeDepth)
      ensures qs != [] && Wcet(ps, 1) < Wcet(qs, 1)
    {
      DearerIsLonger(a, b, i, ps, qs, pipeDepth);
    }
  }

  /** The smallest graph of this kind: two branches, more computation on one, a dearer access on the
      other. */
  const DIAMOND: Graph := [[Edge(5, 1), Edge(5, 2)], [Edge(10, 3)], [Edge(2, 3)], []]

  const DIAMOND_BLOCKS: seq<Block> := [
    Block(false, false, 0), Block(true, false, 1), Block(true, false, 100), Block(false, false, 0)]

  const SLOW_BRANCH: seq<Step> := [Step(0, 0), Step(1, 0)]

  const DEAR_BRANCH: seq<Step> := [Step(0, 1), Step(2, 0)]

  lemma LastStep(g: Graph, s: nat, q: seq<Step>, t: nat)
    requires IsPath(g, s, q, t) && q != []
    ensures var e := q[|q| - 1];
            IsEdge(g, e, t) && q == q[..|q| - 1] + [e] && IsPath(g, s, q[..|q| - 1], e.node)
  {
  }

  lemma FourEdges(e: Step, v: nat)
    requires IsEdge(DIAMOND, e, v)
    ensures (e, v) in {(Step(0, 0), 1), (Step(0, 1), 2), (Step(1, 0), 3), (Step(2, 0), 3)}
  {
    assert |DIAMOND[3]| == 0;
  }

  lemma StaysAtSource(q: seq<Step>)
    requires IsPath(DIAMOND, 0, q, 0)
    ensures q == []
  {
    forall e | IsEdge(DIAMOND, e, 0)
      ensures false
    {
      FourEdges(e, 0);
    }
  }

  lemma TwoBranches(q: seq<Step>)
    requires IsPath(DIAMOND, 0, q, 3)
    ensures q == SLOW_BRANCH || q == DEAR_BRANCH
  {
    hide IsEdge;
    LastStep(DIAMOND, 0, q, 3);
    var e, front := q[|q| - 1], q[..|q| - 1];
    FourEdges(e, 3);
    LastStep(DIAMOND, 0, front, e.node);
    var f, start := front[|front| - 1], front[..|front| - 1];
    FourEdges(f, e.node);
    StaysAtSource(start);
  }

  lemma TwoSteps(g: Graph, e: Step, f: Step, t: nat)
    requires IsEdge(g, e, f.node) && IsEdge(g, f, t)
    ensures IsPath(g, e.node, [e, f], t)
    ensures Cost(g, e.node, [e, f], t) == g[e.node][e.edge].cost + g[f.node][f.edge].cost
  {
    assert [e, f][..1] == [e] && [e][..0] == [];
    assert IsPath(g, e.node, [e], f.node);
    assert PathCost(g, [e]) == g[e.node][e.edge].cost;
    assert [e, f][1] == f;
  }

  /** The analysis takes the slow branch; a single work-group that takes the other one is not done by
      the closed form. */
  lemma DearBranchTakesLonger()
    ensures Longest(DIAMOND, 0, SLOW_BRANCH, 3) && IsPath(DIAMOND, 0, DEAR_BRANCH, 3)
    ensures OnGraph(DIAMOND, DIAMOND_BLOCKS, SLOW_BRANCH) && OnGraph(DIAMOND, DIAMOND_BLOCKS, DEAR_BRANCH)
    ensures var ps, qs := [Phase(Execute, 15), Phase(AccessDram, 1)], [Phase(Execute, 7), Phase(AccessDram, 100)];
            && IsPhases(ps, Along(DIAMOND, DIAMOND_BLOCKS, SLOW_BRANCH), 0)
            && IsPhases(qs, Along(DIAMOND, DIAMOND_BLOCKS, DEAR_BRANCH), 0)
            && Wcet(ps, 1) < Makespan(qs, AtBounds(qs), 1)
  {
    SlowIsLongest();
    var ps, qs := [Phase(Execute, 15), Phase(AccessDram, 1)], [Phase(Execute, 7), Phase(AccessDram, 100)];
    var slow, dear := [PathNode(5, false, false, 0), PathNode(10, true, false, 1)],
                      [PathNode(5, false, false, 0), PathNode(2, true, false, 100)];
    assert Along(DIAMOND, DIAMOND_BLOCKS, SLOW_BRANCH) == slow;
    assert Along(DIAMOND, DIAMOND_BLOCKS, DEAR_BRANCH) == dear;
    hide *;
    TwoNodePhases(slow[0], slow[1]);
    TwoNodePhases(dear[0], dear[1]);
    TwoPhases(ps);
    TwoPhases(qs);
    BoundsBounded(qs);
    WcetIsSoundAndExact(qs, AtBounds(qs), 1);
  }

  lemma BoundsBounded(ps: seq<Phase>)
    ensures Bounded(ps, AtBounds(ps))
  {
  }

  lemma SlowIsLongest()
    ensures Longest(DIAMOND, 0, SLOW_BRANCH, 3) && IsPath(DIAMOND, 0, DEAR_BRANCH, 3)
  {
    TwoSteps(DIAMOND, Step(0, 0), Step(1, 0), 3);
    TwoSteps(DIAMOND, Step(0, 1), Step(2, 0), 3);
    forall q | IsPath(DIAMOND, 0, q, 3)
      ensures Cost(DIAMOND, 0, q, 3) <= Cost(DIAMOND, 0, SLOW_BRANCH, 3)
    {
      TwoBranches(q);
    }
  }

  lemma OneNode(a: PathNode)
    requires !a.access
    ensures Accesses([a]) == 0 && NodeCosts([a]) == a.edgeCost
  {
    var one: seq<PathNode> := [a];
    assert one[..|one| - 1] == [] && one[|one| - 1] == a;
    var none: seq<PathNode> := [];
    assert Accesses(none) == 0 && NodeCosts(none) == 0;
  }

  lemma TwoNodePhases(a: PathNode, b: PathNode)
    requires !a.access && b.access && !b.scratchpad
    ensures IsPhases([Phase(Execute, a.edgeCost + b.edgeCost), Phase(AccessDram, b.accessCost)], [a, b], 0)
  {
    var path, ps := [a, b], [Phase(Execute, a.edgeCost + b.edgeCost), Phase(AccessDram, b.accessCost)];
    OneNode(a);
    assert path[..|path| - 1] == [a] && path[|path| - 1] == b && path[..2] == path;
    assert Accesses(path) == Accesses([a]) + 1;
    assert NodeCosts(path) == NodeCosts([a]) + b.edgeCost + b.accessCost;
    assert ps[..2] == ps;
    TwoPhases(ps);
  }

  lemma TwoPhases(ps: seq<Phase>)
    requires |ps| == 2
    ensures Total(ps) == ps[0].cost + ps[1].cost && Wcet(ps, 1) == ps[0].cost + ps[1].cost
  {
    assert ps[..1] == [ps[0]] && [ps[0]][..0] == [];
    assert Total([ps[0]]) == ps[0].cost;
  }
}
