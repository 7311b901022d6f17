/** Exactly when the closed form over the costliest path is at least that over every other path. */
module PathDominance {
  import opened Arith
  import opened Graphs
  import opened PathPhases
  import opened PhaseList

  // ----- A phase list inside another

  /** What the first j execute phases take. */
  function Executes(ps: seq<Phase>, j: nat): nat
    requires 2 * j <= |ps|
  {
    if j == 0 then 0 else Executes(ps, j - 1) + ps[2 * j - 2].cost
  }

  /** First pair of ps that belongs to pair l of a list embedded at `at`. */
  function Start(at: seq<nat>, l: nat): nat
    requires l < |at|
  {
    if l == 0 then 0 else at[l - 1] + 1
  }

  /** Access l of qs is access at[l] of ps, with no more execution before it than ps has since at[l - 1]. */
  predicate Embedded(qs: seq<Phase>, ps: seq<Phase>, at: seq<nat>, l: nat)
    requires l < |at| && |qs| == 2 * |at|
  {
    && Start(at, l) <= at[l] && 2 * at[l] + 2 <= |ps|
    && qs[2 * l].cost <= Executes(ps, at[l] + 1) - Executes(ps, Start(at, l))
    && qs[2 * l + 1].cost == ps[2 * at[l] + 1].cost
  }

  predicate Embeds(qs: seq<Phase>, ps: seq<Phase>, at: seq<nat>) {
    |qs| == 2 * |at| && |ps| % 2 == 0 && forall l :: 0 <= l < |at| ==> Embedded(qs, ps, at, l)
  }

  lemma FirstTurn(ps: seq<Phase>)
    requires |ps| >= 2
    ensures Interleaved(ps, 1) == Max(ps[1].cost, ps[0].cost)
  {
    PhaseAt(ps, 0);
    PhaseAt(ps, 1);
    assert Interleaved(ps, 0) == 0;
  }

  lemma PairTurn(ps: seq<Phase>, j: nat)
    requires 1 <= j && 2 * j + 2 <= |ps|
    ensures Interleaved(ps, 2 * j + 1)
            == Interleaved(ps, 2 * j - 1) + Max(ps[2 * j].cost, ps[2 * j - 1].cost)
               + Max(ps[2 * j + 1].cost, ps[2 * j].cost)
  {
    PhaseAt(ps, 2 * j - 1);
    PhaseAt(ps, 2 * j);
    PhaseAt(ps, 2 * j + 1);
    assert Interleaved(ps, 2 * j) == Interleaved(ps, 2 * j - 1) + Max(P(ps, 2 * j), P(ps, 2 * j - 1));
  }

  lemma {:induction false} GainFirst(ps: seq<Phase>, j: nat)
    requires 2 * j + 2 <= |ps|
    ensures var s := Executes(ps, j + 1);
            ps[0].cost <= s && ps[0].cost + Interleaved(ps, 2 * j + 1) >= s + Max(s, ps[2 * j + 1].cost)
  {
    hide Interleaved;
    if j == 0 {
      FirstTurn(ps);
      assert Executes(ps, 1) == ps[0].cost;
    } else {
      GainFirst(ps, j - 1);
      PairTurn(ps, j);
    }
  }

  lemma {:induction false} Gain(ps: seq<Phase>, i: nat, j: nat)
    requires i < j && 2 * j + 2 <= |ps|
    ensures var s := Executes(ps, j + 1) - Executes(ps, i + 1);
            Interleaved(ps, 2 * j + 1) - Interleaved(ps, 2 * i + 1)
            >= Max(ps[2 * i + 1].cost, s) + Max(s, ps[2 * j + 1].cost)
    decreases j
  {
    hide Interleaved;
    PairTurn(ps, j);
    assert Executes(ps, j + 1) == Executes(ps, j) + ps[2 * j].cost;
    if i < j - 1 {
      Gain(ps, i, j - 1);
    }
  }

  lemma {:induction false} TotalGain(ps: seq<Phase>, i: nat, j: nat)
    requires i <= j && 2 * j + 2 <= |ps|
    ensures Total(ps[..2 * j + 2]) - Total(ps[..2 * i])
            >= Executes(ps, j + 1) - Executes(ps, i) + ps[2 * j + 1].cost
    decreases j
  {
    hide Total;
    PairTotal(ps, j);
    assert Executes(ps, j + 1) == Executes(ps, j) + ps[2 * j].cost;
    if i < j {
      TotalGain(ps, i, j - 1);
    }
  }

  lemma {:induction false} TurnsEmbedded(qs: seq<Phase>, ps: seq<Phase>, at: seq<nat>, l: nat)
    requires Embeds(qs, ps, at) && l < |at|
    ensures at[0] <= at[l] && 2 * at[l] + 2 <= |ps|
    ensures Interleaved(qs, 2 * l + 1) - Interleaved(qs, 1)
            <= Interleaved(ps, 2 * at[l] + 1) - Interleaved(ps, 2 * at[0] + 1)
  {
    hide Interleaved, Executes;
    assert Embedded(qs, ps, at, l);
    if l > 0 {
      TurnsEmbedded(qs, ps, at, l - 1);
      assert Embedded(qs, ps, at, l - 1);
      Gain(ps, at[l - 1], at[l]);
      PairTurn(qs, l);
    }
  }

  lemma {:induction false} TotalEmbedded(qs: seq<Phase>, ps: seq<Phase>, at: seq<nat>, l: nat)
    requires Embeds(qs, ps, at) && l < |at|
    ensures 2 * at[l] + 2 <= |ps| && Total(qs[..2 * l + 2]) <= Total(ps[..2 * at[l] + 2])
  {
    hide Total, Executes;
    assert Embedded(qs, ps, at, l);
    TotalGain(ps, Start(at, l), at[l]);
    PairTotal(qs, l);
    if l > 0 {
      TotalEmbedded(qs, ps, at, l - 1);
    } else {
      assert qs[..0] == [] && ps[..0] == [];
    }
  }

  lemma {:induction false} TotalGrows(ps: seq<Phase>, n: nat)
    requires n <= |ps|
    ensures Total(ps[..n]) <= Total(ps)
  {
    if n < |ps| {
      TotalGrows(ps[..|ps| - 1], n);
      assert ps[..|ps| - 1][..n] == ps[..n];
    } else {
      assert ps[..n] == ps;
    }
  }

  /** The last turn wraps around. */
  lemma LastTurn(ps: seq<Phase>)
    requires |ps| >= 2
    ensures Interleaved(ps, |ps|) == Interleaved(ps, |ps| - 1) + Max(ps[0].cost, ps[|ps| - 1].cost)
  {
    PhaseAt(ps, |ps| - 1);
  }

  /** What embedding says of the turns: at the start, up to the last embedded pair, and after it. */
  lemma EmbeddedEnds(qs: seq<Phase>, ps: seq<Phase>, at: seq<nat>) returns (first: nat, last: nat, s: nat)
    requires Embeds(qs, ps, at) && at != []
    ensures 2 <= |ps| && 2 <= |qs| && ps[0].cost <= s && qs[0].cost <= s
    ensures ps[0].cost + first >= s + Max(s, qs[1].cost)
    ensures Interleaved(qs, |qs| - 1) - Max(qs[0].cost, qs[1].cost) <= last - first
    ensures || (last == Interleaved(ps, |ps| - 1) && qs[|qs| - 1].cost == ps[|ps| - 1].cost)
            || last + qs[|qs| - 1].cost <= Interleaved(ps, |ps| - 1)
  {
    hide Interleaved, Executes, Embeds;
    var m, n := |at| - 1, |ps| / 2 - 1;
    EmbedsAt(qs, ps, at, 0);
    EmbedsAt(qs, ps, at, m);
    TurnsEmbedded(qs, ps, at, m);
    FirstTurn(qs);
    GainFirst(ps, at[0]);
    NothingBefore(ps);
    s := Executes(ps, at[0] + 1);
    first := Interleaved(ps, 2 * at[0] + 1);
    last := Interleaved(ps, 2 * at[m] + 1);
    if at[m] < n {
      Gain(ps, at[m], n);
    }
  }

  /** The sum over a whole round, and two work-groups. */
  lemma RoundEmbedded(qs: seq<Phase>, ps: seq<Phase>, at: seq<nat>)
    requires Embeds(qs, ps, at) && at != []
    ensures |ps| >= 2 && |qs| >= 2 && Interleaved(qs, |qs|) <= Interleaved(ps, |ps|)
    ensures Interleaved(qs, |qs|) + Min(qs[0].cost, qs[|qs| - 1].cost)
            <= Interleaved(ps, |ps|) + Min(ps[0].cost, ps[|ps| - 1].cost)
  {
    hide Interleaved, Embeds;
    var first, last, s := EmbeddedEnds(qs, ps, at);
    LastTurn(qs);
    LastTurn(ps);
  }

  lemma NothingBefore(ps: seq<Phase>)
    ensures Executes(ps, 0) == 0
  {
  }

  lemma EmbedsAt(qs: seq<Phase>, ps: seq<Phase>, at: seq<nat>, l: nat)
    requires Embeds(qs, ps, at)
    ensures |qs| == 2 * |at| && |ps| % 2 == 0 && (l < |at| ==> Embedded(qs, ps, at, l))
  {
  }

  /** The closed form over an embedded list is no larger, for any number of work-groups. */
  lemma EmbeddedWcet(qs: seq<Phase>, ps: seq<Phase>, at: seq<nat>, k: nat)
    requires Embeds(qs, ps, at) && at != [] && 1 <= k
    ensures ps != [] && qs != [] && Wcet(qs, k) <= Wcet(ps, k)
  {
    RoundEmbedded(qs, ps, at);
    hide Interleaved, Embedded;
    if k % 2 == 1 {
      TotalEmbedded(qs, ps, at, |at| - 1);
      assert qs[..|qs|] == qs;
      TotalGrows(ps, 2 * at[|at| - 1] + 2);
      MulMono(Interleaved(qs, |qs|), Interleaved(ps, |ps|), k / 2);
    } else {
      MulMono(Interleaved(qs, |qs|), Interleaved(ps, |ps|), k / 2 - 1);
      OneLess(Interleaved(qs, |qs|), k / 2);
      OneLess(Interleaved(ps, |ps|), k / 2);
    }
  }

  lemma OneLess(a: nat, k: nat)
    requires k > 0
    ensures a * k == a * (k - 1) + a
  {
  }

  // ----- The accesses of one path on another

  /** An access does not branch: its block falls through. */
  predicate SingleExit(g: Graph, blocks: seq<Block>) {
    |blocks| == |g| && forall u :: 0 <= u < |g| && blocks[u].access ==> |g[u]| <= 1
  }

  predicate Visits(p: seq<Step>, u: nat) {
    exists k :: 0 <= k < |p| && p[k].node == u
  }

  /** p visits every access that can lie between s and t. */
  ghost predicate CoversAccesses(g: Graph, blocks: seq<Block>, s: nat, t: nat, p: seq<Step>)
    requires |blocks| == |g|
  {
    forall u: nat :: u < |g| && u != t && blocks[u].access && Reachable(g, s, u) && Reachable(g, u, t) ==> Visits(p, u)
  }

  /** Other costs of the same accesses. */
  predicate Repriced(blocks: seq<Block>, priced: seq<Block>) {
    && |priced| == |blocks|
    && forall u :: 0 <= u < |blocks| ==> priced[u] == blocks[u].(accessCost := priced[u].accessCost)
  }

  /** For any number of work-groups, the closed form over ps is no less than that over qs. */
  ghost predicate NoLess(ps: seq<Phase>, qs: seq<Phase>) {
    qs != [] ==> ps != [] && forall k: nat :: 1 <= k ==> Wcet(qs, k) <= Wcet(ps, k)
  }

  /** The closed form over the phases of p is no less than that over those of any path. */
  ghost predicate Dominates(g: Graph, blocks: seq<Block>, s: nat, t: nat, p: seq<Step>, pipeDepth: nat) {
    forall q, ps, qs ::
      && IsPath(g, s, q, t) && OnGraph(g, blocks, p) && OnGraph(g, blocks, q)
      && IsPhases(ps, Along(g, blocks, p), pipeDepth) && IsPhases(qs, Along(g, blocks, q), pipeDepth)
      ==> NoLess(ps, qs)
  }

  lemma {:induction false} RankAlong(g: Graph, rank: seq<nat>, s: nat, p: seq<Step>, t: nat, i: nat, j: nat)
    requires WellFormed(g) && Ranked(g, rank) && IsPath(g, s, p, t) && i < j < |p|
    ensures p[i].node < |g| && p[j].node < |g| && rank[p[i].node] < rank[p[j].node]
    decreases j
  {
    hide IsPath;
    Leads(g, s, p, t, j - 1);
    Leads(g, s, p, t, j);
    if i < j - 1 {
      RankAlong(g, rank, s, p, t, i, j - 1);
    }
  }

  /** Blocks that two paths visit come in the same order. */
  lemma SameOrder(g: Graph, rank: seq<nat>, s: nat, t: nat, p: seq<Step>, q: seq<Step>, i: nat, j: nat,
                  i': nat, j': nat)
    requires WellFormed(g) && Ranked(g, rank) && IsPath(g, s, p, t) && IsPath(g, s, q, t)
    requires i < |p| && j < |p| && i' < j' < |q| && p[i].node == q[i'].node && p[j].node == q[j'].node
    ensures i < j
  {
    hide IsPath;
    RankAlong(g, rank, s, q, t, i', j');
    if j < i {
      RankAlong(g, rank, s, p, t, j, i);
    }
  }

  /** No node of a path is where it leads. */
  lemma NotAtEnd(g: Graph, rank: seq<nat>, s: nat, p: seq<Step>, t: nat, i: nat)
    requires WellFormed(g) && Ranked(g, rank) && IsPath(g, s, p, t) && i < |p|
    ensures p[i].node != t
  {
    hide IsPath;
    var n := |p| - 1;
    Leads(g, s, p, t, n);
    if i < n {
      RankAlong(g, rank, s, p, t, i, n);
    }
  }

  /** What the execute phases take up to an access. */
  lemma {:induction false} ExecutesAreEdges(ps: seq<Phase>, path: seq<PathNode>, pipeDepth: nat, i: nat)
    requires IsPhases(ps, path, pipeDepth) && i < |path| && path[i].access
    ensures 2 * Accesses(path[..i]) + 2 <= |ps|
    ensures Executes(ps, Accesses(path[..i]) + 1) == pipeDepth + Edges(path[..i + 1])
    decreases i
  {
    hide IsPhases;
    var j := Accesses(path[..i]);
    if j == 0 {
      PhasePair(ps, path, pipeDepth, 0, 0, i);
      NothingBefore(ps);
      assert Edges(path[..0]) == 0;
    } else {
      LaterAccess(path, i, |path|);
      assert path[..|path|] == path;
      var k := AccessNumber(path, j - 1);
      PhasePair(ps, path, pipeDepth, j, k + 1, i);
      ExecutesAreEdges(ps, path, pipeDepth, k);
    }
  }

  /** Step i of p and step i' of q leave the same block, with access number l of q. */
  predicate Matched(g: Graph, blocks: seq<Block>, p: seq<Step>, q: seq<Step>, l: nat, i: nat, i': nat)
    requires OnGraph(g, blocks, p) && OnGraph(g, blocks, q)
  {
    && i < |p| && i' < |q| && p[i].node == q[i'].node && blocks[p[i].node].access
    && Accesses(Along(g, blocks, q)[..i']) == l
  }

  lemma MatchedMeet(g: Graph, blocks: seq<Block>, s: nat, t: nat, p: seq<Step>, q: seq<Step>, l: nat, i: nat, i': nat)
    requires SingleExit(g, blocks) && IsPath(g, s, p, t) && IsPath(g, s, q, t)
    requires OnGraph(g, blocks, p) && OnGraph(g, blocks, q) && Matched(g, blocks, p, q, l, i, i')
    ensures At(p, t, i + 1) == At(q, t, i' + 1)
  {
    hide IsPath, Along;
    Leads(g, s, p, t, i);
    Leads(g, s, q, t, i');
  }

  /** Between two blocks that both visit, the edges of the costliest path take no less. */
  lemma EdgesBetween(g: Graph, blocks: seq<Block>, s: nat, t: nat, p: seq<Step>, q: seq<Step>, m: nat, n: nat,
                     m': nat, n': nat)
    requires Longest(g, s, p, t) && IsPath(g, s, q, t) && OnGraph(g, blocks, p) && OnGraph(g, blocks, q)
    requires m <= n <= |p| && m' <= n' <= |q| && At(p, t, m) == At(q, t, m') && At(p, t, n) == At(q, t, n')
    ensures Edges(Along(g, blocks, q)[..n']) - Edges(Along(g, blocks, q)[..m'])
            <= Edges(Along(g, blocks, p)[..n]) - Edges(Along(g, blocks, p)[..m])
  {
    hide Longest, IsPath, OnGraph, Along, At;
    LongestIsPath(g, s, p, t);
    SegmentIsLonger(g, s, p, q, t, m, n, m', n');
    EdgesAreReached(g, blocks, s, p, t, m);
    EdgesAreReached(g, blocks, s, p, t, n);
    EdgesAreReached(g, blocks, s, q, t, m');
    EdgesAreReached(g, blocks, s, q, t, n');
  }

  /** The first access of q on p. */
  lemma FirstEmbedded(g: Graph, blocks: seq<Block>, s: nat, t: nat, p: seq<Step>, q: seq<Step>, ps: seq<Phase>,
                      qs: seq<Phase>, pipeDepth: nat, at: seq<nat>, i: nat, i': nat)
    requires SingleExit(g, blocks) && Longest(g, s, p, t) && IsPath(g, s, q, t)
    requires OnGraph(g, blocks, p) && OnGraph(g, blocks, q) && Matched(g, blocks, p, q, 0, i, i')
    requires IsPhases(ps, Along(g, blocks, p), pipeDepth) && IsPhases(qs, Along(g, blocks, q), pipeDepth)
    requires at != [] && |qs| == 2 * |at| && at[0] == Accesses(Along(g, blocks, p)[..i])
    ensures Embedded(qs, ps, at, 0)
  {
    hide Longest, IsPath, IsPhases, Along, Edges, Executes, Accesses, Total, At, SingleExit, OnGraph;
    LongestIsPath(g, s, p, t);
    var a, b := Along(g, blocks, p), Along(g, blocks, q);
    MatchedMeet(g, blocks, s, t, p, q, 0, i, i');
    StartIsSource(g, s, p, t);
    StartIsSource(g, s, q, t);
    EdgesBetween(g, blocks, s, t, p, q, 0, i + 1, 0, i' + 1);
    PhasePair(qs, b, pipeDepth, 0, 0, i');
    ExecutesAreEdges(ps, a, pipeDepth, i);
    PhaseTotals(ps, a, pipeDepth, at[0], i);
    NothingBefore(ps);
    assert a[i].accessCost == b[i'].accessCost;
  }

  /** A later one. */
  lemma NextEmbedded(g: Graph, blocks: seq<Block>, s: nat, t: nat, p: seq<Step>, q: seq<Step>, ps: seq<Phase>,
                     qs: seq<Phase>, pipeDepth: nat, at: seq<nat>, l: nat, m: nat, m': nat, i: nat, i': nat)
    requires SingleExit(g, blocks) && Longest(g, s, p, t) && IsPath(g, s, q, t)
    requires OnGraph(g, blocks, p) && OnGraph(g, blocks, q) && 0 < l < |at|
    requires Matched(g, blocks, p, q, l - 1, m, m') && Matched(g, blocks, p, q, l, i, i') && m < i && m' < i'
    requires IsPhases(ps, Along(g, blocks, p), pipeDepth) && IsPhases(qs, Along(g, blocks, q), pipeDepth)
    requires |qs| == 2 * |at| && at[l - 1] == Accesses(Along(g, blocks, p)[..m])
    requires at[l] == Accesses(Along(g, blocks, p)[..i])
    ensures Embedded(qs, ps, at, l)
  {
    hide Longest, IsPath, IsPhases, Along, Edges, Executes, Accesses, Total, At, SingleExit, OnGraph;
    LongestIsPath(g, s, p, t);
    var a, b := Along(g, blocks, p), Along(g, blocks, q);
    MatchedMeet(g, blocks, s, t, p, q, l - 1, m, m');
    MatchedMeet(g, blocks, s, t, p, q, l, i, i');
    EdgesBetween(g, blocks, s, t, p, q, m + 1, i + 1, m' + 1, i' + 1);
    PhasePair(qs, b, pipeDepth, l, m' + 1, i');
    LaterAccess(a, m, i);
    ExecutesAreEdges(ps, a, pipeDepth, m);
    ExecutesAreEdges(ps, a, pipeDepth, i);
    PhaseTotals(ps, a, pipeDepth, at[l], i);
    assert a[i].accessCost == b[i'].accessCost;
  }

  /** The l-th access of q, and the same block on p. */
  lemma MatchAccess(g: Graph, blocks: seq<Block>, rank: seq<nat>, s: nat, t: nat, p: seq<Step>, q: seq<Step>, l: nat)
    returns (i: nat, i': nat)
    requires WellFormed(g) && Ranked(g, rank) && IsPath(g, s, q, t)
    requires OnGraph(g, blocks, p) && OnGraph(g, blocks, q) && CoversAccesses(g, blocks, s, t, p)
    requires l < Accesses(Along(g, blocks, q))
    ensures Matched(g, blocks, p, q, l, i, i')
  {
    hide IsPath, Along, Accesses, Ranked, WellFormed;
    i' := AccessNumber(Along(g, blocks, q), l);
    var u := q[i'].node;
    NotAtEnd(g, rank, s, q, t, i');
    PathSplit(g, s, q, t, i');
    assert Reachable(g, s, u) && Reachable(g, u, t);
    i :| i < |p| && p[i].node == u;
  }

  /** The accesses of q, one after the other, on p. */
  lemma MatchAll(g: Graph, blocks: seq<Block>, rank: seq<nat>, s: nat, t: nat, p: seq<Step>, q: seq<Step>)
    returns (on: seq<nat>, on': seq<nat>)
    requires WellFormed(g) && Ranked(g, rank) && IsPath(g, s, q, t)
    requires OnGraph(g, blocks, p) && OnGraph(g, blocks, q) && CoversAccesses(g, blocks, s, t, p)
    ensures |on| == |on'| == Accesses(Along(g, blocks, q))
    ensures forall l :: 0 <= l < |on| ==> Matched(g, blocks, p, q, l, on[l], on'[l])
  {
    hide Matched, IsPath, CoversAccesses, Along;
    on, on' := [], [];
    while |on| < Accesses(Along(g, blocks, q))
      invariant |on| == |on'| <= Accesses(Along(g, blocks, q))
      invariant forall l :: 0 <= l < |on| ==> Matched(g, blocks, p, q, l, on[l], on'[l])
    {
      var i, i' := MatchAccess(g, blocks, rank, s, t, p, q, |on|);
      on, on' := on + [i], on' + [i'];
    }
  }

  lemma MatchedOrder(g: Graph, blocks: seq<Block>, rank: seq<nat>, s: nat, t: nat, p: seq<Step>, q: seq<Step>,
                     l: nat, m: nat, m': nat, i: nat, i': nat)
    requires WellFormed(g) && Ranked(g, rank) && IsPath(g, s, p, t) && IsPath(g, s, q, t)
    requires OnGraph(g, blocks, p) && OnGraph(g, blocks, q) && 0 < l
    requires Matched(g, blocks, p, q, l - 1, m, m') && Matched(g, blocks, p, q, l, i, i')
    ensures m < i && m' < i'
  {
    hide IsPath, Along;
    if i' <= m' {
      AccessesGrow(Along(g, blocks, q), i', m');
    }
    SameOrder(g, rank, s, t, p, q, m, i, m', i');
  }

  /** A path whose accesses all lie on the costliest one: its phases are embedded. */
  lemma PhasesEmbedded(g: Graph, blocks: seq<Block>, rank: seq<nat>, s: nat, t: nat, p: seq<Step>, q: seq<Step>,
                       ps: seq<Phase>, qs: seq<Phase>, pipeDepth: nat)
    returns (at: seq<nat>)
    requires WellFormed(g) && Ranked(g, rank) && SingleExit(g, blocks) && Longest(g, s, p, t) && IsPath(g, s, q, t)
    requires OnGraph(g, blocks, p) && OnGraph(g, blocks, q) && CoversAccesses(g, blocks, s, t, p)
    requires IsPhases(ps, Along(g, blocks, p), pipeDepth) && IsPhases(qs, Along(g, blocks, q), pipeDepth)
    ensures Embeds(qs, ps, at)
  {
    hide Longest, IsPath, CoversAccesses, Along, Matched, OnGraph, Ranked, WellFormed, SingleExit, Embedded;
    LongestIsPath(g, s, p, t);
    var a := Along(g, blocks, p);
    var on, on' := MatchAll(g, blocks, rank, s, t, p, q);
    at := [];
    while |at| < |on|
      invariant |at| <= |on|
      invariant forall l :: 0 <= l < |at| ==> on[l] < |a| && at[l] == Accesses(a[..on[l]])
    {
      OnPath(g, blocks, p, q, |at|, on[|at|], on'[|at|]);
      at := at + [Accesses(a[..on[|at|]])];
    }
    forall l | 0 <= l < |at|
      ensures Embedded(qs, ps, at, l)
    {
      if l == 0 {
        FirstEmbedded(g, blocks, s, t, p, q, ps, qs, pipeDepth, at, on[0], on'[0]);
      } else {
        MatchedOrder(g, blocks, rank, s, t, p, q, l, on[l - 1], on'[l - 1], on[l], on'[l]);
        NextEmbedded(g, blocks, s, t, p, q, ps, qs, pipeDepth, at, l, on[l - 1], on'[l - 1], on[l], on'[l]);
      }
    }
  }

  lemma OnPath(g: Graph, blocks: seq<Block>, p: seq<Step>, q: seq<Step>, l: nat, i: nat, i': nat)
    requires OnGraph(g, blocks, p) && OnGraph(g, blocks, q) && Matched(g, blocks, p, q, l, i, i')
    ensures i < |Along(g, blocks, p)| && Along(g, blocks, p)[i].access
  {
  }

  // ----- Exactly when

  lemma WithoutAccess(ps: seq<Phase>, path: seq<PathNode>, pipeDepth: nat)
    requires path != [] && !path[|path| - 1].access && IsPhases(ps, path[..|path| - 1], pipeDepth)
    ensures IsPhases(ps, path, pipeDepth)
  {
    hide Alternating, Total, NodeCosts;
    var front := path[..|path| - 1];
    forall i | 0 <= i < |path| && path[i].access
      ensures Closes(ps, Accesses(path[..i]), path, i, pipeDepth)
    {
      CloseLater(ps, front, path, i, pipeDepth);
    }
  }

  lemma CloseLater(ps: seq<Phase>, front: seq<PathNode>, path: seq<PathNode>, i: nat, pipeDepth: nat)
    requires path != [] && front == path[..|path| - 1] && i < |front|
    requires path[i].access && IsPhases(ps, front, pipeDepth)
    ensures Closes(ps, Accesses(path[..i]), path, i, pipeDepth)
  {
    hide Alternating, Total, NodeCosts, Accesses;
    assert front[..i] == path[..i] && front[..i + 1] == path[..i + 1] && front[i] == path[i];
    assert Closes(ps, Accesses(front[..i]), front, i, pipeDepth);
  }

  lemma WithAccess(ps: seq<Phase>, path: seq<PathNode>, pipeDepth: nat) returns (more: seq<Phase>)
    requires path != [] && path[|path| - 1].access && IsPhases(ps, path[..|path| - 1], pipeDepth)
    ensures IsPhases(more, path, pipeDepth)
  {
    var n := |path| - 1;
    var front := path[..n];
    PhasesBelowPath(ps, front, pipeDepth);
    var e := Phase(Execute, pipeDepth + NodeCosts(front) + path[n].edgeCost - Total(ps));
    var a := Phase(if path[n].scratchpad then AccessSp else AccessDram, path[n].accessCost);
    more := ps + [e, a];
    PairAdded(ps, e, a);
    assert path[..n + 1] == path;
    assert NodeCosts(path) == NodeCosts(front) + path[n].edgeCost + path[n].accessCost;
    assert Accesses(path) == Accesses(front) + 1;
    assert |ps| == 2 * Accesses(front) && Alternating(ps);
    hide Alternating, Total, NodeCosts, Accesses, Closes, Count;
    PairCloses(more, Accesses(front), path, n, pipeDepth);
    forall i | 0 <= i < |path| && path[i].access
      ensures Closes(more, Accesses(path[..i]), path, i, pipeDepth)
    {
      if i < n {
        CloseLater(ps, front, path, i, pipeDepth);
        StaysClosed(ps, [e, a], Accesses(path[..i]), path, i, pipeDepth);
      }
    }
  }

  /** Every path has phases. */
  lemma {:induction false} PhasesExist(path: seq<PathNode>, pipeDepth: nat) returns (ps: seq<Phase>)
    ensures IsPhases(ps, path, pipeDepth)
  {
    if path == [] {
      ps := [];
    } else {
      hide IsPhases;
      ps := PhasesExist(path[..|path| - 1], pipeDepth);
      if path[|path| - 1].access {
        ps := WithAccess(ps, path, pipeDepth);
      } else {
        WithoutAccess(ps, path, pipeDepth);
      }
    }
  }

  /** If p visits all accesses, its closed form is no less than that over any path. */
  lemma CoveredDominates(g: Graph, blocks: seq<Block>, rank: seq<nat>, s: nat, t: nat, p: seq<Step>, pipeDepth: nat)
    requires WellFormed(g) && Ranked(g, rank) && SingleExit(g, blocks) && Longest(g, s, p, t)
    requires CoversAccesses(g, blocks, s, t, p)
    ensures Dominates(g, blocks, s, t, p, pipeDepth)
  {
    hide Longest, IsPath, CoversAccesses, Along, OnGraph, Ranked, WellFormed, SingleExit, IsPhases, Wcet;
    forall q, ps, qs | IsPath(g, s, q, t) && OnGraph(g, blocks, p) && OnGraph(g, blocks, q)
                       && IsPhases(ps, Along(g, blocks, p), pipeDepth) && IsPhases(qs, Along(g, blocks, q), pipeDepth)
      ensures NoLess(ps, qs)
    {
      var at := PhasesEmbedded(g, blocks, rank, s, t, p, q, ps, qs, pipeDepth);
      EmbeddedNoLess(ps, qs, at);
    }
  }

  lemma EmbeddedNoLess(ps: seq<Phase>, qs: seq<Phase>, at: seq<nat>)
    requires Embeds(qs, ps, at)
    ensures NoLess(ps, qs)
  {
    hide Wcet;
    if qs != [] {
      EmbeddedWcet(qs, ps, at, 1);
      forall k: nat | 1 <= k
        ensures Wcet(qs, k) <= Wcet(ps, k)
      {
        EmbeddedWcet(qs, ps, at, k);
      }
    }
  }

  /** A path through a block. */
  lemma PathThrough(g: Graph, s: nat, t: nat, u: nat) returns (q: seq<Step>, i: nat)
    requires u != t && Reachable(g, s, u) && Reachable(g, u, t)
    ensures IsPath(g, s, q, t) && i < |q| && q[i].node == u
  {
    var a: seq<Step> :| IsPath(g, s, a, u);
    var b: seq<Step> :| IsPath(g, u, b, t);
    assert b != [];
    hide IsPath;
    PathJoin(g, s, a, u, b, t);
    StartIsSource(g, u, b, t);
    q, i := a + b, |a|;
  }

  /** If it misses one, some costs of the accesses make its closed form too small, for a single
      work-group already. */
  lemma MissedFails(g: Graph, blocks: seq<Block>, s: nat, t: nat, p: seq<Step>, u: nat, pipeDepth: nat)
    returns (priced: seq<Block>)
    requires |blocks| == |g| && IsPath(g, s, p, t) && u < |g| && u != t && blocks[u].access
    requires Reachable(g, s, u) && Reachable(g, u, t) && !Visits(p, u)
    ensures Repriced(blocks, priced) && !Dominates(g, priced, s, t, p, pipeDepth)
  {
    hide IsPhases, Wcet, IsPath, Along, Reachable;
    var q, i := PathThrough(g, s, t, u);
    PathEdges(g, s, q, t);
    PathEdges(g, s, p, t);
    priced := DearAccessBreaks(g, blocks, p, q, i, pipeDepth);
    var a, b := Along(g, priced, p), Along(g, priced, q);
    var ps := PhasesExist(a, pipeDepth);
    var qs := PhasesExist(b, pipeDepth);
    PhaseTotals(qs, b, pipeDepth, Accesses(b[..i]), i);
    assert !NoLess(ps, qs);
  }

  /** Whatever the accesses cost, the closed form over the costliest path is no less than that over
      any other, exactly if the costliest path visits every access there is. */
  lemma DominatesExactly(g: Graph, blocks: seq<Block>, rank: seq<nat>, s: nat, t: nat, p: seq<Step>, pipeDepth: nat)
    requires WellFormed(g) && Ranked(g, rank) && SingleExit(g, blocks) && Longest(g, s, p, t)
    ensures CoversAccesses(g, blocks, s, t, p)
            <==> forall priced :: Repriced(blocks, priced) ==> Dominates(g, priced, s, t, p, pipeDepth)
  {
    hide Longest, IsPath, Dominates, Ranked, WellFormed;
    LongestIsPath(g, s, p, t);
    if CoversAccesses(g, blocks, s, t, p) {
      forall priced | Repriced(blocks, priced)
        ensures Dominates(g, priced, s, t, p, pipeDepth)
      {
        CoveredDominates(g, priced, rank, s, t, p, pipeDepth);
      }
    } else {
      var u: nat :| && u < |g| && u != t && blocks[u].access && Reachable(g, s, u) && Reachable(g, u, t)
                    && !Visits(p, u);
      var priced := MissedFails(g, blocks, s, t, p, u, pipeDepth);
    }
  }

  // ----- When all paths make the same accesses

  /** No path from s to t misses an access that can lie between them. */
  ghost predicate Unavoidable(g: Graph, blocks: seq<Block>, s: nat, t: nat)
    requires |blocks| == |g|
  {
    forall q :: IsPath(g, s, q, t) ==> CoversAccesses(g, blocks, s, t, q)
  }

  /** A path that visits the accesses of another makes at least as many. */
  lemma NoFewerAccesses(g: Graph, blocks: seq<Block>, rank: seq<nat>, s: nat, t: nat, p: seq<Step>, q: seq<Step>)
    requires WellFormed(g) && Ranked(g, rank) && IsPath(g, s, p, t) && IsPath(g, s, q, t)
    requires OnGraph(g, blocks, p) && OnGraph(g, blocks, q) && CoversAccesses(g, blocks, s, t, p)
    ensures Accesses(Along(g, blocks, q)) <= Accesses(Along(g, blocks, p))
  {
    hide IsPath, CoversAccesses, Along, Matched, OnGraph, Ranked, WellFormed, Accesses;
    var a := Along(g, blocks, p);
    var on, on' := MatchAll(g, blocks, rank, s, t, p, q);
    for l := 0 to |on|
      invariant l > 0 ==> on[l - 1] < |a| && a[on[l - 1]].access && l - 1 <= Accesses(a[..on[l - 1]])
    {
      OnPath(g, blocks, p, q, l, on[l], on'[l]);
      if l > 0 {
        MatchedOrder(g, blocks, rank, s, t, p, q, l, on[l - 1], on'[l - 1], on[l], on'[l]);
        LaterAccess(a, on[l - 1], on[l]);
      }
    }
    if on != [] {
      LaterAccess(a, on[|on| - 1], |a|);
      assert a[..|a|] == a;
    }
  }

  /** A list embedded in one of its length sits there pair by pair. */
  lemma {:induction false} EmbeddedInOrder(qs: seq<Phase>, ps: seq<Phase>, at: seq<nat>, l: nat)
    requires Embeds(qs, ps, at) && |qs| == |ps| && l < |at|
    ensures at[l] == l && qs[2 * l].cost <= ps[2 * l].cost && qs[2 * l + 1].cost == ps[2 * l + 1].cost
  {
    RoomBefore(qs, ps, at, l);
    RoomAfter(qs, ps, at, l);
    assert Embedded(qs, ps, at, l);
    if l > 0 {
      EmbeddedInOrder(qs, ps, at, l - 1);
    }
    assert Executes(ps, l + 1) == Executes(ps, l) + ps[2 * l].cost;
  }

  lemma {:induction false} RoomBefore(qs: seq<Phase>, ps: seq<Phase>, at: seq<nat>, l: nat)
    requires Embeds(qs, ps, at) && l < |at|
    ensures l <= at[l]
  {
    assert Embedded(qs, ps, at, l);
    if l > 0 {
      RoomBefore(qs, ps, at, l - 1);
    }
  }

  lemma {:induction false} RoomAfter(qs: seq<Phase>, ps: seq<Phase>, at: seq<nat>, l: nat)
    requires Embeds(qs, ps, at) && l < |at|
    ensures 2 * (at[l] + |at| - l) <= |ps|
    decreases |at| - l
  {
    assert Embedded(qs, ps, at, l);
    if l + 1 < |at| {
      assert Embedded(qs, ps, at, l + 1);
      RoomAfter(qs, ps, at, l + 1);
    }
  }

  /** Where no access can be avoided, every path has the phases of the costliest one, none longer. */
  lemma UnavoidableWithin(g: Graph, blocks: seq<Block>, rank: seq<nat>, s: nat, t: nat, p: seq<Step>, q: seq<Step>,
                          ps: seq<Phase>, qs: seq<Phase>, pipeDepth: nat)
    requires WellFormed(g) && Ranked(g, rank) && SingleExit(g, blocks) && Longest(g, s, p, t) && IsPath(g, s, q, t)
    requires OnGraph(g, blocks, p) && OnGraph(g, blocks, q) && Unavoidable(g, blocks, s, t)
    requires IsPhases(ps, Along(g, blocks, p), pipeDepth) && IsPhases(qs, Along(g, blocks, q), pipeDepth)
    ensures |qs| == |ps| && forall x :: 0 <= x < |qs| ==> qs[x].cost <= ps[x].cost
  {
    LongestIsPath(g, s, p, t);
    assert CoversAccesses(g, blocks, s, t, p) && CoversAccesses(g, blocks, s, t, q);
    hide Longest, IsPath, CoversAccesses, Along, OnGraph, Ranked, WellFormed, SingleExit, IsPhases, Unavoidable, Embeds;
    PairsAreAccesses(ps, Along(g, blocks, p), pipeDepth);
    PairsAreAccesses(qs, Along(g, blocks, q), pipeDepth);
    NoFewerAccesses(g, blocks, rank, s, t, p, q);
    NoFewerAccesses(g, blocks, rank, s, t, q, p);
    var at := PhasesEmbedded(g, blocks, rank, s, t, p, q, ps, qs, pipeDepth);
    SameLengthWithin(qs, ps, at);
  }

  lemma SameLengthWithin(qs: seq<Phase>, ps: seq<Phase>, at: seq<nat>)
    requires Embeds(qs, ps, at) && |qs| == |ps|
    ensures forall x :: 0 <= x < |qs| ==> qs[x].cost <= ps[x].cost
  {
    hide Embedded;
    forall x | 0 <= x < |qs|
      ensures qs[x].cost <= ps[x].cost
    {
      EmbeddedInOrder(qs, ps, at, x / 2);
    }
  }

  lemma PairsAreAccesses(ps: seq<Phase>, path: seq<PathNode>, pipeDepth: nat)
    requires IsPhases(ps, path, pipeDepth)
    ensures |ps| == 2 * Accesses(path)
  {
  }
}
