/** Inlining one graph into another: the copy of the part that can be reached. */
module DagAppending {
  import opened Graphs
  import opened CriticalPaths

  // ----- What a copy is

  /** f numbers the nodes in `order`, consecutively. */
  predicate Numbers(order: seq<nat>, f: map<nat, nat>) {
    && (forall k :: 0 <= k < |order| ==> order[k] in f && f[order[k]] == k)
    && (forall u :: u in f ==> f[u] < |order| && order[f[u]] == u)
  }

  predicate Known(es: seq<Edge>, f: map<nat, nat>) {
    forall i :: 0 <= i < |es| ==> es[i].dst in f
  }

  /** Edges after renumbering by f. */
  function Renamed(es: seq<Edge>, f: map<nat, nat>): (r: seq<Edge>)
    requires Known(es, f)
    ensures |r| == |es| && forall i :: 0 <= i < |es| ==> r[i] == Edge(es[i].cost, f[es[i].dst])
  {
    if es == [] then [] else Renamed(es[..|es| - 1], f) + [Edge(es[|es| - 1].cost, f[es[|es| - 1].dst])]
  }

  /** h is the part of g that s reaches, renumbered: each such node once, each of its edges once,
      in order and with its cost. */
  ghost predicate IsCopy(g: Graph, s: nat, order: seq<nat>, f: map<nat, nat>, h: Graph) {
    && WellFormed(g) && Numbers(order, f) && |h| == |order|
    && (forall u: nat :: u in f <==> u < |g| && Reachable(g, s, u))
    && forall u :: u in f ==> Known(g[u], f) && h[f[u]] == Renamed(g[u], f)
  }

  // ----- State of the traversal

  /** Edges of node u that have been copied: all if it is done, i if it is in work. */
  function Part(g: Graph, done: set<nat>, cur: int, i: nat, u: nat): (es: seq<Edge>)
    requires u < |g| && (u == cur ==> i <= |g[u]|)
  {
    if u in done then g[u] else if u == cur then g[u][..i] else []
  }

  ghost predicate OutsOk(g: Graph, f: map<nat, nat>, h: Graph, done: set<nat>, cur: int, i: nat) {
    && (0 <= cur < |g| ==> i <= |g[cur]|)
    && forall u :: u in f ==>
         && u < |g| && f[u] < |h| && Known(Part(g, done, cur, i, u), f)
         && h[f[u]] == Renamed(Part(g, done, cur, i, u), f)
  }

  /** A node that was met is done, in work or waiting, and waits once. */
  ghost predicate WaitsOk(g: Graph, s: nat, f: map<nat, nat>, done: set<nat>, cur: int, wp: seq<nat>) {
    && (forall i, j :: 0 <= i < j < |wp| ==> wp[i] != wp[j])
    && (forall k :: 0 <= k < |wp| ==> wp[k] < |g| && wp[k] !in done && wp[k] != cur && (wp[k] in f || wp[k] == s))
    && (forall u :: u in f ==> u in done || u == cur || u in wp)
    && (forall u :: u in done ==> u in f)
    && (cur >= 0 ==> cur in f && cur !in done)
    && (forall u :: u in f ==> u < |g| && Reachable(g, s, u))
    && (s !in f ==> cur < 0 && wp == [s] && f.Keys == {})
  }

  /** The node that has waited longest goes to work; the source is only now met. */
  lemma Starts(g: Graph, s: nat, f: map<nat, nat>, done: set<nat>, wp: seq<nat>, k: nat)
    requires WaitsOk(g, s, f, done, -1, wp) && wp != []
    ensures wp[0] !in f ==> wp[0] == s && f.Keys == {}
    ensures WaitsOk(g, s, if wp[0] in f then f else f[wp[0] := k], done, wp[0], wp[1..])
  {
    assert IsPath(g, s, [], s);
    assert Reachable(g, s, s);
    hide Reachable, IsPath;
    var u := wp[0];
    assert forall x :: x in wp ==> x == u || x in wp[1..];
    if s !in f {
      assert forall x :: x in f ==> x in done;
    }
  }

  /** A node that is met for the first time waits. */
  lemma Meets(g: Graph, s: nat, f: map<nat, nat>, done: set<nat>, cur: nat, wp: seq<nat>, v: nat, k: nat)
    requires WaitsOk(g, s, f, done, cur, wp) && v !in f && v < |g| && Reachable(g, s, v)
    ensures WaitsOk(g, s, f[v := k], done, cur, wp + [v])
  {
    hide Reachable;
    assert forall x :: x in wp ==> x in wp + [v];
    assert (wp + [v])[|wp|] == v;
  }

  lemma InWork(g: Graph, s: nat, f: map<nat, nat>, done: set<nat>, cur: nat, wp: seq<nat>, v: nat)
    requires WaitsOk(g, s, f, done, cur, wp)
    ensures cur in f && cur !in done && (v !in f ==> v != cur && v !in done)
  {
  }

  lemma Finishes(g: Graph, s: nat, f: map<nat, nat>, done: set<nat>, cur: nat, wp: seq<nat>)
    requires WaitsOk(g, s, f, done, cur, wp)
    ensures WaitsOk(g, s, f, done + {cur}, -1, wp)
  {
    hide Reachable;
  }

  lemma ReachNext(g: Graph, s: nat, u: nat, i: nat)
    requires Reachable(g, s, u) && u < |g| && i < |g[u]|
    ensures Reachable(g, s, g[u][i].dst)
  {
    var p :| IsPath(g, s, p, u);
    var q := p + [Step(u, i)];
    assert q[..|p|] == p;
    assert IsPath(g, s, q, g[u][i].dst);
  }

  lemma NumbersExtend(order: seq<nat>, f: map<nat, nat>, u: nat)
    requires Numbers(order, f) && u !in f
    ensures Numbers(order + [u], f[u := |order|])
  {
  }

  lemma {:induction false} RenamedExtends(es: seq<Edge>, f: map<nat, nat>, v: nat, k: nat)
    requires Known(es, f) && v !in f
    ensures Known(es, f[v := k]) && Renamed(es, f[v := k]) == Renamed(es, f)
  {
  }

  /** Meeting a new node. */
  lemma NewNode(g: Graph, f: map<nat, nat>, h: Graph, done: set<nat>, cur: int, i: nat, v: nat)
    requires OutsOk(g, f, h, done, cur, i) && v !in f && v < |g| && v != cur && v !in done
    ensures OutsOk(g, f[v := |h|], h + [[]], done, cur, i)
  {
    hide Renamed, Known;
    var f1, h1 := f[v := |h|], h + [[]];
    forall u | u in f1
      ensures u < |g| && f1[u] < |h1| && Known(Part(g, done, cur, i, u), f1)
      ensures h1[f1[u]] == Renamed(Part(g, done, cur, i, u), f1)
    {
      if u == v {
        NothingRenamed(f1);
      } else {
        RenamedExtends(Part(g, done, cur, i, u), f, v, |h|);
      }
    }
  }

  lemma NothingRenamed(f: map<nat, nat>)
    ensures Known([], f) && Renamed([], f) == []
  {
  }

  /** Copying one edge. */
  lemma NewEdge(g: Graph, order: seq<nat>, f: map<nat, nat>, h: Graph, done: set<nat>, cur: nat, i: nat)
    requires OutsOk(g, f, h, done, cur, i) && Numbers(order, f)
    requires cur in f && cur !in done && i < |g[cur]| && g[cur][i].dst in f
    ensures var e := g[cur][i]; var (a, b) := (f[cur], f[e.dst]);
            OutsOk(g, f, h[a := h[a] + [Edge(e.cost, b)]], done, cur, i + 1)
  {
    hide Renamed, Known;
    var e, a := g[cur][i], f[cur];
    var h1 := h[a := h[a] + [Edge(e.cost, f[e.dst])]];
    forall u | u in f
      ensures Known(Part(g, done, cur, i + 1, u), f) && h1[f[u]] == Renamed(Part(g, done, cur, i + 1, u), f)
    {
      if u == cur {
        RenamedNext(g[cur], f, i);
      } else {
        assert order[f[u]] == u && order[a] == cur;
        assert Part(g, done, cur, i + 1, u) == Part(g, done, cur, i, u);
      }
    }
  }

  lemma RenamedNext(es: seq<Edge>, f: map<nat, nat>, i: nat)
    requires i < |es| && Known(es[..i], f) && es[i].dst in f
    ensures Known(es[..i + 1], f)
    ensures Renamed(es[..i + 1], f) == Renamed(es[..i], f) + [Edge(es[i].cost, f[es[i].dst])]
  {
    assert es[..i + 1][..i] == es[..i];
  }

  /** A node with all edges copied is done. */
  lemma NodeDone(g: Graph, f: map<nat, nat>, h: Graph, done: set<nat>, cur: nat)
    requires cur < |g| && cur !in done && OutsOk(g, f, h, done, cur, |g[cur]|)
    ensures OutsOk(g, f, h, done + {cur}, -1, 0)
  {
    assert g[cur][..|g[cur]|] == g[cur];
    forall u | u in f
      ensures Part(g, done + {cur}, -1, 0, u) == Part(g, done, cur, |g[cur]|, u)
    {
    }
  }

  /** When nothing waits, everything that can be reached has been copied. */
  lemma AllCopied(g: Graph, s: nat, order: seq<nat>, f: map<nat, nat>, h: Graph, done: set<nat>)
    requires WellFormed(g) && s < |g| && OutsOk(g, f, h, done, -1, 0) && WaitsOk(g, s, f, done, -1, [])
    requires Numbers(order, f) && |h| == |order|
    ensures IsCopy(g, s, order, f, h) && done == f.Keys
  {
    hide Renamed, Known, WellFormed, Reachable;
    forall u | u in done && u < |g|
      ensures Known(g[u], f)
    {
      assert Part(g, done, -1, 0, u) == g[u];
    }
    forall u: nat
      ensures u in f <==> u < |g| && Reachable(g, s, u)
    {
      if u < |g| && Reachable(g, s, u) {
        ReachInside(g, s, f, done, u);
      }
    }
    forall u | u in f
      ensures Known(g[u], f) && h[f[u]] == Renamed(g[u], f)
    {
      assert Part(g, done, -1, 0, u) == g[u];
    }
  }

  lemma ReachInside(g: Graph, s: nat, f: map<nat, nat>, done: set<nat>, u: nat)
    requires s in f && (forall x :: x in f ==> x in done) && (forall x :: x in done && x < |g| ==> Known(g[x], f))
    requires Reachable(g, s, u)
    ensures u in f
  {
    var p :| IsPath(g, s, p, u);
    PathInside(g, s, f, done, p, u);
  }

  lemma {:induction false} PathInside(g: Graph, s: nat, f: map<nat, nat>, done: set<nat>, p: seq<Step>, u: nat)
    requires s in f && (forall x :: x in f ==> x in done) && (forall x :: x in done && x < |g| ==> Known(g[x], f))
    requires IsPath(g, s, p, u)
    ensures u in f
  {
    if p != [] {
      PathInside(g, s, f, done, p[..|p| - 1], p[|p| - 1].node);
    }
  }

  lemma {:induction false} InAllNewEdge(h: Graph, a: nat, e: Edge, v: nat, n: nat)
    requires a < |h| && n <= |h|
    ensures InAll(h[a := h[a] + [e]], v, n) == InAll(h, v, n) + if a < n && e.dst == v then 1 else 0
  {
    if n > 0 {
      InAllNewEdge(h, a, e, v, n - 1);
      if n - 1 == a {
        assert (h[a] + [e])[..|h[a]|] == h[a];
      }
    }
  }

  lemma {:induction false} InAllNewNode(h: Graph, v: nat, n: nat)
    requires n <= |h|
    ensures InAll(h + [[]], v, n) == InAll(h, v, n)
  {
    if n > 0 {
      InAllNewNode(h, v, n - 1);
    }
  }

  lemma {:induction false} NoEdgesTo(es: seq<Edge>, v: nat)
    requires forall i :: 0 <= i < |es| ==> es[i].dst != v
    ensures EdgesTo(es, v) == 0
  {
    if es != [] {
      NoEdgesTo(es[..|es| - 1], v);
    }
  }

  lemma {:induction false} NothingBeyond(h: Graph, v: nat, n: nat)
    requires WellFormed(h) && n <= |h| && v >= |h|
    ensures InAll(h, v, n) == 0
  {
    if n > 0 {
      NothingBeyond(h, v, n - 1);
      NoEdgesTo(h[n - 1], v);
    }
  }

  // ----- The traversal

  predicate Alike(cp: DagNode, n: DagNode) {
    cp.bb == n.bb && cp.access == n.access && cp.accessCost == n.accessCost
  }

  /** Originals and copies are at their places, and copies are alike their originals. */
  ghost predicate Placed(from: seq<DagNode>, copies: seq<DagNode>, order: seq<nat>, base: nat)
    reads from`pos, copies`pos
  {
    && |copies| == |order|
    && (forall u :: 0 <= u < |from| ==> from[u].pos == u)
    && forall k :: 0 <= k < |copies| ==>
         order[k] < |from| && copies[k].pos == base + k && Alike(copies[k], from[order[k]])
  }

  /** The edges of the copies are those of h. */
  ghost predicate EdgesOf(copies: seq<DagNode>, h: Graph)
    reads copies`out, copies`indegree
  {
    && |copies| == |h|
    && forall k :: 0 <= k < |copies| ==> EdgesAt(copies, h, k)
  }

  ghost predicate EdgesAt(copies: seq<DagNode>, h: Graph, k: nat)
    reads copies`out, copies`indegree
    requires k < |copies| == |h|
  {
    && |copies[k].out| == |h[k]| && copies[k].indegree == InDegree(h, k)
    && forall i :: 0 <= i < |h[k]| ==>
         h[k][i].dst < |copies| && copies[k].out[i] == (h[k][i].cost, copies[h[k][i].dst])
  }

  /** The map from originals to copies is f. */
  ghost predicate Maps(from: seq<DagNode>, copies: seq<DagNode>, f: map<nat, nat>, visited: map<DagNode, DagNode>)
    reads from`pos
  {
    && (forall u :: u in f ==>
          u < |from| && f[u] < |copies| && from[u] in visited && visited[from[u]] == copies[f[u]])
    && forall n :: n in visited ==> n in from && n.pos in f
  }

  lemma EdgesOfNewNode(copies: seq<DagNode>, h: Graph, cp: DagNode)
    requires EdgesOf(copies, h) && WellFormed(h) && cp.out == [] && cp.indegree == 0
    ensures EdgesOf(copies + [cp], h + [[]]) && WellFormed(h + [[]])
  {
    hide InDegree;
    NewNodeDegrees(h);
    forall k | 0 <= k <= |h|
      ensures EdgesAt(copies + [cp], h + [[]], k)
    {
      assert k < |h| ==> EdgesAt(copies, h, k);
    }
  }

  /** Node k after an edge from node a to node b was added. */
  lemma EdgeAdded(copies: seq<DagNode>, h: Graph, cost: nat, a: nat, b: nat, k: nat, outWas: seq<(nat, DagNode)>,
                  indegreeWas: nat)
    requires |copies| == |h| && a < |h| && b < |h| && k < |h|
    requires |outWas| == |h[k]| && indegreeWas == InDegree(h, k)
    requires forall i :: 0 <= i < |h[k]| ==>
               h[k][i].dst < |copies| && outWas[i] == (h[k][i].cost, copies[h[k][i].dst])
    requires copies[k].out == if k == a then outWas + [(cost, copies[b])] else outWas
    requires copies[k].indegree == indegreeWas + if k == b then 1 else 0
    ensures EdgesAt(copies, h[a := h[a] + [Edge(cost, b)]], k)
  {
    hide InAll;
    InAllNewEdge(h, a, Edge(cost, b), k, |h|);
  }

  lemma MapsNewNode(from: seq<DagNode>, copies: seq<DagNode>, f: map<nat, nat>, visited: map<DagNode, DagNode>, u: nat,
                    cp: DagNode)
    requires Maps(from, copies, f, visited) && u < |from| && from[u].pos == u && from[u] !in visited
    requires forall x :: 0 <= x < |from| ==> from[x].pos == x
    ensures u !in f && Maps(from, copies + [cp], f[u := |copies|], visited[from[u] := cp])
  {
  }

  class Inliner {
    ghost const from: seq<DagNode>
    ghost const g: Graph
    const base: nat  // nodes of the graph that is extended
    var copies: seq<DagNode>
    var wq: seq<DagNode>
    var visited: map<DagNode, DagNode>
    ghost var order: seq<nat>
    ghost var f: map<nat, nat>
    ghost var h: Graph
    ghost var done: set<nat>
    ghost var wp: seq<nat>  // places of the waiting nodes

    ghost predicate Sizes()
      reads `copies, `order, `h, `f
    {
      |from| == |g| && |copies| == |order| == |h| && WellFormed(h) && Numbers(order, f)
      && (forall k :: 0 <= k < |order| ==> order[k] < |g|)
      && forall k :: 0 <= k < |copies| ==> copies[k] !in from
    }

    /** The copies are alike their originals, and their edges are those of h. */
    ghost predicate Linked()
      reads `copies, `order, `h, `f, from`pos, copies`pos, copies`out, copies`indegree
      requires Sizes()
    {
      Placed(from, copies, order, base) && EdgesOf(copies, h)
    }

    ghost predicate Found()
      reads `copies, `order, `h, `f, `visited, from`pos
      requires Sizes()
    {
      Maps(from, copies, f, visited)
    }

    ghost predicate Traversal(s: nat, cur: int, i: nat)
      reads `copies, `order, `h, `f, `done, `wp, `wq
      requires Sizes()
    {
      && OutsOk(g, f, h, done, cur, i) && WaitsOk(g, s, f, done, cur, wp)
      && |wq| == |wp| && forall k :: 0 <= k < |wq| ==> wp[k] < |from| && wq[k] == from[wp[k]]
    }

    constructor (ghost from: seq<DagNode>, ghost g: Graph, base: nat, source: DagNode, ghost s: nat)
      requires |from| == |g| && s < |g| && source == from[s] && forall u :: 0 <= u < |from| ==> from[u].pos == u
      ensures Sizes() && Linked() && Found() && this.from == from && this.g == g && this.base == base
      ensures Traversal(s, -1, 0) && copies == [] && done == {}
    {
      this.from, this.g, this.base := from, g, base;
      copies, wq, visited := [], [source], map[];
      order, f, h, done, wp := [], map[], [], {}, [s];
    }

    /** The copy of a node, made when it is first met. */
    method Ensure(n: DagNode, ghost u: nat) returns (cp: DagNode, isNew: bool)
      requires Sizes() && Linked() && Found() && u < |from| && n == from[u]
      modifies `copies, `visited, `order, `f, `h
      ensures Sizes() && Linked() && Found() && u in f && f[u] < |copies| && cp == copies[f[u]]
              && isNew == (u !in old(f))
      ensures !isNew ==> copies == old(copies) && f == old(f) && h == old(h) && order == old(order)
      ensures isNew ==> fresh(cp) && copies == old(copies) + [cp] && order == old(order) + [u]
                        && f == old(f)[u := |old(h)|] && h == old(h) + [[]]
    {
      hide Numbers;
      isNew := n !in visited;
      if isNew {
        cp := n.CopyNode(false);
        cp.pos := base + |copies|;
        Register(n, u, cp);
      } else {
        cp := visited[n];
      }
    }

    method Register(n: DagNode, ghost u: nat, cp: DagNode)
      requires Sizes() && Linked() && Found() && u < |from| && n == from[u] && n !in visited
      requires cp !in from && cp !in copies && cp.pos == base + |copies| && Alike(cp, n)
      requires cp.out == [] && cp.indegree == 0
      modifies `copies, `visited, `order, `f, `h
      ensures Sizes() && Linked() && Found() && u !in old(f)
      ensures copies == old(copies) + [cp] && order == old(order) + [u] && f == old(f)[u := |old(h)|]
              && h == old(h) + [[]]
    {
      hide Numbers, InDegree, Alike, EdgesOf, Maps, WellFormed;
      MapsNewNode(from, copies, f, visited, u, cp);
      EdgesOfNewNode(copies, h, cp);
      NumbersExtend(order, f, u);
      visited := visited[n := cp];
      order, f := order + [u], f[u := |copies|];
      copies, h := copies + [cp], h + [[]];
    }

    /** An edge between two copies. */
    method AddEdge(cost: nat, cp: DagNode, cps: DagNode, ghost a: nat, ghost b: nat)
      requires Sizes() && Linked() && Found() && a < |copies| && b < |copies| && cp == copies[a] && cps == copies[b]
      modifies `h, cp`out, cps`indegree
      ensures Sizes() && Linked() && Found() && h == old(h)[a := old(h)[a] + [Edge(cost, b)]]
    {
      hide Numbers, InDegree, Alike, Maps;
      assert forall k :: 0 <= k < |copies| ==> (copies[k] == cp <==> k == a) && (copies[k] == cps <==> k == b);
      ghost var was := h;
      cp.AddOut(cost, cps);
      h := h[a := h[a] + [Edge(cost, b)]];
      forall k | 0 <= k < |copies|
        ensures EdgesAt(copies, h, k)
      {
        assert old(EdgesAt(copies, h, k));
        EdgeAdded(copies, was, cost, a, b, k, old(copies[k].out), old(copies[k].indegree));
      }
    }

    /** Have a copy of a node that an edge leads to; it waits if it is new. */
    method Meet(sink: DagNode, ghost v: nat, ghost u: nat, ghost i: nat, ghost s: nat) returns (cps: DagNode)
      requires Sizes() && Linked() && Found() && Traversal(s, u, i)
      requires v < |g| && v < |from| && sink == from[v] && Reachable(g, s, v)
      modifies `copies, `wq, `visited, `order, `f, `h, `wp
      ensures Sizes() && Linked() && Found() && Traversal(s, u, i) && v in f && f[v] < |copies| && cps == copies[f[v]]
      ensures u in old(f) && u in f && f[u] == old(f)[u] && done == old(done)
      ensures old(copies) <= copies && forall k :: |old(copies)| <= k < |copies| ==> fresh(copies[k])
    {
      hide Numbers, OutsOk, WaitsOk, WellFormed, InAll, Reachable, Linked, Found;
      InWork(g, s, f, done, u, wp, v);
      ghost var f0, h0, wp0 := f, h, wp;
      var isNew;
      cps, isNew := Ensure(sink, v);
      if isNew {
        wq, wp := wq + [sink], wp + [v];
        NewNode(g, f0, h0, done, u, i, v);
        Meets(g, s, f0, done, u, wp0, v, |h0|);
        assert OutsOk(g, f, h, done, u, i) && WaitsOk(g, s, f, done, u, wp);
        assert forall k :: 0 <= k < |wq| ==> wp[k] < |from| && wq[k] == from[wp[k]];
      }
      assert Traversal(s, u, i);
    }

    method CopyEdge(n: DagNode, cp: DagNode, i: nat, ghost u: nat, ghost s: nat)
      requires u < |g| && |from| == |g| && n == from[u] && i < |n.out| == |g[u]| && g[u][i].dst < |g|
      requires n.out[i] == (g[u][i].cost, from[g[u][i].dst])
      requires u in f && f[u] < |copies| && cp == copies[f[u]]
      requires Sizes() && Linked() && Found() && Traversal(s, u, i)
      modifies this, copies`out, copies`indegree
      ensures u in f && f[u] < |copies| && cp == copies[f[u]] && done == old(done)
      ensures Sizes() && Linked() && Found() && Traversal(s, u, i + 1)
      ensures old(copies) <= copies && forall k :: |old(copies)| <= k < |copies| ==> fresh(copies[k])
    {
      hide Numbers, OutsOk, WaitsOk, WellFormed, InAll, Reachable, Linked, Found, IsPath;
      var (cost, sink) := n.out[i];
      ghost var v := g[u][i].dst;
      ReachFrom(u, i, s);
      var cps := Meet(sink, v, u, i, s);
      Link(cost, cp, cps, i, u, v, s);
    }

    method Link(cost: nat, cp: DagNode, cps: DagNode, ghost i: nat, ghost u: nat, ghost v: nat, ghost s: nat)
      requires Sizes() && Linked() && Found() && Traversal(s, u, i)
      requires u < |g| && i < |g[u]| && g[u][i] == Edge(cost, v)
      requires u in f && v in f && f[u] < |copies| && f[v] < |copies| && cp == copies[f[u]] && cps == copies[f[v]]
      modifies `h, cp`out, cps`indegree
      ensures Sizes() && Linked() && Found() && Traversal(s, u, i + 1)
    {
      hide OutsOk, WaitsOk, WellFormed, InAll, Reachable, Linked, Found, Numbers;
      InWork(g, s, f, done, u, wp, v);
      NewEdge(g, order, f, h, done, u, i);
      AddEdge(cost, cp, cps, f[u], f[v]);
    }

    lemma ReachFrom(u: nat, i: nat, s: nat)
      requires WaitsOk(g, s, f, done, u, wp) && u in f && u < |g| && i < |g[u]|
      ensures Reachable(g, s, g[u][i].dst)
    {
      ReachNext(g, s, u, i);
    }

    /** Copy all edges of a node. */
    method CopyEdges(n: DagNode, cp: DagNode, ghost u: nat, ghost s: nat)
      requires Mirrors(from, false, g) && u < |from| && n == from[u]
      requires Sizes() && Linked() && Found() && Traversal(s, u, 0) && u in f && f[u] < |copies| && cp == copies[f[u]]
      modifies this, copies`out, copies`indegree
      ensures Sizes() && Linked() && Found() && u < |g| && Traversal(s, u, |g[u]|) && done == old(done)
      ensures old(copies) <= copies && forall k :: |old(copies)| <= k < |copies| ==> fresh(copies[k])
    {
      hide Numbers, OutsOk, WellFormed, Reachable, Linked, Found, WaitsOk, Mirrors;
      for i := 0 to |n.out|
        invariant Mirrors(from, false, g) && Sizes() && Linked() && Found() && Traversal(s, u, i)
        invariant u in f && f[u] < |copies| && cp == copies[f[u]] && done == old(done)
        invariant old(copies) <= copies && forall k :: |old(copies)| <= k < |copies| ==> fresh(copies[k])
      {
        EdgeOfNode(from, g, u, i);
        CopyEdge(n, cp, i, u, s);
      }
      SizeOfNode(from, g, u);
    }

    /** Take the next waiting node, and have a copy of it. */
    method Begin(ghost s: nat) returns (n: DagNode, cp: DagNode, ghost u: nat)
      requires Sizes() && Linked() && Found() && Traversal(s, -1, 0) && wq != []
      modifies this
      ensures Sizes() && Linked() && Found() && Traversal(s, u, 0) && done == old(done)
      ensures old(wp) != [] && u == old(wp)[0] < |g| && u !in done && n == from[u]
      ensures u in f && f[u] < |copies| && cp == copies[f[u]]
      ensures old(copies) <= copies && forall k :: |old(copies)| <= k < |copies| ==> fresh(copies[k])
    {
      hide Numbers, OutsOk, WellFormed, Reachable, Linked, Found, WaitsOk;
      n, u := wq[0], wp[0];
      ghost var f0, h0 := f, h;
      Starts(g, s, f, done, wp, |h|);
      HeadIsNew(g, s, f, done, wp);
      wq, wp := wq[1..], wp[1..];
      var isNew;
      cp, isNew := Ensure(n, u);
      if isNew {
        NewNode(g, f0, h0, done, -1, 0, u);
      }
      NodeStarts(g, f, h, done, u);
    }

    /** Take the next waiting node and copy its edges. */
    method Process(ghost s: nat)
      requires Sizes() && Linked() && Found() && Traversal(s, -1, 0) && Mirrors(from, false, g) && wq != []
      modifies this, copies`out, copies`indegree
      ensures Sizes() && Linked() && Found() && Traversal(s, -1, 0)
      ensures old(wp) != [] && old(wp)[0] < |g| && old(wp)[0] !in old(done) && done == old(done) + {old(wp)[0]}
      ensures old(copies) <= copies && forall k :: |old(copies)| <= k < |copies| ==> fresh(copies[k])
    {
      hide Numbers, OutsOk, WellFormed, Reachable, Linked, Found, WaitsOk, Mirrors;
      var n, cp;
      ghost var u;
      n, cp, u := Begin(s);
      CopyEdges(n, cp, u, s);
      NodeDone(g, f, h, done, u);
      Finishes(g, s, f, done, u, wp);
      done := done + {u};
    }
  }

  lemma EdgeOfNode(from: seq<DagNode>, g: Graph, u: nat, i: nat)
    requires Mirrors(from, false, g) && u < |from| && i < |from[u].out|
    ensures |g| == |from| && |g[u]| == |from[u].out| && g[u][i].dst < |g|
    ensures from[u].out[i] == (g[u][i].cost, from[g[u][i].dst])
  {
  }

  lemma SizeOfNode(from: seq<DagNode>, g: Graph, u: nat)
    requires Mirrors(from, false, g) && u < |from|
    ensures |g| == |from| && |g[u]| == |from[u].out|
  {
  }

  lemma HeadIsNew(g: Graph, s: nat, f: map<nat, nat>, done: set<nat>, wp: seq<nat>)
    requires WaitsOk(g, s, f, done, -1, wp) && wp != []
    ensures wp[0] < |g| && wp[0] !in done && forall u :: u in done ==> u in f
  {
  }

  /** A node goes to work with none of its edges copied. */
  lemma NodeStarts(g: Graph, f: map<nat, nat>, h: Graph, done: set<nat>, u: nat)
    requires OutsOk(g, f, h, done, -1, 0) && u < |g| && u !in done
    ensures OutsOk(g, f, h, done, u, 0)
  {
    forall x | x in f
      ensures Part(g, done, u, 0, x) == Part(g, done, -1, 0, x)
    {
    }
  }

  lemma CopiesAre(from: seq<DagNode>, copies: seq<DagNode>, order: seq<nat>, base: nat, h: Graph)
    requires Placed(from, copies, order, base) && EdgesOf(copies, h) && WellFormed(h)
    ensures forall k :: 0 <= k < |copies| ==>
              && copies[k].pos == base + k && order[k] < |from| && Alike(copies[k], from[order[k]])
              && |copies[k].out| == |h[k]| && copies[k].indegree == InDegree(h, k)
    ensures forall k, i :: 0 <= k < |h| && 0 <= i < |h[k]| ==>
              copies[k].out[i] == (h[k][i].cost, copies[h[k][i].dst])
  {
    hide Alike, InDegree;
    forall k | 0 <= k < |copies|
      ensures |copies[k].out| == |h[k]| && copies[k].indegree == InDegree(h, k)
      ensures forall i :: 0 <= i < |h[k]| ==> copies[k].out[i] == (h[k][i].cost, copies[h[k][i].dst])
    {
      assert EdgesAt(copies, h, k);
    }
  }

  /** Copy everything that can be reached from the source: each node once, with its block and
      access, each edge once, in order and with its cost. The new nodes are numbered from `base`
      on and count their incoming edges. */
  method Append(source: DagNode, base: nat, ghost from: seq<DagNode>, ghost g: Graph, ghost s: nat)
    returns (copies: seq<DagNode>, ghost order: seq<nat>, ghost f: map<nat, nat>, ghost h: Graph)
    requires Mirrors(from, false, g) && WellFormed(g) && s < |g| && source == from[s]
    ensures IsCopy(g, s, order, f, h) && |copies| == |h| && WellFormed(h)
    ensures forall k :: 0 <= k < |copies| ==>
              && fresh(copies[k]) && copies[k].pos == base + k && order[k] < |from| && Alike(copies[k], from[order[k]])
              && |copies[k].out| == |h[k]| && copies[k].indegree == InDegree(h, k)
    ensures forall k, i :: 0 <= k < |h| && 0 <= i < |h[k]| ==>
              copies[k].out[i] == (h[k][i].cost, copies[h[k][i].dst])
  {
    hide Numbers, OutsOk, InAll, Reachable, WaitsOk, Placed, EdgesOf, Maps, Alike, InDegree, IsCopy;
    var il := new Inliner(from, g, base, source, s);
    while il.wq != []
      invariant fresh(il) && il.from == from && il.g == g && il.base == base
      invariant il.Sizes() && il.Linked() && il.Found() && il.Traversal(s, -1, 0)
      invariant forall k :: 0 <= k < |il.copies| ==> fresh(il.copies[k])
      invariant Mirrors(from, false, g)
      decreases UpTo(|g|) - il.done
    {
      ghost var done0, u := il.done, il.wp[0];
      il.Process(s);
      OneLessLeft(|g|, done0, u);
    }
    AllCopied(g, s, il.order, il.f, il.h, il.done);
    CopiesAre(from, il.copies, il.order, base, il.h);
    copies, order, f, h := il.copies, il.order, il.f, il.h;
  }

  lemma NewNodeDegrees(h: Graph)
    requires WellFormed(h)
    ensures forall k :: 0 <= k < |h| ==> InDegree(h + [[]], k) == InDegree(h, k)
    ensures InDegree(h + [[]], |h|) == 0
  {
    NothingBeyond(h, |h|, |h|);
    forall k | 0 <= k <= |h|
      ensures InDegree(h + [[]], k) == InAll(h, k, |h|)
    {
      InAllNewNode(h, k, |h|);
      assert EdgesTo([], k) == 0;
    }
  }

  // ----- Paths and costs

  function MapPath(f: map<nat, nat>, p: seq<Step>): (q: seq<Step>)
    requires forall k :: 0 <= k < |p| ==> p[k].node in f
    ensures |q| == |p| && forall k :: 0 <= k < |p| ==> q[k] == Step(f[p[k].node], p[k].edge)
  {
    seq(|p|, k requires 0 <= k < |p| => Step(f[p[k].node], p[k].edge))
  }

  function Originals(order: seq<nat>, q: seq<Step>): (p: seq<Step>)
    requires forall k :: 0 <= k < |q| ==> q[k].node < |order|
    ensures |p| == |q| && forall k :: 0 <= k < |q| ==> p[k] == Step(order[q[k].node], q[k].edge)
  {
    seq(|q|, k requires 0 <= k < |q| => Step(order[q[k].node], q[k].edge))
  }

  /** Every path from the source is there in the copy, at the same cost. */
  lemma {:induction false} PathIsCopied(g: Graph, s: nat, order: seq<nat>, f: map<nat, nat>, h: Graph, p: seq<Step>,
                                        t: nat)
    requires IsCopy(g, s, order, f, h) && s < |g| && IsPath(g, s, p, t)
    ensures s in f && t in f && forall k :: 0 <= k < |p| ==> p[k].node in f
    ensures IsPath(h, f[s], MapPath(f, p), f[t]) && Cost(h, f[s], MapPath(f, p), f[t]) == Cost(g, s, p, t)
  {
    hide Renamed, WellFormed, Reachable;
    ReachableIsCopied(g, s, order, f, h, p, t);
    if p == [] {
      assert MapPath(f, p) == [];
    } else {
      var n, u := |p| - 1, p[|p| - 1].node;
      PathIsCopied(g, s, order, f, h, p[..n], u);
      var q := MapPath(f, p);
      assert q[..n] == MapPath(f, p[..n]);
      assert q[n] == Step(f[u], p[n].edge) && h[f[u]] == Renamed(g[u], f);
      PathEdges(g, s, p, t);
      PathEdges(h, f[s], q, f[t]);
    }
  }

  lemma ReachableIsCopied(g: Graph, s: nat, order: seq<nat>, f: map<nat, nat>, h: Graph, p: seq<Step>, t: nat)
    requires IsCopy(g, s, order, f, h) && s < |g| && IsPath(g, s, p, t)
    ensures s in f && t in f
  {
    assert IsPath(g, s, [], s) && Reachable(g, s, s) && Reachable(g, s, t);
    if p != [] {
      assert g[p[|p| - 1].node][p[|p| - 1].edge].dst == t;
    }
  }

  /** An edge of the copy, and the one it was copied from. */
  lemma OriginalEdge(g: Graph, s: nat, order: seq<nat>, f: map<nat, nat>, h: Graph, u: nat, i: nat)
    requires IsCopy(g, s, order, f, h) && u < |h| && i < |h[u]|
    ensures |h| == |order| && order[u] < |g| && i < |g[order[u]]| && h[u][i].dst < |order|
    ensures g[order[u]][i] == Edge(h[u][i].cost, order[h[u][i].dst])
  {
    hide WellFormed, Reachable;
    assert f[order[u]] == u && h[u] == Renamed(g[order[u]], f);
    var e := g[order[u]][i];
    assert h[u][i] == Edge(e.cost, f[e.dst]);
    assert order[f[e.dst]] == e.dst;
  }

  lemma SourceOfCopy(g: Graph, s: nat, order: seq<nat>, f: map<nat, nat>, h: Graph)
    requires IsCopy(g, s, order, f, h) && s in f
    ensures f[s] < |order| && order[f[s]] == s && |h| == |order|
  {
  }

  /** Every path in the copy from the copied source is the copy of a path, at the same cost. */
  lemma {:induction false} PathHasOriginal(g: Graph, s: nat, order: seq<nat>, f: map<nat, nat>, h: Graph,
                                           q: seq<Step>, k: nat)
    requires IsCopy(g, s, order, f, h) && s in f && k < |order| && IsPath(h, f[s], q, k)
    ensures forall i :: 0 <= i < |q| ==> q[i].node < |order|
    ensures IsPath(g, s, Originals(order, q), order[k])
    ensures Cost(g, s, Originals(order, q), order[k]) == Cost(h, f[s], q, k)
  {
    hide IsCopy;
    SourceOfCopy(g, s, order, f, h);
    if q == [] {
      assert Originals(order, q) == [];
    } else {
      var n := |q| - 1;
      var u := q[n].node;
      PathHasOriginal(g, s, order, f, h, q[..n], u);
      OriginalEdge(g, s, order, f, h, u, q[n].edge);
      var p := Originals(order, q);
      assert p[..n] == Originals(order, q[..n]) && p[n] == Step(order[u], q[n].edge);
    }
  }

  /** Inlining changes no worst case: a costliest path of the loop's graph stays one. */
  lemma LongestIsCopied(g: Graph, s: nat, order: seq<nat>, f: map<nat, nat>, h: Graph, p: seq<Step>, t: nat)
    requires IsCopy(g, s, order, f, h) && s < |g| && Longest(g, s, p, t)
    ensures s in f && t in f && forall k :: 0 <= k < |p| ==> p[k].node in f
    ensures Longest(h, f[s], MapPath(f, p), f[t]) && Cost(h, f[s], MapPath(f, p), f[t]) == Cost(g, s, p, t)
  {
    PathIsCopied(g, s, order, f, h, p, t);
    forall q | IsPath(h, f[s], q, f[t])
      ensures Cost(h, f[s], q, f[t]) <= Cost(h, f[s], MapPath(f, p), f[t])
    {
      PathHasOriginal(g, s, order, f, h, q, f[t]);
      assert order[f[t]] == t;
    }
  }
}
