/** The ticket lock that keeps DRAM and the two scratchpads from working at the same time.
Tickets are four bits wide and wrap around. */
module TicketLock {

  const SLOTS: nat := 2      // work-groups in a cluster
  const TICKETS: nat := 16

  datatype Unit = Dram | Sp0 | Sp1

  datatype Request = Request(wg: nat, target: Unit, ticket: nat)

  /** A unit fetches a request, waits for its ticket to come up, and works on it. */
  datatype State = Idle | Waiting(r: Request) | Running(r: Request)

  const UNITS := [Dram, Sp0, Sp1]

  function Index(u: Unit): (i: nat)
    ensures i < 3 && UNITS[i] == u
  {
    match u case Dram => 0 case Sp0 => 1 case Sp1 => 2
  }

  /** The requests of a list that are for unit u, in order. */
  function For(rs: seq<Request>, u: Unit): seq<Request> {
    if rs == [] then []
    else For(rs[..|rs| - 1], u) + if rs[|rs| - 1].target == u then [rs[|rs| - 1]] else []
  }

  lemma ForAppend(rs: seq<Request>, r: Request, u: Unit)
    ensures For(rs + [r], u) == For(rs, u) + if r.target == u then [r] else []
  {
    assert (rs + [r])[..|rs|] == rs;
  }

  lemma {:induction false} ForHead(rs: seq<Request>, u: Unit)
    requires rs != []
    ensures For(rs, u) == (if rs[0].target == u then [rs[0]] else []) + For(rs[1..], u)
  {
    if |rs| == 1 {
      assert rs[..0] == [] && rs[1..] == [];
    } else {
      var front, last := rs[..|rs| - 1], rs[|rs| - 1];
      assert front[0] == rs[0] && front[1..] + [last] == rs[1..];
      ForHead(front, u);
      assert rs == front + [last] && rs[1..] == front[1..] + [last];
      ForAppend(front, last, u);
      ForAppend(front[1..], last, u);
    }
  }

  lemma {:induction false} ForMembers(rs: seq<Request>, u: Unit)
    ensures forall r :: r in For(rs, u) <==> r in rs && r.target == u
  {
    if rs != [] {
      ForMembers(rs[..|rs| - 1], u);
    }
  }

  predicate From(rs: seq<Request>, w: nat) {
    exists k :: 0 <= k < |rs| && rs[k].wg == w
  }

  /** No two requests are from one slot. */
  predicate OneEach(rs: seq<Request>) {
    forall j, k :: 0 <= j < k < |rs| ==> rs[j].wg != rs[k].wg
  }

  lemma FromAppend(rs: seq<Request>, r: Request, w: nat)
    ensures From(rs + [r], w) <==> From(rs, w) || r.wg == w
    ensures OneEach(rs) && !From(rs, r.wg) ==> OneEach(rs + [r])
  {
    assert (rs + [r])[|rs|] == r;
    assert forall k :: 0 <= k < |rs| ==> (rs + [r])[k] == rs[k];
  }

  lemma FromHead(rs: seq<Request>, w: nat)
    requires rs != [] && OneEach(rs)
    ensures From(rs[1..], w) <==> From(rs, w) && rs[0].wg != w
    ensures From(rs, rs[0].wg) && OneEach(rs[1..])
  {
    assert forall k :: 0 < k < |rs| ==> rs[1..][k - 1] == rs[k];
  }

  /** Of three requests from two slots, two share a slot. */
  lemma TwoShare(rs: seq<Request>)
    requires |rs| > 2 && forall k :: 0 <= k < |rs| ==> rs[k].wg < SLOTS
    ensures !OneEach(rs)
  {
    if rs[0].wg != rs[1].wg {
      assert rs[2].wg == rs[0].wg || rs[2].wg == rs[1].wg;
    }
  }

  /** What unit i has in hand and in its queue. */
  function Held(state: seq<State>, fifo: seq<seq<Request>>, i: nat): seq<Request>
    requires |state| == |fifo| == 3 && i < 3
  {
    (if state[i].Idle? then [] else [state[i].r]) + fifo[i]
  }

  /** The units together hold the outstanding requests, each its own and in order; a unit at work
      works on the oldest. */
  ghost predicate Queued(state: seq<State>, fifo: seq<seq<Request>>, outstanding: seq<Request>)
    requires |state| == |fifo| == 3
  {
    && (forall u :: Held(state, fifo, Index(u)) == For(outstanding, u))
    && forall i :: 0 <= i < 3 && state[i].Running? ==> outstanding != [] && state[i].r == outstanding[0]
  }

  lemma QueuedAfter(state: seq<State>, fifo: seq<seq<Request>>, outstanding: seq<Request>, r: Request)
    requires |state| == |fifo| == 3 && Queued(state, fifo, outstanding)
    ensures var i := Index(r.target); Queued(state, fifo[i := fifo[i] + [r]], outstanding + [r])
  {
    hide For;
    var i := Index(r.target);
    forall u: Unit
      ensures Held(state, fifo[i := fifo[i] + [r]], Index(u)) == For(outstanding + [r], u)
    {
      ForAppend(outstanding, r, u);
      assert Held(state, fifo, Index(u)) == For(outstanding, u);
      var hand := if state[i].Idle? then [] else [state[i].r];
      assert hand + (fifo[i] + [r]) == (hand + fifo[i]) + [r];
      assert Index(u) == i <==> u == r.target;
    }
  }

  lemma DoneQueues(state: seq<State>, fifo: seq<seq<Request>>, outstanding: seq<Request>, u: Unit)
    requires |state| == |fifo| == 3 && Queued(state, fifo, outstanding) && state[Index(u)].Running?
    requires forall j :: 0 <= j < 3 && j != Index(u) ==> !state[j].Running?
    ensures outstanding != [] && outstanding[0].target == u && Queued(state[Index(u) := Idle], fifo, outstanding[1..])
  {
    hide For;
    var i := Index(u);
    var r := state[i].r;
    ForMembers(outstanding, u);
    assert Held(state, fifo, i) == For(outstanding, u);
    assert Held(state, fifo, i)[0] == r && r in Held(state, fifo, i);
    forall v: Unit
      ensures Held(state[i := Idle], fifo, Index(v)) == For(outstanding[1..], v)
    {
      ForHead(outstanding, v);
      assert Held(state, fifo, Index(v)) == For(outstanding, v);
      var rest := For(outstanding[1..], v);
      if v == u {
        assert ([r] + fifo[i])[1..] == fifo[i] && ([r] + rest)[1..] == rest;
      } else {
        assert Index(v) != i && [] + rest == rest;
      }
    }
  }

  lemma NextTicket(n: nat)
    ensures (n % TICKETS + 1) % TICKETS == (n + 1) % TICKETS
  {
  }

  datatype Event =
    | Execute(wg: nat, target: Unit)  // a load or store enters the execute pipeline
    | Commit                          // the oldest request in it is committed
    | Flush                           // the pipeline is flushed for another reason
    | Fetch(unit: Unit)
    | Start(unit: Unit)
    | Done(unit: Unit)

  class Cluster {
    var ticketPush: nat
    var ticketPop: nat
    var pipe: seq<Request>          // executed, not committed
    var blocked: seq<bool>          // work-groups waiting for their request
    var fifo: seq<seq<Request>>     // committed, per unit
    var state: seq<State>
    var issued: seq<Request>        // everything committed so far
    var served: seq<Request>        // everything completed so far

    ghost predicate Sizes()
      reads this
    {
      |blocked| == SLOTS && |fifo| == |state| == 3 && |served| <= |issued|
    }

    /** Requests committed and not completed, oldest first. */
    ghost function Outstanding(): seq<Request>
      reads this
      requires Sizes()
    {
      issued[|served|..]
    }

    /** Requests are numbered as they were committed, modulo the ticket width. */
    ghost predicate Numbered()
      reads this
      requires Sizes()
    {
      && served == issued[..|served|]
      && ticketPop == |served| % TICKETS && ticketPush == |issued| % TICKETS
      && (forall k :: 0 <= k < |issued| ==> issued[k].ticket == k % TICKETS && issued[k].wg < SLOTS)
    }

    /** A slot is blocked while, and only while, its one request is outstanding. */
    ghost predicate Blocking()
      reads this
      requires Sizes()
    {
      && OneEach(Outstanding())
      && (forall w :: 0 <= w < SLOTS ==> (blocked[w] <==> From(Outstanding(), w)))
      && (forall r :: r in pipe ==> r.wg < SLOTS && !blocked[r.wg] && r.ticket == ticketPush)
    }

    ghost predicate Valid()
      reads this
    {
      Sizes() && Numbered() && Blocking() && Queued(state, fifo, Outstanding())
    }

    constructor ()
      ensures Valid() && issued == [] && served == []
    {
      ticketPush, ticketPop, pipe, blocked := 0, 0, [], [false, false];
      fifo, state := [[], [], []], [Idle, Idle, Idle];
      issued, served := [], [];
    }

    /** One request a slot: never more outstanding than slots, hence no two equal tickets. */
    lemma FewOutstanding()
      requires Valid()
      ensures |Outstanding()| <= SLOTS
      ensures forall j, k :: 0 <= j < k < |Outstanding()| ==> Outstanding()[j].ticket != Outstanding()[k].ticket
    {
      if |Outstanding()| > 2 {
        TwoShare(Outstanding());
      }
    }

    /** Exclusion: no two units work at the same time, and the one that does works on the oldest
        request. */
    lemma AtMostOneRuns()
      requires Valid()
      ensures forall i, j :: 0 <= i < j < 3 ==> !(state[i].Running? && state[j].Running?)
    {
      forall i | 0 <= i < 3 && state[i].Running?
        ensures state[i].r.target == UNITS[i]
      {
        ForMembers(Outstanding(), UNITS[i]);
        assert Index(UNITS[i]) == i;
        assert Held(state, fifo, i)[0] == state[i].r && state[i].r in Held(state, fifo, i);
      }
    }

    /** No deadlock: the unit of the oldest request is working on it, or holds it with the ticket
        up, or has it at the head of its queue and is free. */
    lemma HolderIsHead()
      requires Valid() && Outstanding() != []
      ensures var r := Outstanding()[0]; var i := Index(r.target);
              && r.ticket == ticketPop
              && (state[i] == Running(r) || state[i] == Waiting(r)
                  || (state[i] == Idle && fifo[i] != [] && fifo[i][0] == r))
    {
      var r := Outstanding()[0];
      ForHead(Outstanding(), r.target);
      assert Held(state, fifo, Index(r.target))[0] == r;
    }

    /** A load or store is executed: its ticket is the number of commits so far. */
    method Execute(wg: nat, target: Unit)
      requires Valid() && wg < SLOTS
      modifies `pipe
      ensures Valid() && pipe == if old(blocked)[wg] then old(pipe) else old(pipe) + [Request(wg, target, ticketPush)]
    {
      if !blocked[wg] {
        pipe := pipe + [Request(wg, target, ticketPush)];
      }
    }

    /** The oldest request is committed. It blocks its work-group, and everything younger in the
        pipeline is flushed, so that no ticket is used twice. */
    method Commit()
      requires Valid()
      modifies this
      ensures Valid() && served == old(served)
      ensures issued == if old(pipe) == [] then old(issued) else old(issued) + [old(pipe)[0]]
      ensures pipe == [] && state == old(state)
    {
      hide For, From, OneEach, Queued;
      if pipe != [] {
        var r := pipe[0];
        var i := Index(r.target);
        FewOutstanding();
        ghost var rest := Outstanding();
        QueuedAfter(state, fifo, rest, r);
        forall w: nat
          ensures From(rest + [r], w) <==> From(rest, w) || r.wg == w
        {
          FromAppend(rest, r, w);
        }
        FromAppend(rest, r, r.wg);
        NextTicket(|issued|);
        fifo := fifo[i := fifo[i] + [r]];
        ticketPush := (ticketPush + 1) % TICKETS;
        blocked := blocked[r.wg := true];
        issued := issued + [r];
        pipe := [];
        assert Outstanding() == rest + [r];
        assert Numbered();
        assert forall w :: 0 <= w < SLOTS ==> (blocked[w] <==> From(Outstanding(), w));
        assert Blocking();
      }
    }

    method Flush()
      requires Valid()
      modifies `pipe
      ensures Valid() && pipe == []
    {
      pipe := [];
    }

    /** A free unit takes the oldest request of its queue in hand. */
    method Fetch(u: Unit)
      requires Valid()
      modifies `fifo, `state
      ensures Valid()
      ensures var i := Index(u);
              if old(state)[i].Idle? && old(fifo)[i] != [] then
                state == old(state)[i := Waiting(old(fifo)[i][0])] && fifo == old(fifo)[i := old(fifo)[i][1..]]
              else state == old(state) && fifo == old(fifo)
    {
      var i := Index(u);
      if state[i].Idle? && fifo[i] != [] {
        assert fifo[i] == [fifo[i][0]] + fifo[i][1..];
        state := state[i := Waiting(fifo[i][0])];
        fifo := fifo[i := fifo[i][1..]];
      }
    }

    /** Only the holder of the ticket that is up may start. */
    method Start(u: Unit) returns (started: bool)
      requires Valid()
      modifies `state
      ensures Valid()
      ensures old(Outstanding()) != [] && old(state)[Index(u)] == Waiting(old(Outstanding())[0]) ==> started
      ensures started ==> old(Outstanding()) != [] && old(state)[Index(u)] == Waiting(old(Outstanding())[0])
      ensures state == if started then old(state)[Index(u) := Running(old(Outstanding())[0])] else old(state)
    {
      var i := Index(u);
      started := false;
      if state[i].Waiting? && ticketPop == state[i].r.ticket {
        HolderIsOldest(i);
        state := state[i := Running(state[i].r)];
        started := true;
      }
    }

    lemma HolderIsOldest(i: nat)
      requires Valid() && i < 3 && state[i].Waiting? && ticketPop == state[i].r.ticket
      ensures Outstanding() != [] && state[i].r == Outstanding()[0]
    {
      FewOutstanding();
      ForMembers(Outstanding(), UNITS[i]);
      assert Index(UNITS[i]) == i;
      assert Held(state, fifo, i)[0] == state[i].r && state[i].r in Held(state, fifo, i);
      var k :| 0 <= k < |Outstanding()| && Outstanding()[k] == state[i].r;
      assert Outstanding()[k] == issued[|served| + k];
    }

    /** The unit completes: the work-group goes on and the next ticket comes up. */
    method Done(u: Unit)
      requires Valid()
      modifies this
      ensures Valid() && issued == old(issued) && pipe == old(pipe) && fifo == old(fifo)
      ensures if old(state)[Index(u)].Running? then
                && |old(served)| < |issued| && served == old(served) + [issued[|old(served)|]]
                && state == old(state)[Index(u) := Idle]
              else served == old(served) && state == old(state)
    {
      hide For, From, OneEach;
      var i := Index(u);
      if state[i].Running? {
        var r := state[i].r;
        AtMostOneRuns();
        ghost var all := Outstanding();
        DoneQueues(state, fifo, all, u);
        forall w: nat
          ensures From(all[1..], w) <==> From(all, w) && r.wg != w
        {
          FromHead(all, w);
        }
        FromHead(all, r.wg);
        state := state[i := Idle];
        blocked := blocked[r.wg := false];
        NextTicket(|served|);
        ticketPop := (ticketPop + 1) % TICKETS;
        served := served + [r];
        assert Outstanding() == all[1..];
        assert Numbered();
        assert forall p :: p in pipe ==> p.wg != r.wg;
        assert forall w :: 0 <= w < SLOTS ==> (blocked[w] <==> From(Outstanding(), w));
        assert Blocking();
        assert Valid();
      }
    }

    /** The unit of the oldest request can always be brought to complete it. */
    method ServeOldest()
      requires Valid() && |served| < |issued|
      modifies this
      ensures Valid() && issued == old(issued)
      ensures served == old(served) + [issued[|old(served)|]]
    {
      var u := issued[|served|].target;
      HolderIsHead();
      Fetch(u);
      var _ := Start(u);
      Done(u);
    }
  }

  function Runners(state: seq<State>): nat
    requires |state| == 3
  {
    (if state[0].Running? then 1 else 0) + (if state[1].Running? then 1 else 0) + if state[2].Running? then 1 else 0
  }

  /** Any run: requests complete in the order in which they were committed, and no two units
      ever worked at the same time. Wherever the run stops, the units can complete what is left. */
  method Run(events: seq<Event>)
      returns (issued: seq<Request>, served: seq<Request>, mostRunning: nat, atTheEnd: seq<Request>)
    requires forall e :: e in events && e.Execute? ==> e.wg < SLOTS
    ensures served <= issued && |issued| - |served| <= SLOTS
    ensures mostRunning <= 1
    ensures atTheEnd == issued
  {
    var c := new Cluster();
    mostRunning := 0;
    for k := 0 to |events|
      invariant c.Valid() && fresh(c) && mostRunning <= 1
    {
      match events[k] {
        case Execute(wg, target) => c.Execute(wg, target);
        case Commit => c.Commit();
        case Flush => c.Flush();
        case Fetch(u) => c.Fetch(u);
        case Start(u) => var _ := c.Start(u);
        case Done(u) => c.Done(u);
      }
      c.AtMostOneRuns();
      if Runners(c.state) > mostRunning {
        mostRunning := Runners(c.state);
      }
    }
    c.FewOutstanding();
    issued, served := c.issued, c.served;
    while |c.served| < |c.issued|
      invariant c.Valid() && fresh(c) && c.issued == issued
      decreases |c.issued| - |c.served|
    {
      c.ServeOldest();
    }
    atTheEnd := c.served;
  }
}
