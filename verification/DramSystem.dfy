/** The DRAM command path as a whole: any stream of requests, any interleaving, any timing. */
module DramSystem {
  import opened Arith
  import opened DramBanks
  import opened CommandGeneration
  import opened CommandArbitration
  import opened RowPolicies

  /** Requests as the sequencer emits them: a linear request is followed by the one it
      announces, an indexed sequence keeps its policy, and only the last one announces none. */
  ghost predicate Chained(rs: seq<Request>) {
    && (forall i :: 0 <= i < |rs| ==> ValidRequest(rs[i]))
    && (forall i :: 0 <= i < |rs| ==> (rs[i].last <==> rs[i].addrNext == NO_NEXT))
    && (forall i, j :: 0 <= i && j == i + 1 && j < |rs| && !rs[i].last ==>
          && rs[j].policy == rs[i].policy
          && (rs[i].policy == Linear ==> rs[j].addr == rs[i].addrNext))
  }

  /** A linear stride ends in the bank pair and row that "no next request" looks like. */
  predicate EndsOnTop(r: Request) {
    r.last && r.policy == Linear && KeyOf(r.addr) == KeyOf(NO_NEXT)
  }

  /** No linear stride does. */
  ghost predicate EndsBelowTop(rs: seq<Request>) {
    forall i :: 0 <= i < |rs| ==> !EndsOnTop(rs[i])
  }

  /** The generator can accept request i after those before it. */
  ghost predicate ReadyFor(gen: CmdGen, rs: seq<Request>, i: nat)
    reads gen.activeRow
    requires gen.activeRow.Length == BANKS && i <= |rs|
  {
    if i == 0 || rs[i - 1].last then gen.AllClosed()
    else rs[i - 1].policy == Linear ==>
           (if KeyOf(rs[i - 1].addrNext) == KeyOf(rs[i - 1].addr) then gen.OnlyOpen(rs[i - 1].addr)
            else gen.AllClosed())
  }

  /** What a request leaves open is what the next one needs. */
  lemma NextIsReady(gen: CmdGen, r: Request, rowsWas: seq<nat>)
    requires gen.activeRow.Length == |rowsWas| == BANKS && ValidRequest(r)
    requires forall b :: 0 <= b < BANKS ==> gen.activeRow[b] == RowAfter(r, b, rowsWas[b])
    requires r.policy == Linear ==> forall b :: 0 <= b < BANKS && rowsWas[b] != INACTIVE ==>
                                      b / 2 == BankOf(r.addr) / 2 && rowsWas[b] == RowOf(r.addr)
    ensures r.policy == Linear ==>
              if KeyOf(r.addrNext) == KeyOf(r.addr) then
                gen.OnlyOpen(r.addr) && gen.activeRow[..] == rowsWas[BankOf(r.addr) := RowOf(r.addr)]
              else gen.AllClosed()
    ensures r.policy == Alap && r.addrNext == NO_NEXT ==> gen.AllClosed()
  {
    hide BankOf, RowOf, KeyOf;
    if r.policy == Linear {
      gen.AfterLinear(r, rowsWas);
    }
  }

  lemma ChainedParts(rs: seq<Request>, i: nat)
    requires Chained(rs) && i < |rs|
    ensures ValidRequest(rs[i])
  {
  }

  lemma AcceptedIsTidy(gen: CmdGen, rs: seq<Request>, i: nat, rowsWas: seq<nat>)
    requires gen.activeRow.Length == |rowsWas| == BANKS && Chained(rs) && i < |rs|
    requires forall b :: 0 <= b < BANKS ==> gen.activeRow[b] == RowAfter(rs[i], b, rowsWas[b])
    requires rs[i].policy == Linear ==> forall b :: 0 <= b < BANKS && rowsWas[b] != INACTIVE ==>
                                          b / 2 == BankOf(rs[i].addr) / 2 && rowsWas[b] == RowOf(rs[i].addr)
    ensures EndsOnTop(rs[i]) ==> rs[i].last && gen.activeRow[BankOf(rs[i].addr)] == RowOf(rs[i].addr)
    ensures !EndsOnTop(rs[i]) ==> ReadyFor(gen, rs, i + 1) && (rs[i].last ==> gen.AllClosed())
  {
    hide BankOf, RowOf, KeyOf, RowAfter;
    NextIsReady(gen, rs[i], rowsWas);
  }

  lemma ReadyIsOnlyOpen(gen: CmdGen, rs: seq<Request>, i: nat)
    requires gen.activeRow.Length == BANKS && i < |rs| && Chained(rs) && ReadyFor(gen, rs, i)
    ensures rs[i].policy == Linear ==> gen.OnlyOpen(rs[i].addr)
  {
    if i > 0 && !rs[i - 1].last && rs[i].policy == Linear {
      assert rs[i].addr == rs[i - 1].addrNext;
      KeyDecides(rs[i].addr, rs[i - 1].addr);
    }
  }

  /** Column accesses the first n requests make on bank b. */
  function Wanted(rs: seq<Request>, n: nat, b: nat): seq<Column>
    requires n <= |rs|
  {
    if n == 0 then []
    else
      var r := rs[n - 1];
      Wanted(rs, n - 1, b)
      + if b == BankOf(r.addr) then [Column(RowOf(r.addr), ColOf(r.addr), r.write)] else []
  }

  /** At most one event is added, and it is what the arbiter prefers of these queues; they hold what is
      still to come of the requests. */
  ghost predicate ChosenFrom(rs: seq<Request>, was: seq<Event>, now: seq<Event>, queues: seq<seq<Cmd>>, check: Timing) {
    && |queues| == BANKS && was <= now && |now| <= |was| + 1
    && (|now| > |was| ==> Preferred(now[|was|], queues, LastPair(was), check))
    && forall b :: 0 <= b < BANKS ==> Columns(Project(was, b) + AllOps(queues[b])) <= Wanted(rs, |rs|, b)
  }

  /** One DRAM clock: whether a request is accepted, on which side of the arbiter, what the
      timing rules allow, and the queue lengths the arbiter's heuristic looks at. */
  datatype Tick = Tick(accept: bool, genFirst: bool, check: Timing, dist: seq<int>)

  /** The queues the arbiter looked at for an event, and the clock. */
  datatype Seen = Seen(queues: seq<seq<Cmd>>, tick: nat)

  ghost predicate PreferredAt(rs: seq<Request>, ticks: seq<Tick>, n: nat, before: seq<Event>, e: Event, seen: Seen) {
    && seen.tick < n <= |ticks| && |seen.queues| == BANKS
    && Preferred(e, seen.queues, LastPair(before), ticks[seen.tick].check)
    && forall b :: 0 <= b < BANKS ==> Columns(Project(before, b) + AllOps(seen.queues[b])) <= Wanted(rs, |rs|, b)
  }

  /** Every event of a stream is what the arbiter prefers of the queues at that point, at most one a
      clock; what is issued and queued for a bank never goes beyond its requests. */
  ghost predicate AllPreferred(rs: seq<Request>, ticks: seq<Tick>, n: nat, trace: seq<Event>, seen: seq<Seen>) {
    && |seen| == |trace|
    && (forall k :: 0 <= k < |trace| ==> PreferredAt(rs, ticks, n, trace[..k], trace[k], seen[k]))
    && (forall j, k :: 0 <= j && k == j + 1 && k < |trace| ==> seen[j].tick < seen[k].tick)
  }

  lemma NothingSeen(rs: seq<Request>, ticks: seq<Tick>)
    ensures AllPreferred(rs, ticks, 0, [], [])
  {
  }

  lemma PreferredLater(rs: seq<Request>, ticks: seq<Tick>, n: nat, before: seq<Event>, e: Event, seen: Seen)
    requires PreferredAt(rs, ticks, n, before, e, seen) && n < |ticks|
    ensures PreferredAt(rs, ticks, n + 1, before, e, seen)
  {
  }

  lemma OneMoreSeen(rs: seq<Request>, ticks: seq<Tick>, n: nat, was: seq<Event>, now: seq<Event>, seen: seq<Seen>,
                    queues: seq<seq<Cmd>>) returns (more: seq<Seen>)
    requires n < |ticks| && AllPreferred(rs, ticks, n, was, seen)
    requires ChosenFrom(rs, was, now, queues, ticks[n].check)
    ensures AllPreferred(rs, ticks, n + 1, now, more)
  {
    hide Preferred, LastPair, Columns, Project, AllOps, Wanted;
    more := if |now| > |was| then seen + [Seen(queues, n)] else seen;
    if |now| > |was| {
      assert PreferredAt(rs, ticks, n + 1, was, now[|was|], Seen(queues, n));
    }
    assert now[..|was|] == was;
    hide PreferredAt;
    forall k | 0 <= k < |now|
      ensures PreferredAt(rs, ticks, n + 1, now[..k], now[k], more[k])
    {
      assert now[..k] == was[..k];
      if k < |was| {
        PreferredLater(rs, ticks, n, was[..k], was[k], seen[k]);
      } else {
        assert was[..k] == was;
      }
    }
    if was != [] {
      TicksBelow(rs, ticks, n, was, seen);
    }
  }

  lemma TicksBelow(rs: seq<Request>, ticks: seq<Tick>, n: nat, trace: seq<Event>, seen: seq<Seen>)
    requires AllPreferred(rs, ticks, n, trace, seen) && trace != []
    ensures seen[|seen| - 1].tick < n
  {
    var k := |trace| - 1;
    assert PreferredAt(rs, ticks, n, trace[..k], trace[k], seen[k]);
  }

  class System {
    const gen: CmdGen
    const arb: CmdArb
    var busySeen: bool  // registered busy signal
    var accepted: nat

    ghost predicate Wired() {
      && gen.activeRow.Length == gen.fifo.Length == BANKS
      && arb.Wired() && arb.fifo == gen.fifo
    }

    ghost predicate Sound(rs: seq<Request>)
      reads `accepted, gen, gen.activeRow, gen.fifo, arb, arb.cmd, arb.valid
      requires Wired()
    {
      && gen.Valid() && gen.AllLegal()
      && arb.refiCount < arb.refi && arb.Conserves(gen.pushed) && arb.AllFinish() && arb.Follows()
      && accepted <= |rs| && (gen.busy <==> accepted > 0 && !rs[accepted - 1].last)
      && forall b :: 0 <= b < BANKS ==> Columns(gen.pushed[b]) == Wanted(rs, accepted, b)
    }

    /** No bank is open that the next request could not find open. */
    ghost predicate Tidy(rs: seq<Request>)
      reads `accepted, gen, gen.activeRow
      requires Wired() && accepted <= |rs|
    {
      ReadyFor(gen, rs, accepted) && (!gen.busy ==> gen.AllClosed())
    }

    ghost predicate Valid(rs: seq<Request>)
      reads this, gen, gen.activeRow, gen.fifo, arb, arb.cmd, arb.valid
    {
      Wired() && Sound(rs) && LegalTrace(arb.trace) && Tidy(rs) && busySeen == gen.busy
    }

    constructor (refi: nat)
      requires refi > 0
      ensures Valid([]) && accepted == 0
      ensures forall rs :: Valid(rs)
      ensures arb.trace == [] && arb.RefreshClocks() == 0 && arb.refi == refi
      ensures fresh(gen) && fresh(gen.activeRow) && fresh(gen.fifo) && fresh(arb) && fresh(arb.cmd) && fresh(arb.valid)
    {
      var g := new CmdGen();
      var a := new CmdArb(g.fifo, refi);
      gen, arb := g, a;
      busySeen, accepted := false, 0;
    }

    /** The banks a stride that ends in the top pair and row leaves open: that of its end. */
    ghost predicate LeftOpen(r: Request)
      reads gen, gen.activeRow
      requires Wired()
    {
      !gen.busy && gen.activeRow[BankOf(r.addr)] == RowOf(r.addr)
    }

    /** Translate a request: every bank's queue keeps step with its history. */
    method Push(rs: seq<Request>, r: Request)
      requires Wired() && accepted < |rs| && r == rs[accepted] && ValidRequest(r)
      requires gen.Valid() && arb.Conserves(gen.pushed) && arb.AllFinish()
      requires forall b :: 0 <= b < BANKS ==> Columns(gen.pushed[b]) == Wanted(rs, accepted, b)
      modifies gen, gen.activeRow, gen.fifo
      ensures gen.Valid() && arb.Conserves(gen.pushed) && arb.AllFinish() && !arb.Drained() && gen.busy == !r.last
      ensures gen.AllLegal() <==> old(gen.AllLegal() && gen.Fits(r))
      ensures forall b :: 0 <= b < BANKS ==> Columns(gen.pushed[b]) == Wanted(rs, accepted + 1, b)
      ensures forall b :: 0 <= b < BANKS ==> gen.activeRow[b] == RowAfter(r, b, old(gen.activeRow[b]))
    {
      hide Ops, AllOps, Columns, Activations, BankOf, KeyOf, RowOf, ColOf, Project, Grows, Adds, Finishes, RowAfter;
      gen.Accept(r);
      forall b | 0 <= b < BANKS
        ensures arb.ConservesBank(gen.pushed[b], b) && Columns(gen.pushed[b]) == Wanted(rs, accepted + 1, b)
        ensures b == BankOf(r.addr) ==> gen.fifo[b] != []
        ensures forall c :: c in arb.Queue(b) ==> Finishes(c)
      {
        assert old(arb.ConservesBank(gen.pushed[b], b));
        BankGrows(r, b, Project(arb.trace, b), arb.Pending(b), old(gen.fifo[b]), gen.fifo[b],
                  old(gen.pushed)[b], gen.pushed[b], old(gen.activeRow[b]));
        assert old(arb.Queue(b)) == (if arb.valid[b] then [arb.cmd[b]] else []) + old(gen.fifo[b]);
        AllStillFinish(if arb.valid[b] then [arb.cmd[b]] else [], old(gen.fifo[b]), gen.fifo[b]);
      }
      assert arb.fifo[BankOf(r.addr)] != [];
    }

    method Accept(rs: seq<Request>)
      requires Wired() && Sound(rs) && Chained(rs) && accepted < |rs| && ReadyFor(gen, rs, accepted)
      modifies `accepted, gen, gen.activeRow, gen.fifo
      ensures Sound(rs) && accepted == old(accepted) + 1 && !arb.Drained()
      ensures if EndsOnTop(rs[old(accepted)]) then LeftOpen(rs[old(accepted)]) else Tidy(rs)
    {
      hide Columns, BankOf, KeyOf, RowOf, Project, Finishes, RowAfter, ReadyFor, Chained, EndsOnTop, Wanted,
           CmdArb.Conserves, CmdArb.AllFinish, CmdArb.Drained, CmdArb.Follows, CmdGen.AllClosed, CmdGen.BankOk;
      ghost var rowsWas := gen.activeRow[..];
      ReadyIsOnlyOpen(gen, rs, accepted);
      ChainedParts(rs, accepted);
      Push(rs, rs[accepted]);
      AcceptedIsTidy(gen, rs, accepted, rowsWas);
      accepted := accepted + 1;
    }

    lemma IdleIsClosed()
      requires Wired() && gen.Valid() && arb.Conserves(gen.pushed) && arb.Drained() && gen.AllClosed()
      ensures AllClosed(arb.trace)
    {
      hide After, Project, AllClosed;
      arb.AllIssued(gen.pushed);
      gen.ClosedBanks();
    }

    /** What is issued and queued is what the requests want. */
    lemma QueuedIsWanted(rs: seq<Request>)
      requires Wired() && Sound(rs)
      ensures forall b :: 0 <= b < BANKS ==>
                Columns(Project(arb.trace, b) + AllOps(arb.Queues()[b])) <= Wanted(rs, |rs|, b)
    {
      hide Columns, Project, AllOps, Wanted, Finishes;
      arb.QueuesConserve(gen.pushed);
      forall b | 0 <= b < BANKS
        ensures Columns(Project(arb.trace, b) + AllOps(arb.Queues()[b])) <= Wanted(rs, |rs|, b)
      {
        WantedPrefix(rs, accepted, |rs|, b);
      }
    }

    method Arbitrate(rs: seq<Request>, t: Tick) returns (ghost queues: seq<seq<Cmd>>)
      requires Wired() && Sound(rs) && LegalTrace(arb.trace) && |t.dist| == BANKS
      modifies arb, arb.cmd, arb.valid, gen.fifo
      ensures Sound(rs) && arb.RefreshClocks() == old(arb.RefreshClocks()) + 1 && old(arb.trace) <= arb.trace
      ensures !t.check(REF, 0) || busySeen || gen.AllClosed() || old(!arb.Drained()) ==> LegalTrace(arb.trace)
      ensures !busySeen && old(arb.Drained()) && t.check(REF, 0) && old(arb.refEnq) > 0 ==>
                arb.trace == old(arb.trace) + [Refresh]
      ensures arb.trace == old(arb.trace) + [Refresh] ==>
                t.check(REF, 0) && (LegalTrace(arb.trace) <==> AllClosed(old(arb.trace)))
      ensures !t.check(REF, 0) ==>
                && arb.refEnq >= old(arb.refEnq)
                && (arb.refEnq > 0 || arb.refiCount == old(arb.refiCount) + 1)
      ensures Anybody(old(arb.Queues()), t.check) ==>
                BankEvents(arb.trace) == old(BankEvents(arb.trace)) + 1
      ensures queues == old(arb.Queues()) && ChosenFrom(rs, old(arb.trace), arb.trace, queues, t.check)
    {
      hide Columns, LegalTrace, Project, Legal, After, Finishes, BankEvents, AllClosed, Preferred, LastPair, AllOps,
           Wanted, Anybody, CmdArb.Conserves, CmdArb.AllFinish, CmdArb.Queues, CmdArb.Drained, CmdGen.AllClosed,
           CmdArb.Follows, CmdArb.RefreshClocks;
      queues := arb.Queues();
      QueuedIsWanted(rs);
      if arb.Drained() && gen.AllClosed() {
        IdleIsClosed();
      }
      arb.Clock(busySeen, t.check, t.dist, gen.pushed);
    }

    /** One clock. The arbiter sees the busy signal of the clock before. Banks that a stride leaves
        open make a refresh illegal, and nothing else. */
    method Clock(rs: seq<Request>, t: Tick) returns (ghost queues: seq<seq<Cmd>>)
      requires Wired() && Sound(rs) && LegalTrace(arb.trace) && busySeen == gen.busy && Chained(rs) && |t.dist| == BANKS
      requires t.accept && accepted < |rs| ==> Tidy(rs)
      modifies this, gen, gen.activeRow, gen.fifo, arb, arb.cmd, arb.valid
      ensures Sound(rs) && busySeen == gen.busy
      ensures arb.RefreshClocks() == old(arb.RefreshClocks()) + 1 && old(arb.trace) <= arb.trace
      ensures accepted == old(accepted) + if t.accept && old(accepted) < |rs| then 1 else 0
      ensures accepted > old(accepted) && EndsOnTop(rs[old(accepted)]) ==> LeftOpen(rs[old(accepted)])
      ensures old(Tidy(rs)) && !(accepted > old(accepted) && EndsOnTop(rs[old(accepted)])) ==> Tidy(rs)
      ensures accepted == old(accepted) ==> gen.pushed == old(gen.pushed) && gen.activeRow[..] == old(gen.activeRow[..])
      ensures old(Tidy(rs)) || !t.check(REF, 0) ==> LegalTrace(arb.trace)
      ensures !t.accept && !old(busySeen) && old(arb.Drained()) && t.check(REF, 0) && old(arb.refEnq) > 0 ==>
                arb.trace == old(arb.trace) + [Refresh]
      ensures arb.trace == old(arb.trace) + [Refresh] ==>
                t.check(REF, 0) && (LegalTrace(arb.trace) <==> AllClosed(old(arb.trace)))
      ensures !t.check(REF, 0) ==>
                && arb.refEnq >= old(arb.refEnq)
                && (arb.refEnq > 0 || arb.refiCount == old(arb.refiCount) + 1)
      ensures accepted == old(accepted) && Anybody(old(arb.Queues()), t.check) ==>
                BankEvents(arb.trace) == old(BankEvents(arb.trace)) + 1
      ensures ChosenFrom(rs, old(arb.trace), arb.trace, queues, t.check)
      ensures accepted == old(accepted) || !t.genFirst ==> queues == old(arb.Queues())
    {
      hide Columns, LegalTrace, Project, Chained, Finishes, BankEvents, EndsOnTop, Sound, BankOf, RowOf, ChosenFrom;
      if t.accept && accepted < |rs| {
        if t.genFirst {
          Accept(rs);
          queues := Arbitrate(rs, t);
        } else {
          queues := Arbitrate(rs, t);
          Accept(rs);
        }
      } else {
        queues := Arbitrate(rs, t);
      }
      busySeen := gen.busy;
    }

    /** Any number of clocks. */
    method Clocks(rs: seq<Request>, ticks: seq<Tick>) returns (ghost seen: seq<Seen>)
      requires Valid(rs) && Chained(rs) && EndsBelowTop(rs) && arb.trace == []
      requires forall k :: 0 <= k < |ticks| ==> |ticks[k].dist| == BANKS
      modifies this, gen, gen.activeRow, gen.fifo, arb, arb.cmd, arb.valid
      ensures Valid(rs) && arb.RefreshClocks() == old(arb.RefreshClocks()) + |ticks|
      ensures AllPreferred(rs, ticks, |ticks|, arb.trace, seen)
    {
      hide Chained, EndsOnTop, Sound, Tidy, LegalTrace, ChosenFrom, AllPreferred;
      seen := [];
      NothingSeen(rs, ticks);
      for k := 0 to |ticks|
        invariant Valid(rs) && arb.RefreshClocks() == old(arb.RefreshClocks()) + k
        invariant AllPreferred(rs, ticks, k, arb.trace, seen)
      {
        ghost var was := arb.trace;
        ghost var queues := Clock(rs, ticks[k]);
        seen := OneMoreSeen(rs, ticks, k, was, arb.trace, seen, queues);
      }
    }

    /** Each bank has seen the column accesses of its requests in order, all of them when the
        queues have drained; then it is closed if no stride is under way. */
    lemma WhatIsIssued(rs: seq<Request>)
      requires Valid(rs)
      ensures LegalTrace(arb.trace)
      ensures forall b :: 0 <= b < BANKS ==> Columns(Project(arb.trace, b)) <= Wanted(rs, |rs|, b)
      ensures accepted == |rs| && arb.Drained() ==>
                forall b :: 0 <= b < BANKS ==> Columns(Project(arb.trace, b)) == Wanted(rs, |rs|, b)
      ensures arb.Drained() && !gen.busy ==> AllClosed(arb.trace)
    {
      hide Columns, LegalTrace, Project, AllOps, Ops, Wanted, After, Finishes;
      if !gen.busy {
        gen.ClosedBanks();
      }
      forall b | 0 <= b < BANKS
        ensures Columns(Project(arb.trace, b)) <= Wanted(rs, |rs|, b)
        ensures accepted == |rs| && arb.Drained() ==> Columns(Project(arb.trace, b)) == Wanted(rs, |rs|, b)
        ensures arb.Drained() && !gen.busy ==> After(Project(arb.trace, b)) == Closed
      {
        assert arb.ConservesBank(gen.pushed[b], b);
        var rest := arb.Pending(b) + AllOps(arb.fifo[b]);
        assert arb.Drained() ==> rest == [] by {
          NoOps();
        }
        assert rest == [] ==> Project(arb.trace, b) == gen.pushed[b];
        IssuedColumns(Project(arb.trace, b), rest, gen.pushed[b], Wanted(rs, accepted, b));
        WantedPrefix(rs, accepted, |rs|, b);
      }
    }

    /** With the queues drained, a bank that the registers have open is open. */
    lemma StillOpen(r: Request)
      requires Wired() && gen.Valid() && arb.Conserves(gen.pushed) && arb.Drained() && LeftOpen(r)
      ensures !AllClosed(arb.trace)
    {
      hide BankOf, RowOf, After, Project;
      arb.AllIssued(gen.pushed);
      assert gen.BankOk(BankOf(r.addr));
    }

    /** Each bank has then seen exactly the column accesses of the requests accepted so far. */
    lemma AllServed(rs: seq<Request>)
      requires Wired() && Sound(rs) && arb.Drained()
      ensures forall b :: 0 <= b < BANKS ==> Columns(Project(arb.trace, b)) == Wanted(rs, accepted, b)
    {
      hide Columns, Project, Wanted, Finishes;
      arb.AllIssued(gen.pushed);
    }

    /** Do nothing until a refresh falls due, and do not issue it. */
    method IdleQuietly(rs: seq<Request>)
      requires Valid(rs) && Chained(rs)
      modifies this, gen, gen.activeRow, gen.fifo, arb, arb.cmd, arb.valid
      ensures Valid(rs) && accepted == old(accepted) && arb.refEnq > 0
    {
      hide Chained, EndsOnTop, LegalTrace, Columns, Wanted, BankEvents, Tidy, LeftOpen, Finishes;
      var quiet := Tick(false, true, (c, b) => c != REF, seq(BANKS, _ => 0));
      while arb.refEnq == 0
        invariant Valid(rs) && accepted == old(accepted)
        decreases if arb.refEnq > 0 then 0 else arb.refi - arb.refiCount
      {
        ghost var _ := Clock(rs, quiet);
      }
    }

    /** Run up to a stride that ends in the top pair and row, with no refresh allowed. */
    method AcceptQuietly(rs: seq<Request>, top: nat)
      requires Valid(rs) && Chained(rs) && accepted == 0 && arb.refEnq > 0 && top < |rs| && EndsOnTop(rs[top])
      modifies this, gen, gen.activeRow, gen.fifo, arb, arb.cmd, arb.valid
      ensures Sound(rs) && LegalTrace(arb.trace) && busySeen == gen.busy && arb.refEnq > 0
      ensures accepted > 0 && EndsOnTop(rs[accepted - 1]) && LeftOpen(rs[accepted - 1])
    {
      hide Chained, EndsOnTop, LegalTrace, Columns, Wanted, BankEvents, Sound, Tidy, LeftOpen;
      var quiet := Tick(true, true, (c, b) => c != REF, seq(BANKS, _ => 0));
      while accepted == 0 || !EndsOnTop(rs[accepted - 1])
        invariant Sound(rs) && LegalTrace(arb.trace) && busySeen == gen.busy && accepted <= top + 1
        invariant if accepted > 0 && EndsOnTop(rs[accepted - 1]) then LeftOpen(rs[accepted - 1])
                  else Tidy(rs) && accepted <= top
        invariant arb.refEnq > 0
        decreases top + 1 - accepted
      {
        ghost var _ := Clock(rs, quiet);
      }
    }

    /** Drain the queues, still with no refresh allowed. */
    method DrainQuietly(rs: seq<Request>, r: Request)
      requires Wired() && Sound(rs) && LegalTrace(arb.trace) && busySeen == gen.busy && Chained(rs)
      requires arb.refEnq > 0 && LeftOpen(r)
      modifies this, gen, gen.activeRow, gen.fifo, arb, arb.cmd, arb.valid
      ensures Sound(rs) && LegalTrace(arb.trace) && busySeen == gen.busy
      ensures arb.refEnq > 0 && LeftOpen(r) && arb.Drained() && accepted == old(accepted)
    {
      hide Chained, EndsOnTop, LegalTrace, Columns, Wanted, BankEvents, Sizes, Finishes, BankOf, RowOf, ChosenFrom,
           Anybody;
      var quiet := Tick(false, true, (c, b) => c != REF, seq(BANKS, _ => 0));
      var empty := arb.FifoHeadsEmpty();
      while !empty
        invariant Sound(rs) && LegalTrace(arb.trace) && busySeen == gen.busy
        invariant arb.refEnq > 0 && LeftOpen(r) && empty == arb.Drained() && accepted == old(accepted)
        decreases Remaining()
      {
        arb.SomethingReady(quiet.check);
        ghost var _ := Clock(rs, quiet);
        arb.IssuedBound(gen.pushed);
        empty := arb.FifoHeadsEmpty();
      }
    }

    /** Commands queued and not issued. */
    ghost function Remaining(): int
      reads gen, arb
      requires Wired() && |gen.pushed| == BANKS
    {
      Sizes(gen.pushed, BANKS) - BankEvents(arb.trace)
    }

    /** Once the timing rules forbid nothing any more, the remaining requests are accepted and all
        queues drain: nothing is stuck. */
    method Finish(rs: seq<Request>)
      requires Valid(rs) && Chained(rs) && EndsBelowTop(rs)
      modifies this, gen, gen.activeRow, gen.fifo, arb, arb.cmd, arb.valid
      ensures Valid(rs) && accepted == |rs| && arb.Drained() && old(arb.trace) <= arb.trace
    {
      hide Chained, EndsOnTop, LegalTrace, Columns, Wanted, BankEvents, Sizes, Finishes, ChosenFrom, Anybody;
      var t := Tick(true, true, (c, b) => true, seq(BANKS, _ => 0));
      while accepted < |rs|
        invariant Valid(rs) && old(arb.trace) <= arb.trace
      {
        ghost var _ := Clock(rs, t);
      }
      var empty := arb.FifoHeadsEmpty();
      while !empty
        invariant Valid(rs) && accepted == |rs| && empty == arb.Drained() && old(arb.trace) <= arb.trace
        decreases Remaining()
      {
        arb.SomethingReady(t.check);
        ghost var _ := Clock(rs, t);
        arb.IssuedBound(gen.pushed);
        empty := arb.FifoHeadsEmpty();
      }
    }
  }

  /** For every stream with a linear stride that ends in the top pair and row, and every refresh
      interval, there is a run in which a refresh comes while a bank is open: if refreshes are not
      allowed until that stride has been served, the one that is due then is issued. Up to there the
      run is legal, and has served the requests up to the end of that stride and no other. */
  method RefreshWhileOpen(rs: seq<Request>, refi: nat) returns (trace: seq<Event>, served: nat)
    requires Chained(rs) && !EndsBelowTop(rs) && refi > 0
    ensures trace != [] && trace[|trace| - 1] == Refresh && !LegalTrace(trace)
    ensures LegalTrace(trace[..|trace| - 1]) && !AllClosed(trace[..|trace| - 1])
    ensures 0 < served <= |rs| && EndsOnTop(rs[served - 1])
    ensures forall b :: 0 <= b < BANKS ==> Columns(Project(trace[..|trace| - 1], b)) == Wanted(rs, served, b)
  {
    hide Chained, EndsOnTop, LegalTrace, Columns, Wanted, BankEvents, AllClosed, After;
    var top := 0;
    ghost var e :| 0 <= e < |rs| && EndsOnTop(rs[e]);
    while !EndsOnTop(rs[top])
      invariant top <= e
      decreases e - top
    {
      top := top + 1;
    }
    var sys := new System(refi);
    assert sys.Valid(rs);
    sys.IdleQuietly(rs);
    sys.AcceptQuietly(rs, top);
    served := sys.accepted;
    var r := rs[served - 1];
    sys.DrainQuietly(rs, r);
    sys.StillOpen(r);
    sys.AllServed(rs);
    ghost var before := sys.arb.trace;
    ghost var _ := sys.Clock(rs, Tick(false, true, (c, b) => true, seq(BANKS, _ => 0)));
    trace := sys.arb.trace;
    assert trace[..|trace| - 1] == before;
  }

  lemma GrowthConserves(done: seq<Op>, pending: seq<Op>, fifoWas: seq<Cmd>, fifoNow: seq<Cmd>,
                        was: seq<Op>, now: seq<Op>)
    requires done + (pending + AllOps(fifoWas)) == was && Grows(fifoWas, fifoNow, was, now)
    ensures done + (pending + AllOps(fifoNow)) == now
  {
    hide AllOps, Ops;
    var cs :| fifoNow == fifoWas + cs && now == was + AllOps(cs);
    AllOpsConcat(fifoWas, cs);
    var x, y := AllOps(fifoWas), AllOps(cs);
    assert done + (pending + (x + y)) == done + (pending + x) + y;
  }

  lemma GrowthQueues(r: Request, b: nat, fifoWas: seq<Cmd>, fifoNow: seq<Cmd>, was: seq<Op>,
                     now: seq<Op>, rowWas: nat)
    requires Grows(fifoWas, fifoNow, was, now) && Adds(r, b, was, now, rowWas)
    ensures Columns(now)
         == Columns(was) + if b == BankOf(r.addr) then [Column(RowOf(r.addr), ColOf(r.addr), r.write)] else []
    ensures b == BankOf(r.addr) ==> fifoNow != []
  {
    hide Columns, Ops, BankOf, RowOf, ColOf;
    var cs :| fifoNow == fifoWas + cs && now == was + AllOps(cs);
    assert cs == [] ==> now == was;
  }

  lemma AllStillFinish(held: seq<Cmd>, fifoWas: seq<Cmd>, fifoNow: seq<Cmd>)
    requires forall c :: c in held + fifoWas ==> Finishes(c)
    requires forall c :: c in fifoNow ==> c in fifoWas || Finishes(c)
    ensures forall c :: c in held + fifoNow ==> Finishes(c)
  {
    hide Finishes;
    forall c | c in held + fifoNow
      ensures Finishes(c)
    {
      assert c in held || c in fifoWas ==> c in held + fifoWas;
    }
  }

  /** What accepting a request does to the commands of one bank. */
  lemma BankGrows(r: Request, b: nat, done: seq<Op>, pending: seq<Op>, fifoWas: seq<Cmd>, fifoNow: seq<Cmd>,
                  was: seq<Op>, now: seq<Op>, rowWas: nat)
    requires Grows(fifoWas, fifoNow, was, now) && Adds(r, b, was, now, rowWas)
    requires done + (pending + AllOps(fifoWas)) == was
    ensures done + (pending + AllOps(fifoNow)) == now
    ensures Columns(now)
         == Columns(was) + if b == BankOf(r.addr) then [Column(RowOf(r.addr), ColOf(r.addr), r.write)] else []
    ensures b == BankOf(r.addr) ==> fifoNow != []
    ensures forall c :: c in fifoNow ==> c in fifoWas || Finishes(c)
  {
    hide Ops, AllOps, Columns, BankOf, RowOf, ColOf, Adds, Finishes;
    GrowthConserves(done, pending, fifoWas, fifoNow, was, now);
    GrowthQueues(r, b, fifoWas, fifoNow, was, now, rowWas);
  }

  /** What a bank has seen of the column accesses queued for it. */
  lemma IssuedColumns(done: seq<Op>, rest: seq<Op>, pushed: seq<Op>, wanted: seq<Column>)
    requires done + rest == pushed && Columns(pushed) == wanted
    ensures Columns(done) <= wanted && (rest == [] ==> Columns(done) == wanted)
  {
    hide Columns;
    ColumnsAppend(done, rest);
    assert rest == [] ==> done == pushed;
  }

  lemma {:induction false} WantedPrefix(rs: seq<Request>, n: nat, m: nat, b: nat)
    requires n <= m <= |rs|
    ensures Wanted(rs, n, b) <= Wanted(rs, m, b)
  {
    if n < m {
      WantedPrefix(rs, n, m - 1, b);
    }
  }

  /** Every stream of strides and indexed sequences, accepted and arbitrated in any rhythm under
      any timing: each bank gets only commands its state allows and a refresh only comes with
      all banks closed; column accesses are those of the requests, once each and in order per
      bank, and all of them when the queues have drained. */
  method Run(rs: seq<Request>, ticks: seq<Tick>, refi: nat)
      returns (trace: seq<Event>, drained: bool, whole: seq<Event>, ghost seen: seq<Seen>)
    requires Chained(rs) && EndsBelowTop(rs) && refi > 0
    requires forall k :: 0 <= k < |ticks| ==> |ticks[k].dist| == BANKS
    ensures LegalTrace(trace)
    ensures forall b :: 0 <= b < BANKS ==> Columns(Project(trace, b)) <= Wanted(rs, |rs|, b)
    ensures drained ==> forall b :: 0 <= b < BANKS ==> Columns(Project(trace, b)) == Wanted(rs, |rs|, b)
    ensures Refreshes(trace) * refi <= |ticks|
    ensures AllPreferred(rs, ticks, |ticks|, trace, seen)
    ensures trace <= whole && LegalTrace(whole)
    ensures forall b :: 0 <= b < BANKS ==> Columns(Project(whole, b)) == Wanted(rs, |rs|, b)
    ensures rs == [] || rs[|rs| - 1].last ==> AllClosed(whole)
  {
    hide Columns, LegalTrace, Project, Chained, EndsBelowTop, AllOps, Ops, Wanted, Refreshes, AllPreferred;
    var sys := new System(refi);
    seen := sys.Clocks(rs, ticks);
    trace := sys.arb.trace;
    var empty := sys.arb.FifoHeadsEmpty();
    drained := sys.accepted == |rs| && empty;
    RefreshBound(Refreshes(trace), sys.arb.refEnq, refi);
    sys.WhatIsIssued(rs);
    sys.Finish(rs);
    whole := sys.arb.trace;
    sys.WhatIsIssued(rs);
  }

  lemma NoOps()
    ensures AllOps([]) == []
  {
  }

  lemma RefreshBound(issued: nat, due: nat, refi: nat)
    ensures issued * refi <= (issued + due) * refi
  {
    assert (issued + due) * refi == issued * refi + due * refi;
  }

  // ----- One linear stride

  ghost predicate IsLinearStride(rs: seq<Request>) {
    && rs != [] && Chained(rs)
    && forall i :: 0 <= i < |rs| ==> rs[i].policy == Linear && (rs[i].last <==> i == |rs| - 1)
  }

  ghost predicate Increasing(rs: seq<Request>) {
    forall i, j :: 0 <= i && j == i + 1 && j < |rs| ==> rs[i].addr < rs[j].addr
  }

  predicate SameNext(r: Request) {
    KeyOf(r.addrNext) == KeyOf(r.addr)
  }

  /** Each row has been opened at most once, none beyond pair and row `key`; the rows of `key`
      itself are still open if `live`. */
  ghost predicate Once(pushed: seq<seq<Op>>, rows: seq<nat>, key: int, live: bool)
    requires |pushed| == |rows| == BANKS
  {
    forall b: nat, row: nat :: b < BANKS && Activations(pushed[b], row) > 0 ==>
      && Activations(pushed[b], row) == 1 && row * PAIRS + b / 2 <= key
      && (row * PAIRS + b / 2 == key && live ==> rows[b] == row)
  }

  lemma OnceStep(r: Request, key: int, live: bool, was: seq<seq<Op>>, rowsWas: seq<nat>,
                 now: seq<seq<Op>>, rowsNow: seq<nat>)
    requires ValidRequest(r) && |was| == |rowsWas| == |now| == |rowsNow| == BANKS
    requires Once(was, rowsWas, key, live)
    requires key <= KeyOf(r.addr) && (key == KeyOf(r.addr) ==> live)
    requires forall b :: 0 <= b < BANKS ==> Adds(r, b, was[b], now[b], rowsWas[b])
    requires SameNext(r) ==> rowsNow == rowsWas[BankOf(r.addr) := RowOf(r.addr)]
    ensures Once(now, rowsNow, KeyOf(r.addr), SameNext(r))
  {
    hide Activations, Columns, BankOf, RowOf, ColOf, KeyOf;
    KeyParts(r.addr);
    forall b: nat, row: nat | b < BANKS && Activations(now[b], row) > 0
      ensures Activations(now[b], row) == 1 && row * PAIRS + b / 2 <= KeyOf(r.addr)
      ensures row * PAIRS + b / 2 == KeyOf(r.addr) && SameNext(r) ==> rowsNow[b] == row
    {
      assert Adds(r, b, was[b], now[b], rowsWas[b]);
      assert Activations(now[b], row) == Activations(was[b], row)
           + if b == BankOf(r.addr) && row == RowOf(r.addr) && rowsWas[b] != row then 1 else 0;
    }
  }

  lemma KeyParts(a: nat)
    requires a < ADDRESSES
    ensures KeyOf(a) == RowOf(a) * PAIRS + BankOf(a) / 2
  {
    assert KeyOf(a) == KeyOf(a) / PAIRS * PAIRS + KeyOf(a) % PAIRS;
    assert KeyOf(a) / PAIRS < ROWS;
  }

  lemma KeyMonotone(a: nat, b: nat)
    requires a <= b
    ensures KeyOf(a) <= KeyOf(b)
  {
  }

  lemma RunStarts(rs: seq<Request>)
    ensures forall b: nat :: RunOps(rs, 0, b) == [] && HoldsRun(rs, 0, b, INACTIVE)
  {
  }

  lemma RunGoesOn(rs: seq<Request>, i: nat, rows: seq<nat>)
    requires i < |rs| && rs[i].policy == Linear && |rows| == BANKS
    requires forall b :: 0 <= b < BANKS ==> HoldsRun(rs, i, b, rows[b])
    requires forall b :: 0 <= b < BANKS && rows[b] != INACTIVE ==>
               b / 2 == BankOf(rs[i].addr) / 2 && rows[b] == RowOf(rs[i].addr)
    ensures forall b :: 0 <= b < BANKS ==>
              && RunOps(rs, i + 1, b) == RunOps(rs, i, b) + AllOps(Makes(rs[i], b, rows[b]))
              && HoldsRun(rs, i + 1, b, RowAfter(rs[i], b, rows[b]))
  {
    hide BankOf, RowOf, HoldsRun, AllOps, Makes, RowAfter, RunStep;
    forall b | 0 <= b < BANKS
      ensures RunOps(rs, i + 1, b) == RunOps(rs, i, b) + AllOps(Makes(rs[i], b, rows[b]))
      ensures HoldsRun(rs, i + 1, b, RowAfter(rs[i], b, rows[b]))
    {
      RunMakes(rs, i, b, rows[b]);
    }
  }

  /** One linear stride, from closed banks: legal, complete, and it leaves all banks closed
      exactly if it does not end in the top bank pair and row, which a missing next address
      looks like. With increasing addresses no row is opened twice. */
  method GenerateStride(rs: seq<Request>) returns (queues: seq<seq<Cmd>>)
    requires IsLinearStride(rs)
    ensures |queues| == BANKS
    ensures forall b :: 0 <= b < BANKS ==> Legal(AllOps(queues[b]))
    ensures forall b :: 0 <= b < BANKS ==> Columns(AllOps(queues[b])) == Wanted(rs, |rs|, b)
    ensures (forall b :: 0 <= b < BANKS ==> After(AllOps(queues[b])) == Closed)
       <==> KeyOf(rs[|rs| - 1].addr) != KeyOf(NO_NEXT)
    ensures Increasing(rs) ==> forall b: nat, row: nat :: b < BANKS ==> Activations(AllOps(queues[b]), row) <= 1
    ensures forall b :: 0 <= b < BANKS ==> AllOps(queues[b]) == RunOps(rs, |rs|, b)
  {
    hide Ops, AllOps, Columns, Activations, BankOf, KeyOf, RowOf, ColOf, Legal, After, Grows, Adds, RowAfter;
    hide Once, Finishes, RunOps, HoldsRun, Makes, RunStep, Wanted, RowsAfter, AllFit;
    var gen := new CmdGen();
    NoOps();
    NothingYet(gen.pushed, gen.activeRow[..]);
    NothingAccepted(rs, gen.activeRow[..]);
    RunStarts(rs);
    ghost var key: int, live := -1, false;
    for i := 0 to |rs|
      invariant fresh(gen) && fresh(gen.activeRow) && fresh(gen.fifo)
      invariant gen.Valid() && gen.AllLegal() && (i < |rs| ==> ReadyFor(gen, rs, i))
      invariant i > 0 ==> key == KeyOf(rs[i - 1].addr) && live == SameNext(rs[i - 1])
      invariant i > 0 ==>
                  if live then gen.activeRow[BankOf(rs[i - 1].addr)] == RowOf(rs[i - 1].addr) else gen.AllClosed()
      invariant i == 0 ==> key == -1
      invariant forall b :: 0 <= b < BANKS ==> gen.pushed[b] == AllOps(gen.fifo[b])
      invariant forall b :: 0 <= b < BANKS ==> Columns(gen.pushed[b]) == Wanted(rs, i, b)
      invariant Increasing(rs) ==> Once(gen.pushed, gen.activeRow[..], key, live)
      invariant forall b :: 0 <= b < BANKS ==>
                  AllOps(gen.fifo[b]) == RunOps(rs, i, b) && HoldsRun(rs, i, b, gen.activeRow[b])
    {
      var r := rs[i];
      ReadyIsOnlyOpen(gen, rs, i);
      ghost var pushed, rows := gen.pushed, gen.activeRow[..];
      AcceptNext(gen, rs, i);
      RunGoesOn(rs, i, rows);
      NextIsReady(gen, r, rows);
      if Increasing(rs) {
        if i > 0 {
          KeyMonotone(rs[i - 1].addr, r.addr);
        }
        OnceStep(r, key, live, pushed, rows, gen.pushed, gen.activeRow[..]);
      }
      key, live := KeyOf(r.addr), SameNext(r);
    }
    queues := gen.fifo[..];
    assert rs[|rs| - 1].addrNext == NO_NEXT;
    if Increasing(rs) {
      AtMostOnce(gen.pushed, gen.activeRow[..], key, live);
    }
    if live {
      assert gen.BankOk(BankOf(rs[|rs| - 1].addr));
    } else {
      gen.ClosedBanks();
    }
  }

  // ----- One indexed sequence

  ghost predicate IsLateSequence(rs: seq<Request>) {
    && rs != [] && Chained(rs)
    && forall i :: 0 <= i < |rs| ==> rs[i].policy == Alap && (rs[i].last <==> i == |rs| - 1)
  }

  lemma LateStarts(rs: seq<Request>)
    ensures forall b: nat :: LateOps(rs, 0, b) == [] && HoldsLate(rs, 0, b, INACTIVE)
  {
  }

  lemma LateGoesOn(rs: seq<Request>, i: nat, rows: seq<nat>)
    requires i < |rs| && rs[i].policy == Alap && (rs[i].addrNext == NO_NEXT <==> i == |rs| - 1) && |rows| == BANKS
    requires forall b :: 0 <= b < BANKS ==> HoldsLate(rs, i, b, rows[b])
    ensures forall b :: 0 <= b < BANKS ==>
              && LateOps(rs, i + 1, b) == LateOps(rs, i, b) + AllOps(Makes(rs[i], b, rows[b]))
              && (i < |rs| - 1 ==> HoldsLate(rs, i + 1, b, RowAfter(rs[i], b, rows[b])))
  {
    hide BankOf, RowOf, HoldsLate, AllOps, Makes, RowAfter, LateStep;
    forall b | 0 <= b < BANKS
      ensures LateOps(rs, i + 1, b) == LateOps(rs, i, b) + AllOps(Makes(rs[i], b, rows[b]))
      ensures i < |rs| - 1 ==> HoldsLate(rs, i + 1, b, RowAfter(rs[i], b, rows[b]))
    {
      LateMakes(rs, i, b, rows[b]);
    }
  }

  /** One indexed sequence, from closed banks: legal, complete, and a bank is activated exactly when it
      needs a row that its last request did not; all banks are closed afterwards. */
  method GenerateSequence(rs: seq<Request>) returns (queues: seq<seq<Cmd>>)
    requires IsLateSequence(rs)
    ensures |queues| == BANKS
    ensures forall b :: 0 <= b < BANKS ==> AllOps(queues[b]) == LateOps(rs, |rs|, b)
    ensures forall b :: 0 <= b < BANKS ==> Legal(AllOps(queues[b])) && After(AllOps(queues[b])) == Closed
    ensures forall b :: 0 <= b < BANKS ==> Columns(AllOps(queues[b])) == Wanted(rs, |rs|, b)
    ensures forall b: nat, row: nat :: b < BANKS ==> Activations(AllOps(queues[b]), row) == Openings(rs, |rs|, b, row)
  {
    hide Ops, AllOps, Columns, Activations, BankOf, KeyOf, RowOf, ColOf, Legal, After, Grows, Adds, RowAfter;
    hide LateOps, HoldsLate, Makes, LateStep, Openings, Wanted;
    var gen := new CmdGen();
    NoOps();
    NothingAccepted(rs, gen.activeRow[..]);
    LateStarts(rs);
    for i := 0 to |rs|
      invariant fresh(gen) && fresh(gen.activeRow) && fresh(gen.fifo) && gen.Valid() && gen.AllLegal()
      invariant forall b :: 0 <= b < BANKS ==> gen.pushed[b] == AllOps(gen.fifo[b])
      invariant forall b :: 0 <= b < BANKS ==> Columns(gen.pushed[b]) == Wanted(rs, i, b)
      invariant forall b :: 0 <= b < BANKS ==> AllOps(gen.fifo[b]) == LateOps(rs, i, b)
      invariant i < |rs| ==> forall b :: 0 <= b < BANKS ==> HoldsLate(rs, i, b, gen.activeRow[b])
      invariant i == |rs| ==> gen.AllClosed()
    {
      ghost var rows := gen.activeRow[..];
      AcceptNext(gen, rs, i);
      LateGoesOn(rs, i, rows);
      NextIsReady(gen, rs[i], rows);
    }
    queues := gen.fifo[..];
    gen.ClosedBanks();
    forall b: nat, row: nat | b < BANKS
      ensures Activations(AllOps(queues[b]), row) == Openings(rs, |rs|, b, row)
    {
      LateActivations(rs, |rs|, b, row);
    }
  }

  // ----- Any list of requests

  /** Registers of the open rows after the first n requests, from closed banks. */
  function RowsAfter(rs: seq<Request>, n: nat): (rows: seq<nat>)
    requires n <= |rs|
    ensures |rows| == BANKS
  {
    if n == 0 then seq(BANKS, _ => INACTIVE)
    else
      var was := RowsAfter(rs, n - 1);
      seq(BANKS, b requires 0 <= b < BANKS => RowAfter(rs[n - 1], b, was[b]))
  }

  /** A linear request finds its bank closed or on its row. */
  predicate Fits(r: Request, rows: seq<nat>)
    requires |rows| == BANKS
  {
    r.policy == Linear ==> rows[BankOf(r.addr)] == INACTIVE || rows[BankOf(r.addr)] == RowOf(r.addr)
  }

  ghost predicate AllFit(rs: seq<Request>, n: nat)
    requires n <= |rs|
  {
    forall i :: 0 <= i < n ==> Fits(rs[i], RowsAfter(rs, i))
  }

  /** Any requests, in any order: all commands are legal exactly if each linear request finds its
      bank closed or on its row. */
  method GenerateAll(rs: seq<Request>) returns (queues: seq<seq<Cmd>>)
    requires forall i :: 0 <= i < |rs| ==> ValidRequest(rs[i])
    ensures |queues| == BANKS
    ensures (forall b :: 0 <= b < BANKS ==> Legal(AllOps(queues[b]))) <==> AllFit(rs, |rs|)
    ensures forall b :: 0 <= b < BANKS ==> Columns(AllOps(queues[b])) == Wanted(rs, |rs|, b)
  {
    hide Ops, AllOps, Columns, Activations, BankOf, KeyOf, RowOf, ColOf, Legal, After, Grows, Adds, RowAfter;
    hide Wanted, RowsAfter, AllFit;
    var gen := new CmdGen();
    NoOps();
    NothingAccepted(rs, gen.activeRow[..]);
    for i := 0 to |rs|
      invariant fresh(gen) && fresh(gen.activeRow) && fresh(gen.fifo) && gen.Valid()
      invariant gen.activeRow[..] == RowsAfter(rs, i) && (gen.AllLegal() <==> AllFit(rs, i))
      invariant forall b :: 0 <= b < BANKS ==> gen.pushed[b] == AllOps(gen.fifo[b])
      invariant forall b :: 0 <= b < BANKS ==> Columns(gen.pushed[b]) == Wanted(rs, i, b)
    {
      ghost var rows := gen.activeRow[..];
      AcceptNext(gen, rs, i);
      OneMoreFits(rs, i, rows, gen.activeRow[..]);
    }
    queues := gen.fifo[..];
  }

  lemma NothingAccepted(rs: seq<Request>, rows: seq<nat>)
    requires |rows| == BANKS && forall b :: 0 <= b < BANKS ==> rows[b] == INACTIVE
    ensures rows == RowsAfter(rs, 0) && AllFit(rs, 0) && Columns([]) == []
    ensures forall b: nat :: Wanted(rs, 0, b) == []
  {
  }

  lemma OneMoreFits(rs: seq<Request>, i: nat, was: seq<nat>, now: seq<nat>)
    requires i < |rs| && |was| == |now| == BANKS && was == RowsAfter(rs, i)
    requires forall b :: 0 <= b < BANKS ==> now[b] == RowAfter(rs[i], b, was[b])
    ensures now == RowsAfter(rs, i + 1)
    ensures AllFit(rs, i + 1) <==> AllFit(rs, i) && Fits(rs[i], was)
  {
    hide RowAfter, Fits;
  }

  method AcceptNext(gen: CmdGen, rs: seq<Request>, i: nat)
    requires i < |rs| && ValidRequest(rs[i]) && gen.Valid()
    requires forall b :: 0 <= b < BANKS ==> gen.pushed[b] == AllOps(gen.fifo[b])
    requires forall b :: 0 <= b < BANKS ==> Columns(gen.pushed[b]) == Wanted(rs, i, b)
    modifies gen, gen.fifo, gen.activeRow
    ensures gen.Valid() && (gen.AllLegal() <==> old(gen.AllLegal() && gen.Fits(rs[i])))
    ensures forall b :: 0 <= b < BANKS ==> gen.activeRow[b] == RowAfter(rs[i], b, old(gen.activeRow[b]))
    ensures forall b :: 0 <= b < BANKS ==> gen.pushed[b] == AllOps(gen.fifo[b])
    ensures forall b :: 0 <= b < BANKS ==> Columns(gen.pushed[b]) == Wanted(rs, i + 1, b)
    ensures forall b :: 0 <= b < BANKS ==> Adds(rs[i], b, old(gen.pushed)[b], gen.pushed[b], old(gen.activeRow[b]))
    ensures forall b :: 0 <= b < BANKS ==>
              AllOps(gen.fifo[b]) == old(AllOps(gen.fifo[b])) + AllOps(Makes(rs[i], b, old(gen.activeRow[b])))
  {
    hide Ops, AllOps, Columns, Activations, BankOf, KeyOf, RowOf, ColOf, Legal, After, Grows, Adds, RowAfter, Finishes,
         Makes;
    ghost var pushed, rows, fifos := gen.pushed, gen.activeRow[..], gen.fifo[..];
    gen.Accept(rs[i]);
    forall b | 0 <= b < BANKS
      ensures gen.pushed[b] == AllOps(gen.fifo[b]) && Columns(gen.pushed[b]) == Wanted(rs, i + 1, b)
      ensures AllOps(gen.fifo[b]) == AllOps(fifos[b]) + AllOps(Makes(rs[i], b, rows[b]))
    {
      AllOpsConcat(fifos[b], Makes(rs[i], b, rows[b]));
      BankGrows(rs[i], b, [], [], fifos[b], gen.fifo[b], pushed[b], gen.pushed[b], rows[b]);
    }
  }

  /** The failing case: a stride that ends in the top bank pair and row leaves its bank open, and
      the next stride then activates another row of it without a precharge. */
  const TOP_THEN_BELOW: seq<Request> := [
    Request(ADDRESSES - 64, NO_NEXT, false, Linear, true),
    Request(ADDRESSES - 64 - PAIRS * PAIR_ROW_WORDS, NO_NEXT, false, Linear, true)]

  lemma SecondStrideMisfits()
    ensures Chained(TOP_THEN_BELOW) && EndsOnTop(TOP_THEN_BELOW[0]) && !AllFit(TOP_THEN_BELOW, 2)
  {
    assert !Fits(TOP_THEN_BELOW[1], RowsAfter(TOP_THEN_BELOW, 1));
  }

  method TopRowThenAnother() returns (queues: seq<seq<Cmd>>)
    ensures |queues| == BANKS && exists b :: 0 <= b < BANKS && !Legal(AllOps(queues[b]))
    ensures forall b :: 0 <= b < BANKS ==> Columns(AllOps(queues[b])) == Wanted(TOP_THEN_BELOW, 2, b)
  {
    hide Legal, AllOps, AllFit, Wanted, Columns, EndsOnTop;
    SecondStrideMisfits();
    queues := GenerateAll(TOP_THEN_BELOW);
  }

  lemma NothingYet(pushed: seq<seq<Op>>, rows: seq<nat>)
    requires |pushed| == |rows| == BANKS && forall b :: 0 <= b < BANKS ==> pushed[b] == []
    ensures Columns([]) == [] && Once(pushed, rows, -1, false)
  {
  }

  lemma AtMostOnce(pushed: seq<seq<Op>>, rows: seq<nat>, key: int, live: bool)
    requires |pushed| == |rows| == BANKS && Once(pushed, rows, key, live)
    ensures forall b: nat, row: nat :: b < BANKS ==> Activations(pushed[b], row) <= 1
  {
  }
}
