/** The command arbiter: one DRAM command a clock, from the heads of the bank queues. */
module CommandArbitration {
  import opened DramBanks

  datatype DramCommand = PRE | ACT | RD | RDA | WR | WRA | REF

  /** Whether the timing rules allow a command on a bank in this clock. Nothing is assumed
      about it. */
  type Timing = (DramCommand, nat) -> bool

  datatype Event = Bank(bank: nat, op: Op) | Refresh

  /** What bank b sees of a command stream. */
  function Project(t: seq<Event>, b: nat): seq<Op> {
    if t == [] then []
    else
      Project(t[..|t| - 1], b)
      + match t[|t| - 1]
        case Bank(x, op) => if x == b then [op] else []
        case Refresh => []
  }

  predicate AllClosed(t: seq<Event>) {
    forall b :: 0 <= b < BANKS ==> After(Project(t, b)) == Closed
  }

  /** Each bank's commands are legal, and no bank is open when a refresh is issued. */
  predicate LegalTrace(t: seq<Event>) {
    t == []
    || (var before, e := t[..|t| - 1], t[|t| - 1];
        && LegalTrace(before)
        && match e
           case Bank(b, op) => b < BANKS && Allowed(After(Project(before, b)), op)
           case Refresh => AllClosed(before))
  }

  lemma Extend(t: seq<Event>, e: Event, b: nat)
    ensures LegalTrace(t + [e]) <==>
              LegalTrace(t) && match e
                               case Bank(x, op) => x < BANKS && Allowed(After(Project(t, x)), op)
                               case Refresh => AllClosed(t)
    ensures Project(t + [e], b) == Project(t, b) + if e.Bank? && e.bank == b then [e.op] else []
  {
    assert (t + [e])[..|t|] == t;
  }

  /** The DRAM command an access turns into. */
  function AccessCommand(c: Cmd): DramCommand {
    if c.access == Read then (if c.prePost then RDA else RD) else (if c.prePost then WRA else WR)
  }

  // What may be issued for a queue head. A precharge before the access comes first, then the
  // activation, then the access itself; a bare precharge has none of these.

  predicate WantsPre(c: Cmd, check: Timing, b: nat) {
    c.prePre && check(PRE, b)
  }

  predicate WantsAct(c: Cmd, check: Timing, b: nat) {
    !c.prePre && c.act && check(ACT, b)
  }

  predicate WantsAccess(c: Cmd, check: Timing, b: nat) {
    !c.prePre && !c.act && c.access != NoAccess && check(AccessCommand(c), b)
  }

  predicate WantsClose(c: Cmd, check: Timing, b: nat) {
    !c.prePre && !c.act && c.access == NoAccess && c.prePost && check(PRE, b)
  }

  /** The timing rules allow what this queue head needs next. */
  predicate Ready(c: Cmd, check: Timing, b: nat) {
    WantsPre(c, check, b) || WantsAct(c, check, b) || WantsAccess(c, check, b) || WantsClose(c, check, b)
  }

  function Refreshes(t: seq<Event>): nat {
    if t == [] then 0 else Refreshes(t[..|t| - 1]) + if t[|t| - 1] == Refresh then 1 else 0
  }

  function Elapsed(intervals: nat, refi: nat, running: nat): nat {
    intervals * refi + running
  }

  /** Commands to banks in a stream. */
  function BankEvents(t: seq<Event>): nat {
    if t == [] then 0 else BankEvents(t[..|t| - 1]) + if t[|t| - 1].Bank? then 1 else 0
  }

  lemma BankEventsAppend(t: seq<Event>, e: Event)
    ensures BankEvents(t + [e]) == BankEvents(t) + if e.Bank? then 1 else 0
  {
    assert (t + [e])[..|t|] == t;
  }

  function ProjectSizes(t: seq<Event>, n: nat): nat {
    if n == 0 then 0 else ProjectSizes(t, n - 1) + |Project(t, n - 1)|
  }

  function Sizes(queues: seq<seq<Op>>, n: nat): nat
    requires n <= |queues|
  {
    if n == 0 then 0 else Sizes(queues, n - 1) + |queues[n - 1]|
  }

  lemma {:induction false} ProjectSizesStep(t: seq<Event>, e: Event, n: nat)
    ensures ProjectSizes(t + [e], n) == ProjectSizes(t, n) + if e.Bank? && e.bank < n then 1 else 0
  {
    if n > 0 {
      ProjectSizesStep(t, e, n - 1);
      Extend(t, e, n - 1);
    }
  }

  lemma {:induction false} NothingProjected(n: nat)
    ensures ProjectSizes([], n) == 0
  {
    if n > 0 {
      NothingProjected(n - 1);
    }
  }

  /** Each command of a legal stream is for one bank. */
  lemma {:induction false} EventsOfBanks(t: seq<Event>)
    requires LegalTrace(t)
    ensures BankEvents(t) == ProjectSizes(t, BANKS)
  {
    if t == [] {
      NothingProjected(BANKS);
    } else {
      var before, e := t[..|t| - 1], t[|t| - 1];
      EventsOfBanks(before);
      assert t == before + [e];
      ProjectSizesStep(before, e, BANKS);
    }
  }

  lemma {:induction false} SizesBound(t: seq<Event>, queues: seq<seq<Op>>, n: nat)
    requires n <= |queues| && forall b :: 0 <= b < n ==> |Project(t, b)| <= |queues[b]|
    ensures ProjectSizes(t, n) <= Sizes(queues, n)
  {
    if n > 0 {
      SizesBound(t, queues, n - 1);
    }
  }

  // ----- What is issued, in terms of the commands already issued and the queues

  /** First bank of the pair of the last column access in a stream. */
  function LastPair(t: seq<Event>): nat {
    if t == [] then 0
    else
      match t[|t| - 1]
      case Bank(b, Cas(_, _, _, _)) => b / 2 * 2
      case _ => LastPair(t[..|t| - 1])
  }

  lemma LastPairAppend(t: seq<Event>, e: Event)
    ensures LastPair(t + [e]) == if e.Bank? && e.op.Cas? then e.bank / 2 * 2 else LastPair(t)
  {
    assert (t + [e])[..|t|] == t;
  }

  /** Banks from one to another, around the ring. */
  function Around(from: nat, b: nat): nat {
    (b - from) % BANKS
  }

  /** What the timing rules have to allow for an operation. */
  function CommandOf(op: Op): DramCommand {
    match op
    case Pre => PRE
    case Act(_) => ACT
    case Cas(_, _, write, autoPre) => if write then (if autoPre then WRA else WR) else if autoPre then RDA else RD
  }

  datatype Need = NeedsPre | NeedsAct | NeedsAccess | NeedsClose

  /** The first command of a queue is up to this, and the timing rules allow it. */
  predicate Can(queues: seq<seq<Cmd>>, need: Need, check: Timing, b: nat) {
    && b < |queues| && queues[b] != []
    && match need
       case NeedsPre => WantsPre(queues[b][0], check, b)
       case NeedsAct => WantsAct(queues[b][0], check, b)
       case NeedsAccess => WantsAccess(queues[b][0], check, b)
       case NeedsClose => WantsClose(queues[b][0], check, b)
  }

  predicate Nobody(queues: seq<seq<Cmd>>, need: Need, check: Timing) {
    forall b :: 0 <= b < |queues| ==> !Can(queues, need, check, b)
  }

  /** Some queue can go on. */
  predicate Anybody(queues: seq<seq<Cmd>>, check: Timing) {
    exists b :: 0 <= b < |queues| && queues[b] != [] && Ready(queues[b][0], check, b)
  }

  /** b can, and no other bank that can is nearer. */
  predicate NearestTo(from: nat, queues: seq<seq<Cmd>>, need: Need, check: Timing, b: nat) {
    Can(queues, need, check, b)
    && forall x :: 0 <= x < |queues| && Can(queues, need, check, x) ==> Around(from, b) <= Around(from, x)
  }

  /** e is what the arbiter prefers: the nearest column access that is allowed, counted from the pair of
      the last one issued; if there is none, the nearest precharge ahead of an activation, then an
      activation, then the nearest bare precharge; and a refresh only if nothing is queued. */
  predicate Preferred(e: Event, queues: seq<seq<Cmd>>, from: nat, check: Timing) {
    match e
    case Bank(b, op) =>
      && check(CommandOf(op), b)
      && (match op
          case Cas(row, col, write, autoPre) =>
            && NearestTo(from, queues, NeedsAccess, check, b)
            && var c := queues[b][0];
               row == c.row && col == c.col && write == (c.access == Write) && autoPre == c.prePost
          case Act(row) =>
            && Nobody(queues, NeedsAccess, check) && Nobody(queues, NeedsPre, check)
            && Can(queues, NeedsAct, check, b) && row == queues[b][0].row
          case Pre =>
            && Nobody(queues, NeedsAccess, check)
            && (NearestTo(from, queues, NeedsPre, check, b)
                || (Nobody(queues, NeedsPre, check) && Nobody(queues, NeedsAct, check)
                    && NearestTo(from, queues, NeedsClose, check, b))))
    case Refresh => check(REF, 0) && forall b :: 0 <= b < |queues| ==> queues[b] == []
  }

  datatype Candidates = Candidates(ppre: int, act: int, rw: int, p: int)

  class CmdArb {
    const fifo: array<seq<Cmd>>
    const cmd: array<Cmd>
    const valid: array<bool>
    const refi: nat
    var bank: nat
    var refEnq: nat
    var refiCount: nat
    var trace: seq<Event>  // everything issued so far

    ghost predicate Wired()
    {
      && fifo.Length == cmd.Length == valid.Length == BANKS
      && refi > 0
    }

    /** Commands of bank b that are in the arbiter but not issued. */
    ghost function Pending(b: nat): seq<Op>
      reads cmd, valid
      requires Wired() && b < BANKS
    {
      if valid[b] then Ops(cmd[b]) else []
    }

    /** Issued, held and queued commands of every bank are what was queued for it, in order. */
    ghost predicate Conserves(pushed: seq<seq<Op>>)
      reads `trace, fifo, cmd, valid
      requires Wired()
    {
      |pushed| == BANKS && forall b :: 0 <= b < BANKS ==> ConservesBank(pushed[b], b)
    }

    ghost predicate ConservesBank(pushed: seq<Op>, b: nat)
      reads `trace, fifo, cmd, valid
      requires Wired() && b < BANKS
    {
      Project(trace, b) + (Pending(b) + AllOps(fifo[b])) == pushed
    }

    ghost predicate Drained()
      reads fifo, valid
      requires Wired()
    {
      forall b :: 0 <= b < BANKS ==> !valid[b] && fifo[b] == []
    }

    /** Commands of bank b not completed yet, the held one first. */
    ghost function Queue(b: nat): seq<Cmd>
      reads cmd, valid, fifo
      requires Wired() && b < BANKS
    {
      (if valid[b] then [cmd[b]] else []) + fifo[b]
    }

    ghost function Queues(): (queues: seq<seq<Cmd>>)
      reads cmd, valid, fifo
      requires Wired()
      ensures |queues| == BANKS && forall b :: 0 <= b < BANKS ==> queues[b] == Queue(b)
    {
      [Queue(0), Queue(1), Queue(2), Queue(3), Queue(4), Queue(5), Queue(6), Queue(7)]
    }

    /** The register of the last bank is that of the last column access issued. */
    ghost predicate Follows()
      reads `bank, `trace
    {
      bank < BANKS && bank == LastPair(trace)
    }

    /** Whatever is queued or held can be completed. */
    ghost predicate AllFinish()
      reads cmd, valid, fifo
      requires Wired()
    {
      forall b :: 0 <= b < BANKS ==> forall c :: c in Queue(b) ==> Finishes(c)
    }

    /** Clocks accounted for by refreshes issued, refreshes due and the running interval. */
    ghost function RefreshClocks(): int
      reads this
    {
      Elapsed(Refreshes(trace) + refEnq, refi, refiCount)
    }

    /** What is issued for these candidates. */
    ghost function Chosen(c: Candidates, busy: bool, check: Timing): seq<Event>
      reads this, cmd, valid, fifo
      requires Wired() && Usable(c, check)
    {
      if c.rw >= 0 then
        var x := cmd[c.rw];
        [Bank(c.rw, Cas(x.row, x.col, x.access == Write, x.prePost))]
      else if c.ppre >= 0 then [Bank(c.ppre, Pre)]
      else if c.act >= 0 then [Bank(c.act, Act(cmd[c.act].row))]
      else if c.p >= 0 then [Bank(c.p, Pre)]
      else if refEnq > 0 && Drained() && !busy && check(REF, 0) then [Refresh]
      else []
    }

    ghost predicate Usable(c: Candidates, check: Timing)
      reads cmd, valid
      requires Wired()
    {
      && (c.ppre == -1 || (0 <= c.ppre < BANKS && valid[c.ppre] && WantsPre(cmd[c.ppre], check, c.ppre)))
      && (c.act == -1 || (0 <= c.act < BANKS && valid[c.act] && WantsAct(cmd[c.act], check, c.act)))
      && (c.rw == -1 || (0 <= c.rw < BANKS && valid[c.rw] && WantsAccess(cmd[c.rw], check, c.rw)))
      && (c.p == -1 || (0 <= c.p < BANKS && valid[c.p] && WantsClose(cmd[c.p], check, c.p)))
    }

    constructor (queues: array<seq<Cmd>>, interval: nat)
      requires queues.Length == BANKS && interval > 0
      requires forall b :: 0 <= b < BANKS ==> queues[b] == []
      ensures Wired() && fifo == queues && fresh(cmd) && fresh(valid)
      ensures trace == [] && Conserves(seq(BANKS, _ => [])) && Drained() && AllFinish() && Follows()
      ensures refi == interval && RefreshClocks() == 0 && refiCount < refi
    {
      fifo := queues;
      cmd := new Cmd[BANKS](_ => Cmd(0, 0, false, false, NoAccess, false));
      valid := new bool[BANKS](_ => false);
      refi := interval;
      bank, refEnq, refiCount := 0, 0, 0;
      trace := [];
    }

    /** What is issued and what is queued for a bank is all that was queued for it. */
    lemma QueuesConserve(pushed: seq<seq<Op>>)
      requires Wired() && Conserves(pushed)
      ensures forall b :: 0 <= b < BANKS ==> Project(trace, b) + AllOps(Queues()[b]) == pushed[b]
    {
      hide Project, Ops, AllOps, Queues;
      forall b | 0 <= b < BANKS
        ensures Project(trace, b) + AllOps(Queues()[b]) == pushed[b]
      {
        assert ConservesBank(pushed[b], b);
        assert Queues()[b] == Queue(b);
        if valid[b] {
          AllOpsHead(Queue(b));
          assert Queue(b)[1..] == fifo[b];
        } else {
          assert Queue(b) == fifo[b] && Pending(b) + AllOps(fifo[b]) == AllOps(fifo[b]);
        }
      }
    }

    /** Take the head of each queue whose place is free. */
    method FetchFifoHeads(ghost pushed: seq<seq<Op>>)
      requires Wired() && Conserves(pushed)
      modifies cmd, valid, fifo
      ensures Conserves(pushed)
      ensures old(Drained()) <==> Drained()
      ensures forall b :: 0 <= b < BANKS && !valid[b] ==> fifo[b] == []
      ensures forall b :: 0 <= b < BANKS ==> Queue(b) == old(Queue(b))
    {
      hide Project, Ops, AllOps, Conserves;
      for i := 0 to BANKS
        invariant Conserves(pushed)
        invariant forall b :: 0 <= b < i && !valid[b] ==> fifo[b] == []
        invariant forall b :: 0 <= b < BANKS ==> Queue(b) == old(Queue(b))
        invariant forall b :: 0 <= b < BANKS ==>
                    (!valid[b] && fifo[b] == [] <==> old(!valid[b] && fifo[b] == []))
      {
        if !valid[i] && fifo[i] != [] {
          FetchOne(i, pushed);
        }
      }
    }

    method FetchOne(i: nat, ghost pushed: seq<seq<Op>>)
      requires Wired() && Conserves(pushed) && i < BANKS && !valid[i] && fifo[i] != []
      modifies cmd, valid, fifo
      ensures Conserves(pushed) && valid[i] && Queue(i) == old(Queue(i))
      ensures forall b :: 0 <= b < BANKS && b != i ==>
                valid[b] == old(valid[b]) && fifo[b] == old(fifo[b]) && cmd[b] == old(cmd[b])
    {
      hide Project, Ops, AllOps;
      AllOpsHead(fifo[i]);
      assert ConservesBank(pushed[i], i);
      cmd[i], fifo[i], valid[i] := fifo[i][0], fifo[i][1..], true;
      assert ConservesBank(pushed[i], i);
      assert forall b :: 0 <= b < BANKS && b != i ==> old(ConservesBank(pushed[b], b)) && ConservesBank(pushed[b], b);
    }

    /** With nothing but refreshes forbidden, a queue that is not empty is ready. */
    lemma SomethingReady(check: Timing)
      requires Wired() && AllFinish() && !Drained() && forall c, b :: c != REF ==> check(c, b)
      ensures Anybody(Queues(), check)
    {
      var b :| 0 <= b < BANKS && (valid[b] || fifo[b] != []);
      assert Queue(b)[0] in Queue(b);
      assert Queues()[b] == Queue(b) && Ready(Queue(b)[0], check, b);
    }

    /** No more commands are issued than were queued. */
    lemma IssuedBound(pushed: seq<seq<Op>>)
      requires Wired() && Conserves(pushed) && LegalTrace(trace)
      ensures BankEvents(trace) <= Sizes(pushed, BANKS)
    {
      EventsOfBanks(trace);
      forall b | 0 <= b < BANKS
        ensures |Project(trace, b)| <= |pushed[b]|
      {
        assert ConservesBank(pushed[b], b);
      }
      SizesBound(trace, pushed, BANKS);
    }

    method FifoHeadsEmpty() returns (empty: bool)
      requires Wired()
      ensures empty == Drained()
    {
      empty := true;
      for i := 0 to BANKS
        invariant empty == forall b :: 0 <= b < i ==> !valid[b] && fifo[b] == []
      {
        if valid[i] || fifo[i] != [] {
          empty := false;
        }
      }
    }

    /** Distance from the last used bank, around the ring of banks. */
    function Ring(b: nat): nat
      reads `bank
    {
      (b + (BANKS - bank % BANKS)) % BANKS
    }

    /** For each kind of command the best bank that may issue it: the nearest one around the ring.
        Of the activations, the last one that is nearer, or has a longer queue, than the one held at
        that point. -1 if and only if there is none. */
    method CmdBestCandidates(check: Timing, dist: seq<int>) returns (c: Candidates)
      requires Wired() && |dist| == BANKS
      ensures Usable(c, check)
      ensures forall b :: 0 <= b < BANKS && valid[b] && WantsPre(cmd[b], check, b) ==>
                0 <= c.ppre && Ring(c.ppre) <= Ring(b)
      ensures forall b :: 0 <= b < BANKS && valid[b] && WantsAct(cmd[b], check, b) ==> 0 <= c.act
      ensures 0 <= c.act ==> forall b :: c.act < b < BANKS && valid[b] && WantsAct(cmd[b], check, b) ==>
                dist[b] <= dist[c.act] && Ring(c.act) <= Ring(b)
      ensures forall b :: 0 <= b < BANKS && valid[b] && WantsAccess(cmd[b], check, b) ==>
                0 <= c.rw && Ring(c.rw) <= Ring(b)
      ensures forall b :: 0 <= b < BANKS && valid[b] && WantsClose(cmd[b], check, b) ==>
                0 <= c.p && Ring(c.p) <= Ring(b)
    {
      hide Ring;
      var ppre, act, rw, p := -1, -1, -1, -1;
      var actEntries := -1;
      for i := 0 to BANKS
        invariant ppre == -1 || (0 <= ppre < i && valid[ppre] && WantsPre(cmd[ppre], check, ppre))
        invariant act == -1 || (0 <= act < i && valid[act] && WantsAct(cmd[act], check, act))
        invariant rw == -1 || (0 <= rw < i && valid[rw] && WantsAccess(cmd[rw], check, rw))
        invariant p == -1 || (0 <= p < i && valid[p] && WantsClose(cmd[p], check, p))
        invariant forall b :: 0 <= b < i && valid[b] && WantsPre(cmd[b], check, b) ==>
                    0 <= ppre && Ring(ppre) <= Ring(b)
        invariant forall b :: 0 <= b < i && valid[b] && WantsAct(cmd[b], check, b) ==> 0 <= act
        invariant 0 <= act ==> actEntries == dist[act]
        invariant 0 <= act ==> forall b :: act < b < i && valid[b] && WantsAct(cmd[b], check, b) ==>
                    dist[b] <= actEntries && Ring(act) <= Ring(b)
        invariant forall b :: 0 <= b < i && valid[b] && WantsAccess(cmd[b], check, b) ==>
                    0 <= rw && Ring(rw) <= Ring(b)
        invariant forall b :: 0 <= b < i && valid[b] && WantsClose(cmd[b], check, b) ==>
                    0 <= p && Ring(p) <= Ring(b)
      {
        if valid[i] {
          if cmd[i].prePre {
            if (ppre < 0 || Ring(i) < Ring(ppre)) && check(PRE, i) {
              ppre := i;
            }
          } else if cmd[i].act {
            if (act < 0 || dist[i] > actEntries || Ring(i) < Ring(act)) && check(ACT, i) {
              act, actEntries := i, dist[i];
            }
          } else if cmd[i].access != NoAccess {
            if !(rw >= 0 && Ring(i) >= Ring(rw)) && check(AccessCommand(cmd[i]), i) {
              rw := i;
            }
          } else if cmd[i].prePost && (p < 0 || Ring(i) < Ring(p)) && check(PRE, i) {
            p := i;
          }
        }
      }
      c := Candidates(ppre, act, rw, p);
    }

    /** Record an issued command. */
    method Issued(b: nat, op: Op, ghost pushed: seq<seq<Op>>)
      requires Wired() && b < BANKS && |pushed| == BANKS
      requires LegalTrace(trace) && Legal(pushed[b])
      requires Project(trace, b) + ([op] + (Pending(b) + AllOps(fifo[b]))) == pushed[b]
      requires forall x :: 0 <= x < BANKS && x != b ==> ConservesBank(pushed[x], x)
      modifies `trace
      ensures trace == old(trace) + [Bank(b, op)] && LegalTrace(trace) && Conserves(pushed)
      ensures Refreshes(trace) == old(Refreshes(trace))
    {
      hide Project, LegalTrace, Legal, After, Ops, AllOps, Refreshes;
      RefreshesAppend(trace, [Bank(b, op)]);
      ghost var rest := Pending(b) + AllOps(fifo[b]);
      assert Project(trace, b) + ([op] + rest) == (Project(trace, b) + [op]) + rest;
      LegalPrefix(Project(trace, b) + [op], rest);
      LegalAppend(Project(trace, b), op);
      ghost var before := trace;
      trace := trace + [Bank(b, op)];
      Extend(before, Bank(b, op), b);
      forall x | 0 <= x < BANKS
        ensures ConservesBank(pushed[x], x)
      {
        Extend(before, Bank(b, op), x);
        if x != b {
          assert old(ConservesBank(pushed[x], x));
          assert Project(trace, x) == Project(before, x);
        } else {
          assert Project(trace, b) == Project(before, b) + [op];
        }
      }
    }

    /** Access first, then precharges ahead of activations, then activations, then bare
        precharges; a refresh only when there is nothing left to do and nothing on its way. */
    method Issue(c: Candidates, busy: bool, check: Timing, ghost pushed: seq<seq<Op>>)
      requires Wired() && Conserves(pushed) && LegalTrace(trace)
      requires forall b :: 0 <= b < BANKS ==> Legal(pushed[b])
      requires Usable(c, check)
      modifies `bank, `refEnq, `trace, cmd, valid
      ensures Conserves(pushed)
      ensures LegalTrace(trace) <==> (old(Chosen(c, busy, check)) == [Refresh] ==> AllClosed(old(trace)))
      ensures trace == old(trace) + old(Chosen(c, busy, check))
      ensures old(AllFinish()) ==> AllFinish()
      ensures Refreshes(trace) + refEnq == old(Refreshes(trace) + refEnq)
      ensures old(Chosen(c, busy, check)) != [Refresh] ==> refEnq == old(refEnq)
      ensures old(Follows()) ==> Follows()
    {
      hide Ops, AllOps, LegalTrace, Project, Legal, After, Conserves, Refreshes, AllClosed, LastPair;
      ghost var before, chosen := trace, Chosen(c, busy, check);
      if chosen != [] {
        LastPairAppend(before, chosen[0]);
      }
      if c.rw >= 0 {
        bank := c.rw - c.rw % 2;
        IssueLast(c.rw, pushed);
      } else if c.ppre >= 0 {
        IssueFlag(c.ppre, cmd[c.ppre].(prePre := false), Pre, pushed);
      } else if c.act >= 0 {
        IssueFlag(c.act, cmd[c.act].(act := false), Act(cmd[c.act].row), pushed);
      } else if c.p >= 0 {
        IssueLast(c.p, pushed);
      } else {
        var empty := FifoHeadsEmpty();
        if refEnq > 0 && empty && !busy && check(REF, 0) {
          IssueRefresh(pushed);
        }
      }
    }

    /** Keep what is left of a command in its place. */
    method Keep(b: nat, rest: Cmd)
      requires Wired() && b < BANKS && valid[b] && (Finishes(cmd[b]) ==> Finishes(rest))
      modifies cmd
      ensures cmd[b] == rest && forall x :: 0 <= x < BANKS && x != b ==> cmd[x] == old(cmd[x])
      ensures old(AllFinish()) ==> AllFinish()
    {
      assert cmd[b] in Queue(b) && forall c :: c in fifo[b] ==> c in Queue(b);
      cmd[b] := rest;
      assert forall c :: c in Queue(b) ==> c == rest || c in fifo[b];
      assert forall x :: 0 <= x < BANKS && x != b ==> Queue(x) == old(Queue(x));
    }

    /** A completed command frees its place. */
    method Drop(b: nat)
      requires Wired() && b < BANKS
      modifies valid
      ensures !valid[b] && forall x :: 0 <= x < BANKS && x != b ==> valid[x] == old(valid[x])
      ensures old(AllFinish()) ==> AllFinish()
    {
      valid[b] := false;
      assert Queue(b) == fifo[b];
      assert forall x :: 0 <= x < BANKS && x != b ==> Queue(x) == old(Queue(x));
      assert forall c :: c in fifo[b] ==> c in old(Queue(b));
    }

    /** Issue the precharge or activation ahead of an access; the head keeps the rest. */
    method IssueFlag(b: nat, rest: Cmd, op: Op, ghost pushed: seq<seq<Op>>)
      requires Wired() && Conserves(pushed) && LegalTrace(trace) && b < BANKS && valid[b] && Legal(pushed[b])
      requires Flag(cmd[b], rest, op)
      modifies `trace, cmd
      ensures Conserves(pushed) && LegalTrace(trace) && trace == old(trace) + [Bank(b, op)]
      ensures old(AllFinish()) ==> AllFinish()
      ensures Refreshes(trace) == old(Refreshes(trace))
    {
      hide AllOps, LegalTrace, Project, Legal, Refreshes;
      FlagOps(cmd[b], rest, op);
      HeadIs(Project(trace, b), op, Ops(rest), AllOps(fifo[b]));
      assert ConservesBank(pushed[b], b);
      Keep(b, rest);
      assert forall x :: 0 <= x < BANKS && x != b ==> old(ConservesBank(pushed[x], x)) && ConservesBank(pushed[x], x);
      Issued(b, op, pushed);
    }

    /** Issue the access, or the bare precharge, that completes a command. */
    method IssueLast(b: nat, ghost pushed: seq<seq<Op>>)
      requires Wired() && Conserves(pushed) && LegalTrace(trace) && b < BANKS && valid[b] && Legal(pushed[b])
      requires !cmd[b].prePre && !cmd[b].act && (cmd[b].access != NoAccess || cmd[b].prePost)
      modifies `trace, valid
      ensures Conserves(pushed) && LegalTrace(trace)
      ensures trace == old(trace) + [Bank(b, if cmd[b].access == NoAccess then Pre
                                             else Cas(cmd[b].row, cmd[b].col, cmd[b].access == Write, cmd[b].prePost))]
      ensures old(AllFinish()) ==> AllFinish()
      ensures Refreshes(trace) == old(Refreshes(trace))
    {
      hide AllOps, LegalTrace, Project, Legal, Refreshes;
      var op := if cmd[b].access == NoAccess then Pre
                      else Cas(cmd[b].row, cmd[b].col, cmd[b].access == Write, cmd[b].prePost);
      assert Ops(cmd[b]) == [op] + [];
      HeadIs(Project(trace, b), op, [], AllOps(fifo[b]));
      assert ConservesBank(pushed[b], b);
      Drop(b);
      assert forall x :: 0 <= x < BANKS && x != b ==> old(ConservesBank(pushed[x], x)) && ConservesBank(pushed[x], x);
      Issued(b, op, pushed);
    }

    method IssueRefresh(ghost pushed: seq<seq<Op>>)
      requires Wired() && Conserves(pushed) && LegalTrace(trace) && refEnq > 0
      modifies `trace, `refEnq
      ensures Conserves(pushed) && trace == old(trace) + [Refresh] && (LegalTrace(trace) <==> AllClosed(old(trace)))
      ensures Refreshes(trace) + refEnq == old(Refreshes(trace) + refEnq)
    {
      hide LegalTrace, Project, After, AllOps, Ops, Refreshes, AllClosed;
      RefreshesAppend(trace, [Refresh]);
      Extend(trace, Refresh, 0);
      forall b | 0 <= b < BANKS
        ensures Project(trace + [Refresh], b) == Project(trace, b)
      {
        Extend(trace, Refresh, b);
      }
      trace := trace + [Refresh];
      refEnq := refEnq - 1;
      forall b | 0 <= b < BANKS
        ensures ConservesBank(pushed[b], b)
      {
        assert old(ConservesBank(pushed[b], b));
      }
    }

    /** Once the queues have drained, each bank has seen what was queued for it. */
    lemma AllIssued(pushed: seq<seq<Op>>)
      requires Wired() && Conserves(pushed) && Drained()
      ensures forall b :: 0 <= b < BANKS ==> Project(trace, b) == pushed[b]
      ensures AllClosed(trace) <==> forall b :: 0 <= b < BANKS ==> After(pushed[b]) == Closed
    {
      hide Project, After;
      forall b | 0 <= b < BANKS
        ensures Project(trace, b) == pushed[b]
      {
        assert ConservesBank(pushed[b], b);
      }
    }

    /** With the heads fetched: what is going to be issued is what is preferred, and nothing ready is
        missed. */
    method Select(busy: bool, check: Timing, dist: seq<int>) returns (c: Candidates)
      requires Wired() && |dist| == BANKS && bank < BANKS
      requires forall b :: 0 <= b < BANKS && !valid[b] ==> fifo[b] == []
      ensures Usable(c, check)
      ensures Chosen(c, busy, check) != [] ==> Preferred(Chosen(c, busy, check)[0], Queues(), bank, check)
      ensures Anybody(Queues(), check) ==>
                |Chosen(c, busy, check)| == 1 && Chosen(c, busy, check)[0].Bank?
    {
      hide Preferred, Queues, Anybody;
      c := CmdBestCandidates(check, dist);
      NothingMissed(c, check);
      BestIsPreferred(c, busy, check);
    }

    /** One clock. A command is issued whenever some queue head may have one, a refresh only when
        nothing is queued, and no refresh interval is lost. Only a refresh can be illegal. */
    method Clock(busy: bool, check: Timing, dist: seq<int>, ghost pushed: seq<seq<Op>>)
      requires Wired() && Conserves(pushed) && LegalTrace(trace) && |dist| == BANKS && refiCount < refi && Follows()
      requires forall b :: 0 <= b < BANKS ==> Legal(pushed[b])
      modifies `bank, `refEnq, `refiCount, `trace, cmd, valid, fifo
      ensures Conserves(pushed) && refiCount < refi && Follows()
      ensures |trace| > |old(trace)| ==>
                Preferred(trace[|old(trace)|], old(Queues()), LastPair(old(trace)), check)
      ensures LegalTrace(trace) <==> (trace == old(trace) + [Refresh] ==> AllClosed(old(trace)))
      ensures trace == old(trace) + [Refresh] ==> !busy && old(Drained()) && check(REF, 0)
      ensures old(AllFinish()) ==> AllFinish()
      ensures |old(trace)| <= |trace| <= |old(trace)| + 1 && trace[..|old(trace)|] == old(trace)
      ensures Anybody(old(Queues()), check) ==>
                && |trace| == |old(trace)| + 1 && trace[|old(trace)|].Bank?
                && BankEvents(trace) == old(BankEvents(trace)) + 1
      ensures !busy && old(Drained()) && old(refEnq) > 0 && check(REF, 0) ==> trace == old(trace) + [Refresh]
      ensures RefreshClocks() == old(RefreshClocks()) + 1
      ensures !check(REF, 0) ==> refEnq >= old(refEnq) && (refEnq > 0 || refiCount == old(refiCount) + 1)
    {
      hide Conserves, LegalTrace, Legal, After, Project, Ops, AllOps, Elapsed, Refreshes, BankEvents, AllClosed,
           LastPair, Preferred, Queues, Queue, Anybody;
      ghost var before, queues := trace, Queues();
      FetchFifoHeads(pushed);
      assert Queues() == queues;
      var c := Select(busy, check, dist);
      Issue(c, busy, check, pushed);
      if |trace| > |before| {
        BankEventsAppend(before, trace[|before|]);
      }
      CountClock();
    }

    /** A refresh falls due every refi clocks. */
    method CountClock()
      requires refiCount < refi
      modifies `refEnq, `refiCount
      ensures RefreshClocks() == old(RefreshClocks()) + 1 && refiCount < refi
      ensures refEnq >= old(refEnq) && (refEnq > 0 || refiCount == old(refiCount) + 1)
    {
      hide Refreshes;
      ghost var due := Refreshes(trace) + refEnq;
      assert due * refi + refi == (due + 1) * refi;
      refiCount := refiCount + 1;
      if refiCount >= refi {
        refiCount := refiCount % refi;
        refEnq := refEnq + 1;
      }
    }

    /** The best candidate, by priority, is what is preferred. */
    lemma BestIsPreferred(c: Candidates, busy: bool, check: Timing)
      requires Wired() && Usable(c, check) && bank < BANKS
      requires forall b :: 0 <= b < BANKS && !valid[b] ==> fifo[b] == []
      requires forall b :: 0 <= b < BANKS && valid[b] && WantsPre(cmd[b], check, b) ==>
                 0 <= c.ppre && Ring(c.ppre) <= Ring(b)
      requires forall b :: 0 <= b < BANKS && valid[b] && WantsAct(cmd[b], check, b) ==> 0 <= c.act
      requires forall b :: 0 <= b < BANKS && valid[b] && WantsAccess(cmd[b], check, b) ==>
                 0 <= c.rw && Ring(c.rw) <= Ring(b)
      requires forall b :: 0 <= b < BANKS && valid[b] && WantsClose(cmd[b], check, b) ==>
                 0 <= c.p && Ring(c.p) <= Ring(b)
      ensures Chosen(c, busy, check) != [] ==> Preferred(Chosen(c, busy, check)[0], Queues(), bank, check)
    {
      var qs := Queues();
      CanIs(check);
      RingsAreAround();
      hide Ring, Around, Queues, Can, WantsPre, WantsAct, WantsAccess, WantsClose;
      if c.rw >= 0 {
        assert NearestTo(bank, qs, NeedsAccess, check, c.rw);
        assert qs[c.rw][0] == cmd[c.rw];
      } else {
        assert Nobody(qs, NeedsAccess, check);
        if c.ppre >= 0 {
          assert NearestTo(bank, qs, NeedsPre, check, c.ppre);
        } else {
          assert Nobody(qs, NeedsPre, check);
          if c.act >= 0 {
            assert Can(qs, NeedsAct, check, c.act) && qs[c.act][0] == cmd[c.act];
          } else if c.p >= 0 {
            assert Nobody(qs, NeedsAct, check);
            assert NearestTo(bank, qs, NeedsClose, check, c.p);
          }
        }
      }
    }

    /** What can be done for a bank, once the heads have been fetched. */
    lemma CanIs(check: Timing)
      requires Wired() && forall b :: 0 <= b < BANKS && !valid[b] ==> fifo[b] == []
      ensures forall b: nat :: Can(Queues(), NeedsPre, check, b) <==>
                b < BANKS && valid[b] && WantsPre(cmd[b], check, b)
      ensures forall b: nat :: Can(Queues(), NeedsAct, check, b) <==>
                b < BANKS && valid[b] && WantsAct(cmd[b], check, b)
      ensures forall b: nat :: Can(Queues(), NeedsAccess, check, b) <==>
                b < BANKS && valid[b] && WantsAccess(cmd[b], check, b)
      ensures forall b: nat :: Can(Queues(), NeedsClose, check, b) <==>
                b < BANKS && valid[b] && WantsClose(cmd[b], check, b)
      ensures forall b :: 0 <= b < BANKS && valid[b] ==> Queues()[b] != [] && Queues()[b][0] == cmd[b]
      ensures Drained() ==> forall b :: 0 <= b < BANKS ==> Queues()[b] == []
    {
      hide WantsPre, WantsAct, WantsAccess, WantsClose;
      assert forall b :: 0 <= b < BANKS && valid[b] ==> Queue(b)[0] == cmd[b];
    }

    lemma RingsAreAround()
      requires bank < BANKS
      ensures forall b :: 0 <= b < BANKS ==> Ring(b) == Around(bank, b)
    {
      forall b | 0 <= b < BANKS
        ensures Ring(b) == Around(bank, b)
      {
        RingIsAround(b);
      }
    }

    lemma RingIsAround(b: nat)
      requires bank < BANKS && b < BANKS
      ensures Ring(b) == Around(bank, b)
    {
    }

    lemma NothingMissed(c: Candidates, check: Timing)
      requires Wired() && Usable(c, check)
      requires forall b :: 0 <= b < BANKS && !valid[b] ==> fifo[b] == []
      requires forall b :: 0 <= b < BANKS && valid[b] && Ready(cmd[b], check, b) ==>
                 c.rw >= 0 || c.ppre >= 0 || c.act >= 0 || c.p >= 0
      ensures Anybody(Queues(), check) ==> c.rw >= 0 || c.ppre >= 0 || c.act >= 0 || c.p >= 0
    {
      if Anybody(Queues(), check) {
        var b :| 0 <= b < BANKS && Queues()[b] != [] && Ready(Queues()[b][0], check, b);
        assert Queues()[b] == Queue(b);
      }
    }
  }

  lemma RefreshesAppend(t: seq<Event>, more: seq<Event>)
    requires |more| <= 1
    ensures Refreshes(t + more) == Refreshes(t) + if more == [Refresh] then 1 else 0
  {
    if |more| == 1 {
      assert (t + more)[..|t|] == t;
    } else {
      assert t + more == t;
    }
  }

  /** A command with its first flag cleared, and what that flag stands for. */
  predicate Flag(c: Cmd, rest: Cmd, op: Op) {
    if c.prePre then op == Pre && rest == c.(prePre := false)
    else c.act && op == Act(c.row) && rest == c.(act := false)
  }

  lemma FlagOps(c: Cmd, rest: Cmd, op: Op)
    requires Flag(c, rest, op)
    ensures Ops(c) == [op] + Ops(rest)
  {
  }

  lemma HeadIs(done: seq<Op>, op: Op, rest: seq<Op>, queued: seq<Op>)
    ensures done + (([op] + rest) + queued) == done + ([op] + (rest + queued))
    ensures [op] + [] == [op]
  {
    assert ([op] + rest) + queued == [op] + (rest + queued);
  }
}
