/** Decode, scoreboard, execute ring and register file together: sequential execution. */
module Pipelines {
  import opened ScalarCode
  import opened Scoreboards
  import opened RegisterFile
  import opened ExecuteStages
  import opened DecodeStages
  import opened Ringbuffers

  function Count(m: seq<bool>): nat
    requires |m| == 3
  {
    (if m[0] then 1 else 0) + (if m[1] then 1 else 0) + if m[2] then 1 else 0
  }

  /** Operands of op that are still to be read. */
  function Unread(op: Insn, retry: seq<bool>): (wanted: seq<bool>)
    requires |retry| == 3
    ensures |wanted| == 3 && forall i :: 0 <= i < 3 ==> wanted[i] == (i < |op.srcs| && retry[i])
  {
    [0 < |op.srcs| && retry[0], 1 < |op.srcs| && retry[1], 2 < |op.srcs| && retry[2]]
  }

  /** All operands that are still to be read can be read at once, and nothing in flight writes them. */
  predicate OperandsFree(h: Hazards, op: Insn, retry: seq<bool>, inFlight: seq<nat>)
    requires |retry| == 3 && |op.srcs| <= 3
  {
    && (forall i :: 0 <= i < 3 ==> !Conflicts(h, Unread(op, retry), op.srcs)[i])
    && (forall i :: 0 <= i < |op.srcs| && retry[i] && op.srcs[i].Register? ==> op.srcs[i].r !in inFlight)
  }

  /** The divider can take a division, or the ring any other instruction, that many clocks after the
      last division was handed over. */
  predicate UnitFree(op: Insn, stages: nat, since: nat) {
    if op.divides then since >= DIVIDER else since + stages >= DIVIDER
  }

  class Pipeline {
    const sb: Scoreboard
    const rf: RegFile
    const dec: DecodeStage
    const ex: ExecuteStage
    const alu: Alu
    var pc: nat
    ghost var killed: bool
    ghost var sinceDiv: nat  // clocks since the last division was handed over

    ghost function Repr(): set<object> {
      {this, sb, sb.queue, rf, rf.regs, dec, ex, ex.pipe, ex.pipe.buf}
    }

    /** One scoreboard slot more than execute stages; all parts are separate. */
    ghost predicate Wired() {
      && 0 < ex.Stages() && sb.queue.Length == ex.Stages() + 1 && dec.stages == ex.Stages() && ex.alu == alu
      && sb.queue as object != rf.regs && sb.queue as object != ex.pipe.buf && rf.regs as object != ex.pipe.buf
    }

    ghost predicate Parts()
      reads Repr()
    {
      Wired() && sb.Valid() && ex.Valid() && |rf.operands| == |dec.retry| == 3
    }

    /** The scoreboard lists the destinations in flight, in order. */
    ghost predicate Mirrors()
      reads Repr()
      requires Parts()
    {
      && sb.Entries() == Dests(ex.Chain()) && Sound(ex.Chain(), rf.regs.Length)
      && |sb.Entries()| <= sb.maxEntries <= ex.Stages()
    }

    /** The instruction between decode and execute is going to be pushed. */
    ghost predicate Handover()
      reads dec, rf
    {
      && Ready(dec.out) && Fits(dec.out.insn, rf.regs.Length) && dec.enqueue == dec.out.insn.dst.To?
      && (dec.enqueue ==> dec.reg == dec.out.insn.dst.r)
    }

    /** While a division is kept back, decode sends nothing. */
    ghost predicate Timing()
      reads dec, ex
    {
      && (ex.hold > 0 ==> dec.out.insn == NOP)
      && ex.hold <= dec.pipeStall <= dec.distStall <= DIVIDER
      && (dec.out.insn.divides ==> dec.pipeStall == DivHold(ex.Stages()))
    }

    /** The counters say how long ago the last division was handed over. */
    ghost predicate Counts()
      reads `sinceDiv, dec
    {
      dec.distStall == Left(DIVIDER, sinceDiv) && dec.pipeStall == Left(DivHold(dec.stages), sinceDiv)
    }

    ghost predicate Fetching(prog: seq<Insn>)
      reads `pc, dec
    {
      && |dec.retry| == 3
      && (dec.stalled ==> pc > 0 && dec.op == At(prog, pc - 1) && !dec.onSb)
      && (!dec.stalled ==> dec.retry == ALL)
    }

    /** Instructions handed over so far. */
    ghost function IssuedCount(): int
      reads `pc, dec
    {
      if dec.stalled then pc - 1 else pc
    }

    /** The operation of a pipeline that is never flushed is that of the program. */
    ghost predicate Refines(prog: seq<Insn>, init: seq<int>)
      reads Repr()
      requires Parts() && Mirrors() && Handover() && Fetching(prog)
      requires |init| == rf.regs.Length && AllFit(prog, |init|)
    {
      !killed ==>
        var now := State(alu, prog, init, IssuedCount());
        && Written(Retired(rf.regs[..], ex.Chain()), Result(alu, dec.out, rf.operands, false)) == now
        && (dec.stalled ==> LatchedOk(dec.op, dec.retry, rf.operands, now))
    }

    ghost predicate Valid(prog: seq<Insn>, init: seq<int>)
      reads Repr()
    {
      && Parts() && Mirrors() && Handover() && Timing() && Counts() && Fetching(prog)
      && |init| == rf.regs.Length && AllFit(prog, |init|) && Refines(prog, init)
    }

    /** Clocks until every destination in flight has left the scoreboard, if nothing joins. */
    ghost function Drain(): nat
      reads Repr()
      requires Parts()
    {
      if dec.enqueue then ex.Stages() + DIVIDER else DrainTime(ex.Chain())
    }

    /** What keeps decode waiting: writes in flight, the divider, operands still to be read. */
    ghost function Waiting(): nat
      reads Repr()
      requires Parts()
    {
      Drain() + dec.distStall + Count(dec.retry)
    }

    constructor (init: seq<int>, stages: nat, alu: Alu, hazards: Hazards, ghost prog: seq<Insn>)
      requires 0 < stages <= 31 && AllFit(prog, |init|)
      ensures Valid(prog, init)
      ensures ex.Stages() == stages && this.alu == alu && pc == 0 && !dec.stalled && !killed
      ensures dec.distStall == 0 && ex.hold == 0 && dec.out == Issued(NOP, false)
      ensures fresh(Repr())
    {
      hide Window, InOrder, Delayed, Retired, Dests, DrainTime, State, LatchedOk, Result, Written, AllFit, Sound, Valid,
           Distance;
      var s := new Scoreboard(stages + 1);
      var r := new RegFile(init, hazards);
      var d := new DecodeStage(stages);
      var e := new ExecuteStage(stages, alu);
      sb, rf, dec, ex, this.alu := s, r, d, e, alu;
      pc, killed, sinceDiv := 0, false, DIVIDER;
      new;
      Idle(prog, init);
    }

    /** A new pipeline: nothing in flight, nothing fetched. */
    lemma Idle(prog: seq<Insn>, init: seq<int>)
      requires Parts() && rf.regs[..] == init && AllFit(prog, |init|) && sb.Entries() == [] && sb.maxEntries == 0
      requires Bubbles(ex.Chain()) && ex.hold == 0
      requires dec.out == Issued(NOP, false) && !dec.enqueue && !dec.stalled && dec.retry == ALL
      requires dec.pipeStall == dec.distStall == 0 && pc == 0 && !killed && sinceDiv >= DIVIDER
      ensures Valid(prog, init)
    {
      hide Window, InOrder, Delayed, DrainTime, LatchedOk, Retired, Dests, AllFit;
      BubblesDoNothing(init, ex.Chain());
    }

    /** What a valid pipeline says about the back end. */
    lemma InStep(prog: seq<Insn>, init: seq<int>)
      requires Valid(prog, init)
      ensures Parts() && Mirrors() && Handover() && Fetching(prog) && Counts()
      ensures ex.hold > 0 ==> dec.out.insn == NOP
      ensures ex.hold <= dec.pipeStall && (dec.out.insn.divides ==> dec.pipeStall == DivHold(ex.Stages()))
      ensures !killed ==> Written(Retired(rf.regs[..], ex.Chain()), Result(alu, dec.out, rf.operands, false))
                          == State(alu, prog, init, IssuedCount())
    {
      hide Retired, Dests, Window, State, Result, LatchedOk, Sound;
    }

    /** Scoreboard update, register write and execute, in this order within the clock. */
    method Backend(kill: bool, ghost prog: seq<Insn>, ghost init: seq<int>) returns (overflow: bool)
      requires Valid(prog, init)
      modifies sb, sb.queue, rf.regs, ex, ex.pipe, ex.pipe.buf, `killed
      ensures Parts() && Mirrors() && Handover() && Fetching(prog) && Counts() && !overflow
      ensures killed == (old(killed) || kill)
      ensures ex.hold <= Pred(dec.pipeStall)
      ensures !killed ==> Retired(rf.regs[..], ex.Chain()) == State(alu, prog, init, IssuedCount())
      ensures DrainTime(ex.Chain()) <= Pred(old(Drain()))
      ensures ex.Chain() == Moved(alu, old(ex.Chain()), dec.out, rf.operands, kill, old(ex.hold), ex.Stages())
      ensures kill && old(ex.hold) == 0 ==> forall e :: e in ex.Chain() ==> !e.write
    {
      hide Retired, Dests, DrainTime, State, Window, Moved, Result, LatchedOk, Sound, Distance, Delayed, AllFit,
           InOrder;
      hide Valid, Fetching, Timing, Refines, Counts, Left;
      InStep(prog, init);
      ghost var c, i := ex.Chain(), dec.out;
      DelayLine(alu, rf.regs[..], c, i, rf.operands, kill, ex.hold, ex.Stages());
      overflow := Step(kill);
      killed := killed || kill;
    }

    /** The three updates, each on its own part. */
    method Step(kill: bool) returns (overflow: bool)
      requires Parts() && |dec.out.insn.srcs| <= 3 && (ex.out.write ==> ex.out.reg < rf.regs.Length)
      modifies sb, sb.queue, rf.regs, ex, ex.pipe, ex.pipe.buf
      ensures Parts()
      ensures var w := if old(ex.out.dequeue) then Popped(old(sb.Entries())) else old(sb.Entries());
              && sb.Entries() == (if dec.enqueue && |w| < sb.Capacity() then w + [dec.reg] else w)
              && overflow == ((old(ex.out.dequeue) && old(sb.Entries()) == []) || (dec.enqueue && |w| == sb.Capacity()))
      ensures sb.maxEntries == if old(sb.maxEntries) < |sb.Entries()| then |sb.Entries()| else old(sb.maxEntries)
      ensures rf.regs[..] == Written(old(rf.regs[..]), old(ex.out))
      ensures ex.Chain() == Moved(alu, old(ex.Chain()), dec.out, rf.operands, kill, old(ex.hold), ex.Stages())
      ensures ex.hold == Pred(if old(ex.hold) > 0 then old(ex.hold) else Hold(dec.out.insn, ex.Stages(), kill))
      ensures kill && old(ex.hold) == 0 ==> forall e :: e in ex.Chain() ==> !e.write
    {
      hide Window, Distance, Written, Moved, Delayed, InOrder;
      overflow := sb.PushPop(ex.out.dequeue, dec.enqueue, dec.reg);
      rf.Write(ex.out);
      Execute(kill);
    }

    method Execute(kill: bool)
      requires Wired() && ex.Valid() && |rf.operands| == 3 && |dec.out.insn.srcs| <= 3
      modifies ex, ex.pipe, ex.pipe.buf
      ensures ex.Valid()
              && ex.Chain() == Moved(alu, old(ex.Chain()), dec.out, rf.operands, kill, old(ex.hold), ex.Stages())
      ensures ex.hold == Pred(if old(ex.hold) > 0 then old(ex.hold) else Hold(dec.out.insn, ex.Stages(), kill))
      ensures kill && old(ex.hold) == 0 ==> forall e :: e in ex.Chain() ==> !e.write
    {
      ex.Clock(dec.out, rf.operands, kill);
    }

    /** Select, request, check, issue or stall. `now` are the registers as they will be. */
    method Decode(fetched: Insn, ghost prog: seq<Insn>, ghost now: seq<int>)
      requires Parts() && Mirrors() && Handover() && Fetching(prog)
      requires AllFit(prog, rf.regs.Length) && fetched == At(prog, pc) && now == Retired(rf.regs[..], ex.Chain())
      requires ex.hold <= Pred(dec.pipeStall) && dec.pipeStall <= dec.distStall <= DIVIDER && Counts()
      modifies `pc, `sinceDiv, rf`operands, dec
      ensures Parts() && Handover() && Timing() && Counts() && Fetching(prog)
      ensures var op := At(prog, old(IssuedCount()));
              && |op.srcs| <= 3
              && (!dec.stalled <==> OperandsFree(rf.hazards, op, old(dec.retry), Dests(ex.Chain()))
                                    && UnitFree(op, ex.Stages(), old(sinceDiv)))
              && sinceDiv == if !dec.stalled && op.divides then 0 else old(sinceDiv) + 1
      ensures !dec.stalled ==> old(dec.pipeStall) == 0
      ensures dec.op == At(prog, old(IssuedCount()))
              && IssuedCount() == old(IssuedCount()) + if dec.stalled then 0 else 1
      ensures dec.out == if dec.stalled then Issued(NOP, false) else Issued(dec.op, dec.op.dst.To?)
      ensures (old(dec.stalled) ==> old(LatchedOk(dec.op, dec.retry, rf.operands, now))) ==>
                if dec.stalled then LatchedOk(dec.op, dec.retry, rf.operands, now)
                else rf.operands[..|dec.op.srcs|] == Values(now, dec.op.srcs)
      ensures dec.stalled ==>
                dec.distStall + Count(dec.retry) < old(dec.distStall + Count(dec.retry)) || Dests(ex.Chain()) != []
      ensures var op := At(prog, old(IssuedCount()));
              old(dec.distStall) == 0 && op.srcs == [] && !op.divides ==>
                !dec.stalled && dec.distStall == 0 && dec.out == Issued(op, op.dst.To?)
      ensures Count(dec.retry) <= 3 && dec.distStall <= DIVIDER
      ensures dec.stalled ==>
                !dec.enqueue && Count(dec.retry) <= old(Count(dec.retry)) && dec.distStall <= old(dec.distStall)
    {
      hide Retired, Dests, Window, Conflicts, LatchedOk, Count, Or, Any, Sound, Values, Distance, Delayed, AllFit,
           OperandsFree, Unread, Written, DrainTime, UnitFree, Left, DivHold, Ready, Moved;
      if !dec.stalled {
        pc := pc + 1;
        NothingLatched(fetched, rf.operands, now);
      }
      dec.Select(fetched);
      var conflicts, raw := ReadOperands(now);
      HandOver(conflicts, raw);
      AllThree();
    }

    /** Issue or stall, and count the clocks since the last division. */
    method HandOver(conflicts: seq<bool>, raw: seq<bool>)
      requires Wired() && |conflicts| == |raw| == 3 && Fits(dec.op, rf.regs.Length) && !dec.onSb && Counts()
      requires ex.hold <= Pred(dec.pipeStall) && dec.pipeStall <= dec.distStall <= DIVIDER
      modifies `sinceDiv, dec
      ensures dec.op == old(dec.op) && Handover() && Timing() && Counts() && (dec.stalled ==> !dec.onSb)
      ensures dec.stalled <==> Any(Or(conflicts, raw)) || !UnitFree(dec.op, ex.Stages(), old(sinceDiv))
      ensures sinceDiv == if !dec.stalled && dec.op.divides then 0 else old(sinceDiv) + 1
      ensures dec.retry == if dec.stalled then Or(conflicts, raw) else ALL
      ensures dec.out == if dec.stalled then Issued(NOP, false) else Issued(dec.op, dec.op.dst.To?)
      ensures dec.stalled ==> !dec.enqueue && dec.distStall == Pred(old(dec.distStall))
      ensures dec.stalled && old(dec.distStall) == 0 ==> Any(Or(conflicts, raw))
      ensures !dec.stalled ==> old(dec.pipeStall) == 0
      ensures !dec.stalled && !dec.op.divides ==> dec.distStall == Pred(old(dec.distStall))
      ensures dec.distStall <= DIVIDER
    {
      hide Or, Any, UnitFree, Left, DivHold;
      CountersTell(dec.stages, sinceDiv);
      dec.Issue(conflicts, raw);
      sinceDiv := if !dec.stalled && dec.op.divides then 0 else sinceDiv + 1;
    }

    /** Decode: what is handed over computes what sequential execution computes next. */
    method Frontend(fetched: Insn, ghost prog: seq<Insn>, ghost init: seq<int>)
      requires Parts() && Mirrors() && Handover() && Fetching(prog)
      requires |init| == rf.regs.Length && AllFit(prog, |init|) && fetched == At(prog, pc)
      requires ex.hold <= Pred(dec.pipeStall) && dec.pipeStall <= dec.distStall <= DIVIDER && Counts()
      requires !killed ==> Retired(rf.regs[..], ex.Chain()) == State(alu, prog, init, IssuedCount())
      requires !killed && dec.stalled ==>
                 LatchedOk(dec.op, dec.retry, rf.operands, State(alu, prog, init, IssuedCount()))
      modifies `pc, `sinceDiv, rf`operands, dec
      ensures Valid(prog, init)
      ensures var op := At(prog, old(IssuedCount()));
              && |op.srcs| <= 3
              && (!dec.stalled <==> OperandsFree(rf.hazards, op, old(dec.retry), Dests(ex.Chain()))
                                    && UnitFree(op, ex.Stages(), old(sinceDiv)))
              && sinceDiv == if !dec.stalled && op.divides then 0 else old(sinceDiv) + 1
      ensures !dec.stalled ==> old(dec.pipeStall) == 0
      ensures IssuedCount() == old(IssuedCount()) + if dec.stalled then 0 else 1
      ensures !dec.stalled ==> dec.out.insn == At(prog, old(IssuedCount()))
      ensures dec.stalled ==> Waiting() < DrainTime(ex.Chain()) + old(dec.distStall + Count(dec.retry))
                              || DrainTime(ex.Chain()) > 0
      ensures var op := At(prog, old(IssuedCount()));
              old(dec.distStall) == 0 && op.srcs == [] && !op.divides ==>
                !dec.stalled && dec.distStall == 0 && dec.out == Issued(op, op.dst.To?)
      ensures Count(dec.retry) <= 3 && dec.distStall <= DIVIDER
      ensures dec.stalled ==>
                !dec.enqueue && Count(dec.retry) <= old(Count(dec.retry)) && dec.distStall <= old(dec.distStall)
    {
      hide Retired, Dests, DrainTime, State, Window, LatchedOk, Count, Sound, Values, Distance, Delayed, AllFit, Valid,
           Refines, Waiting, Drain, Handover, Timing;
      ghost var k := IssuedCount();
      ghost var now := Retired(rf.regs[..], ex.Chain());
      Decode(fetched, prog, now);
      if !killed && !dec.stalled {
        OneMore(alu, prog, init, k, rf.operands);
      }
      InStepAgain(prog, init);
      NothingJoins();
    }

    lemma InStepAgain(prog: seq<Insn>, init: seq<int>)
      requires Parts() && Mirrors() && Handover() && Timing() && Counts() && Fetching(prog)
      requires |init| == rf.regs.Length && AllFit(prog, |init|)
      requires var now := State(alu, prog, init, IssuedCount());
               !killed ==>
                 && Written(Retired(rf.regs[..], ex.Chain()), Result(alu, dec.out, rf.operands, false)) == now
                 && (dec.stalled ==> LatchedOk(dec.op, dec.retry, rf.operands, now))
      ensures Valid(prog, init)
    {
    }

    /** While decode waits, nothing joins the writes in flight. */
    lemma NothingJoins()
      requires Parts()
      ensures !dec.enqueue ==> Waiting() == DrainTime(ex.Chain()) + dec.distStall + Count(dec.retry)
    {
    }

    /** Read what has not been read yet and check it against the writes in flight. */
    method ReadOperands(ghost now: seq<int>) returns (conflicts: seq<bool>, raw: seq<bool>)
      requires Parts() && Mirrors() && Fits(dec.op, rf.regs.Length) && now == Retired(rf.regs[..], ex.Chain())
      modifies rf`operands
      ensures |rf.operands| == |conflicts| == |raw| == 3
      ensures old(LatchedOk(dec.op, dec.retry, rf.operands, now)) ==>
                && LatchedOk(dec.op, Or(conflicts, raw), rf.operands, now)
                && (!Any(Or(conflicts, raw)) ==> rf.operands[..|dec.op.srcs|] == Values(now, dec.op.srcs))
      ensures Count(Or(conflicts, raw)) <= Count(dec.retry) <= 3
      ensures dec.op.srcs == [] ==> !Any(Or(conflicts, raw))
      ensures Any(Or(conflicts, raw)) <==> !OperandsFree(rf.hazards, dec.op, dec.retry, Dests(ex.Chain()))
      ensures Dests(ex.Chain()) == [] && Any(Or(conflicts, raw)) ==> Count(Or(conflicts, raw)) < Count(dec.retry)
    {
      hide Retired, Dests, Window, Conflicts, LatchedOk, Count, Or, Any;
      ghost var was := rf.operands;
      var wanted := dec.Requests();
      conflicts := rf.Read(wanted, dec.op.srcs);
      raw := sb.Check(wanted, dec.op.srcs);
      if LatchedOk(dec.op, dec.retry, was, now) {
        OperandsRead(rf.regs[..], ex.Chain(), dec.op, dec.retry, wanted, conflicts, raw, was, rf.operands);
      }
      RetriesShrink(dec.retry, wanted, conflicts, raw);
      NothingWanted(conflicts, raw);
      assert wanted == Unread(dec.op, dec.retry);
      NothingBlocked(rf.hazards, dec.op, dec.retry, Dests(ex.Chain()), conflicts, raw);
    }

    /** One clock. A clock without an issue brings the next issue nearer. */
    method Clock(kill: bool, prog: seq<Insn>, ghost init: seq<int>) returns (overflow: bool)
      requires Valid(prog, init)
      modifies Repr()
      ensures Valid(prog, init) && !overflow && killed == (old(killed) || kill)
      ensures IssuedCount() == old(IssuedCount()) + if dec.stalled then 0 else 1
      ensures dec.stalled ==> Waiting() < old(Waiting())
      ensures var op := At(prog, old(IssuedCount()));
              && |op.srcs| <= 3
              && (!dec.stalled <==> OperandsFree(rf.hazards, op, old(dec.retry), Dests(ex.Chain()))
                                    && UnitFree(op, ex.Stages(), old(sinceDiv)))
              && sinceDiv == if !dec.stalled && op.divides then 0 else old(sinceDiv) + 1
      ensures !dec.stalled ==> old(ex.hold) == 0 && ex.hold == 0
      ensures kill && old(ex.hold) == 0 ==> Retired(rf.regs[..], ex.Chain()) == rf.regs[..]
      ensures old(IssuedCount()) >= |prog| ==> Drain() <= Pred(old(Drain()))
      ensures ex.Chain() == Moved(alu, old(ex.Chain()), old(dec.out), old(rf.operands), kill, old(ex.hold), ex.Stages())
      ensures var op := At(prog, old(IssuedCount()));
              old(dec.distStall) == 0 && op.srcs == [] && !op.divides ==>
                !dec.stalled && dec.distStall == 0 && dec.out == Issued(op, op.dst.To?)
    {
      hide Moved, Retired, Dests, DrainTime, State, Window, LatchedOk, Count;
      overflow := Backend(kill, prog, init);
      if kill && old(ex.hold) == 0 {
        NoWritesNoEffect(rf.regs[..], ex.Chain());
      }
      Frontend(At(prog, pc), prog, init);
    }

    lemma WaitingBound(prog: seq<Insn>, init: seq<int>)
      requires Valid(prog, init)
      ensures Drain() <= ex.Stages() + DIVIDER && Waiting() < LongestStall(ex.Stages())
    {
    }

    lemma Drained(prog: seq<Insn>, init: seq<int>)
      requires Valid(prog, init) && !killed && IssuedCount() >= |prog| && Drain() == 0
      ensures rf.regs[..] == State(alu, prog, init, |prog|) && sb.maxEntries <= ex.Stages()
    {
      hide Retired, Dests, DrainTime, State, Window, LatchedOk;
      NothingInFlight(rf.regs[..], ex.Chain());
      PastTheEnd(alu, prog, init, IssuedCount());
    }

    /** Clocks until the next instruction is issued. */
    method IssueNext(prog: seq<Insn>, ghost init: seq<int>) returns (n: nat)
      requires Valid(prog, init) && !dec.stalled && !killed
      modifies Repr()
      ensures Valid(prog, init) && !dec.stalled && !killed && IssuedCount() == old(IssuedCount()) + 1
      ensures n <= LongestStall(ex.Stages())
    {
      hide Retired, Dests, DrainTime, State, Window, LatchedOk, Parts, Mirrors, Handover, Timing, Refines;
      WaitingBound(prog, init);
      ghost var w := Waiting();
      var _ := Clock(false, prog, init);
      n := 1;
      while dec.stalled
        invariant Valid(prog, init) && !killed && n <= w + 1
        invariant IssuedCount() == old(IssuedCount()) + if dec.stalled then 0 else 1
        invariant dec.stalled ==> n + Waiting() <= w
        decreases if dec.stalled then Waiting() + 1 else 0
      {
        var _ := Clock(false, prog, init);
        n := n + 1;
      }
    }
  }

  /** Bound on the clocks one instruction spends in decode: entries in flight, a division, three
      operands. */
  function LongestStall(stages: nat): nat {
    stages + DIVIDER + DIVIDER + 3 + 1
  }

  /** Any straight-line program, any execute depth, any opcode semantics, any register banks:
      once drained, the registers are as after sequential execution. No stall is longer than
      the bound, and the scoreboard never holds more than one entry per execute stage. */
  method Run(alu: Alu, prog: seq<Insn>, init: seq<int>, stages: nat, hazards: Hazards)
    returns (regs: seq<int>, clocks: nat, maxEntries: nat)
    requires 0 < stages <= 31 && AllFit(prog, |init|)
    ensures regs == State(alu, prog, init, |prog|)
    ensures clocks <= Times(|prog|, LongestStall(stages)) + stages + DIVIDER
    ensures maxEntries <= stages
  {
    hide Retired, Dests, DrainTime, State, Window, LatchedOk, Moved, LongestStall, Times;
    var p := new Pipeline(init, stages, alu, hazards, prog);
    var n := RunProgram(p, prog, init);
    clocks := n;
    p.WaitingBound(prog, init);
    for k := 0 to stages + DIVIDER
      invariant p.Valid(prog, init) && !p.killed && p.IssuedCount() >= |prog| && p.alu == alu
      invariant fresh(p.Repr()) && p.ex.Stages() == stages
      invariant p.Drain() <= stages + DIVIDER - k
      invariant clocks == n + k
    {
      var _ := p.Clock(false, prog, init);
      clocks := clocks + 1;
    }
    p.Drained(prog, init);
    regs, maxEntries := p.rf.regs[..], p.sb.maxEntries;
  }

  function Times(n: nat, each: nat): nat {
    n * each
  }

  lemma TimesMore(n: nat, each: nat)
    ensures Times(n + 1, each) == Times(n, each) + each
  {
  }

  method RunProgram(p: Pipeline, prog: seq<Insn>, ghost init: seq<int>) returns (clocks: nat)
    requires p.Valid(prog, init) && !p.dec.stalled && !p.killed && p.IssuedCount() == 0
    modifies p.Repr()
    ensures p.Valid(prog, init) && !p.killed && p.IssuedCount() == |prog|
    ensures clocks <= Times(|prog|, LongestStall(p.ex.Stages()))
  {
    hide Retired, Dests, DrainTime, State, Window, LatchedOk, Moved, LongestStall, Times;
    clocks := 0;
    for k := 0 to |prog|
      invariant p.Valid(prog, init) && !p.dec.stalled && !p.killed && p.IssuedCount() == k
      invariant clocks <= Times(k, LongestStall(p.ex.Stages()))
    {
      var n := p.IssueNext(prog, init);
      clocks := clocks + n;
      TimesMore(k, LongestStall(p.ex.Stages()));
    }
  }

  /** Flushes at any moment: killed instructions still take their own entry off the scoreboard, so
      that it never under- or overflows. */
  method RunFlushed(alu: Alu, prog: seq<Insn>, init: seq<int>, stages: nat, hazards: Hazards, kills: seq<bool>)
    returns (overflow: bool)
    requires 0 < stages <= 31 && AllFit(prog, |init|)
    ensures !overflow
  {
    hide Retired, Dests, DrainTime, State, Window, LatchedOk, Moved;
    var p := new Pipeline(init, stages, alu, hazards, prog);
    overflow := false;
    for k := 0 to |kills|
      invariant p.Valid(prog, init) && fresh(p.Repr()) && !overflow
    {
      var now := p.Clock(kills[k], prog, init);
      overflow := overflow || now;
    }
  }

  /** The board is no larger than need be: as many independent instructions as there are execute
      stages fill it. */
  method Fill(alu: Alu, prog: seq<Insn>, init: seq<int>, stages: nat, hazards: Hazards) returns (maxEntries: nat)
    requires 0 < stages <= 31 && AllFit(prog, |init|) && |prog| >= stages
    requires forall i :: i in prog ==> i.dst.To? && i.srcs == [] && !i.divides
    ensures maxEntries == stages
  {
    hide Retired, State, Window, LatchedOk, LongestStall, DrainTime, Dests, Moved;
    var p := new Pipeline(init, stages, alu, hazards, prog);
    for k := 0 to stages + 1
      invariant p.Valid(prog, init) && !p.dec.stalled && p.IssuedCount() == k && fresh(p.Repr())
      invariant p.dec.distStall == 0 && p.ex.hold == 0 && p.ex.Stages() == stages && !p.dec.out.insn.divides
      invariant 0 < k <= |prog| ==> p.dec.out.onSb
      invariant Filled(p.ex.Chain(), if k == 0 then 0 else k - 1)
    {
      assert k < |prog| ==> prog[k] in prog;
      if k > 0 {
        FilledStep(alu, p.ex.Chain(), p.dec.out, p.rf.operands, stages, k - 1);
      }
      var _ := p.Clock(false, prog, init);
    }
    FilledDests(p.ex.Chain());
    maxEntries := p.sb.maxEntries;
  }

  /** The youngest k entries are on the scoreboard. */
  predicate Filled(c: seq<Entry>, k: nat) {
    k <= |c| && forall i :: |c| - k <= i < |c| ==> c[i].dequeue
  }

  lemma FilledStep(alu: Alu, c: seq<Entry>, i: Issued, operands: seq<int>, stages: nat, k: nat)
    requires Filled(c, k) && k < |c| && |operands| == 3 && |i.insn.srcs| <= 3 && !i.insn.divides && i.onSb
    ensures Filled(Moved(alu, c, i, operands, false, 0, stages), k + 1)
  {
  }

  lemma {:induction false} FilledDests(c: seq<Entry>)
    requires Filled(c, |c|)
    ensures |Dests(c)| == |c|
  {
    if c != [] {
      FilledDests(c[1..]);
    }
  }

  /** The counters of decode, in terms of the clocks since the last division. */
  lemma CountersTell(stages: nat, since: nat)
    ensures forall op: Insn :: UnitFree(op, stages, since) <==>
              (if op.divides then Left(DIVIDER, since) == 0 else Left(DivHold(stages), since) == 0)
    ensures Left(DIVIDER, since + 1) == Pred(Left(DIVIDER, since))
    ensures Left(DivHold(stages), since + 1) == Pred(Left(DivHold(stages), since))
    ensures Left(DIVIDER, 0) == DIVIDER && Left(DivHold(stages), 0) == DivHold(stages) <= DIVIDER
  {
  }

  /** Operands that are not to be read again hold the right value. */
  predicate LatchedOk(op: Insn, retry: seq<bool>, operands: seq<int>, now: seq<int>)
    requires Fits(op, |now|) && |retry| == |operands| == 3
  {
    forall i :: 0 <= i < |op.srcs| && !retry[i] ==> operands[i] == Value(now, op.srcs[i])
  }

  lemma NothingLatched(op: Insn, operands: seq<int>, now: seq<int>)
    requires Fits(op, |now|) && |operands| == 3
    ensures LatchedOk(op, ALL, operands, now)
  {
  }

  /** An operand read with no write to it in flight has its final value; so has one latched
      before, since nothing was issued in between. */
  lemma OperandsRead(regs: seq<int>, c: seq<Entry>, op: Insn, retry: seq<bool>, wanted: seq<bool>,
                     conflicts: seq<bool>, raw: seq<bool>, was: seq<int>, operands: seq<int>)
    requires Sound(c, |regs|) && Fits(op, |regs|)
    requires |retry| == |wanted| == |conflicts| == |raw| == |was| == |operands| == 3
    requires LatchedOk(op, retry, was, Retired(regs, c))
    requires forall i :: 0 <= i < 3 ==> wanted[i] == (i < |op.srcs| && retry[i])
    requires forall i :: 0 <= i < 3 ==> (raw[i] <==> wanted[i] && op.srcs[i].Register? && op.srcs[i].r in Dests(c))
    requires forall i :: 0 <= i < 3 ==>
               operands[i] == if wanted[i] && !conflicts[i] then Value(regs, op.srcs[i]) else was[i]
    requires forall i :: 0 <= i < 3 && conflicts[i] ==> wanted[i]
    ensures LatchedOk(op, Or(conflicts, raw), operands, Retired(regs, c))
    ensures !Any(Or(conflicts, raw)) ==> operands[..|op.srcs|] == Values(Retired(regs, c), op.srcs)
  {
    hide Retired, Dests;
    var now := Retired(regs, c);
    forall i | 0 <= i < |op.srcs| && !conflicts[i] && !raw[i]
      ensures operands[i] == Value(now, op.srcs[i])
    {
      var o := op.srcs[i];
      if wanted[i] && o.Register? {
        assert o in op.srcs;
        NotInFlight(regs, c, o.r);
      }
    }
    if !Any(Or(conflicts, raw)) {
      assert forall i :: 0 <= i < |op.srcs| ==> !conflicts[i] && !raw[i];
    }
  }

  lemma NothingWanted(conflicts: seq<bool>, raw: seq<bool>)
    requires |conflicts| == |raw| == 3
    ensures (forall i :: 0 <= i < 3 ==> !conflicts[i] && !raw[i]) ==> !Any(Or(conflicts, raw))
  {
  }

  lemma NothingBlocked(h: Hazards, op: Insn, retry: seq<bool>, inFlight: seq<nat>, conflicts: seq<bool>,
                       raw: seq<bool>)
    requires |retry| == |conflicts| == |raw| == 3 && |op.srcs| <= 3
    requires conflicts == Conflicts(h, Unread(op, retry), op.srcs)
    requires forall i :: 0 <= i < 3 ==>
               (raw[i] <==> Unread(op, retry)[i] && op.srcs[i].Register? && op.srcs[i].r in inFlight)
    ensures Any(Or(conflicts, raw)) <==> !OperandsFree(h, op, retry, inFlight)
  {
    hide Conflicts;
  }

  lemma AllThree()
    ensures Count(ALL) == 3
  {
  }

  lemma OneMore(alu: Alu, prog: seq<Insn>, init: seq<int>, k: nat, operands: seq<int>)
    requires AllFit(prog, |init|) && |operands| == 3
    requires operands[..|At(prog, k).srcs|] == Values(State(alu, prog, init, k), At(prog, k).srcs)
    ensures var op := At(prog, k);
            Written(State(alu, prog, init, k), Result(alu, Issued(op, op.dst.To?), operands, false))
              == State(alu, prog, init, k + 1)
  {
  }

  /** A stall never asks for more operands again, and for fewer unless a write is in flight. */
  lemma RetriesShrink(retry: seq<bool>, wanted: seq<bool>, conflicts: seq<bool>, raw: seq<bool>)
    requires |retry| == |wanted| == |conflicts| == |raw| == 3
    requires forall i :: 0 <= i < 3 ==> (wanted[i] ==> retry[i]) && (conflicts[i] ==> wanted[i]) && (raw[i] ==>
               wanted[i])
    requires (exists i :: 0 <= i < 3 && wanted[i]) ==> exists i :: 0 <= i < 3 && wanted[i] && !conflicts[i]
    ensures Count(Or(conflicts, raw)) <= Count(retry) <= 3
    ensures (forall i :: 0 <= i < 3 ==> !raw[i]) && Any(Or(conflicts, raw)) ==>
              Count(Or(conflicts, raw)) < Count(retry)
  {
  }
}
