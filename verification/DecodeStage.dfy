/** Single-stage decode: requests operands, stalls on hazards, issues to execute. */
module DecodeStages {
  import opened ScalarCode
  import opened ExecuteStages

  const ALL := [true, true, true]

  predicate Any(m: seq<bool>)
    requires |m| == 3
  {
    m[0] || m[1] || m[2]
  }

  function Or(a: seq<bool>, b: seq<bool>): (c: seq<bool>)
    requires |a| == |b| == 3
    ensures |c| == 3
  {
    [a[0] || b[0], a[1] || b[1], a[2] || b[2]]
  }

  /** What is left of n after some clocks. */
  function Left(n: nat, since: nat): nat {
    if since < n then n - since else 0
  }

  function Pred(n: nat): nat {
    if n > 0 then n - 1 else 0
  }

  class DecodeStage {
    const stages: nat  // of execute
    var op: Insn
    var onSb: bool
    var stalled: bool
    var retry: seq<bool>
    var pipeStall: nat
    var distStall: nat
    var out: Issued
    var enqueue: bool
    var reg: nat

    constructor (stages: nat)
      ensures this.stages == stages && op == NOP && !stalled && retry == ALL && pipeStall == distStall == 0
      ensures out == Issued(NOP, false) && !enqueue
    {
      this.stages := stages;
      op, onSb, stalled, retry := NOP, false, false, ALL;
      pipeStall, distStall := 0, 0;
      out, enqueue, reg := Issued(NOP, false), false, 0;
    }

    /** Go on with the instruction that stalled, or take the next. */
    method Select(fetched: Insn)
      modifies `op, `onSb
      ensures op == (if stalled then old(op) else fetched) && (onSb ==> stalled && old(onSb))
    {
      if !stalled {
        op, onSb := fetched, false;
      }
    }

    /** Only operands that have to be read again are requested. */
    method Requests() returns (wanted: seq<bool>)
      requires |retry| == 3 && |op.srcs| <= 3
      ensures |wanted| == 3 && forall i :: 0 <= i < 3 ==> wanted[i] == (i < |op.srcs| && retry[i])
    {
      wanted := [false, false, false];
      for i := 0 to |op.srcs|
        invariant |wanted| == 3 && forall j :: 0 <= j < 3 ==> wanted[j] == (j < i && retry[j])
      {
        if retry[i] {
          wanted := wanted[i := true];
        }
      }
    }

    /** Another division waits for the divider, anything else for the execute pipeline. */
    predicate CanIssue()
      reads this
    {
      if op.divides then distStall == 0 else pipeStall == 0
    }

    method Issue(conflicts: seq<bool>, raw: seq<bool>)
      requires |conflicts| == |raw| == 3
      modifies this
      ensures op == old(op) && stalled == (Any(Or(conflicts, raw)) || !old(CanIssue()))
      ensures retry == if stalled then Or(conflicts, raw) else ALL
      ensures out == if stalled then Issued(NOP, false) else Issued(op, old(onSb) || op.dst.To?)
      ensures enqueue == (!stalled && op.dst.To? && !old(onSb)) && (enqueue ==> reg == op.dst.r)
      ensures onSb == (old(onSb) || (!stalled && op.dst.To?))
      ensures var divides := !stalled && op.divides;
              && pipeStall == (if divides then DivHold(stages) else Pred(old(pipeStall)))
              && distStall == (if divides then DIVIDER else Pred(old(distStall)))
    {
      retry := Or(conflicts, raw);
      var free := CanIssue();
      pipeStall, distStall := Pred(pipeStall), Pred(distStall);
      if Any(retry) || !free {
        out, enqueue, stalled := Issued(NOP, false), false, true;
      } else {
        if op.dst.To? {
          enqueue := !onSb;
          onSb := true;
          reg := op.dst.r;
        } else {
          enqueue := false;
        }
        out := Issued(op, onSb);
        if op.divides {
          pipeStall, distStall := DivHold(stages), DIVIDER;
        }
        retry, stalled := ALL, false;
      }
    }
  }
}
