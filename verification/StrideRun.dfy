/** Whole requests: the bursts a sequencer emits for one descriptor, and what they add up to. */
module StrideRun {
  import opened Arith
  import opened Stride
  import opened StrideArithmetic
  import opened StrideLines
  import opened StrideSequencing

  // ----- What the bursts of a request should be

  function Addrs(bs: seq<Burst>): (r: seq<int>)
    ensures |r| == |bs| && forall i :: 0 <= i < |bs| ==> r[i] == bs[i].addr
  {
    if bs == [] then [] else Addrs(bs[..|bs| - 1]) + [bs[|bs| - 1].addr]
  }

  /** The windows that hold a requested word, in increasing order and no other; and in their
      masks each requested word and nothing else. */
  ghost predicate ExactCover(d: Descriptor, w: nat, origin: int, bs: seq<Burst>)
    requires w > 0 && origin <= EndAddr(d)
  {
    && Addrs(bs) == Cover(d, w, origin)
    && forall i :: 0 <= i < |bs| ==> ExactMask(d, w, bs[i])
  }

  ghost predicate ExactMask(d: Descriptor, w: nat, b: Burst) {
    |b.mask| == w && forall l :: 0 <= l < w ==> b.mask[l] == Requested(d, b.addr + l)
  }

  predicate CoverCondition(d: Descriptor, off: nat)
    requires d.period > 0
  {
    d.words >= 1 && (off <= d.period || TWO_64 % d.period == 0 || d.words >= d.period)
  }

  /** Every lane knows the line its word is on. */
  ghost predicate LinesExact(d: Descriptor, w: nat, bs: seq<Burst>)
    requires d.period > 0
  {
    forall i :: 0 <= i < |bs| ==>
      |bs[i].line| == w && forall l :: 0 <= l < w ==> bs[i].line[l] == TrueLine(d, bs[i].addr + l)
  }

  /** Lines of the selected words: right throughout, or behind in the last period; never ahead,
      and never before the first line. */
  ghost predicate SelectedLines(d: Descriptor, w: nat, b: Burst, safe: bool)
    requires d.period > 0
  {
    && |b.mask| == |b.line| == w
    && forall l :: 0 <= l < w && b.mask[l] ==>
         && d.dstOffY <= b.line[l] <= TrueLine(d, b.addr + l)
         && (if safe then b.line[l] == TrueLine(d, b.addr + l)
             else PeriodOf(d, b.addr + l) == d.count - 1 ==> b.line[l] < TrueLine(d, b.addr + l))
  }

  /** Windows on the grid of the first one, one after the other, that start before the end. */
  predicate Rising(d: Descriptor, w: nat, origin: int, bs: seq<Burst>)
    requires w > 0
  {
    && bs != [] && bs[0].addr == origin
    && (forall i :: 0 <= i < |bs| ==> origin <= bs[i].addr && (bs[i].addr - origin) % w == 0)
    && (forall i, j :: 0 <= i < j < |bs| ==> bs[i].addr < bs[j].addr < EndAddr(d))
  }

  /** Every lane knows the position of its word within the period. */
  ghost predicate PhasesExact(d: Descriptor, w: nat, bs: seq<Burst>)
    requires d.period > 0
  {
    forall i :: 0 <= i < |bs| ==>
      |bs[i].phase| == w && forall l :: 0 <= l < w ==> bs[i].phase[l] == Phase(d, bs[i].addr + l)
  }

  /** Scratchpad word meant for requested word a. */
  function Destination(d: Descriptor, a: int): int
    requires d.period > 0
  {
    d.dstOffset + (PeriodOf(d, a) * d.dstPeriod + Phase(d, a))
  }

  /** The words of a burst go, in order, to the scratchpad words from its offset on. */
  ghost predicate PlacedBurst(d: Descriptor, b: Burst)
    requires d.period > 0
  {
    forall l :: 0 <= l < |b.mask| && b.mask[l] ==>
      b.spOffset + Ones(b.mask[..l]) == Destination(d, b.addr + l)
  }

  ghost predicate PlacementExact(d: Descriptor, bs: seq<Burst>)
    requires d.period > 0
  {
    forall i :: 0 <= i < |bs| ==> PlacedBurst(d, bs[i])
  }

  ghost predicate PlacementCondition(d: Descriptor, w: nat, origin: int)
    requires w > 0
  {
    d.count == 1 || d.words == d.dstPeriod || (d.words < d.dstPeriod && LineSafe(d, w, origin))
  }

  /** Word a is word x of period k of the request. */
  predicate IsWordOf(d: Descriptor, a: int, k: nat, x: nat) {
    k < d.count && x < d.words && a == PeriodStart(d, k) + x
  }

  /** Each word of each period goes to its own scratchpad word. Without overlapping periods this is
      PlacementExact. */
  ghost predicate DeliversAll(d: Descriptor, bs: seq<Burst>) {
    forall i, l :: 0 <= i < |bs| && 0 <= l < |bs[i].mask| && bs[i].mask[l] ==>
      Delivers(d, bs[i].addr + l, bs[i].spOffset + Ones(bs[i].mask[..l]))
  }

  /** Scratchpad word y is meant for word a in all periods that it is in. */
  ghost predicate Delivers(d: Descriptor, a: int, y: int) {
    forall k: nat, x: nat :: IsWordOf(d, a, k, x) ==> y == d.dstOffset + k * d.dstPeriod + x
  }

  /** Each burst announces the next one; only the final one is last. */
  ghost predicate Announced(bs: seq<Burst>) {
    AnnouncedTo(bs, false, NO_NEXT)
  }

  ghost predicate AnnouncedTo(bs: seq<Burst>, running: bool, next: int) {
    && (forall i :: 0 <= i < |bs| - 1 ==> !bs[i].last)
    && (forall i, j :: 0 <= i && j == i + 1 && j < |bs| ==> bs[i].addrNext == bs[j].addr)
    && (bs != [] ==> bs[|bs| - 1].last == !running && bs[|bs| - 1].addrNext == next)
  }

  // ----- What the sequencer's clocks give

  ghost predicate LanePhases(d: Descriptor, w: nat, shift: nat, b: Burst)
    requires d.period > 0
  {
    |b.phase| == w && forall l :: 0 <= l < w ==> b.phase[l] == ShiftedPhase(d, shift, b.addr + l)
  }

  ghost predicate BurstOk(d: Descriptor, w: nat, shift: nat, origin: int, b: Burst, lost: nat)
    requires d.period > 0
  {
    && |b.mask| == |b.line| == w && LanePhases(d, w, shift, b)
    && (forall l :: 0 <= l < w ==> b.mask[l] == Selected(d, shift, b.addr + l))
    && (shift == 0 ==> forall l :: 0 <= l < w ==> b.line[l] == TrueLine(d, b.addr + l) - lost)
    && (d.target == Scratchpad ==>
          b.spOffset == d.dstOffset + CountSelected(d, shift, origin, b.addr)
                        + LineSpace(d, PeriodOf(d, b.addr + w - 1) - lost))
  }

  /** Scratchpad space left out between lines, after n of them. */
  function LineSpace(d: Descriptor, n: int): int {
    if SpLineIncrement(d) > 0 then n * SpLineIncrement(d) else 0
  }

  function Increment(d: Descriptor, w: nat, shift: nat, s: int): int
    requires d.period > 0 && w > 0
  {
    AddressIncrement(d, w, ShiftedPhase(d, shift, s + w - 1))
  }

  ghost predicate Move(d: Descriptor, w: nat, shift: nat, s: int, lost: nat, s': int, lost': nat)
    requires d.period > 0 && w > 0
  {
    var inc := Increment(d, w, shift, s);
    && s' == s + inc && w <= inc && inc % w == 0
    && Live(d, w, s')
    && (forall a :: s + w <= a < s' ==> !Selected(d, shift, a))
    && lost' == lost + if w <= d.period && inc > d.period then 1 else 0
  }

  /** bs with lines lost before each burst, up to but not including the one at address next. */
  ghost predicate IsRun(d: Descriptor, w: nat, shift: nat, origin: int,
                        bs: seq<Burst>, lost: seq<nat>, next: int, lostNext: nat)
    requires d.period > 0 && w > 0
  {
    && |lost| == |bs|
    && (if bs == [] then next == origin && lostNext == 0 && Live(d, w, next)
        else
          var n := |bs| - 1;
          && IsRun(d, w, shift, origin, bs[..n], lost[..n], bs[n].addr, lost[n])
          && BurstOk(d, w, shift, origin, bs[n], lost[n])
          && Move(d, w, shift, bs[n].addr, lost[n], next, lostNext)
          && (n > 0 ==> bs[n].addr < EndAddr(d)))
  }

  lemma {:induction false} RunStays(d: Descriptor, w: nat, shift: nat, origin: int,
                                    bs: seq<Burst>, lost: seq<nat>, next: int, lostNext: nat)
    requires d.period > 0 && w > 0 && IsRun(d, w, shift, origin, bs, lost, next, lostNext)
    ensures origin <= next && (next - origin) % w == 0 && Live(d, w, next)
  {
    hide Live, BurstOk, AddressIncrement;
    if bs != [] {
      var n := |bs| - 1;
      RunStays(d, w, shift, origin, bs[..n], lost[..n], bs[n].addr, lost[n]);
      AddAligned(bs[n].addr - origin, next - bs[n].addr, w);
    }
  }

  lemma AddAligned(a: int, b: int, w: nat)
    requires w > 0 && a % w == 0 && b % w == 0
    ensures (a + b) % w == 0
  {
    AddMultiple(a, b / w, w);
  }

  // ----- The cover

  /** Two starts aligned to the same grid, as grid positions. */
  lemma GridPosition(origin: int, w: nat, s: int) returns (j: int)
    requires w > 0 && (s - origin) % w == 0
    ensures s == WindowStart(origin, w, j)
    ensures origin <= s ==> 0 <= j
  {
    j := (s - origin) / w;
    assert s - origin == j * w;
    if j < 0 {
      MulStep(j, 0, w);
    }
  }

  lemma {:induction false} SkipWindows(d: Descriptor, w: nat, origin: int, n: nat, m: nat)
    requires n <= m
    requires forall j :: n <= j < m ==> !Hit(d, w, WindowStart(origin, w, j))
    ensures HitWindows(d, w, origin, m) == HitWindows(d, w, origin, n)
  {
    if n < m {
      SkipWindows(d, w, origin, n, m - 1);
    }
  }

  lemma NotHit(d: Descriptor, w: nat, lo: int, hi: int, s: int)
    requires d.period > 0 && d.count > 0
    requires lo <= s && s + w <= hi
    requires forall a :: lo <= a < hi ==> !Selected(d, 0, a)
    ensures !Hit(d, w, s)
  {
    NoShift(d, 0);
    forall a | s <= a < s + w
      ensures !Requested(d, a)
    {
      assert !Selected(d, 0, a);
      RequestedIsPhase(d, a);
    }
  }

  /** One move from a window that is hit: only that window is added to the list. */
  lemma CoverStep(d: Descriptor, w: nat, shift: nat, origin: int, m: nat, lost: nat, next: int,
                  lostNext: nat) returns (n: nat)
    requires FieldWidths(d, w) && (d.period >= w ==> shift == 0)
    requires var s := WindowStart(origin, w, m);
             Hit(d, w, s) && Move(d, w, shift, s, lost, next, lostNext)
    ensures next == WindowStart(origin, w, n)
    ensures HitWindows(d, w, origin, n)
         == HitWindows(d, w, origin, m) + [WindowStart(origin, w, m)]
  {
    hide AddressIncrement, Live, Hit, EndAddr;
    var s := WindowStart(origin, w, m);
    AddMultiple(0, m, w);
    AddAligned(s - origin, next - s, w);
    n := GridPosition(origin, w, next);
    WindowOrder(origin, w, m, n);
    if shift == 0 {
      forall j | m + 1 <= j < n
        ensures !Hit(d, w, WindowStart(origin, w, j))
      {
        WindowOrder(origin, w, m, j);
        WindowOrder(origin, w, j, n);
        NotHit(d, w, s + w, next, WindowStart(origin, w, j));
      }
    } else {
      PlainIncrement(d, w, ShiftedPhase(d, shift, s + w - 1));
      WindowOrder(origin, w, m + 1, n);
    }
    SkipWindows(d, w, origin, m + 1, n);
  }

  /** The bursts up to any point of a run list the windows hit up to that point. */
  lemma {:induction false} RunCovers(d: Descriptor, w: nat, shift: nat, origin: int,
                                     bs: seq<Burst>, lost: seq<nat>, next: int, lostNext: nat)
    returns (n: nat)
    requires FieldWidths(d, w) && (d.period >= w ==> shift == 0) && 1 <= d.words
    requires d.addr < origin + w && origin < EndAddr(d)
    requires IsRun(d, w, shift, origin, bs, lost, next, lostNext)
    ensures next == WindowStart(origin, w, n)
    ensures Addrs(bs) == HitWindows(d, w, origin, n)
  {
    hide HitWindows, Move, BurstOk;
    if bs == [] {
      EmptyList(d, w, origin);
      n := 0;
    } else {
      var k := |bs| - 1;
      var s := bs[k].addr;
      var m := RunCovers(d, w, shift, origin, bs[..k], lost[..k], s, lost[k]);
      RunStays(d, w, shift, origin, bs[..k], lost[..k], s, lost[k]);
      LivePhaseHits(d, w, s);
      n := CoverStep(d, w, shift, origin, m, lost[k], next, lostNext);
    }
  }

  lemma EmptyList(d: Descriptor, w: nat, origin: int)
    ensures HitWindows(d, w, origin, 0) == [] && WindowStart(origin, w, 0) == origin
  {
  }

  lemma WindowOrder(origin: int, w: nat, i: int, j: int)
    requires w > 0
    ensures i < j <==> WindowStart(origin, w, i) + w <= WindowStart(origin, w, j)
    ensures i < j <==> WindowStart(origin, w, i) < WindowStart(origin, w, j)
  {
    if i < j {
      MulStep(i, j, w);
    } else {
      MulMono(j, i, w);
    }
  }

  /** Counting windows to the end of the request or past it gives the same cover. */
  lemma CoverIs(d: Descriptor, w: nat, origin: int, n: nat)
    requires w > 0 && 1 <= d.count && origin <= EndAddr(d) <= WindowStart(origin, w, n)
    ensures HitWindows(d, w, origin, n) == Cover(d, w, origin)
  {
    var size := EndAddr(d) - origin;
    var m := DivUp(size, w);
    var q, r := (size + w - 1) / w, (size + w - 1) % w;
    assert size + w - 1 == q * w + r;
    assert WindowStart(origin, w, m) >= EndAddr(d);
    if m <= n {
      HitWindowsStable(d, w, origin, m, n);
    } else {
      HitWindowsStable(d, w, origin, n, m);
    }
  }

  /** When the phases are right, or do not matter, the masks are the requested words. */
  lemma MasksExact(d: Descriptor, w: nat, shift: nat, origin: int,
                   bs: seq<Burst>, lost: seq<nat>, next: int, lostNext: nat)
    requires d.period > 0 && d.count > 0 && w > 0 && (shift == 0 || d.words >= d.period)
    requires IsRun(d, w, shift, origin, bs, lost, next, lostNext)
    ensures forall i :: 0 <= i < |bs| ==> ExactMask(d, w, bs[i])
  {
    if bs != [] {
      var n := |bs| - 1;
      MasksExact(d, w, shift, origin, bs[..n], lost[..n], bs[n].addr, lost[n]);
      forall l | 0 <= l < w
        ensures bs[n].mask[l] == Requested(d, bs[n].addr + l)
      {
        RequestedIsPhase(d, bs[n].addr + l);
        if shift == 0 {
          NoShift(d, shift);
        }
      }
    }
  }

  lemma {:induction false} AllBurstsOk(d: Descriptor, w: nat, shift: nat, origin: int,
                                       bs: seq<Burst>, lost: seq<nat>, next: int, lostNext: nat)
    requires d.period > 0 && w > 0 && IsRun(d, w, shift, origin, bs, lost, next, lostNext)
    ensures |lost| == |bs| && forall i :: 0 <= i < |bs| ==> BurstOk(d, w, shift, origin, bs[i], lost[i])
  {
    if bs != [] {
      var n := |bs| - 1;
      AllBurstsOk(d, w, shift, origin, bs[..n], lost[..n], bs[n].addr, lost[n]);
    }
  }

  lemma AllLanePhases(d: Descriptor, w: nat, shift: nat, origin: int, bs: seq<Burst>, lost: seq<nat>,
                      next: int, lostNext: nat)
    requires d.period > 0 && w > 0 && IsRun(d, w, shift, origin, bs, lost, next, lostNext)
    ensures forall i :: 0 <= i < |bs| ==> LanePhases(d, w, shift, bs[i])
  {
    hide IsRun, LanePhases;
    AllBurstsOk(d, w, shift, origin, bs, lost, next, lostNext);
    assert forall i :: 0 <= i < |bs| ==> BurstOk(d, w, shift, origin, bs[i], lost[i]);
  }

  /** A wrong first phase makes some requested word of the first period look unrequested. */
  lemma ShiftedMiss(d: Descriptor, shift: nat) returns (a: int)
    requires 1 <= d.words < d.period && 1 <= d.count && 0 < shift < d.period
    ensures d.addr <= a < d.addr + d.words && Requested(d, a) && !Selected(d, shift, a)
  {
    var x := if shift >= d.words then 0 else d.words - shift;
    a := d.addr + x;
    assert PeriodStart(d, 0) <= a < PeriodStart(d, 0) + d.words;
    DivModUnique(x + shift, d.period, 0, x + shift);
  }

  /** The window of a requested word belongs to the cover. */
  lemma RequestedIsCovered(d: Descriptor, w: nat, origin: int, n: nat, a: int) returns (s: int)
    requires w > 0 && origin <= a < WindowStart(origin, w, n) && Requested(d, a)
    ensures s <= a < s + w && s in HitWindows(d, w, origin, n)
  {
    var j := (a - origin) / w;
    ModBound(a - origin, w);
    s := WindowStart(origin, w, j);
    assert a - origin == j * w + (a - origin) % w;
    assert Hit(d, w, s);
    if j >= n {
      MulMono(n, j, w);
    }
    HitWindowsMembers(d, w, origin, n);
  }

  /** The bursts of a complete run cover the request exactly if and only if there is a word to
      transfer and the phases start right or do not matter. */
  lemma CoverTheorem(d: Descriptor, w: nat, off: nat, bs: seq<Burst>, lost: seq<nat>,
                     next: int, lostNext: nat)
    requires FieldWidths(d, w) && off < w
    requires IsRun(d, w, PhaseShift(d, off), d.addr - off, bs, lost, next, lostNext)
    requires bs != [] && next >= EndAddr(d)
    ensures d.addr - off <= EndAddr(d)
    ensures ExactCover(d, w, d.addr - off, bs) <==> CoverCondition(d, off)
  {
    var origin, shift := d.addr - off, PhaseShift(d, off);
    MulMono(0, d.count - 1, d.period);
    if d.words == 0 {
      NothingToCover(d, w, origin);
      assert |Addrs(bs)| > 0;
    } else {
      var n := RunCovers(d, w, shift, origin, bs, lost, next, lostNext);
      CoverIs(d, w, origin, n);
      if shift == 0 || d.words >= d.period {
        MasksExact(d, w, shift, origin, bs, lost, next, lostNext);
      } else {
        assert !CoverCondition(d, off);
        ShiftedCoverIsWrong(d, w, shift, origin, bs, lost, next, lostNext, n);
      }
    }
  }

  lemma NothingToCover(d: Descriptor, w: nat, origin: int)
    requires w > 0 && origin <= EndAddr(d) && d.words == 0
    ensures Cover(d, w, origin) == []
  {
    forall a
      ensures !Requested(d, a)
    {
    }
    SkipWindows(d, w, origin, 0, DivUp(EndAddr(d) - origin, w));
  }

  lemma ShiftedCoverIsWrong(d: Descriptor, w: nat, shift: nat, origin: int, bs: seq<Burst>,
                            lost: seq<nat>, next: int, lostNext: nat, n: nat)
    requires FieldWidths(d, w) && 1 <= d.words < d.period && 0 < shift < d.period
    requires origin <= d.addr && EndAddr(d) <= WindowStart(origin, w, n)
    requires IsRun(d, w, shift, origin, bs, lost, next, lostNext)
    requires Addrs(bs) == HitWindows(d, w, origin, n)
    ensures exists i :: 0 <= i < |bs| && !ExactMask(d, w, bs[i])
  {
    hide IsRun, HitWindows, Requested, WindowStart;
    var a := ShiftedMiss(d, shift);
    assert a < EndAddr(d) by { MulMono(0, d.count - 1, d.period); }
    var s := RequestedIsCovered(d, w, origin, n, a);
    AllBurstsOk(d, w, shift, origin, bs, lost, next, lostNext);
    var i :| 0 <= i < |bs| && Addrs(bs)[i] == s;
    assert !bs[i].mask[a - s];
  }

  // ----- The lines

  lemma FirstWindowSafe(d: Descriptor, w: nat, origin: int)
    requires w > 0 && d.period > 0 && origin <= d.addr
    ensures SafeBelow(d, w, origin, origin + w)
  {
    forall j | 1 <= j
      ensures PeriodStart(d, j) >= d.addr + d.period
    {
      LaterPeriod(d, 1, j);
    }
  }

  lemma LostStep(d: Descriptor, w: nat, origin: int, s: int, lost: nat, next: int, lostNext: nat)
    requires FieldWidths(d, w) && 1 <= d.words && Move(d, w, 0, s, lost, next, lostNext)
    requires d.addr < s + w && next < EndAddr(d) && Live(d, w, s)
    requires (s - origin) % w == 0 && (next - origin) % w == 0
    ensures SafeBelow(d, w, origin, next + w) <==> SafeBelow(d, w, origin, s + w) && lostNext == lost
  {
    hide AddressIncrement;
    NoShift(d, 0);
    if d.words > d.period {
      PlainIncrement(d, w, ShiftedPhase(d, 0, s + w - 1));
      SimpleConditionsAreSafe(d, w, origin);
    } else if w <= d.period {
      hide SafeBelow;
      SafeStep(d, w, origin, s, next - s);
    }
  }

  /** Lines are lost before a burst exactly when a period up to it was reached by a move of
      more than a period. */
  lemma {:induction false} LostIsUnsafe(d: Descriptor, w: nat, origin: int,
                                        bs: seq<Burst>, lost: seq<nat>, next: int, lostNext: nat)
    requires FieldWidths(d, w) && 1 <= d.words
    requires origin <= d.addr < origin + w && next < EndAddr(d)
    requires IsRun(d, w, 0, origin, bs, lost, next, lostNext)
    ensures lostNext == 0 <==> SafeBelow(d, w, origin, next + w)
  {
    hide SafeBelow, BurstOk, Live, AddressIncrement, EndAddr;
    if bs == [] {
      FirstWindowSafe(d, w, origin);
    } else {
      var n := |bs| - 1;
      var s := bs[n].addr;
      RunStays(d, w, 0, origin, bs[..n], lost[..n], s, lost[n]);
      RunStays(d, w, 0, origin, bs, lost, next, lostNext);
      LostIsUnsafe(d, w, origin, bs[..n], lost[..n], s, lost[n]);
      LostStep(d, w, origin, s, lost[n], next, lostNext);
    }
  }

  lemma {:induction false} LostGrows(d: Descriptor, w: nat, shift: nat, origin: int,
                                     bs: seq<Burst>, lost: seq<nat>, next: int, lostNext: nat)
    requires d.period > 0 && w > 0 && IsRun(d, w, shift, origin, bs, lost, next, lostNext)
    ensures forall i :: 0 <= i < |bs| ==> lost[i] <= lostNext
  {
    if bs != [] {
      var n := |bs| - 1;
      LostGrows(d, w, shift, origin, bs[..n], lost[..n], bs[n].addr, lost[n]);
    }
  }

  /** The last burst is in the window of the last period, so it decides safety. */
  lemma LastBurstDecides(d: Descriptor, w: nat, origin: int, s: int, next: int)
    requires FieldWidths(d, w) && 1 <= d.words && next >= EndAddr(d)
    requires forall a :: s + w <= a < next ==> !Selected(d, 0, a)
    ensures SafeBelow(d, w, origin, s + w) <==> LineSafe(d, w, origin)
  {
    forall j | 1 <= j < d.count
      ensures PeriodStart(d, j) < s + w
    {
      var x := PeriodStart(d, j);
      LaterPeriod(d, j, d.count - 1);
      LaterPeriod(d, 0, j);
      PeriodUnique(d, x, j, 0);
      NoShift(d, 0);
      assert Selected(d, 0, x);
    }
  }

  /** The phase registers are true remainders throughout a request, also those of the words
      before the first one, exactly if the first phase is computed without a wrap or the wrap is a
      whole number of periods. */
  lemma PhasesTheorem(d: Descriptor, w: nat, shift: nat, origin: int, bs: seq<Burst>, lost: seq<nat>,
                      next: int, lostNext: nat)
    requires d.period > 0 && w > 0 && shift < d.period && bs != []
    requires IsRun(d, w, shift, origin, bs, lost, next, lostNext)
    ensures PhasesExact(d, w, bs) <==> shift == 0
  {
    hide IsRun, TrueLine;
    AllBurstsOk(d, w, shift, origin, bs, lost, next, lostNext);
    assert forall i :: 0 <= i < |bs| ==> BurstOk(d, w, shift, origin, bs[i], lost[i]) && LanePhases(d, w, shift, bs[i]);
    if shift > 0 {
      ShiftShows(d, shift, bs[0].addr + 0);
      assert bs[0].phase[0] == ShiftedPhase(d, shift, bs[0].addr + 0);
    }
  }

  lemma ShiftShows(d: Descriptor, shift: nat, a: int)
    requires 0 < shift < d.period
    ensures ShiftedPhase(d, shift, a) != Phase(d, a)
  {
    var x := a - d.addr;
    var q, r := x / d.period, x % d.period;
    assert x == q * d.period + r;
    if r + shift < d.period {
      DivModUnique(x + shift, d.period, q, r + shift);
    } else {
      assert (q + 1) * d.period == q * d.period + d.period;
      DivModUnique(x + shift, d.period, q + 1, r + shift - d.period);
    }
  }

  /** The line registers are right throughout a request exactly for the descriptors whose
      periods are never further than a period apart in windows. */
  lemma LinesTheorem(d: Descriptor, w: nat, origin: int, bs: seq<Burst>, lost: seq<nat>,
                     next: int, lostNext: nat)
    requires FieldWidths(d, w) && 1 <= d.words && origin <= d.addr < origin + w
    requires IsRun(d, w, 0, origin, bs, lost, next, lostNext)
    requires bs != [] && next >= EndAddr(d)
    ensures LinesExact(d, w, bs) <==> LineSafe(d, w, origin)
    ensures LineSafe(d, w, origin) <==> forall i :: 0 <= i < |bs| ==> lost[i] == 0
    ensures LineSafe(d, w, origin) <==> lost[|bs| - 1] == 0
  {
    hide LineSafe, SafeBelow, LinesExact, BurstOk, Live, AddressIncrement, TrueLine, EndAddr;
    var n := |bs| - 1;
    StartsBeforeEnd(d, 0);
    LostIsUnsafe(d, w, origin, bs[..n], lost[..n], bs[n].addr, lost[n]);
    LastBurstDecides(d, w, origin, bs[n].addr, next);
    LostGrows(d, w, 0, origin, bs[..n], lost[..n], bs[n].addr, lost[n]);
    AllBurstsOk(d, w, 0, origin, bs, lost, next, lostNext);
    LostIsWrongLine(d, w, origin, bs, lost);
  }

  lemma LostIsWrongLine(d: Descriptor, w: nat, origin: int, bs: seq<Burst>, lost: seq<nat>)
    requires d.period > 0 && w > 0 && |bs| == |lost| > 0
    requires forall i :: 0 <= i < |bs| ==> BurstOk(d, w, 0, origin, bs[i], lost[i])
    requires forall i :: 0 <= i < |bs| ==> lost[i] <= lost[|bs| - 1]
    ensures LinesExact(d, w, bs) <==> lost[|bs| - 1] == 0
  {
    hide TrueLine;
    var n := |bs| - 1;
    assert bs[n].line[0] == TrueLine(d, bs[n].addr + 0) - lost[n];
  }

  /** No selected word from s on is in one of the first `lost` periods. */
  ghost predicate Ahead(d: Descriptor, s: int, lost: nat)
    requires d.period > 0
  {
    forall x :: s <= x && Selected(d, 0, x) ==> lost <= PeriodOf(d, x)
  }

  lemma PeriodsGrow(d: Descriptor, x: int, y: int)
    requires d.period > 0 && x <= y
    ensures PeriodOf(d, x) <= PeriodOf(d, y)
    ensures PeriodOf(d, x) == PeriodOf(d, y) ==> Phase(d, y) == Phase(d, x) + (y - x)
  {
    DivMono(x - d.addr, y - d.addr, d.period);
    PeriodSplit(d, x);
    PeriodSplit(d, y);
  }

  /** A move of more than a period leaves the last word of a period behind. */
  lemma LongMoveAhead(d: Descriptor, w: nat, s: int, next: int, lost: nat, x: int)
    requires FieldWidths(d, w) && w <= d.period && 1 <= d.words <= d.period
    requires d.addr < s + w && Live(d, w, s) && Ahead(d, s, lost)
    requires next == s + AddressIncrement(d, w, Phase(d, s + w - 1)) && next - s > d.period
    requires next <= x && Selected(d, 0, x)
    ensures lost + 1 <= PeriodOf(d, x)
  {
    hide AddressIncrement;
    var b := s + w - 1;
    IncrementSkipsOnlyEmpty(d, w, b, next - s);
    NoShift(d, 0);
    PeriodsGrow(d, b, x);
    PeriodSplit(d, b);
    var k := PeriodOf(d, b);
    var y := PeriodStart(d, k) + d.words - 1;
    assert PeriodOf(d, x) > k;
    RequestedIsPhase(d, x);
    PeriodUnique(d, y, k, d.words - 1);
    assert s <= y <= b < x;
    RequestedIsPhase(d, y);
    assert Selected(d, 0, y);
  }

  lemma AheadStep(d: Descriptor, w: nat, s: int, lost: nat, next: int, lostNext: nat)
    requires FieldWidths(d, w) && 1 <= d.words <= d.period && Move(d, w, 0, s, lost, next, lostNext)
    requires d.addr < s + w && Live(d, w, s) && Ahead(d, s, lost)
    ensures Ahead(d, next, lostNext)
  {
    hide AddressIncrement, Live;
    NoShift(d, 0);
    if w <= d.period && next - s > d.period {
      forall x | next <= x && Selected(d, 0, x)
        ensures lostNext <= PeriodOf(d, x)
      {
        LongMoveAhead(d, w, s, next, lost, x);
      }
    }
  }

  lemma {:induction false} RunAhead(d: Descriptor, w: nat, origin: int, bs: seq<Burst>, lost: seq<nat>,
                                    next: int, lostNext: nat)
    requires FieldWidths(d, w) && 1 <= d.words <= d.period && origin <= d.addr < origin + w
    requires IsRun(d, w, 0, origin, bs, lost, next, lostNext)
    ensures Ahead(d, next, lostNext)
  {
    hide AddressIncrement, Live, BurstOk, Move, Ahead;
    if bs == [] {
      NothingLost(d, next);
    } else {
      var n := |bs| - 1;
      RunAhead(d, w, origin, bs[..n], lost[..n], bs[n].addr, lost[n]);
      RunStays(d, w, 0, origin, bs[..n], lost[..n], bs[n].addr, lost[n]);
      AheadStep(d, w, bs[n].addr, lost[n], next, lostNext);
    }
  }

  lemma NothingLost(d: Descriptor, s: int)
    requires d.period > 0
    ensures Ahead(d, s, 0)
  {
    forall x | Selected(d, 0, x)
      ensures 0 <= PeriodOf(d, x)
    {
      PeriodSplit(d, x);
    }
  }

  /** From the start of the last period on, safety is decided. */
  lemma LastPeriodDecides(d: Descriptor, w: nat, origin: int, hi: int, x: int)
    requires w > 0 && d.period > 0 && x < hi && PeriodOf(d, x) == d.count - 1
    ensures SafeBelow(d, w, origin, hi) <==> LineSafe(d, w, origin)
  {
    PeriodSplit(d, x);
    forall j | 1 <= j < d.count
      ensures PeriodStart(d, j) < hi
    {
      LaterPeriod(d, j, d.count - 1);
    }
  }

  /** Lines of selected words are those of their periods, short of the lines lost. */
  lemma BurstLines(d: Descriptor, w: nat, origin: int, bs: seq<Burst>, lost: seq<nat>, b: Burst, lostNow: nat)
    requires FieldWidths(d, w) && 1 <= d.words <= d.period && origin <= d.addr < origin + w
    requires IsRun(d, w, 0, origin, bs, lost, b.addr, lostNow) && BurstOk(d, w, 0, origin, b, lostNow)
    ensures SelectedLines(d, w, b, LineSafe(d, w, origin))
  {
    hide IsRun, Live, SafeBelow, LineSafe;
    RunAhead(d, w, origin, bs, lost, b.addr, lostNow);
    RunStays(d, w, 0, origin, bs, lost, b.addr, lostNow);
    forall l | 0 <= l < w && b.mask[l]
      ensures 0 <= lostNow <= PeriodOf(d, b.addr + l)
      ensures LineSafe(d, w, origin) ==> lostNow == 0
      ensures PeriodOf(d, b.addr + l) == d.count - 1 && !LineSafe(d, w, origin) ==> lostNow > 0
    {
      LostIsUnsafe(d, w, origin, bs, lost, b.addr, lostNow);
      if PeriodOf(d, b.addr + l) == d.count - 1 {
        LastPeriodDecides(d, w, origin, b.addr + w, b.addr + l);
      }
      SafeIsSafe(d, w, origin, b.addr + w);
    }
  }

  lemma SafeIsSafe(d: Descriptor, w: nat, origin: int, hi: int)
    requires w > 0
    ensures LineSafe(d, w, origin) ==> SafeBelow(d, w, origin, hi)
  {
  }

  lemma {:induction false} AllSelectedLines(d: Descriptor, w: nat, origin: int, bs: seq<Burst>, lost: seq<nat>,
                                            next: int, lostNext: nat)
    requires FieldWidths(d, w) && 1 <= d.words <= d.period && origin <= d.addr < origin + w
    requires IsRun(d, w, 0, origin, bs, lost, next, lostNext)
    ensures forall i :: 0 <= i < |bs| ==> SelectedLines(d, w, bs[i], LineSafe(d, w, origin))
  {
    hide AddressIncrement, Live, BurstOk, Move, SelectedLines, LineSafe;
    if bs != [] {
      var n := |bs| - 1;
      AllSelectedLines(d, w, origin, bs[..n], lost[..n], bs[n].addr, lost[n]);
      BurstLines(d, w, origin, bs[..n], lost[..n], bs[n], lost[n]);
    }
  }

  lemma {:induction false} RunRises(d: Descriptor, w: nat, shift: nat, origin: int, bs: seq<Burst>, lost: seq<nat>,
                                    next: int, lostNext: nat)
    requires d.period > 0 && w > 0 && IsRun(d, w, shift, origin, bs, lost, next, lostNext) && bs != []
    ensures Rising(d, w, origin, bs) && bs[|bs| - 1].addr < next
  {
    hide AddressIncrement, Live, BurstOk, EndAddr;
    var n := |bs| - 1;
    RunStays(d, w, shift, origin, bs[..n], lost[..n], bs[n].addr, lost[n]);
    if n > 0 {
      RunRises(d, w, shift, origin, bs[..n], lost[..n], bs[n].addr, lost[n]);
      assert forall i :: 0 <= i < n ==> bs[..n][i] == bs[i];
    }
  }

  // ----- The scratchpad placement

  /** Number of words requested before a, in closed form. */
  function Rank(d: Descriptor, a: int): int
    requires d.period > 0
  {
    PeriodOf(d, a) * d.words + Min(Phase(d, a), d.words)
  }

  lemma RankStep(d: Descriptor, a: int)
    requires 1 <= d.words <= d.period
    ensures Rank(d, a + 1) == Rank(d, a) + if Phase(d, a) < d.words then 1 else 0
  {
    var q, r := PeriodOf(d, a), Phase(d, a);
    PeriodSplit(d, a);
    if r + 1 < d.period {
      PeriodUnique(d, a + 1, q, r + 1);
    } else {
      NextStart(d, q);
      PeriodUnique(d, a + 1, q + 1, 0);
      assert (q + 1) * d.words == q * d.words + d.words;
    }
  }

  lemma {:induction false} CountIsRank(d: Descriptor, shift: nat, origin: int, a: int)
    requires 1 <= d.words <= d.period && (shift == 0 || d.words == d.period)
    requires origin <= d.addr <= a <= EndAddr(d)
    ensures CountSelected(d, shift, origin, a) == Rank(d, a)
    decreases a - d.addr
  {
    if a == d.addr {
      CountSelectedNone(d, shift, origin, a);
      PeriodUnique(d, a, 0, 0);
    } else {
      CountIsRank(d, shift, origin, a - 1);
      RankStep(d, a - 1);
      if shift == 0 {
        NoShift(d, shift);
      }
    }
  }

  /** In a scratchpad burst, word a lands this far from its destination. */
  lemma LandsAt(d: Descriptor, w: nat, shift: nat, origin: int, b: Burst, lost: nat, l: nat)
    requires FieldWidths(d, w) && 1 <= d.words <= d.period && d.target == Scratchpad && Accepted(d, w)
    requires (d.period >= w ==> shift == 0) && (shift == 0 || d.words == d.period)
    requires origin <= d.addr && origin <= b.addr && BurstOk(d, w, shift, origin, b, lost)
    requires l < w && b.mask[l]
    ensures b.spOffset + Ones(b.mask[..l]) - Destination(d, b.addr + l)
         == if d.words < d.dstPeriod then (0 - lost) * (d.dstPeriod - d.words)
            else PeriodOf(d, b.addr + l) * (d.words - d.dstPeriod)
  {
    var a := b.addr + l;
    OnesCountSelected(d, shift, b.addr, b.mask[..l]);
    CountSelectedSplit(d, shift, origin, b.addr, a);
    CountIsRank(d, shift, origin, a);
    if shift == 0 {
      NoShift(d, shift);
    }
    if d.words < d.dstPeriod {
      SamePeriodAsLast(d, w, b.addr, a);
    }
    SpreadLines(d.words, d.dstPeriod, PeriodOf(d, a), lost);
  }

  lemma SpreadLines(words: int, dstPeriod: int, q: int, lost: int)
    ensures q * words + (q - lost) * (dstPeriod - words) - q * dstPeriod == (0 - lost) * (dstPeriod - words)
    ensures q * words - q * dstPeriod == q * (words - dstPeriod)
  {
  }

  /** With a window's distance between periods, a window's words belong to one period. */
  lemma SamePeriodAsLast(d: Descriptor, w: nat, s: int, a: int)
    requires 1 <= d.words && d.period >= d.words + w && s <= a < s + w && Phase(d, a) < d.words
    ensures PeriodOf(d, a) == PeriodOf(d, s + w - 1)
  {
    PeriodSplit(d, a);
    PeriodUnique(d, s + w - 1, PeriodOf(d, a), Phase(d, a) + (s + w - 1 - a));
  }

  /** Some burst of a complete run holds requested word a, in lane a - b.addr. */
  lemma SomeBurstHolds(d: Descriptor, w: nat, off: nat, bs: seq<Burst>, a: int) returns (i: nat)
    requires FieldWidths(d, w) && off < w && d.addr - off <= EndAddr(d)
    requires ExactCover(d, w, d.addr - off, bs) && Requested(d, a)
    ensures i < |bs| && bs[i].addr <= a < bs[i].addr + w && |bs[i].mask| == w
    ensures bs[i].mask[a - bs[i].addr]
  {
    hide Hit, HitWindows, Requested, EndAddr, DivUp;
    var origin := d.addr - off;
    RequestedIsPhase(d, a);
    var size := EndAddr(d) - origin;
    CoverEnds(size, w);
    var s := RequestedIsCovered(d, w, origin, DivUp(size, w), a);
    i :| 0 <= i < |bs| && Addrs(bs)[i] == s;
    assert ExactMask(d, w, bs[i]);
  }

  lemma CoverEnds(size: nat, w: nat)
    requires w > 0
    ensures DivUp(size, w) * w >= size
  {
    assert size + w - 1 == (size + w - 1) / w * w + (size + w - 1) % w;
  }

  /** An exact cover has each requested word once: in one lane of one burst. */
  lemma EachWordOnce(d: Descriptor, w: nat, off: nat, bs: seq<Burst>, a: int) returns (i: nat)
    requires FieldWidths(d, w) && off < w && d.addr - off <= EndAddr(d)
    requires ExactCover(d, w, d.addr - off, bs) && Requested(d, a)
    ensures i < |bs| && bs[i].addr <= a < bs[i].addr + w && |bs[i].mask| == w && bs[i].mask[a - bs[i].addr]
    ensures forall j: nat :: j < |bs| && bs[j].addr <= a < bs[j].addr + w ==> j == i
  {
    i := SomeBurstHolds(d, w, off, bs, a);
    forall j: nat | j < |bs| && bs[j].addr <= a < bs[j].addr + w
      ensures j == i
    {
      if j < i {
        BurstsApart(d, w, off, bs, j, i);
      } else if i < j {
        BurstsApart(d, w, off, bs, i, j);
      }
    }
  }

  lemma BurstsApart(d: Descriptor, w: nat, off: nat, bs: seq<Burst>, i: nat, j: nat)
    requires FieldWidths(d, w) && d.addr - off <= EndAddr(d)
    requires ExactCover(d, w, d.addr - off, bs) && i < j < |bs|
    ensures bs[i].addr + w <= bs[j].addr
  {
    hide Hit, ExactMask, EndAddr;
    var origin := d.addr - off;
    var n := DivUp(EndAddr(d) - origin, w);
    HitWindowsIncrease(d, w, origin, n);
    HitWindowsMembers(d, w, origin, n);
    assert Addrs(bs)[i] in HitWindows(d, w, origin, n) && Addrs(bs)[j] in HitWindows(d, w, origin, n);
    var p :| 0 <= p < n && bs[i].addr == WindowStart(origin, w, p) && Hit(d, w, bs[i].addr);
    var q :| 0 <= q < n && bs[j].addr == WindowStart(origin, w, q) && Hit(d, w, bs[j].addr);
    WindowOrder(origin, w, p, q);
  }

  /** Each requested word arrives in its own scratchpad word exactly for the descriptors with
      one period, with adjacent destination lines, or with safe lines and a larger pitch. */
  lemma PlacementTheorem(d: Descriptor, w: nat, off: nat, bs: seq<Burst>, lost: seq<nat>,
                         next: int, lostNext: nat)
    requires FieldWidths(d, w) && off < w && d.target == Scratchpad && Accepted(d, w)
    requires d.words <= d.period && CoverCondition(d, off)
    requires IsRun(d, w, PhaseShift(d, off), d.addr - off, bs, lost, next, lostNext)
    requires bs != [] && next >= EndAddr(d)
    ensures PlacementExact(d, bs) <==> PlacementCondition(d, w, d.addr - off)
  {
    hide Accepted, IsRun, BurstOk, Live, PhaseShift, ExactCover, LineSafe, PlacementCondition, EndAddr;
    var origin, shift := d.addr - off, PhaseShift(d, off);
    StartsBeforeEnd(d, off);
    CoverTheorem(d, w, off, bs, lost, next, lostNext);
    AllBurstsOk(d, w, shift, origin, bs, lost, next, lostNext);
    AllStartsOk(d, w, shift, origin, bs, lost, next, lostNext);
    if d.words < d.dstPeriod {
      NoShiftWhenSpread(d, w, off);
      LinesTheorem(d, w, origin, bs, lost, next, lostNext);
      SpreadPlacement(d, w, off, bs, lost);
    } else {
      DensePlacement(d, w, off, bs, lost);
    }
  }

  lemma StartsBeforeEnd(d: Descriptor, off: nat)
    requires 1 <= d.count
    ensures d.words >= 1 ==> d.addr - off < EndAddr(d)
    ensures d.addr <= EndAddr(d)
  {
    MulMono(0, d.count - 1, d.period);
  }

  lemma NoShiftWhenSpread(d: Descriptor, w: nat, off: nat)
    requires off < w && d.target == Scratchpad && Accepted(d, w) && d.words != d.dstPeriod
    ensures PhaseShift(d, off) == 0
  {
  }

  lemma {:induction false} AllStartsOk(d: Descriptor, w: nat, shift: nat, origin: int,
                                       bs: seq<Burst>, lost: seq<nat>, next: int, lostNext: nat)
    requires d.period > 0 && w > 0 && IsRun(d, w, shift, origin, bs, lost, next, lostNext)
    requires d.addr < origin + w && origin < EndAddr(d)
    ensures forall i :: 0 <= i < |bs| ==> origin <= bs[i].addr < EndAddr(d) && Live(d, w, bs[i].addr)
  {
    if bs != [] {
      var n := |bs| - 1;
      AllStartsOk(d, w, shift, origin, bs[..n], lost[..n], bs[n].addr, lost[n]);
      RunStays(d, w, shift, origin, bs[..n], lost[..n], bs[n].addr, lost[n]);
    }
  }

  /** A burst's words land right when no line was lost or no line space is left out. */
  lemma BurstLandsRight(d: Descriptor, w: nat, shift: nat, origin: int, b: Burst, lost: nat)
    requires FieldWidths(d, w) && 1 <= d.words <= d.period && d.target == Scratchpad && Accepted(d, w)
    requires (d.period >= w ==> shift == 0) && (shift == 0 || d.words == d.period)
    requires origin <= d.addr && origin <= b.addr && BurstOk(d, w, shift, origin, b, lost)
    requires if d.words < d.dstPeriod then lost == 0 else d.count == 1 || d.words == d.dstPeriod
    ensures PlacedBurst(d, b)
  {
    hide FieldWidths, Accepted, BurstOk, Destination, Ones;
    forall l | 0 <= l < |b.mask| && b.mask[l]
      ensures b.spOffset + Ones(b.mask[..l]) == Destination(d, b.addr + l)
    {
      WordLandsRight(d, w, shift, origin, b, lost, l);
    }
  }

  lemma WordLandsRight(d: Descriptor, w: nat, shift: nat, origin: int, b: Burst, lost: nat, l: nat)
    requires FieldWidths(d, w) && 1 <= d.words <= d.period && d.target == Scratchpad && Accepted(d, w)
    requires (d.period >= w ==> shift == 0) && (shift == 0 || d.words == d.period)
    requires origin <= d.addr && origin <= b.addr && BurstOk(d, w, shift, origin, b, lost)
    requires if d.words < d.dstPeriod then lost == 0 else d.count == 1 || d.words == d.dstPeriod
    requires l < |b.mask| && b.mask[l]
    ensures b.spOffset + Ones(b.mask[..l]) == Destination(d, b.addr + l)
  {
    if d.dstPeriod < d.words {
      OnlyPeriod(d, shift, b.addr + l);
    }
    hide BurstOk, Destination, PeriodOf, Accepted, Ones;
    LandsAt(d, w, shift, origin, b, lost, l);
    ZeroFactor(0 - lost, d.dstPeriod - d.words);
    ZeroFactor(PeriodOf(d, b.addr + l), d.words - d.dstPeriod);
  }

  lemma ZeroFactor(x: int, y: int)
    ensures x == 0 || y == 0 ==> x * y == 0
  {
  }

  lemma OnlyPeriod(d: Descriptor, shift: nat, a: int)
    requires 1 <= d.words <= d.period && d.count == 1 && Selected(d, shift, a)
    ensures PeriodOf(d, a) == 0
  {
    PeriodUnique(d, a, 0, a - d.addr);
  }

  lemma SpreadPlacement(d: Descriptor, w: nat, off: nat, bs: seq<Burst>, lost: seq<nat>)
    requires FieldWidths(d, w) && off < w && d.target == Scratchpad && Accepted(d, w)
    requires 1 <= d.words <= d.period && d.words < d.dstPeriod && |lost| == |bs| > 0
    requires d.addr - off <= EndAddr(d) && ExactCover(d, w, d.addr - off, bs)
    requires forall i :: 0 <= i < |bs| ==>
               && d.addr - off <= bs[i].addr < EndAddr(d) && Live(d, w, bs[i].addr)
               && BurstOk(d, w, 0, d.addr - off, bs[i], lost[i])
    requires LineSafe(d, w, d.addr - off) <==> forall i :: 0 <= i < |bs| ==> lost[i] == 0
    requires LineSafe(d, w, d.addr - off) <==> lost[|bs| - 1] == 0
    ensures PlacementExact(d, bs) <==> PlacementCondition(d, w, d.addr - off)
  {
    var origin := d.addr - off;
    if d.count == 1 {
      assert LineSafe(d, w, origin);
    }
    if LineSafe(d, w, origin) {
      forall i | 0 <= i < |bs|
        ensures PlacedBurst(d, bs[i])
      {
        BurstLandsRight(d, w, 0, origin, bs[i], lost[i]);
      }
    } else {
      LostBurstLandsWrong(d, w, origin, bs[|bs| - 1], lost[|bs| - 1]);
    }
  }

  lemma LostBurstLandsWrong(d: Descriptor, w: nat, origin: int, b: Burst, lost: nat)
    requires FieldWidths(d, w) && d.target == Scratchpad && Accepted(d, w)
    requires 1 <= d.words <= d.period && d.words < d.dstPeriod && lost > 0
    requires origin <= d.addr < origin + w && origin <= b.addr < EndAddr(d)
    requires Live(d, w, b.addr) && ExactMask(d, w, b) && BurstOk(d, w, 0, origin, b, lost)
    ensures !PlacedBurst(d, b)
  {
    hide FieldWidths, Accepted, BurstOk, Live, Destination, EndAddr;
    var l := SomeLaneSet(d, w, origin, b);
    LandsAt(d, w, 0, origin, b, lost, l);
    MulStep(0, lost, d.dstPeriod - d.words);
    assert b.spOffset + Ones(b.mask[..l]) != Destination(d, b.addr + l);
  }

  lemma SomeLaneSet(d: Descriptor, w: nat, origin: int, b: Burst) returns (l: nat)
    requires FieldWidths(d, w) && 1 <= d.words
    requires d.addr < origin + w && origin <= b.addr < EndAddr(d)
    requires Live(d, w, b.addr) && ExactMask(d, w, b)
    ensures l < w == |b.mask| && b.mask[l]
  {
    LivePhaseHits(d, w, b.addr);
    var a :| b.addr <= a < b.addr + w && Requested(d, a);
    l := a - b.addr;
  }

  lemma DensePlacement(d: Descriptor, w: nat, off: nat, bs: seq<Burst>, lost: seq<nat>)
    requires FieldWidths(d, w) && off < w && d.target == Scratchpad && Accepted(d, w)
    requires 1 <= d.words <= d.period && d.dstPeriod <= d.words && |lost| == |bs|
    requires d.addr - off <= EndAddr(d) && ExactCover(d, w, d.addr - off, bs)
    requires CoverCondition(d, off)
    requires forall i :: 0 <= i < |bs| ==>
               && d.addr - off <= bs[i].addr
               && BurstOk(d, w, PhaseShift(d, off), d.addr - off, bs[i], lost[i])
    ensures PlacementExact(d, bs) <==> PlacementCondition(d, w, d.addr - off)
  {
    hide BurstOk, PlacedBurst, ExactCover, Accepted, Requested, PeriodOf, PlacementExact, PhaseShift,
         PlacementCondition, CoverCondition, EndAddr;
    var origin, shift := d.addr - off, PhaseShift(d, off);
    ShiftHarmless(d, w, off);
    if d.count == 1 || d.words == d.dstPeriod {
      forall i | 0 <= i < |bs|
        ensures PlacedBurst(d, bs[i])
      {
        BurstLandsRight(d, w, shift, origin, bs[i], lost[i]);
      }
      AllPlaced(d, w, origin, bs);
    } else {
      var a := SecondPeriod(d);
      var i := SomeBurstHolds(d, w, off, bs, a);
      SecondPeriodLandsWrong(d, w, shift, origin, bs[i], lost[i], a);
      NotAllPlaced(d, w, origin, bs, i);
    }
  }

  lemma ShiftHarmless(d: Descriptor, w: nat, off: nat)
    requires off < w && 1 <= d.words <= d.period && CoverCondition(d, off)
    ensures d.period >= w ==> PhaseShift(d, off) == 0
    ensures PhaseShift(d, off) == 0 || d.words == d.period
  {
  }

  lemma AllPlaced(d: Descriptor, w: nat, origin: int, bs: seq<Burst>)
    requires d.period > 0 && w > 0 && (d.count == 1 || d.words == d.dstPeriod)
    requires forall i :: 0 <= i < |bs| ==> PlacedBurst(d, bs[i])
    ensures PlacementExact(d, bs) && PlacementCondition(d, w, origin)
  {
  }

  lemma NotAllPlaced(d: Descriptor, w: nat, origin: int, bs: seq<Burst>, i: nat)
    requires d.period > 0 && w > 0 && d.count != 1 && d.words > d.dstPeriod
    requires i < |bs| && !PlacedBurst(d, bs[i])
    ensures !PlacementExact(d, bs) && !PlacementCondition(d, w, origin)
  {
  }

  lemma SecondPeriod(d: Descriptor) returns (a: int)
    requires d.period > 0 && d.words > 0 && d.count > 1
    ensures Requested(d, a) && PeriodOf(d, a) == 1
  {
    a := PeriodStart(d, 1);
    assert PeriodStart(d, 1) <= a < PeriodStart(d, 1) + d.words;
    PeriodUnique(d, a, 1, 0);
  }

  lemma SecondPeriodLandsWrong(d: Descriptor, w: nat, shift: nat, origin: int, b: Burst, lost: nat, a: int)
    requires FieldWidths(d, w) && 1 <= d.words <= d.period && d.target == Scratchpad && Accepted(d, w)
    requires (d.period >= w ==> shift == 0) && (shift == 0 || d.words == d.period)
    requires origin <= d.addr && origin <= b.addr && BurstOk(d, w, shift, origin, b, lost)
    requires d.dstPeriod < d.words && PeriodOf(d, a) == 1
    requires b.addr <= a < b.addr + w && b.mask[a - b.addr]
    ensures !PlacedBurst(d, b)
  {
    var l := a - b.addr;
    LandsAt(d, w, shift, origin, b, lost, l);
    assert b.spOffset + Ones(b.mask[..l]) != Destination(d, b.addr + l);
  }

  // ----- Overlapping periods

  /** With more words than the period, all words from start to end are selected. */
  lemma {:induction false} AllSelected(d: Descriptor, shift: nat, origin: int, a: int)
    requires 1 <= d.period < d.words && origin <= d.addr <= a <= EndAddr(d)
    ensures CountSelected(d, shift, origin, a) == a - d.addr
    decreases a - d.addr
  {
    if a == d.addr {
      CountSelectedNone(d, shift, origin, a);
    } else {
      AllSelected(d, shift, origin, a - 1);
      ModBound(a - 1 - d.addr + shift, d.period);
    }
  }

  /** Words of overlapping periods go to the scratchpad in the order of their addresses. */
  lemma LandsInOrder(d: Descriptor, w: nat, shift: nat, origin: int, b: Burst, lost: nat, l: nat)
    requires FieldWidths(d, w) && d.period < d.words && d.target == Scratchpad && Accepted(d, w)
    requires origin <= d.addr && origin <= b.addr && BurstOk(d, w, shift, origin, b, lost) && l < w && b.mask[l]
    ensures b.spOffset + Ones(b.mask[..l]) == d.dstOffset + (b.addr + l - d.addr)
  {
    OnesCountSelected(d, shift, b.addr, b.mask[..l]);
    CountSelectedSplit(d, shift, origin, b.addr, b.addr + l);
    AllSelected(d, shift, origin, b.addr + l);
  }

  /** A word that is in two periods is sent once: overlapping periods arrive complete exactly if there
      is only one. */
  lemma OverlapTheorem(d: Descriptor, w: nat, off: nat, bs: seq<Burst>, lost: seq<nat>, next: int, lostNext: nat)
    requires FieldWidths(d, w) && off < w && d.target == Scratchpad && Accepted(d, w) && d.period < d.words
    requires IsRun(d, w, PhaseShift(d, off), d.addr - off, bs, lost, next, lostNext)
    requires bs != [] && next >= EndAddr(d)
    ensures DeliversAll(d, bs) <==> d.count == 1
  {
    hide IsRun, BurstOk, Live, PhaseShift, ExactCover, Accepted, EndAddr, CoverCondition;
    var origin, shift := d.addr - off, PhaseShift(d, off);
    OverlapParts(d, w, off, bs, lost, next, lostNext);
    if d.count == 1 {
      forall i, l | 0 <= i < |bs| && 0 <= l < |bs[i].mask| && bs[i].mask[l]
        ensures Delivers(d, bs[i].addr + l, bs[i].spOffset + Ones(bs[i].mask[..l]))
      {
        LandsInOrder(d, w, shift, origin, bs[i], lost[i], l);
      }
    } else {
      var a := PeriodStart(d, 1);
      assert PeriodStart(d, 1) <= a < PeriodStart(d, 1) + d.words;
      var i := SomeBurstHolds(d, w, off, bs, a);
      var l := a - bs[i].addr;
      LandsInOrder(d, w, shift, origin, bs[i], lost[i], l);
      assert IsWordOf(d, bs[i].addr + l, 1, 0);
      assert !Delivers(d, bs[i].addr + l, bs[i].spOffset + Ones(bs[i].mask[..l]));
    }
  }

  lemma OverlapParts(d: Descriptor, w: nat, off: nat, bs: seq<Burst>, lost: seq<nat>, next: int, lostNext: nat)
    requires FieldWidths(d, w) && off < w && d.target == Scratchpad && Accepted(d, w) && d.period < d.words
    requires IsRun(d, w, PhaseShift(d, off), d.addr - off, bs, lost, next, lostNext)
    requires bs != [] && next >= EndAddr(d)
    ensures |lost| == |bs| && d.count > 0 && d.dstPeriod == d.words && d.addr - off <= EndAddr(d)
    ensures ExactCover(d, w, d.addr - off, bs)
    ensures forall i :: 0 <= i < |bs| ==>
              && |bs[i].mask| == w && d.addr - off <= bs[i].addr
              && BurstOk(d, w, PhaseShift(d, off), d.addr - off, bs[i], lost[i])
  {
    hide IsRun, Live, PhaseShift, ExactCover, EndAddr;
    StartsBeforeEnd(d, off);
    CoverTheorem(d, w, off, bs, lost, next, lostNext);
    AllBurstsOk(d, w, PhaseShift(d, off), d.addr - off, bs, lost, next, lostNext);
    AllStartsOk(d, w, PhaseShift(d, off), d.addr - off, bs, lost, next, lostNext);
  }

  // ----- The whole request

  /** The clocks of a request, from loading the descriptor to the last burst. */
  method RunToEnd(d: Descriptor, w: nat, off: nat)
    returns (bs: seq<Burst>, ghost lost: seq<nat>, ghost next: int, ghost lostNext: nat)
    requires InRange(d, w) && Accepted(d, w) && off < w && off <= d.addr
    ensures IsRun(d, w, PhaseShift(d, off), d.addr - off, bs, lost, next, lostNext)
    ensures bs != [] && next >= EndAddr(d) && Announced(bs)
  {
    hide IsPowerOfTwo, Accepted, PhaseShift, IsRun, AnnouncedTo, Move, BurstOk, Live;
    var sequencer := new StrideSequencer(w);
    sequencer.InitRequestRegs(d, off);
    ghost var origin, shift := d.addr - off, PhaseShift(d, off);
    bs, lost := [], [];
    var running := true;
    EmptyRun(d, w, shift, origin);
    while running
      invariant sequencer.Valid() && fresh(sequencer) && fresh(sequencer.phase) && fresh(sequencer.line)
      invariant sequencer.w == w && sequencer.d == d
      invariant sequencer.origin == origin && sequencer.shift == shift
      invariant IsRun(d, w, shift, origin, bs, lost, sequencer.globalAddr, sequencer.lost)
      invariant running ==> sequencer.globalAddr <= EndAddr(d) && (bs != [] ==> sequencer.globalAddr < EndAddr(d))
      invariant !running ==> bs != [] && sequencer.globalAddr >= EndAddr(d)
      invariant AnnouncedTo(bs, running, if running then sequencer.globalAddr else NO_NEXT)
      decreases running, EndAddr(d) - sequencer.globalAddr
    {
      ghost var lostNow := sequencer.lost;
      var b := EmitBurst(sequencer, origin);
      RunExtends(d, w, shift, origin, bs, lost, b, lostNow, sequencer.globalAddr, sequencer.lost);
      ChainExtends(bs, b);
      bs, lost := bs + [b], lost + [lostNow];
      running := !b.last;
    }
    next, lostNext := sequencer.globalAddr, sequencer.lost;
  }

  lemma EmptyRun(d: Descriptor, w: nat, shift: nat, origin: int)
    requires InRange(d, w) && Live(d, w, origin) && origin <= d.addr
    ensures IsRun(d, w, shift, origin, [], [], origin, 0) && AnnouncedTo([], true, origin)
    ensures origin <= EndAddr(d)
  {
    MulMono(0, d.count - 1, d.period);
  }

  lemma RunExtends(d: Descriptor, w: nat, shift: nat, origin: int, bs: seq<Burst>, lost: seq<nat>,
                   b: Burst, lostNow: nat, next: int, lostNext: nat)
    requires d.period > 0 && w > 0 && IsRun(d, w, shift, origin, bs, lost, b.addr, lostNow)
    requires BurstOk(d, w, shift, origin, b, lostNow)
    requires Move(d, w, shift, b.addr, lostNow, next, lostNext)
    requires bs != [] ==> b.addr < EndAddr(d)
    ensures IsRun(d, w, shift, origin, bs + [b], lost + [lostNow], next, lostNext)
  {
    hide Move, BurstOk;
    assert bs == (bs + [b])[..|bs|] && lost == (lost + [lostNow])[..|bs|];
  }

  lemma ChainExtends(bs: seq<Burst>, b: Burst)
    requires AnnouncedTo(bs, true, b.addr)
    ensures AnnouncedTo(bs + [b], !b.last, b.addrNext)
  {
  }

  /** One clock, in the terms a run is described with. */
  method EmitBurst(sequencer: StrideSequencer, ghost origin: int) returns (b: Burst)
    requires sequencer.Valid() && sequencer.origin == origin
    modifies sequencer, sequencer.phase, sequencer.line
    ensures sequencer.Valid() && sequencer.d == old(sequencer.d)
    ensures sequencer.origin == origin && sequencer.shift == old(sequencer.shift)
    ensures b.addr == old(sequencer.globalAddr) < sequencer.globalAddr
    ensures BurstOk(sequencer.d, sequencer.w, sequencer.shift, origin, b, old(sequencer.lost))
    ensures Move(sequencer.d, sequencer.w, sequencer.shift, b.addr, old(sequencer.lost),
                 sequencer.globalAddr, sequencer.lost)
    ensures b.last == (sequencer.globalAddr >= EndAddr(sequencer.d))
    ensures b.addrNext == if b.last then NO_NEXT else sequencer.globalAddr
  {
    hide AddressIncrement, RawSkip, SkipRest, AlignDown, LineIncrement, TrueLine, ShiftedPhase, Selected, CountSelected,
         PeriodOf, Phase, Accepted, EndAddr;
    RepeatIsProduct(sequencer.crossed, SpLineIncrement(sequencer.d));
    ghost var inc;
    b, inc := sequencer.Emit();
  }

  /** bs, with the lines lost before each, up to the first address past the end. */
  ghost predicate CompleteRun(d: Descriptor, w: nat, off: nat, bs: seq<Burst>, lost: seq<nat>, next: int,
                              lostNext: nat)
    requires d.period > 0 && w > 0
  {
    IsRun(d, w, PhaseShift(d, off), d.addr - off, bs, lost, next, lostNext) && next >= EndAddr(d)
  }

  /** bs are what the sequencer emits, from loading the descriptor to the last burst. */
  ghost predicate Emitted(d: Descriptor, w: nat, off: nat, bs: seq<Burst>)
    requires d.period > 0 && w > 0
  {
    && bs != [] && Announced(bs)
    && exists lost: seq<nat>, next: int, lostNext: nat :: CompleteRun(d, w, off, bs, lost, next, lostNext)
  }

  /** All that is proved of the bursts of an accepted request. */
  lemma SequenceTheorem(d: Descriptor, w: nat, off: nat, bs: seq<Burst>)
    requires FieldWidths(d, w) && Accepted(d, w) && off < w && Emitted(d, w, off, bs)
    ensures d.addr - off <= EndAddr(d)
    ensures ExactCover(d, w, d.addr - off, bs) <==> CoverCondition(d, off)
    ensures Announced(bs) && Rising(d, w, d.addr - off, bs)
    ensures forall i :: 0 <= i < |bs| ==> LanePhases(d, w, PhaseShift(d, off), bs[i])
    ensures PhasesExact(d, w, bs) <==> PhaseShift(d, off) == 0
    ensures d.words >= 1 && PhaseShift(d, off) == 0 ==> (LinesExact(d, w, bs) <==> LineSafe(d, w, d.addr - off))
    ensures 1 <= d.words <= d.period && PhaseShift(d, off) == 0 ==>
              forall i :: 0 <= i < |bs| ==> SelectedLines(d, w, bs[i], LineSafe(d, w, d.addr - off))
    ensures d.target == Scratchpad && d.words <= d.period && CoverCondition(d, off) ==>
              (PlacementExact(d, bs) <==> PlacementCondition(d, w, d.addr - off))
    ensures d.target == Scratchpad && d.words > d.period ==> (DeliversAll(d, bs) <==> d.count == 1)
  {
    hide IsRun, ExactCover, Rising, LanePhases, PhasesExact, LinesExact, SelectedLines, PlacementExact, DeliversAll,
         LineSafe, PlacementCondition, CoverCondition, EndAddr, Announced;
    var lost: seq<nat>, next: int, lostNext: nat :| CompleteRun(d, w, off, bs, lost, next, lostNext);
    CoverTheorem(d, w, off, bs, lost, next, lostNext);
    PhasesTheorem(d, w, PhaseShift(d, off), d.addr - off, bs, lost, next, lostNext);
    if d.words >= 1 && PhaseShift(d, off) == 0 {
      LinesTheorem(d, w, d.addr - off, bs, lost, next, lostNext);
      if d.words <= d.period {
        AllSelectedLines(d, w, d.addr - off, bs, lost, next, lostNext);
      }
    }
    RunRises(d, w, PhaseShift(d, off), d.addr - off, bs, lost, next, lostNext);
    AllLanePhases(d, w, PhaseShift(d, off), d.addr - off, bs, lost, next, lostNext);
    if d.target == Scratchpad && d.words <= d.period && CoverCondition(d, off) {
      PlacementTheorem(d, w, off, bs, lost, next, lostNext);
    }
    if d.target == Scratchpad && d.words > d.period {
      OverlapTheorem(d, w, off, bs, lost, next, lostNext);
    }
  }

  /** Emit one request. */
  method Sequence(d: Descriptor, w: nat, off: nat) returns (r: Result<seq<Burst>>)
    requires d.period > 0 ==> InRange(d, w)
    requires off < w && off <= d.addr
    ensures r.InvalidArgument? <==> !Accepted(d, w)
    ensures r.Ok? ==> Emitted(d, w, off, r.value)
    ensures r.Ok? ==> d.addr - off <= EndAddr(d)
    ensures r.Ok? ==> (ExactCover(d, w, d.addr - off, r.value) <==> CoverCondition(d, off))
    ensures r.Ok? ==> Announced(r.value)
    ensures r.Ok? ==> Rising(d, w, d.addr - off, r.value)
    ensures r.Ok? ==> (PhasesExact(d, w, r.value) <==> PhaseShift(d, off) == 0)
    ensures r.Ok? && d.words >= 1 && PhaseShift(d, off) == 0 ==>
              (LinesExact(d, w, r.value) <==> LineSafe(d, w, d.addr - off))
    ensures r.Ok? && 1 <= d.words <= d.period && PhaseShift(d, off) == 0 ==>
              forall i :: 0 <= i < |r.value| ==> SelectedLines(d, w, r.value[i], LineSafe(d, w, d.addr - off))
    ensures r.Ok? && d.target == Scratchpad && d.words <= d.period && CoverCondition(d, off) ==>
              (PlacementExact(d, r.value) <==> PlacementCondition(d, w, d.addr - off))
    ensures r.Ok? && d.target == Scratchpad && d.words > d.period ==> (DeliversAll(d, r.value) <==> d.count == 1)
  {
    hide IsRun, ExactCover, Rising, PhasesExact, LinesExact, SelectedLines, PlacementExact, DeliversAll,
         LineSafe, PlacementCondition, CoverCondition, EndAddr, Announced;
    if !Accepted(d, w) {
      return InvalidArgument;
    }
    var bs;
    ghost var lost, next, lostNext;
    bs, lost, next, lostNext := RunToEnd(d, w, off);
    assert CompleteRun(d, w, off, bs, lost, next, lostNext);
    SequenceTheorem(d, w, off, bs);
    r := Ok(bs);
  }
}
