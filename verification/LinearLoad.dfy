/** A vector load of a tile: the clipped work-group's threads each receive their own element of a
two-dimensional buffer. */
module LinearLoads {
  import opened Arith
  import opened Bits
  import opened Stride
  import opened StrideArithmetic
  import opened StrideLines
  import opened StrideSequencing
  import opened StrideRun
  import opened WorkDistribution

  const BUS: nat := 16

  /** A load by work-group g from a buffer dimX words wide, displaced by (ox, oy); the grid is d1
      threads high. */
  datatype Access = Access(w: nat, g: Group, ox: nat, oy: nat, buffer: nat, dimX: nat, d1: nat)

  predicate InBuffer(a: Access) {
    && a.w <= 5 && a.g.offX * 32 + a.ox < a.dimX && a.g.offY < a.d1
    && a.g.offX % Pow2(a.w) == 0 && a.g.offY % Height(a.w) == 0
  }

  /** The request the execute stage makes of it. */
  function DescriptorOf(a: Access): Descriptor
    requires InBuffer(a)
  {
    var x, y := a.g.offX * 32 + a.ox, a.g.offY + a.oy;
    Descriptor(a.buffer + y * a.dimX + x, Min(Width(a.w), a.dimX - x), a.dimX, Min(Height(a.w), a.d1 - a.g.offY),
               RegisterFile, 0, Width(a.w), 0, 0)
  }

  /** Register word of a lane: the line above the phase. */
  function RegIdx(d: Descriptor, phase: nat, line: nat): nat {
    Or(line * d.dstPeriod, phase + d.dstOffX)
  }

  /** The thread that wants word x. */
  function ThreadFor(d: Descriptor, x: int): int
    requires d.period > 0
  {
    PeriodOf(d, x) * d.dstPeriod + Phase(d, x)
  }

  /** The word a thread wants. */
  function WordFor(d: Descriptor, t: nat): int
    requires d.dstPeriod > 0
  {
    PeriodStart(d, t / d.dstPeriod) + t % d.dstPeriod
  }

  predicate Wants(d: Descriptor, t: nat)
    requires d.dstPeriod > 0
  {
    t % d.dstPeriod < d.words && t / d.dstPeriod < d.count
  }

  /** Tiles that do not exceed the line. */
  predicate Tile(d: Descriptor) {
    d.period > 0 && 1 <= d.words <= d.period && d.words <= d.dstPeriod && d.count > 0
  }

  /** Each requested word has a thread of its own, and the other way around. */
  lemma OneThread(d: Descriptor, x: int)
    requires Tile(d) && Requested(d, x)
    ensures 0 <= ThreadFor(d, x) && Wants(d, ThreadFor(d, x)) && WordFor(d, ThreadFor(d, x)) == x
    ensures 0 <= PeriodOf(d, x) < d.count
  {
    RequestedIsPhase(d, x);
    PeriodSplit(d, x);
    var k, r := PeriodOf(d, x), Phase(d, x);
    if k >= d.count {
      MulMono(d.count, k, d.period);
      NextStart(d, d.count - 1);
    }
    MulMono(0, k, d.dstPeriod);
    DivModUnique(k * d.dstPeriod + r, d.dstPeriod, k, r);
  }

  lemma OneWord(d: Descriptor, t: nat)
    requires Tile(d) && Wants(d, t)
    ensures Requested(d, WordFor(d, t)) && ThreadFor(d, WordFor(d, t)) == t
  {
    var k, r := t / d.dstPeriod, t % d.dstPeriod;
    var x := WordFor(d, t);
    assert PeriodStart(d, k) <= x < PeriodStart(d, k) + d.words;
    PeriodUnique(d, x, k, r);
    assert t == k * d.dstPeriod + r;
  }

  /** The register index of a requested word is short of its thread by the lines that were lost. */
  lemma IndexIsThread(d: Descriptor, b: Burst, l: nat, w: nat)
    requires Tile(d) && d.dstOffX == d.dstOffY == 0 && w <= 5 && d.dstPeriod == Width(w)
    requires |b.phase| == |b.line| == BUS && l < BUS && Requested(d, b.addr + l)
    requires b.phase[l] == Phase(d, b.addr + l) && 0 <= b.line[l] <= TrueLine(d, b.addr + l)
    ensures var t := RegIdx(d, b.phase[l], b.line[l]);
            && t <= ThreadFor(d, b.addr + l) && t / d.dstPeriod == b.line[l]
            && (t == ThreadFor(d, b.addr + l) <==> b.line[l] == TrueLine(d, b.addr + l))
  {
    hide Or, Pow2;
    var x := b.addr + l;
    var k, r := b.line[l], b.phase[l];
    OneThread(d, x);
    RequestedIsPhase(d, x);
    MulMono(0, k, d.dstPeriod);
    DivModUnique(k * d.dstPeriod, Pow2(w + 5), k, 0);
    OrAdds(k * d.dstPeriod, r, w + 5);
    DivModUnique(k * d.dstPeriod + r, d.dstPeriod, k, r);
    MulMono(k, PeriodOf(d, x), d.dstPeriod);
    if k < PeriodOf(d, x) {
      MulStep(k, PeriodOf(d, x), d.dstPeriod);
    }
  }

  // ----- When the register indexes are right

  ghost predicate RightRegister(d: Descriptor, b: Burst, l: nat)
    requires d.period > 0 && l < |b.phase| && l < |b.line|
  {
    0 <= b.phase[l] && 0 <= b.line[l] && RegIdx(d, b.phase[l], b.line[l]) == ThreadFor(d, b.addr + l)
  }

  /** Every selected lane carries the index of the thread that wants its word. */
  ghost predicate RegistersExact(d: Descriptor, bs: seq<Burst>)
    requires d.period > 0
  {
    forall i, l :: 0 <= i < |bs| && 0 <= l < |bs[i].mask| && bs[i].mask[l] ==>
      l < |bs[i].phase| && l < |bs[i].line| && RightRegister(d, bs[i], l)
  }

  /** What a caller can check: the first phase does not wrap and no line is lost. */
  ghost predicate RegisterCondition(d: Descriptor)
    requires d.period > 0
  {
    PhaseShift(d, d.addr % BUS) == 0 && LineSafe(d, BUS, d.addr - d.addr % BUS)
  }

  /** Bursts of a tile with right phases, and lines that are right if `safe` and behind in the last
      period otherwise. */
  ghost predicate TileBursts(d: Descriptor, bs: seq<Burst>, safe: bool) {
    && Tile(d) && FieldWidths(d, BUS) && d.addr - d.addr % BUS <= EndAddr(d)
    && ExactCover(d, BUS, d.addr - d.addr % BUS, bs) && PhasesExact(d, BUS, bs)
    && forall i :: 0 <= i < |bs| ==> SelectedLines(d, BUS, bs[i], safe)
  }

  lemma BurstParts(d: Descriptor, bs: seq<Burst>, safe: bool, i: nat, l: nat)
    requires TileBursts(d, bs, safe) && i < |bs| && l < BUS && d.dstOffY == 0
    ensures |bs[i].mask| == |bs[i].phase| == |bs[i].line| == BUS
    ensures bs[i].mask[l] == Requested(d, bs[i].addr + l) && bs[i].phase[l] == Phase(d, bs[i].addr + l)
    ensures bs[i].mask[l] ==>
              && 0 <= bs[i].line[l] <= TrueLine(d, bs[i].addr + l) == PeriodOf(d, bs[i].addr + l)
              && (if safe then bs[i].line[l] == TrueLine(d, bs[i].addr + l) else bs[i].line[l] < d.count - 1)
  {
    hide Requested, Phase, EndAddr, HitWindows;
    assert ExactMask(d, BUS, bs[i]);
    assert SelectedLines(d, BUS, bs[i], safe);
    if bs[i].mask[l] {
      OneThread(d, bs[i].addr + l);
    }
  }

  lemma SafeIsExact(d: Descriptor, w: nat, bs: seq<Burst>)
    requires TileBursts(d, bs, true) && d.dstOffX == d.dstOffY == 0 && w <= 5 && d.dstPeriod == Width(w)
    ensures RegistersExact(d, bs)
  {
    hide TileBursts, Requested, Phase, TrueLine, RegIdx, ThreadFor, Width;
    TileOf(d, bs, true);
    forall i, l | 0 <= i < |bs| && 0 <= l < |bs[i].mask| && bs[i].mask[l]
      ensures l < |bs[i].phase| && l < |bs[i].line| && RightRegister(d, bs[i], l)
    {
      BurstParts(d, bs, true, i, 0);
      BurstParts(d, bs, true, i, l);
      IndexIsThread(d, bs[i], l, w);
    }
  }

  lemma TileOf(d: Descriptor, bs: seq<Burst>, safe: bool)
    requires TileBursts(d, bs, safe)
    ensures Tile(d) && FieldWidths(d, BUS) && d.addr - d.addr % BUS <= EndAddr(d)
    ensures ExactCover(d, BUS, d.addr - d.addr % BUS, bs)
  {
  }

  /** The first word of the last period is sent to the thread of an earlier line. */
  lemma UnsafeIsWrong(d: Descriptor, w: nat, bs: seq<Burst>)
    requires TileBursts(d, bs, false) && d.dstOffX == d.dstOffY == 0 && w <= 5 && d.dstPeriod == Width(w)
    ensures !RegistersExact(d, bs)
  {
    hide TileBursts, Tile, TrueLine, RegIdx, ThreadFor, Width;
    TileOf(d, bs, false);
    var x := LastStart(d);
    var i := SomeBurstHolds(d, BUS, d.addr % BUS, bs, x);
    var l := x - bs[i].addr;
    BurstParts(d, bs, false, i, l);
    IndexIsThread(d, bs[i], l, w);
    assert bs[i].mask[l] && !RightRegister(d, bs[i], l);
  }

  lemma LastStart(d: Descriptor) returns (x: int)
    requires Tile(d)
    ensures x == PeriodStart(d, d.count - 1) && Requested(d, x) && PeriodOf(d, x) == d.count - 1
  {
    x := PeriodStart(d, d.count - 1);
    PeriodUnique(d, x, d.count - 1, 0);
    assert PeriodStart(d, d.count - 1) <= x < PeriodStart(d, d.count - 1) + d.words;
  }

  /** When the first phase wraps, the first word is sent to another thread, if not left out. */
  lemma ShiftIsWrong(d: Descriptor, w: nat, bs: seq<Burst>)
    requires Tile(d) && FieldWidths(d, BUS) && d.addr - d.addr % BUS <= EndAddr(d)
    requires d.dstOffX == d.dstOffY == 0 && w <= 5 && d.dstPeriod == Width(w)
    requires PhaseShift(d, d.addr % BUS) > 0 && ExactCover(d, BUS, d.addr - d.addr % BUS, bs) && d.words == d.period
    requires forall i :: 0 <= i < |bs| ==> LanePhases(d, BUS, PhaseShift(d, d.addr % BUS), bs[i])
    ensures !RegistersExact(d, bs)
  {
    hide RegIdx, Requested, Width, Pow2, ExactCover, EndAddr, PhaseShift;
    var shift := PhaseShift(d, d.addr % BUS);
    ShiftBelow(d, d.addr % BUS);
    FirstRequested(d);
    var i := SomeBurstHolds(d, BUS, d.addr % BUS, bs, d.addr);
    var b := bs[i];
    var l := d.addr - b.addr;
    assert LanePhases(d, BUS, shift, b);
    DivModUnique(shift, d.period, 0, shift);
    assert b.phase[l] == shift;
    FirstThread(d);
    if l < |b.line| && 0 <= b.line[l] {
      IndexAtLeast(d, w, shift, b.line[l]);
    }
    assert b.mask[l] && !(l < |b.phase| && l < |b.line| && RightRegister(d, b, l));
  }

  lemma IndexAtLeast(d: Descriptor, w: nat, phase: nat, line: nat)
    requires d.dstOffX == 0 && w <= 5 && d.dstPeriod == Width(w) && phase < d.dstPeriod
    ensures RegIdx(d, phase, line) >= phase
  {
    hide Or, Pow2;
    MulMono(0, line, d.dstPeriod);
    DivModUnique(line * d.dstPeriod, Pow2(w + 5), line, 0);
    OrAdds(line * d.dstPeriod, phase, w + 5);
  }

  lemma ShiftBelow(d: Descriptor, off: nat)
    requires d.period > 0
    ensures PhaseShift(d, off) < d.period
  {
  }

  lemma FirstRequested(d: Descriptor)
    requires Tile(d)
    ensures Requested(d, d.addr)
  {
    assert PeriodStart(d, 0) <= d.addr < PeriodStart(d, 0) + d.words;
  }

  lemma FirstThread(d: Descriptor)
    requires Tile(d)
    ensures ThreadFor(d, d.addr) == 0
  {
    PeriodUnique(d, d.addr, 0, 0);
  }

  /** Whatever is emitted for a tile: its words are covered exactly, and sent to the threads that want
      them, if and only if the first phase does not wrap and no line is lost. */
  lemma RegistersTheorem(d: Descriptor, w: nat, bs: seq<Burst>)
    requires Tile(d) && FieldWidths(d, BUS) && d.target == RegisterFile && d.dstOffX == d.dstOffY == 0
    requires w <= 5 && d.dstPeriod == Width(w) && Emitted(d, BUS, d.addr % BUS, bs)
    ensures d.addr - d.addr % BUS <= EndAddr(d)
    ensures ExactCover(d, BUS, d.addr - d.addr % BUS, bs) && RegistersExact(d, bs) <==> RegisterCondition(d)
    ensures PhaseShift(d, d.addr % BUS) == 0 ==> TileBursts(d, bs, RegisterCondition(d))
  {
    hide Requested, ExactCover, PhasesExact, LinesExact, LineSafe, Width, Pow2, RegistersExact, SelectedLines,
         LanePhases, Emitted;
    PowerIsPower(w + 5);
    var off := d.addr % BUS;
    SequenceTheorem(d, BUS, off, bs);
    if PhaseShift(d, off) == 0 {
      if LineSafe(d, BUS, d.addr - off) {
        SafeIsExact(d, w, bs);
      } else {
        UnsafeIsWrong(d, w, bs);
      }
    } else if d.words == d.period {
      if ExactCover(d, BUS, d.addr - off, bs) {
        ShiftIsWrong(d, w, bs);
      }
    }
  }

  lemma {:induction false} PowerIsPower(k: nat)
    ensures IsPowerOfTwo(Pow2(k))
  {
    if k > 0 {
      PowerIsPower(k - 1);
    }
  }

  // ----- The register write

  /** The tile lies in memory. */
  ghost predicate Loadable(a: Access, memory: nat) {
    && InBuffer(a)
    && var d := DescriptorOf(a); InRange(d, BUS) && PhaseShift(d, d.addr % BUS) == 0 && EndAddr(d) <= memory
  }

  ghost predicate OnlyWanted(d: Descriptor, vrf: seq<int>, before: seq<int>, enabled: seq<bool>, contents: seq<int>)
    requires |vrf| == |before| == |enabled| && d.dstPeriod > 0
  {
    forall t: nat :: t < |vrf| ==>
      || vrf[t] == before[t]
      || (enabled[t] && Wants(d, t) && 0 <= WordFor(d, t) < |contents| && vrf[t] == contents[WordFor(d, t)])
  }

  /** Nothing has been written to the threads of the last line. */
  ghost predicate LastLineKept(d: Descriptor, vrf: seq<int>, before: seq<int>)
    requires |vrf| == |before| && d.dstPeriod > 0
  {
    forall t: nat :: t < |vrf| && t / d.dstPeriod == d.count - 1 ==> vrf[t] == before[t]
  }

  /** State of the registers: right so far, or with the last line untouched. */
  ghost predicate Progress(d: Descriptor, vrf: seq<int>, before: seq<int>, enabled: seq<bool>, contents: seq<int>,
                           safe: bool)
    requires |vrf| == |before| == |enabled| && d.dstPeriod > 0
  {
    if safe then OnlyWanted(d, vrf, before, enabled, contents) else LastLineKept(d, vrf, before)
  }

  /** The first n words of a burst have reached their threads. */
  ghost predicate InRegisters(d: Descriptor, vrf: seq<int>, enabled: seq<bool>, contents: seq<int>, b: Burst, n: nat)
    requires |vrf| == |enabled| && d.period > 0 && n <= |b.mask|
  {
    forall l :: 0 <= l < n && b.mask[l] ==>
      && 0 <= b.addr + l < |contents| && 0 <= ThreadFor(d, b.addr + l) < |vrf|
      && (enabled[ThreadFor(d, b.addr + l)] ==> vrf[ThreadFor(d, b.addr + l)] == contents[b.addr + l])
  }

  /** Writes of right words only. */
  ghost predicate Written(d: Descriptor, was: seq<int>, now: seq<int>, contents: seq<int>)
    requires |was| == |now| && d.dstPeriod > 0
  {
    forall t: nat :: t < |now| ==>
      now[t] == was[t] || (0 <= WordFor(d, t) < |contents| && now[t] == contents[WordFor(d, t)])
  }

  lemma StaysInRegisters(d: Descriptor, was: seq<int>, now: seq<int>, enabled: seq<bool>, contents: seq<int>,
                         b: Burst, n: nat)
    requires |was| == |now| == |enabled| && Tile(d) && n <= |b.mask|
    requires forall l :: 0 <= l < n && b.mask[l] ==> Requested(d, b.addr + l)
    requires InRegisters(d, was, enabled, contents, b, n) && Written(d, was, now, contents)
    ensures InRegisters(d, now, enabled, contents, b, n)
  {
    forall l | 0 <= l < n && b.mask[l]
      ensures WordFor(d, ThreadFor(d, b.addr + l)) == b.addr + l && 0 <= ThreadFor(d, b.addr + l)
    {
      OneThread(d, b.addr + l);
    }
    hide WordFor, ThreadFor, Requested, Tile;
  }

  /** Registers after the word of lane l has gone to the register of its index, if that is enabled. */
  function WordWritten(d: Descriptor, b: Burst, l: nat, contents: seq<int>, enabled: seq<bool>, vrf: seq<int>):
      (now: seq<int>)
    requires |vrf| == |enabled|
    ensures |now| == |vrf|
  {
    if l < |b.mask| && l < |b.phase| && l < |b.line| && b.mask[l] && 0 <= b.phase[l] && 0 <= b.line[l] then
      var t := RegIdx(d, b.phase[l], b.line[l]);
      if t < |vrf| && enabled[t] && 0 <= b.addr + l < |contents| then vrf[t := contents[b.addr + l]] else vrf
    else vrf
  }

  /** After the first n lanes of a burst. */
  function BurstWritten(d: Descriptor, b: Burst, n: nat, contents: seq<int>, enabled: seq<bool>, vrf: seq<int>):
      (now: seq<int>)
    requires |vrf| == |enabled|
    ensures |now| == |vrf|
  {
    if n == 0 then vrf
    else WordWritten(d, b, n - 1, contents, enabled, BurstWritten(d, b, n - 1, contents, enabled, vrf))
  }

  /** After the first n bursts. */
  function TileWritten(d: Descriptor, bs: seq<Burst>, n: nat, contents: seq<int>, enabled: seq<bool>, vrf: seq<int>):
      (now: seq<int>)
    requires |vrf| == |enabled| && n <= |bs|
    ensures |now| == |vrf|
  {
    if n == 0 then vrf
    else BurstWritten(d, bs[n - 1], BUS, contents, enabled, TileWritten(d, bs, n - 1, contents, enabled, vrf))
  }

  /** A tile that fits a work-group, in memory. */
  ghost predicate GroupTile(d: Descriptor, w: nat, memory: nat) {
    && Tile(d) && d.dstOffX == d.dstOffY == 0 && w <= 5 && d.dstPeriod == Width(w) && d.count <= Height(w)
    && forall x :: Requested(d, x) ==> 0 <= x < memory
  }

  /** A selected lane addresses a register of the work-group. */
  lemma LaneInFile(d: Descriptor, w: nat, bs: seq<Burst>, i: nat, l: nat, safe: bool, memory: nat)
    requires TileBursts(d, bs, safe) && GroupTile(d, w, memory) && i < |bs| && l < BUS
    ensures |bs[i].mask| == |bs[i].phase| == |bs[i].line| == BUS
    ensures bs[i].mask[l] == Requested(d, bs[i].addr + l)
    ensures bs[i].mask[l] ==>
              && 0 <= bs[i].phase[l] && 0 <= bs[i].line[l] && 0 <= bs[i].addr + l < memory
              && var x := bs[i].addr + l; var t := RegIdx(d, bs[i].phase[l], bs[i].line[l]);
                 && t <= ThreadFor(d, x) < THREADS
                 && (safe ==> t == ThreadFor(d, x)) && (!safe ==> t / d.dstPeriod != d.count - 1)
  {
    hide Requested, TrueLine, TileBursts, WordFor, ThreadFor, RegIdx, Wants, Width, Height, Phase, PeriodOf;
    BurstParts(d, bs, safe, i, l);
    if bs[i].mask[l] {
      PhasesAreNat(d, bs[i].addr + l);
      IndexIsThread(d, bs[i], l, w);
      ThreadBound(d, w, bs[i].addr + l);
    }
  }

  lemma WordProgress(d: Descriptor, w: nat, bs: seq<Burst>, i: nat, l: nat, safe: bool, contents: seq<int>,
                     enabled: seq<bool>, vrf: seq<int>, before: seq<int>)
    requires TileBursts(d, bs, safe) && GroupTile(d, w, |contents|) && i < |bs| && l < BUS
    requires |vrf| == |enabled| == |before| == THREADS && Progress(d, vrf, before, enabled, contents, safe)
    ensures var now := WordWritten(d, bs[i], l, contents, enabled, vrf);
            && Progress(d, now, before, enabled, contents, safe)
            && |bs[i].mask| == BUS
            && (safe ==>
                  && Written(d, vrf, now, contents)
                  && (bs[i].mask[l] ==>
                        var x := bs[i].addr + l;
                        && 0 <= x < |contents| && 0 <= ThreadFor(d, x) < THREADS
                        && (enabled[ThreadFor(d, x)] ==> now[ThreadFor(d, x)] == contents[x])))
  {
    hide Requested, TrueLine, TileBursts, WordFor, ThreadFor, RegIdx, Wants, Width, Height, Phase, PeriodOf;
    LaneInFile(d, w, bs, i, l, safe, |contents|);
    if bs[i].mask[l] {
      OneThread(d, bs[i].addr + l);
    }
  }

  lemma {:induction false} BurstProgress(d: Descriptor, w: nat, bs: seq<Burst>, i: nat, n: nat, safe: bool,
                                         contents: seq<int>, enabled: seq<bool>, vrf: seq<int>, before: seq<int>)
    requires TileBursts(d, bs, safe) && GroupTile(d, w, |contents|) && i < |bs| && n <= BUS
    requires |vrf| == |enabled| == |before| == THREADS && Progress(d, vrf, before, enabled, contents, safe)
    ensures var now := BurstWritten(d, bs[i], n, contents, enabled, vrf);
            && Progress(d, now, before, enabled, contents, safe)
            && |bs[i].mask| == BUS
            && (safe ==> InRegisters(d, now, enabled, contents, bs[i], n) && Written(d, vrf, now, contents))
  {
    hide Requested, TileBursts, WordFor, ThreadFor, Width, Height, Progress, WordWritten, GroupTile;
    GroupTileParts(d, w, |contents|);
    LaneInFile(d, w, bs, i, 0, safe, |contents|);
    if n > 0 {
      var was := BurstWritten(d, bs[i], n - 1, contents, enabled, vrf);
      BurstProgress(d, w, bs, i, n - 1, safe, contents, enabled, vrf, before);
      WordProgress(d, w, bs, i, n - 1, safe, contents, enabled, was, before);
      if safe {
        forall k | 0 <= k < n - 1 && bs[i].mask[k]
          ensures Requested(d, bs[i].addr + k)
        {
          LaneInFile(d, w, bs, i, k, safe, |contents|);
        }
        StaysInRegisters(d, was, BurstWritten(d, bs[i], n, contents, enabled, vrf), enabled, contents, bs[i], n - 1);
      }
    }
  }

  lemma GroupTileParts(d: Descriptor, w: nat, memory: nat)
    requires GroupTile(d, w, memory)
    ensures Tile(d) && d.dstOffX == d.dstOffY == 0 && w <= 5 && d.dstPeriod == Width(w)
  {
  }

  lemma {:induction false} TileProgress(d: Descriptor, w: nat, bs: seq<Burst>, n: nat, safe: bool,
                                        contents: seq<int>, enabled: seq<bool>, before: seq<int>)
    requires TileBursts(d, bs, safe) && GroupTile(d, w, |contents|) && n <= |bs|
    requires |enabled| == |before| == THREADS
    ensures d.dstPeriod > 0 && d.period > 0
    ensures var now := TileWritten(d, bs, n, contents, enabled, before);
            && Progress(d, now, before, enabled, contents, safe)
            && (safe ==> forall j :: 0 <= j < n ==>
                  |bs[j].mask| == BUS && InRegisters(d, now, enabled, contents, bs[j], BUS))
  {
    hide Requested, TileBursts, InRegisters, Written, GroupTile, BurstWritten, Progress, Width, Height;
    GroupTileParts(d, w, |contents|);
    if n == 0 {
      Untouched(d, before, enabled, contents, safe);
    } else {
      var was := TileWritten(d, bs, n - 1, contents, enabled, before);
      TileProgress(d, w, bs, n - 1, safe, contents, enabled, before);
      BurstProgress(d, w, bs, n - 1, BUS, safe, contents, enabled, was, before);
      if safe {
        forall j | 0 <= j < n - 1
          ensures InRegisters(d, TileWritten(d, bs, n, contents, enabled, before), enabled, contents, bs[j], BUS)
        {
          BurstStays(d, bs, j, was, TileWritten(d, bs, n, contents, enabled, before), enabled, contents);
        }
      }
    }
  }

  lemma PhasesAreNat(d: Descriptor, x: int)
    requires d.period > 0
    ensures Phase(d, x) >= 0
  {
  }

  lemma ThreadBound(d: Descriptor, w: nat, x: int)
    requires Tile(d) && Requested(d, x) && w <= 5 && d.dstPeriod == Width(w) && d.count <= Height(w)
    ensures 0 <= ThreadFor(d, x) < THREADS
  {
    hide Width, Height, Requested, PeriodOf, Phase;
    OneThread(d, x);
    RequestedIsPhase(d, x);
    BelowProduct(PeriodOf(d, x), Phase(d, x), Height(w), Width(w));
  }

  lemma IsTile(a: Access, memory: nat)
    requires Loadable(a, memory)
    ensures GroupTile(DescriptorOf(a), a.w, memory)
  {
    hide Pow2, Height, Width;
    var d := DescriptorOf(a);
    forall x | Requested(d, x)
      ensures 0 <= x < memory
    {
      RequestedIsPhase(d, x);
    }
  }

  /** In terms of the thread's own position. */
  lemma Position(a: Access, c: nat, l: nat)
    requires InBuffer(a) && c < COLUMNS && l < LANES
    ensures var (d, x, y, t) := (DescriptorOf(a), TidX(a.w, a.g, c, l), TidY(a.w, a.g, c, l), Thread(c, l));
            && t < THREADS
            && (Wants(d, t) <==> x + a.ox < a.dimX && y < a.d1)
            && WordFor(d, t) == a.buffer + (y + a.oy) * a.dimX + (x + a.ox)
  {
    hide TidX, TidY, Pow2, Width, Height;
    var d, t := DescriptorOf(a), Thread(c, l);
    TidXIs(a.w, a.g, c, l);
    TidYIs(a.w, a.g, c, l);
    RowBelow(t, Width(a.w), Height(a.w));
    var (k, base) := (t / Width(a.w), a.g.offY + a.oy);
    assert base * a.dimX + k * a.dimX == (base + k) * a.dimX;
  }

  lemma Received(d: Descriptor, bs: seq<Burst>, vrf: seq<int>, enabled: seq<bool>, contents: seq<int>, t: nat)
    requires TileBursts(d, bs, true) && |vrf| == |enabled| && t < |vrf| && Wants(d, t)
    requires forall j :: 0 <= j < |bs| ==> |bs[j].mask| == BUS && InRegisters(d, vrf, enabled, contents, bs[j], BUS)
    ensures 0 <= WordFor(d, t) < |contents| && (enabled[t] ==> vrf[t] == contents[WordFor(d, t)])
  {
    hide Requested, ExactCover, TileBursts, Wants, WordFor;
    TileOf(d, bs, true);
    OneWord(d, t);
    var x := WordFor(d, t);
    var i := SomeBurstHolds(d, BUS, d.addr % BUS, bs, x);
    var k := x - bs[i].addr;
    assert bs[i].mask[k] && bs[i].addr + k == x;
  }

  /** The thread in column c and lane l, if enabled and in the clipped tile, holds its element. */
  ghost predicate Gets(a: Access, contents: seq<int>, enabled: seq<bool>, before: seq<int>, vrf: seq<int>, c: nat,
                       l: nat)
    requires a.w <= 5 && c < COLUMNS && l < LANES && |vrf| == |before| == |enabled| == THREADS
  {
    var (x, y, t) := (TidX(a.w, a.g, c, l), TidY(a.w, a.g, c, l), Thread(c, l));
    if enabled[t] && x + a.ox < a.dimX && y < a.d1 then
      var e := a.buffer + (y + a.oy) * a.dimX + (x + a.ox);
      0 <= e < |contents| && vrf[t] == contents[e]
    else vrf[t] == before[t]
  }

  ghost predicate AllGet(a: Access, contents: seq<int>, enabled: seq<bool>, before: seq<int>, vrf: seq<int>)
    requires a.w <= 5 && |vrf| == |before| == |enabled| == THREADS
  {
    forall c: nat, l: nat :: c < COLUMNS && l < LANES ==> Gets(a, contents, enabled, before, vrf, c, l)
  }

  /** First thread of the last line of the clipped tile. */
  function LastThread(a: Access): (t: nat)
    requires InBuffer(a)
    ensures t < THREADS && t / Width(a.w) == DescriptorOf(a).count - 1 && t % Width(a.w) == 0
  {
    LastThreadBound(a);
    (DescriptorOf(a).count - 1) * Width(a.w)
  }

  lemma LastThreadBound(a: Access)
    requires InBuffer(a)
    ensures var t := (DescriptorOf(a).count - 1) * Width(a.w);
            0 <= t < THREADS && t / Width(a.w) == DescriptorOf(a).count - 1 && t % Width(a.w) == 0
  {
    hide Width, Height;
    var k := DescriptorOf(a).count - 1;
    MulMono(0, k, Width(a.w));
    BelowProduct(k, 0, Height(a.w), Width(a.w));
    DivModUnique(k * Width(a.w), Width(a.w), k, 0);
  }

  /** What a load leaves in the registers. Each enabled thread inside the clipped tile receives its
      own element of the buffer, at its own position displaced by the offsets, and no other register
      changes, if no line is lost; if one is, the last line of the tile receives nothing. So a load is
      right, where that can be told from the contents, exactly for the tiles that lose no line. */
  lemma LoadTheorem(a: Access, bs: seq<Burst>, contents: seq<int>, enabled: seq<bool>, before: seq<int>)
    requires Loadable(a, |contents|) && |enabled| == |before| == THREADS
    requires Emitted(DescriptorOf(a), BUS, DescriptorOf(a).addr % BUS, bs)
    ensures var d, t := DescriptorOf(a), LastThread(a);
            var vrf := TileWritten(d, bs, |bs|, contents, enabled, before);
            && (RegisterCondition(d) ==> AllGet(a, contents, enabled, before, vrf))
            && (!RegisterCondition(d) ==> LastLineKept(d, vrf, before))
            && 0 <= WordFor(d, t) < |contents|
            && (enabled[t] && contents[WordFor(d, t)] != before[t] ==>
                  (AllGet(a, contents, enabled, before, vrf) <==> RegisterCondition(d)))
  {
    hide Requested, TileBursts, RegisterCondition, WordFor, Width, Height, Pow2, AllGet, InRegisters, Tile,
         LastLineKept, OnlyWanted, TileWritten, Emitted, EndAddr;
    var d := DescriptorOf(a);
    IsTile(a, |contents|);
    RegistersTheorem(d, a.w, bs);
    TileProgress(d, a.w, bs, |bs|, RegisterCondition(d), contents, enabled, before);
    var vrf := TileWritten(d, bs, |bs|, contents, enabled, before);
    if RegisterCondition(d) {
      Loaded(a, bs, contents, enabled, before, vrf);
    }
    LastTells(a, contents, enabled, before, vrf);
  }

  /** A vector load of a work-group's tile. */
  method LoadLinear(a: Access, contents: seq<int>, enabled: seq<bool>, before: seq<int>)
    returns (vrf: seq<int>, ghost bs: seq<Burst>)
    requires Loadable(a, |contents|) && |enabled| == |before| == THREADS
    ensures |vrf| == THREADS && Emitted(DescriptorOf(a), BUS, DescriptorOf(a).addr % BUS, bs)
    ensures vrf == TileWritten(DescriptorOf(a), bs, |bs|, contents, enabled, before)
    ensures RegisterCondition(DescriptorOf(a)) ==> AllGet(a, contents, enabled, before, vrf)
    ensures !RegisterCondition(DescriptorOf(a)) ==> LastLineKept(DescriptorOf(a), vrf, before)
    ensures var t := LastThread(a);
            && 0 <= WordFor(DescriptorOf(a), t) < |contents|
            && (enabled[t] && contents[WordFor(DescriptorOf(a), t)] != before[t] ==>
                  (AllGet(a, contents, enabled, before, vrf) <==> RegisterCondition(DescriptorOf(a))))
  {
    hide Requested, TileBursts, RegisterCondition, WordFor, Width, Height, Pow2, AllGet, InRegisters, Tile,
         LastLineKept, OnlyWanted, Emitted, ExactCover, LinesExact, PhasesExact, EndAddr;
    var d := DescriptorOf(a);
    IsTile(a, |contents|);
    PowerIsPower(a.w + 5);
    var run := Sequence(d, BUS, d.addr % BUS);
    bs := run.value;
    RegistersTheorem(d, a.w, bs);
    var file := new int[THREADS](i requires 0 <= i < |before| => before[i]);
    assert file[..] == before;
    var bursts := run.value;
    for i := 0 to |bursts|
      invariant file[..] == TileWritten(d, bursts, i, contents, enabled, before)
    {
      WriteBurst(d, a.w, bursts, i, RegisterCondition(d), contents, enabled, file);
    }
    vrf := file[..];
    LoadTheorem(a, bs, contents, enabled, before);
  }

  /** Write a burst to the registers of enabled threads. */
  method WriteBurst(d: Descriptor, ghost w: nat, bs: seq<Burst>, i: nat, ghost safe: bool, contents: seq<int>,
                    enabled: seq<bool>, vrf: array<int>)
    requires TileBursts(d, bs, safe) && GroupTile(d, w, |contents|) && i < |bs| && vrf.Length == |enabled| == THREADS
    modifies vrf
    ensures vrf[..] == BurstWritten(d, bs[i], BUS, contents, enabled, old(vrf[..]))
  {
    hide Requested, TileBursts, ThreadFor, RegIdx, Width, Height, Tile;
    var b := bs[i];
    LaneInFile(d, w, bs, i, 0, safe, |contents|);
    for l := 0 to BUS
      invariant vrf[..] == BurstWritten(d, b, l, contents, enabled, old(vrf[..]))
    {
      LaneInFile(d, w, bs, i, l, safe, |contents|);
      if b.mask[l] {
        var t := RegIdx(d, b.phase[l], b.line[l]);
        if enabled[t] {
          vrf[t] := contents[b.addr + l];
        }
      }
    }
  }

  lemma Untouched(d: Descriptor, before: seq<int>, enabled: seq<bool>, contents: seq<int>, safe: bool)
    requires |before| == |enabled| && d.dstPeriod > 0
    ensures Progress(d, before, before, enabled, contents, safe)
  {
  }

  lemma BurstStays(d: Descriptor, bs: seq<Burst>, j: nat, was: seq<int>, now: seq<int>, enabled: seq<bool>,
                   contents: seq<int>)
    requires TileBursts(d, bs, true) && d.dstOffY == 0 && j < |bs| && |bs[j].mask| == BUS
    requires |was| == |now| == |enabled|
    requires InRegisters(d, was, enabled, contents, bs[j], BUS) && Written(d, was, now, contents)
    ensures InRegisters(d, now, enabled, contents, bs[j], BUS)
  {
    hide TileBursts, Requested, InRegisters, Written;
    TileOf(d, bs, true);
    forall l | 0 <= l < BUS && bs[j].mask[l]
      ensures Requested(d, bs[j].addr + l)
    {
      BurstParts(d, bs, true, j, l);
    }
    StaysInRegisters(d, was, now, enabled, contents, bs[j], BUS);
  }

  lemma Loaded(a: Access, bs: seq<Burst>, contents: seq<int>, enabled: seq<bool>, before: seq<int>, vrf: seq<int>)
    requires InBuffer(a) && |enabled| == |before| == |vrf| == THREADS
    requires TileBursts(DescriptorOf(a), bs, true) && OnlyWanted(DescriptorOf(a), vrf, before, enabled, contents)
    requires forall j :: 0 <= j < |bs| ==>
               |bs[j].mask| == BUS && InRegisters(DescriptorOf(a), vrf, enabled, contents, bs[j], BUS)
    ensures AllGet(a, contents, enabled, before, vrf)
  {
    hide Requested, TileBursts, TidX, TidY, Width, Height, Pow2, InRegisters, Wants, WordFor;
    forall c: nat, l: nat | c < COLUMNS && l < LANES
      ensures Gets(a, contents, enabled, before, vrf, c, l)
    {
      Position(a, c, l);
      if Wants(DescriptorOf(a), Thread(c, l)) {
        Received(DescriptorOf(a), bs, vrf, enabled, contents, Thread(c, l));
      }
    }
  }

  /** If its last line is untouched, a load has gone wrong, unless the contents hide it. */
  lemma LastTells(a: Access, contents: seq<int>, enabled: seq<bool>, before: seq<int>, vrf: seq<int>)
    requires Loadable(a, |contents|) && |enabled| == |before| == |vrf| == THREADS
    ensures var d, t := DescriptorOf(a), LastThread(a);
            && 0 <= WordFor(d, t) < |contents|
            && (LastLineKept(d, vrf, before) && enabled[t] && contents[WordFor(d, t)] != before[t] ==>
                  !AllGet(a, contents, enabled, before, vrf))
  {
    hide Requested, Width, Height, Pow2, TidX, TidY, InRange;
    var d, t := DescriptorOf(a), LastThread(a);
    IsTile(a, |contents|);
    OneWord(d, t);
    var c, l := t / LANES, t % LANES;
    assert Thread(c, l) == t;
    Position(a, c, l);
    assert AllGet(a, contents, enabled, before, vrf) ==> Gets(a, contents, enabled, before, vrf, c, l);
  }

  // ----- Where it goes wrong

  /** The second column of groups on a buffer of 33 words: each line is one word. */
  const CLIPPED := Access(0, Group(1, 0), 0, 0, 0, 33, 32)

  const CLIPPED_TILE := Descriptor(32, 1, 33, 32, RegisterFile, 0, 32, 0, 0)

  lemma ClippedColumn()
    ensures Loadable(CLIPPED, 33 * 32) && DescriptorOf(CLIPPED) == CLIPPED_TILE && !RegisterCondition(CLIPPED_TILE)
    ensures LastThread(CLIPPED) == 992 && WordFor(CLIPPED_TILE, 992) == 1055
  {
    PowersOfTwo();
    assert DescriptorOf(CLIPPED) == CLIPPED_TILE;
    assert Gap(CLIPPED_TILE, BUS, 32, 15) == 48;
  }

  /** A buffer of five words a line, from its third line on. */
  const FIVE_WIDE := Access(0, Group(0, 0), 0, 2, 0, 5, 32)

  const FIVE_WIDE_TILE := Descriptor(10, 5, 5, 32, RegisterFile, 0, 32, 0, 0)

  lemma NarrowBuffer()
    ensures InBuffer(FIVE_WIDE) && DescriptorOf(FIVE_WIDE) == FIVE_WIDE_TILE
    ensures InRange(FIVE_WIDE_TILE, BUS) && !RegisterCondition(FIVE_WIDE_TILE)
  {
    PowersOfTwo();
    assert FIVE_WIDE.g.offY % Height(FIVE_WIDE.w) == 0;
    assert DescriptorOf(FIVE_WIDE) == FIVE_WIDE_TILE;
    hide LineSafe;
    assert FIVE_WIDE_TILE.addr % BUS == 10;
    assert PhaseShift(FIVE_WIDE_TILE, 10) == 1;
  }

  /** Whatever is emitted for that tile: the load leaves some thread without its element, if the last
      line has a thread to tell by. */
  lemma LoadClippedColumn(bs: seq<Burst>, contents: seq<int>, enabled: seq<bool>, before: seq<int>)
    requires Emitted(CLIPPED_TILE, BUS, 0, bs)
    requires |contents| == 33 * 32 && |enabled| == |before| == THREADS && enabled[992] && contents[1055] != before[992]
    ensures Loadable(CLIPPED, 33 * 32) && DescriptorOf(CLIPPED) == CLIPPED_TILE
    ensures !AllGet(CLIPPED, contents, enabled, before, TileWritten(CLIPPED_TILE, bs, |bs|, contents, enabled, before))
  {
    hide AllGet, RegisterCondition, Loadable, LastLineKept, Emitted, TileWritten, LastThread, WordFor, InBuffer,
         DescriptorOf;
    ClippedColumn();
    assert CLIPPED_TILE.addr % BUS == 0;
    LoadTheorem(CLIPPED, bs, contents, enabled, before);
  }
}
