/** The stride sequencers of the DRAM controller and of the scratchpads.

Both turn a descriptor into windows of `w` words with a word mask, one a clock, from a
phase and a line register a lane that are only ever added to. They differ in where the
first window starts: `off` words before the first word (the word's place in its DRAM burst),
or exactly on it (scratchpad, off = 0). */
module StrideSequencing {
  import opened Arith
  import opened Stride
  import opened StrideArithmetic
  import opened StrideLines

  datatype Burst = Burst(
    addr: int,
    mask: seq<bool>,
    phase: seq<int>,   // lane registers from which register indexes are formed
    line: seq<int>,
    spOffset: int,
    addrNext: int,
    last: bool)

  datatype Result<T> = Ok(value: T) | InvalidArgument

  predicate IsPowerOfTwo(n: nat) {
    n <= 1 || (n % 2 == 0 && IsPowerOfTwo(n / 2))
  }

  /** The descriptors the DRAM sequencer accepts. */
  predicate Accepted(d: Descriptor, w: nat) {
    d.period != 0 &&
    match d.target
    case RegisterFile => IsPowerOfTwo(d.dstPeriod)
    case Scratchpad => d.words == d.dstPeriod || d.period >= d.words + w
    case IndexMemory => true
  }

  function SpLineIncrement(d: Descriptor): nat {
    if d.target == Scratchpad && d.dstPeriod >= d.words then d.dstPeriod - d.words else 0
  }

  /** n times k. */
  function Repeat(n: nat, k: int): int {
    if n == 0 then 0 else Repeat(n - 1, k) + k
  }

  lemma {:induction false} RepeatIsProduct(n: nat, k: int)
    ensures Repeat(n, k) == n * k
  {
    if n > 0 {
      RepeatIsProduct(n - 1, k);
      assert n * k == (n - 1) * k + k;
    }
  }

  function Ones(mask: seq<bool>): nat {
    if mask == [] then 0 else Ones(mask[..|mask| - 1]) + if mask[|mask| - 1] then 1 else 0
  }

  lemma {:induction false} OnesCountSelected(d: Descriptor, shift: nat, s: int, mask: seq<bool>)
    requires d.period > 0
    requires forall l :: 0 <= l < |mask| ==> mask[l] == Selected(d, shift, s + l)
    ensures Ones(mask) == CountSelected(d, shift, s, s + |mask|)
  {
    if mask != [] {
      OnesCountSelected(d, shift, s, mask[..|mask| - 1]);
    }
  }

  /** Last lane of a window that comes next: not too far past a requested word. */
  predicate Live(d: Descriptor, w: nat, s: int)
    requires d.period > 0
  {
    w <= d.period && 1 <= d.words <= d.period ==> Phase(d, s + w - 1) <= d.words + w - 2
  }

  class StrideSequencer {
    const w: nat
    const phase: array<int>
    const line: array<int>
    var d: Descriptor
    var globalAddr: int
    var endAddr: int
    var skip: int
    var skipBw: nat
    var skipRest: nat
    var lineIncrement: nat
    var spLineAddrIncrement: nat
    var dstOffset: int

    ghost var origin: int
    ghost var shift: nat    // constant error of all phases
    ghost var lost: nat     // lines missed so far
    ghost var crossed: nat  // scratchpad line increments so far

    ghost predicate Wired()
      reads this
    {
      && 0 < w == phase.Length == line.Length
      && phase != line
    }

    ghost predicate Configured()
      reads this
    {
      && InRange(d, w) && Accepted(d, w)
      && d.addr < origin + w && origin <= d.addr
      && endAddr == EndAddr(d)
      && skip == AlignDown(RawSkip(d, w), w)
      && skipBw == Wrap32(skip + w)
      && skipRest == SkipRest(d, w)
      && lineIncrement == LineIncrement(d, w)
      && spLineAddrIncrement == SpLineIncrement(d)
      && (d.period >= w ==> shift == 0)
    }

    ghost predicate Lanes()
      reads this, phase, line
      requires Wired() && d.period > 0
    {
      && (forall i :: 0 <= i < w ==> phase[i] == ShiftedPhase(d, shift, globalAddr + i))
      && (shift == 0 ==> forall i :: 0 <= i < w ==> line[i] == TrueLine(d, globalAddr + i) - lost)
    }

    ghost predicate Valid()
      reads this, phase, line
    {
      && Wired() && Configured() && Lanes()
      && origin <= globalAddr
      && Live(d, w, globalAddr)
      && Placed(globalAddr)
    }

    /** The scratchpad offset counts the words before s and the line increments so far. */
    ghost predicate Placed(s: int)
      reads this
      requires d.period > 0
    {
      && (d.target == Scratchpad ==>
            dstOffset == d.dstOffset + CountSelected(d, shift, origin, s)
                         + Repeat(crossed, spLineAddrIncrement))
      && (spLineAddrIncrement > 0 ==> crossed == PeriodOf(d, s + w - 1) - lost)
    }

    constructor (width: nat)
      requires width > 0
      ensures Wired() && w == width && fresh(phase) && fresh(line)
    {
      w := width;
      phase := new int[width];
      line := new int[width];
      d := Descriptor(0, 0, 1, 1, IndexMemory, 0, 0, 0, 0);
    }

    /** Load a descriptor: the only place where something is divided. */
    method InitRequestRegs(desc: Descriptor, off: nat)
      requires Wired() && InRange(desc, w) && Accepted(desc, w) && off < w && off <= desc.addr
      modifies this, phase, line
      ensures Valid() && d == desc && globalAddr == origin == desc.addr - off
      ensures shift == PhaseShift(desc, off) && lost == 0 && crossed == 0
    {
      hide RawSkip, SkipRest, AlignDown, LineIncrement, IsPowerOfTwo;
      d := desc;
      globalAddr := d.addr - off;
      endAddr := d.addr + (d.count - 1) * d.period + d.words;
      dstOffset := d.dstOffset;
      origin, shift, lost, crossed := globalAddr, PhaseShift(d, off), 0, 0;
      InitSkip();
      InitLanes(off);
      FirstWindow(d, w, off);
    }

    method InitSkip()
      requires Wired() && FieldWidths(d, w)
      modifies `skip, `skipBw, `skipRest, `lineIncrement, `spLineAddrIncrement
      ensures skip == AlignDown(RawSkip(d, w), w) && skipBw == Wrap32(skip + w)
      ensures skipRest == SkipRest(d, w) && lineIncrement == LineIncrement(d, w)
      ensures spLineAddrIncrement == SpLineIncrement(d)
    {
      var raw := d.period - (d.words + (w - 1));
      skipRest := Wrap32(raw % w + d.words - 1);
      var low := AlignDown(raw, w);
      skip, skipBw := low, Wrap32(low + w);
      lineIncrement := if d.period < w then (w - 1) / d.period else 0;
      spLineAddrIncrement :=
        if d.target == Scratchpad && d.dstPeriod >= d.words then d.dstPeriod - d.words else 0;
    }

    method InitLanes(off: nat)
      requires Wired() && FieldWidths(d, w) && off < w
      requires globalAddr == d.addr - off && shift == PhaseShift(d, off) && lost == 0
      modifies phase, line
      ensures Lanes()
    {
      var l := (off + (d.period - 1)) / d.period;
      l := d.dstOffY - l;
      var it := Sub64(d.period, off) % d.period;
      FirstLane(d, off);
      for i := 0 to w
        invariant it == ShiftedPhase(d, shift, globalAddr + i)
        invariant shift == 0 ==> l == TrueLine(d, globalAddr + i)
        invariant forall j :: 0 <= j < i ==> phase[j] == ShiftedPhase(d, shift, globalAddr + j)
        invariant shift == 0 ==> forall j :: 0 <= j < i ==> line[j] == TrueLine(d, globalAddr + j)
      {
        phase[i], line[i] := it, l;
        NextLane(d, shift, globalAddr + i);
        it := it + 1;
        if it % d.period != it {
          l := l + 1;
          it := it % d.period;
        }
      }
    }

    /** One clock in the running state. */
    method Emit() returns (b: Burst, ghost inc: nat)
      requires Valid()
      modifies this, phase, line
      ensures Valid() && d == old(d) && origin == old(origin) && shift == old(shift)
      ensures inc == AddressIncrement(d, w, old(phase[w - 1])) && globalAddr == old(globalAddr) + inc
      ensures w <= inc && inc % w == 0
      ensures forall a :: b.addr + w <= a < globalAddr ==> !Selected(d, shift, a)
      ensures b.addr == old(globalAddr) && |b.mask| == w
      ensures forall l :: 0 <= l < w ==> b.mask[l] == Selected(d, shift, b.addr + l)
      ensures b.phase == old(phase[..]) && b.line == old(line[..])
      ensures b.spOffset == if d.target == Scratchpad then old(dstOffset) else 0
      ensures b.last == (globalAddr >= EndAddr(d))
      ensures b.addrNext == if b.last then NO_NEXT else globalAddr
      ensures lost == old(lost) + if w <= d.period && inc > d.period then 1 else 0
    {
      hide RawSkip, SkipRest, AlignDown, LineIncrement, AddressIncrement;
      var s := globalAddr;
      var mask, words := WordMask();
      var phases, lines := phase[..], line[..];
      var spOffset := if d.target == Scratchpad then dstOffset else 0;
      inc := Move(words);
      var last := globalAddr >= endAddr;
      b := Burst(s, mask, phases, lines, spOffset, if last then NO_NEXT else globalAddr, last);
    }

    /** Everything that moves on a clock: lanes, scratchpad offset and address. */
    method Move(words: nat) returns (ghost inc: nat)
      requires Valid() && words == CountSelected(d, shift, globalAddr, globalAddr + w)
      modifies this, phase, line
      ensures Valid() && d == old(d) && origin == old(origin) && shift == old(shift)
      ensures inc == AddressIncrement(d, w, old(phase[w - 1])) && globalAddr == old(globalAddr) + inc
      ensures w <= inc && inc % w == 0
      ensures forall a :: old(globalAddr) + w <= a < globalAddr ==> !Selected(d, shift, a)
      ensures lost == old(lost) + if w <= d.period && inc > d.period then 1 else 0
    {
      hide RawSkip, SkipRest, AlignDown, LineIncrement, AddressIncrement;
      var carried;
      carried, inc := Advance();
      CountAcross(d, shift, origin, old(globalAddr), w, inc);
      Place(words, carried,
            d.dstOffset + CountSelected(d, shift, origin, globalAddr),
            PeriodOf(d, globalAddr + w - 1) - lost);
    }

    /** How far address and phases move after this window. */
    method Increments() returns (addrInc: nat, phInc: nat)
      requires Valid()
      ensures addrInc == AddressIncrement(d, w, phase[w - 1])
      ensures phInc == PhaseIncrement(d, w, addrInc)
      ensures w <= addrInc && addrInc % w == 0
      ensures if d.period < w then addrInc == w else addrInc < 2 * d.period
      ensures forall a :: globalAddr + w <= a < globalAddr + addrInc ==> !Selected(d, shift, a)
      ensures Live(d, w, globalAddr + addrInc)
    {
      var p := phase[w - 1];
      var inc := if p < Sub64(d.words, 1) || d.period < w then w
                 else if p < skipRest then skipBw + w else skip + w;
      MoveAligned(d, w, shift, globalAddr, p, inc);
      MoveSkips(d, w, shift, globalAddr, p, inc);
      addrInc := inc;
      phInc := if d.period < w then w % d.period
               else if addrInc >= d.period then addrInc - d.period else addrInc;
    }

    /** Move address and lanes; a line is lost when the address moves by more than a period. */
    method Advance() returns (carried: bool, ghost inc: nat)
      requires Valid()
      modifies phase, line, `lost, `globalAddr
      ensures inc == AddressIncrement(d, w, old(phase[w - 1])) && globalAddr == old(globalAddr) + inc
      ensures w <= inc && inc % w == 0
      ensures forall a :: old(globalAddr) + w <= a < globalAddr ==> !Selected(d, shift, a)
      ensures Lanes() && Live(d, w, globalAddr)
      ensures lost == old(lost) + if w <= d.period && inc > d.period then 1 else 0
      ensures w <= d.period ==>
                && PeriodOf(d, globalAddr + w - 1) - lost
                   == old(PeriodOf(d, globalAddr + w - 1) - lost) + (if carried then 1 else 0)
                && line[w - 1] == d.dstOffY + PeriodOf(d, globalAddr + w - 1) - lost
    {
      hide RawSkip, SkipRest, AlignDown, AddressIncrement;
      var addrInc, phInc := Increments();
      inc := addrInc;
      ghost var phases, lines := phase[..], line[..];
      var overflew := AdvanceLanes(phInc);
      LanesAdvance(d, w, shift, globalAddr, addrInc, phases, lines, phase[..], line[..], lost);
      LastLaneCarries(d, w, shift, globalAddr, addrInc);
      lost := lost + if w <= d.period && addrInc > d.period then 1 else 0;
      globalAddr := globalAddr + addrInc;
      carried := overflew || phInc == 0;
    }

    /** Move the scratchpad offset past the words of this window, and on to the next line when
        the last lane carried. */
    method Place(words: nat, carried: bool, ghost base: int, ghost lines: int)
      requires Wired()
      requires d.target == Scratchpad ==>
                 dstOffset + words == base + Repeat(crossed, spLineAddrIncrement)
      requires spLineAddrIncrement > 0 ==>
                 && d.target == Scratchpad
                 && crossed + (if carried then 1 else 0) == lines
                 && line[w - 1] == d.dstOffY + lines
      modifies `dstOffset, `crossed
      ensures d.target == Scratchpad ==> dstOffset == base + Repeat(crossed, spLineAddrIncrement)
      ensures spLineAddrIncrement > 0 ==> crossed == lines
    {
      if d.target == Scratchpad {
        dstOffset := dstOffset + words;
        if carried && line[w - 1] > 0 {
          dstOffset := dstOffset + spLineAddrIncrement;
          crossed := crossed + 1;
        }
      }
    }

    method WordMask() returns (mask: seq<bool>, words: nat)
      requires Valid()
      ensures |mask| == w && forall l :: 0 <= l < w ==> mask[l] == Selected(d, shift, globalAddr + l)
      ensures words == CountSelected(d, shift, globalAddr, globalAddr + w)
    {
      mask, words := [], 0;
      for i := 0 to w
        invariant |mask| == i && words == CountSelected(d, shift, globalAddr, globalAddr + i)
        invariant forall l :: 0 <= l < i ==> mask[l] == Selected(d, shift, globalAddr + l)
      {
        var bit := phase[i] < d.words && endAddr > globalAddr + i && d.addr <= globalAddr + i;
        if bit {
          words := words + 1;
        }
        mask := mask + [bit];
      }
    }

    method AdvanceLanes(phInc: nat) returns (overflew: bool)
      requires Wired() && d.period > 0
      modifies phase, line
      ensures forall i :: 0 <= i < w ==>
                phase[i] == if old(phase[i]) + phInc >= d.period
                            then old(phase[i]) + phInc - d.period else old(phase[i]) + phInc
      ensures forall i :: 0 <= i < w ==>
                line[i] == old(line[i]) + lineIncrement
                           + if old(phase[i]) + phInc >= d.period || phInc == 0 then 1 else 0
      ensures overflew == (old(phase[w - 1]) + phInc >= d.period)
    {
      overflew := false;
      for i := 0 to w
        invariant forall j :: 0 <= j < i ==>
                    phase[j] == if old(phase[j]) + phInc >= d.period
                                then old(phase[j]) + phInc - d.period else old(phase[j]) + phInc
        invariant forall j :: 0 <= j < i ==>
                    line[j] == old(line[j]) + lineIncrement
                               + if old(phase[j]) + phInc >= d.period || phInc == 0 then 1 else 0
        invariant forall j :: i <= j < w ==> phase[j] == old(phase[j]) && line[j] == old(line[j])
        invariant i > 0 ==> overflew == (old(phase[i - 1]) + phInc >= d.period)
      {
        line[i] := line[i] + lineIncrement;
        var out := phase[i] + phInc;
        overflew := out >= d.period;
        phase[i] := if overflew then out - d.period else out;
        if overflew || phInc == 0 {
          line[i] := line[i] + 1;
        }
      }
    }
  }

  // ----- Proof of the initial registers

  /** Round-up division and the 64-bit remainder give line and phase of the first lane. */
  lemma FirstLane(d: Descriptor, off: nat)
    requires 1 <= d.period < TWO_32 && off < TWO_32
    ensures Sub64(d.period, off) % d.period == ShiftedPhase(d, PhaseShift(d, off), d.addr - off)
    ensures PhaseShift(d, off) == 0 ==>
              d.dstOffY - (off + (d.period - 1)) / d.period == TrueLine(d, d.addr - off)
  {
    var shift := PhaseShift(d, off);
    if off <= d.period {
      AddMultiple(0 - off, 1, d.period);
      assert d.period - off == 0 - off + 1 * d.period;
    } else {
      assert Sub64(d.period, off) == TWO_64 + d.period - off;
      var k := TWO_64 / d.period;
      assert TWO_64 == k * d.period + shift;
      AddMultiple(shift - off, k + 1, d.period);
      assert (k + 1) * d.period == k * d.period + d.period;
    }
    RoundUp(off, d.period);
  }

  lemma RoundUp(a: nat, m: nat)
    requires m > 0
    ensures 0 - (a + (m - 1)) / m == (0 - a) / m
  {
    var b: int := 0 - a;
    var q, r := b / m, b % m;
    assert b == q * m + r;
    assert a + (m - 1) == (0 - q) * m + (m - 1 - r);
    DivModUnique(a + (m - 1), m, 0 - q, m - 1 - r);
  }

  lemma NextLane(d: Descriptor, shift: nat, a: int)
    requires d.period > 0
    ensures var it := ShiftedPhase(d, shift, a) + 1;
            && ShiftedPhase(d, shift, a + 1) == it % d.period
            && (shift == 0 ==> TrueLine(d, a + 1) == TrueLine(d, a) + if it % d.period != it then 1 else 0)
  {
    var it := ShiftedPhase(d, shift, a) + 1;
    if d.period == 1 {
      assert it % d.period == 0;
    } else {
      AddMod(a - d.addr + shift, 1, d.period);
      assert a + 1 - d.addr + shift == a - d.addr + shift + 1;
      if it == d.period {
        DivModUnique(it, d.period, 1, 0);
      } else {
        DivModUnique(it, d.period, 0, it);
      }
    }
  }

  lemma FirstWindow(d: Descriptor, w: nat, off: nat)
    requires 1 <= d.period && off < w
    ensures Live(d, w, d.addr - off)
    ensures w <= d.period ==> PeriodOf(d, d.addr - off + w - 1) == 0
  {
    if w <= d.period {
      DivModUnique(w - 1 - off, d.period, 0, w - 1 - off);
    }
  }

  // ----- Proof of one clock

  lemma CountAcross(d: Descriptor, shift: nat, origin: int, s: int, w: nat, inc: nat)
    requires d.period > 0 && origin <= s && w <= inc
    requires forall a :: s + w <= a < s + inc ==> !Selected(d, shift, a)
    ensures CountSelected(d, shift, origin, s + inc)
         == CountSelected(d, shift, origin, s) + CountSelected(d, shift, s, s + w)
  {
    CountSelectedSplit(d, shift, origin, s, s + inc);
    CountSelectedSplit(d, shift, s, s + w, s + inc);
    CountSelectedNone(d, shift, s + w, s + inc);
  }

  lemma MoveAligned(d: Descriptor, w: nat, shift: nat, s: int, p: nat, inc: int)
    requires FieldWidths(d, w) && (d.period >= w ==> shift == 0)
    requires p == ShiftedPhase(d, shift, s + w - 1) && Live(d, w, s)
    requires inc == AddressIncrement(d, w, p)
    ensures inc % w == 0
  {
    IncrementIsExact(d, w, p);
    AddMultiple(0, 1, w);
    if w <= d.period && 1 <= d.words <= p + 1 {
      AddMultiple(w, EmptyWindows(d.period, w, p), w);
    }
  }

  lemma NoShift(d: Descriptor, shift: nat)
    requires d.period > 0 && shift == 0
    ensures forall a :: ShiftedPhase(d, shift, a) == Phase(d, a)
  {
  }

  lemma MoveSkips(d: Descriptor, w: nat, shift: nat, s: int, p: nat, inc: int)
    requires FieldWidths(d, w) && (d.period >= w ==> shift == 0)
    requires p == ShiftedPhase(d, shift, s + w - 1) && Live(d, w, s)
    requires inc == AddressIncrement(d, w, p)
    ensures w <= inc
    ensures if d.period < w then inc == w else inc < 2 * d.period
    ensures forall a :: s + w <= a < s + inc ==> !Selected(d, shift, a)
    ensures Live(d, w, s + inc)
    ensures w <= d.period && inc > d.period ==> 1 <= d.words <= d.period
  {
    if w <= d.period && 1 <= d.words <= d.period {
      NoShift(d, shift);
      IncrementSkipsOnlyEmpty(d, w, s + w - 1, inc);
      assert s + w - 1 + inc == s + inc + w - 1;
    } else {
      PlainIncrement(d, w, p);
    }
  }

  /** Without empty windows between periods the address moves by one window. */
  lemma PlainIncrement(d: Descriptor, w: nat, p: nat)
    requires FieldWidths(d, w) && p < d.period
    requires d.period < w || d.words == 0 || d.words > d.period
    ensures AddressIncrement(d, w, p) == w
  {
  }

  /** For periods of at least a window, the last lane's period number follows its carry. */
  lemma LastLaneCarries(d: Descriptor, w: nat, shift: nat, s: int, inc: nat)
    requires FieldWidths(d, w) && w <= inc && (w <= d.period ==> shift == 0)
    requires if d.period < w then inc == w else inc < 2 * d.period
    ensures w <= d.period ==>
              PeriodOf(d, s + inc + w - 1) == PeriodOf(d, s + w - 1)
                + (if ShiftedPhase(d, shift, s + w - 1) + PhaseIncrement(d, w, inc) >= d.period
                      || PhaseIncrement(d, w, inc) == 0 then 1 else 0)
                + (if inc > d.period then 1 else 0)
  {
    if w <= d.period {
      NoShift(d, shift);
    }
    LaneStep(d, w, s + w - 1 - d.addr, inc);
    assert s + inc + w - 1 - d.addr == s + w - 1 - d.addr + inc;
  }

  lemma LanesAdvance(d: Descriptor, w: nat, shift: nat, s: int, inc: nat,
                     ph: seq<int>, ln: seq<int>, ph': seq<int>, ln': seq<int>, lost: nat)
    requires FieldWidths(d, w) && w <= inc
    requires if d.period < w then inc == w else inc < 2 * d.period
    requires |ph| == |ln| == |ph'| == |ln'| == w
    requires forall i :: 0 <= i < w ==> ph[i] == ShiftedPhase(d, shift, s + i)
    requires shift == 0 ==> forall i :: 0 <= i < w ==> ln[i] == TrueLine(d, s + i) - lost
    requires forall i :: 0 <= i < w ==>
               var out := ph[i] + PhaseIncrement(d, w, inc);
               && ph'[i] == (if out >= d.period then out - d.period else out)
               && ln'[i] == ln[i] + LineIncrement(d, w)
                            + if out >= d.period || PhaseIncrement(d, w, inc) == 0 then 1 else 0
    ensures forall i :: 0 <= i < w ==> ph'[i] == ShiftedPhase(d, shift, s + inc + i)
    ensures shift == 0 ==> forall i :: 0 <= i < w ==>
              ln'[i] == TrueLine(d, s + inc + i)
                        - (lost + if w <= d.period && inc > d.period then 1 else 0)
  {
    forall i | 0 <= i < w
      ensures ph'[i] == ShiftedPhase(d, shift, s + inc + i)
      ensures shift == 0 ==>
                ln'[i] == TrueLine(d, s + inc + i)
                          - (lost + if w <= d.period && inc > d.period then 1 else 0)
    {
      LaneStep(d, w, s + i - d.addr + shift, inc);
      assert s + inc + i - d.addr + shift == s + i - d.addr + shift + inc;
    }
  }
}
