/** The arithmetic of the stride sequencers: how far one clock moves the address, and what
that does to the phase and line registers of a lane. */
module StrideArithmetic {
  import opened Arith
  import opened Stride

  // ----- What the lane registers should hold

  /** Error of the first lane's phase: (period - off) is taken in 64 bits. */
  function PhaseShift(d: Descriptor, off: nat): nat
    requires d.period > 0
  {
    if off <= d.period then 0 else TWO_64 % d.period
  }

  function ShiftedPhase(d: Descriptor, shift: nat, a: int): nat
    requires d.period > 0
  {
    (a - d.addr + shift) % d.period
  }

  predicate Selected(d: Descriptor, shift: nat, a: int)
    requires d.period > 0
  {
    d.addr <= a < EndAddr(d) && ShiftedPhase(d, shift, a) < d.words
  }

  function TrueLine(d: Descriptor, a: int): int
    requires d.period > 0
  {
    d.dstOffY + (a - d.addr) / d.period
  }

  /** Number of selected words in [lo, hi). */
  function CountSelected(d: Descriptor, shift: nat, lo: int, hi: int): nat
    requires d.period > 0
    decreases hi - lo
  {
    if hi <= lo then 0
    else CountSelected(d, shift, lo, hi - 1) + if Selected(d, shift, hi - 1) then 1 else 0
  }

  lemma {:induction false} CountSelectedSplit(d: Descriptor, shift: nat, lo: int, mid: int, hi: int)
    requires d.period > 0 && lo <= mid <= hi
    ensures CountSelected(d, shift, lo, hi)
         == CountSelected(d, shift, lo, mid) + CountSelected(d, shift, mid, hi)
    decreases hi - mid
  {
    if mid < hi {
      CountSelectedSplit(d, shift, lo, mid, hi - 1);
    }
  }

  lemma {:induction false} CountSelectedNone(d: Descriptor, shift: nat, lo: int, hi: int)
    requires d.period > 0 && lo <= hi
    requires forall a :: lo <= a < hi ==> !Selected(d, shift, a)
    ensures CountSelected(d, shift, lo, hi) == 0
    decreases hi - lo
  {
    if lo < hi {
      CountSelectedNone(d, shift, lo, hi - 1);
    }
  }

  // ----- The increments

  /** `skip` before and after its low bits are cleared, and `skip_rest`. */
  function RawSkip(d: Descriptor, w: nat): int {
    d.period - (d.words + (w - 1))
  }

  function SkipRest(d: Descriptor, w: nat): nat
    requires w > 0
  {
    Wrap32(RawSkip(d, w) % w + d.words - 1)
  }

  function AddressIncrement(d: Descriptor, w: nat, p: nat): int
    requires w > 0
  {
    var skip := AlignDown(RawSkip(d, w), w);
    if p < Sub64(d.words, 1) || d.period < w then w
    else if p < SkipRest(d, w) then Wrap32(skip + w) + w
    else skip + w
  }

  /** Rounding the skip down and comparing with its remainder divides by the bus width. */
  lemma SkipQuotient(raw: int, w: nat, t: int)
    requires w > 0 && 0 <= t < w && raw + w - 1 - t >= 0
    ensures (raw + w - 1 - t) / w * w == AlignDown(raw, w) + if t < raw % w then w else 0
    ensures AlignDown(raw, w) + w >= 0
  {
    var q, r := raw / w, raw % w;
    assert raw == q * w + r;
    if t < r {
      assert (q + 1) * w == q * w + w;
      DivModUnique(raw + w - 1 - t, w, q + 1, r - 1 - t);
    } else {
      DivModUnique(raw + w - 1 - t, w, q, r + w - 1 - t);
    }
  }

  /** Nothing wraps in the registers that steer the skip. */
  lemma SkipRegisters(d: Descriptor, w: nat)
    requires FieldWidths(d, w) && 1 <= d.words <= d.period
    ensures SkipRest(d, w) == RawSkip(d, w) % w + d.words - 1
    ensures Sub64(d.words, 1) == d.words - 1
    ensures Wrap32(AlignDown(RawSkip(d, w), w) + w) == AlignDown(RawSkip(d, w), w) + w
  {
    assert AlignDown(RawSkip(d, w), w) + w > RawSkip(d, w) >= 1 - w;
    SkipQuotient(RawSkip(d, w), w, 0);
  }

  /** The comparison with skip_rest picks exactly the number of whole empty windows. */
  lemma IncrementIsExact(d: Descriptor, w: nat, p: nat)
    requires FieldWidths(d, w) && p < d.period
    requires w <= d.period && 1 <= d.words <= d.period ==> p <= d.words + w - 2
    ensures AddressIncrement(d, w, p) ==
            if w <= d.period && 1 <= d.words <= p + 1
            then EmptyWindows(d.period, w, p) * w + w else w
  {
    if w <= d.period && 1 <= d.words <= p + 1 {
      SkipRegisters(d, w);
      var raw, t := RawSkip(d, w), p - (d.words - 1);
      assert raw + w - 1 - t == d.period - 1 - p;
      SkipQuotient(raw, w, t);
    }
  }

  lemma PhaseAhead(d: Descriptor, b: int, n: nat)
    requires d.period > 0 && Phase(d, b) + n < 2 * d.period
    ensures Phase(d, b + n)
         == if Phase(d, b) + n >= d.period then Phase(d, b) + n - d.period else Phase(d, b) + n
  {
    AddMod(b - d.addr, n, d.period);
    assert b + n - d.addr == b - d.addr + n;
  }

  /** The empty windows end before the next period, and leave less than a window to it. */
  lemma EmptyWindowsFit(period: nat, w: nat, p: nat)
    requires 0 < w && p < period
    ensures 0 <= EmptyWindows(period, w, p) * w <= period - 1 - p
    ensures period - 1 - p < EmptyWindows(period, w, p) * w + w
  {
    var r := (period - 1 - p) % w;
    assert period - 1 - p == EmptyWindows(period, w, p) * w + r;
    MulMono(0, EmptyWindows(period, w, p), w);
  }

  /** No word in the windows stepped over is selected, the increment is below two periods,
      and the next window is live again: its last word is less than a window past a
      requested one. */
  lemma IncrementSkipsOnlyEmpty(d: Descriptor, w: nat, b: int, inc: int)
    requires FieldWidths(d, w) && d.period >= w && 1 <= d.words <= d.period
    requires Phase(d, b) <= d.words + w - 2
    requires inc == AddressIncrement(d, w, Phase(d, b))
    ensures w <= inc < 2 * d.period
    ensures forall a :: b < a <= b + inc - w ==> Phase(d, a) >= d.words
    ensures Phase(d, b + inc) <= d.words + w - 2
    ensures Phase(d, b) >= d.words - 1 ==>
              Phase(d, b + inc) < w && Phase(d, b + inc) == Phase(d, b) + inc - d.period
    ensures Phase(d, b) < d.words - 1 ==> inc == w
  {
    var p := Phase(d, b);
    IncrementIsExact(d, w, p);
    if d.words <= p + 1 {
      EmptyWindowsFit(d.period, w, p);
      forall a | b < a <= b + inc - w
        ensures Phase(d, a) >= d.words
      {
        PhaseAhead(d, b, a - b);
      }
    }
    PhaseAhead(d, b, inc);
  }

  // ----- Line register arithmetic

  function PhaseIncrement(d: Descriptor, w: nat, inc: nat): int
  {
    if d.period < w then (if d.period == 0 then 0 else w % d.period)
    else if inc >= d.period then inc - d.period else inc
  }

  function LineIncrement(d: Descriptor, w: nat): nat
    requires d.period > 0 && w > 0
  {
    if d.period < w then (w - 1) / d.period else 0
  }

  /** One lane's update: single-overflow modulo for the phase, base increment and carry for
      the line. The line loses one exactly when the address moves by more than a period. */
  lemma LaneStep(d: Descriptor, w: nat, x: int, inc: int)
    requires FieldWidths(d, w) && w <= inc
    requires if d.period < w then inc == w else inc < 2 * d.period
    ensures var ph := PhaseIncrement(d, w, inc); var out := x % d.period + ph;
            && 0 <= ph < d.period
            && (x + inc) % d.period == (if out >= d.period then out - d.period else out)
            && (x + inc) / d.period
               == x / d.period + LineIncrement(d, w)
                  + (if out >= d.period || ph == 0 then 1 else 0)
                  + (if w <= d.period && inc > d.period then 1 else 0)
  {
    if d.period < w {
      SmallPeriodStep(w, d.period, x);
    } else if inc < d.period {
      AddMod(x, inc, d.period);
    } else {
      AddMod(x, inc - d.period, d.period);
      AddMultiple(x + (inc - d.period), 1, d.period);
    }
  }

  lemma SmallPeriodStep(w: nat, m: nat, x: int)
    requires 0 < m < w
    ensures var out := x % m + w % m;
            && (x + w) % m == (if out >= m then out - m else out)
            && (x + w) / m == x / m + (w - 1) / m + if out >= m || w % m == 0 then 1 else 0
  {
    var q, r := w / m, w % m;
    assert w == q * m + r;
    AddMod(x, r, m);
    AddMultiple(x + r, q, m);
    assert x + w == x + r + q * m;
    if r == 0 {
      assert w - 1 == (q - 1) * m + (m - 1);
      DivModUnique(w - 1, m, q - 1, m - 1);
    } else {
      DivModUnique(w - 1, m, q, r - 1);
    }
  }
}
