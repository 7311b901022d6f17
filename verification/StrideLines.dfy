/** When the line registers stay right: the lane registers lose a line whenever the address
moves by more than a period, and this module says for which descriptors that happens. */
module StrideLines {
  import opened Arith
  import opened Stride
  import opened StrideArithmetic

  /** Start of the window that holds word a. */
  function WindowOf(origin: int, w: nat, a: int): int
    requires w > 0
  {
    a - (a - origin) % w
  }

  lemma InWindow(origin: int, w: nat, s: int, a: int)
    requires w > 0 && (s - origin) % w == 0 && s <= a < s + w
    ensures WindowOf(origin, w, a) == s
  {
    AddMod(s - origin, a - s, w);
    assert a - origin == s - origin + (a - s);
  }

  /** From the window with the last word of period k to the one with the first of k + 1. */
  function Gap(d: Descriptor, w: nat, origin: int, k: int): int
    requires w > 0
  {
    WindowOf(origin, w, PeriodStart(d, k + 1))
    - WindowOf(origin, w, PeriodStart(d, k) + d.words - 1)
  }

  /** The periods that start before hi were reached by moves of at most one period. */
  ghost predicate SafeBelow(d: Descriptor, w: nat, origin: int, hi: int)
    requires w > 0
  {
    d.period < w
    || forall k :: 0 <= k < d.count - 1 && PeriodStart(d, k + 1) < hi ==> Gap(d, w, origin, k) <= d.period
  }

  /** What a caller can check: no gap between two periods is larger than a period. */
  ghost predicate LineSafe(d: Descriptor, w: nat, origin: int)
    requires w > 0
  {
    d.period < w || forall k :: 0 <= k < d.count - 1 ==> Gap(d, w, origin, k) <= d.period
  }

  /** Three simple conditions, each of which keeps the lines exact. */
  lemma SimpleConditionsAreSafe(d: Descriptor, w: nat, origin: int)
    requires FieldWidths(d, w)
    requires d.words >= w || d.period < w || d.period - d.words < w
    ensures LineSafe(d, w, origin)
  {
    forall k | 0 <= k < d.count - 1
      ensures d.period < w || Gap(d, w, origin, k) <= d.period
    {
      NextStart(d, k);
      if d.words < w <= d.period {
        WholeWindows(origin, w, PeriodStart(d, k + 1), PeriodStart(d, k) + d.words - 1);
      }
    }
  }

  /** Windows are a whole number of bus widths apart. */
  lemma WholeWindows(origin: int, w: nat, a: int, b: int)
    requires w > 0 && a - b <= w
    ensures WindowOf(origin, w, a) - WindowOf(origin, w, b) <= w
  {
    var qa, qb := (a - origin) / w, (b - origin) / w;
    assert a - origin == qa * w + (a - origin) % w;
    assert b - origin == qb * w + (b - origin) % w;
    DivMono(a - origin, b - origin + w, w);
    AddMultiple(b - origin, 1, w);
    MulMono(qa, qb + 1, w);
  }

  /** The period a word belongs to, and where that period starts. */
  function PeriodOf(d: Descriptor, a: int): int
    requires d.period > 0
  {
    (a - d.addr) / d.period
  }

  lemma PeriodSplit(d: Descriptor, a: int)
    requires d.period > 0
    ensures a == PeriodStart(d, PeriodOf(d, a)) + Phase(d, a)
    ensures d.addr <= a ==> 0 <= PeriodOf(d, a)
  {
    var q := PeriodOf(d, a);
    assert a - d.addr == q * d.period + Phase(d, a);
    if d.addr <= a && q < 0 {
      MulStep(q, 0, d.period);
    }
  }

  lemma PeriodUnique(d: Descriptor, a: int, k: int, r: int)
    requires d.period > 0 && a == PeriodStart(d, k) + r && 0 <= r < d.period
    ensures PeriodOf(d, a) == k && Phase(d, a) == r
  {
    DivModUnique(a - d.addr, d.period, k, r);
  }

  lemma NextStart(d: Descriptor, k: int)
    ensures PeriodStart(d, k + 1) == PeriodStart(d, k) + d.period
  {
    assert (k + 1) * d.period == k * d.period + d.period;
  }

  /** A period that starts in the windows just passed over starts in the one moved to; its
      gap exceeds a period exactly when the move did. */
  lemma GapIsMove(d: Descriptor, w: nat, origin: int, s: int, inc: int, k: int)
    requires FieldWidths(d, w) && w <= d.period && 1 <= d.words <= d.period
    requires (s - origin) % w == 0 && (s + inc - origin) % w == 0
    requires Phase(d, s + w - 1) <= d.words + w - 2
    requires inc == AddressIncrement(d, w, Phase(d, s + w - 1))
    requires s + w <= PeriodStart(d, k + 1) < s + inc + w
    ensures Gap(d, w, origin, k) <= d.period <==> inc <= d.period
  {
    var b, x := s + w - 1, PeriodStart(d, k + 1);
    IncrementSkipsOnlyEmpty(d, w, b, inc);
    PeriodUnique(d, x, k + 1, 0);
    assert s + inc <= x;
    InWindow(origin, w, s + inc, x);
    NextStart(d, k);
    if Phase(d, b) >= d.words - 1 {
      PeriodBefore(d, w, b, inc, k);
      InWindow(origin, w, s, PeriodStart(d, k) + d.words - 1);
    } else {
      PeriodUnique(d, b, k, b - PeriodStart(d, k));
      InWindowAtLeast(origin, w, s + inc, PeriodStart(d, k) + d.words - 1);
    }
  }

  /** If period k + 1 starts in the window after the move, word b was in period k. */
  lemma PeriodBefore(d: Descriptor, w: nat, b: int, inc: int, k: int)
    requires FieldWidths(d, w) && w <= d.period && 1 <= d.words <= d.period
    requires d.words - 1 <= Phase(d, b)
    requires b + inc - w < PeriodStart(d, k + 1) <= b + inc
    requires w <= inc && Phase(d, b + inc) < w && Phase(d, b + inc) == Phase(d, b) + inc - d.period
    ensures b == PeriodStart(d, k) + Phase(d, b)
  {
    var x := PeriodStart(d, k + 1);
    PeriodUnique(d, b + inc, k + 1, b + inc - x);
    NextStart(d, k);
  }

  lemma InWindowAtLeast(origin: int, w: nat, s: int, a: int)
    requires w > 0 && (s - origin) % w == 0 && s <= a
    ensures WindowOf(origin, w, a) >= s
  {
    var qs, qa := (s - origin) / w, (a - origin) / w;
    assert s - origin == qs * w;
    assert a - origin == qa * w + (a - origin) % w;
    DivMono(s - origin, a - origin, w);
    MulMono(qs, qa, w);
  }

  /** A move of more than a period lands on the start of a later period of the request. */
  lemma LongMoveStartsPeriod(d: Descriptor, w: nat, s: int, inc: int) returns (k: int)
    requires FieldWidths(d, w) && w <= d.period && 1 <= d.words <= d.period
    requires d.addr < s + w && s + inc < EndAddr(d)
    requires Phase(d, s + w - 1) <= d.words + w - 2
    requires inc == AddressIncrement(d, w, Phase(d, s + w - 1)) && inc > d.period
    ensures 0 <= k < d.count - 1 && s + w <= PeriodStart(d, k + 1) < s + inc + w
  {
    var b := s + w - 1;
    IncrementSkipsOnlyEmpty(d, w, b, inc);
    PeriodSplit(d, b);
    k := PeriodOf(d, b);
    NextStart(d, k);
    var x := PeriodStart(d, k + 1);
    assert x == b + inc - Phase(d, b + inc);
    if d.count - 1 <= k {
      LaterPeriod(d, d.count - 1, k);
    }
  }

  lemma LaterPeriod(d: Descriptor, k: int, l: int)
    requires k <= l
    ensures PeriodStart(d, k) <= PeriodStart(d, l)
  {
    MulMono(k, l, d.period);
  }

  /** One move keeps track of safety: the windows up to the next one are safe exactly when
      those up to this one are and the move is at most a period. */
  lemma SafeStep(d: Descriptor, w: nat, origin: int, s: int, inc: int)
    requires FieldWidths(d, w) && w <= d.period && 1 <= d.words <= d.period
    requires (s - origin) % w == 0 && (s + inc - origin) % w == 0
    requires d.addr < s + w && s + inc < EndAddr(d)
    requires Phase(d, s + w - 1) <= d.words + w - 2
    requires inc == AddressIncrement(d, w, Phase(d, s + w - 1))
    ensures SafeBelow(d, w, origin, s + inc + w) <==> SafeBelow(d, w, origin, s + w) && inc <= d.period
  {
    IncrementSkipsOnlyEmpty(d, w, s + w - 1, inc);
    forall k | 0 <= k < d.count - 1 && s + w <= PeriodStart(d, k + 1) < s + inc + w
      ensures Gap(d, w, origin, k) <= d.period <==> inc <= d.period
    {
      GapIsMove(d, w, origin, s, inc, k);
    }
    if inc > d.period {
      var k := LongMoveStartsPeriod(d, w, s, inc);
      assert Gap(d, w, origin, k) > d.period;
    }
  }
}
