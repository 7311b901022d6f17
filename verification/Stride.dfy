/** What a two-dimensional stride request asks for, stated without any of the sequencer's
registers. Addresses are in 32-bit words. */
module Stride {
  import opened Arith

  datatype Target = RegisterFile | Scratchpad | IndexMemory

  datatype Descriptor = Descriptor(
    addr: nat,       // first word
    words: nat,      // words per period
    period: nat,     // distance between the starts of two periods
    count: nat,      // number of periods
    target: Target,
    dstOffset: nat,  // first scratchpad word
    dstPeriod: nat,
    dstOffX: nat,
    dstOffY: nat)

  /** Widths of the descriptor's fields, and room to run past the last period without
      leaving the 32-bit byte address space. */
  predicate FieldWidths(d: Descriptor, w: nat) {
    && 1 <= w <= 1024
    && d.words < 0x10_0000 && d.dstPeriod < 0x10_0000
    && 1 <= d.period < 0x10_0000
    && 1 <= d.count < 0x10_0000
  }

  predicate InRange(d: Descriptor, w: nat) {
    && FieldWidths(d, w)
    && EndAddr(d) + d.period + w < 0x4000_0000
  }

  function PeriodStart(d: Descriptor, k: int): int {
    d.addr + k * d.period
  }

  function EndAddr(d: Descriptor): int {
    PeriodStart(d, d.count - 1) + d.words
  }

  /** Word a belongs to one of the requested periods. */
  ghost predicate Requested(d: Descriptor, a: int) {
    exists k :: 0 <= k < d.count && PeriodStart(d, k) <= a < PeriodStart(d, k) + d.words
  }

  /** The window of w words from address s holds a requested word. */
  ghost predicate Hit(d: Descriptor, w: nat, s: int) {
    exists a :: s <= a < s + w && Requested(d, a)
  }

  function WindowStart(origin: int, w: nat, j: int): int {
    origin + j * w
  }

  /** Start addresses of the first n windows from origin that hold a requested word. */
  ghost function HitWindows(d: Descriptor, w: nat, origin: int, n: nat): seq<int> {
    if n == 0 then []
    else
      var s := WindowStart(origin, w, n - 1);
      HitWindows(d, w, origin, n - 1) + (if Hit(d, w, s) then [s] else [])
  }

  /** All windows that hold a requested word, in increasing order. */
  ghost function Cover(d: Descriptor, w: nat, origin: int): seq<int>
    requires w > 0 && origin <= EndAddr(d)
  {
    HitWindows(d, w, origin, DivUp(EndAddr(d) - origin, w))
  }

  /** The listed windows are exactly the aligned ones with a requested word. */
  lemma {:induction false} HitWindowsMembers(d: Descriptor, w: nat, origin: int, n: nat)
    ensures forall s :: s in HitWindows(d, w, origin, n) <==>
              (exists j :: 0 <= j < n && s == WindowStart(origin, w, j) && Hit(d, w, s))
  {
    if n > 0 {
      HitWindowsMembers(d, w, origin, n - 1);
      var last := WindowStart(origin, w, n - 1);
      assert last == WindowStart(origin, w, n - 1);
    }
  }

  /** They are listed in increasing order, hence each once. */
  lemma {:induction false} HitWindowsIncrease(d: Descriptor, w: nat, origin: int, n: nat)
    requires w > 0
    ensures forall i, j :: 0 <= i < j < |HitWindows(d, w, origin, n)| ==>
              HitWindows(d, w, origin, n)[i] < HitWindows(d, w, origin, n)[j]
    ensures forall i :: 0 <= i < |HitWindows(d, w, origin, n)| ==>
              HitWindows(d, w, origin, n)[i] < WindowStart(origin, w, n)
  {
    if n > 0 {
      HitWindowsIncrease(d, w, origin, n - 1);
      assert WindowStart(origin, w, n - 1) + w == WindowStart(origin, w, n);
    }
  }

  /** No window beyond the end of the request is hit, so counting further adds nothing. */
  lemma {:induction false} HitWindowsStable(d: Descriptor, w: nat, origin: int, n: nat, m: nat)
    requires 1 <= d.count && n <= m && WindowStart(origin, w, n) >= EndAddr(d)
    ensures HitWindows(d, w, origin, m) == HitWindows(d, w, origin, n)
    decreases m
  {
    if n < m {
      HitWindowsStable(d, w, origin, n, m - 1);
      MulMono(n, m - 1, w);
      NothingBeyondEnd(d, w, WindowStart(origin, w, m - 1));
    }
  }

  lemma NothingBeyondEnd(d: Descriptor, w: nat, s: int)
    requires 1 <= d.count && s >= EndAddr(d)
    ensures !Hit(d, w, s)
  {
    forall a | Requested(d, a)
      ensures a < EndAddr(d)
    {
      var k :| 0 <= k < d.count && PeriodStart(d, k) <= a < PeriodStart(d, k) + d.words;
      MulMono(k, d.count - 1, d.period);
    }
  }

  /** Position of a word relative to the start of the request, taken modulo the period. */
  function Phase(d: Descriptor, a: int): nat
    requires d.period > 0
  {
    (a - d.addr) % d.period
  }

  /** A requested word is one whose phase is below the word count, between start and end.
      This holds for overlapping periods (words > period) too. */
  lemma RequestedIsPhase(d: Descriptor, a: int)
    requires d.period > 0 && d.count > 0
    ensures Requested(d, a) <==> d.addr <= a < EndAddr(d) && Phase(d, a) < d.words
  {
    if k :| 0 <= k < d.count && PeriodStart(d, k) <= a < PeriodStart(d, k) + d.words {
      RequestedHasPhase(d, a, k);
    }
    if d.addr <= a < EndAddr(d) && Phase(d, a) < d.words {
      var k := Min((a - d.addr) / d.period, d.count - 1);
      PhaseIsRequested(d, a, k);
      assert PeriodStart(d, k) <= a < PeriodStart(d, k) + d.words;
    }
  }

  lemma RequestedHasPhase(d: Descriptor, a: int, k: nat)
    requires d.period > 0 && k < d.count
    requires PeriodStart(d, k) <= a < PeriodStart(d, k) + d.words
    ensures d.addr <= a < EndAddr(d) && Phase(d, a) < d.words
  {
    var x := a - PeriodStart(d, k);
    assert Phase(d, a) <= x by {
      assert a - d.addr == x + k * d.period;
      AddMultiple(x, k, d.period);
      ModBound(x, d.period);
    }
    MulMono(0, k, d.period);
    MulMono(k, d.count - 1, d.period);
  }

  lemma PhaseIsRequested(d: Descriptor, a: int, k: int)
    requires d.period > 0 && d.count > 0
    requires d.addr <= a < EndAddr(d) && Phase(d, a) < d.words
    requires k == Min((a - d.addr) / d.period, d.count - 1)
    ensures 0 <= k < d.count && PeriodStart(d, k) <= a < PeriodStart(d, k) + d.words
  {
    var q := (a - d.addr) / d.period;
    assert a - d.addr == q * d.period + Phase(d, a);
    MulMono(k, q, d.period);
  }

  /** Largest number of whole empty windows that fit between the window whose last word has
      phase p and the next period. */
  function EmptyWindows(period: nat, w: nat, p: nat): nat
    requires w > 0 && p < period
  {
    (period - 1 - p) / w
  }

  /** A word of phase below the word count that is not past the end witnesses a hit; one
      that is past the end leaves the last requested word as witness. */
  lemma WitnessHits(d: Descriptor, w: nat, s: int, a: int)
    requires 1 <= d.words <= d.period && 1 <= d.count
    requires s < EndAddr(d) && s <= a < s + w && d.addr <= a && Phase(d, a) < d.words
    ensures Hit(d, w, s)
  {
    var last := EndAddr(d) - 1;
    if a <= last {
      RequestedIsPhase(d, a);
      assert Requested(d, a);
    } else {
      AddMultiple(d.words - 1, d.count - 1, d.period);
      assert last - d.addr == d.words - 1 + (d.count - 1) * d.period;
      assert last >= d.addr by { MulMono(0, d.count - 1, d.period); }
      RequestedIsPhase(d, last);
      assert Requested(d, last);
    }
  }

  /** Word whose phase is r in the period of word b. */
  lemma SamePeriod(d: Descriptor, b: int, r: nat)
    requires d.period > 0 && b >= d.addr && r < d.period
    ensures Phase(d, b - Phase(d, b) + r) == r
    ensures (b - Phase(d, b) + r - d.addr) / d.period == (b - d.addr) / d.period
    ensures b - Phase(d, b) >= d.addr
  {
    var q := (b - d.addr) / d.period;
    assert b - d.addr == q * d.period + Phase(d, b);
    MulMono(0, q, d.period);
    DivModUnique(b - Phase(d, b) + r - d.addr, d.period, q, r);
  }

  /** The window from s is hit when its last word is not too far past a requested one. */
  lemma LivePhaseHits(d: Descriptor, w: nat, s: int)
    requires 1 <= w && 1 <= d.words && 1 <= d.count && 1 <= d.period
    requires d.addr < s + w && s < EndAddr(d)
    requires w <= d.period && d.words <= d.period ==> Phase(d, s + w - 1) <= d.words + w - 2
    ensures Hit(d, w, s)
  {
    var b := s + w - 1;
    if d.words > d.period {
      var a := Max(s, d.addr);
      RequestedIsPhase(d, a);
      assert d.addr < EndAddr(d) by { MulMono(0, d.count - 1, d.period); }
      assert Requested(d, a);
    } else if Phase(d, b) < d.words {
      WitnessHits(d, w, s, b);
    } else if w <= d.period {
      SamePeriod(d, b, d.words - 1);
      WitnessHits(d, w, s, b - Phase(d, b) + (d.words - 1));
    } else {
      SamePeriod(d, b, 0);
      WitnessHits(d, w, s, b - Phase(d, b));
    }
  }
}
