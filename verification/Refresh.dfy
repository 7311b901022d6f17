/** Charging refreshes to a worst-case execution time. Compute cycles are those of a 1 GHz clock. */
module RefreshInflation {
  import opened Arith
  import opened PhaseList

  datatype Timing = Timing(tREFI: nat, tRFC: nat, clkMHz: nat)

  /** Compute cycles between two refreshes. */
  function NoRefresh(t: Timing): nat
    requires t.tREFI > t.tRFC && t.clkMHz > 0
  {
    (t.tREFI - t.tRFC) * 1000 / t.clkMHz
  }

  /** Timings with refreshes that leave time to compute; the charge divides by that time. */
  predicate Usable(t: Timing) {
    t.tREFI > t.tRFC && t.clkMHz > 0 && NoRefresh(t) >= 1
  }

  function Charged(t: Timing, cycles: nat): nat
    requires Usable(t)
  {
    DivUp(cycles, NoRefresh(t))
  }

  function Inflate(t: Timing, cycles: nat): nat
    requires Usable(t)
  {
    cycles + DivUp(Charged(t, cycles) * t.tRFC * 1000, t.clkMHz)
  }

  /** Refresh intervals that end within a number of compute cycles. */
  function Due(t: Timing, cycles: nat): nat
    requires t.tREFI > 0
  {
    ModBound(cycles * t.clkMHz, 1000 * t.tREFI);
    cycles * t.clkMHz / (1000 * t.tREFI)
  }

  lemma DivUpIs(a: nat, m: nat)
    requires m > 0
    ensures a <= DivUp(a, m) * m < a + m
  {
    assert a + m - 1 == DivUp(a, m) * m + (a + m - 1) % m;
  }

  lemma DivDownIs(a: nat, m: nat)
    requires m > 0
    ensures a / m * m <= a < a / m * m + m
  {
    assert a == a / m * m + a % m;
  }

  lemma DivUpMono(a: nat, b: nat, m: nat)
    requires m > 0 && a <= b
    ensures DivUp(a, m) <= DivUp(b, m)
  {
    DivMono(a + m - 1, b + m - 1, m);
  }

  /** In DRAM clocks times 1000: the computation fits between the charged refreshes. */
  lemma WorkFits(t: Timing, c: nat)
    requires Usable(t)
    ensures c * t.clkMHz <= Charged(t, c) * ((t.tREFI - t.tRFC) * 1000)
  {
    var n, b, f, e := Charged(t, c), NoRefresh(t), t.clkMHz, (t.tREFI - t.tRFC) * 1000;
    DivUpIs(c, b);
    DivDownIs(e, f);
    MulMono(c, n * b, f);
    MulMono(b * f, e, n);
    Reorder(n, b, f);
  }

  lemma Reorder(n: nat, b: nat, f: nat)
    ensures n * b * f == b * f * n
  {
  }

  /** No more refreshes fall due within the inflated time than were charged, so that what is left
      of it after all refreshes is enough for the computation. */
  lemma InflationIsSound(t: Timing, c: nat)
    requires Usable(t)
    ensures Due(t, Inflate(t, c)) <= Charged(t, c)
    ensures c * t.clkMHz + Due(t, Inflate(t, c)) * (t.tRFC * 1000) <= Inflate(t, c) * t.clkMHz
  {
    var n, f, r := Charged(t, c), t.clkMHz, t.tRFC * 1000;
    var x := DivUp(n * t.tRFC * 1000, f);
    var total := Inflate(t, c);
    WorkFits(t, c);
    assert n * t.tRFC * 1000 == n * r;
    DivUpIs(n * r, f);
    assert total * f == c * f + x * f;
    Sum(n, t.tREFI, t.tRFC);
    assert total * f < n * (1000 * t.tREFI) + f;
    DivDownIs((t.tREFI - t.tRFC) * 1000, f);
    MulMono(1, NoRefresh(t), f);
    FewerThan(total * f, 1000 * t.tREFI, n);
    MulMono(Due(t, total), n, r);
  }

  lemma Sum(n: nat, i: nat, r: nat)
    requires i > r
    ensures n * ((i - r) * 1000) + n * (r * 1000) == n * (1000 * i)
  {
    assert n * ((i - r) * 1000) + n * (r * 1000) == n * ((i - r) * 1000 + r * 1000);
  }

  lemma FewerThan(a: nat, m: nat, n: nat)
    requires m > 0 && a < n * m + m
    ensures a / m <= n
  {
    DivMono(a, n * m + m - 1, m);
    DivModUnique(n * m + m - 1, m, n, m - 1);
  }

  // ----- What is charged, in the timing parameters alone

  /** Whole compute cycles that fit between two refreshes. */
  predicate FitsBetween(t: Timing, b: nat) {
    b * t.clkMHz <= (t.tREFI - t.tRFC) * 1000 < b * t.clkMHz + t.clkMHz
  }

  /** n is the least number of stretches of b cycles that hold c cycles. */
  predicate Fewest(n: nat, b: nat, c: nat) {
    c <= n * b && (n > 0 ==> (n - 1) * b < c)
  }

  lemma FewestIsDivUp(c: nat, b: nat)
    requires b > 0
    ensures Fewest(DivUp(c, b), b, c)
  {
    DivUpIs(c, b);
    ModBound(c + b - 1, b);
    var n := DivUp(c, b);
    assert n > 0 ==> (n - 1) * b == n * b - b;
  }

  lemma FewestIsUnique(m: nat, n: nat, b: nat, c: nat)
    requires Fewest(m, b, c) && Fewest(n, b, c)
    ensures m == n
  {
    if m < n {
      MulMono(m, n - 1, b);
    } else if n < m {
      MulMono(n, m - 1, b);
    }
  }

  /** Refreshes are charged for the fewest stretches between refreshes that hold the computation,
      and the charge is the fewest cycles that hold that many refreshes. */
  lemma ChargeIsLeast(t: Timing, c: nat)
    requires Usable(t)
    ensures FitsBetween(t, NoRefresh(t)) && Fewest(Charged(t, c), NoRefresh(t), c)
    ensures Inflate(t, c) >= c && Fewest(Inflate(t, c) - c, t.clkMHz, Charged(t, c) * t.tRFC * 1000)
    ensures Inflate(t, 0) == 0
  {
    DivDownIs((t.tREFI - t.tRFC) * 1000, t.clkMHz);
    FewestIsDivUp(c, NoRefresh(t));
    ModBound(Charged(t, c) * t.tRFC * 1000 + t.clkMHz - 1, t.clkMHz);
    FewestIsDivUp(Charged(t, c) * t.tRFC * 1000, t.clkMHz);
    FewestIsDivUp(0, NoRefresh(t));
    FewestIsUnique(0, Charged(t, 0), NoRefresh(t), 0);
    FewestIsUnique(0, DivUp(0, t.clkMHz), t.clkMHz, 0);
  }

  /** These conditions leave no choice: the inflated time is determined by the timing and the cycles. */
  lemma InflationIsExact(t: Timing, c: nat, b: nat, n: nat, x: nat)
    requires Usable(t) && FitsBetween(t, b) && Fewest(n, b, c) && Fewest(x, t.clkMHz, n * t.tRFC * 1000)
    ensures NoRefresh(t) == b && Charged(t, c) == n && Inflate(t, c) == c + x
  {
    hide Inflate, Charged, NoRefresh;
    ChargeIsLeast(t, c);
    if b < NoRefresh(t) {
      MulStep(b, NoRefresh(t), t.clkMHz);
    } else if NoRefresh(t) < b {
      MulStep(NoRefresh(t), b, t.clkMHz);
    }
    FewestIsUnique(Charged(t, c), n, b, c);
    FewestIsUnique(Inflate(t, c) - c, x, t.clkMHz, n * t.tRFC * 1000);
  }

  /** No more than one refresh too many, and one cycle of rounding, whatever the cycles. */
  lemma InflationIsBounded(t: Timing, c: nat)
    requires Usable(t)
    ensures var e, f, r := (t.tREFI - t.tRFC) * 1000, t.clkMHz, t.tRFC * 1000;
            && e >= f && Inflate(t, c) >= c
            && (Inflate(t, c) - c) * f * (e - f) <= (c * f + (e - f)) * r + f * (e - f)
  {
    var e, f, r := (t.tREFI - t.tRFC) * 1000, t.clkMHz, t.tRFC * 1000;
    var b, n, x := NoRefresh(t), Charged(t, c), Inflate(t, c) - c;
    ChargeIsLeast(t, c);
    hide *;
    TimesAssociates(n, t.tRFC, 1000);
    assert n * t.tRFC * 1000 == n * r;
    MulMono(1, b, f);
    StretchesBounded(e, f, b, n, c);
    FewestBounded(x, f, n * r);
    BoundTogether(x, f, n, r, e - f, c * f);
  }

  lemma TimesAssociates(a: nat, b: nat, c: nat)
    ensures a * b * c == a * (b * c)
  {
  }

  lemma FewestBounded(x: nat, f: nat, w: nat)
    requires Fewest(x, f, w)
    ensures x * f <= w + f
  {
    assert x > 0 ==> (x - 1) * f == x * f - f;
  }

  lemma StretchesBounded(e: nat, f: nat, b: nat, n: nat, c: nat)
    requires f <= e < b * f + f && Fewest(n, b, c)
    ensures n * (e - f) <= c * f + (e - f)
  {
    MulMono(0, c, f);
    if n > 0 {
      MulMono(e - f, b * f, n - 1);
      TimesAssociates(n - 1, b, f);
      MulMono((n - 1) * b, c, f);
      assert (n - 1) * (e - f) == n * (e - f) - (e - f);
    }
  }

  lemma BoundTogether(x: nat, f: nat, n: nat, r: nat, d: nat, w: nat)
    requires x * f <= n * r + f && n * d <= w + d
    ensures x * f * d <= (w + d) * r + f * d
  {
    MulMono(x * f, n * r + f, d);
    MulMono(n * d, w + d, r);
    assert (n * r + f) * d == n * d * r + f * d;
  }

  lemma InflationIsMonotone(t: Timing, c: nat, d: nat)
    requires Usable(t) && c <= d
    ensures Inflate(t, c) <= Inflate(t, d)
  {
    DivUpMono(c, d, NoRefresh(t));
    var m, n := Charged(t, c), Charged(t, d);
    MulMono(m, n, t.tRFC);
    DivUpMono(m * t.tRFC * 1000, n * t.tRFC * 1000, t.clkMHz);
  }

  /** Inflation leaves what is added afterwards as it is; added before, it can only cost more. */
  lemma InflationAdds(t: Timing, c: nat, u: nat)
    requires Usable(t)
    ensures c + u <= Inflate(t, c) + u <= Inflate(t, c + u)
  {
    DivUpMono(c, c + u, NoRefresh(t));
    var m, n := Charged(t, c), Charged(t, c + u);
    MulMono(m, n, t.tRFC);
    DivUpMono(m * t.tRFC * 1000, n * t.tRFC * 1000, t.clkMHz);
  }

  /** The reported bound of k work-groups, with program upload and refreshes, never falls when
      groups are added. */
  lemma ReportedBoundIsMonotone(t: Timing, ps: seq<Phase>, j: nat, k: nat, upload: nat)
    requires Usable(t) && Alternating(ps) && ps != [] && 1 <= j <= k
    ensures Inflate(t, Wcet(ps, j) + upload) <= Inflate(t, Wcet(ps, k) + upload)
  {
    hide Inflate, Wcet;
    WcetIsMonotone(ps, j, k);
    InflationIsMonotone(t, Wcet(ps, j) + upload, Wcet(ps, k) + upload);
  }

  /** What each unit has to do for one work-group. */
  method UnitTotals(ps: seq<Phase>) returns (execute: nat, sp: nat, dram: nat)
    ensures execute == Count(ps, Execute) && sp == Count(ps, AccessSp) && dram == Count(ps, AccessDram)
  {
    execute, sp, dram := 0, 0, 0;
    for i := 0 to |ps|
      invariant execute == Count(ps[..i], Execute) && sp == Count(ps[..i], AccessSp)
                && dram == Count(ps[..i], AccessDram)
    {
      assert ps[..i + 1][..i] == ps[..i];
      match ps[i].kind {
        case Execute => execute := execute + ps[i].cost;
        case AccessSp => sp := sp + ps[i].cost;
        case AccessDram => dram := dram + ps[i].cost;
      }
    }
    assert ps[..|ps|] == ps;
  }

  /** Every unit works all the time, and the DRAM is refreshed: a lower bound. */
  method ComputePerfectParallelism(t: Timing, ps: seq<Phase>, k: nat) returns (w: nat)
    requires Usable(t)
    ensures PerfectParallelism(ps, k) <= w
    ensures w == Max(PerfectParallelism(ps, k), Inflate(t, Count(ps, AccessDram) * k))
    ensures Alternating(ps) && ps != [] && 1 <= k ==> w <= Inflate(t, Wcet(ps, k))
  {
    hide Inflate, Wcet, Count, Alternating;
    var execute, sp, dram := UnitTotals(ps);
    var all := dram * k;
    w := Max(Max(execute * k, sp * k), Inflate(t, all));
    InflationAdds(t, all, 0);
    if Alternating(ps) && ps != [] && 1 <= k {
      WcetBounds(ps, k);
      InflationAdds(t, Wcet(ps, k), 0);
      InflationIsMonotone(t, all, Wcet(ps, k));
    }
  }

  /** Within the bound there is time for the work and for every refresh that falls due. */
  predicate Covers(t: Timing, bound: nat, work: nat)
    requires Usable(t)
  {
    work * t.clkMHz + Due(t, bound) * (t.tRFC * 1000) <= bound * t.clkMHz
  }

  /** An inflated time covers all work up to what was inflated. */
  lemma InflatedCovers(t: Timing, c: nat, work: nat)
    requires Usable(t) && work <= c
    ensures Covers(t, Inflate(t, c), work)
  {
    InflationIsSound(t, c);
    MulMono(work, c, t.clkMHz);
  }

  /** Whatever the phases take within their bounds, k work-groups and the upload are covered. */
  ghost predicate CoversAll(t: Timing, ps: seq<Phase>, k: nat, upload: nat, bound: nat)
    requires Usable(t) && ps != []
  {
    forall dur: Durations :: Bounded(ps, dur) ==> Covers(t, bound, Makespan(ps, dur, k) + upload)
  }

  /** The reported figures of one phase list, with upload and refreshes: the best case is at most
      the bound, and that at most the single-buffered time; and the bound is one. */
  method ReportBounds(t: Timing, ps: seq<Phase>, k: nat, upload: nat)
    returns (best: nat, bound: nat, single: nat)
    requires Usable(t) && Alternating(ps) && ps != [] && 1 <= k
    ensures best <= bound <= single
    ensures bound == Inflate(t, Wcet(ps, k) + upload) && single == Inflate(t, SingleBuffered(ps, k) + upload)
    ensures best == Max(Max(PerfectParallelism(ps, k), Inflate(t, Count(ps, AccessDram) * k)) + upload,
                        Inflate(t, DoubleBuffered(ps, k)) + upload)
    ensures CoversAll(t, ps, k, upload, bound)
  {
    hide Inflate, Wcet, PerfectParallelism, DoubleBuffered, SingleBuffered, Alternating, Covers, Bounded, Makespan,
         Count;
    AtLeastTwo(ps);
    var parallel := ComputePerfectParallelism(t, ps, k);
    var double := ComputeDoubleBuffered(ps, k);
    best := Max(parallel + upload, Inflate(t, double) + upload);
    var s := ComputeSingleBuffered(ps, k);
    single := Inflate(t, s + upload);
    var w := ComputeWcet(ps, k);
    bound := Inflate(t, w + upload);
    InflationAdds(t, w, upload);
    InflationIsMonotone(t, double, w);
    InflationIsMonotone(t, w + upload, s + upload);
    forall dur: Durations | Bounded(ps, dur)
      ensures Covers(t, bound, Makespan(ps, dur, k) + upload)
    {
      WcetIsSoundAndExact(ps, dur, k);
      InflatedCovers(t, w + upload, Makespan(ps, dur, k) + upload);
    }
  }

  lemma AtLeastTwo(ps: seq<Phase>)
    requires Alternating(ps) && ps != []
    ensures |ps| >= 2
  {
  }
}
