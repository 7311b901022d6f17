/** Work-groups of a kernel and the threads in them. */
module WorkDistribution {
  import opened Arith
  import opened Bits

  const THREADS: nat := 1024  // per work-group
  const LANES: nat := 128
  const COLUMNS: nat := 8

  /** Offset of a work-group: x in units of 32 threads. */
  datatype Group = Group(offX: nat, offY: nat)

  /** Threads of a work-group in x, 32 to 1024, and in y. */
  function Width(w: nat): (n: nat)
    requires w <= 5
    ensures n > 0 && n == 32 * Pow2(w) == Pow2(w + 5)
  {
    PowersOfTwo();
    32 * Pow2(w)
  }

  function Height(w: nat): (n: nat)
    requires w <= 5
    ensures n > 0 && n == Pow2(5 - w) && Width(w) * n == THREADS
  {
    PowersOfTwo();
    THREADS / Width(w)
  }

  lemma PowersOfTwo()
    ensures Pow2(0) == 1 && Pow2(1) == 2 && Pow2(2) == 4 && Pow2(3) == 8 && Pow2(4) == 16 && Pow2(5) == 32
    ensures Pow2(6) == 64 && Pow2(7) == 128 && Pow2(8) == 256 && Pow2(9) == 512 && Pow2(10) == 1024
  {
  }

  // ----- Enumeration

  /** Group number i of a grid nx groups wide. */
  function GroupAt(w: nat, nx: nat, i: nat): Group
    requires w <= 5 && nx > 0
  {
    Group(i % nx * Pow2(w), i / nx * Height(w))
  }

  /** The number of work-groups that the analysis counts. */
  function Workgroups(d0: nat, d1: nat, w: nat): nat
    requires w <= 5
  {
    DivUp(d0, Width(w)) * DivUp(d1, Height(w))
  }

  /** The scheduler's enumeration, row by row. It always starts one group, so that it agrees with
      the analysis exactly if the grid is not empty. */
  method EnumerateGroups(d0: nat, d1: nat, w: nat) returns (gs: seq<Group>)
    requires w <= 5 && d0 + THREADS < 0x1_0000_0000 && d1 + THREADS < 0x1_0000_0000
    ensures |gs| == Workgroups(d0, d1, w) <==> d0 > 0 && d1 > 0
    ensures d0 > 0 && d1 > 0 ==> forall i :: 0 <= i < |gs| ==> gs[i] == GroupAt(w, DivUp(d0, Width(w)), i)
  {
    hide GroupAt, DivUp, Pow2, InStep;
    var x: nat, y: nat := 0, 0;
    gs := [];
    ghost var nx: nat, j: nat, k: nat := if d0 > 0 then DivUp(d0, Width(w)) else 1, 0, 0;
    if d0 > 0 {
      FirstStep(d0, w);
    }
    if d0 == 0 || d1 == 0 {
      NoGroups(d0, d1, w);
    }
    var done := false;
    while !done
      invariant done ==> |gs| > 0
      invariant d0 > 0 && d1 > 0 ==> InStep(w, nx, gs, x, y, j, k) && nx == DivUp(d0, Width(w))
      invariant d0 > 0 && d1 > 0 ==> (done <==> y >= d1)
      invariant d0 > 0 && d1 > 0 && done ==> k == 0 && j == DivUp(d1, Height(w))
      invariant x == 0 || x * 32 < d0
      decreases !done, if d1 > y then d1 - y else 0, if d0 > x * 32 then d0 - x * 32 else 0
    {
      if d0 > 0 && d1 > 0 {
        Step(d0, d1, w, nx, gs, x, y, j, k);
      }
      gs := gs + [Group(x, y)];
      x := x + Pow2(w);
      k := k + 1;
      if x * 32 >= d0 {
        x, k := 0, 0;
        y := y + Height(w);
        j := j + 1;
      }
      done := y >= d1;
    }
    if d0 > 0 && d1 > 0 {
      Total(w, nx, gs, x, y, j, k);
    }
  }

  /** k groups of row j, and all rows before, have been enumerated. */
  ghost predicate InStep(w: nat, nx: nat, gs: seq<Group>, x: nat, y: nat, j: nat, k: nat)
    requires w <= 5
  {
    && k < nx && x == k * Pow2(w) && y == j * Height(w) && |gs| == j * nx + k
    && forall i :: 0 <= i < |gs| ==> gs[i] == GroupAt(w, nx, i)
  }

  lemma FirstStep(d0: nat, w: nat)
    requires d0 > 0 && w <= 5
    ensures DivUp(d0, Width(w)) > 0 && InStep(w, DivUp(d0, Width(w)), [], 0, 0, 0, 0)
  {
    CeilingIs(d0, Width(w), 0);
  }

  lemma NoGroups(d0: nat, d1: nat, w: nat)
    requires w <= 5 && (d0 == 0 || d1 == 0)
    ensures Workgroups(d0, d1, w) == 0
  {
    NoneOf(Width(w));
    NoneOf(Height(w));
  }

  lemma NoneOf(m: nat)
    requires m > 0
    ensures DivUp(0, m) == 0
  {
  }

  /** One group: the row goes on while it has words left, and then the next row starts. */
  lemma Step(d0: nat, d1: nat, w: nat, nx: nat, gs: seq<Group>, x: nat, y: nat, j: nat, k: nat)
    requires w <= 5 && d0 > 0 && d1 > 0 && nx == DivUp(d0, Width(w)) && InStep(w, nx, gs, x, y, j, k) && y < d1
    ensures var now := gs + [Group(x, y)];
            if (x + Pow2(w)) * 32 >= d0 then
              && InStep(w, nx, now, 0, y + Height(w), j + 1, 0)
              && (y + Height(w) >= d1 ==> j + 1 == DivUp(d1, Height(w)))
            else InStep(w, nx, now, x + Pow2(w), y, j, k + 1)
  {
    hide DivUp, Pow2, Height, Width, GroupAt;
    NextGroup(w, nx, gs, x, y, j, k);
    CeilingIs(d0, Width(w), k + 1);
    CeilingIs(d1, Height(w), j);
    CeilingIs(d1, Height(w), j + 1);
    assert (k + 1) * Pow2(w) == k * Pow2(w) + Pow2(w);
    assert (j + 1) * Height(w) == j * Height(w) + Height(w);
    assert (j + 1) * nx == j * nx + nx;
    Times32(k + 1, Pow2(w));
  }

  lemma NextGroup(w: nat, nx: nat, gs: seq<Group>, x: nat, y: nat, j: nat, k: nat)
    requires w <= 5 && InStep(w, nx, gs, x, y, j, k)
    ensures GroupAt(w, nx, |gs|) == Group(x, y)
  {
    hide Pow2, Height;
    DivModUnique(|gs|, nx, j, k);
  }

  lemma Times32(a: nat, p: nat)
    ensures a * p * 32 == a * (32 * p)
  {
  }

  lemma Total(w: nat, nx: nat, gs: seq<Group>, x: nat, y: nat, j: nat, k: nat)
    requires w <= 5 && InStep(w, nx, gs, x, y, j, k) && k == 0
    ensures |gs| == nx * j && forall i :: 0 <= i < |gs| ==> gs[i] == GroupAt(w, nx, i)
  {
  }

  /** The quotient rounded up is the number of multiples of m below d. */
  lemma CeilingIs(d: nat, m: nat, k: nat)
    requires d > 0 && m > 0
    ensures var n := DivUp(d, m); n > 0 && (k < n <==> k * m < d)
  {
    var n := DivUp(d, m);
    DivMono(m, d + m - 1, m);
    DivModUnique(m, m, 1, 0);
    assert d + m - 1 == n * m + (d + m - 1) % m;
    if k < n {
      MulMono(k + 1, n, m);
      assert (k + 1) * m == k * m + m;
    } else {
      MulMono(n, k, m);
    }
  }

  // ----- Thread identifiers

  /** Special registers holding a thread's position, of lane l in register column c. */
  function TidX(w: nat, g: Group, c: nat, l: nat): nat
    requires w <= 5
  {
    var colBits := if w >= 2 then w - 2 else 0;
    var col := And(c, Pow2(colBits) - 1);
    Or(Or(g.offX * 32, col * LANES), And(l, Pow2(w + 5) - 1))
  }

  function TidY(w: nat, g: Group, c: nat, l: nat): nat
    requires w <= 5
  {
    PowersOfTwo();
    var colMask := COLUMNS * (LANES / 32) - 1 - (Pow2(w) - 1);
    var col := And(c * (LANES / 32), colMask);
    var laneBits := if w <= 2 then 2 - w else 0;
    Or(Or(g.offY, col / Pow2(w)), And(l / Pow2(5 + w), Pow2(laneBits) - 1))
  }

  /** Threads of a work-group are numbered column by column. */
  function Thread(c: nat, l: nat): nat {
    c * LANES + l
  }

  /** The bit operations amount to division of the thread's number by the width. */
  lemma TidXIs(w: nat, g: Group, c: nat, l: nat)
    requires w <= 5 && c < COLUMNS && l < LANES && g.offX % Pow2(w) == 0
    ensures TidX(w, g, c, l) == g.offX * 32 + Thread(c, l) % Width(w)
  {
    hide And, Or, Pow2, Thread;
    var colBits := if w >= 2 then w - 2 else 0;
    AndOnes(c, colBits);
    AndOnes(l, w + 5);
    Scaled(g.offX, w);
    ColumnAndLane(w, c, l);
    MergeX(g.offX * 32, c % Pow2(colBits), l % Pow2(w + 5), l, w);
  }

  lemma MergeX(off: nat, col: nat, lane: nat, l: nat, w: nat)
    requires w <= 5 && off % Pow2(w + 5) == 0 && col * LANES < Width(w) && l < LANES && lane == l % Pow2(w + 5)
    requires w <= 2 ==> col == 0
    ensures Or(Or(off, col * LANES), lane) == off + col * LANES + lane
  {
    hide Or, Pow2;
    OrAdds(off, col * LANES, w + 5);
    if w <= 2 {
      OrAdds(off, lane, w + 5);
    } else {
      LaneFits(l, w);
      SumOfMultiples(off, col, w);
      OrAdds(off + col * LANES, lane, 7);
    }
  }

  lemma LaneFits(l: nat, w: nat)
    requires 2 < w <= 5 && l < LANES
    ensures l % Pow2(w + 5) < Pow2(7)
  {
    PowersOfTwo();
  }

  lemma Scaled(x: nat, w: nat)
    requires w <= 5 && x % Pow2(w) == 0
    ensures x * 32 % Pow2(w + 5) == 0
  {
    PowersOfTwo();
    var q := x / Pow2(w);
    assert x == q * Pow2(w);
    assert x * 32 == q * Pow2(w) * 32;
    DivModUnique(x * 32, Pow2(w + 5), q, 0);
  }

  /** A row of threads that spans k columns. */
  lemma RowOverColumns(c: nat, l: nat, k: nat)
    requires k > 0 && l < LANES
    ensures (c * LANES + l) % (LANES * k) == c % k * LANES + l && c % k * LANES + l < LANES * k
  {
    var q, r := c / k, c % k;
    assert c == q * k + r;
    MulMono(r + 1, k, LANES);
    assert c * LANES + l == q * (LANES * k) + (r * LANES + l);
    DivModUnique(c * LANES + l, LANES * k, q, r * LANES + l);
  }

  /** A column that holds m rows of threads. */
  lemma RowsInColumn(c: nat, l: nat, width: nat, m: nat)
    requires width > 0 && width * m == LANES
    ensures (c * LANES + l) % width == l % width
  {
    assert c * LANES + l == l + c * m * width;
    AddMultiple(l, c * m, width);
  }

  /** Widths in terms of columns: up to 64 they divide one, from 128 on they are whole columns. */
  lemma WidthIs(w: nat)
    requires w <= 5
    ensures Width(w) == Pow2(w + 5)
    ensures w <= 1 ==> Width(w) * (if w == 0 then 4 else 2) == LANES && Pow2(0) == 1
    ensures w >= 2 ==> Width(w) == LANES * Pow2(w - 2) && Pow2(w - 2) >= 1 && (w == 2 ==> Pow2(w - 2) == 1)
  {
    PowersOfTwo();
  }

  lemma ColumnAndLane(w: nat, c: nat, l: nat)
    requires w <= 5 && c < COLUMNS && l < LANES
    ensures var colBits := if w >= 2 then w - 2 else 0;
            && c % Pow2(colBits) * LANES + l % Pow2(w + 5) == Thread(c, l) % Width(w)
            && c % Pow2(colBits) * LANES < Width(w)
            && (w <= 2 ==> c % Pow2(colBits) == 0)
  {
    hide Pow2, Width;
    WidthIs(w);
    if w <= 1 {
      RowsInColumn(c, l, Width(w), if w == 0 then 4 else 2);
      DivModUnique(c, 1, c, 0);
    } else {
      var k := Pow2(w - 2);
      RowOverColumns(c, l, k);
      MulMono(1, k, LANES);
      DivModUnique(l, Width(w), 0, l);
      if w == 2 {
        DivModUnique(c, 1, c, 0);
      }
    }
  }

  lemma SumOfMultiples(off: nat, col: nat, w: nat)
    requires 2 < w <= 5 && off % Pow2(w + 5) == 0
    ensures (off + col * LANES) % Pow2(7) == 0
  {
    PowersOfTwo();
    hide Pow2;
    var q := off / Pow2(w + 5);
    assert off == q * Pow2(w + 5);
    var f := if w == 3 then 2 else if w == 4 then 4 else 8;
    DivModUnique(off + col * LANES, 128, q * f + col, 0);
  }

  lemma TidYIs(w: nat, g: Group, c: nat, l: nat)
    requires w <= 5 && c < COLUMNS && l < LANES && g.offY % Height(w) == 0
    ensures TidY(w, g, c, l) == g.offY + Thread(c, l) / Width(w)
  {
    hide And, Or, Pow2, Width, Thread;
    PowersOfTwo();
    var laneBits := if w <= 2 then 2 - w else 0;
    var high := (c * 4 - c * 4 % Pow2(w)) / Pow2(w);
    AndHighOnes(c * 4, 5, w);
    AndOnes(l / Pow2(5 + w), laneBits);
    var low := l / Pow2(5 + w) % Pow2(laneBits);
    RowOfThread(w, c, l);
    OrAdds(g.offY, high, 5 - w);
    HighIsMultiple(w, g.offY, high);
    OrAdds(g.offY + high, low, laneBits);
  }

  lemma RowOfThread(w: nat, c: nat, l: nat)
    requires w <= 5 && c < COLUMNS && l < LANES
    ensures var laneBits := if w <= 2 then 2 - w else 0;
            var high := (c * 4 - c * 4 % Pow2(w)) / Pow2(w);
            && high + l / Pow2(5 + w) % Pow2(laneBits) == Thread(c, l) / Width(w)
            && high < Pow2(5 - w) && high % Pow2(laneBits) == 0
  {
    PowersOfTwo();
    hide Pow2;
    if w <= 2 {
      NarrowRow(w, c, l);
    } else {
      WideRow(w, c, l);
    }
  }

  lemma NarrowRow(w: nat, c: nat, l: nat)
    requires w <= 2 && c < COLUMNS && l < LANES
    ensures var high := (c * 4 - c * 4 % Pow2(w)) / Pow2(w);
            && high + l / Pow2(5 + w) % Pow2(2 - w) == Thread(c, l) / Width(w)
            && high < Pow2(5 - w) && high % Pow2(2 - w) == 0
  {
    PowersOfTwo();
    hide Pow2, Width;
    var t := Thread(c, l);
    if w == 0 {
      DivModUnique(t, 32, c * 4 + l / 32, l % 32);
    } else if w == 1 {
      DivModUnique(t, 64, c * 2 + l / 64, l % 64);
    } else {
      DivModUnique(t, 128, c, l);
    }
  }

  lemma WideRow(w: nat, c: nat, l: nat)
    requires 2 < w <= 5 && c < COLUMNS && l < LANES
    ensures var high := (c * 4 - c * 4 % Pow2(w)) / Pow2(w);
            && high + l / Pow2(5 + w) % Pow2(0) == Thread(c, l) / Width(w)
            && high < Pow2(5 - w) && high % Pow2(0) == 0
  {
    PowersOfTwo();
    hide Pow2, Width;
    var t := Thread(c, l);
    if w == 3 {
      DivModUnique(t, 256, c / 2, c % 2 * 128 + l);
    } else if w == 4 {
      DivModUnique(t, 512, c / 4, c % 4 * 128 + l);
    } else {
      DivModUnique(t, 1024, 0, c * 128 + l);
    }
  }

  lemma HighIsMultiple(w: nat, off: nat, high: nat)
    requires w <= 5 && off % Height(w) == 0
    requires var laneBits := if w <= 2 then 2 - w else 0; high % Pow2(laneBits) == 0
    ensures var laneBits := if w <= 2 then 2 - w else 0; (off + high) % Pow2(laneBits) == 0
  {
    PowersOfTwo();
    hide Pow2;
    var q := off / Height(w);
    assert off == q * Height(w);
    if w <= 2 {
      var p := Pow2(2 - w);
      DivModUnique(off + high, p, q * 8 + high / p, 0);
    }
  }

  /** A register read delivers the identifiers of all lanes of a column. */
  method ReadTidX(w: nat, g: Group, c: nat) returns (data: seq<nat>)
    requires w <= 5 && c < COLUMNS && g.offX % Pow2(w) == 0
    ensures |data| == LANES && forall l :: 0 <= l < LANES ==> data[l] == g.offX * 32 + Thread(c, l) % Width(w)
  {
    data := [];
    for l := 0 to LANES
      invariant |data| == l && forall i :: 0 <= i < l ==> data[i] == g.offX * 32 + Thread(c, i) % Width(w)
    {
      TidXIs(w, g, c, l);
      data := data + [TidX(w, g, c, l)];
    }
  }

  method ReadTidY(w: nat, g: Group, c: nat) returns (data: seq<nat>)
    requires w <= 5 && c < COLUMNS && g.offY % Height(w) == 0
    ensures |data| == LANES && forall l :: 0 <= l < LANES ==> data[l] == g.offY + Thread(c, l) / Width(w)
  {
    data := [];
    for l := 0 to LANES
      invariant |data| == l && forall i :: 0 <= i < l ==> data[i] == g.offY + Thread(c, i) / Width(w)
    {
      TidYIs(w, g, c, l);
      data := data + [TidY(w, g, c, l)];
    }
  }

  // ----- The grid is covered

  /** Thread (c, l) of group i has position (x, y). */
  predicate Produces(w: nat, nx: nat, i: nat, c: nat, l: nat, x: nat, y: nat)
    requires w <= 5 && nx > 0
  {
    c < COLUMNS && l < LANES && TidX(w, GroupAt(w, nx, i), c, l) == x && TidY(w, GroupAt(w, nx, i), c, l) == y
  }

  lemma PositionIs(w: nat, nx: nat, i: nat, c: nat, l: nat)
    requires w <= 5 && nx > 0 && c < COLUMNS && l < LANES
    ensures TidX(w, GroupAt(w, nx, i), c, l) == i % nx * Width(w) + Thread(c, l) % Width(w)
    ensures TidY(w, GroupAt(w, nx, i), c, l) == i / nx * Height(w) + Thread(c, l) / Width(w)
  {
    hide TidX, TidY, Pow2;
    var g := GroupAt(w, nx, i);
    DivModUnique(g.offX, Pow2(w), i % nx, 0);
    DivModUnique(g.offY, Height(w), i / nx, 0);
    TidXIs(w, g, c, l);
    TidYIs(w, g, c, l);
    Times32(i % nx, Pow2(w));
  }

  /** The group and the thread in it that have position (x, y). */
  function GroupOf(w: nat, nx: nat, x: nat, y: nat): nat
    requires w <= 5
  {
    y / Height(w) * nx + x / Width(w)
  }

  function ThreadOf(w: nat, x: nat, y: nat): (t: nat)
    requires w <= 5
    ensures t < THREADS
  {
    BelowProduct(y % Height(w), x % Width(w), Height(w), Width(w));
    y % Height(w) * Width(w) + x % Width(w)
  }

  lemma GroupIsInGrid(d0: nat, d1: nat, w: nat, x: nat, y: nat)
    requires w <= 5 && x < d0 && y < d1
    ensures var nx := DivUp(d0, Width(w)); nx > 0 && x / Width(w) < nx && GroupOf(w, nx, x, y) < Workgroups(d0, d1, w)
  {
    hide DivUp, Width, Height;
    var wd, ht := Width(w), Height(w);
    CeilingIs(d0, wd, x / wd);
    CeilingIs(d1, ht, y / ht);
    DivModIs(x, wd);
    DivModIs(y, ht);
    InGrid(x / wd, y / ht, DivUp(d0, wd), DivUp(d1, ht));
  }

  lemma ThreadIsThere(w: nat, nx: nat, x: nat, y: nat)
    requires w <= 5 && nx > 0 && x / Width(w) < nx
    ensures var t := ThreadOf(w, x, y); Produces(w, nx, GroupOf(w, nx, x, y), t / LANES, t % LANES, x, y)
  {
    hide Width, Height, TidX, TidY;
    var wd, ht := Width(w), Height(w);
    var i, t := GroupOf(w, nx, x, y), ThreadOf(w, x, y);
    DivModUnique(i, nx, y / ht, x / wd);
    DivModUnique(t, wd, y % ht, x % wd);
    assert Thread(t / LANES, t % LANES) == t;
    PositionIs(w, nx, i, t / LANES, t % LANES);
    DivModIs(x, wd);
    DivModIs(y, ht);
  }

  lemma NoOtherThread(w: nat, nx: nat, i: nat, c: nat, l: nat, x: nat, y: nat)
    requires w <= 5 && nx > 0 && Produces(w, nx, i, c, l, x, y)
    ensures i == GroupOf(w, nx, x, y) && Thread(c, l) == ThreadOf(w, x, y)
  {
    hide Width, Height, TidX, TidY, Pow2;
    var wd, ht, t := Width(w), Height(w), Thread(c, l);
    PositionIs(w, nx, i, c, l);
    DivModIs(t, wd);
    DivModIs(i, nx);
    RowBelow(t, wd, ht);
    DivModUnique(x, wd, i % nx, t % wd);
    DivModUnique(y, ht, i / nx, t / wd);
  }

  /** Every position of the grid belongs to exactly one thread of one of the groups. */
  lemma ExactlyOneThread(d0: nat, d1: nat, w: nat, x: nat, y: nat) returns (i: nat, c: nat, l: nat)
    requires w <= 5 && x < d0 && y < d1
    ensures var nx := DivUp(d0, Width(w));
            && nx > 0 && i < Workgroups(d0, d1, w) && Produces(w, nx, i, c, l, x, y)
            && forall j: nat, c1: nat, l1: nat :: Produces(w, nx, j, c1, l1, x, y) ==> j == i && c1 == c && l1 == l
  {
    hide TidX, TidY, DivUp, Width, Height, Workgroups, GroupOf, ThreadOf, Produces;
    var nx, t := DivUp(d0, Width(w)), ThreadOf(w, x, y);
    i, c, l := GroupOf(w, nx, x, y), t / LANES, t % LANES;
    GroupIsInGrid(d0, d1, w, x, y);
    ThreadIsThere(w, nx, x, y);
    forall j: nat, c1: nat, l1: nat | Produces(w, nx, j, c1, l1, x, y)
      ensures j == i && c1 == c && l1 == l
    {
      NoOtherThread(w, nx, j, c1, l1, x, y);
      LaneBound(w, nx, j, c1, l1, x, y);
    }
  }

  lemma LaneBound(w: nat, nx: nat, i: nat, c: nat, l: nat, x: nat, y: nat)
    requires w <= 5 && nx > 0 && Produces(w, nx, i, c, l, x, y)
    ensures l < LANES
  {
  }

  lemma DivModIs(a: nat, m: nat)
    requires m > 0
    ensures a == a / m * m + a % m
  {
  }

  lemma InGrid(a: nat, b: nat, nx: nat, ny: nat)
    requires a < nx && b < ny
    ensures b * nx + a < nx * ny
  {
    MulStep(b, ny, nx);
  }

  lemma BelowProduct(q: nat, r: nat, ht: nat, wd: nat)
    requires q < ht && r < wd && wd * ht == THREADS
    ensures q * wd + r < THREADS
  {
    MulStep(q, ht, wd);
  }

  lemma RowBelow(t: nat, wd: nat, ht: nat)
    requires wd > 0 && wd * ht == THREADS && t < THREADS
    ensures t / wd < ht
  {
    DivModIs(t, wd);
    if t / wd >= ht {
      MulMono(ht, t / wd, wd);
    }
  }
}
