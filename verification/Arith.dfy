/** Division with remainder, as the hardware's shifts, masks and look-up tables use it.

Dafny's `/` and `%` with a positive divisor round down, which is what an arithmetic shift
and a bit mask do on two's complement numbers. */
module Arith {

  const TWO_32 := 0x1_0000_0000
  const TWO_64 := 0x1_0000_0000_0000_0000

  /** Word address that stands for "no next burst": 0xffffffff in bytes. */
  const NO_NEXT: nat := 0x3fff_ffff

  /** Subtraction of two unsigned 64-bit numbers. */
  function Sub64(a: nat, b: nat): nat {
    (a - b) % TWO_64
  }

  /** Conversion to an unsigned 32-bit number. */
  function Wrap32(a: int): nat {
    a % TWO_32
  }

  function Max(a: int, b: int): int {
    if a < b then b else a
  }

  function Min(a: int, b: int): int {
    if a < b then a else b
  }

  /** Round-up division of non-negative numbers. */
  function DivUp(a: nat, b: nat): nat
    requires b > 0
  {
    (a + b - 1) / b
  }

  lemma MulMono(a: int, b: int, m: int)
    requires a <= b && m >= 0
    ensures a * m <= b * m
  {
  }

  lemma MulStep(a: int, b: int, m: int)
    requires a < b && m >= 0
    ensures a * m + m <= b * m
  {
    MulMono(a + 1, b, m);
  }

  /** Quotient and remainder are determined by their defining equation. */
  lemma DivModUnique(a: int, m: int, q: int, r: int)
    requires m > 0 && a == q * m + r && 0 <= r < m
    ensures a / m == q && a % m == r
  {
    var q', r' := a / m, a % m;
    assert a == q' * m + r';
    if q < q' {
      MulStep(q, q', m);
    } else if q' < q {
      MulStep(q', q, m);
    }
  }

  /** Moving by less than two moduli carries as often as the remainder overflows. */
  lemma AddMod(a: int, b: int, m: int)
    requires m > 0 && 0 <= b
    requires a % m + b < 2 * m
    ensures (a + b) % m == if a % m + b >= m then a % m + b - m else a % m + b
    ensures (a + b) / m == a / m + if a % m + b >= m then 1 else 0
  {
    var q, r := a / m, a % m;
    assert a == q * m + r;
    if r + b >= m {
      assert a + b == (q + 1) * m + (r + b - m);
      DivModUnique(a + b, m, q + 1, r + b - m);
    } else {
      DivModUnique(a + b, m, q, r + b);
    }
  }

  /** A whole number of moduli does not change the remainder. */
  lemma AddMultiple(a: int, k: int, m: int)
    requires m > 0
    ensures (a + k * m) % m == a % m
    ensures (a + k * m) / m == a / m + k
  {
    var q, r := a / m, a % m;
    assert a + k * m == (q + k) * m + r by {
      assert (q + k) * m == q * m + k * m;
    }
    DivModUnique(a + k * m, m, q + k, r);
  }

  /** A remainder does not exceed the number it is taken of. */
  lemma ModBound(a: int, m: int)
    requires m > 0 && 0 <= a
    ensures 0 <= a % m <= a && 0 <= a / m
  {
    var q := a / m;
    assert a == q * m + a % m;
    if q < 0 {
      MulStep(q, 0, m);
    } else {
      MulMono(0, q, m);
    }
  }

  lemma WrapOnce(x: nat, n: nat)
    requires n > 0 && x < 2 * n
    ensures x % n == if x < n then x else x - n
  {
    if x >= n {
      assert x == n + (x - n);
      assert x / n == 1;
    }
  }

  lemma DivMono(a: int, b: int, m: int)
    requires m > 0 && a <= b
    ensures a / m <= b / m
  {
    if b / m < a / m {
      MulStep(b / m, a / m, m);
    }
  }

  /** Rounding down to a multiple of m. */
  function AlignDown(a: int, m: int): (r: int)
    requires m > 0
    ensures r <= a < r + m
  {
    a - a % m
  }

  lemma AlignDownNat(a: nat, m: int)
    requires m > 0
    ensures 0 <= AlignDown(a, m)
  {
    ModBound(a, m);
  }
}
