/** Bit operations on natural numbers. */
module Bits {
  import opened Arith

  function Pow2(k: nat): (p: nat)
    ensures p > 0
  {
    if k == 0 then 1 else 2 * Pow2(k - 1)
  }

  function And(a: nat, b: nat): nat {
    if a == 0 || b == 0 then 0 else 2 * And(a / 2, b / 2) + if a % 2 == 1 && b % 2 == 1 then 1 else 0
  }

  function Or(a: nat, b: nat): nat
    decreases a + b
  {
    if a == 0 then b
    else if b == 0 then a
    else 2 * Or(a / 2, b / 2) + if a % 2 == 1 || b % 2 == 1 then 1 else 0
  }

  lemma HalfModulo(a: nat, k: nat)
    ensures a % (2 * Pow2(k)) == a / 2 % Pow2(k) * 2 + a % 2
  {
    var p := Pow2(k);
    var q := a / 2 / p;
    assert a / 2 == q * p + a / 2 % p;
    assert a == q * (2 * p) + (a / 2 % p * 2 + a % 2);
    DivModUnique(a, 2 * p, q, a / 2 % p * 2 + a % 2);
  }

  lemma AndOdd(a: nat, m: nat)
    ensures And(a, 2 * m + 1) == 2 * And(a / 2, m) + a % 2
  {
    assert (2 * m + 1) / 2 == m && (2 * m + 1) % 2 == 1;
    if a == 0 {
      assert And(a, 2 * m + 1) == 0 && And(a / 2, m) == 0;
    }
  }

  /** A mask of k ones keeps the remainder. */
  lemma {:induction false} AndOnes(a: nat, k: nat)
    ensures And(a, Pow2(k) - 1) == a % Pow2(k)
  {
    if k > 0 {
      HalfModulo(a, k - 1);
      AndOdd(a, Pow2(k - 1) - 1);
      AndOnes(a / 2, k - 1);
    }
  }

  /** A mask without its k lowest ones rounds down. */
  lemma {:induction false} AndHighOnes(a: nat, n: nat, k: nat)
    requires k <= n && a < Pow2(n)
    ensures Pow2(k) <= Pow2(n) && And(a, Pow2(n) - Pow2(k)) == a - a % Pow2(k)
  {
    if k == 0 {
      AndOnes(a, n);
      SmallModulo(a, Pow2(n));
    } else {
      var p, q := Pow2(n - 1), Pow2(k - 1);
      AndHighOnes(a / 2, n - 1, k - 1);
      HalfModulo(a, k - 1);
      AndEven(a, p - q);
    }
  }

  lemma SmallModulo(a: nat, p: nat)
    requires a < p
    ensures a % p == a && a % 1 == 0
  {
  }

  lemma AndEven(a: nat, half: nat)
    ensures And(a, 2 * half) == 2 * And(a / 2, half)
  {
    assert 2 * half / 2 == half && 2 * half % 2 == 0;
  }

  /** Numbers without common bit positions. */
  lemma {:induction false} OrAdds(a: nat, b: nat, k: nat)
    requires a % Pow2(k) == 0 && b < Pow2(k)
    ensures Or(a, b) == a + b
  {
    if a > 0 && b > 0 {
      HalfModulo(a, k - 1);
      OrAdds(a / 2, b / 2, k - 1);
    }
  }
}
