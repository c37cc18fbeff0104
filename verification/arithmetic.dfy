/** Facts about products, quotients and powers of two. */
module Arithmetic {

  lemma Grows(a: nat, b: nat, c: nat)
    requires a <= b
    ensures a * c <= b * c
  {
  }

  /** A quotient is determined by the multiples on either side. */
  lemma Quotient(x: nat, d: nat, k: nat)
    requires d > 0 && k * d <= x < (k + 1) * d
    ensures x / d == k && x % d == x - k * d
  {
    var q := x / d;
    assert q * d <= x < (q + 1) * d;
    if q < k {
      Grows(q + 1, k, d);
    } else if q > k {
      Grows(k + 1, q, d);
    }
  }

  ghost function Pow2(n: nat): nat {
    if n == 0 then 1 else 2 * Pow2(n - 1)
  }

  lemma {:induction false} Pow2Grows(m: nat, n: nat)
    requires m <= n
    ensures Pow2(m) <= Pow2(n)
    decreases n
  {
    if m < n {
      Pow2Grows(m, n - 1);
    }
  }

  lemma Doubled(x: nat, y: nat)
    ensures 2 * (x * y) == 2 * x * y
  {
  }

  lemma {:induction false} PowJoin(m: nat, n: nat)
    ensures Pow2(m + n) == Pow2(m) * Pow2(n)
  {
    if m > 0 {
      PowJoin(m - 1, n);
      Doubled(Pow2(m - 1), Pow2(n));
    }
  }
}
