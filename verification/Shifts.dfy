/** Powers of two and right shifts of unsigned numbers. */
module Shifts {

  function Pow2(n: nat): (p: nat)
    ensures p > 0
  {
    if n == 0 then 1 else 2 * Pow2(n - 1)
  }

  lemma {:induction false} Pow2Sum(m: nat, k: nat)
    ensures Pow2(m + k) == Pow2(m) * Pow2(k)
    decreases k
  {
    if k > 0 {
      Pow2Sum(m, k - 1);
      Twice(Pow2(m), Pow2(k - 1));
    }
  }

  lemma Twice(a: int, b: int)
    ensures a * (2 * b) == 2 * (a * b)
  {
  }

  lemma {:induction false} Pow2Grows(m: nat, n: nat)
    requires m <= n
    ensures Pow2(m) <= Pow2(n)
  {
    if m < n {
      Pow2Grows(m, n - 1);
    }
  }

  /** The shift `n >> k`. */
  function ShiftRight(n: nat, k: nat): nat
    decreases k
  {
    if k == 0 then n else ShiftRight(n / 2, k - 1)
  }

  lemma {:induction false} ShiftBounds(n: nat, k: nat)
    ensures ShiftRight(n, k) * Pow2(k) <= n < (ShiftRight(n, k) + 1) * Pow2(k)
    decreases k
  {
    if k > 0 {
      var q, p := ShiftRight(n, k), Pow2(k - 1);
      ShiftBounds(n / 2, k - 1);
      Twice(q, p);
      Twice(q + 1, p);
      HalfBounds(n, q * p, (q + 1) * p);
    }
  }

  lemma HalfBounds(n: nat, a: int, b: int)
    requires a <= n / 2 < b
    ensures 2 * a <= n < 2 * b
  {
  }

  /** The last step of a shift halves once more. */
  lemma {:induction false} ShiftLast(n: nat, k: nat)
    requires k > 0
    ensures ShiftRight(n, k) == ShiftRight(n, k - 1) / 2
    decreases k
  {
    if k > 1 {
      ShiftLast(n / 2, k - 1);
    }
  }
}
