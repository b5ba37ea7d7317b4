// Division facts that the ring and table arithmetic needs; everything here is about `/` and `%`
// by a variable divisor.
module Arithmetic {

  lemma MulMonotone(a: int, b: int, n: int)
    requires a <= b && 0 <= n
    ensures a * n <= b * n
  {
    assert (b - a) * n >= 0;
  }

  /** Quotient and remainder are determined by their defining equation. */
  lemma DivModUnique(x: int, n: int, q: int, r: int)
    requires 0 <= r < n && x == q * n + r
    ensures x / n == q && x % n == r
  {
    var a, b := x / n, x % n;
    assert x == n * a + b;
    assert n * a == a * n;
    assert (a + 1) * n == a * n + n && (q + 1) * n == q * n + n;
    if a < q {
      MulMonotone(a + 1, q, n);
    } else if q < a {
      MulMonotone(q + 1, a, n);
    }
  }

  lemma DivModDef(x: int, n: int)
    requires n > 0
    ensures x == (x / n) * n + x % n
  {
  }

  /** Counting one further in blocks of n. */
  lemma StepDivMod(x: int, n: int)
    requires n > 0 && x >= 0
    ensures (x + 1) % n == if x % n + 1 == n then 0 else x % n + 1
    ensures (x + 1) / n == if x % n + 1 == n then x / n + 1 else x / n
  {
    var q, r := x / n, x % n;
    DivModDef(x, n);
    if r + 1 == n {
      assert (q + 1) * n == q * n + n;
      DivModUnique(x + 1, n, q + 1, 0);
    } else {
      DivModUnique(x + 1, n, q, r + 1);
    }
  }

  function Pow2(n: nat): (p: nat)
    ensures p >= 1
  {
    if n == 0 then 1 else 2 * Pow2(n - 1)
  }
}
