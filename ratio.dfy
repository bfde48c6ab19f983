/** Counts turned into fractions of a length, as the feature extractor does. */
module Ratios {

  /** `k / n` over the reals, and 0 when `n` is 0 (the guard `if not s:
      return 0.0`, or a zero numerator over `n + 1e-9`). */
  function Ratio(k: nat, n: nat): (r: real)
    ensures n == 0 ==> r == 0.0
    ensures n > 0 ==> r * n as real == k as real
    ensures r >= 0.0
    ensures k <= n ==> 0.0 <= r <= 1.0
    ensures n > 0 ==> (r == 1.0 <==> k == n)
    ensures n > 0 && k > 0 ==> r > 0.0
  {
    if n == 0 then 0.0
    else
      var r := k as real / n as real;
      assert r * n as real == k as real;
      r
  }

  /** Fractions of the same length add like their counts. */
  lemma RatioAdd(a: nat, b: nat, n: nat)
    ensures Ratio(a, n) + Ratio(b, n) == Ratio(a + b, n)
  {
    if n > 0 {
      var x, y, z := Ratio(a, n), Ratio(b, n), Ratio(a + b, n);
      Cancel(x + y, z, n as real);
    }
  }

  /** Multiplication by a positive number can be undone. */
  lemma Cancel(p: real, q: real, m: real)
    requires m > 0.0 && p * m == q * m
    ensures p == q
  {
    assert (p - q) * m == 0.0;
  }

  /** A larger count gives a larger fraction. */
  lemma RatioMonotone(a: nat, b: nat, n: nat)
    requires a <= b
    ensures Ratio(a, n) <= Ratio(b, n)
  {
    RatioAdd(a, b - a, n);
  }

  /** A count bounded by the sum of two others gives a fraction bounded by
      the sum of their fractions. */
  lemma RatioWithinSum(h: nat, a: nat, d: nat, n: nat)
    requires h <= a + d
    ensures Ratio(h, n) <= Ratio(a, n) + Ratio(d, n)
  {
    RatioAdd(a, d, n);
    RatioMonotone(h, a + d, n);
  }

  /** One out of `n`. */
  lemma RatioOfOne(n: nat)
    requires n > 0
    ensures Ratio(1, n) == 1.0 / n as real
  {
    Cancel(Ratio(1, n), 1.0 / n as real, n as real);
  }

  /** `n` times an `n`-th part of `x` is `x`. */
  lemma Rescale(n: real, x: real)
    requires n > 0.0
    ensures n * (1.0 / n * x) == x
  {
  }

  /** `n` copies of `k` averaged over `n` give back `k`. */
  lemma RatioOfMultiple(k: nat, n: nat)
    requires n > 0
    ensures Ratio(n * k, n) == k as real
  {
    var r := Ratio(n * k, n);
    assert r * n as real == (n * k) as real;
    assert (n * k) as real == n as real * k as real;
  }
}
