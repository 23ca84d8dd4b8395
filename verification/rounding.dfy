/** Python's built-in `round` on an exact quotient, done in integers. */
module Rounding {

  /** `r` is what Python's `round(n / d)` returns: the integer nearest to
      n/d, and the even one of the two when n/d lies exactly halfway. */
  ghost predicate IsPythonRound(r: int, n: int, d: int)
    requires d > 0
  {
    || (2 * d * r - d < 2 * n < 2 * d * r + d)
    || (2 * n == 2 * d * r - d && r % 2 == 0)
    || (2 * n == 2 * d * r + d && r % 2 == 0)
  }

  /** n/d rounded to the nearest integer, halves upward. It agrees with
      Python's `round` whenever n/d is not exactly halfway. */
  function RoundDiv(n: int, d: int): (r: int)
    requires d > 0
    ensures 2 * d * r - d <= 2 * n < 2 * d * r + d
    ensures 2 * n != 2 * d * r - d ==> IsPythonRound(r, n, d)
  {
    var q := (2 * n + d) / (2 * d);
    assert 2 * d * q <= 2 * n + d < 2 * d * q + 2 * d;
    q
  }

  /** Only one integer lies within half a unit of n/d (halfway excluded). */
  lemma NearestUnique(n: int, d: int, r: int, k: int)
    requires d > 0
    requires 2 * d * r - d < 2 * n < 2 * d * r + d
    requires 2 * d * k - d <= 2 * n <= 2 * d * k + d
    ensures k == r
  {
    Scale(2 * d, r - k);
    assert 2 * d * r - 2 * d * k == 2 * d * (r - k);
  }

  /** Scaling by a positive factor keeps a nonzero integer at least one unit
      away from zero. */
  lemma Scale(d: int, a: int)
    requires d > 0
    ensures a >= 1 ==> d * a >= d
    ensures a <= -1 ==> d * a <= -d
  {
    if a >= 1 {
      assert d * a == d + d * (a - 1);
    } else if a <= -1 {
      assert d * a == -d + d * (a + 1);
    }
  }
}
