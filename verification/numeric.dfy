/**
 * Exact integer versions of the arithmetic the services do with JavaScript numbers.
 * `Math.round(n / d)` rounds half up; for a positive divisor it is `floor((2n + d) / 2d)`,
 * and Dafny's `/` on a positive divisor is exactly that floor.
 */
module Numeric {

  function Min(a: int, b: int): (r: int)
    ensures r <= a && r <= b
    ensures r == a || r == b
  {
    if a <= b then a else b
  }

  function Max(a: int, b: int): (r: int)
    ensures r >= a && r >= b
    ensures r == a || r == b
  {
    if a >= b then a else b
  }

  /** `Math.round(n / d)`: the integer nearest to n/d, halves rounded up. */
  function RoundDiv(n: int, d: int): (r: int)
    requires d > 0
    ensures 2 * d * r <= 2 * n + d < 2 * d * r + 2 * d
  {
    var q := (2 * n + d) / (2 * d);
    DivBracket(2 * n + d, 2 * d);
    q
  }

  /** Floor division brackets its dividend. */
  lemma DivBracket(x: int, m: int)
    requires m > 0
    ensures m * (x / m) <= x < m * (x / m) + m
  {
  }

  /** The bracket of `RoundDiv` determines its value. */
  lemma {:induction false} RoundDivUnique(n: int, d: int, r: int)
    requires d > 0
    requires 2 * d * r <= 2 * n + d < 2 * d * r + 2 * d
    ensures RoundDiv(n, d) == r
  {
    var q := RoundDiv(n, d);
    if q < r {
      MulMonotone(2 * d, q + 1, r);
    } else if q > r {
      MulMonotone(2 * d, r + 1, q);
    }
  }

  lemma MulMonotone(m: int, a: int, b: int)
    requires m > 0 && a <= b
    ensures m * a <= m * b
  {
  }

  /** Rounding an exact multiple gives the multiplier back. */
  lemma RoundDivExact(k: int, d: int)
    requires d > 0
    ensures RoundDiv(k * d, d) == k
  {
    RoundDivUnique(k * d, d, k);
  }

  /** `RoundDiv` is monotone in its dividend. */
  lemma {:induction false} RoundDivMonotone(n1: int, n2: int, d: int)
    requires d > 0 && n1 <= n2
    ensures RoundDiv(n1, d) <= RoundDiv(n2, d)
  {
    var q1, q2 := RoundDiv(n1, d), RoundDiv(n2, d);
    if q1 > q2 {
      MulMonotone(2 * d, q2 + 1, q1);
    }
  }

  /** A quotient of a dividend in [0, k·d] rounds into [0, k]. */
  lemma RoundDivBounds(n: int, d: int, k: int)
    requires d > 0 && 0 <= n <= k * d
    ensures 0 <= RoundDiv(n, d) <= k
  {
    RoundDivMonotone(0, n, d);
    RoundDivMonotone(n, k * d, d);
    RoundDivExact(0, d);
    RoundDivExact(k, d);
  }

  /** The bracket of a floor division determines the quotient. */
  lemma {:induction false} FloorDivUnique(x: int, m: int, q: int)
    requires m > 0 && m * q <= x < m * q + m
    ensures x / m == q
  {
    DivBracket(x, m);
    var p := x / m;
    if p < q {
      MulMonotone(m, p + 1, q);
    } else if p > q {
      MulMonotone(m, q + 1, p);
    }
  }
}
