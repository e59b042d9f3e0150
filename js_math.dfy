/**
 * The JavaScript number operations the core relies on, written out exactly on
 * integers: `Math.floor` of a quotient, `Math.round` of a quotient (nearest
 * integer, halves rounded towards +infinity) and the truncating `%` operator.
 * Dafny's own `/` and `%` are Euclidean, so each is spelled out here.
 */
module JsMath {

  /** `Math.floor(p / q)` for an exact rational quotient. */
  function FloorDiv(p: int, q: int): (r: int)
    requires q != 0
    ensures q > 0 ==> q * r <= p < q * r + q
    ensures q < 0 ==> q * r >= p > q * r + q
  {
    if q > 0 then p / q else (-p) / (-q)
  }

  /** `Math.round(p / q)`: the integer nearest to p / q, with halves rounded up. */
  function RoundHalfUp(p: int, q: int): (r: int)
    requires q != 0
    ensures q > 0 ==> 2 * q * r - q <= 2 * p < 2 * q * r + q
    ensures q < 0 ==> 2 * q * r - q >= 2 * p > 2 * q * r + q
  {
    FloorDiv(2 * p + q, 2 * q)
  }

  /** `a % b` in JavaScript for a positive divisor: the remainder takes the sign of the dividend. */
  function JsRem(a: int, b: int): (r: int)
    requires b > 0
    ensures a >= 0 ==> 0 <= r < b
    ensures a < 0 ==> -b < r <= 0
    // the dividend less the remainder is a multiple of the divisor
    ensures (a - r) % b == 0
  {
    if a >= 0 then
      RemOfDivision(a, b);
      a % b
    else
      RemOfDivision(-a, b);
      NegatedMultiple(-a - (-a) % b, b);
      -((-a) % b)
  }

  /** The dividend less its Euclidean remainder is a multiple of the divisor. */
  lemma RemOfDivision(a: int, b: int)
    requires b > 0
    ensures (a - a % b) % b == 0
  {
    assert a - a % b == (a / b) * b;
    MultipleRem(a / b, b);
  }

  /** The negation of a multiple is a multiple. */
  lemma NegatedMultiple(x: int, b: int)
    requires b > 0 && x % b == 0
    ensures (-x) % b == 0
  {
    assert -x == (-(x / b)) * b;
    MultipleRem(-(x / b), b);
  }

  /** A multiple of a positive divisor leaves no remainder. */
  lemma MultipleRem(q: int, b: int)
    requires b > 0
    ensures (q * b) % b == 0
  {
    var m := q * b;
    assert m == (m / b) * b + m % b;
    // (q - m / b) * b == m % b, which lies in [0, b)
    assert (q - m / b) * b == m % b;
    SmallMultiple(b, q - m / b);
  }

  /** Rounding a quotient never goes down when the numerator grows. */
  lemma RoundHalfUpMonotonic(p1: int, p2: int, q: int)
    requires q > 0 && p1 <= p2
    ensures RoundHalfUp(p1, q) <= RoundHalfUp(p2, q)
  {
    var r1, r2 := RoundHalfUp(p1, q), RoundHalfUp(p2, q);
    // 2q·r1 − q <= 2p1 <= 2p2 < 2q·r2 + q, so 2q·(r1 − r2) < 2q
    assert 2 * q * (r1 - r2) < 2 * q;
    SmallMultiple(2 * q, r1 - r2);
  }

  /** For m > 0, m·d < m forces d <= 0. */
  lemma SmallMultiple(m: int, d: int)
    requires m > 0 && m * d < m
    ensures d <= 0
  {
  }
}
