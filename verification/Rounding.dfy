/** Rounding to a number of decimals: nearest, ties to even. */
module Rounding {
  import RealFacts

  function RoundToInt(y: real): int {
    var f := y.Floor;
    var d := y - f as real;
    if d < 0.5 || (d == 0.5 && f % 2 == 0) then f else f + 1
  }

  /** The fraction is nothing, more than a half, or a half above an odd number. */
  predicate RoundsUp(y: real) {
    var f := y.Floor;
    var d := y - f as real;
    d == 0.0 || d > 0.5 || (d == 0.5 && f % 2 == 1)
  }

  function Round(x: real, scale: real): real
    requires scale > 0.0
  {
    RoundToInt(x * scale) as real / scale
  }

  /** Rounding errs by at most half a unit of the last decimal. */
  lemma RoundError(x: real, scale: real)
    requires scale > 0.0
    ensures -0.5 / scale <= Round(x, scale) - x <= 0.5 / scale
  {
    var e := RoundToInt(x * scale) as real - x * scale;
    assert Round(x, scale) - x == e / scale;
    Monotone(-0.5, e, scale);
    Monotone(e, 0.5, scale);
  }

  /** Rounding gives a whole number of units, a nearest one, and of two nearest ones the even one. */
  lemma RoundIsNearest(x: real, scale: real) returns (n: int)
    requires scale > 0.0
    ensures Round(x, scale) * scale == n as real
    ensures -0.5 <= n as real - x * scale <= 0.5
    ensures n as real - x * scale == 0.5 || n as real - x * scale == -0.5 ==> n % 2 == 0
  {
    n := RoundToInt(x * scale);
    RealFacts.Quotient(n as real, scale);
  }

  lemma Monotone(a: real, b: real, scale: real)
    requires a <= b && scale > 0.0
    ensures a / scale <= b / scale
  {
    assert b / scale - a / scale == (b - a) / scale;
  }

  lemma RoundToIntMonotone(x: real, y: real)
    requires x <= y
    ensures RoundToInt(x) <= RoundToInt(y)
  {
    assert x.Floor <= y.Floor;
  }

  lemma RoundsDown(y: real, n: int)
    requires n as real <= y < n as real + 0.5
    ensures RoundToInt(y) == n
  {
    assert y.Floor == n;
  }

  lemma RoundMonotone(x: real, y: real, scale: real)
    requires x <= y && scale > 0.0
    ensures Round(x, scale) <= Round(y, scale)
  {
    assert y * scale - x * scale == (y - x) * scale >= 0.0;
    RoundToIntMonotone(x * scale, y * scale);
    Monotone(RoundToInt(x * scale) as real, RoundToInt(y * scale) as real, scale);
  }

  /** A rounded number is not too small exactly when its fraction rounds up. */
  lemma RoundSufficesIff(x: real, scale: real)
    requires scale > 0.0
    ensures Round(x, scale) >= x <==> RoundsUp(x * scale)
  {
    var n := RoundToInt(x * scale) as real;
    RealFacts.Quotient(n, scale);
    RealFacts.Ordered(x, n / scale, scale);
  }
}
