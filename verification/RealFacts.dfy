/** The few facts about products of reals that proofs elsewhere name when they need them. */
module RealFacts {

  lemma Distribute(a: real, b: real, c: real)
    ensures (a + b) * c == a * c + b * c
    ensures (a - b) * c == a * c - b * c
  {
  }

  lemma Assoc(a: real, b: real, c: real)
    ensures (a * b) * c == a * (b * c)
  {
  }

  lemma ZeroTimes(a: real, c: real)
    requires a == 0.0
    ensures a * c == 0.0
  {
  }

  lemma NonNegative(a: real, b: real)
    requires a >= 0.0 && b >= 0.0
    ensures a * b >= 0.0
  {
  }

  /** A positive factor keeps the sign. */
  lemma SameSign(a: real, c: real)
    requires c > 0.0
    ensures a * c >= 0.0 <==> a >= 0.0
    ensures a * c > 0.0 <==> a > 0.0
  {
  }

  lemma Ordered(a: real, b: real, c: real)
    requires c > 0.0
    ensures a * c <= b * c <==> a <= b
  {
    Distribute(b, a, c);
    SameSign(b - a, c);
  }

  lemma Quotient(a: real, c: real)
    requires c != 0.0
    ensures (a / c) * c == a
  {
  }
}
