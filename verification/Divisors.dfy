/** Common divisors. */
module Divisors {
  import opened Words

  /** d is a positive divisor of x. */
  ghost predicate Divides(d: int, x: int) {
    d > 0 && x % d == 0
  }

  /** gcd(a, b) = 1: no common divisor but 1. */
  ghost predicate Coprime(a: int, b: int) {
    forall d | Divides(d, a) && Divides(d, b) :: d == 1
  }

  lemma DividesIs(d: int, x: int, k: int)
    requires d > 0 && x == k * d
    ensures Divides(d, x)
  {
    QuotientUnique(x, d, k, 0);
  }

  lemma DividesSum(d: int, x: int, y: int, s: int, t: int)
    requires Divides(d, x) && Divides(d, y)
    ensures Divides(d, s * x + t * y)
  {
    QuotientBounds(x, d); QuotientBounds(y, d);
    SumOfMultiples(d, x, y, s, t, x / d, y / d);
    DividesIs(d, s * x + t * y, s * (x / d) + t * (y / d));
  }

  lemma SumOfMultiples(d: int, x: int, y: int, s: int, t: int, j: int, k: int)
    requires x == j * d && y == k * d
    ensures s * x + t * y == (s * j + t * k) * d
  {
    assert s * (j * d) == (s * j) * d && t * (k * d) == (t * k) * d;
  }

  lemma DivisorOfOne(d: int)
    requires Divides(d, 1)
    ensures d == 1
  {
    if d > 1 { QuotientUnique(1, d, 0, 1); }
  }

  /** A combination that is one shows the numbers to be coprime. */
  lemma CoprimeByCombination(a: int, b: int, s: int, t: int)
    requires s * a + t * b == 1
    ensures Coprime(a, b)
  {
    forall d | Divides(d, a) && Divides(d, b) ensures d == 1 {
      DividesSum(d, a, b, s, t);
      DivisorOfOne(d);
    }
  }

  lemma NotCoprime(a: int, b: int, d: int)
    requires Divides(d, a) && Divides(d, b) && d > 1
    ensures !Coprime(a, b)
  {}

  /** A divisor of an odd number is odd. */
  lemma OddDivisor(d: int, w: int)
    requires Divides(d, w) && w % 2 == 1
    ensures d % 2 == 1
  {
    QuotientBounds(w, d);
    if d % 2 == 0 { EvenMultiple(w / d, d / 2); }
  }

  lemma EvenMultiple(q: int, h: int)
    ensures q * (2 * h) == 2 * (q * h)
  {}
}
