/** The Kronecker symbol as Cohen's algorithm 1.4.10 computes it. */
module Symbols {
  import opened Words
  import opened Bits
  import opened Modular
  import opened Divisors
  import opened Residues

  // ---------- the symbol

  /** The exponent of 2 in x. */
  ghost function Twos(x: int): nat
    requires x > 0
  {
    if x % 2 == 1 then 0 else 1 + Twos(x / 2)
  }

  /** x without its factors 2. */
  ghost function OddPart(x: int): (y: int)
    requires x > 0
    ensures 0 < y <= x && y % 2 == 1
  {
    if x % 2 == 1 then x else OddPart(x / 2)
  }

  /** tab[n & 7]: (-1)^((n^2-1)/8) for odd n. */
  function Tab(n: int): (t: int)
    requires 0 <= n < 8
    ensures n % 2 == 1 ==> t == 1 || t == -1
  {
    [0, 1, 0, -1, 0, -1, 0, 1][n]
  }

  /** The sign of quadratic reciprocity for odd a and n. */
  ghost function Reciprocity(a: int, n: int): int {
    if a % 4 == 3 && n % 4 == 3 then -1 else 1
  }

  /** Cohen's steps 3 and 4 for odd positive n. */
  ghost function Jacobi(a: int, n: int): int
    requires n > 0 && n % 2 == 1
    decreases Abs(a)
  {
    if a == 0 then
      if n == 1 then 1 else 0
    else
      var b := OddPart(Abs(a));
      var s := if Twos(Abs(a)) % 2 == 1 then Tab(n % 8) else 1;
      s * Reciprocity(if a < 0 then -b else b, n) * Jacobi(n % b, b)
  }

  /** The Kronecker symbol (a/b): Cohen's steps 1 and 2, and the rest. */
  ghost function Symbol(a: int, b: int): int {
    if b == 0 then
      if Abs(a) == 1 then 1 else 0
    else if a % 2 == 0 && b % 2 == 0 then 0
    else
      TwoSign(Abs(a), Abs(b)) * SignOfSigns(a, b) * Jacobi(a, OddPart(Abs(b)))
  }

  /** Step 2: the symbol of a over the factors 2 of b. */
  ghost function TwoSign(a: int, b: int): int
    requires b > 0
  {
    if Twos(b) % 2 == 1 then Tab(a % 8) else 1
  }

  ghost function SignOfSigns(a: int, b: int): int {
    if a < 0 && b < 0 then -1 else 1
  }

  lemma TwoSignRange(a: int, b: int)
    requires b > 0 && (a % 2 == 1 || b % 2 == 1)
    ensures TwoSign(a, b) == 1 || TwoSign(a, b) == -1
  {
    TwosOddPart(b);
    ParityOfEight(a);
    TabRange(a % 8);
  }

  // ---------- it vanishes exactly when there is a common divisor

  lemma {:induction false} TwosOddPart(x: int)
    requires x > 0
    ensures x == OddPart(x) * P2(Twos(x)) && (Twos(x) == 0 <==> x % 2 == 1)
  {
    if x % 2 == 0 {
      TwosOddPart(x / 2);
      DoubleTimes(OddPart(x / 2), P2(Twos(x / 2)));
    }
  }

  /** An odd divisor of x divides its odd part. */
  lemma OddDivisorOfPart(d: int, x: int)
    requires x > 0 && d > 0 && d % 2 == 1
    ensures Divides(d, x) <==> Divides(d, OddPart(x))
  {
    var y, k := OddPart(x), Twos(x);
    TwosOddPart(x);
    QuotientUnique(0, d, 0, 0);
    if Divides(d, x) {
      assert 0 * P2(k) == 0;
      CancelPower(y, 0, k, d);
    }
    if Divides(d, y) { DividesSum(d, y, y, P2(k), 0); Commute(y, P2(k)); }
  }

  lemma DividesNegation(d: int, x: int)
    ensures Divides(d, -x) <==> Divides(d, x)
  {
    if Divides(d, x) { DividesSum(d, x, x, -1, 0); }
    if Divides(d, -x) { DividesSum(d, -x, -x, -1, 0); }
  }

  lemma DividesAbs(d: int, x: int)
    ensures Divides(d, Abs(x)) <==> Divides(d, x)
  {
    DividesNegation(d, x);
  }

  lemma DividesRest(d: int, n: int, b: int)
    requires b > 0 && Divides(d, b)
    ensures Divides(d, n % b) <==> Divides(d, n)
  {
    QuotientBounds(n, b);
    var q := n / b;
    Commute(q, b);
    if Divides(d, n) { DividesSum(d, n, b, 1, -q); Rest(n, q, b); }
    if Divides(d, n % b) { DividesSum(d, n % b, b, 1, q); }
  }

  lemma Rest(n: int, q: int, b: int)
    ensures 1 * n + (-q) * b == n - q * b
  {}

  /** The step (a, n) to (n mod b, b) keeps the common divisors. */
  lemma StepKeepsCoprime(a: int, n: int, b: int)
    requires n > 0 && n % 2 == 1 && a != 0 && b == OddPart(Abs(a))
    ensures Coprime(a, n) <==> Coprime(n % b, b)
  {
    forall d | d > 0 ensures Divides(d, a) && Divides(d, n) <==> Divides(d, n % b) && Divides(d, b) {
      DividesAbs(d, a);
      if Divides(d, n) { OddDivisor(d, n); }
      if Divides(d, b) { OddDivisor(d, b); DividesRest(d, n, b); }
      if d % 2 == 1 { OddDivisorOfPart(d, Abs(a)); }
      if Divides(d, b) { DividesRest(d, n, b); }
    }
  }

  /** The sign factors do not vanish. */
  lemma SignProduct(s: int, t: int, j: int)
    requires (s == 1 || s == -1) && (t == 1 || t == -1)
    ensures s * t * j == j || s * t * j == -j
  {}

  /** The symbol is -1, 0 or 1, and 0 exactly when a and n are not coprime. */
  lemma {:induction false} JacobiZero(a: int, n: int)
    requires n > 0 && n % 2 == 1
    ensures Jacobi(a, n) in {-1, 0, 1}
    ensures Jacobi(a, n) == 0 <==> !Coprime(a, n)
    decreases Abs(a)
  {
    if a == 0 {
      QuotientUnique(0, n, 0, 0);
      DividesIs(n, n, 1);
      if n == 1 { CoprimeByCombination(a, n, 0, 1); } else { NotCoprime(a, n, n); }
    } else {
      var b := OddPart(Abs(a));
      QuotientBounds(n, b);
      JacobiZero(n % b, b);
      StepKeepsCoprime(a, n, b);
      SignProduct(if Twos(Abs(a)) % 2 == 1 then Tab(n % 8) else 1,
                  Reciprocity(if a < 0 then -b else b, n), Jacobi(n % b, b));
    }
  }

  lemma CoprimeToZero(a: int)
    ensures Coprime(a, 0) <==> Abs(a) == 1
  {
    if Abs(a) == 1 {
      CoprimeByCombination(a, 0, a, 0);
    } else if a == 0 {
      DividesIs(2, 0, 0);
      NotCoprime(0, 0, 2);
    } else {
      DividesIs(Abs(a), a, if a < 0 then -1 else 1);
      DividesIs(Abs(a), 0, 0);
      NotCoprime(a, 0, Abs(a));
    }
  }

  /** Factors 2 of b do not matter when a or b is odd. */
  lemma CoprimeToOddPart(a: int, b: int)
    requires b != 0 && (a % 2 == 1 || b % 2 == 1)
    ensures Coprime(a, b) <==> Coprime(a, OddPart(Abs(b)))
  {
    forall d | d > 0 ensures Divides(d, a) && Divides(d, b) <==> Divides(d, a) && Divides(d, OddPart(Abs(b))) {
      DividesAbs(d, b);
      if a % 2 == 1 && Divides(d, a) { OddDivisor(d, a); }
      if b % 2 == 1 && Divides(d, b) { OddDivisor(d, b); }
      if Divides(d, OddPart(Abs(b))) { OddDivisor(d, OddPart(Abs(b))); }
      if d % 2 == 1 { OddDivisorOfPart(d, Abs(b)); }
    }
  }

  lemma SymbolIs(a: int, b: int)
    requires b != 0 && (a % 2 == 1 || b % 2 == 1)
    ensures Symbol(a, b) == Times(TwoSign(Abs(a), Abs(b)) * SignOfSigns(a, b), Jacobi(a, OddPart(Abs(b))))
  {}

  lemma SymbolTrivial(a: int, b: int)
    ensures b == 0 ==> Symbol(a, b) == if Abs(a) == 1 then 1 else 0
    ensures b != 0 && a % 2 == 0 && b % 2 == 0 ==> Symbol(a, b) == 0
  {}

  lemma SignTimes(s: int, t: int, j: int)
    requires (s == 1 || s == -1) && (t == 1 || t == -1)
    ensures Times(s * t, j) == j || Times(s * t, j) == -j
  {}

  lemma SignRange(a: int, b: int)
    ensures SignOfSigns(a, b) == 1 || SignOfSigns(a, b) == -1
  {}

  lemma AbsParity(a: int)
    ensures Abs(a) % 2 == a % 2
  {}

  /** The Kronecker symbol is -1, 0 or 1, and 0 exactly when a and b are not coprime. */
  lemma SymbolZero(a: int, b: int)
    ensures Symbol(a, b) in {-1, 0, 1}
    ensures Symbol(a, b) == 0 <==> !Coprime(a, b)
  {
    hide Jacobi, Coprime, Divides, OddPart, Twos, Symbol, TwoSign, SignOfSigns, Times;
    SymbolTrivial(a, b);
    if b == 0 {
      CoprimeToZero(a);
    } else if a % 2 == 0 && b % 2 == 0 {
      DividesIs(2, a, a / 2); DividesIs(2, b, b / 2);
      NotCoprime(a, b, 2);
    } else {
      CoprimeToOddPart(a, b);
      JacobiZero(a, OddPart(Abs(b)));
      TwosOddPart(Abs(b));
      AbsParity(a); AbsParity(b);
      TwoSignRange(Abs(a), Abs(b));
      SignRange(a, b);
      SymbolIs(a, b);
      SignTimes(TwoSign(Abs(a), Abs(b)), SignOfSigns(a, b), Jacobi(a, OddPart(Abs(b))));
    }
  }

  /** The supplementary laws: (1/n), (-1/n) and (2/n). */
  lemma SupplementaryLaws(n: int)
    requires n > 0 && n % 2 == 1
    ensures Jacobi(1, n) == 1
    ensures Jacobi(-1, n) == if n % 4 == 1 then 1 else -1
    ensures Jacobi(2, n) == if n % 8 == 1 || n % 8 == 7 then 1 else -1
  {
    hide Jacobi, Tab;
    QuotientUnique(n, 1, n, 0);
    JacobiStep(1, n); JacobiStep(-1, n); JacobiStep(2, n);
    JacobiOfZero(1, 1);
    TwosOfSmall();
    OddModFour(n);
    TabIs(n);
  }

  lemma TwosOfSmall()
    ensures OddPart(1) == 1 && Twos(1) == 0 && OddPart(2) == 1 && Twos(2) == 1
  {}

  lemma TabIs(n: int)
    requires n % 2 == 1
    ensures Tab(n % 8) == if n % 8 == 1 || n % 8 == 7 then 1 else -1
  {
    var q, r := n / 8, n % 8;
    QuotientBounds(n, 8);
    if r % 2 == 0 { QuotientUnique(n, 2, 4 * q + r / 2, 0); }
  }

  // ---------- single steps

  lemma OddModFour(x: int)
    requires x % 2 == 1
    ensures x % 4 == 1 || x % 4 == 3
  {
    QuotientBounds(x, 4);
    var q := x / 4;
    if x % 4 == 0 { QuotientUnique(x, 2, 2 * q, 0); }
    if x % 4 == 2 { QuotientUnique(x, 2, 2 * q + 1, 0); }
  }

  lemma JacobiStep(a: int, n: int)
    requires n > 0 && n % 2 == 1 && a != 0
    ensures var b := OddPart(Abs(a));
            Jacobi(a, n) == (if Twos(Abs(a)) % 2 == 1 then Tab(n % 8) else 1)
                            * Reciprocity(if a < 0 then -b else b, n) * Jacobi(n % b, b)
  {}

  lemma JacobiOfZero(ret: int, n: int)
    requires n > 0 && n % 2 == 1
    ensures Times(ret, Jacobi(0, n)) == if n == 1 then ret else 0
  {}

  lemma TabRange(n: int)
    requires 0 <= n < 8
    ensures n % 2 == 1 ==> Tab(n) == 1 || Tab(n) == -1
  {}

  lemma ParityOfEight(x: int)
    ensures (x % 8) % 2 == x % 2
  {
    QuotientBounds(x, 8);
    CongBy(x, x % 8, 2, 4 * (x / 8));
  }

  lemma ReciprocityIs(a: int, n: int)
    ensures Reciprocity(a, n) == 1 || Reciprocity(a, n) == -1
  {}

  lemma OddIsPart(q: int)
    requires q > 0 && q % 2 == 1
    ensures OddPart(q) == q && Twos(q) == 0
  {}

  lemma HalvePart(q: int)
    requires q > 0 && q % 2 == 0
    ensures q / 2 > 0 && OddPart(q) == OddPart(q / 2) && Twos(q) == 1 + Twos(q / 2)
  {}
}
