/** What the algorithm computes is the Jacobi symbol: Gauss's count for every odd modulus, quadratic
    reciprocity, multiplicativity in both arguments, and the Legendre symbol for primes. */
module JacobiTheory {
  import opened Words
  import opened Modular
  import opened Divisors
  import opened Residues
  import opened HalfSystem
  import opened QuadraticReciprocity
  import opened Legendre
  import opened Symbols

  // ---------- the recursion computes Gauss's count

  /** The factors 2 of x give (2/n) each. */
  lemma {:induction false} GaussTwos(x: int, n: int)
    requires x > 0 && Odd(n) && Coprime(x, n)
    ensures Coprime(OddPart(x), n)
    ensures GaussSign(x, n) == (if Twos(x) % 2 == 1 then Tab(n % 8) else 1) * GaussSign(OddPart(x), n)
  {
    hide Coprime, GaussSign, Tab;
    if x % 2 == 1 {
      OddIsPart(x);
    } else {
      HalvePart(x);
      assert x == 2 * (x / 2);
      CoprimeProduct(2, x / 2, n);
      GaussTwos(x / 2, n);
      GaussProduct(2, x / 2, n);
      GaussTwo(n);
      TabIs(n);
      AnotherTwo(Tab(n % 8), Twos(x / 2), GaussSign(OddPart(x / 2), n));
    }
  }

  lemma AnotherTwo(t: int, i: nat, g: int)
    requires t == 1 || t == -1
    ensures t * ((if i % 2 == 1 then t else 1) * g) == (if (1 + i) % 2 == 1 then t else 1) * g
  {}

  lemma SignRangeGauss(a: int, n: int)
    requires n > 0
    ensures GaussSign(a, n) == 1 || GaussSign(a, n) == -1
  {}

  /** The sign of a and the factor of reciprocity together. */
  lemma SignedReciprocity(neg: bool, b: int, n: int)
    requires Odd(b) && Odd(n) && Coprime(b, n)
    ensures (if neg then GaussSign(-1, n) else 1) * GaussSign(b, n)
         == Reciprocity(if neg then -b else b, n) * GaussSign(n, b)
  {
    hide Coprime, GaussSign;
    GaussReciprocity(b, n);
    SignRangeGauss(b, n); SignRangeGauss(n, b);
    GaussMinusOne(n);
    OddModFour(b); OddModFour(n);
    NegatedModFour(b);
  }

  lemma NegatedModFour(b: int)
    requires b % 2 == 1
    ensures (-b) % 4 == 3 <==> b % 4 == 1
  {
    OddModFour(b);
    QuotientBounds(b, 4);
    QuotientUnique(-b, 4, -(b / 4) - 1, 4 - b % 4);
  }

  lemma GaussOfAbs(a: int, n: int)
    requires Odd(n) && Coprime(a, n)
    ensures Coprime(Abs(a), n)
    ensures GaussSign(a, n) == (if a < 0 then GaussSign(-1, n) else 1) * GaussSign(Abs(a), n)
  {
    hide GaussSign;
    if a < 0 {
      CoprimeProduct(-1, -a, n);
      assert -1 * -a == a;
      GaussProduct(-1, -a, n);
    }
  }

  /** For coprime numbers the recursion of steps 3 and 4 is Gauss's count. */
  lemma {:induction false} JacobiIsGauss(a: int, n: int)
    requires Odd(n) && Coprime(a, n)
    ensures Jacobi(a, n) == GaussSign(a, n)
    decreases Abs(a)
  {
    hide Coprime, GaussSign, Jacobi, Twos, OddPart, Tab, Reciprocity;
    if a == 0 {
      OnlyOne(n);
    } else {
      var b := OddPart(Abs(a));
      GaussOfAbs(a, n);
      GaussTwos(Abs(a), n);
      StepKeepsCoprime(a, n, b);
      CongSelf(n, b);
      JacobiIsGauss(n % b, b);
      GaussCong(n % b, n, b);
      SignedReciprocity(a < 0, b, n);
      JacobiStep(a, n);
      Rearrange(if a < 0 then GaussSign(-1, n) else 1, if Twos(Abs(a)) % 2 == 1 then Tab(n % 8) else 1,
                GaussSign(b, n), Reciprocity(if a < 0 then -b else b, n), GaussSign(n, b));
    }
  }

  lemma Rearrange(e: int, t: int, g: int, r: int, h: int)
    requires e * g == r * h
    ensures e * (t * g) == t * r * h
  {
    assert e * (t * g) == t * (e * g);
    assert t * (r * h) == t * r * h;
  }

  lemma OnlyOne(n: int)
    requires Odd(n) && Coprime(0, n)
    ensures n == 1 && Jacobi(0, n) == 1 && GaussSign(0, n) == 1
  {
    DividesIs(n, 0, 0);
    DividesIs(n, n, 1);
    assert UpperSet(0, 1) == {};
  }

  // ---------- the laws

  lemma JacobiCong(a: int, b: int, n: int)
    requires Odd(n) && Cong(a, b, n)
    ensures Jacobi(a, n) == Jacobi(b, n)
  {
    hide Jacobi, GaussSign;
    JacobiZero(a, n); JacobiZero(b, n);
    if Coprime(a, n) { CoprimeCong(b, a, n); }
    if Coprime(b, n) {
      CoprimeCong(a, b, n);
      JacobiIsGauss(a, n); JacobiIsGauss(b, n);
      GaussCong(a, b, n);
    }
  }

  /** (ab/n) = (a/n)(b/n) */
  lemma JacobiProduct(a: int, b: int, n: int)
    requires Odd(n)
    ensures Jacobi(a * b, n) == Jacobi(a, n) * Jacobi(b, n)
  {
    hide Jacobi, GaussSign, Coprime;
    CoprimeProduct(a, b, n);
    JacobiZero(a * b, n); JacobiZero(a, n); JacobiZero(b, n);
    if Coprime(a, n) && Coprime(b, n) {
      JacobiIsGauss(a * b, n); JacobiIsGauss(a, n); JacobiIsGauss(b, n);
      GaussProduct(a, b, n);
    }
  }

  /** Quadratic reciprocity for the computed symbol. */
  lemma JacobiReciprocity(m: int, n: int)
    requires Odd(m) && Odd(n) && Coprime(m, n)
    ensures Jacobi(m, n) * Jacobi(n, m) == if m % 4 == 3 && n % 4 == 3 then -1 else 1
  {
    hide Jacobi, GaussSign, Coprime;
    CoprimeSymmetric(m, n);
    JacobiIsGauss(m, n); JacobiIsGauss(n, m);
    GaussReciprocity(m, n);
  }

  lemma SymbolOdd(m: int, n: int)
    requires Odd(n)
    ensures Symbol(m, n) == Jacobi(m, n)
  {
    hide Jacobi;
    OddIsPart(n);
  }

  /** The same for BN_kronecker's symbol of two odd numbers. */
  lemma SymbolReciprocity(m: int, n: int)
    requires Odd(m) && Odd(n) && Coprime(m, n)
    ensures Symbol(m, n) * Symbol(n, m) == if m % 4 == 3 && n % 4 == 3 then -1 else 1
  {
    hide Symbol, Jacobi;
    SymbolOdd(m, n); SymbolOdd(n, m);
    JacobiReciprocity(m, n);
  }

  // ---------- multiplicative in the modulus

  /** How (-1/n), (2/n) and the sign of reciprocity depend on n. */
  lemma ModulusSigns(m: int, n: int)
    requires Odd(m) && Odd(n)
    ensures Odd(m * n)
    ensures (m * n) % 4 == 3 <==> (m % 4 == 3) != (n % 4 == 3)
    ensures Tab((m * n) % 8) == Tab(m % 8) * Tab(n % 8)
  {
    MulMono(1, m, n);
    QuotientBounds(m, 8); QuotientBounds(n, 8);
    var q, r, s, t := m / 8, m % 8, n / 8, n % 8;
    ProductOfResidues(q, r, s, t);
    CongBy(m * n, r * t, 8, q * n + r * s);
    ResidueTable(r, t);
    EightFour(m * n); EightFour(m); EightFour(n);
  }

  lemma ProductOfResidues(q: int, r: int, s: int, t: int)
    ensures (q * 8 + r) * (s * 8 + t) == r * t + (q * (s * 8 + t) + r * s) * 8
  {
    assert r * (s * 8 + t) == (r * s) * 8 + r * t;
    assert (q * 8) * (s * 8 + t) == (q * (s * 8 + t)) * 8;
  }

  lemma EightFour(x: int)
    ensures (x % 8) % 4 == x % 4 && (x % 8) % 2 == x % 2
  {
    QuotientBounds(x, 8);
    CongBy(x, x % 8, 4, 2 * (x / 8));
    CongBy(x, x % 8, 2, 4 * (x / 8));
  }

  lemma ResidueTable(r: int, t: int)
    requires r in {1, 3, 5, 7} && t in {1, 3, 5, 7}
    ensures ((r * t) % 8) % 2 == 1
    ensures ((r * t) % 8) % 4 == 3 <==> (r % 4 == 3) != (t % 4 == 3)
    ensures Tab((r * t) % 8) == Tab(r) * Tab(t)
  {}

  lemma CoprimeModulus(a: int, m: int, n: int)
    requires m > 0 && n > 0
    ensures Coprime(a, m * n) <==> Coprime(a, m) && Coprime(a, n)
  {
    if Coprime(a, m * n) {
      forall d | Divides(d, a) && Divides(d, m) ensures d == 1 { DividesSum(d, m, m, n, 0); Commute(m, n); }
      forall d | Divides(d, a) && Divides(d, n) ensures d == 1 { DividesSum(d, n, n, m, 0); }
    }
    if Coprime(a, m) && Coprime(a, n) {
      var s, t := Bezout(a, m);
      var s', t' := Bezout(a, n);
      ModulusCombination(a, m, n, s, t, s', t');
      CoprimeByCombination(a, m * n, s * (s' * a + t' * n) + (t * m) * s', t * t');
    }
  }

  lemma ModulusCombination(a: int, m: int, n: int, s: int, t: int, s': int, t': int)
    requires s * a + t * m == 1 && s' * a + t' * n == 1
    ensures (s * (s' * a + t' * n) + (t * m) * s') * a + (t * t') * (m * n) == 1
  {
    var u, v := s' * a, t' * n;
    assert (s * a) * (u + v) + (t * m) * (u + v) == 1;
    assert (s * (u + v)) * a == (s * a) * (u + v);
    assert ((t * m) * s') * a == (t * m) * u;
    assert (t * t') * (m * n) == (t * m) * v;
    Distribute(s * (u + v), (t * m) * s', a);
  }

  ghost function MinusPart(neg: bool, n: int): int { if neg && n % 4 == 3 then -1 else 1 }

  ghost function TwoPart(odd: bool, n: int): int
    requires n > 0
  {
    if odd then Tab(n % 8) else 1
  }

  /** The count from the sign, the factors 2 and the odd part of a. */
  lemma GaussParts(a: int, n: int)
    requires Odd(n) && a != 0 && Coprime(a, n)
    ensures var b := OddPart(Abs(a));
            GaussSign(a, n) == MinusPart(a < 0, n) * TwoPart(Twos(Abs(a)) % 2 == 1, n)
                               * Reciprocity(b, n) * GaussSign(n, b)
  {
    hide Coprime, GaussSign, Tab, Twos, OddPart, Reciprocity;
    var b := OddPart(Abs(a));
    GaussOfAbs(a, n);
    GaussTwos(Abs(a), n);
    SignedReciprocity(false, b, n);
    GaussMinusOne(n);
    OddModFour(n);
    FourFactors(MinusPart(a < 0, n), TwoPart(Twos(Abs(a)) % 2 == 1, n), Reciprocity(b, n), GaussSign(n, b));
  }

  lemma FourFactors(e: int, t: int, r: int, h: int)
    ensures e * (t * (r * h)) == e * t * r * h
  {
    assert t * (r * h) == t * r * h;
    assert e * (t * r * h) == e * (t * r) * h;
  }

  lemma PartsProduct(neg: bool, odd: bool, b: int, m: int, n: int)
    requires Odd(m) && Odd(n) && Odd(m * n) && Odd(b)
    ensures MinusPart(neg, m * n) == MinusPart(neg, m) * MinusPart(neg, n)
    ensures TwoPart(odd, m * n) == TwoPart(odd, m) * TwoPart(odd, n)
    ensures Reciprocity(b, m * n) == Reciprocity(b, m) * Reciprocity(b, n)
  {
    hide Tab;
    ModulusSigns(m, n);
  }

  lemma EightFactors(e: int, e': int, t: int, t': int, r: int, r': int, h: int, h': int)
    ensures (e * e') * (t * t') * (r * r') * (h * h') == (e * t * r * h) * (e' * t' * r' * h')
  {
    assert (e * e') * (t * t') == (e * t) * (e' * t');
    assert (e * t) * (e' * t') * (r * r') == (e * t * r) * (e' * t' * r');
    assert (e * t * r) * (e' * t' * r') * (h * h') == (e * t * r * h) * (e' * t' * r' * h');
  }

  lemma GaussModulus(a: int, m: int, n: int)
    requires Odd(m) && Odd(n) && Odd(m * n) && a != 0 && Coprime(a, m) && Coprime(a, n) && Coprime(a, m * n)
    ensures GaussSign(a, m * n) == GaussSign(a, m) * GaussSign(a, n)
  {
    hide Coprime, GaussSign, Tab, Twos, OddPart, Reciprocity, MinusPart, TwoPart;
    var b := OddPart(Abs(a));
    var neg, odd := a < 0, Twos(Abs(a)) % 2 == 1;
    GaussParts(a, m); GaussParts(a, n); GaussParts(a, m * n);
    PartsProduct(neg, odd, b, m, n);
    ModulusToB(a, m); ModulusToB(a, n);
    GaussProduct(m, n, b);
    EightFactors(MinusPart(neg, m), MinusPart(neg, n), TwoPart(odd, m), TwoPart(odd, n),
                 Reciprocity(b, m), Reciprocity(b, n), GaussSign(m, b), GaussSign(n, b));
  }

  lemma ModulusToB(a: int, n: int)
    requires Odd(n) && a != 0 && Coprime(a, n)
    ensures Coprime(n, OddPart(Abs(a)))
  {
    hide GaussSign;
    GaussOfAbs(a, n);
    GaussTwos(Abs(a), n);
    CoprimeSymmetric(n, OddPart(Abs(a)));
  }

  /** (a/mn) = (a/m)(a/n) */
  lemma JacobiModulus(a: int, m: int, n: int)
    requires Odd(m) && Odd(n)
    ensures Odd(m * n) && Jacobi(a, m * n) == Jacobi(a, m) * Jacobi(a, n)
  {
    hide Jacobi, GaussSign, Coprime, Tab;
    ModulusSigns(m, n);
    CoprimeModulus(a, m, n);
    JacobiZero(a, m * n); JacobiZero(a, m); JacobiZero(a, n);
    if Coprime(a, m) && Coprime(a, n) {
      if a == 0 {
        OnlyOne(m); OnlyOne(n);
      } else {
        JacobiIsGauss(a, m * n); JacobiIsGauss(a, m); JacobiIsGauss(a, n);
        GaussModulus(a, m, n);
      }
    }
  }

  // ---------- the Legendre symbol, and the symbols made of it

  /** 0 for multiples of p, 1 for other squares modulo p and -1 for what is no square. */
  ghost function LegendreSymbol(a: int, p: int): int
    requires p > 0
  {
    if a % p == 0 then 0 else if Square(a, p) then 1 else -1
  }

  lemma JacobiIsLegendre(a: int, p: int)
    requires Prime(p) && Odd(p)
    ensures Jacobi(a, p) == LegendreSymbol(a, p)
  {
    hide Jacobi, GaussSign, Coprime, Square, Prime;
    PrimeCoprime(p, a);
    JacobiZero(a, p);
    if Coprime(a, p) {
      JacobiIsGauss(a, p);
      GaussIsLegendre(a, p);
    }
  }

  /** The least divisor of n from d on. */
  ghost function LeastFrom(n: int, d: int): (p: int)
    requires 1 < d <= n
    ensures d <= p <= n && n % p == 0 && forall e | d <= e < p :: n % e != 0
    decreases n - d
  {
    if n % d == 0 then d
    else
      assert d < n by { SelfDivides(n); }
      LeastFrom(n, d + 1)
  }

  lemma SelfDivides(n: int)
    requires n > 0
    ensures n % n == 0
  {
    QuotientUnique(n, n, 1, 0);
  }

  ghost function LeastFactor(n: int): int
    requires n > 1
  {
    LeastFrom(n, 2)
  }

  lemma LeastFactorIs(n: int)
    requires Odd(n) && n > 1
    ensures var p := LeastFactor(n); Prime(p) && Odd(p) && n % p == 0 && Odd(n / p) && n / p < n && p * (n / p) == n
  {
    var p := LeastFactor(n);
    QuotientBounds(n, p);
    forall d | Divides(d, p) ensures d == 1 || d == p {
      QuotientBounds(p, d);
      DividesSum(d, p, p, n / p, 0);
      if d > p { QuotientUnique(p, d, 0, p); }
    }
    OddFactors(p, n / p);
    CofactorRange(p, n / p, n);
  }

  lemma OddFactors(p: int, q: int)
    requires (q * p) % 2 == 1
    ensures p % 2 == 1 && q % 2 == 1
  {
    if p % 2 == 0 { EvenMultiple(q, p / 2); }
    if q % 2 == 0 { EvenMultiple(p, q / 2); Commute(p, q); }
  }

  lemma CofactorRange(p: int, q: int, n: int)
    requires p > 1 && n > 0 && n == q * p
    ensures 0 < q < n && p * q == n
  {
    Commute(p, q);
    if q <= 0 { MulMono(q, 0, p); }
    if q > 0 { MulMono(2, p, q); }
  }

  /** The Jacobi symbol: the product of the Legendre symbols of the prime factors of n. */
  ghost function JacobiSymbol(a: int, n: int): int
    requires Odd(n)
    decreases n
  {
    if n == 1 then 1
    else
      LeastFactorIs(n);
      LegendreSymbol(a, LeastFactor(n)) * JacobiSymbol(a, n / LeastFactor(n))
  }

  lemma {:induction false} JacobiIs(a: int, n: int)
    requires Odd(n)
    ensures Jacobi(a, n) == JacobiSymbol(a, n)
    decreases n
  {
    hide Jacobi, LegendreSymbol, Prime, LeastFactor;
    if n == 1 {
      ModulusOne(a);
    } else {
      LeastFactorIs(n);
      var p := LeastFactor(n);
      JacobiIs(a, n / p);
      JacobiIsLegendre(a, p);
      JacobiModulus(a, p, n / p);
    }
  }

  lemma ModulusOne(a: int)
    ensures Jacobi(a, 1) == 1
  {
    hide Jacobi;
    CoprimeByCombination(a, 1, 0, 1);
    JacobiIsGauss(a, 1);
    assert UpperSet(a, 1) == {};
  }

  /** (a/2) */
  ghost function TwoSymbol(a: int): int {
    if a % 2 == 0 then 0 else if a % 8 == 1 || a % 8 == 7 then 1 else -1
  }

  ghost function IntPower(x: int, e: nat): int { if e == 0 then 1 else x * IntPower(x, e - 1) }

  /** The Kronecker symbol: for b = u * 2^t * n with a unit u and odd n it is (a/u) * (a/2)^t * (a/n). */
  ghost function KroneckerSymbol(a: int, b: int): int {
    if b == 0 then
      if Abs(a) == 1 then 1 else 0
    else
      (if a < 0 && b < 0 then -1 else 1) * IntPower(TwoSymbol(a), Twos(Abs(b))) * JacobiSymbol(a, OddPart(Abs(b)))
  }

  lemma {:induction false} PowersOfSign(x: int, e: nat)
    requires x == 1 || x == -1
    ensures IntPower(x, e) == if e % 2 == 1 then x else 1
  {
    if e > 0 { PowersOfSign(x, e - 1); }
  }

  lemma {:induction false} PowersOfZero(e: nat)
    ensures IntPower(0, e) == if e == 0 then 1 else 0
  {}

  lemma TwoSymbolIs(a: int)
    requires a % 2 == 1
    ensures Tab(Abs(a) % 8) == TwoSymbol(a) && (TwoSymbol(a) == 1 || TwoSymbol(a) == -1)
  {
    hide Tab;
    AbsParity(a);
    TabIs(Abs(a));
    NegatedModEight(a);
  }

  lemma NegatedModEight(a: int)
    requires a % 2 == 1
    ensures (-a) % 8 == 1 || (-a) % 8 == 7 <==> a % 8 == 1 || a % 8 == 7
    ensures (-a) % 2 == 1
  {
    QuotientBounds(a, 8); QuotientBounds(a, 2);
    EightFour(a);
    OppositeResidue(a, a / 8, a % 8);
    QuotientUnique(-a, 2, -(a / 2) - 1, 1);
  }

  lemma OppositeResidue(a: int, q: int, r: int)
    requires a == q * 8 + r && 0 < r < 8
    ensures (-a) % 8 == 8 - r
  {
    QuotientUnique(-a, 8, -q - 1, 8 - r);
  }

  lemma TwoPowerIs(a: int, b: int)
    requires b > 0 && (a % 2 == 1 || b % 2 == 1)
    ensures TwoSign(Abs(a), b) == IntPower(TwoSymbol(a), Twos(b))
  {
    hide Twos, Tab, IntPower, TwoSymbol;
    if a % 2 == 1 {
      TwoSymbolIs(a);
      PowersOfSign(TwoSymbol(a), Twos(b));
    } else {
      OddIsPart(b);
      NoFactorTwo(TwoSymbol(a));
    }
  }

  lemma NoFactorTwo(x: int)
    ensures IntPower(x, 0) == 1
  {}

  /** What the algorithm computes is the Kronecker symbol. */
  lemma SymbolIsKronecker(a: int, b: int)
    ensures Symbol(a, b) == KroneckerSymbol(a, b)
  {
    hide Symbol, JacobiSymbol, Jacobi, TwoSymbol, IntPower, TwoSign, Times;
    SymbolTrivial(a, b);
    if b != 0 {
      var n := OddPart(Abs(b));
      JacobiIs(a, n);
      if a % 2 == 0 && b % 2 == 0 {
        BothEven(a, b);
      } else {
        AbsParity(b);
        TwoPowerIs(a, Abs(b));
        SymbolIs(a, b);
        TimesIs(TwoSign(Abs(a), Abs(b)) * SignOfSigns(a, b), Jacobi(a, n));
        Commute(TwoSign(Abs(a), Abs(b)), SignOfSigns(a, b));
      }
    }
  }

  lemma TimesIs(x: int, y: int)
    ensures Times(x, y) == x * y
  {}

  lemma BothEven(a: int, b: int)
    requires b != 0 && a % 2 == 0 && b % 2 == 0
    ensures KroneckerSymbol(a, b) == 0
  {
    hide JacobiSymbol;
    AbsParity(b);
    HalvePart(Abs(b));
    PowersOfZero(Twos(Abs(b)));
    ZeroProduct(if a < 0 && b < 0 then -1 else 1, JacobiSymbol(a, OddPart(Abs(b))));
  }

  lemma ZeroProduct(x: int, y: int)
    ensures x * 0 * y == 0
  {}
}
