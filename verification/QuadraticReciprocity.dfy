/** Quadratic reciprocity for Gauss's count, by Eisenstein's lattice points: for odd coprime m and n. */
module QuadraticReciprocity {
  import opened Words
  import opened Divisors
  import opened HalfSystem

  // ---------- the count and the quotients

  ghost function OddMembers(n: int): set<int>
    requires n > 0
  {
    set k | k in HalfRange(n) && k % 2 == 1
  }

  /** The k for which the quotient of b*k by n is odd. */
  ghost function OddQuotients(b: int, n: int, r: set<int>): set<int>
    requires n > 0
  {
    set k | k in r && ((b * k) / n) % 2 == 1
  }

  lemma OddTimes(x: int, m: int)
    requires m % 2 == 1
    ensures (x * m) % 2 == x % 2
  {
    var i := m / 2;
    assert x * m == 2 * (x * i) + x by { assert m == 2 * i + 1; }
  }

  lemma QuotientParity(b: int, n: int, k: int)
    requires Odd(n) && b % 2 == 1
    ensures ((b * k) / n) % 2 == 1 <==> ((k % 2 == 1) != (Fold(b, n, k) % 2 == 1)) != Upper(b, n, k)
  {
    var q, r := (b * k) / n, (b * k) % n;
    QuotientBounds(b * k, n);
    OddTimes(q, n);
    OddTimes(k, b);
    Commute(k, b);
    ParityOfSum(b * k, q * n, r);
    if Upper(b, n, k) { ParityOfDifference(n, r); }
  }

  lemma ParityOfSum(x: int, y: int, r: int)
    requires x == y + r
    ensures x % 2 == (y % 2 + r % 2) % 2
  {}

  lemma ParityOfDifference(n: int, r: int)
    requires n % 2 == 1
    ensures (n - r) % 2 == 1 - r % 2
  {}

  /** For odd b the count has the parity of the odd quotients. */
  lemma GaussByQuotients(b: int, n: int)
    requires Odd(n) && b % 2 == 1 && Coprime(b, n)
    ensures GaussSign(b, n) == Sign(|OddQuotients(b, n, HalfRange(n))|)
  {
    hide Upper, Fold, HalfRange;
    var o, f, u := OddMembers(n), Folded(b, n, OddMembers(n)), UpperSet(b, n);
    var s := OddQuotients(b, n, HalfRange(n));
    forall k | k in HalfRange(n) ensures k in s <==> k in Differ(Differ(o, f), u) {
      QuotientParity(b, n, k);
      FoldRange(b, n, k);
    }
    assert s == Differ(Differ(o, f), u);
    SignDiffer(Differ(o, f), u);
    SignDiffer(o, f);
    FoldedSize(b, n, o);
  }

  ghost function QuotientSum(b: int, n: int, m: int): int
    requires n > 0
  {
    if m <= 0 then 0 else QuotientSum(b, n, m - 1) + (b * m) / n
  }

  lemma {:induction false} SumParity(b: int, n: int, m: int)
    requires n > 0 && m >= 0
    ensures Sign(QuotientSum(b, n, m)) == Sign(|OddQuotients(b, n, UpTo(m))|)
  {
    hide Sign, UpTo, OddQuotients;
    if m == 0 {
      NoQuotients(b, n);
    } else {
      SumParity(b, n, m - 1);
      NextQuotient(b, n, m);
      SignStep(QuotientSum(b, n, m - 1), (b * m) / n, |OddQuotients(b, n, UpTo(m - 1))|);
    }
  }

  lemma NoQuotients(b: int, n: int)
    requires n > 0
    ensures |OddQuotients(b, n, UpTo(0))| == 0
  {
    assert OddQuotients(b, n, UpTo(0)) == {};
  }

  lemma NextQuotient(b: int, n: int, m: int)
    requires n > 0 && m > 0
    ensures |OddQuotients(b, n, UpTo(m))|
         == |OddQuotients(b, n, UpTo(m - 1))| + if ((b * m) / n) % 2 == 1 then 1 else 0
  {
    hide UpTo;
    var t := OddQuotients(b, n, UpTo(m - 1));
    var q := (b * m) / n;
    assert m !in t;
    if q % 2 == 1 {
      assert OddQuotients(b, n, UpTo(m)) == t + {m};
    } else {
      assert OddQuotients(b, n, UpTo(m)) == t;
    }
  }

  lemma SignStep(x: int, y: int, z: int)
    requires Sign(x) == Sign(z)
    ensures Sign(x + y) == Sign(if y % 2 == 1 then z + 1 else z)
  {}

  // ---------- lattice points

  /** The point (k, l) lies below the line from the origin through (n, b). */
  ghost predicate Below(b: int, n: int, k: int, l: int) { l * n < b * k }

  /** The points below the line in column k, up to height m. */
  ghost function Column(b: int, n: int, k: int, m: int): int {
    if m <= 0 then 0 else Column(b, n, k, m - 1) + if Below(b, n, k, m) then 1 else 0
  }

  /** The points below the line in the columns 1 to j, up to height m. */
  ghost function Area(b: int, n: int, j: int, m: int): int {
    if j <= 0 then 0 else Area(b, n, j - 1, m) + Column(b, n, j, m)
  }

  /** No point of the rectangle lies on the line. */
  ghost predicate NoTies(b: int, n: int, j: int, m: int) {
    forall k, l | 1 <= k <= j && 1 <= l <= m :: Below(b, n, k, l) != Below(n, b, l, k)
  }

  /** The points above the line in column k. */
  ghost function ColumnAbove(b: int, n: int, k: int, m: int): int {
    if m <= 0 then 0 else ColumnAbove(b, n, k, m - 1) + if Below(n, b, m, k) then 1 else 0
  }

  lemma {:induction false} WholeColumn(b: int, n: int, k: int, j: int, m: int)
    requires NoTies(b, n, j, m) && 1 <= k <= j && m >= 0
    ensures Column(b, n, k, m) + ColumnAbove(b, n, k, m) == m
  {
    hide Below;
    if m > 0 { WholeColumn(b, n, k, j, m - 1); }
  }

  /** One more column, seen from the other side. */
  lemma {:induction false} OtherSide(b: int, n: int, k: int, m: int)
    requires k > 0 && m >= 0
    ensures Area(n, b, m, k) == Area(n, b, m, k - 1) + ColumnAbove(b, n, k, m)
  {
    hide Below;
    if m > 0 { OtherSide(b, n, k, m - 1); }
  }

  lemma {:induction false} NoWidth(b: int, n: int, m: int)
    requires m >= 0
    ensures Area(b, n, m, 0) == 0
  {
    if m > 0 { NoWidth(b, n, m - 1); }
  }

  /** The points below and above the line are all the points of the rectangle. */
  lemma {:induction false} Rectangle(b: int, n: int, j: int, m: int)
    requires j >= 0 && m >= 0 && NoTies(b, n, j, m)
    ensures Area(b, n, j, m) + Area(n, b, m, j) == j * m
  {
    hide Below, Column, ColumnAbove;
    if j == 0 {
      NoWidth(n, b, m);
    } else {
      Rectangle(b, n, j - 1, m);
      WholeColumn(b, n, j, j, m);
      OtherSide(b, n, j, m);
      Distribute(j, 1, m);
    }
  }

  // ---------- columns are quotients

  lemma BelowQuotient(b: int, n: int, k: int, l: int)
    requires n > 0 && (b * k) % n != 0
    ensures Below(b, n, k, l) <==> l <= (b * k) / n
  {
    var q := (b * k) / n;
    QuotientBounds(b * k, n);
    if l <= q { MulMono(l, q, n); } else { MulMono(q + 1, l, n); Distribute(q, 1, n); }
  }

  lemma {:induction false} ColumnIs(b: int, n: int, k: int, m: int)
    requires n > 0 && (b * k) % n != 0 && m >= 0 && (b * k) / n >= 0
    ensures Column(b, n, k, m) == if m < (b * k) / n then m else (b * k) / n
  {
    hide Below;
    if m > 0 {
      ColumnIs(b, n, k, m - 1);
      BelowQuotient(b, n, k, m);
    }
  }

  lemma QuotientRange(b: int, n: int, k: int)
    requires Odd(b) && Odd(n) && 1 <= k <= n / 2
    ensures 0 <= (b * k) / n <= b / 2
  {
    var q, c := (b * k) / n, b / 2;
    QuotientBounds(b * k, n);
    MulMono(0, k, b); Commute(k, b);
    if q < 0 { MulMono(q, -1, n); }
    if q > c { MulMono(c + 1, q, n); HalvesMeet(b, n, k); }
  }

  lemma HalvesMeet(b: int, n: int, k: int)
    requires Odd(b) && Odd(n) && 1 <= k <= n / 2
    ensures b * k < (b / 2 + 1) * n
  {
    MulMono(2 * k, n, b);
    assert 2 * (b * k) == (2 * k) * b;
    assert 2 * ((b / 2 + 1) * n) == (b + 1) * n by { assert 2 * (b / 2 + 1) == b + 1; TwiceTimes(b / 2 + 1, n); }
    Distribute(b, 1, n);
    Commute(b, n);
  }

  lemma TwiceTimes(x: int, n: int)
    ensures 2 * (x * n) == (2 * x) * n
  {}

  lemma {:induction false} AreaIs(b: int, n: int, j: int)
    requires Odd(b) && Odd(n) && Coprime(b, n) && 0 <= j <= n / 2
    ensures Area(b, n, j, b / 2) == QuotientSum(b, n, j)
  {
    hide Column;
    if j > 0 {
      AreaIs(b, n, j - 1);
      NonzeroMultiple(b, n, j);
      QuotientRange(b, n, j);
      ColumnIs(b, n, j, b / 2);
    }
  }

  lemma TiesExcluded(b: int, n: int)
    requires Odd(b) && Odd(n) && Coprime(b, n)
    ensures NoTies(b, n, n / 2, b / 2)
  {
    forall k, l | 1 <= k <= n / 2 && 1 <= l <= b / 2 ensures Below(b, n, k, l) != Below(n, b, l, k) {
      NonzeroMultiple(b, n, k);
      if l * n == b * k { QuotientUnique(b * k, n, l, 0); }
      Commute(l, n); Commute(b, k);
    }
  }

  // ---------- the law

  lemma CoprimeSymmetric(a: int, b: int)
    ensures Coprime(a, b) <==> Coprime(b, a)
  {}

  lemma SignOfProduct(x: int, y: int)
    ensures Sign(x + y) == Sign(x) * Sign(y)
  {}

  lemma EvenFactor(x: int, y: int)
    requires y % 2 == 0
    ensures (x * y) % 2 == 0
  {
    EvenMultiple(x, y / 2);
  }

  lemma SignOfHalves(m: int, n: int)
    requires Odd(m) && Odd(n)
    ensures Sign((n / 2) * (m / 2)) == if m % 4 == 3 && n % 4 == 3 then -1 else 1
  {
    HalfParity(m); HalfParity(n);
    var x, y := n / 2, m / 2;
    if y % 2 == 1 {
      OddTimes(x, y);
    } else {
      EvenFactor(x, y);
    }
  }

  /** Quadratic reciprocity. */
  lemma GaussReciprocity(m: int, n: int)
    requires Odd(m) && Odd(n) && Coprime(m, n)
    ensures GaussSign(m, n) * GaussSign(n, m) == if m % 4 == 3 && n % 4 == 3 then -1 else 1
  {
    hide Sign, GaussSign, QuotientSum, NoTies, Area;
    CoprimeSymmetric(m, n);
    GaussByQuotients(m, n); GaussByQuotients(n, m);
    SumParity(m, n, n / 2); SumParity(n, m, m / 2);
    AreaIs(m, n, n / 2); AreaIs(n, m, m / 2);
    TiesExcluded(m, n);
    Rectangle(m, n, n / 2, m / 2);
    SignOfProduct(QuotientSum(m, n, n / 2), QuotientSum(n, m, m / 2));
    SignOfHalves(m, n);
  }
}
