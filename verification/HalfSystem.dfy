/** Gauss's count: how often the multiples a, 2a, ..., ((n-1)/2)a fall into the upper half modulo n. Its parity
    is a symbol that depends on a and n alone, for every odd n coprime to a. */
module HalfSystem {
  import opened Words
  import opened Divisors
  import opened Residues

  // ---------- coprime factors cancel

  /** Bezout's coefficients. */
  lemma {:induction false} Bezout(a: int, n: int) returns (s: int, t: int)
    requires n >= 0 && Coprime(a, n)
    ensures s * a + t * n == 1
    decreases n
  {
    if n == 0 {
      UnitDivisor(a);
      s, t := a, 0;
      assert a * a == 1;
    } else {
      QuotientBounds(a, n);
      CoprimeRest(a, n);
      var s', t' := Bezout(n, a % n);
      s, t := t', s' - t' * (a / n);
      BezoutStep(a, n, a / n, a % n, s', t');
    }
  }

  lemma UnitDivisor(a: int)
    requires Coprime(a, 0)
    ensures a == 1 || a == -1
  {
    DividesIs(2, 0, 0);
    if a != 0 {
      var d := if a < 0 then -a else a;
      DividesIs(d, a, if a < 0 then -1 else 1);
      DividesIs(d, 0, 0);
    }
  }

  lemma CoprimeRest(a: int, n: int)
    requires n > 0 && Coprime(a, n)
    ensures Coprime(n, a % n)
  {
    QuotientBounds(a, n);
    forall d | Divides(d, n) && Divides(d, a % n) ensures d == 1 {
      DividesSum(d, n, a % n, a / n, 1);
    }
  }

  lemma BezoutStep(a: int, n: int, q: int, r: int, s: int, t: int)
    requires a == q * n + r && s * n + t * r == 1
    ensures t * a + (s - t * q) * n == 1
  {
    assert t * (q * n) == (t * q) * n;
    assert t * a == t * (q * n) + t * r;
    assert (s - t * q) * n == s * n - (t * q) * n;
  }

  /** A factor coprime to n cancels. */
  lemma CancelCoprime(a: int, x: int, n: int)
    requires n > 0 && Coprime(a, n) && (a * x) % n == 0
    ensures x % n == 0
  {
    var s, t := Bezout(a, n);
    QuotientBounds(a * x, n);
    CombinedMultiple(a, x, n, s, t, (a * x) / n);
    QuotientUnique(x, n, s * ((a * x) / n) + t * x, 0);
  }

  lemma CombinedMultiple(a: int, x: int, n: int, s: int, t: int, q: int)
    requires s * a + t * n == 1 && a * x == q * n
    ensures x == (s * q + t * x) * n
  {
    assert (s * a + t * n) * x == s * (a * x) + (t * x) * n;
    assert s * (q * n) == (s * q) * n;
  }

  lemma CancelCong(a: int, x: int, y: int, n: int)
    requires n > 0 && Coprime(a, n) && Cong(a * x, a * y, n)
    ensures Cong(x, y, n)
  {
    var k := CongWith(a * x, a * y, n);
    assert a * (x - y) == k * n;
    QuotientUnique(a * (x - y), n, k, 0);
    CancelCoprime(a, x - y, n);
    QuotientBounds(x - y, n);
    CongBy(x, y, n, (x - y) / n);
  }

  /** What is coprime to n is so in a product, and in a factor. */
  lemma CoprimeProduct(a: int, b: int, n: int)
    requires n > 0
    ensures Coprime(a * b, n) <==> Coprime(a, n) && Coprime(b, n)
  {
    if Coprime(a * b, n) {
      forall d | Divides(d, a) && Divides(d, n) ensures d == 1 { DividesSum(d, a, a, b, 0); Commute(a, b); }
      forall d | Divides(d, b) && Divides(d, n) ensures d == 1 { DividesSum(d, b, b, a, 0); }
    }
    if Coprime(a, n) && Coprime(b, n) {
      var s, t := Bezout(a, n);
      var s', t' := Bezout(b, n);
      BezoutProduct(a, b, n, s, t, s', t');
      CoprimeByCombination(a * b, n, s * s', s * a * t' + t * (s' * b + t' * n));
    }
  }

  lemma BezoutProduct(a: int, b: int, n: int, s: int, t: int, s': int, t': int)
    requires s * a + t * n == 1 && s' * b + t' * n == 1
    ensures (s * s') * (a * b) + (s * a * t' + t * (s' * b + t' * n)) * n == 1
  {
    var u, v := s' * b, t' * n;
    assert (s * a) * (u + v) + (t * n) * (u + v) == 1;
    assert (s * s') * (a * b) == (s * a) * u;
    assert (s * a * t') * n == (s * a) * v;
    assert (t * (u + v)) * n == (t * n) * (u + v);
  }

  // ---------- the half system

  ghost predicate Odd(n: int) { n > 0 && n % 2 == 1 }

  /** The numbers from 1 to m. */
  ghost function UpTo(m: int): (r: set<int>)
    ensures forall k: int :: k in r <==> 1 <= k <= m
  {
    if m <= 0 then {} else UpTo(m - 1) + {m}
  }

  ghost function HalfRange(n: int): set<int>
    requires n > 0
  {
    UpTo(n / 2)
  }

  /** The multiple of a falls into the upper half. */
  ghost predicate Upper(a: int, n: int, k: int)
    requires n > 0
  {
    (a * k) % n > n / 2
  }

  /** The multiple of a folded into the lower half. */
  ghost function Fold(a: int, n: int, k: int): int
    requires n > 0
  {
    if Upper(a, n, k) then n - (a * k) % n else (a * k) % n
  }

  ghost function UpperSet(a: int, n: int): set<int>
    requires n > 0
  {
    set k | k in HalfRange(n) && Upper(a, n, k)
  }

  ghost function Sign(m: int): int { if m % 2 == 0 then 1 else -1 }

  /** (-1)^(the count of multiples in the upper half) */
  ghost function GaussSign(a: int, n: int): int
    requires n > 0
  {
    Sign(|UpperSet(a, n)|)
  }

  lemma FoldCong(a: int, n: int, k: int)
    requires n > 0
    ensures Cong(Fold(a, n, k), if Upper(a, n, k) then -(a * k) else a * k, n)
  {
    QuotientBounds(a * k, n);
    var q := (a * k) / n;
    if Upper(a, n, k) {
      Distribute(0, q, n);
      Distribute(1, q, n);
      CongBy(Fold(a, n, k), -(a * k), n, 1 + q);
    } else {
      CongBy(Fold(a, n, k), a * k, n, -q);
      Distribute(0, q, n);
    }
  }

  lemma NonzeroMultiple(a: int, n: int, k: int)
    requires n > 0 && Coprime(a, n) && 0 < k < n
    ensures (a * k) % n != 0
  {
    if (a * k) % n == 0 {
      CancelCoprime(a, k, n);
      QuotientUnique(k, n, 0, k);
    }
  }

  lemma FoldRange(a: int, n: int, k: int)
    requires Odd(n) && Coprime(a, n) && k in HalfRange(n)
    ensures Fold(a, n, k) in HalfRange(n)
  {
    NonzeroMultiple(a, n, k);
    QuotientBounds(a * k, n);
  }

  lemma FoldInjective(a: int, n: int, k: int, j: int)
    requires Odd(n) && Coprime(a, n) && k in HalfRange(n) && j in HalfRange(n)
    requires Fold(a, n, k) == Fold(a, n, j)
    ensures k == j
  {
    hide Upper, Fold;
    FoldCong(a, n, k); FoldCong(a, n, j);
    SignedCong(a, n, k, j, Upper(a, n, k), Upper(a, n, j), Fold(a, n, k));
  }

  lemma SignedCong(a: int, n: int, k: int, j: int, u: bool, v: bool, f: int)
    requires Odd(n) && Coprime(a, n) && 1 <= k <= n / 2 && 1 <= j <= n / 2
    requires Cong(f, if u then -(a * k) else a * k, n) && Cong(f, if v then -(a * j) else a * j, n)
    ensures k == j
  {
    var x, y := (if u then -k else k), if v then -j else j;
    assert a * x == (if u then -(a * k) else a * k) && a * y == if v then -(a * j) else a * j;
    CancelCong(a, x, y, n);
    var c := CongWith(x, y, n);
    if c >= 1 { MulMono(1, c, n); }
    if c <= -1 { MulMono(c, -1, n); }
  }

  // ---------- the fold is a permutation

  lemma {:induction false} RangeSize(m: int)
    requires m >= 0
    ensures |UpTo(m)| == m
  {
    if m > 0 {
      RangeSize(m - 1);
      assert m !in UpTo(m - 1);
    }
  }

  lemma HalfSize(n: int)
    requires n > 0
    ensures |HalfRange(n)| == n / 2
  {
    RangeSize(n / 2);
  }

  /** The k of the half range that are folded into t. */
  ghost function Folded(a: int, n: int, t: set<int>): set<int>
    requires n > 0
  {
    set k | k in HalfRange(n) && Fold(a, n, k) in t
  }

  lemma {:induction false} FoldedAtMost(a: int, n: int, t: set<int>)
    requires Odd(n) && Coprime(a, n)
    ensures |Folded(a, n, t)| <= |t|
  {
    hide Fold, HalfRange;
    if x: int :| x in t {
      FoldedAtMost(a, n, t - {x});
      FoldedOnce(a, n, x);
      assert Folded(a, n, t) == Folded(a, n, t - {x}) + Folded(a, n, {x});
    } else {
      assert Folded(a, n, t) == {};
    }
  }

  lemma FoldedOnce(a: int, n: int, x: int)
    requires Odd(n) && Coprime(a, n)
    ensures |Folded(a, n, {x})| <= 1
  {
    hide Fold, HalfRange;
    var s := Folded(a, n, {x});
    if s != {} {
      var k :| k in s;
      forall j | j in s ensures j == k { FoldInjective(a, n, j, k); }
      assert s == {k};
    }
  }

  /** As many are folded into a part of the half range as it has. */
  lemma FoldedSize(a: int, n: int, t: set<int>)
    requires Odd(n) && Coprime(a, n) && t <= HalfRange(n)
    ensures |Folded(a, n, t)| == |t|
  {
    hide Fold, HalfRange;
    var h := HalfRange(n);
    FoldedAtMost(a, n, t);
    FoldedAtMost(a, n, h - t);
    forall k | k in h ensures Fold(a, n, k) in h { FoldRange(a, n, k); }
    assert Folded(a, n, t) + Folded(a, n, h - t) == h;
    assert t + (h - t) == h;
  }

  // ---------- products

  ghost function Differ(s: set<int>, t: set<int>): set<int> { (s - t) + (t - s) }

  lemma SignDiffer(s: set<int>, t: set<int>)
    ensures Sign(|Differ(s, t)|) == Sign(|s|) * Sign(|t|)
  {
    hide Sign;
    SizeSplit(s, t); SizeSplit(t, s);
    assert t * s == s * t;
    assert |Differ(s, t)| == |s - t| + |t - s|;
    SignSum(|s - t|, |t - s|, |s * t|);
  }

  lemma SizeSplit(s: set<int>, t: set<int>)
    ensures |s| == |s - t| + |s * t|
  {
    assert s == (s - t) + (s * t);
  }

  lemma SignSum(x: nat, y: nat, z: nat)
    ensures Sign(x + y) == Sign(x + z) * Sign(y + z)
  {}

  /** Whether a*b*k is in the upper half: b turns it over once more or not. */
  lemma UpperProduct(a: int, b: int, n: int, k: int)
    requires Odd(n) && Coprime(a, n) && Coprime(b, n) && k in HalfRange(n)
    ensures Upper(a * b, n, k) <==> Upper(a, n, k) != Upper(b, n, Fold(a, n, k))
  {
    var f := Fold(a, n, k);
    FoldRange(a, n, k);
    FoldCong(a, n, k);
    NonzeroMultiple(b, n, f);
    UpperOfCong(a, b, n, k, f, Upper(a, n, k));
  }

  lemma UpperOfCong(a: int, b: int, n: int, k: int, f: int, u: bool)
    requires Odd(n) && Cong(f, if u then -(a * k) else a * k, n) && (b * f) % n != 0
    ensures (a * b * k) % n == if u then n - (b * f) % n else (b * f) % n
  {
    var x := if u then -(a * k) else a * k;
    CongTimesBy(f, x, b, n);
    assert b * x == if u then -(a * b * k) else a * b * k by {
      assert b * (a * k) == a * b * k;
      assert b * -(a * k) == -(b * (a * k));
    }
    if u { NegatedResidue(a * b * k, n); }
  }

  lemma NegatedResidue(x: int, n: int)
    requires n > 0 && (-x) % n != 0
    ensures x % n == n - (-x) % n
  {
    QuotientBounds(-x, n);
    Distribute(0, (-x) / n, n);
    Distribute(-((-x) / n), 1, n);
    QuotientUnique(x, n, -((-x) / n) - 1, n - (-x) % n);
  }

  /** The symbol is multiplicative. */
  lemma GaussProduct(a: int, b: int, n: int)
    requires Odd(n) && Coprime(a, n) && Coprime(b, n)
    ensures GaussSign(a * b, n) == GaussSign(a, n) * GaussSign(b, n)
  {
    hide Upper, Fold, HalfRange;
    var s, t := UpperSet(a, n), Folded(a, n, UpperSet(b, n));
    forall k | k in HalfRange(n) ensures k in UpperSet(a * b, n) <==> k in Differ(s, t) {
      UpperProduct(a, b, n, k);
      FoldRange(a, n, k);
    }
    assert UpperSet(a * b, n) == Differ(s, t);
    SignDiffer(s, t);
    FoldedSize(a, n, UpperSet(b, n));
  }

  // ---------- the first values

  lemma GaussCong(a: int, b: int, n: int)
    requires n > 0 && Cong(a, b, n)
    ensures GaussSign(a, n) == GaussSign(b, n)
  {
    forall k | k in HalfRange(n) ensures Upper(a, n, k) == Upper(b, n, k) { CongTimesBy(a, b, k, n); }
    assert UpperSet(a, n) == UpperSet(b, n);
  }

  /** (-1/n): all multiples are in the upper half. */
  lemma GaussMinusOne(n: int)
    requires Odd(n)
    ensures GaussSign(-1, n) == if n % 4 == 1 then 1 else -1
  {
    forall k | k in HalfRange(n) ensures Upper(-1, n, k) { QuotientUnique(-1 * k, n, -1, n - k); }
    assert UpperSet(-1, n) == HalfRange(n);
    HalfSize(n);
    HalfParity(n);
  }

  lemma HalfParity(n: int)
    requires Odd(n)
    ensures (n / 2) % 2 == 0 <==> n % 4 == 1
    ensures n % 4 == 1 || n % 4 == 3
  {
    var q, r := n / 4, n % 4;
    QuotientBounds(n, 4);
    QuotientUnique(n, 2, 2 * q + r / 2, r % 2);
    QuotientUnique(n / 2, 2, q, r / 2);
  }

  /** (2/n): the multiples of 2 are their own residues, and half of them are in the upper half. */
  lemma GaussTwo(n: int)
    requires Odd(n)
    ensures GaussSign(2, n) == if n % 8 == 1 || n % 8 == 7 then 1 else -1
  {
    hide Upper, UpTo;
    forall k | k in HalfRange(n) ensures Upper(2, n, k) <==> k > n / 2 / 2 { TwiceUpper(n, k); }
    var low := UpTo(n / 2 / 2);
    assert UpperSet(2, n) == HalfRange(n) - low;
    assert low <= HalfRange(n);
    SizeSplit(HalfRange(n), low);
    assert HalfRange(n) * low == low;
    RangeSize(n / 2 / 2);
    HalfSize(n);
    QuarterParity(n);
  }

  lemma TwiceUpper(n: int, k: int)
    requires Odd(n) && k in HalfRange(n)
    ensures Upper(2, n, k) <==> k > n / 2 / 2
  {
    QuotientUnique(2 * k, n, 0, 2 * k);
  }

  lemma QuarterParity(n: int)
    requires Odd(n)
    ensures (n / 2 - n / 2 / 2) % 2 == 0 <==> n % 8 == 1 || n % 8 == 7
  {
    var q, r := n / 8, n % 8;
    QuotientBounds(n, 8);
    QuotientUnique(n, 2, 4 * q + r / 2, r % 2);
    QuotientUnique(n / 2, 2, 2 * q + r / 2 / 2, r / 2 % 2);
    var s := r / 2 - r / 2 / 2;
    QuotientUnique(2 * q + s, 2, q + s / 2, s % 2);
  }
}
