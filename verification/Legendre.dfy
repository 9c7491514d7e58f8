/** Euler's criterion and Gauss's lemma: for an odd prime the count says whether a number is a square. */
module Legendre {
  import opened Words
  import opened Divisors
  import opened Residues
  import opened Windows
  import opened HalfSystem

  ghost predicate Prime(p: int) {
    p > 1 && forall d | Divides(d, p) :: d == 1 || d == p
  }

  ghost predicate Root(x: int, a: int, p: int)
    requires p > 0
  {
    Cong(x * x, a, p)
  }

  ghost predicate Square(a: int, p: int)
    requires p > 0
  {
    exists x: int :: Root(x, a, p)
  }

  lemma PrimeCoprime(p: int, a: int)
    requires Prime(p)
    ensures Coprime(a, p) <==> a % p != 0
  {
    DividesIs(p, p, 1);
    if a % p == 0 { NotCoprime(a, p, p); }
  }

  lemma SmallCoprime(p: int, k: int)
    requires Prime(p) && 0 < k < p
    ensures Coprime(k, p)
  {
    PrimeCoprime(p, k);
    QuotientUnique(k, p, 0, k);
  }

  // ---------- products of sets

  lemma Member(s: set<int>)
    ensures |s| == 0 || exists x: int :: x in s
  {
    if forall x: int :: x !in s { assert s == {}; }
  }

  ghost function Prod(s: set<int>): int {
    if |s| == 0 then 1 else Member(s); var x :| x in s; x * Prod(s - {x})
  }

  lemma {:induction false} ProdRemove(s: set<int>, y: int)
    requires y in s
    ensures Prod(s) == y * Prod(s - {y})
    decreases |s|
  {
    var x :| x in s && Prod(s) == x * Prod(s - {x});
    if x != y {
      ProdRemove(s - {x}, y);
      ProdRemove(s - {y}, x);
      assert s - {x} - {y} == s - {y} - {x};
      SwapFactors(x, y, Prod(s - {x} - {y}));
    }
  }

  lemma SwapFactors(x: int, y: int, z: int)
    ensures x * (y * z) == y * (x * z)
  {}

  lemma {:induction false} ProdCoprime(s: set<int>, n: int)
    requires n > 0 && forall k | k in s :: Coprime(k, n)
    ensures Coprime(Prod(s), n)
    decreases |s|
  {
    hide Coprime;
    if |s| == 0 {
      EmptyProduct(s);
      CoprimeByCombination(1, n, 1, 0);
    } else {
      Member(s);
      var x :| x in s;
      ProdRemove(s, x);
      ProdCoprime(s - {x}, n);
      CoprimeProduct(x, Prod(s - {x}), n);
    }
  }

  lemma EmptyProduct(s: set<int>)
    requires |s| == 0
    ensures Prod(s) == 1
  {}

  // ---------- Gauss's lemma

  /** What the multiples a, ..., m*a are folded into. */
  ghost function Image(a: int, n: int, m: int): set<int>
    requires n > 0
  {
    if m <= 0 then {} else Image(a, n, m - 1) + {Fold(a, n, m)}
  }

  ghost function UpperTo(a: int, n: int, m: int): set<int>
    requires n > 0
  {
    set k | k in UpTo(m) && Upper(a, n, k)
  }

  lemma {:induction false} ImageMember(a: int, n: int, m: int, x: int) returns (k: int)
    requires n > 0 && x in Image(a, n, m)
    ensures 1 <= k <= m && x == Fold(a, n, k)
  {
    hide Fold;
    if x == Fold(a, n, m) { k := m; } else { k := ImageMember(a, n, m - 1, x); }
  }

  lemma ImageNew(a: int, n: int, m: int)
    requires Odd(n) && Coprime(a, n) && 1 <= m <= n / 2
    ensures Fold(a, n, m) !in Image(a, n, m - 1)
  {
    hide Fold, Coprime, Image;
    if Fold(a, n, m) in Image(a, n, m - 1) {
      var k := ImageMember(a, n, m - 1, Fold(a, n, m));
      FoldInjective(a, n, k, m);
    }
  }

  lemma {:induction false} ImageSize(a: int, n: int, m: int)
    requires Odd(n) && Coprime(a, n) && 0 <= m <= n / 2
    ensures |Image(a, n, m)| == m && Image(a, n, m) <= HalfRange(n)
  {
    hide Fold;
    if m > 0 {
      ImageSize(a, n, m - 1);
      ImageNew(a, n, m);
      FoldRange(a, n, m);
    }
  }

  lemma WholeImage(a: int, n: int)
    requires Odd(n) && Coprime(a, n)
    ensures Image(a, n, n / 2) == HalfRange(n)
  {
    ImageSize(a, n, n / 2);
    HalfSize(n);
    SubsetSize(Image(a, n, n / 2), HalfRange(n));
  }

  lemma SubsetSize(s: set<int>, t: set<int>)
    requires s <= t && |s| == |t|
    ensures s == t
  {
    assert t == s + (t - s);
  }

  lemma UpperStep(a: int, n: int, m: int)
    requires n > 0 && m > 0
    ensures Sign(|UpperTo(a, n, m)|) == (if Upper(a, n, m) then -1 else 1) * Sign(|UpperTo(a, n, m - 1)|)
  {
    hide Upper;
    hide UpTo, Sign;
    var t := UpperTo(a, n, m - 1);
    assert m !in t;
    NextSign(|t|);
    if Upper(a, n, m) {
      assert UpperTo(a, n, m) == t + {m};
    } else {
      assert UpperTo(a, n, m) == t;
    }
  }

  lemma NextSign(m: int)
    ensures Sign(m + 1) == -Sign(m)
  {}

  lemma StepCong(a: int, n: int, m: int, x: int, s: int, y: int, u: bool, f: int)
    requires n > 0 && Cong(s * y, x, n) && Cong(f, if u then -(a * m) else a * m, n)
    ensures Cong((a * m) * x, ((if u then -1 else 1) * s) * (f * y), n)
  {
    hide Cong;
    var e := if u then -1 else 1;
    SignTwice(u, a * m);
    CongTimesBy(f, e * (a * m), e, n);
    CongTimes(e * f, a * m, s * y, x, n);
    SignsApart(e, f, s, y);
    CongBack((a * m) * x, (e * f) * (s * y), n);
  }

  lemma SignTwice(u: bool, x: int)
    ensures var e := if u then -1 else 1; e * (e * x) == x && e * x == if u then -x else x
  {}

  lemma SignsApart(e: int, f: int, s: int, y: int)
    ensures (e * f) * (s * y) == (e * s) * (f * y)
  {}

  lemma CongBack(x: int, y: int, n: int)
    requires n > 0 && Cong(y, x, n)
    ensures Cong(x, y, n)
  {}

  lemma PowStep(a: int, m: nat)
    requires m > 0
    ensures Pow(a, m) == a * Pow(a, m - 1)
  {}

  lemma RangeProd(m: int)
    requires m > 0
    ensures Prod(UpTo(m)) == m * Prod(UpTo(m - 1))
  {
    ProdRemove(UpTo(m), m);
    assert UpTo(m) - {m} == UpTo(m - 1);
  }

  lemma ImageProd(a: int, n: int, m: int)
    requires Odd(n) && Coprime(a, n) && 1 <= m <= n / 2
    ensures Prod(Image(a, n, m)) == Fold(a, n, m) * Prod(Image(a, n, m - 1))
  {
    hide Fold;
    ImageNew(a, n, m);
    ProdRemove(Image(a, n, m), Fold(a, n, m));
    assert Image(a, n, m) - {Fold(a, n, m)} == Image(a, n, m - 1);
  }

  lemma {:induction false} PartialProduct(a: int, n: int, m: int)
    requires Odd(n) && Coprime(a, n) && 0 <= m <= n / 2
    ensures Cong(Pow(a, m) * Prod(UpTo(m)), Sign(|UpperTo(a, n, m)|) * Prod(Image(a, n, m)), n)
  {
    hide Upper, Fold, Pow, Prod, Sign, UpperTo, Image, Cong, Coprime, UpTo;
    if m == 0 {
      NothingYet(a, n);
    } else {
      PartialProduct(a, n, m - 1);
      UpperStep(a, n, m);
      FoldCong(a, n, m);
      CongBack(Sign(|UpperTo(a, n, m - 1)|) * Prod(Image(a, n, m - 1)), Pow(a, m - 1) * Prod(UpTo(m - 1)), n);
      PowStep(a, m);
      RangeProd(m);
      ImageProd(a, n, m);
      StepCong(a, n, m, Pow(a, m - 1) * Prod(UpTo(m - 1)), Sign(|UpperTo(a, n, m - 1)|), Prod(Image(a, n, m - 1)),
               Upper(a, n, m), Fold(a, n, m));
      Interchange(a, m, Pow(a, m - 1), Prod(UpTo(m - 1)));
    }
  }

  lemma NothingYet(a: int, n: int)
    requires n > 0
    ensures Cong(Pow(a, 0) * Prod(UpTo(0)), Sign(|UpperTo(a, n, 0)|) * Prod(Image(a, n, 0)), n)
  {
    assert UpperTo(a, n, 0) == {};
  }

  lemma Interchange(a: int, m: int, x: int, y: int)
    ensures (a * m) * (x * y) == (a * x) * (m * y)
  {}

  /** Gauss's lemma: a^((p-1)/2) is the symbol. */
  lemma GaussPower(a: int, p: int)
    requires Prime(p) && Odd(p) && Coprime(a, p)
    ensures Cong(Pow(a, p / 2), GaussSign(a, p), p)
  {
    hide Cong, Coprime, Prime, Upper, Pow, Prod, Sign;
    PartialProduct(a, p, p / 2);
    WholeImage(a, p);
    assert UpperTo(a, p, p / 2) == UpperSet(a, p);
    var w := Prod(HalfRange(p));
    forall k | k in HalfRange(p) ensures Coprime(k, p) { SmallCoprime(p, k); }
    ProdCoprime(HalfRange(p), p);
    Commute(w, Pow(a, p / 2)); Commute(w, GaussSign(a, p));
    CancelCong(w, Pow(a, p / 2), GaussSign(a, p), p);
  }

  // ---------- pairs with product a

  lemma PartnerExists(k: int, a: int, p: int) returns (x: int)
    requires Prime(p) && 0 < k < p && Coprime(a, p)
    ensures 0 < x < p && Cong(k * x, a, p)
  {
    SmallCoprime(p, k);
    var s, t := Bezout(k, p);
    x := (a * s) % p;
    CongSelf(a * s, p);
    CongTimesBy(x, a * s, k, p);
    TimesOne(a, k, s, t, p);
    CongBy(k * (a * s), a, p, -(a * t));
    CongTrans(k * x, k * (a * s), a, p);
    PrimeCoprime(p, a);
    ZeroTimes(k, p);
  }

  lemma ZeroTimes(k: int, p: int)
    requires p > 0
    ensures (k * 0) % p == 0
  {
    QuotientUnique(0, p, 0, 0);
  }

  lemma TimesOne(a: int, k: int, s: int, t: int, p: int)
    requires s * k + t * p == 1
    ensures k * (a * s) == a + (-(a * t)) * p
  {
    assert a * (s * k + t * p) == a * (s * k) + a * (t * p);
    assert a * (s * k) == k * (a * s) && a * (t * p) == (a * t) * p;
  }

  /** The one x from 1 to p - 1 with k * x = a (mod p). */
  ghost function Partner(k: int, a: int, p: int): (x: int)
    requires Prime(p) && 0 < k < p && Coprime(a, p)
    ensures 0 < x < p && Cong(k * x, a, p)
  {
    PartnerThere(k, a, p);
    var x :| IsPartner(k, x, a, p);
    x
  }

  ghost predicate IsPartner(k: int, x: int, a: int, p: int)
    requires p > 0
  {
    0 < x < p && Cong(k * x, a, p)
  }

  lemma PartnerThere(k: int, a: int, p: int)
    requires Prime(p) && 0 < k < p && Coprime(a, p)
    ensures exists x :: IsPartner(k, x, a, p)
  {
    var x := PartnerExists(k, a, p);
    assert IsPartner(k, x, a, p);
  }

  lemma PartnerUnique(k: int, x: int, a: int, p: int)
    requires Prime(p) && 0 < k < p && Coprime(a, p) && 0 < x < p && Cong(k * x, a, p)
    ensures Partner(k, a, p) == x
  {
    var y := Partner(k, a, p);
    SmallCoprime(p, k);
    CancelCong(k, x, y, p);
    QuotientUnique(x, p, 0, x); QuotientUnique(y, p, 0, y);
  }

  lemma PartnerBack(k: int, a: int, p: int)
    requires Prime(p) && 0 < k < p && Coprime(a, p)
    ensures Partner(Partner(k, a, p), a, p) == k
  {
    hide Cong, Partner;
    var x := Partner(k, a, p);
    Commute(k, x);
    PartnerUnique(x, k, a, p);
  }

  /** Every member has a partner other than itself in the set. */
  ghost predicate Paired(s: set<int>, a: int, p: int)
    requires Prime(p) && Coprime(a, p)
  {
    forall k | k in s :: 0 < k < p && Partner(k, a, p) in s && Partner(k, a, p) != k
  }

  lemma StillPaired(s: set<int>, a: int, p: int, k: int)
    requires Prime(p) && Coprime(a, p) && Paired(s, a, p) && k in s
    ensures Paired(s - {k} - {Partner(k, a, p)}, a, p)
  {
    hide Coprime, Prime, Partner;
    var x := Partner(k, a, p);
    forall j | j in s - {k} - {x} ensures Partner(j, a, p) in s - {k} - {x} {
      PartnerBack(j, a, p);
      PartnerBack(k, a, p);
    }
  }

  /** The product of a paired set: a for every pair. */
  lemma {:induction false} PairedProduct(s: set<int>, a: int, p: int)
    requires Prime(p) && Coprime(a, p) && Paired(s, a, p)
    ensures |s| % 2 == 0 && Cong(Prod(s), Pow(a, |s| / 2), p)
    decreases |s|
  {
    hide Coprime, Prime, Partner, Cong, Pow, Prod, Paired;
    if |s| == 0 {
      EmptyProduct(s);
      PrimePositive(p);
      NoPower(a, p);
    } else {
      Member(s);
      var k :| k in s;
      PairOf(s, a, p, k);
      var x := Partner(k, a, p);
      var t := s - {k} - {x};
      StillPaired(s, a, p, k);
      PairedProduct(t, a, p);
      ProdRemove(s, k);
      ProdRemove(s - {k}, x);
      PowStep(a, |s| / 2);
      assert k * (x * Prod(t)) == (k * x) * Prod(t);
      CongTimes(k * x, a, Prod(t), Pow(a, |t| / 2), p);
    }
  }

  lemma PairOf(s: set<int>, a: int, p: int, k: int)
    requires Prime(p) && Coprime(a, p) && Paired(s, a, p) && k in s
    ensures 0 < k < p && Partner(k, a, p) in s - {k}
    ensures |s - {k} - {Partner(k, a, p)}| == |s| - 2
  {
    hide Coprime, Prime, Partner;
  }

  lemma PrimePositive(p: int)
    requires Prime(p)
    ensures p > 0
  {}

  lemma NoPower(a: int, p: int)
    requires p > 0
    ensures Cong(1, Pow(a, 0), p)
  {}

  // ---------- Wilson and Euler

  lemma RootsOfOne(p: int, k: int)
    requires Prime(p) && 0 < k < p && Cong(k * k, 1, p)
    ensures k == 1 || k == p - 1
  {
    var c := CongWith(k * k, 1, p);
    assert (k - 1) * (k + 1) == c * p;
    QuotientUnique((k - 1) * (k + 1), p, c, 0);
    if k > 1 {
      SmallCoprime(p, k - 1);
      CancelCoprime(k - 1, k + 1, p);
      if k + 1 < p { QuotientUnique(k + 1, p, 0, k + 1); }
    }
  }

  lemma OneCoprime(p: int)
    ensures Coprime(1, p)
  {
    CoprimeByCombination(1, p, 1, 0);
  }

  lemma WilsonPaired(p: int)
    requires Prime(p) && Odd(p) && Coprime(1, p)
    ensures Paired(UpTo(p - 1) - {1} - {p - 1}, 1, p)
  {
    hide Prime, Coprime, Partner;
    var s := UpTo(p - 1) - {1} - {p - 1};
    forall k | k in s ensures Partner(k, 1, p) in s && Partner(k, 1, p) != k { WilsonPartner(p, k); }
  }

  lemma WilsonPartner(p: int, k: int)
    requires Prime(p) && Odd(p) && Coprime(1, p) && 1 < k < p - 1
    ensures 1 < Partner(k, 1, p) < p - 1 && Partner(k, 1, p) != k
  {
    var x := Partner(k, 1, p);
    if x == k { RootsOfOne(p, k); }
    QuotientUnique(1, p, 0, 1);
    if x == 1 { QuotientUnique(k * 1, p, 0, k); }
    if x == p - 1 {
      assert k * (p - 1) == (k - 1) * p + (p - k);
      QuotientUnique(k * (p - 1), p, k - 1, p - k);
    }
  }

  /** Wilson: (p-1)! = -1 (mod p) */
  lemma Wilson(p: int)
    requires Prime(p) && Odd(p)
    ensures Cong(Prod(UpTo(p - 1)), -1, p)
  {
    hide Prime, Coprime, Prod, Pow, Cong, Paired;
    OddPrime(p);
    OneCoprime(p);
    var u, s := UpTo(p - 1), UpTo(p - 1) - {1} - {p - 1};
    WilsonPaired(p);
    PairedProduct(s, 1, p);
    PowOne(|s| / 2);
    ProdRemove(u, 1);
    ProdRemove(u - {1}, p - 1);
    CongBy(p - 1, -1, p, 1);
    CongTimes(p - 1, -1, Prod(s), 1, p);
  }

  lemma OddPrime(p: int)
    requires Prime(p) && Odd(p)
    ensures p >= 3
  {}

  lemma {:induction false} PowOne(m: nat)
    ensures Pow(1, m) == 1
  {
    if m > 0 { PowOne(m - 1); PowStep(1, m); }
  }

  /** For a number that is not a square all of 1, ..., p - 1 pair up. */
  lemma NonSquarePaired(a: int, p: int)
    requires Prime(p) && Coprime(a, p) && !Square(a, p)
    ensures Paired(UpTo(p - 1), a, p)
  {
    hide Prime, Coprime, Partner;
    forall k | k in UpTo(p - 1) ensures Partner(k, a, p) != k { assert !Root(k, a, p); }
  }

  lemma NonSquareSign(a: int, p: int)
    requires Prime(p) && Odd(p) && Coprime(a, p) && !Square(a, p)
    ensures GaussSign(a, p) == -1
  {
    hide Prime, Coprime, Prod, Pow, Paired, Square;
    OddPrime(p);
    NonSquarePaired(a, p);
    PairedProduct(UpTo(p - 1), a, p);
    RangeSize(p - 1);
    Wilson(p);
    GaussPower(a, p);
    assert (p - 1) / 2 == p / 2;
    if GaussSign(a, p) == 1 {
      QuotientUnique(1, p, 0, 1);
      QuotientUnique(-1, p, -1, p - 1);
    }
  }

  lemma SquareSign(a: int, x: int, n: int)
    requires Odd(n) && Coprime(a, n) && Cong(x * x, a, n)
    ensures GaussSign(a, n) == 1
  {
    CoprimeCong(x * x, a, n);
    CoprimeProduct(x, x, n);
    GaussCong(x * x, a, n);
    GaussProduct(x, x, n);
  }

  lemma CoprimeCong(x: int, y: int, n: int)
    requires n > 0 && Cong(x, y, n) && Coprime(y, n)
    ensures Coprime(x, n)
  {
    var k := CongWith(x, y, n);
    forall d | Divides(d, x) && Divides(d, n) ensures d == 1 {
      DividesSum(d, x, n, 1, -k);
      assert 1 * x + (-k) * n == y;
    }
  }

  /** For an odd prime the symbol is 1 exactly for the squares. */
  lemma GaussIsLegendre(a: int, p: int)
    requires Prime(p) && Odd(p) && Coprime(a, p)
    ensures GaussSign(a, p) == if Square(a, p) then 1 else -1
  {
    if x: int :| Root(x, a, p) {
      SquareSign(a, x, p);
    } else {
      NonSquareSign(a, p);
    }
  }
}
