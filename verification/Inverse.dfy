/** bn_gcd.c: the modular inverse, by binary shifts or by Euclid's algorithm. */
module Inverse {
  import opened Words
  import opened Bits
  import opened Bignums
  import opened Basics
  import opened AddSub
  import opened Products
  import opened Shift
  import opened Division
  import opened Modular
  import opened WordOps
  import opened Divisors

  // ---------- the relations both branches keep

  /** sign * y * a = x + k * n: up to its sign, y times a is x modulo n. */
  ghost predicate Linked(sign: int, y: int, a: int, x: int, k: int, n: int) {
    (sign * y) * a == x + k * n
  }

  /** z is a combination of x and y. */
  ghost predicate Combines(z: int, s: int, x: int, t: int, y: int) {
    z == s * x + t * y
  }

  /** The state of the algorithm for a modulo n: X and Y link B and A to a, and the coefficients
      in c show that every common divisor of A and B divides n and a. */
  datatype Links = Links(k1: int, k2: int, u: int, v: int, s: int, t: int)

  ghost predicate Invariant(a: int, n: int, x: int, y: int, p: int, q: int, sign: int, c: Links) {
    && (sign == 1 || sign == -1)
    && Linked(-sign, x, a, q, c.k1, n) && Linked(sign, y, a, p, c.k2, n)
    && Combines(n, c.u, p, c.v, q) && Combines(a, c.s, p, c.t, q)
  }

  /** At the start A = |n| and B is a modulo |n|. */
  lemma Start(a: int, n: int, b: int, k: int) returns (c: Links)
    requires b == a + Times(k, n)
    ensures Invariant(a, n, 1, 0, n, b, -1, c)
  {
    c := Links(-k, -1, 1, 0, -k, 1);
  }

  /** At the end B = 0: A divides n and a. */
  lemma Finish(a: int, n: int, x: int, y: int, p: int, sign: int, c: Links)
    requires Invariant(a, n, x, y, p, 0, sign, c) && p > 0
    ensures Divides(p, n) && Divides(p, a)
    ensures (sign * y) * a == p + c.k2 * n
  {
    DividesIs(p, n, c.u); DividesIs(p, a, c.s);
  }

  // ---------- Euclid's algorithm

  /** (A, B) := (B, A mod B), (X, Y, sign) := (D*X + Y, X, -sign) */
  lemma EuclidStep(a: int, n: int, x: int, y: int, p: int, q: int, sign: int, c: Links, d: int, m: int)
    returns (c': Links)
    requires Invariant(a, n, x, y, p, q, sign, c) && p == Times(d, q) + m
    ensures Invariant(a, n, Times(d, x) + y, x, q, m, -sign, c')
  {
    c' := Links(c.k2 - d * c.k1, c.k1, c.u * d + c.v, c.u, c.s * d + c.t, c.s);
    Substitute(n, c.u, p, c.v, q, d, m);
    Substitute(a, c.s, p, c.t, q, d, m);
    EuclidLink(sign, x, y, a, q, p, c.k1, c.k2, n, d, m);
  }

  lemma Substitute(z: int, s: int, p: int, t: int, q: int, d: int, m: int)
    requires Combines(z, s, p, t, q) && p == Times(d, q) + m
    ensures Combines(z, s * d + t, q, s, m)
  {
    assert s * (d * q) == (s * d) * q;
  }

  lemma EuclidLink(sign: int, x: int, y: int, a: int, q: int, p: int, k1: int, k2: int, n: int, d: int, m: int)
    requires Linked(-sign, x, a, q, k1, n) && Linked(sign, y, a, p, k2, n) && p == Times(d, q) + m
    ensures Linked(sign, Times(d, x) + y, a, m, k2 - d * k1, n)
  {
    assert (sign * (d * x + y)) * a == (sign * y) * a - d * (((-sign) * x) * a);
    assert d * (q + k1 * n) == d * q + (d * k1) * n;
  }

  // ---------- binary steps

  /** Halving an even B: X is made even by adding n if need be, and halved. */
  lemma HalveLink(sign: int, x: int, a: int, q: int, k: int, n: int, x': int) returns (k': int)
    requires Linked(sign, x, a, 2 * q, k, n) && n % 2 == 1
    requires 2 * x' == if x % 2 == 1 then x + n else x
    ensures Linked(sign, x', a, q, k', n)
  {
    var j := if x % 2 == 1 then k + sign * a else k;
    HalvedProduct(sign, x, a, q, k, n, x', j);
    EvenFactor(j, n, (sign * x') * a - q);
    k' := j / 2;
    HalfMultiple(j, n);
  }

  lemma HalvedProduct(sign: int, x: int, a: int, q: int, k: int, n: int, x': int, j: int)
    requires (sign * x) * a == 2 * q + k * n
    requires 2 * x' == (if x % 2 == 1 then x + n else x) && j == (if x % 2 == 1 then k + sign * a else k)
    ensures 2 * ((sign * x') * a) == 2 * q + j * n
  {
    assert 2 * ((sign * x') * a) == (sign * (2 * x')) * a;
    assert (sign * (x + n)) * a == (sign * x) * a + (sign * a) * n;
    assert (k + sign * a) * n == k * n + (sign * a) * n;
  }

  lemma EvenFactor(j: int, n: int, h: int)
    requires n % 2 == 1 && j * n == 2 * h
    ensures j % 2 == 0
  {
    var i := n / 2;
    assert n == 2 * i + 1;
    assert j * n == 2 * (j * i) + j;
  }

  lemma HalfMultiple(j: int, n: int)
    requires j % 2 == 0
    ensures 2 * ((j / 2) * n) == j * n
  {
    assert (2 * (j / 2)) * n == 2 * ((j / 2) * n);
  }

  /** B := B - A, X := X + Y */
  lemma SubtractFromB(a: int, n: int, x: int, y: int, p: int, q: int, sign: int, c: Links) returns (c': Links)
    requires Invariant(a, n, x, y, p, q, sign, c)
    ensures Invariant(a, n, x + y, y, p, q - p, sign, c')
  {
    c' := Links(c.k1 - c.k2, c.k2, c.u + c.v, c.v, c.s + c.t, c.t);
    SumLink(sign, x, y, a, q, p, c.k1, c.k2, n);
    RegroupPair(c.u, c.v, p, q); RegroupPair(c.s, c.t, p, q);
  }

  /** A := A - B, Y := Y + X */
  lemma SubtractFromA(a: int, n: int, x: int, y: int, p: int, q: int, sign: int, c: Links) returns (c': Links)
    requires Invariant(a, n, x, y, p, q, sign, c)
    ensures Invariant(a, n, x, y + x, p - q, q, sign, c')
  {
    c' := Links(c.k1, c.k2 - c.k1, c.u, c.v + c.u, c.s, c.t + c.s);
    SumLink(-sign, y, x, a, p, q, c.k2, c.k1, n);
    RegroupPair(c.v, c.u, q, p); RegroupPair(c.t, c.s, q, p);
  }

  lemma SumLink(sign: int, x: int, y: int, a: int, q: int, p: int, k1: int, k2: int, n: int)
    requires Linked(-sign, x, a, q, k1, n) && Linked(sign, y, a, p, k2, n)
    ensures Linked(-sign, x + y, a, q - p, k1 - k2, n)
  {
    assert ((-sign) * (x + y)) * a == ((-sign) * x) * a - (sign * y) * a;
    Distribute(k1, k2, n);
  }

  lemma RegroupPair(u: int, v: int, p: int, q: int)
    ensures u * p + v * q == (u + v) * p + v * (q - p)
  {}

  lemma ShiftB(a: int, n: int, x: int, y: int, p: int, q: int, sign: int, c: Links, x': int, q': int, k': int, w: int)
    returns (c': Links)
    requires Invariant(a, n, x, y, p, q, sign, c) && q == q' * w && Linked(-sign, x', a, q', k', n)
    ensures Invariant(a, n, x', y, p, q', sign, c')
  {
    c' := Links(k', c.k2, c.u, c.v * w, c.s, c.t * w);
    PullFactor(c.v, q', w); PullFactor(c.t, q', w);
  }

  lemma ShiftA(a: int, n: int, x: int, y: int, p: int, q: int, sign: int, c: Links, y': int, p': int, k': int, w: int)
    returns (c': Links)
    requires Invariant(a, n, x, y, p, q, sign, c) && p == p' * w && Linked(sign, y', a, p', k', n)
    ensures Invariant(a, n, x, y', p', q, sign, c')
  {
    c' := Links(c.k1, k', c.u * w, c.v, c.s * w, c.t);
    PullFactor(c.u, p', w); PullFactor(c.s, p', w);
  }

  lemma PullFactor(v: int, q: int, w: int)
    ensures v * (q * w) == (v * w) * q
  {}

  // ---------- the binary branch

  /** Halves X modulo n: an odd X is made even by adding n. */
  method HalveModulo(x: Bignum, n: Bignum)
    requires NonNeg(x) && n.Valid() && x != n && n.Mag() % 2 == 1
    modifies x
    ensures NonNeg(x) && 2 * x.Mag() == if old(x.Mag()) % 2 == 1 then old(x.Mag()) + n.Mag() else old(x.Mag())
  {
    hide Val, Bignum.Mag;
    OddMag(x);
    if IsOdd(x) { Uadd(x, x, n); }
    Rshift1(x, x);
  }

  /** Divides b by its largest power of two and x by the same modulo n. */
  method RemoveTwos(b: Bignum, x: Bignum, n: Bignum, ghost sign: int, ghost a: int, ghost k: int)
    returns (ghost k': int, ghost w: int)
    requires NonNeg(b) && NonNeg(x) && n.Valid() && b != x && b != n && x != n
    requires b.Mag() > 0 && n.Mag() % 2 == 1 && Linked(sign, x.Mag(), a, b.Mag(), k, n.Mag())
    modifies b, x
    ensures NonNeg(b) && NonNeg(x) && b.Mag() % 2 == 1 && 0 < b.Mag() <= old(b.Mag()) == b.Mag() * w
    ensures Linked(sign, x.Mag(), a, b.Mag(), k', n.Mag())
  {
    hide Val, Bignum.Mag, Linked, BitOf, Shr, P2;
    ghost var v, q := b.Mag(), b.Mag();
    var shift := 0;
    var bit := IsBitSet(b, shift);
    k', w := k, 1;
    NoShiftYet(v, shift);
    while !bit
      invariant 0 < q == Shr(v, shift) <= v == q * w && w == P2(shift) && (bit <==> BitOf(v, shift))
      invariant NonNeg(x) && NonNeg(b) && b.Mag() == v
      invariant Linked(sign, x.Mag(), a, q, k', n.Mag())
      decreases q
      modifies x
    {
      ShrStep(v, shift);
      NextPower(q, shift);
      ghost var x0 := x.Mag();
      shift := shift + 1;
      HalveModulo(x, n);
      q, w := q / 2, 2 * w;
      k' := HalveLink(sign, x0, a, q, k', n.Mag(), x.Mag());
      bit := IsBitSet(b, shift);
    }
    BitIsOdd(v, shift);
    if shift > 0 { Rshift(b, b, shift); } else { NoShiftYet(v, shift); }
  }

  lemma NoShiftYet(v: int, s: nat)
    requires s == 0
    ensures Shr(v, s) == v && P2(s) == 1
  {}

  lemma NextPower(q: int, s: nat)
    requires q % 2 == 0
    ensures P2(s + 1) == 2 * P2(s) && q * P2(s) == (q / 2) * (2 * P2(s))
  {}

  ghost predicate PairwiseApart(a: Bignum, b: Bignum, x: Bignum, y: Bignum, n: Bignum) {
    a != b && a != x && a != y && a != n && b != x && b != y && b != n && x != y && x != n && y != n
  }

  /** The loop of the binary branch. */
  method BinaryLoop(A: Bignum, B: Bignum, X: Bignum, Y: Bignum, n: Bignum, ghost a: int, ghost c0: Links)
    returns (ghost c: Links)
    requires PairwiseApart(A, B, X, Y, n)
    requires NonNeg(A) && NonNeg(B) && NonNeg(X) && NonNeg(Y) && n.Valid() && n.Mag() % 2 == 1 && A.Mag() > 0
    requires Invariant(a, n.Mag(), X.Mag(), Y.Mag(), A.Mag(), B.Mag(), -1, c0)
    modifies A, B, X, Y
    ensures NonNeg(A) && NonNeg(B) && NonNeg(X) && NonNeg(Y) && A.Mag() > 0 && B.Mag() == 0
    ensures Invariant(a, n.Mag(), X.Mag(), Y.Mag(), A.Mag(), B.Mag(), -1, c)
  {
    hide Val, Bignum.Mag, Invariant;
    c := c0;
    ZeroMag(B);
    while !IsZero(B)
      invariant NonNeg(A) && NonNeg(B) && NonNeg(X) && NonNeg(Y) && A.Mag() > 0
      invariant Invariant(a, n.Mag(), X.Mag(), Y.Mag(), A.Mag(), B.Mag(), -1, c)
      invariant IsZero(B) <==> B.Mag() == 0
      decreases A.Mag() + B.Mag()
    {
      c := BinaryShifts(A, B, X, Y, n, a, c);
      c := BinarySubtract(A, B, X, Y, n, a, c);
      ZeroMag(B);
    }
  }

  /** Both numbers are made odd. */
  method BinaryShifts(A: Bignum, B: Bignum, X: Bignum, Y: Bignum, n: Bignum, ghost a: int, ghost c0: Links)
    returns (ghost c: Links)
    requires PairwiseApart(A, B, X, Y, n)
    requires NonNeg(A) && NonNeg(B) && NonNeg(X) && NonNeg(Y) && n.Valid() && n.Mag() % 2 == 1
    requires A.Mag() > 0 && B.Mag() > 0
    requires Invariant(a, n.Mag(), X.Mag(), Y.Mag(), A.Mag(), B.Mag(), -1, c0)
    modifies A, B, X, Y
    ensures NonNeg(A) && NonNeg(B) && NonNeg(X) && NonNeg(Y)
    ensures 0 < A.Mag() <= old(A.Mag()) && 0 < B.Mag() <= old(B.Mag())
    ensures Invariant(a, n.Mag(), X.Mag(), Y.Mag(), A.Mag(), B.Mag(), -1, c)
  {
    hide Val, Bignum.Mag, Linked, Combines;
    c := c0;
    ghost var x, q := X.Mag(), B.Mag();
    ghost var k, w;
    k, w := RemoveTwos(B, X, n, 1, a, c.k1);
    c := ShiftB(a, n.Mag(), x, Y.Mag(), A.Mag(), q, -1, c, X.Mag(), B.Mag(), k, w);
    ghost var y, p := Y.Mag(), A.Mag();
    k, w := RemoveTwos(A, Y, n, -1, a, c.k2);
    c := ShiftA(a, n.Mag(), X.Mag(), y, p, B.Mag(), -1, c, Y.Mag(), A.Mag(), k, w);
  }

  /** The larger number is reduced by the smaller. */
  method BinarySubtract(A: Bignum, B: Bignum, X: Bignum, Y: Bignum, n: Bignum, ghost a: int, ghost c0: Links)
    returns (ghost c: Links)
    requires PairwiseApart(A, B, X, Y, n)
    requires NonNeg(A) && NonNeg(B) && NonNeg(X) && NonNeg(Y) && n.Valid() && A.Mag() > 0 && B.Mag() > 0
    requires Invariant(a, n.Mag(), X.Mag(), Y.Mag(), A.Mag(), B.Mag(), -1, c0)
    modifies A, B, X, Y
    ensures NonNeg(A) && NonNeg(B) && NonNeg(X) && NonNeg(Y) && A.Mag() > 0
    ensures A.Mag() + B.Mag() < old(A.Mag()) + old(B.Mag())
    ensures Invariant(a, n.Mag(), X.Mag(), Y.Mag(), A.Mag(), B.Mag(), -1, c)
  {
    hide Val, Bignum.Mag, Invariant;
    ghost var x, y, p, q := X.Mag(), Y.Mag(), A.Mag(), B.Mag();
    var cmp := Ucmp(B, A);
    var ok: bool;
    if cmp >= 0 {
      TopsOrdered(A, B);
      Uadd(X, X, Y);
      ok := Usub(B, B, A);
      c := SubtractFromB(a, n.Mag(), x, y, p, q, -1, c0);
    } else {
      TopsOrdered(B, A);
      Uadd(Y, Y, X);
      ok := Usub(A, A, B);
      c := SubtractFromA(a, n.Mag(), x, y, p, q, -1, c0);
    }
  }

  // ---------- the Euclidean branch

  /** D := A / B and M := A % B; quotients up to 3 are found without a division. */
  method QuotientStep(A: Bignum, B: Bignum, D: Bignum, M: Bignum, T: Bignum)
    requires PairwiseApart(A, B, D, M, T) && NonNeg(A) && NonNeg(B) && 0 < B.Mag() <= A.Mag()
    requires D.Wf() && M.Wf() && T.Wf()
    modifies D, M, T
    ensures NonNeg(D) && NonNeg(M) && T.Wf()
    ensures A.Mag() == Times(D.Mag(), B.Mag()) + M.Mag() && M.Mag() < B.Mag()
  {
    hide Val, Bignum.Mag, HasBits, Times;
    var bitsA := NumBits(A);
    var bitsB := NumBits(B);
    if bitsA == bitsB {
      SameBits(A.Mag(), B.Mag(), bitsA);
      QuotientOne(D, M, A, B);
    } else if bitsA == bitsB + 1 {
      OneMoreBit(A.Mag(), B.Mag(), bitsB);
      SmallQuotient(A, B, D, M, T);
    } else {
      ZeroMag(B);
      TruncatedQuotient(A.Mag(), B.Mag());
      var ok := Div(D, M, A, B);
    }
  }

  lemma TruncatedQuotient(p: int, q: int)
    requires q > 0
    ensures p == Times(p / q, q) + p % q && 0 <= p % q < q
  {
    QuotientBounds(p, q);
  }

  lemma SameBits(p: int, q: int, b: nat)
    requires HasBits(p, b) && HasBits(q, b) && q > 0
    ensures p < 2 * q
  {}

  lemma OneMoreBit(p: int, q: int, b: nat)
    requires HasBits(p, b + 1) && HasBits(q, b) && q > 0
    ensures p < 4 * q
  {}

  lemma SmallMultiple(q: int)
    ensures Times(1, q) == q && Times(2, q) == 2 * q && Times(3, q) == 3 * q && Times(4, q) == 4 * q
  {}

  /** D := 1, M := A - B */
  method QuotientOne(D: Bignum, M: Bignum, A: Bignum, B: Bignum)
    requires D != M && D != A && D != B && M != A && M != B && NonNeg(A) && NonNeg(B)
    requires D.Wf() && M.Wf() && B.Mag() <= A.Mag() < 2 * B.Mag()
    modifies D, M
    ensures NonNeg(D) && NonNeg(M)
    ensures A.Mag() == Times(D.Mag(), B.Mag()) + M.Mag() && M.Mag() < B.Mag()
  {
    hide Val, Bignum.Mag, Times;
    SmallMultiple(B.Mag());
    SetWord(D, 1);
    Sub(M, A, B);
    ZeroMag(M);
  }

  /** A has one bit more than B: the quotient is 1, 2 or 3. */
  method SmallQuotient(A: Bignum, B: Bignum, D: Bignum, M: Bignum, T: Bignum)
    requires PairwiseApart(A, B, D, M, T) && NonNeg(A) && NonNeg(B) && 0 < B.Mag() <= A.Mag() < 4 * B.Mag()
    requires D.Wf() && M.Wf() && T.Wf()
    modifies D, M, T
    ensures NonNeg(D) && NonNeg(M) && T.Wf()
    ensures A.Mag() == Times(D.Mag(), B.Mag()) + M.Mag() && M.Mag() < B.Mag()
  {
    hide Val, Bignum.Mag, Times;
    SmallMultiple(B.Mag());
    Lshift1(T, B);
    var c := Ucmp(A, T);
    if c < 0 {
      QuotientOne(D, M, A, B);
      return;
    }
    TwoOrThree(A, B, D, M, T);
  }

  method TwoOrThree(A: Bignum, B: Bignum, D: Bignum, M: Bignum, T: Bignum)
    requires PairwiseApart(A, B, D, M, T) && NonNeg(A) && NonNeg(B) && 2 * B.Mag() <= A.Mag() < 4 * B.Mag()
    requires D.Wf() && M.Wf() && NonNeg(T) && T.Mag() == 2 * B.Mag()
    modifies D, M
    ensures NonNeg(D) && NonNeg(M)
    ensures A.Mag() == Times(D.Mag(), B.Mag()) + M.Mag() && M.Mag() < B.Mag()
  {
    hide Val, Bignum.Mag, Times;
    SmallMultiple(B.Mag());
    Sub(M, A, T);
    Add(D, T, B);
    ZeroMag(M); ZeroMag(D);
    var c := Ucmp(A, D);
    if c < 0 {
      SetWord(D, 2);
    } else {
      SetWord(D, 3);
      Sub(M, M, B);
      ZeroMag(M);
    }
  }

  /** tmp := D * X + Y */
  method MultiplyAdd(tmp: Bignum, D: Bignum, X: Bignum, Y: Bignum)
    requires tmp != D && tmp != X && tmp != Y && tmp.Wf() && NonNeg(D) && NonNeg(X) && NonNeg(Y)
    modifies tmp
    ensures NonNeg(tmp) && tmp.Mag() == Times(D.Mag(), X.Mag()) + Y.Mag()
  {
    hide Val, Bignum.Mag, Times, P2;
    SmallMultiple(X.Mag());
    WordMag(D, 1);
    if IsOne(D) {
      Add(tmp, X, Y);
      ZeroMag(tmp);
      return;
    }
    MultipleOf(tmp, D, X);
    Add(tmp, tmp, Y);
    ZeroMag(tmp);
  }

  method MultipleOf(tmp: Bignum, D: Bignum, X: Bignum)
    requires tmp != D && tmp != X && tmp.Wf() && NonNeg(D) && NonNeg(X)
    modifies tmp
    ensures NonNeg(tmp) && tmp.Mag() == Times(D.Mag(), X.Mag())
  {
    hide Val, Bignum.Mag, Times, P2;
    SmallMultiple(X.Mag());
    WordMag(D, 2); WordMag(D, 4);
    if IsWord(D, 2) {
      Lshift1(tmp, X);
    } else if IsWord(D, 4) {
      FourIsShift(X.Mag());
      Lshift(tmp, X, 2);
    } else if D.top == 1 {
      ZeroMag(D);
      WordMag(D, D.d[0]);
      Copy(tmp, X);
      MulWord(tmp, D.d[0]);
      ProductTimes(X.Mag(), D.Mag());
    } else {
      Mul(tmp, D, X);
      ProductTimes(X.Mag(), D.Mag());
    }
    ZeroMag(tmp);
  }

  lemma FourIsShift(x: int)
    ensures x * P2(2) == 4 * x
  {
    assert P2(2) == 4;
  }

  lemma ProductTimes(x: int, y: int)
    ensures x * y == Times(y, x) && y * x == Times(y, x)
    ensures x >= 0 && y >= 0 ==> Times(y, x) >= 0
  {}

  /** One pass: the next B is left in M, the next X in the object A, whose value is no longer needed. */
  method EuclidPass(A: Bignum, B: Bignum, M: Bignum, X: Bignum, Y: Bignum, D: Bignum, T: Bignum,
                    ghost a: int, ghost n: int, ghost sign: int, ghost c: Links)
    returns (ghost c': Links)
    requires PairwiseApart(A, B, M, X, Y) && D !in {A, B, M, X, Y, T} && T !in {A, B, M, X, Y}
    requires NonNeg(A) && NonNeg(B) && NonNeg(X) && NonNeg(Y) && M.Wf() && D.Wf() && T.Wf()
    requires 0 < B.Mag() <= A.Mag()
    requires Invariant(a, n, X.Mag(), Y.Mag(), A.Mag(), B.Mag(), sign, c)
    modifies A, M, D, T
    ensures NonNeg(A) && NonNeg(M) && D.Wf() && T.Wf() && M.Mag() < B.Mag()
    ensures Invariant(a, n, A.Mag(), X.Mag(), B.Mag(), M.Mag(), -sign, c')
  {
    hide Val, Bignum.Mag, Times, Invariant;
    ghost var p := A.Mag();
    QuotientStep(A, B, D, M, T);
    c' := EuclidStep(a, n, X.Mag(), Y.Mag(), p, B.Mag(), sign, c, D.Mag(), M.Mag());
    MultiplyAdd(A, D, X, Y);
  }

  /** The loop of the Euclidean branch; the five objects are passed round. */
  method EuclidLoop(A0: Bignum, B0: Bignum, M0: Bignum, X0: Bignum, Y0: Bignum, D: Bignum, T: Bignum,
                    ghost a: int, ghost n: int, ghost c0: Links)
    returns (A: Bignum, Y: Bignum, sign: int, ghost x: int, ghost c: Links)
    requires PairwiseApart(A0, B0, M0, X0, Y0) && D !in {A0, B0, M0, X0, Y0, T} && T !in {A0, B0, M0, X0, Y0}
    requires NonNeg(A0) && NonNeg(B0) && NonNeg(X0) && NonNeg(Y0) && M0.Wf() && D.Wf() && T.Wf()
    requires 0 < A0.Mag() && B0.Mag() <= A0.Mag()
    requires Invariant(a, n, X0.Mag(), Y0.Mag(), A0.Mag(), B0.Mag(), -1, c0)
    modifies A0, B0, M0, X0, Y0, D, T
    ensures {A, Y} <= {A0, B0, M0, X0, Y0} && A != Y && NonNeg(A) && NonNeg(Y) && A.Mag() > 0
    ensures Invariant(a, n, x, Y.Mag(), A.Mag(), 0, sign, c)
  {
    hide Val, Bignum.Mag, Times, Invariant;
    var B, M, X := B0, M0, X0;
    A, Y, sign, c := A0, Y0, -1, c0;
    ZeroMag(B);
    while !IsZero(B)
      invariant PairwiseApart(A, B, M, X, Y) && {A, B, M, X, Y} <= {A0, B0, M0, X0, Y0}
      invariant D !in {A, B, M, X, Y, T} && T !in {A, B, M, X, Y}
      invariant NonNeg(A) && NonNeg(B) && NonNeg(X) && NonNeg(Y) && M.Wf() && D.Wf() && T.Wf()
      invariant 0 < A.Mag() && B.Mag() <= A.Mag() && (IsZero(B) <==> B.Mag() == 0)
      invariant Invariant(a, n, X.Mag(), Y.Mag(), A.Mag(), B.Mag(), sign, c)
      decreases B.Mag()
    {
      c := EuclidPass(A, B, M, X, Y, D, T, a, n, sign, c);
      A, B, M, X, Y, sign := B, M, Y, A, X, -sign;
      ZeroMag(B);
    }
    x := X.Mag();
  }

  // ---------- BN_mod_inverse

  /** y is an inverse of a modulo n, not yet reduced. */
  lemma InverseFound(a: int, n: int, y: int, k: int)
    requires n > 0 && y * a == 1 + k * n
    ensures Coprime(a, n) && (a * (y % n)) % n == 1 % n
  {
    CoprimeByCombination(a, n, y, -k);
    QuotientBounds(y, n);
    InverseResidue(a, n, y, y / n, y % n, k);
    AddMultiple(1, k - (y / n) * a, n);
  }

  lemma AddMultiple(x: int, k: int, n: int)
    requires n > 0
    ensures (k * n + x) % n == x % n
  {
    QuotientBounds(x, n);
    Distribute(k, x / n, n);
    QuotientUnique(k * n + x, n, k + x / n, x % n);
  }

  lemma InverseResidue(a: int, n: int, y: int, q: int, r: int, k: int)
    requires y == q * n + r && y * a == 1 + k * n
    ensures a * r == (k - q * a) * n + 1
  {
    assert (q * n + r) * a == (q * a) * n + a * r;
  }

  /** The final y, taken from n when sign is negative. */
  lemma SignedInverse(a: int, n: int, y: int, sign: int, k: int, nv: int) returns (k': int)
    requires (sign * y) * a == 1 + k * n && (sign == 1 || sign == -1) && (nv == n || nv == -n)
    ensures (if sign < 0 then nv - y else y) * a == 1 + k' * n
  {
    k' := if sign == 1 then k else if nv == n then k + a else k - a;
    assert (nv - y) * a == nv * a + (-1 * y) * a;
    Distribute(k, a, n);
    Commute(n, a);
  }

  /** At the end of both loops A is the greatest common divisor, and y an inverse if that is 1. */
  lemma Outcome(a: int, n: int, x: int, y: int, p: int, sign: int, c: Links, nv: int)
    requires Invariant(a, n, x, y, p, 0, sign, c) && p > 0 && n > 0 && (nv == n || nv == -n)
    ensures Coprime(a, n) <==> p == 1
    ensures p == 1 ==> (a * ((if sign < 0 then nv - y else y) % n)) % n == 1 % n
  {
    Finish(a, n, x, y, p, sign, c);
    if p == 1 {
      var k := SignedInverse(a, n, y, sign, c.k2, nv);
      InverseFound(a, n, if sign < 0 then nv - y else y, k);
    } else {
      NotCoprime(a, n, p);
    }
  }

  /** r := Y mod n; a Y that is already reduced is copied. */
  method ReduceInverse(r: Bignum, Y: Bignum, n: Bignum)
    requires r.Wf() && Y.Valid() && Y.ProperSign() && n.Valid() && r != Y && r != n && n.Mag() > 0
    modifies r
    ensures NonNeg(r) && r.Mag() == Y.Value() % n.Mag()
  {
    hide Val, Bignum.Mag;
    var c := Ucmp(Y, n);
    if !Y.neg && c < 0 {
      QuotientUnique(Y.Mag(), n.Mag(), 0, Y.Mag());
      Copy(r, Y);
    } else {
      ModAbs(Y.Value(), n.Value());
      var ok := NNMod(r, Y, n);
    }
  }

  /** The end of BN_mod_inverse. */
  method FinishInverse(r: Bignum, A: Bignum, Y: Bignum, n: Bignum, sign: int,
                       ghost a: int, ghost x: int, ghost c: Links)
    returns (ok: bool)
    requires r.Wf() && NonNeg(A) && NonNeg(Y) && n.Valid() && A.Mag() > 0 && n.Mag() > 0
    requires r != A && r != Y && r != n && A != Y && A != n && Y != n
    requires Invariant(a, n.Mag(), x, Y.Mag(), A.Mag(), 0, sign, c)
    modifies r, Y
    ensures ok <==> Coprime(a, n.Mag())
    ensures ok ==> NonNeg(r) && r.Mag() < n.Mag() && (a * r.Mag()) % n.Mag() == 1 % n.Mag()
    ensures !ok ==> unchanged(r)
  {
    hide Val, Bignum.Mag, Coprime, Divides, Invariant;
    Outcome(a, n.Mag(), x, Y.Mag(), A.Mag(), sign, c, n.Value());
    ZeroMag(n); ZeroMag(Y);
    if sign < 0 { Sub(Y, n, Y); }
    WordMag(A, 1);
    ok := IsOne(A);
    if ok {
      QuotientBounds(Y.Value(), n.Mag());
      ReduceInverse(r, Y, n);
    }
  }

  /** B := a mod |n| and A := |n|, unless n is zero. */
  method StartInverse(A: Bignum, B: Bignum, a: Bignum, n: Bignum) returns (ok: bool, ghost k: int)
    requires A != B && A != a && B != a && A != n && B != n
    requires A.Wf() && B.Wf() && a.Valid() && n.Valid()
    modifies A, B
    ensures ok <==> n.Mag() > 0
    ensures ok ==> NonNeg(A) && NonNeg(B) && A.Mag() == n.Mag() && B.Mag() <= n.Mag()
    ensures ok ==> B.Mag() == a.Value() + Times(k, n.Mag())
  {
    hide Val, Bignum.Mag, Times;
    Copy(B, a);
    Copy(A, n);
    A.neg := false;
    ZeroMag(B);
    StartMultiple(a.Value(), n.Mag());
    k := 0;
    ok := true;
    var cmp := Ucmp(B, A);
    if B.neg || cmp >= 0 {
      k := if !B.ProperSign() then 1 else if n.Mag() > 0 then -(a.Value() / n.Mag()) else 0;
      ok := NNMod(B, B, A);
    }
  }

  lemma StartMultiple(a: int, n: int)
    ensures Times(0, n) == 0 && Times(1, n) == n
    ensures n > 0 ==> a % n == a + Times(-(a / n), n) && 0 <= a % n < n
  {
    if n > 0 { QuotientBounds(a, n); }
  }

  /** BN_mod_inverse: succeeds exactly for a coprime to a nonzero n, with the inverse in [0, |n|). */
  method ModInverse(r: Bignum, a: Bignum, n: Bignum) returns (ok: bool)
    requires r.Wf() && a.Valid() && n.Valid() && r != n
    modifies r
    ensures ok <==> n.Mag() > 0 && Coprime(old(a.Value()), n.Mag())
    ensures ok ==> NonNeg(r) && r.Mag() < n.Mag() && (old(a.Value()) * r.Mag()) % n.Mag() == 1 % n.Mag()
    ensures !ok ==> unchanged(r)
  {
    hide Val, Bignum.Mag, Coprime, Times;
    var A := new Bignum.Temp();
    var B := new Bignum.Temp();
    ghost var k;
    ok, k := StartInverse(A, B, a, n);
    if !ok { return; }
    OddMag(n);
    var bits := NumBits(n);
    if IsOdd(n) && bits <= 2048 {
      ok := BinaryInverse(r, A, B, n, a.Value(), k);
    } else {
      ok := EuclidInverse(r, A, B, n, a.Value(), k);
    }
  }

  /** X := 1, Y := 0 and the binary branch. */
  method BinaryInverse(r: Bignum, A: Bignum, B: Bignum, n: Bignum, ghost a: int, ghost k: int) returns (ok: bool)
    requires r.Wf() && NonNeg(A) && NonNeg(B) && n.Valid() && n.Mag() % 2 == 1 && n.Mag() > 0
    requires r != A && r != B && r != n && A != B && A != n && B != n
    requires A.Mag() == n.Mag() && B.Mag() == a + Times(k, n.Mag())
    modifies r, A, B
    ensures ok <==> Coprime(a, n.Mag())
    ensures ok ==> NonNeg(r) && r.Mag() < n.Mag() && (a * r.Mag()) % n.Mag() == 1 % n.Mag()
    ensures !ok ==> unchanged(r)
  {
    hide Val, Bignum.Mag, Invariant, Coprime, Times;
    var X := new Bignum.Temp();
    SetWord(X, 1);
    var Y := new Bignum.Temp();
    SetWord(Y, 0);
    ghost var c := Start(a, n.Mag(), B.Mag(), k);
    c := BinaryLoop(A, B, X, Y, n, a, c);
    ok := FinishInverse(r, A, Y, n, -1, a, X.Mag(), c);
  }

  /** X := 1, Y := 0 and the Euclidean branch. */
  method EuclidInverse(r: Bignum, A: Bignum, B: Bignum, n: Bignum, ghost a: int, ghost k: int) returns (ok: bool)
    requires r.Wf() && NonNeg(A) && NonNeg(B) && n.Valid() && n.Mag() > 0
    requires r != A && r != B && r != n && A != B && A != n && B != n
    requires A.Mag() == n.Mag() && B.Mag() == a + Times(k, n.Mag()) && B.Mag() <= A.Mag()
    modifies r, A, B
    ensures ok <==> Coprime(a, n.Mag())
    ensures ok ==> NonNeg(r) && r.Mag() < n.Mag() && (a * r.Mag()) % n.Mag() == 1 % n.Mag()
    ensures !ok ==> unchanged(r)
  {
    hide Val, Bignum.Mag, Invariant, Coprime, Times;
    var X := new Bignum.Temp();
    SetWord(X, 1);
    var Y := new Bignum.Temp();
    SetWord(Y, 0);
    ghost var c := Start(a, n.Mag(), B.Mag(), k);
    var M, D, T := TakeTemps();
    ghost var x;
    var A', Y', sign;
    A', Y', sign, x, c := EuclidLoop(A, B, M, X, Y, D, T, a, n.Mag(), c);
    ok := FinishInverse(r, A', Y', n, sign, a, x, c);
  }

  method TakeTemps() returns (M: Bignum, D: Bignum, T: Bignum)
    ensures fresh(M) && fresh(D) && fresh(T) && M != D && M != T && D != T && M.Wf() && D.Wf() && T.Wf()
  {
    M := new Bignum.Temp();
    D := new Bignum.Temp();
    T := new Bignum.Temp();
  }
}
