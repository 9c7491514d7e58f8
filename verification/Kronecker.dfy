/** bn_kron.c: the Kronecker symbol. */
module Kronecker {
  import opened Words
  import opened Bignums
  import opened Ripple
  import opened Basics
  import opened Shift
  import opened Modular
  import opened Divisors
  import opened Residues
  import opened Symbols
  import opened JacobiTheory

  // ---------- BN_kronecker

  /** Shifts out the factors 2 and counts them. */
  method RemoveFactors(b: Bignum) returns (i: nat)
    requires b.Valid() && b.Mag() > 0
    modifies b
    ensures b.Valid() && b.neg == old(b.neg) && b.Mag() == OddPart(old(b.Mag())) && i == Twos(old(b.Mag()))
  {
    hide Val, Bignum.Mag, BitOf, Shr, OddPart, Twos;
    ghost var v, q := b.Mag(), b.Mag();
    ZeroMag(b);
    i := 0;
    ShrNone(v, i);
    var bit := IsBitSet(b, i);
    while !bit
      invariant 0 < q == Shr(v, i) && (bit <==> BitOf(v, i))
      invariant OddPart(v) == OddPart(q) && Twos(v) == i + Twos(q)
      decreases q
      modifies {}
    {
      ShrStep(v, i);
      HalvePart(q);
      q := q / 2;
      i := i + 1;
      bit := IsBitSet(b, i);
    }
    BitIsOdd(v, i);
    OddIsPart(q);
    MagIs(b);
    ShiftInside(b.d[..b.top], i);
    Rshift(b, b, i);
  }

  lemma ShiftInside(x: seq<Word>, i: nat)
    requires Shr(Val(x), i) > 0
    ensures i / 32 <= |x|
  {
    if i / 32 > |x| { ShiftedOut(x, i); }
  }

  /** The lowest word has the residues modulo 4 and 8 of the magnitude. */
  lemma LowestWordResidues(a: Bignum)
    requires a.Valid() && a.top > 0
    ensures a.d[0] % 8 == a.Mag() % 8 && a.d[0] % 2 == a.Mag() % 2 && a.d[0] % 4 == a.Mag() % 4
  {
    hide Val;
    MagIs(a);
    LowWord(a.d[..a.top]);
    LowResidues(a.d[0], Val(a.d[..a.top][1..]), a.Mag());
  }

  lemma LowResidues(w: int, v: int, m: int)
    requires m == w + 0x1_0000_0000 * v
    ensures w % 8 == m % 8 && w % 2 == m % 2 && w % 4 == m % 4
  {
    CongBy(m, w, 8, 0x2000_0000 * v);
    CongBy(m, w, 4, 0x4000_0000 * v);
    CongBy(m, w, 2, 0x8000_0000 * v);
  }

  /** (A->neg ? ~BN_lsw(A) : BN_lsw(A)) & BN_lsw(B) & 2 */
  function SignBits(aw: Word, neg: bool, bw: Word): (s: bool) {
    ((aw / 2) % 2 == 1) != neg && (bw / 2) % 2 == 1
  }

  lemma SignBitsAre(aw: Word, neg: bool, bw: Word, a: int, b: int)
    requires a > 0 && a % 2 == 1 && b % 2 == 1 && aw % 4 == a % 4 && bw % 4 == b % 4
    ensures SignBits(aw, neg, bw) <==> Reciprocity(if neg then -a else a, b) == -1
  {
    SecondBit(aw, a);
    SecondBit(bw, b);
    NegativeResidue(a);
  }

  /** Bit 1 of an odd number tells its residue modulo 4. */
  lemma SecondBit(w: Word, x: int)
    requires w % 4 == x % 4 && x % 2 == 1
    ensures (w / 2) % 2 == 1 <==> x % 4 == 3
    ensures x % 4 == 1 || x % 4 == 3
  {
    OddModFour(x);
    QuotientBounds(w, 4);
    var q := w / 4;
    if x % 4 == 3 {
      QuotientUnique(w, 2, 2 * q + 1, 1);
      QuotientUnique(2 * q + 1, 2, q, 1);
    } else {
      QuotientUnique(w, 2, 2 * q, 1);
      QuotientUnique(2 * q, 2, q, 0);
    }
  }

  lemma NegativeResidue(a: int)
    requires a % 2 == 1
    ensures (-a) % 4 == 3 <==> a % 4 == 1
  {
    OddModFour(a);
    QuotientBounds(a, 4);
    QuotientUnique(-a, 4, -(a / 4) - 1, 4 - a % 4);
  }

  lemma TimesStep(ret: int, s: int, t: int, j: int)
    ensures (ret * s * t) * j == ret * (s * t * j)
  {
    assert (ret * s * t) * j == (ret * s) * (t * j);
    assert (ret * s) * (t * j) == ret * (s * (t * j));
    assert s * (t * j) == s * t * j;
  }

  lemma TimesSigns(ret: int)
    ensures ret * 1 == ret && ret * -1 == -ret
  {}

  /** ret multiplied by the two signs of steps 3 and 4; i is the number of factors 2 taken out of A. */
  method SignStep(A: Bignum, B: Bignum, ret: int, i: nat) returns (ret': int)
    requires A.Valid() && A.Mag() % 2 == 1 && A.Mag() > 0 && B.Valid() && B.Mag() % 2 == 1 && B.Mag() > 0
    ensures ret' == ret * (if i % 2 == 1 then Tab(B.Mag() % 8) else 1)
                        * Reciprocity(if A.neg then -A.Mag() else A.Mag(), B.Mag())
  {
    hide Val, Bignum.Mag, Reciprocity, Tab;
    ZeroMag(A); ZeroMag(B);
    LowestWordResidues(A); LowestWordResidues(B);
    SignBitsAre(A.d[0], A.neg, B.d[0], A.Mag(), B.Mag());
    ReciprocityIs(if A.neg then -A.Mag() else A.Mag(), B.Mag());
    TimesSigns(ret);
    ret' := ret;
    if i % 2 == 1 { ret' := ret * Tab(B.d[0] % 8); }
    TimesSigns(ret');
    if SignBits(A.d[0], A.neg, B.d[0]) { ret' := -ret'; }
  }

  /** One pass of the loop: the new B is left in A and the new A in B. */
  method JacobiPass(A: Bignum, B: Bignum, ret: int) returns (ret': int)
    requires A != B && A.Valid() && A.Mag() > 0 && NonNeg(B) && B.Mag() % 2 == 1
    modifies A, B
    ensures NonNeg(A) && NonNeg(B) && B.Mag() < A.Mag() <= old(A.Mag()) && A.Mag() % 2 == 1
    ensures Times(ret', Jacobi(B.Mag(), A.Mag())) == Times(ret, Jacobi(old(A.Value()), old(B.Mag())))
  {
    hide Val, Bignum.Mag, Jacobi, OddPart, Twos, Reciprocity, Tab;
    ghost var a, n := A.Value(), B.Mag();
    JacobiStep(a, n);
    var i := RemoveFactors(A);
    ret' := SignStep(A, B, ret, i);
    TimesStep(ret, if i % 2 == 1 then Tab(n % 8) else 1,
             Reciprocity(if A.neg then -A.Mag() else A.Mag(), n), Jacobi(n % A.Mag(), A.Mag()));
    ModAbs(n, A.Value());
    CongSelf(n, A.Mag());
    var ok := NNMod(B, B, A);
    A.neg := false;
  }

  /** The loop of steps 3 and 4; the two numbers change places in every pass. */
  method JacobiLoop(A0: Bignum, B0: Bignum, ret0: int) returns (ret: int)
    requires A0 != B0 && A0.Valid() && NonNeg(B0) && B0.Mag() % 2 == 1 && ret0 in {-1, 0, 1}
    modifies A0, B0
    ensures ret == Times(ret0, Jacobi(old(A0.Value()), old(B0.Mag())))
  {
    hide Val, Bignum.Mag, Jacobi, Times;
    var A, B := A0, B0;
    ghost var total := Times(ret0, Jacobi(A.Value(), B.Mag()));
    ret := ret0;
    ZeroMag(A);
    while !IsZero(A)
      invariant {A, B} == {A0, B0} && A != B && A.Valid() && NonNeg(B) && B.Mag() % 2 == 1
      invariant Times(ret, Jacobi(A.Value(), B.Mag())) == total && (IsZero(A) <==> A.Mag() == 0)
      decreases A.Mag()
    {
      ret := JacobiPass(A, B, ret);
      A, B := B, A;
      ZeroMag(A);
    }
    JacobiOfZero(ret, B.Mag());
    WordMag(B, 1);
    ret := if IsOne(B) then ret else 0;
  }

  /** The factors 2 of B and the signs of both, before the loop. */
  method StepTwo(A: Bignum, B: Bignum) returns (ret: int)
    requires A != B && A.Valid() && B.Valid() && B.Mag() > 0 && (A.Mag() % 2 == 1 || B.Mag() % 2 == 1)
    modifies B
    ensures NonNeg(B) && B.Mag() == OddPart(old(B.Mag())) && ret in {-1, 1}
    ensures ret == TwoSign(A.Mag(), old(B.Mag())) * if A.neg && old(B.neg) then -1 else 1
  {
    hide Val, Bignum.Mag, OddPart, Twos, Tab;
    TwosOddPart(B.Mag());
    var w := LowestWordOf(A);
    TabRange(A.Mag() % 8);
    var i := RemoveFactors(B);
    ret := if i % 2 == 1 then Tab(w % 8) else 1;
    TimesSigns(ret);
    if B.neg {
      B.neg := false;
      if A.neg { ret := -ret; }
    }
  }

  /** BN_lsw */
  method LowestWordOf(a: Bignum) returns (w: Word)
    requires a.Valid()
    ensures w % 8 == a.Mag() % 8 && (w % 8) % 2 == a.Mag() % 2
  {
    hide Val, Bignum.Mag;
    ZeroMag(a);
    if a.top > 0 { LowestWordResidues(a); }
    w := if a.top == 0 then 0 else a.d[0];
    LowResidues(w, 0, w);
    ParityOfEight(a.Mag());
  }

  /** The branches of the symbol. */
  lemma NegatedTimes(s: int, j: int)
    ensures Times(s * -1, j) == -Times(s * 1, j)
  {}

  /** BN_kronecker: the symbol, 0 exactly for numbers that are not coprime. For a = -0 and a negative b
      the stored minus sign is taken for that of a negative number. */
  method KroneckerOf(a: Bignum, b: Bignum) returns (ret: int)
    requires a.Valid() && b.Valid()
    ensures ret in {-1, 0, 1} && (ret == 0 <==> !Coprime(a.Value(), b.Value()))
    ensures ret == if !a.ProperSign() && b.Value() < 0 then -KroneckerSymbol(a.Value(), b.Value())
                   else KroneckerSymbol(a.Value(), b.Value())
  {
    hide Val, Bignum.Mag, Jacobi, Coprime, Symbol, KroneckerSymbol;
    ghost var x, y := a.Value(), b.Value();
    AbsParity(x); AbsParity(y);
    SymbolZero(x, y);
    SymbolIsKronecker(x, y);
    SymbolTrivial(x, y);
    ZeroMag(a); ZeroMag(b);
    WordMag(a, 1);
    OddMag(a); OddMag(b);
    var A := new Bignum.Temp();
    Copy(A, a);
    var B := new Bignum.Temp();
    Copy(B, b);
    ZeroMag(B);
    if IsZero(B) {
      WordMag(A, 1);
      return if A.top == 1 && A.d[0] == 1 then 1 else 0;
    }
    OddMag(A); OddMag(B);
    if !IsOdd(A) && !IsOdd(B) { return 0; }
    ret := StepsTwoToFour(A, B, x, y, !a.ProperSign());
  }

  /** The rest of the algorithm for numbers that are not both even. */
  method StepsTwoToFour(A: Bignum, B: Bignum, ghost x: int, ghost y: int, ghost improper: bool) returns (ret: int)
    requires A != B && A.Valid() && B.Valid() && A.Value() == x && B.Value() == y != 0 && (x % 2 == 1 || y % 2 == 1)
    requires improper == !A.ProperSign()
    modifies A, B
    ensures ret == if improper && y < 0 then -Symbol(x, y) else Symbol(x, y)
  {
    hide Val, Bignum.Mag, Jacobi, OddPart, Symbol, TwoSign, Times;
    ZeroMag(A);
    AbsParity(x); AbsParity(y);
    SymbolIs(x, y);
    NegatedTimes(TwoSign(Abs(x), Abs(y)), Jacobi(x, OddPart(Abs(y))));
    ret := StepTwo(A, B);
    ret := JacobiLoop(A, B, ret);
  }
}
