/** BN_exp, and BN_mod_exp, which chooses among the modular exponentiators. */
module Exponentiation {
  import opened Words
  import opened Bits
  import opened Bignums
  import opened Basics
  import opened Products
  import opened Windows
  import opened RecpExp
  import opened MontExp
  import opened MontWordExp

  // ---------- BN_exp

  /** The low i bits of p. */
  ghost function Low(p: int, i: nat): int {
    p - Shr(p, i) * P2(i)
  }

  lemma LowStep(p: int, i: nat)
    ensures Low(p, i + 1) == Low(p, i) + (if BitOf(p, i) then P2(i) else 0)
  {
    ShrStep(p, i);
    LowSum(Shr(p, i + 1), P2(i), if BitOf(p, i) then 1 else 0);
  }

  lemma LowSum(h: int, q: int, b: int)
    ensures (2 * h + b) * q == h * (2 * q) + b * q
  {}

  lemma LowEnds(p: int, bits: nat)
    requires HasBits(p, bits) && p >= 0
    ensures Low(p, bits) == p
    ensures bits <= 1 ==> Low(p, 1) == p
  {
    QuotientUnique(p, P2(bits), 0, p);
    P2Mono(bits, if bits <= 1 then 1 else bits);
    if bits <= 1 { QuotientUnique(p, P2(1), 0, p); }
  }

  lemma LowNonNegative(p: int, i: nat)
    requires p >= 0
    ensures Low(p, i) >= 0
  {
    QuotientBounds(p, P2(i));
  }

  lemma SquarePower(a: int, k: nat)
    ensures Pow(a, P2(k)) * Pow(a, P2(k)) == Pow(a, P2(k + 1))
  {
    PowAdd(a, P2(k), P2(k));
  }

  /** BN_exp: the exact power. */
  method Exp(r: Bignum, a: Bignum, p: Bignum)
    requires r.Wf() && a.Valid() && p.Valid()
    modifies r
    ensures r.Valid() && r.Value() == Pow(old(a.Value()), old(p.Mag()))
    ensures r.ProperSign() <==> old(a.ProperSign()) || old(p.Mag()) != 1
  {
    hide Val, P2, Bignum.Mag, HasBits, Pow;
    if r == a || r == p {
      var rr := new Bignum.Temp();
      ExpInto(rr, a, p);
      Copy(r, rr);
    } else {
      ExpInto(r, a, p);
    }
  }

  /** The loop of BN_exp: v runs through the repeated squares of a. */
  method ExpInto(rr: Bignum, a: Bignum, p: Bignum)
    requires rr.Wf() && a.Valid() && p.Valid() && rr != a && rr != p
    modifies rr
    ensures rr.Valid() && rr.Value() == Pow(a.Value(), p.Mag())
    ensures rr.ProperSign() <==> a.ProperSign() || p.Mag() != 1
  {
    hide Val, P2, Bignum.Mag, Pow, Low, BitOf, HasBits;
    ghost var x, e := a.Value(), p.Mag();
    var v := new Bignum.Temp();
    Copy(v, a);
    var bits := NumBits(p);
    LowestFactor(rr, a, p);
    PowSmall(x);
    PowerOfOne();
    var i := 1;
    while i < bits
      invariant 1 <= i && (i <= bits || i == 1)
      invariant v.Valid() && v.Value() == Pow(x, P2(i - 1))
      invariant rr.Valid() && Low(e, i) >= 0 && rr.Value() == Pow(x, Low(e, i))
      invariant i == 1 ==> rr.ProperSign() == (a.ProperSign() || e % 2 == 0)
      invariant i == bits > 1 ==> rr.ProperSign()
    {
      if i == bits - 1 { TopBit(e, bits); }
      ExpStep(rr, v, p, i, x);
      i := i + 1;
    }
    LowEnds(e, bits);
    FewBits(e, bits);
  }

  /** The top bit is set. */
  lemma TopBit(e: int, bits: nat)
    requires HasBits(e, bits) && bits > 0
    ensures BitOf(e, bits - 1)
  {
    QuotientUnique(e, P2(bits - 1), 1, e - P2(bits - 1));
  }

  lemma FewBits(e: int, bits: nat)
    requires HasBits(e, bits)
    ensures bits > 1 ==> e > 1
    ensures bits <= 1 ==> e == bits
  {
    if bits > 1 { P2Mono(1, bits - 1); assert P2(1) == 2; }
  }

  lemma PowerOfOne()
    ensures P2(0) == 1
  {}

  /** The accumulator starts from a for an odd exponent and from 1 for an even one. */
  method LowestFactor(rr: Bignum, a: Bignum, p: Bignum)
    requires rr.Wf() && a.Valid() && p.Valid() && rr != a && rr != p
    modifies rr
    ensures rr.Valid() && Low(p.Mag(), 1) >= 0 && rr.Value() == Pow(a.Value(), Low(p.Mag(), 1))
    ensures rr.ProperSign() == (a.ProperSign() || p.Mag() % 2 == 0)
  {
    hide Val, P2, Bignum.Mag, Pow, Low;
    LowBit(p.Mag());
    PowSmall(a.Value());
    OddMag(p);
    if IsOdd(p) { Copy(rr, a); } else { SetWord(rr, 1); }
  }

  lemma LowBit(p: int)
    requires p >= 0
    ensures Low(p, 1) == if p % 2 == 1 then 1 else 0
  {
    assert Shr(p, 0) == p;
    LowStep(p, 0);
  }

  /** One pass of BN_exp: bit i of the exponent. */
  method ExpStep(rr: Bignum, v: Bignum, p: Bignum, i: nat, ghost x: int)
    requires i > 0 && v.Valid() && rr.Valid() && p.Valid() && rr != v && rr != p && v != p
    requires v.Value() == Pow(x, P2(i - 1)) && Low(p.Mag(), i) >= 0 && rr.Value() == Pow(x, Low(p.Mag(), i))
    modifies rr, v
    ensures v.Valid() && v.Value() == Pow(x, P2(i))
    ensures rr.Valid() && Low(p.Mag(), i + 1) >= 0 && rr.Value() == Pow(x, Low(p.Mag(), i + 1))
    ensures BitOf(p.Mag(), i) ==> rr.ProperSign()
  {
    hide Val, P2, Bignum.Mag, Pow, Low, BitOf;
    SquarePower(x, i - 1);
    SquareValue(v);
    LowStep(p.Mag(), i);
    LowNonNegative(p.Mag(), i + 1);
    PowAdd(x, Low(p.Mag(), i), P2(i));
    var bit := IsBitSet(p, i);
    if bit { Mul(rr, rr, v); }
  }

  /** BN_sqr(v, v) */
  method SquareValue(v: Bignum)
    requires v.Valid()
    modifies v
    ensures v.Valid() && v.Value() == old(v.Value()) * old(v.Value())
  {
    hide Val, Bignum.Mag, Times;
    ZeroMag(v);
    SignOfTimes(v.Mag(), v.Mag(), v.neg, v.neg);
    Sqr(v, v);
    ZeroMag(v);
  }

  // ---------- BN_mod_exp

  /** BN_mod_exp: Montgomery for an odd modulus, with a short cut for one-word bases, and the
      reciprocal otherwise. */
  method ModExp(r: Bignum, a: Bignum, p: Bignum, m: Bignum) returns (ok: bool)
    requires r.Wf() && a.Valid() && p.Valid() && m.Valid() && (IsOdd(m) || r != p)
    modifies r
    ensures ok <==> old(m.Mag()) != 0 || old(p.Mag()) == 0
    ensures old(p.Mag()) == 0 ==> r.Valid() && r.Value() == 1
    ensures ok && old(p.Mag()) != 0 ==> NonNeg(r) && r.Value() == Pow(old(a.Value()), old(p.Mag())) % old(m.Mag())
  {
    hide Val, P2, Bignum.Mag, Pow;
    OddMag(m);
    if IsOdd(m) {
      if a.top == 1 && !a.neg {
        var w := a.d[0];
        OneWordValue(a);
        ok := ModExpMontWord(r, w, p, m, null);
      } else {
        ok := ModExpMont(r, a, p, m, null);
      }
    } else {
      ok := ModExpRecp(r, a, p, m);
    }
  }

  lemma OneWordValue(a: Bignum)
    requires a.Valid() && a.top == 1 && !a.neg
    ensures a.Value() == a.d[0]
  {
    ZeroMag(a);
    WordMag(a, a.d[0]);
  }

  /** For p = 0 the exponentiators return 1, which is the residue of a^0 exactly for moduli above 1. */
  lemma ZeroExponent(a: int, m: int)
    requires m > 0
    ensures 1 == Pow(a, 0) % m <==> m > 1
  {
    PowSmall(a);
    if m > 1 { QuotientUnique(1, m, 0, 1); } else { QuotientUnique(1, 1, 1, 0); }
  }
}
