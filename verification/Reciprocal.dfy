/** bn_recp.c: division by a cached reciprocal. */
module Reciprocal {
  import opened Words
  import opened Bits
  import opened Bignums
  import opened Basics
  import opened AddSub
  import opened Products
  import opened Shift
  import opened Division
  import opened WordOps

  /** BN_RECP_CTX */
  class RecpCtx {
    const N: Bignum
    const Nr: Bignum
    var numBits: nat
    var shift: int

    /** BN_RECP_CTX_init: an empty context. shift is left unset, so there is no cache yet that could be valid. */
    constructor ()
      ensures fresh(N) && fresh(Nr) && N != Nr && N.Valid() && Nr.Valid()
      ensures N.Value() == 0 && Nr.Value() == 0 && numBits == 0
    {
      N := new Bignum();
      Nr := new Bignum();
      numBits := 0;
    }

    /** The cached reciprocal is that of 2^shift; there is none while shift is 0, and -1 marks an error. */
    ghost predicate Valid()
      reads this, N, Nr
    {
      && N != Nr && N.Valid() && Nr.Valid() && HasBits(N.Mag(), numBits)
      && (shift > 0 ==> N.Mag() > 0 && Nr.Mag() == P2(shift) / N.Mag() && Nr.neg == (Nr.top > 0 && N.neg))
    }
  }

  /** BN_RECP_CTX_set */
  method RecpCtxSet(recp: RecpCtx, d: Bignum)
    requires recp.N != recp.Nr && recp.N.Wf() && recp.Nr.Wf() && d.Valid() && d != recp.Nr
    modifies recp, recp.N, recp.Nr
    ensures recp.Valid() && recp.N.Mag() == old(d.Mag()) && recp.N.neg == old(d.neg)
    ensures recp.Nr.Value() == 0 && recp.shift == 0
  {
    hide Val, P2, Bignum.Mag, HasBits;
    var bits := NumBits(d);
    Copy(recp.N, d);
    SetWord(recp.Nr, 0);
    recp.numBits := bits;
    recp.shift := 0;
  }

  /** BN_reciprocal: r := 2^len / m */
  method ReciprocalOf(r: Bignum, m: Bignum, len: nat) returns (ret: int)
    requires r.Wf() && m.Valid() && r != m
    modifies r
    ensures ret == if m.Mag() == 0 then -1 else len
    ensures m.Mag() == 0 ==> unchanged(r)
    ensures m.Mag() != 0 ==> r.Valid() && r.Mag() == P2(len) / m.Mag() && r.neg == (r.top > 0 && m.neg)
  {
    hide Val, P2, Bignum.Mag;
    var t := new Bignum();
    SetPower(t, len);
    var ok := Quotient(r, t, m);
    ret := if ok then len else -1;
  }

  // ---------- the estimate

  /** d, computed from the leading bits of m and the reciprocal v, is the quotient or up to 3 less:
      p = 2^n for the n bits of the divisor, s = 2^(i-n), and p*s = 2^i is above m. */
  lemma EstimateBounds(m: int, n: int, p: int, s: int, a: int, v: int, d: int)
    requires 0 < n < p <= 2 * n && s > 0 && 0 <= m < p * s
    requires 0 <= m - a * p < p && 0 <= p * s - v * n < n && 0 <= a * v - d * s < s
    requires a >= 0 && v >= 0
    ensures Times(d, n) <= m < Times(d, n) + 4 * n
  {
    var ra, rv, rd := m - a * p, p * s - v * n, a * v - d * s;
    EstimateIdentity(m, n, p, s, a, v, d, ra, rv, rd);
    var w := p * s;
    MulMono(0, rd, p * n); MulMono(rd + 1, s, p * n);
    Distribute(rd, 1, p * n);
    LastFactors(s, p, n);
    MulMono(m, w, rv); MulMono(rv, n, w); MulMono(0, m, rv); Commute(w, rv);
    MulMono(ra, 2 * n, w); MulMono(0, ra, w);
    MulMono(rv, w, ra); Commute(ra, rv);
    EstimateEnd(m, n, w, d, rd * (p * n), m * rv, ra * w, ra * rv);
  }

  lemma LastFactors(s: int, p: int, n: int)
    ensures s * (p * n) == n * (p * s)
  {
    assert s * (p * n) == (s * p) * n;
  }

  lemma EstimateIdentity(m: int, n: int, p: int, s: int, a: int, v: int, d: int, ra: int, rv: int, rd: int)
    requires ra == m - a * p && rv == p * s - v * n && rd == a * v - d * s
    ensures m * (p * s) == (d * n) * (p * s) + rd * (p * n) + m * rv + ra * (p * s) - ra * rv
  {
    assert (a * p) * (v * n) == (m - ra) * (p * s - rv);
    assert (m - ra) * (p * s - rv) == m * (p * s) - m * rv - ra * (p * s) + ra * rv;
    assert (a * p) * (v * n) == (a * v) * (p * n);
    assert (d * s + rd) * (p * n) == (d * n) * (p * s) + rd * (p * n);
  }

  /** m*w = d*n*w + e1 + e2 + e3 - e4 with small terms. */
  lemma EstimateEnd(m: int, n: int, w: int, d: int, e1: int, e2: int, e3: int, e4: int)
    requires w > 0 && m * w == (d * n) * w + e1 + e2 + e3 - e4
    requires 0 <= e1 < n * w && 0 <= e2 <= n * w && 0 <= e4 <= e3 <= (2 * n) * w
    ensures Times(d, n) <= m < Times(d, n) + 4 * n
  {
    var x := m - d * n;
    assert x * w == m * w - (d * n) * w;
    assert (4 * n) * w == 4 * (n * w) && (2 * n) * w == 2 * (n * w);
    if x < 0 { MulMono(x, -1, w); }
    if x >= 4 * n { MulMono(4 * n, x, w); }
  }

  lemma QuotientRest(x: int, p: int)
    requires p > 0
    ensures 0 <= x - Floor(x, p) * p < p && (x >= 0 ==> Floor(x, p) >= 0)
  {
    QuotientBounds(x, p);
    if x >= 0 && x / p < 0 { MulMono(x / p, -1, p); }
  }

  ghost function Floor(x: int, p: int): int
    requires p > 0
  {
    x / p
  }

  /** The bounds for the powers BN_div_recp uses. */
  lemma EstimateShr(m: int, n: int, bits: nat, i: nat, v: int)
    requires n > 0 && HasBits(n, bits) && 0 <= m < P2(i) && 2 * bits <= i && v == P2(i) / n
    ensures var d := Shr(Times(Shr(m, bits), v), i - bits);
            d >= 0 && Times(d, n) <= m < Times(d, n) + 4 * n
  {
    var p, s := P2(bits), P2(i - bits);
    P2Add(bits, i - bits);
    var a := Floor(m, p);
    QuotientRest(m, p); QuotientRest(P2(i), n);
    MulMono(0, a, v);
    QuotientRest(a * v, s);
    EstimateBounds(m, n, p, s, a, v, Floor(a * v, s));
  }

  /** d := ((m >> num_bits) * Nr) >> (i - num_bits) */
  method Estimate(d: Bignum, m: Bignum, recp: RecpCtx, i: nat)
    requires d.Wf() && m.Valid() && recp.Valid() && i >= recp.numBits
    requires d != m && d != recp.N && d != recp.Nr
    modifies d
    ensures NonNeg(d) && d.Mag() == Shr(Times(Shr(m.Mag(), recp.numBits), recp.Nr.Mag()), i - recp.numBits)
  {
    hide Val, P2, Shr, Bignum.Mag, HasBits, Times;
    var a := new Bignum.Temp();
    var b := new Bignum.Temp();
    Rshift(a, m, recp.numBits);
    MulMag(b, a, recp.Nr);
    Rshift(d, b, i - recp.numBits);
    d.neg := false;
  }

  /** BN_mul, of which only the magnitude matters. */
  method MulMag(r: Bignum, a: Bignum, b: Bignum)
    requires r.Wf() && a.Valid() && b.Valid()
    modifies r
    ensures r.Valid() && r.Mag() == Times(old(a.Mag()), old(b.Mag()))
  {
    hide Val, Bignum.Mag, Times;
    SignOfTimes(a.Mag(), b.Mag(), a.neg, b.neg);
    ghost var x, y := a.Mag(), b.Mag();
    Mul(r, a, b);
    MagOfProduct(x, y);
  }

  lemma MagOfProduct(x: int, y: int)
    requires x >= 0 && y >= 0
    ensures Times(x, y) >= 0
  {
    MulMono(0, x, y);
  }

  /** The correction loop: at most three subtractions, so "bad reciprocal" is reported for N = 0 only. */
  method Correct(r: Bignum, d: Bignum, N: Bignum) returns (ok: bool)
    requires NonNeg(r) && NonNeg(d) && N.Valid() && r != d && r != N && d != N
    requires N.Mag() > 0 ==> r.Mag() < 4 * N.Mag()
    modifies r, d
    ensures ok <==> N.Mag() > 0
    ensures ok ==> NonNeg(r) && NonNeg(d) && r.Mag() < N.Mag()
    ensures ok ==> Times(d.Mag(), N.Mag()) + r.Mag() == Times(old(d.Mag()), N.Mag()) + old(r.Mag())
  {
    hide Val, Bignum.Mag, Times;
    ghost var n := N.Mag();
    ghost var total := Times(d.Mag(), n) + r.Mag();
    var j := 0;
    var c := Ucmp(r, N);
    while c >= 0
      invariant 0 <= j <= 3 && NonNeg(r) && NonNeg(d)
      invariant n > 0 ==> r.Mag() < (4 - j) * n
      invariant Times(d.Mag(), n) + r.Mag() == total
      invariant c < 0 <==> r.Mag() < n
      decreases 4 - j
    {
      if j > 2 { return false; }
      j := j + 1;
      TopsOrdered(N, r);
      NextTimes(d.Mag(), n);
      var b := Usub(r, r, N);
      AddWord(d, 1);
      AddedOne(d);
      c := Ucmp(r, N);
    }
    return true;
  }

  lemma NextTimes(d: int, n: int)
    ensures Times(d + 1, n) == Times(d, n) + n
  {}

  lemma AddedOne(d: Bignum)
    requires d.Valid() && d.Value() > 0
    ensures !d.neg && d.Mag() == d.Value()
  {}

  /** The length of the reciprocal: max(BN_num_bits(m), 2*num_bits). */
  method RecipBits(m: Bignum, numBits: nat) returns (i: nat)
    requires m.Valid()
    ensures 2 * numBits <= i && m.Mag() < P2(i)
  {
    hide P2, Bignum.Mag, Val;
    i := NumBits(m);
    BitsBound(m.Mag(), i);
    var j := 2 * numBits;
    if j > i {
      P2Mono(i, j);
      i := j;
    }
  }

  lemma BitsBound(x: int, n: nat)
    requires HasBits(x, n)
    ensures x < P2(n)
  {}

  /** BN_div_recp: quotient and remainder, as BN_div, with the reciprocal computed only when the
      length has changed. The sign of the dividend is lost where the remainder replaces it. */
  method DivRecp(dv: Bignum, rem: Bignum, m: Bignum, recp: RecpCtx) returns (ok: bool)
    requires dv.Wf() && rem.Wf() && m.Valid() && recp.Valid()
    requires dv != rem && dv != m && dv !in {recp.N, recp.Nr} && rem !in {recp.N, recp.Nr} && m != recp.Nr
    modifies dv, rem, recp`shift, recp.Nr
    ensures recp.Valid() && (ok <==> recp.N.Mag() > 0)
    ensures ok ==> dv.Valid() && dv.Mag() == old(m.Mag()) / recp.N.Mag()
    ensures ok ==> rem.Valid() && rem.Mag() == old(m.Mag()) % recp.N.Mag()
    ensures ok && rem != m ==> dv.neg == (dv.top > 0 && m.neg != recp.N.neg)
    ensures ok && rem != m ==> rem.neg == (m.neg && (rem.top > 0 || m.top == 0))
    ensures ok && rem == m ==> dv.neg == (dv.top > 0 && recp.N.neg) && rem.neg == (dv.top == 0 && old(m.neg))
    ensures ok ==>
      (DivisionHolds(dv.Value(), recp.N.Value(), rem.Value(), old(m.Value()))
       <==> rem != m || !old(m.neg) || old(m.Mag()) < recp.N.Mag())
  {
    hide Val, P2, Bignum.Mag, HasBits, DivisionHolds;
    ghost var x, n, nm, nn := m.Mag(), recp.N.Mag(), m.neg, recp.N.neg;
    var c := Ucmp(m, recp.N);
    ZeroMag(m);
    if c < 0 {
      QuotientUnique(x, n, 0, x);
      SetWord(dv, 0);
      Copy(rem, m);
      SignedDivision(x, n, nm, nn, 0, rem.Value());
      return true;
    }
    ok := DivLong(dv, rem, m, recp);
    if ok {
      ZeroMag(rem);
      SignLost(x, n, nm, nn, rem != m && nm, dv.Value(), rem.Value());
    }
  }

  /** With the dividend's sign s as it is read back, nm unless the remainder replaced the dividend. */
  lemma SignLost(m: int, n: int, nm: bool, nn: bool, s: bool, q: int, r: int)
    requires 0 < n <= m
    requires q == (if s != nn then -(m / n) else m / n) && r == if s then -(m % n) else m % n
    ensures DivisionHolds(q, if nn then -n else n, r, if nm then -m else m) <==> s == nm
  {
    SignedDivision(m, n, s, nn, q, r);
  }

  /** The part of BN_div_recp for a dividend not below the divisor. */
  method DivLong(dv: Bignum, rem: Bignum, m: Bignum, recp: RecpCtx) returns (ok: bool)
    requires dv.Wf() && rem.Wf() && m.Valid() && recp.Valid() && recp.N.Mag() <= m.Mag()
    requires dv != rem && dv != m && dv !in {recp.N, recp.Nr} && rem !in {recp.N, recp.Nr} && m != recp.Nr
    modifies dv, rem, recp`shift, recp.Nr
    ensures recp.Valid() && (ok <==> recp.N.Mag() > 0)
    ensures ok ==> dv.Valid() && dv.top > 0 && dv.Mag() == old(m.Mag()) / recp.N.Mag()
    ensures ok ==> rem.Valid() && rem.Mag() == old(m.Mag()) % recp.N.Mag()
    ensures ok ==> dv.neg == ((rem != m && old(m.neg)) != recp.N.neg)
    ensures ok ==> rem.neg == (rem != m && rem.top > 0 && old(m.neg))
  {
    hide Val, P2, Bignum.Mag, HasBits;
    ghost var x, n := m.Mag(), recp.N.Mag();
    var i := RecipBits(m, recp.numBits);
    ok := Refresh(recp, i);
    if !ok { return; }
    ok := DivideBy(dv, rem, m, recp, i);
    if !ok { return; }
    ZeroMag(rem); ZeroMag(dv);
    QuotientFound(x, n, dv.Mag(), rem.Mag());
    rem.neg := !IsZero(rem) && m.neg;
    dv.neg := m.neg != recp.N.neg;
  }

  /** A context for a one-word divisor. */
  method ContextOf(w: Word) returns (recp: RecpCtx)
    ensures fresh(recp) && fresh(recp.N) && fresh(recp.Nr)
    ensures recp.Valid() && recp.N.Mag() == w && !recp.N.neg
  {
    hide Val, P2, Bignum.Mag, HasBits;
    var d := new Bignum();
    SetWord(d, w);
    recp := new RecpCtx();
    RecpCtxSet(recp, d);
  }

  /** -7 divided by 2 with the remainder over the dividend: 3 and 1, as if it had been 7. */
  method MinusSevenByTwo() returns (dv: Bignum, m: Bignum)
    ensures dv.Valid() && m.Valid() && dv.Value() == 3 && m.Value() == 1
    ensures !DivisionHolds(dv.Value(), 2, m.Value(), -7)
  {
    hide Val, P2, Bignum.Mag, HasBits;
    dv := new Bignum();
    m := new Bignum();
    SetWord(m, 7);
    m.neg := true;
    var recp := ContextOf(2);
    var ok := DivRecp(dv, m, m, recp);
    ZeroMag(dv);
  }

  lemma QuotientFound(x: int, n: int, q: int, r: int)
    requires Times(q, n) + r == x && 0 <= r < n && n <= x && q >= 0
    ensures q == x / n && r == x % n && q > 0
  {
    QuotientUnique(x, n, q, r);
    if q <= 0 { MulMono(q, 0, n); }
  }

  /** The reciprocal is recomputed when the length has changed. */
  method Refresh(recp: RecpCtx, i: nat) returns (ok: bool)
    requires recp.Valid()
    modifies recp`shift, recp.Nr
    ensures recp.Valid() && (ok ==> recp.shift == i) && (recp.N.Mag() > 0 ==> ok)
  {
    hide Val, P2, Bignum.Mag, HasBits;
    if i != recp.shift {
      recp.shift := ReciprocalOf(recp.Nr, recp.N, i);
    }
    ok := recp.shift != -1;
  }

  /** The estimate, the product and the corrections. */
  method DivideBy(d: Bignum, r: Bignum, m: Bignum, recp: RecpCtx, i: nat) returns (ok: bool)
    requires d.Wf() && r.Wf() && m.Valid() && recp.Valid() && recp.shift == i
    requires 2 * recp.numBits <= i && recp.N.Mag() <= m.Mag() < P2(i)
    requires d != r && d != m && d !in {recp.N, recp.Nr} && r !in {recp.N, recp.Nr}
    modifies d, r
    ensures ok <==> recp.N.Mag() > 0
    ensures ok ==> NonNeg(r) && NonNeg(d) && r.Mag() < recp.N.Mag()
    ensures ok ==> Times(d.Mag(), recp.N.Mag()) + r.Mag() == old(m.Mag())
    ensures r != m ==> m.neg == old(m.neg)
  {
    hide Val, P2, Shr, Bignum.Mag, HasBits, Times;
    ghost var x, n := m.Mag(), recp.N.Mag();
    Estimate(d, m, recp, i);
    ghost var d0 := d.Mag();
    EstimateWithin(x, n, recp.numBits, i, recp.Nr.Mag(), d0);
    var b := new Bignum.Temp();
    MulMag(b, recp.N, d);
    TimesCommute(n, d0);
    TopsOrdered(b, m);
    var c := Usub(r, m, b);
    ok := Correct(r, d, recp.N);
  }

  lemma EstimateWithin(m: int, n: int, bits: nat, i: nat, v: int, d: int)
    requires n >= 0 && HasBits(n, bits) && 0 <= m < P2(i) && 2 * bits <= i && (i > 0 && n > 0 ==> v == P2(i) / n)
    requires d == Shr(Times(Shr(m, bits), v), i - bits)
    ensures n > 0 ==> Times(d, n) <= m < Times(d, n) + 4 * n
    ensures n == 0 ==> Times(d, n) == 0
  {
    if n > 0 { EstimateShr(m, n, bits, i, v); }
  }

  /** BN_mod_mul_reciprocal for two factors. */
  method ModMulReciprocal(r: Bignum, x: Bignum, y: Bignum, recp: RecpCtx, a: Bignum) returns (ok: bool)
    requires r.Wf() && x.Valid() && y.Valid() && recp.Valid() && r !in {recp.N, recp.Nr}
    requires a.Wf() && a !in {r, x, y, recp.N, recp.Nr}
    modifies r, recp`shift, recp.Nr, a
    ensures recp.Valid() && (ok <==> recp.N.Mag() > 0)
    ensures ok ==> r.Valid() && r.Mag() == Times(old(x.Mag()), old(y.Mag())) % recp.N.Mag()
    ensures ok && old(x.Value()) >= 0 && old(y.Value()) >= 0 ==> r.Value() >= 0
    ensures ok ==> if x == y then r.neg == (old(x.Mag()) == 0 && old(a.neg))
                   else r.neg == (r.top > 0 && old(x.neg) != old(y.neg))
    ensures a.Wf()
    ensures ok && old(x.Value()) >= 0 && old(y.Value()) >= 0 && (x == y && old(a.neg) ==> old(x.Mag()) > 0) ==>
      !r.neg && !a.neg
  {
    hide Val, P2, Bignum.Mag, Times;
    ghost var p, q := x.Mag(), y.Mag();
    ZeroMag(x);
    SignOfTimes(p, q, x.neg, y.neg);
    MagOfProduct(p, q);
    if x == y { Sqr(a, x); } else { Mul(a, x, y); }
    ZeroMag(a);
    var dv := new Bignum.Temp();
    ok := DivRecp(dv, r, a, recp);
    if ok {
      ZeroMag(r);
      QuotientUnique(0, recp.N.Mag(), 0, 0);
    }
  }
}
