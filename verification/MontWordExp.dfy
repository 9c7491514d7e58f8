/** BN_mod_exp_mont_word: a one-word base, with part of the accumulator deferred in a word. */
module MontWordExp {
  import opened Words
  import opened Bits
  import opened Bignums
  import opened Basics
  import opened Division
  import opened WordOps
  import opened Residues
  import opened Montgomery
  import opened Windows
  import opened ExpBase
  import opened MontExp

  /** r holds the Montgomery form of x. */
  ghost predicate HoldsForm(r: Bignum, x: int, k: nat, n: int)
    requires n > 0
    reads r
  {
    NonNeg(r) && r.Mag() < n && r.Mag() == Form(x, k, n)
  }

  /** The accumulator is x * w, x in r or still 1, and is a^e modulo n. */
  ghost predicate Deferred(r: Bignum, isOne: bool, x: int, w: Word, a: int, e: int, k: nat, n: int)
    requires n > 0
    reads r
  {
    && e >= 0 && w > 0 && Cong(Times(x, w), Pow(a, e), n)
    && (if isOne then x == 1 else HoldsForm(r, x, k, n))
  }

  // ---------- overflow

  /** The division test finds exactly the products that do not fit in a word. */
  lemma OverflowTest(w: Word, a: Word)
    requires w > 0 && a > 0
    ensures Trunc(w * a) / a != w <==> w * a >= 0x1_0000_0000
    ensures w * a < 0x1_0000_0000 ==> Trunc(w * a) == w * a > 0
  {
    var t := Trunc(w * a);
    MulMono(1, w, a);
    if w * a < 0x1_0000_0000 {
      ProductFits(w * a);
      QuotientUnique(t, a, w, 0);
    } else {
      QuotientBounds(t, a);
      if t / a >= w { MulMono(w, t / a, a); }
    }
  }

  lemma ProductFits(x: int)
    requires 0 <= x < 0x1_0000_0000
    ensures Trunc(x) == x
  {}

  // ---------- moving the word into r

  /** BN_TO_MONTGOMERY_WORD; a word at or above the modulus still meets the condition of the reduction. */
  method WordToForm(r: Bignum, w: Word, mont: MontCtx, tmp: Bignum)
    requires r.Wf() && mont.Valid() && mont.N.Mag() > 0 && r !in {mont.N, mont.RR}
    requires tmp.Wf() && tmp !in {r, mont.N, mont.RR}
    modifies r, tmp
    ensures HoldsForm(r, w, mont.N.top, mont.N.Mag()) && Clear(tmp)
  {
    hide Val, P2, Bignum.Mag, Form;
    ModulusIsOdd(mont);
    SetWord(r, w);
    BPMono(1, mont.N.top);
    WordBelow(mont.N.top);
    FormBelow(w, mont.N.top, mont.N.Mag());
    ToMontgomery(r, r, mont, tmp);
  }

  lemma WordBelow(k: nat)
    requires BP(1) <= BP(k)
    ensures 0x1_0000_0000 <= BP(k)
  {}

  /** BN_MOD_MUL_WORD: r is multiplied by the word and reduced into t, and the two change places. */
  method ModMulWord(r: Bignum, t: Bignum, w: Word, m: Bignum, ghost x: int, ghost k: nat)
    returns (r': Bignum, t': Bignum)
    requires t.Wf() && m.Valid() && m.Mag() > 0 && r != t && m !in {r, t} && HoldsForm(r, x, k, m.Mag())
    modifies r, t
    ensures r' == t && t' == r && t'.Wf() && HoldsForm(r', Times(x, w), k, m.Mag())
  {
    hide Val, Bignum.Mag, Form;
    ghost var p, n := r.Mag(), m.Mag();
    FormTimesWord(p, x, w, k, n);
    MulWord(r, w);
    ZeroMag(r);
    SignedProductMag(r.Value(), p, w);
    var ok := Mod(t, r, m);
    ZeroMag(t);
    return t, r;
  }

  lemma SignedProductMag(v: int, p: int, w: Word)
    requires p >= 0
    ensures p * w >= 0
  {
    MulMono(0, p, w);
  }

  lemma FormTimesWord(p: int, x: int, w: int, k: nat, n: int)
    requires n > 0 && p == Form(x, k, n)
    ensures (p * w) % n == Form(Times(x, w), k, n) && 0 <= (p * w) % n < n
  {
    hide Cong, BP;
    CongSelf(x * BP(k), n);
    CongTimesBy(p, x * BP(k), w, n);
    SwapFactor(x, BP(k), w);
    CongSelf(p * w, n);
    CongTrans((p * w) % n, p * w, Times(x, w) * BP(k), n);
    CongIs((p * w) % n, Times(x, w) * BP(k), n);
  }

  lemma SwapFactor(x: int, p: int, w: int)
    ensures (x * p) * w == (x * w) * p
  {}

  /** Nothing is known of the temporary while r is still 1; then it has no minus sign. */
  ghost predicate Unused(tmp: Bignum, isOne: bool)
    reads tmp
  {
    tmp.Wf() && (!isOne ==> Clear(tmp))
  }

  /** Either way, the word w is multiplied into r. */
  method FoldWord(r: Bignum, t: Bignum, isOne: bool, w: Word, m: Bignum, mont: MontCtx, tmp: Bignum, ghost x: int)
    returns (r': Bignum, t': Bignum)
    requires r.Wf() && t.Wf() && r != t && mont.Valid() && m.Valid() && mont.N.Mag() == m.Mag() > 0
    requires {r, t} !! {m, mont.N, mont.RR}
    requires if isOne then x == 1 else HoldsForm(r, x, mont.N.top, m.Mag())
    requires Unused(tmp, isOne) && tmp !in {r, t, m, mont.N, mont.RR}
    modifies r, t, tmp
    ensures {r', t'} == {r, t} && r' != t' && t'.Wf()
    ensures HoldsForm(r', Times(x, w), mont.N.top, m.Mag()) && Clear(tmp)
  {
    hide Val, Bignum.Mag, HoldsForm, Times;
    TimesOne(w);
    if isOne {
      WordToForm(r, w, mont, tmp);
      return r, t;
    }
    r', t' := ModMulWord(r, t, w, m, x, mont.N.top);
  }

  lemma TimesOne(w: int)
    ensures Times(1, w) == w && Times(w, 1) == w
  {}

  // ---------- the steps of the loop

  lemma DeferredSquare(x: int, w: int, a: int, e: int, n: int)
    requires n > 0 && e >= 0 && Cong(Times(x, w), Pow(a, e), n)
    ensures Cong(Times(Times(x, x), Times(w, w)), Pow(a, 2 * e), n)
    ensures Cong(Times(Times(Times(x, w), Times(x, w)), 1), Pow(a, 2 * e), n)
  {
    hide Cong;
    CongTimes(Times(x, w), Pow(a, e), Times(x, w), Pow(a, e), n);
    PowAdd(a, e, e);
    SquareFactors(x, w);
  }

  lemma SquareFactors(x: int, w: int)
    ensures (x * w) * (x * w) == (x * x) * (w * w)
  {
    assert (x * w) * (x * w) == x * (w * x) * w;
    assert x * (w * x) * w == (x * x) * w * w;
    assert (x * x) * w * w == (x * x) * (w * w);
  }

  lemma DeferredTimes(x: int, w: int, a: int, e: int, n: int)
    requires n > 0 && e >= 0 && Cong(Times(x, w), Pow(a, e), n)
    ensures Cong(Times(x, Times(w, a)), Pow(a, e + 1), n)
    ensures Cong(Times(Times(x, w), a), Pow(a, e + 1), n)
  {
    hide Cong;
    CongTimesBy(Times(x, w), Pow(a, e), a, n);
    PowAdd(a, e, 1);
    PowSmall(a);
    TimesAssociate(x, w, a);
  }

  /** The square of a held form. */
  method SquareForm(r: Bignum, mont: MontCtx, tmp: Bignum, ghost x: int)
    requires mont.Ready() && mont.N.Mag() > 0 && r != mont.N && HoldsForm(r, x, mont.N.top, mont.N.Mag())
    requires Clear(tmp) && tmp !in {r, mont.N}
    modifies r, tmp
    ensures HoldsForm(r, Times(x, x), mont.N.top, mont.N.Mag()) && Clear(tmp)
  {
    hide Val, Bignum.Mag, Form, Cong;
    ghost var p := r.Mag();
    ModulusIsOdd(mont);
    MontMul(r, r, r, mont, tmp);
    FormProduct(r.Mag(), p, p, x, x, mont.N.top, mont.N.Mag());
  }

  /** One bit of the exponent doubles it: the accumulator, wherever its parts are held, is squared. */
  method SquareDeferred(r: Bignum, t: Bignum, isOne: bool, w: Word, m: Bignum, mont: MontCtx,
                        tmp: Bignum, ghost x: int, ghost a: Word, ghost e: int)
    returns (r': Bignum, t': Bignum, isOne': bool, w': Word, ghost x': int)
    requires r.Wf() && t.Wf() && r != t && mont.Valid() && m.Valid() && mont.N.Mag() == m.Mag() > 0
    requires {r, t} !! {m, mont.N, mont.RR}
    requires Deferred(r, isOne, x, w, a, e, mont.N.top, m.Mag())
    requires Unused(tmp, isOne) && tmp !in {r, t, m, mont.N, mont.RR}
    modifies r, t, tmp
    ensures {r', t'} == {r, t} && r' != t' && r'.Wf() && t'.Wf()
    ensures Deferred(r', isOne', x', w', a, 2 * e, mont.N.top, m.Mag()) && Unused(tmp, isOne')
  {
    hide Val, Bignum.Mag, HoldsForm, Times, Cong, Pow, Trunc;
    OverflowTest(w, w);
    DeferredSquare(x, w, a, e, m.Mag());
    TimesIs(w, w); TimesOne(1);
    r', t', isOne', x', w' := r, t, isOne, x, Trunc(w * w);
    if w' / w != w {
      r', t' := FoldWord(r, t, isOne, w, m, mont, tmp, x);
      isOne', x', w' := false, Times(x, w), 1;
    }
    if !isOne' {
      SquareForm(r', mont, tmp, x');
      HoldsWf(r', Times(x', x'), mont.N.top, m.Mag());
    }
    x' := Times(x', x');
  }

  lemma TimesIs(x: int, y: int)
    ensures Times(x, y) == x * y
  {}

  lemma HoldsWf(r: Bignum, x: int, k: nat, n: int)
    requires n > 0 && HoldsForm(r, x, k, n)
    ensures r.Wf()
  {}

  /** A set bit adds one to the exponent: the base goes into the word if it still fits there. */
  method TimesBase(r: Bignum, t: Bignum, isOne: bool, w: Word, m: Bignum, mont: MontCtx,
                   tmp: Bignum, a: Word, ghost x: int, ghost e: int)
    returns (r': Bignum, t': Bignum, isOne': bool, w': Word, ghost x': int)
    requires r.Wf() && t.Wf() && r != t && mont.Valid() && m.Valid() && mont.N.Mag() == m.Mag() > 0 && a > 0
    requires {r, t} !! {m, mont.N, mont.RR}
    requires Deferred(r, isOne, x, w, a, e, mont.N.top, m.Mag())
    requires Unused(tmp, isOne) && tmp !in {r, t, m, mont.N, mont.RR}
    modifies r, t, tmp
    ensures {r', t'} == {r, t} && r' != t' && r'.Wf() && t'.Wf()
    ensures Deferred(r', isOne', x', w', a, e + 1, mont.N.top, m.Mag()) && Unused(tmp, isOne')
  {
    hide Val, Bignum.Mag, HoldsForm, Times, Cong, Pow, Trunc;
    OverflowTest(w, a);
    DeferredTimes(x, w, a, e, m.Mag());
    TimesIs(w, a);
    r', t', isOne', x', w' := r, t, isOne, x, Trunc(w * a);
    if w' / a != w {
      r', t' := FoldWord(r, t, isOne, w, m, mont, tmp, x);
      isOne', x', w' := false, Times(x, w), a;
      HoldsWf(r', x', mont.N.top, m.Mag());
    }
  }

  /** The loop over the bits of p below the top one. */
  method WordLoop(r0: Bignum, t0: Bignum, a: Word, p: Bignum, bits: nat, m: Bignum, mont: MontCtx, tmp: Bignum)
    returns (r: Bignum, t: Bignum, isOne: bool, w: Word, ghost x: int)
    requires r0.Wf() && t0.Wf() && r0 != t0 && mont.Valid() && m.Valid() && mont.N.Mag() == m.Mag() > 0 && a > 0
    requires {r0, t0} !! {m, mont.N, mont.RR, p} && p.Valid() && HasBits(p.Mag(), bits) && bits > 0
    requires tmp.Wf() && tmp !in {r0, t0, m, mont.N, mont.RR, p}
    modifies r0, t0, tmp
    ensures {r, t} == {r0, t0} && r != t && r.Wf() && t.Wf()
    ensures Deferred(r, isOne, x, w, a, p.Mag(), mont.N.top, m.Mag()) && Unused(tmp, isOne)
  {
    hide Val, Bignum.Mag, Deferred, BitOf, Prefix, P2, HasBits;
    r, t, isOne, w, x := r0, t0, true, a, 1;
    var b := bits - 2;
    PrefixEnds(p.Mag(), bits);
    PrefixStep(p.Mag(), bits - 1);
    DeferredStart(r, a, mont.N.top, m.Mag());
    while b >= 0
      invariant -1 <= b <= bits - 2
      invariant {r, t} == {r0, t0} && r != t && r.Wf() && t.Wf()
      invariant Deferred(r, isOne, x, w, a, Prefix(p.Mag(), b), mont.N.top, m.Mag()) && Unused(tmp, isOne)
    {
      PrefixStep(p.Mag(), b);
      ghost var e := Prefix(p.Mag(), b);
      r, t, isOne, w, x := SquareDeferred(r, t, isOne, w, m, mont, tmp, x, a, e);
      var bit := IsBitSet(p, b);
      if bit {
        r, t, isOne, w, x := TimesBase(r, t, isOne, w, m, mont, tmp, a, x, 2 * e);
      }
      b := b - 1;
    }
  }

  lemma PrefixStep(p: int, i: nat)
    ensures Prefix(p, i - 1) == 2 * Prefix(p, i) + (if BitOf(p, i) then 1 else 0)
  {
    ShrStep(p, i);
  }

  lemma DeferredStart(r: Bignum, a: Word, k: nat, n: int)
    requires n > 0 && a > 0
    ensures Deferred(r, true, 1, a, a, 1, k, n)
  {
    PowSmall(a);
    TimesOne(a);
  }

  // ---------- BN_mod_exp_mont_word

  /** The deferred word is merged and the whole taken out of Montgomery form. */
  method FinishWord(rr: Bignum, r0: Bignum, t0: Bignum, isOne: bool, w: Word, m: Bignum, mont: MontCtx,
                    tmp: Bignum, ghost x: int, ghost a: Word, ghost e: nat)
    requires rr.Wf() && r0.Wf() && t0.Wf() && r0 != t0 && mont.Valid() && m.Valid() && mont.N.Mag() == m.Mag() > 1
    requires {r0, t0} !! {m, mont.N, mont.RR, rr} && rr !in {mont.N, mont.RR}
    requires Deferred(r0, isOne, x, w, a, e, mont.N.top, m.Mag())
    requires Unused(tmp, isOne) && tmp !in {rr, r0, t0, m, mont.N, mont.RR}
    modifies rr, r0, t0, tmp
    ensures NonNeg(rr) && rr.Value() == Pow(a, e) % old(m.Mag())
  {
    hide Val, Bignum.Mag, HoldsForm, Times, Pow;
    ghost var k, n := mont.N.top, m.Mag();
    TimesOne(x); TimesOne(w);
    var r, t := r0, t0;
    if w == 1 && isOne {
      QuotientUnique(1, n, 0, 1);
      SetWord(rr, 1);
      return;
    }
    ghost var y := x;
    if w != 1 {
      r, t := FoldWord(r, t, isOne, w, m, mont, tmp, x);
      y := Times(x, w);
    }
    FirstPower(r, y, k, n);
    FormResult(rr, r, mont, y, 1);
  }

  lemma FirstPower(r: Bignum, y: int, k: nat, n: int)
    requires n > 0 && HoldsForm(r, y, k, n)
    ensures IsForm(r, y, 1, k, n) && Pow(y, 1) == y
  {
    FormPowerSelf(r.Mag(), y, k, n);
    PowSmall(y);
  }

  /** BN_mod_exp_mont_word: fails for an even modulus; for p = 0 the result is 1 even modulo 1. */
  method ModExpMontWord(rr: Bignum, a: Word, p: Bignum, m: Bignum, inMont: MontCtx?) returns (ok: bool)
    requires rr.Wf() && p.Valid() && m.Valid()
    requires inMont != null ==> inMont.Valid() && inMont.N.Mag() == m.Mag() && rr !in {inMont.N, inMont.RR}
    modifies rr
    ensures ok <==> old(m.Mag()) % 2 == 1
    ensures ok && old(p.Mag()) == 0 ==> rr.Valid() && rr.Value() == 1
    ensures ok && old(p.Mag()) != 0 ==>
      old(m.Mag()) > 0 && NonNeg(rr) && rr.Value() == Pow(a, old(p.Mag())) % old(m.Mag())
  {
    hide Val, P2, Bignum.Mag, HasBits, Pow;
    OddMag(m); ZeroMag(m);
    if m.top == 0 || m.d[0] % 2 == 0 { return false; }
    var a' := a;
    if m.top == 1 {
      WordMag(m, m.d[0]);
      a' := ReduceWord(a, m.d[0]);
    }
    var bits := NumBits(p);
    ZeroBits(p.Mag(), bits);
    if bits == 0 {
      SetWord(rr, 1);
      return true;
    }
    BaseWord(a, a', m, p.Mag());
    if a' == 0 {
      SetWord(rr, 0);
      return true;
    }
    var mont;
    ok, mont := UseContext(m, inMont);
    WordPower(rr, a', p, bits, m, mont);
  }

  /** The base is reduced when the modulus is one word long. */
  method ReduceWord(a: Word, w: Word) returns (a': Word)
    requires w > 0
    ensures a' == a % w && a' < w
  {
    QuotientBounds(a, w);
    a' := a % w;
  }

  /** The reduced base has the same powers; if it is nonzero then the modulus is not 1. */
  lemma BaseWord(a: Word, a': Word, m: Bignum, e: nat)
    requires m.Valid() && m.Mag() > 0 && e > 0
    requires if m.top == 1 then a' == a % m.Mag() else a' == a
    ensures Pow(a', e) % m.Mag() == Pow(a, e) % m.Mag()
    ensures a' == 0 ==> Pow(a, e) % m.Mag() == 0
    ensures a' != 0 ==> m.Mag() > 1
  {
    var n := m.Mag();
    CongSelf(a, n);
    if m.top != 1 { CongBy(a', a, n, 0); }
    PowCong(a', a, e, n);
    if a' == 0 {
      QuotientUnique(0, n, 0, 0);
      PowOfZero(0, e, n);
    } else if m.top != 1 {
      WordMag(m, 1);
    }
  }

  /** The accumulation for a nonzero base and exponent. */
  method WordPower(rr: Bignum, a: Word, p: Bignum, bits: nat, m: Bignum, mont: MontCtx)
    requires rr.Wf() && p.Valid() && m.Valid() && a > 0 && HasBits(p.Mag(), bits) && bits > 0
    requires mont.Valid() && mont.N.Mag() == m.Mag() > 1 && rr !in {mont.N, mont.RR}
    modifies rr
    ensures NonNeg(rr) && rr.Value() == Pow(a, old(p.Mag())) % old(m.Mag())
  {
    hide Val, P2, Bignum.Mag, HasBits, Pow, Deferred;
    var r := new Bignum.Temp();
    var t := new Bignum.Temp();
    var isOne, w;
    ghost var x;
    var tmp := new Bignum.Temp();
    r, t, isOne, w, x := WordLoop(r, t, a, p, bits, m, mont, tmp);
    FinishWord(rr, r, t, isOne, w, m, mont, tmp, x, a, p.Mag());
  }
}
