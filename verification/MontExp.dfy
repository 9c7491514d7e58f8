/** BN_mod_exp_mont: sliding windows over Montgomery products. */
module MontExp {
  import opened Words
  import opened Bits
  import opened Bignums
  import opened Basics
  import opened Residues
  import opened Montgomery
  import opened Windows
  import opened ExpBase

  /** x is the Montgomery form of a^e. */
  ghost predicate FormPower(x: int, a: int, e: int, k: nat, n: int)
    requires n > 0
  {
    e >= 0 && x == Form(Pow(a, e), k, n)
  }

  /** A Montgomery product adds the exponents. */
  lemma FormPowerTimes(x: int, y: int, a: int, e: int, w: int, k: nat, n: int, z: int)
    requires n > 0 && n % 2 == 1 && FormPower(x, a, e, k, n) && FormPower(y, a, w, k, n)
    requires 0 <= z < n && Cong(z * BP(k), Times(x, y), n)
    ensures FormPower(z, a, e + w, k, n)
  {
    hide Cong, Form;
    PowAdd(a, e, w);
    FormProduct(z, x, y, Pow(a, e), Pow(a, w), k, n);
  }

  lemma FormPowerSelf(x: int, a: int, k: nat, n: int)
    requires n > 0 && x == Form(a, k, n)
    ensures FormPower(x, a, 1, k, n)
  {
    PowSmall(a);
  }

  /** What the context says of its modulus. */
  lemma ModulusIsOdd(mont: MontCtx)
    requires mont.Ready()
    ensures mont.N.Mag() % 2 == 1 && 0 < mont.N.Mag() < BP(mont.N.top)
  {
    MagIs(mont.N);
    ZeroMag(mont.N);
    OddModulus(mont.N.d[..mont.N.top], mont.n0);
    ValBound(mont.N.d[..mont.N.top]);
  }

  /** The temporary of BN_mod_mul_montgomery, always the same one, has no minus sign left over once a nonzero
      product or one of two numbers has been taken: then the squares of zero are not marked negative. */
  ghost predicate Clear(tmp: Bignum)
    reads tmp
  {
    tmp.Wf() && !tmp.neg
  }

  /** BN_mod_mul_montgomery of two reduced numbers. */
  method MontMul(r: Bignum, a: Bignum, b: Bignum, mont: MontCtx, tmp: Bignum)
    requires r.Wf() && a.Valid() && a.Value() >= 0 && b.Valid() && b.Value() >= 0 && mont.Ready() && r != mont.N
    requires a.Mag() < mont.N.Mag() && b.Mag() < mont.N.Mag() && Clear(tmp) && tmp !in {r, a, b, mont.N}
    modifies r, tmp
    ensures NonNeg(r) && r.Mag() < mont.N.Mag() && Clear(tmp)
    ensures Cong(r.Mag() * BP(mont.N.top), Times(old(a.Mag()), old(b.Mag())), mont.N.Mag())
  {
    hide Val, BP, Bignum.Mag, Cong;
    ModulusIsOdd(mont);
    FormFits(a.Mag(), b.Mag(), mont.N.Mag(), BP(mont.N.top));
    ModMulMontgomery(r, a, b, mont, tmp);
  }

  /** The table val: entry i is the form of a^(2i+1). */
  ghost predicate OddForms(vals: seq<Bignum>, a: int, k: nat, n: int)
    requires n > 0
    reads vals
  {
    forall i | 0 <= i < |vals| :: IsForm(vals[i], a, 2 * i + 1, k, n)
  }

  /** x holds the form of a^e. */
  ghost predicate IsForm(x: Bignum, a: int, e: int, k: nat, n: int)
    requires n > 0
    reads x
  {
    NonNeg(x) && x.Mag() < n && FormPower(x.Mag(), a, e, k, n)
  }

  lemma FormEntry(vals: seq<Bignum>, a: int, k: nat, n: int, i: nat)
    requires n > 0 && OddForms(vals, a, k, n) && i < |vals|
    ensures IsForm(vals[i], a, 2 * i + 1, k, n)
  {}

  lemma FormSnoc(vals: seq<Bignum>, v: Bignum, a: int, k: nat, n: int)
    requires n > 0 && OddForms(vals, a, k, n) && IsForm(v, a, 2 * |vals| + 1, k, n)
    ensures OddForms(vals + [v], a, k, n)
  {}

  lemma FormFirst(v: Bignum, a: int, k: nat, n: int)
    requires n > 0 && IsForm(v, a, 1, k, n)
    ensures OddForms([v], a, k, n)
  {}

  /** The product of two forms, as a form. */
  method MulForms(r: Bignum, x: Bignum, y: Bignum, mont: MontCtx, tmp: Bignum, ghost a: int, ghost e: int, ghost w: int)
    requires r.Wf() && mont.Ready() && r != mont.N && mont.N.Mag() > 0 && Clear(tmp) && tmp !in {r, x, y, mont.N}
    requires IsForm(x, a, e, mont.N.top, mont.N.Mag()) && IsForm(y, a, w, mont.N.top, mont.N.Mag())
    modifies r, tmp
    ensures IsForm(r, a, e + w, mont.N.top, mont.N.Mag()) && Clear(tmp)
  {
    hide Val, BP, Bignum.Mag, Cong, FormPower, Times;
    ghost var p, q := x.Mag(), y.Mag();
    ModulusIsOdd(mont);
    MontMul(r, x, y, mont, tmp);
    FormPowerTimes(p, q, a, e, w, mont.N.top, mont.N.Mag(), r.Mag());
  }

  /** The table of odd powers of the form v0. */
  method MontTable(v0: Bignum, window: nat, mont: MontCtx, d: Bignum, tmp: Bignum, ghost a: int)
    returns (vals: seq<Bignum>)
    requires 1 <= window <= 6 && mont.Ready() && mont.N.Mag() > 0 && d.Wf() && d != v0 && d != mont.N
    requires IsForm(v0, a, 1, mont.N.top, mont.N.Mag())
    requires Clear(tmp) && tmp !in {v0, d, mont.N}
    modifies d, tmp
    ensures |vals| == P2(window - 1) && vals[0] == v0
    ensures forall i | 0 < i < |vals| :: fresh(vals[i])
    ensures OddForms(vals, a, mont.N.top, mont.N.Mag()) && Clear(tmp)
  {
    hide Val, Bignum.Mag, IsForm, OddForms, Clear;
    ghost var k, n := mont.N.top, mont.N.Mag();
    vals := [v0];
    FormFirst(v0, a, k, n);
    if window > 1 {
      MulForms(d, v0, v0, mont, tmp, a, 1, 1);
      var i, j := 1, P2(window - 1);
      while i < j
        invariant |vals| == i <= j && vals[0] == v0
        invariant forall k | 0 < k < |vals| :: fresh(vals[k])
        invariant IsForm(d, a, 2, k, n) && OddForms(vals, a, k, n) && Clear(tmp) && tmp !in vals
        modifies tmp
      {
        FormEntry(vals, a, k, n, i - 1);
        var v := new Bignum();
        MulForms(v, vals[i - 1], d, mont, tmp, a, 2 * (i - 1) + 1, 2);
        FormSnoc(vals, v, a, k, n);
        vals := vals + [v];
        i := i + 1;
      }
    }
  }

  // ---------- the main loop

  /** Squares the accumulator j times, unless it is still the form of 1. */
  method MontSquares(r: Bignum, start: bool, j: nat, mont: MontCtx, tmp: Bignum, ghost a: int, ghost e: int)
    requires mont.Ready() && mont.N.Mag() > 0 && r != mont.N
    requires IsForm(r, a, e, mont.N.top, mont.N.Mag()) && (start ==> e == 0)
    requires Clear(tmp) && tmp !in {r, mont.N}
    modifies r, tmp
    ensures IsForm(r, a, e * P2(j), mont.N.top, mont.N.Mag()) && Clear(tmp)
  {
    hide Val, Bignum.Mag, FormPower, P2, Clear;
    ghost var f := e;
    var i := 0;
    SquaresNone(e, i, j);
    if !start {
      while i < j
        invariant 0 <= i <= j && IsForm(r, a, f, mont.N.top, mont.N.Mag()) && f == e * P2(i) && Clear(tmp)
      {
        MulForms(r, r, r, mont, tmp, a, f, f);
        DoublePower(e, i);
        f, i := f + f, i + 1;
      }
    }
  }

  /** One window: the squarings, and the multiplication by the odd power. */
  method MontWindow(r: Bignum, start: bool, wvalue: nat, wend: nat, vals: seq<Bignum>, mont: MontCtx, tmp: Bignum,
                    ghost a: int, ghost e: int)
    requires mont.Ready() && mont.N.Mag() > 0 && r != mont.N && r !in vals && (start ==> e == 0)
    requires IsForm(r, a, e, mont.N.top, mont.N.Mag()) && OddForms(vals, a, mont.N.top, mont.N.Mag())
    requires wvalue % 2 == 1 && wvalue / 2 < |vals|
    requires Clear(tmp) && tmp !in {r, mont.N} && tmp !in vals
    modifies r, tmp
    ensures IsForm(r, a, e * P2(wend + 1) + wvalue, mont.N.top, mont.N.Mag()) && Clear(tmp)
  {
    hide Val, Bignum.Mag, FormPower, P2, OddForms, Clear;
    MontSquares(r, start, wend + 1, mont, tmp, a, e);
    FormEntry(vals, a, mont.N.top, mont.N.Mag(), wvalue / 2);
    MulForms(r, r, vals[wvalue / 2], mont, tmp, a, e * P2(wend + 1), wvalue);
  }

  /** The main loop: the accumulator is the form of a to the prefix of p scanned so far. */
  method MontLoop(r: Bignum, p: Bignum, bits: nat, window: nat, vals: seq<Bignum>, mont: MontCtx, tmp: Bignum,
                  ghost a: int)
    requires mont.Ready() && mont.N.Mag() > 0 && r != mont.N && r !in vals
    requires IsForm(r, a, 0, mont.N.top, mont.N.Mag())
    requires p.Valid() && HasBits(p.Mag(), bits) && bits > 0 && p != r
    requires 1 <= window <= 6 && |vals| == P2(window - 1) && OddForms(vals, a, mont.N.top, mont.N.Mag())
    requires Clear(tmp) && tmp !in {r, mont.N} && tmp !in vals && tmp != p
    modifies r, tmp
    ensures IsForm(r, a, p.Mag(), mont.N.top, mont.N.Mag()) && Clear(tmp)
  {
    hide Val, Bignum.Mag, P2, OddForms, BitOf, Prefix, IsForm, Clear;
    var start, wstart: int := true, bits - 1;
    PrefixEnds(p.Mag(), bits);
    while wstart >= 0
      invariant -1 <= wstart < bits
      invariant IsForm(r, a, Prefix(p.Mag(), wstart), mont.N.top, mont.N.Mag()) && Clear(tmp)
      invariant start ==> wstart == bits - 1 && Prefix(p.Mag(), wstart) == 0
    {
      start, wstart := MontStep(r, start, p, wstart, window, vals, mont, tmp, a);
    }
  }

  /** A zero bit, or the window that starts at a set bit. */
  method MontStep(r: Bignum, start: bool, p: Bignum, wstart: nat, window: nat, vals: seq<Bignum>, mont: MontCtx,
                  tmp: Bignum, ghost a: int)
    returns (start': bool, wstart': int)
    requires mont.Ready() && mont.N.Mag() > 0 && r != mont.N && r !in vals
    requires p.Valid() && p != r && (start ==> BitOf(p.Mag(), wstart) && Prefix(p.Mag(), wstart) == 0)
    requires 1 <= window <= 6 && |vals| == P2(window - 1) && OddForms(vals, a, mont.N.top, mont.N.Mag())
    requires IsForm(r, a, Prefix(p.Mag(), wstart), mont.N.top, mont.N.Mag())
    requires Clear(tmp) && tmp !in {r, mont.N} && tmp !in vals && tmp != p
    modifies r, tmp
    ensures -1 <= wstart' < wstart && !start'
    ensures IsForm(r, a, Prefix(p.Mag(), wstart'), mont.N.top, mont.N.Mag()) && Clear(tmp)
  {
    hide Val, Bignum.Mag, P2, OddForms, BitOf, Prefix, Scanned, IsForm, Clear;
    ghost var e := Prefix(p.Mag(), wstart);
    var bit := IsBitSet(p, wstart);
    if !bit {
      ZeroBit(p.Mag(), wstart);
      OneSquare(e);
      MontSquares(r, start, 1, mont, tmp, a, e);
      return start, wstart - 1;
    }
    var wvalue, wend := ScanWindow(p, wstart, window);
    TableIndex(wvalue, window);
    WindowDone(p.Mag(), wstart, wend, wvalue);
    MontWindow(r, start, wvalue, wend, vals, mont, tmp, a, e);
    return false, wstart - (wend + 1);
  }

  // ---------- BN_mod_exp_mont

  /** The caller's context, or a new one for m. */
  method UseContext(m: Bignum, inMont: MontCtx?) returns (ok: bool, mont: MontCtx)
    requires m.Valid()
    requires inMont != null ==> inMont.Valid() && inMont.N.Mag() == m.Mag()
    ensures inMont != null ==> ok && mont == inMont
    ensures inMont == null ==> fresh(mont) && fresh(mont.N) && fresh(mont.RR) && (ok <==> m.Mag() % 2 == 1)
    ensures ok ==> mont.Valid() && mont.N.Mag() == m.Mag()
  {
    hide Val, P2, Bignum.Mag;
    if inMont != null { return true, inMont; }
    mont := new MontCtx();
    ok := MontCtxSet(mont, m);
  }

  /** r and v0, the forms of 1 and of the base, and the loop. */
  method MontPower(r: Bignum, v0: Bignum, p: Bignum, bits: nat, mont: MontCtx, tmp: Bignum, ghost a: int)
    requires mont.Valid() && mont.N.Mag() > 0 && r.Wf() && r !in {mont.N, mont.RR, v0, p}
    requires Clear(tmp) && tmp !in {r, v0, p, mont.N, mont.RR}
    requires IsForm(v0, a, 1, mont.N.top, mont.N.Mag())
    requires p.Valid() && HasBits(p.Mag(), bits) && bits > 0
    modifies r, tmp
    ensures IsForm(r, a, p.Mag(), mont.N.top, mont.N.Mag())
  {
    hide Val, P2, Bignum.Mag, HasBits, IsForm, OddForms, Form;
    var window := WindowBits(bits);
    var d := new Bignum.Temp();
    var vals := MontTable(v0, window, mont, d, tmp, a);
    var one := new Bignum();
    SetWord(one, 1);
    FormOfOne(r, one, mont, tmp, a);
    MontLoop(r, p, bits, window, vals, mont, tmp, a);
  }

  /** BN_to_montgomery(r, BN_value_one()) */
  method FormOfOne(r: Bignum, one: Bignum, mont: MontCtx, tmp: Bignum, ghost a: int)
    requires mont.Valid() && mont.N.Mag() > 0 && r.Wf() && r !in {mont.N, mont.RR} && NonNeg(one) && one.Mag() == 1
    requires tmp.Wf() && tmp !in {r, one, mont.N, mont.RR}
    modifies r, tmp
    ensures IsForm(r, a, 0, mont.N.top, mont.N.Mag()) && Clear(tmp)
  {
    hide Val, P2, BP, Bignum.Mag, Form;
    ModulusIsOdd(mont);
    PowSmall(a);
    FormBelow(1, mont.N.top, mont.N.Mag());
    ToMontgomery(r, one, mont, tmp);
  }

  /** val[0] := the form of the base. */
  method FormOfBase(v0: Bignum, aa: Bignum, mont: MontCtx, tmp: Bignum)
    requires mont.Valid() && mont.N.Mag() > 0 && v0.Wf() && v0 !in {mont.N, mont.RR}
    requires NonNeg(aa) && 0 < aa.Mag() <= mont.N.Mag() && tmp.Wf() && tmp !in {v0, aa, mont.N, mont.RR}
    modifies v0, tmp
    ensures IsForm(v0, old(aa.Mag()), 1, mont.N.top, mont.N.Mag()) && Clear(tmp)
  {
    hide Val, P2, BP, Bignum.Mag, Form;
    ModulusIsOdd(mont);
    ghost var x := aa.Mag();
    FormBelow(x, mont.N.top, mont.N.Mag());
    ToMontgomery(v0, aa, mont, tmp);
    FormPowerSelf(v0.Mag(), x, mont.N.top, mont.N.Mag());
  }

  /** The accumulated form is converted back. */
  method FormResult(rr: Bignum, r: Bignum, mont: MontCtx, ghost v: int, ghost e: nat)
    requires mont.Ready() && mont.N.Mag() > 0 && rr.Wf() && rr != mont.N && IsForm(r, v, e, mont.N.top, mont.N.Mag())
    modifies rr
    ensures NonNeg(rr) && rr.Value() == Pow(v, e) % mont.N.Mag()
  {
    hide Val, BP, Bignum.Mag, Cong, Form, Pow;
    ModulusIsOdd(mont);
    ghost var x, k, n := r.Mag(), mont.N.top, mont.N.Mag();
    Reducible(x, n, BP(k));
    FromMontgomery(rr, r, mont);
    FormOut(rr.Mag(), x, Pow(v, e), k, n);
    ZeroMag(rr); ZeroMag(r);
    if x == 0 { ZeroForm(rr.Mag(), k, n); }
  }

  /** BN_mod_exp_mont for a nonzero exponent. */
  method MontNonzero(rr: Bignum, a: Bignum, p: Bignum, m: Bignum, mont: MontCtx, bits: nat)
    requires rr.Wf() && a.Valid() && p.Valid() && m.Valid() && HasBits(p.Mag(), bits) && p.Mag() > 0 && bits > 0
    requires mont.Valid() && mont.N.Mag() == m.Mag() > 0 && rr !in {mont.N, mont.RR}
    modifies rr
    ensures NonNeg(rr) && rr.Value() == Pow(old(a.Value()), old(p.Mag())) % old(m.Mag())
  {
    hide Val, P2, Bignum.Mag, HasBits, IsForm, Pow, Cong, Clear;
    ghost var x, e, n := a.Value(), p.Mag(), m.Mag();
    var v0 := new Bignum();
    var zero;
    ghost var v;
    var tmp := new Bignum.Temp();
    zero, v := FormOfReduced(v0, a, m, mont, tmp, e);
    if zero {
      SetWord(rr, 0);
      return;
    }
    var r := new Bignum.Temp();
    MontPower(r, v0, p, bits, mont, tmp, v);
    FormResult(rr, r, mont, v, e);
    SamePower(v, x, e, n);
  }

  lemma SamePower(v: int, x: int, e: nat, n: int)
    requires n > 0 && Cong(v, x, n)
    ensures Pow(v, e) % n == Pow(x, e) % n
  {
    PowCong(v, x, e, n);
  }

  /** The base, reduced if it needs to be, in Montgomery form; zero says that it is 0. */
  method FormOfReduced(v0: Bignum, a: Bignum, m: Bignum, mont: MontCtx, tmp: Bignum, ghost e: nat)
    returns (zero: bool, ghost v: int)
    requires v0.Valid() && a.Valid() && m.Valid() && e > 0 && v0 !in {a, m, mont.N, mont.RR}
    requires mont.Valid() && mont.N.Mag() == m.Mag() > 0 && tmp.Wf() && tmp !in {v0, a, m, mont.N, mont.RR}
    modifies v0, tmp
    ensures zero ==> Pow(a.Value(), e) % m.Mag() == 0
    ensures !zero ==> IsForm(v0, v, 1, mont.N.top, mont.N.Mag()) && Cong(v, a.Value(), m.Mag()) && Clear(tmp)
  {
    hide Val, P2, Bignum.Mag, IsForm, Pow, Cong;
    var aa := a;
    var c := Ucmp(a, m);
    if a.neg || c >= 0 {
      var ok := ReduceBase(v0, a, m, e);
      aa := v0;
    } else {
      ZeroMag(a);
      QuotientUnique(a.Mag(), m.Mag(), 0, a.Mag());
      Representative(a.Value(), m.Mag(), a.Mag(), e);
    }
    v := aa.Mag();
    zero := IsZero(aa);
    ZeroMag(aa);
    if !zero { FormOfBase(v0, aa, mont, tmp); }
  }

  /** BN_mod_exp_mont: fails for an even modulus; for p = 0 the result is 1 even modulo 1.
      A zero modulus is caught by its lowest word or by BN_MONT_CTX_set; that word is stale, and
      alone decides when p is 0 too. */
  method ModExpMont(rr: Bignum, a: Bignum, p: Bignum, m: Bignum, inMont: MontCtx?) returns (ok: bool)
    requires rr.Wf() && a.Valid() && p.Valid() && m.Valid()
    requires inMont != null ==> inMont.Valid() && inMont.N.Mag() == m.Mag() && rr !in {inMont.N, inMont.RR}
    modifies rr
    ensures old(m.Mag()) != 0 || old(p.Mag()) != 0 ==> (ok <==> old(m.Mag()) % 2 == 1)
    ensures old(m.Mag()) == 0 && old(p.Mag()) == 0 ==> (ok <==> old(m.d[0]) % 2 == 1)
    ensures ok && old(p.Mag()) == 0 ==> rr.Valid() && rr.Value() == 1
    ensures ok && old(p.Mag()) != 0 ==>
      old(m.Mag()) > 0 && NonNeg(rr) && rr.Value() == Pow(old(a.Value()), old(p.Mag())) % old(m.Mag())
  {
    hide Val, P2, Bignum.Mag, HasBits, Pow;
    OddMag(m); ZeroMag(m);
    if m.d[0] % 2 == 0 { return false; }
    var bits := NumBits(p);
    ZeroBits(p.Mag(), bits);
    if bits == 0 {
      SetWord(rr, 1);
      return true;
    }
    var mont;
    ok, mont := UseContext(m, inMont);
    if !ok { return; }
    MontNonzero(rr, a, p, m, mont, bits);
  }
}
