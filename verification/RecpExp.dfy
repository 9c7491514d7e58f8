/** BN_mod_exp_recp: sliding windows over the reciprocal reduction. */
module RecpExp {
  import opened Words
  import opened Bits
  import opened Bignums
  import opened Basics
  import opened Reciprocal
  import opened Windows
  import opened ExpBase

  /** BN_mod_mul_reciprocal of two non-negative numbers; t is its temporary, always the same one. It has no
      minus sign left over once something has been multiplied, so the squares of zero come out right. */
  method MulRecip(r: Bignum, x: Bignum, y: Bignum, recp: RecpCtx, t: Bignum)
    requires r.Wf() && NonNeg(x) && NonNeg(y) && recp.Valid() && recp.N.Mag() > 0 && r !in {recp.N, recp.Nr}
    requires t.Wf() && t !in {r, x, y, recp.N, recp.Nr} && (x == y && t.neg ==> x.Mag() > 0)
    modifies r, recp`shift, recp.Nr, t
    ensures recp.Valid() && t.Wf() && !t.neg
    ensures NonNeg(r) && r.Mag() == Times(old(x.Mag()), old(y.Mag())) % recp.N.Mag()
  {
    hide Val, P2, Bignum.Mag, Times;
    var ok := ModMulReciprocal(r, x, y, recp, t);
  }

  /** The table of odd powers of v0. */
  method RecpTable(v0: Bignum, window: nat, recp: RecpCtx, t: Bignum) returns (vals: seq<Bignum>)
    requires 1 <= window <= 6 && NonNeg(v0) && v0 !in {recp.N, recp.Nr} && recp.Valid() && recp.N.Mag() > 0
    requires v0.Mag() > 0 && t.Wf() && t !in {v0, recp.N, recp.Nr}
    modifies recp`shift, recp.Nr, t
    ensures recp.Valid() && t.Wf() && |vals| == P2(window - 1) && vals[0] == v0
    ensures forall i | 0 < i < |vals| :: fresh(vals[i])
    ensures OddPowers(vals, v0.Mag(), recp.N.Mag())
  {
    hide Val, Bignum.Mag, Power, Times, OddPowers;
    ghost var a, n := v0.Mag(), recp.N.Mag();
    PowerSelf(a, n);
    vals := [v0];
    FirstEntry(v0, a, n);
    if window > 1 {
      var aa := new Bignum.Temp();
      MulRecip(aa, v0, v0, recp, t);
      PowerTimes(a, a, a, 1, 1, n, aa.Mag());
      var i, j := 1, P2(window - 1);
      while i < j
        invariant |vals| == i <= j && vals[0] == v0 && recp.Valid()
        invariant forall k | 0 < k < |vals| :: fresh(vals[k])
        invariant t.Wf() && t !in vals && aa !in vals && NonNeg(aa) && Power(aa.Mag(), a, 2, n)
        invariant OddPowers(vals, a, n)
        modifies recp`shift, recp.Nr, t
      {
        var v := RecpEntry(vals, aa, recp, t, a);
        TableSnoc(vals, v, a, n);
        vals := vals + [v];
        i := i + 1;
      }
    }
  }

  /** val[i] = val[i-1] * a^2 */
  method RecpEntry(vals: seq<Bignum>, aa: Bignum, recp: RecpCtx, t: Bignum, ghost a: int) returns (v: Bignum)
    requires recp.Valid() && recp.N.Mag() > 0 && vals != [] && OddPowers(vals, a, recp.N.Mag())
    requires recp.Nr !in vals && aa != recp.Nr && aa !in vals
    requires t.Wf() && t !in vals && t !in {aa, recp.N, recp.Nr}
    requires NonNeg(aa) && Power(aa.Mag(), a, 2, recp.N.Mag())
    modifies recp`shift, recp.Nr, t
    ensures recp.Valid() && t.Wf() && fresh(v) && NonNeg(v)
    ensures Power(v.Mag(), a, 2 * |vals| + 1, recp.N.Mag())
  {
    hide Val, Bignum.Mag, Power, Times, OddPowers;
    ghost var i, n := |vals| - 1, recp.N.Mag();
    var last := vals[|vals| - 1];
    TableEntry(vals, a, n, i);
    ghost var x := last.Mag();
    v := new Bignum();
    MulRecip(v, last, aa, recp, t);
    PowerTimes(x, aa.Mag(), a, 2 * i + 1, 2, n, v.Mag());
  }

  // ---------- the main loop

  /** r holds a^e, or 1 while nothing has been multiplied in; from then on t has no minus sign. */
  ghost predicate RecpAcc(r: Bignum, t: Bignum, start: bool, a: int, e: int, n: int)
    requires n > 0
    reads r, t
  {
    && NonNeg(r) && t.Wf() && Power(r.Mag(), a, e, n)
    && (if start then e == 0 && r.Mag() == 1 else r.Mag() < n && !t.neg)
  }

  /** Squares the accumulator j times, unless it is still 1. */
  method RecpSquares(r: Bignum, start: bool, j: nat, recp: RecpCtx, t: Bignum, ghost a: int, ghost e: int)
    requires recp.Valid() && recp.N.Mag() > 0 && r !in {recp.N, recp.Nr} && RecpAcc(r, t, start, a, e, recp.N.Mag())
    requires t !in {r, recp.N, recp.Nr}
    modifies r, recp`shift, recp.Nr, t
    ensures recp.Valid() && RecpAcc(r, t, start, a, e * P2(j), recp.N.Mag())
  {
    hide Val, Bignum.Mag, Power, Times, P2;
    ghost var n, f := recp.N.Mag(), e;
    var i := 0;
    SquaresNone(e, i, j);
    if !start {
      while i < j
        invariant 0 <= i <= j && recp.Valid() && RecpAcc(r, t, start, a, f, n) && f == e * P2(i)
      {
        ghost var x := r.Mag();
        MulRecip(r, r, r, recp, t);
        PowerTimes(x, x, a, f, f, n, r.Mag());
        DoublePower(e, i);
        f, i := f + f, i + 1;
      }
    }
  }

  /** One window: the squarings, and the multiplication by the odd power. */
  method RecpWindow(r: Bignum, start: bool, wvalue: nat, wend: nat, vals: seq<Bignum>, recp: RecpCtx, t: Bignum,
                    ghost a: int, ghost e: int)
    requires recp.Valid() && recp.N.Mag() > 0 && r !in {recp.N, recp.Nr} && r !in vals
    requires RecpAcc(r, t, start, a, e, recp.N.Mag()) && OddPowers(vals, a, recp.N.Mag())
    requires recp.Nr !in vals && wvalue % 2 == 1 && wvalue / 2 < |vals|
    requires t !in {r, recp.N, recp.Nr} && t !in vals
    modifies r, recp`shift, recp.Nr, t
    ensures recp.Valid() && RecpAcc(r, t, false, a, e * P2(wend + 1) + wvalue, recp.N.Mag())
  {
    hide Val, Bignum.Mag, Power, Times, P2, OddPowers;
    ghost var n := recp.N.Mag();
    RecpSquares(r, start, wend + 1, recp, t, a, e);
    TableEntry(vals, a, n, wvalue / 2);
    ghost var x := r.Mag();
    var v := vals[wvalue / 2];
    MulRecip(r, r, v, recp, t);
    PowerTimes(x, v.Mag(), a, e * P2(wend + 1), wvalue, n, r.Mag());
  }

  /** The main loop: the accumulator is a to the prefix of p scanned so far. */
  method RecpLoop(r: Bignum, p: Bignum, bits: nat, window: nat, vals: seq<Bignum>, recp: RecpCtx, t: Bignum,
                  ghost a: int)
    requires recp.Valid() && recp.N.Mag() > 0 && r.Wf() && r !in {recp.N, recp.Nr} && r !in vals
    requires p.Valid() && HasBits(p.Mag(), bits) && bits > 0 && p != r && p != recp.Nr
    requires 1 <= window <= 6 && |vals| == P2(window - 1)
    requires recp.Nr !in vals && OddPowers(vals, a, recp.N.Mag())
    requires t !in {r, recp.N, recp.Nr} && t !in vals && t != p && t.Wf()
    modifies r, recp`shift, recp.Nr, t
    ensures recp.Valid() && NonNeg(r) && r.Mag() < recp.N.Mag()
    ensures Power(r.Mag(), a, p.Mag(), recp.N.Mag())
  {
    hide Val, Bignum.Mag, Power, P2, OddPowers, BitOf, Prefix;
    ghost var n := recp.N.Mag();
    var start, wstart: int := true, bits - 1;
    PrefixEnds(p.Mag(), bits);
    PowerOne(a, n);
    SetWord(r, 1);
    while wstart >= 0
      invariant -1 <= wstart < bits && recp.Valid()
      invariant RecpAcc(r, t, start, a, Prefix(p.Mag(), wstart), n)
      invariant start ==> wstart == bits - 1
    {
      start, wstart := RecpStep(r, start, p, wstart, window, vals, recp, t, a);
    }
  }

  /** A zero bit, or the window that starts at a set bit. */
  method RecpStep(r: Bignum, start: bool, p: Bignum, wstart: nat, window: nat, vals: seq<Bignum>, recp: RecpCtx,
                  t: Bignum, ghost a: int)
    returns (start': bool, wstart': int)
    requires recp.Valid() && recp.N.Mag() > 0 && r !in {recp.N, recp.Nr} && r !in vals
    requires p.Valid() && p != r && p != recp.Nr && (start ==> BitOf(p.Mag(), wstart))
    requires 1 <= window <= 6 && |vals| == P2(window - 1)
    requires recp.Nr !in vals && OddPowers(vals, a, recp.N.Mag())
    requires RecpAcc(r, t, start, a, Prefix(p.Mag(), wstart), recp.N.Mag())
    requires t !in {r, recp.N, recp.Nr} && t !in vals && t != p
    modifies r, recp`shift, recp.Nr, t
    ensures -1 <= wstart' < wstart && recp.Valid() && !start'
    ensures RecpAcc(r, t, start', a, Prefix(p.Mag(), wstart'), recp.N.Mag())
  {
    hide Val, Bignum.Mag, Power, P2, OddPowers, BitOf, Prefix, Scanned, RecpAcc;
    ghost var e := Prefix(p.Mag(), wstart);
    var bit := IsBitSet(p, wstart);
    if !bit {
      ZeroBit(p.Mag(), wstart);
      OneSquare(e);
      RecpSquares(r, start, 1, recp, t, a, e);
      return start, wstart - 1;
    }
    var wvalue, wend := ScanWindow(p, wstart, window);
    TableIndex(wvalue, window);
    WindowDone(p.Mag(), wstart, wend, wvalue);
    RecpWindow(r, start, wvalue, wend, vals, recp, t, a, e);
    return false, wstart - (wend + 1);
  }

  /** BN_mod_exp_recp; r must not be p. For p = 0 the result is 1 even modulo 1. */
  method ModExpRecp(r: Bignum, a: Bignum, p: Bignum, m: Bignum) returns (ok: bool)
    requires r.Wf() && a.Valid() && p.Valid() && m.Valid() && r != p
    modifies r
    ensures p.Mag() == 0 ==> ok && r.Valid() && r.Value() == 1
    ensures p.Mag() != 0 ==> (ok <==> old(m.Mag()) != 0)
    ensures p.Mag() != 0 && ok ==> NonNeg(r) && r.Value() == Pow(old(a.Value()), p.Mag()) % old(m.Mag())
  {
    hide Val, Bignum.Mag, P2, HasBits, Pow;
    var bits := NumBits(p);
    ZeroBits(p.Mag(), bits);
    if bits == 0 {
      SetWord(r, 1);
      return true;
    }
    ok := RecpNonzero(r, a, p, m, bits);
  }

  /** BN_mod_exp_recp for a nonzero exponent. */
  method RecpNonzero(r: Bignum, a: Bignum, p: Bignum, m: Bignum, bits: nat) returns (ok: bool)
    requires r.Wf() && a.Valid() && p.Valid() && m.Valid()
    requires r != p && HasBits(p.Mag(), bits) && p.Mag() > 0 && bits > 0
    modifies r
    ensures ok <==> old(m.Mag()) != 0
    ensures ok ==> NonNeg(r) && r.Value() == Pow(old(a.Value()), p.Mag()) % old(m.Mag())
  {
    hide Val, Bignum.Mag, P2, HasBits, Pow;
    ghost var x, e, n := a.Value(), p.Mag(), m.Mag();
    var recp := new RecpCtx();
    SetPositive(recp, m);
    var v0 := new Bignum();
    ok := ReduceBase(v0, a, m, e);
    if !ok { return; }
    ZeroMag(v0);
    if IsZero(v0) {
      SetWord(r, 0);
      return;
    }
    RecpPower(r, v0, p, bits, recp);
    PowerFound(r.Mag(), v0.Mag(), x, e, n);
  }

  /** BN_RECP_CTX_set, the sign of m ignored. */
  method SetPositive(recp: RecpCtx, m: Bignum)
    requires recp.N != recp.Nr && recp.N.Wf() && recp.Nr.Wf() && m.Valid() && m != recp.N && m != recp.Nr
    modifies recp, recp.N, recp.Nr
    ensures recp.Valid() && recp.N.Mag() == m.Mag()
  {
    hide Val, Bignum.Mag, P2, HasBits;
    if m.neg {
      var aa := new Bignum.Temp();
      Copy(aa, m);
      aa.neg := false;
      RecpCtxSet(recp, aa);
    } else {
      RecpCtxSet(recp, m);
    }
  }

  /** The table and the main loop for the reduced base v0. */
  method RecpPower(r: Bignum, v0: Bignum, p: Bignum, bits: nat, recp: RecpCtx)
    requires recp.Valid() && recp.N.Mag() > 0 && r.Wf() && NonNeg(v0) && p.Valid() && HasBits(p.Mag(), bits) && bits > 0
    requires r != p && r != v0 && {r, v0, p} !! {recp.N, recp.Nr} && v0.Mag() > 0
    modifies r, recp`shift, recp.Nr
    ensures NonNeg(r) && r.Mag() < recp.N.Mag() && Power(r.Mag(), v0.Mag(), p.Mag(), recp.N.Mag())
  {
    hide Val, Bignum.Mag, P2, HasBits, Power, OddPowers;
    var window := WindowBits(bits);
    var t := new Bignum.Temp();
    var vals := RecpTable(v0, window, recp, t);
    RecpLoop(r, p, bits, window, vals, recp, t, v0.Mag());
  }
}
