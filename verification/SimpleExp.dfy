/** BN_mod_exp_simple: sliding windows over BN_mod_mul. */
module SimpleExp {
  import opened Words
  import opened Bits
  import opened Bignums
  import opened Basics
  import opened Modular
  import opened Windows
  import opened ExpBase

  /** BN_mod_mul of two non-negative numbers; t is its temporary, always the same one. It has no stale
      minus sign once something has been multiplied, so the squares of zero come out right. */
  method MulMod(r: Bignum, a: Bignum, b: Bignum, m: Bignum, t: Bignum)
    requires r.Wf() && a.Valid() && a.Value() >= 0 && b.Valid() && b.Value() >= 0 && m.Valid() && m.Mag() > 0 && t.Wf()
    requires r != m && t !in {r, a, b, m} && (a == b && t.neg ==> a.Mag() > 0)
    modifies r, t
    ensures NonNeg(r) && r.Mag() == Times(old(a.Mag()), old(b.Mag())) % m.Mag()
    ensures t.Wf() && !t.neg
  {
    hide Val, Bignum.Mag;
    ModAbs(a.Value() * b.Value(), m.Value());
    var ok := ModMul(r, a, b, m, t);
  }

  /** The table of odd powers of v0. */
  method SimpleTable(v0: Bignum, window: nat, m: Bignum, t: Bignum) returns (vals: seq<Bignum>)
    requires 1 <= window <= 6 && NonNeg(v0) && v0.Mag() > 0 && m.Valid() && m.Mag() > 0 && t.Wf() && t != v0 && t != m
    modifies t
    ensures t.Wf() && |vals| == P2(window - 1) && vals[0] == v0
    ensures forall i | 0 < i < |vals| :: fresh(vals[i])
    ensures OddPowers(vals, v0.Mag(), m.Mag())
  {
    hide Val, Bignum.Mag, Power, Times, OddPowers;
    ghost var a, n := v0.Mag(), m.Mag();
    PowerSelf(a, n);
    vals := [v0];
    FirstEntry(v0, a, n);
    if window > 1 {
      var d := new Bignum.Temp();
      MulMod(d, v0, v0, m, t);
      PowerTimes(a, a, a, 1, 1, n, d.Mag());
      var i, j := 1, P2(window - 1);
      while i < j
        invariant |vals| == i <= j && vals[0] == v0 && t.Wf()
        invariant forall k | 0 < k < |vals| :: fresh(vals[k])
        invariant t !in vals && d !in vals && NonNeg(d) && Power(d.Mag(), a, 2, n)
        invariant OddPowers(vals, a, n)
        modifies t
      {
        var v := SimpleEntry(vals, d, m, t, a);
        TableSnoc(vals, v, a, n);
        vals := vals + [v];
        i := i + 1;
      }
    }
  }

  /** val[i] = val[i-1] * a^2 */
  method SimpleEntry(vals: seq<Bignum>, d: Bignum, m: Bignum, t: Bignum, ghost a: int) returns (v: Bignum)
    requires m.Valid() && m.Mag() > 0 && vals != [] && OddPowers(vals, a, m.Mag())
    requires t.Wf() && t !in vals && t != d && t != m && d !in vals
    requires NonNeg(d) && Power(d.Mag(), a, 2, m.Mag())
    modifies t
    ensures t.Wf() && fresh(v) && NonNeg(v) && Power(v.Mag(), a, 2 * |vals| + 1, m.Mag())
  {
    hide Val, Bignum.Mag, Power, Times, OddPowers;
    ghost var i, n := |vals| - 1, m.Mag();
    var last := vals[|vals| - 1];
    TableEntry(vals, a, n, i);
    v := new Bignum();
    MulMod(v, last, d, m, t);
    PowerTimes(last.Mag(), d.Mag(), a, 2 * i + 1, 2, n, v.Mag());
  }

  // ---------- the main loop

  /** r holds a^e, or 1 while nothing has been multiplied in; from then on t has no minus sign. */
  ghost predicate SimpleAcc(r: Bignum, t: Bignum, start: bool, a: int, e: int, n: int)
    requires n > 0
    reads r, t
  {
    && NonNeg(r) && t.Wf() && Power(r.Mag(), a, e, n)
    && (if start then e == 0 && r.Mag() == 1 else r.Mag() < n && !t.neg)
  }

  /** Squares the accumulator j times, unless it is still 1. */
  method SimpleSquares(r: Bignum, start: bool, j: nat, m: Bignum, t: Bignum, ghost a: int, ghost e: int)
    requires m.Valid() && m.Mag() > 0 && r != m && t != r && t != m && SimpleAcc(r, t, start, a, e, m.Mag())
    modifies r, t
    ensures SimpleAcc(r, t, start, a, e * P2(j), m.Mag())
  {
    hide Val, Bignum.Mag, Power, Times, P2;
    ghost var n, f := m.Mag(), e;
    var i := 0;
    SquaresNone(e, i, j);
    if !start {
      while i < j
        invariant 0 <= i <= j && SimpleAcc(r, t, start, a, f, n) && f == e * P2(i)
      {
        ghost var x := r.Mag();
        MulMod(r, r, r, m, t);
        PowerTimes(x, x, a, f, f, n, r.Mag());
        DoublePower(e, i);
        f, i := f + f, i + 1;
      }
    }
  }

  /** One window: the squarings, and the multiplication by the odd power. */
  method SimpleWindow(r: Bignum, start: bool, wvalue: nat, wend: nat, vals: seq<Bignum>,
                    m: Bignum, t: Bignum,
                      ghost a: int, ghost e: int)
    requires m.Valid() && m.Mag() > 0 && r != m && t != r && t != m && r !in vals && t !in vals
    requires SimpleAcc(r, t, start, a, e, m.Mag()) && OddPowers(vals, a, m.Mag())
    requires wvalue % 2 == 1 && wvalue / 2 < |vals|
    modifies r, t
    ensures SimpleAcc(r, t, false, a, e * P2(wend + 1) + wvalue, m.Mag())
  {
    hide Val, Bignum.Mag, Power, Times, P2, OddPowers;
    ghost var n := m.Mag();
    SimpleSquares(r, start, wend + 1, m, t, a, e);
    TableEntry(vals, a, n, wvalue / 2);
    ghost var x := r.Mag();
    var v := vals[wvalue / 2];
    MulMod(r, r, v, m, t);
    PowerTimes(x, v.Mag(), a, e * P2(wend + 1), wvalue, n, r.Mag());
  }

  /** The main loop: the accumulator is a to the prefix of p scanned so far. */
  method SimpleLoop(r: Bignum, p: Bignum, bits: nat, window: nat, vals: seq<Bignum>, m: Bignum, t: Bignum, ghost a: int)
    requires m.Valid() && m.Mag() > 0 && r.Wf() && t.Wf() && r != m && t != r && t != m && r !in vals && t !in vals
    requires p.Valid() && HasBits(p.Mag(), bits) && bits > 0 && p != r && p != t
    requires 1 <= window <= 6 && |vals| == P2(window - 1) && OddPowers(vals, a, m.Mag())
    modifies r, t
    ensures NonNeg(r) && r.Mag() < m.Mag() && Power(r.Mag(), a, p.Mag(), m.Mag())
  {
    hide Val, Bignum.Mag, Power, P2, OddPowers, BitOf, Prefix;
    ghost var n := m.Mag();
    var start, wstart: int := true, bits - 1;
    PrefixEnds(p.Mag(), bits);
    PowerOne(a, n);
    SetWord(r, 1);
    while wstart >= 0
      invariant -1 <= wstart < bits
      invariant SimpleAcc(r, t, start, a, Prefix(p.Mag(), wstart), n)
      invariant start ==> wstart == bits - 1
    {
      start, wstart := SimpleStep(r, start, p, wstart, window, vals, m, t, a);
    }
  }

  /** A zero bit, or the window that starts at a set bit. */
  method SimpleStep(r: Bignum, start: bool, p: Bignum, wstart: nat, window: nat, vals: seq<Bignum>,
                    m: Bignum, t: Bignum, ghost a: int)
    returns (start': bool, wstart': int)
    requires m.Valid() && m.Mag() > 0 && r != m && t != r && t != m && r !in vals && t !in vals
    requires p.Valid() && p != r && p != t && (start ==> BitOf(p.Mag(), wstart))
    requires 1 <= window <= 6 && |vals| == P2(window - 1) && OddPowers(vals, a, m.Mag())
    requires SimpleAcc(r, t, start, a, Prefix(p.Mag(), wstart), m.Mag())
    modifies r, t
    ensures -1 <= wstart' < wstart && !start'
    ensures SimpleAcc(r, t, start', a, Prefix(p.Mag(), wstart'), m.Mag())
  {
    hide Val, Bignum.Mag, Power, P2, OddPowers, BitOf, Prefix, Scanned, SimpleAcc;
    ghost var e := Prefix(p.Mag(), wstart);
    var bit := IsBitSet(p, wstart);
    if !bit {
      ZeroBit(p.Mag(), wstart);
      OneSquare(e);
      SimpleSquares(r, start, 1, m, t, a, e);
      return start, wstart - 1;
    }
    var wvalue, wend := ScanWindow(p, wstart, window);
    TableIndex(wvalue, window);
    WindowDone(p.Mag(), wstart, wend, wvalue);
    SimpleWindow(r, start, wvalue, wend, vals, m, t, a, e);
    return false, wstart - (wend + 1);
  }

  /** BN_mod_exp_simple; r must be neither p nor m. For p = 0 the result is 1 even modulo 1. */
  method ModExpSimple(r: Bignum, a: Bignum, p: Bignum, m: Bignum) returns (ok: bool)
    requires r.Wf() && a.Valid() && p.Valid() && m.Valid() && r != p && r != m
    modifies r
    ensures p.Mag() == 0 ==> ok && r.Valid() && r.Value() == 1
    ensures p.Mag() != 0 ==> (ok <==> m.Mag() != 0)
    ensures p.Mag() != 0 && ok ==> NonNeg(r) && r.Value() == Pow(old(a.Value()), p.Mag()) % m.Mag()
  {
    hide Val, Bignum.Mag, P2, HasBits, Pow;
    var bits := NumBits(p);
    ZeroBits(p.Mag(), bits);
    if bits == 0 {
      SetWord(r, 1);
      return true;
    }
    ghost var x := a.Value();
    var v0 := new Bignum();
    ok := ReduceBase(v0, a, m, p.Mag());
    if !ok { return; }
    ZeroMag(v0);
    if IsZero(v0) {
      SetWord(r, 0);
      return;
    }
    SimplePower(r, v0, p, bits, m);
    PowerFound(r.Mag(), v0.Mag(), x, p.Mag(), m.Mag());
  }

  /** The table and the main loop for the reduced base v0. */
  method SimplePower(r: Bignum, v0: Bignum, p: Bignum, bits: nat, m: Bignum)
    requires m.Valid() && m.Mag() > 0 && r.Wf() && NonNeg(v0) && v0.Mag() > 0
    requires p.Valid() && HasBits(p.Mag(), bits) && bits > 0
    requires r != p && r != v0 && r != m
    modifies r
    ensures NonNeg(r) && r.Mag() < m.Mag() && Power(r.Mag(), v0.Mag(), p.Mag(), m.Mag())
  {
    hide Val, Bignum.Mag, P2, HasBits, Power, OddPowers;
    var window := WindowBits(bits);
    var t := new Bignum.Temp();
    var vals := SimpleTable(v0, window, m, t);
    SimpleLoop(r, p, bits, window, vals, m, t, v0.Mag());
  }
}
