/** BN_div and the macro BN_mod. */
module Division {
  import opened Words
  import opened Bits
  import opened Bignums
  import opened Ripple
  import opened Basics
  import opened Shift
  import opened LongDivision

  // ---------- the normalising shift

  /** The shift that makes the divisor fill its words makes its top bit the top bit of a word. */
  lemma NormalisedTop(d: int, b: nat, y: seq<Word>)
    requires HasBits(d, b) && b > 0
    requires Val(y) == d * P2(32 - b % 32) && (y != [] ==> y[|y| - 1] != 0)
    ensures y != [] && y[|y| - 1] >= 0x8000_0000
  {
    hide Val, P2, BP;
    var s := 32 - b % 32;
    var k := b / 32;
    P2Add(b - 1, s); P2Add(b, s);
    MulMono(P2(b - 1), d, P2(s)); MulMono(d + 1, P2(b), P2(s));
    Distribute(d, 1, P2(s));
    assert b + s == 32 * (k + 1);
    BPIsP2(k + 1); BPIsP2(k);
    P2Add(31, 32 * k); P2Bytes();
    assert 0x8000_0000 * BP(k) <= Val(y) < BP(k + 1);
    TopHalf(y, k);
  }

  lemma TopHalf(y: seq<Word>, k: nat)
    requires 0x8000_0000 * BP(k) <= Val(y) < BP(k + 1) && (y != [] ==> y[|y| - 1] != 0)
    ensures |y| == k + 1 && y[k] >= 0x8000_0000
  {
    hide Val;
    ValBound(y);
    if |y| <= k { BPMono(|y|, k); }
    TopWordNonzero(y);
    if |y| > k + 1 { BPMono(k + 1, |y| - 1); }
    LeadingOne(y);
    if y[k] < 0x8000_0000 { MulMono(y[k] + 1, 0x8000_0000, BP(k)); }
  }

  /** A number shifted by a word or more has a zero low word. */
  lemma LowWordZero(x: seq<Word>, k: int)
    requires x != [] && Val(x) == 0x1_0000_0000 * k
    ensures x[0] == 0
  {
    LowWord(x);
  }

  /** The shifted dividend is one word above the shifted divisor. */
  lemma ShiftedPair(m: int, d: int, s: nat)
    requires m >= d > 0
    ensures m * P2(s + 32) == 0x1_0000_0000 * (m * P2(s))
    ensures m * P2(s) >= d * P2(s) > 0
  {
    P2Add(s, 32); P2Bytes();
    MulMono(d, m, P2(s));
    MulMono(1, d, P2(s));
    ShiftWord(m, P2(s));
  }

  lemma ShiftWord(m: int, p: int)
    ensures m * (p * 0x1_0000_0000) == 0x1_0000_0000 * (m * p)
  {}

  lemma LongEnough(x: seq<Word>, y: seq<Word>)
    requires y != [] && y[|y| - 1] != 0 && Val(x) >= 0x1_0000_0000 * Val(y)
    ensures |x| > |y|
  {
    ValBound(x);
    TopWordNonzero(y);
    if |x| <= |y| { BPMono(|x|, |y|); }
  }

  // ---------- quotient and remainder

  /** The digits are those of the quotient and the last window is the remainder, shifted. */
  lemma QuotientFromDigits(m: int, d: int, p: int, q: int, v: int)
    requires d > 0 && p > 0 && m * p == v + Times(q, d * p) && 0 <= v < d * p
    ensures q == m / d && v == (m % d) * p
  {
    FactorOut(m, q, d, p);
    var r := m - q * d;
    if r < 0 { MulMono(r, -1, p); }
    if r >= d { MulMono(d, r, p); }
    QuotientUnique(m, d, q, r);
  }

  lemma FactorOut(m: int, q: int, d: int, p: int)
    ensures (m - q * d) * p == m * p - Times(q, d * p)
  {}

  lemma Unshift(r: int, s: nat)
    ensures Shr(0x1_0000_0000 * (r * P2(s)), s + 32) == r
  {
    P2Add(s, 32); P2Bytes();
    ShiftWord(r, P2(s));
    QuotientUnique(r * P2(s + 32), P2(s + 32), r, 0);
  }

  /** The stored digits have no leading zero: x, the shifted dividend without its low word,
      and the shifted divisor y are both normalised. */
  lemma DigitsNormalised(x: seq<Word>, y: seq<Word>, loop: nat, digits: seq<Word>, v: int)
    requires y != [] && loop > 0 && |x| == loop - 1 + |y| && x[|x| - 1] != 0
    requires loop - 1 <= |digits| <= loop && (|digits| == loop ==> digits[loop - 1] == 1)
    requires Val(x) == v + Times(Val(digits), Val(y)) && 0 <= v < Val(y) <= Val(x)
    ensures digits != [] && digits[|digits| - 1] != 0
  {
    hide Val, Times;
    var k := |digits|;
    TimesSmall(Val(y));
    if k == 0 { NoWords(); }
    if k == loop { return; }
    TopWordNonzero(x);
    BPAdd(k - 1, |y|);
    ValBound(y);
    ManyDigits(Val(digits), Val(y), v, BP(k - 1), BP(|y|), Val(x));
    TopWordNonzero(digits);
  }

  lemma ManyDigits(q: int, d: int, v: int, b: int, p: int, x: int)
    requires x == v + Times(q, d) && 0 <= v < d < p && b * p <= x && d > 0 && b > 0
    ensures q >= b
  {
    if q < b {
      MulMono(q + 1, b, d);
      Distribute(q, 1, d);
      MulMono(d, p, b);
      Commute(d, b); Commute(p, b);
    }
  }

  // ---------- BN_div

  /** The division of the shifted operands. */
  method DivShifted(dv: Bignum, snum: Bignum, sdiv: Bignum, tmp: Bignum, ghost m: int, ghost d: int, ghost s: nat)
    requires snum != sdiv && snum != tmp && sdiv != tmp && dv != snum && dv != sdiv && dv != tmp
    requires dv.Wf() && tmp.Wf() && snum.Valid() && sdiv.Valid() && m >= d > 0
    requires snum.Mag() == m * P2(s + 32) && sdiv.Mag() == d * P2(s)
    requires sdiv.top > 0 && sdiv.d[sdiv.top - 1] >= 0x8000_0000
    modifies dv, snum, tmp
    ensures dv.Valid() && dv.top > 0 && dv.Mag() == m / d && dv.neg == old(dv.neg)
    ensures snum.Wf() && snum.Mag() == 0x1_0000_0000 * ((m % d) * P2(s)) && snum.neg == old(snum.neg)
  {
    hide Val, P2, Bignum.Mag, Times, Divided;
    ghost var x, y := snum.d[..snum.top], sdiv.d[..sdiv.top];
    MagIs(snum); MagIs(sdiv);
    ShiftedPair(m, d, s);
    LongEnough(x, y);
    LowWordZero(x, m * P2(s));
    var n := sdiv.top;
    var loop := snum.top - n;
    WExpand(dv, loop + 1);
    WExpand(tmp, n + 1);
    ghost var v := DivideWords(dv, snum, sdiv, tmp, loop, n);
    ghost var digits := dv.d[..dv.top];
    DividedIs(x, v, digits, Val(y), m * P2(s));
    DigitsNormalised(x[1..], y, loop, digits, v);
    QuotientFromDigits(m, d, P2(s), Val(digits), v);
    MagIs(dv); MagIs(snum);
    ghost var w := snum.d[..snum.top];
    LowWord(w);
    assert w[1..] == snum.d[1..snum.top];
  }

  lemma DividedIs(x: seq<Word>, v: int, digits: seq<Word>, vv: int, k: int)
    requires x != [] && x[0] == 0 && Divided(x, 1, v, digits, vv) && Val(x) == 0x1_0000_0000 * k
    ensures Val(x[1..]) == v + Times(Val(digits), vv) == k
  {
    LowWord(x);
  }

  /** The part of BN_div for a dividend not below the divisor. */
  method DivLarge(dv: Bignum, rm: Bignum, num: Bignum, divisor: Bignum)
    requires dv.Wf() && rm.Wf() && num.Valid() && divisor.Valid() && dv != rm
    requires num.Mag() >= divisor.Mag() > 0
    modifies dv, rm
    ensures dv.Valid() && dv.top > 0 && dv.Mag() == old(num.Mag()) / old(divisor.Mag())
    ensures dv.neg == (old(num.neg) != old(divisor.neg))
    ensures rm.Valid() && rm.Mag() == old(num.Mag()) % old(divisor.Mag())
    ensures rm.neg == (rm.top > 0 && if dv == num then dv.neg else old(num.neg))
  {
    hide Val, P2, Shr, Bignum.Mag;
    ghost var m, d := num.Mag(), divisor.Mag();
    var tmp := new Bignum.Temp();
    var snum := new Bignum.Temp();
    var sdiv := new Bignum.Temp();
    var shift := Normalise(snum, sdiv, num, divisor);
    dv.neg := num.neg != divisor.neg;
    DivShifted(dv, snum, sdiv, tmp, m, d, shift);
    Remainder(rm, snum, num.neg, shift + 32, m % d);
  }

  /** The remainder is shifted back; it takes the sign of the dividend unless it is zero. */
  method Remainder(rm: Bignum, snum: Bignum, neg: bool, s: nat, ghost r: int)
    requires rm.Wf() && snum.Wf() && rm != snum && !snum.neg && s >= 32
    requires snum.Mag() == 0x1_0000_0000 * (r * P2(s - 32))
    modifies rm
    ensures rm.Valid() && rm.Mag() == r && rm.neg == (rm.top > 0 && neg)
  {
    hide Val, P2, Shr, Bignum.Mag;
    Unshift(r, s - 32);
    Rshift(rm, snum, s);
    ZeroMag(rm);
    if !IsZero(rm) { rm.neg := neg; }
  }

  /** Both operands shifted so that the divisor's top bit is set, the dividend by a word more. */
  method Normalise(snum: Bignum, sdiv: Bignum, num: Bignum, divisor: Bignum) returns (shift: nat)
    requires snum != sdiv && snum != num && snum != divisor && sdiv != num && sdiv != divisor
    requires snum.Wf() && sdiv.Wf() && num.Valid() && divisor.Valid() && divisor.Mag() > 0
    modifies snum, sdiv
    ensures snum.Valid() && !snum.neg && snum.Mag() == num.Mag() * P2(shift + 32)
    ensures sdiv.Valid() && !sdiv.neg && sdiv.Mag() == divisor.Mag() * P2(shift)
    ensures sdiv.top > 0 && sdiv.d[sdiv.top - 1] >= 0x8000_0000
  {
    hide Val, P2, Bignum.Mag, HasBits;
    var bits := NumBits(divisor);
    shift := 32 - bits % 32;
    Lshift(sdiv, divisor, shift);
    sdiv.neg := false;
    Lshift(snum, num, shift + 32);
    snum.neg := false;
    ZeroMag(divisor);
    MagIs(sdiv);
    NormalisedTop(divisor.Mag(), bits, sdiv.d[..sdiv.top]);
  }

  /** The equation that documents BN_div: quotient times divisor and the remainder give the dividend. */
  ghost predicate DivisionHolds(q: int, d: int, r: int, m: int) { q * d + r == m }

  /** BN_div with both results wanted: truncated quotient and the remainder with the sign of the dividend. */
  method Div(dv: Bignum, rm: Bignum, num: Bignum, divisor: Bignum) returns (ok: bool)
    requires dv.Wf() && rm.Wf() && num.Valid() && divisor.Valid() && dv != rm
    modifies dv, rm
    ensures ok <==> old(divisor.Mag()) != 0
    ensures !ok ==> unchanged(dv) && unchanged(rm)
    ensures ok ==> dv.Valid() && dv.Mag() == old(num.Mag()) / old(divisor.Mag())
    ensures ok ==> dv.neg == (dv.top > 0 && old(num.neg) != old(divisor.neg))
    ensures ok ==> rm.Valid() && rm.Mag() == old(num.Mag()) % old(divisor.Mag())
    ensures ok && dv != num ==> rm.neg == (old(num.neg) && (rm.top > 0 || old(num.top) == 0))
    ensures ok && dv == num ==> rm.neg == if dv.top > 0 then rm.top > 0 && dv.neg else old(num.neg)
    ensures ok ==>
      (DivisionHolds(dv.Value(), old(divisor.Value()), rm.Value(), old(num.Value()))
       <==> dv != num || !old(divisor.neg) ||
            old(num.Mag()) < old(divisor.Mag()) || old(num.Mag()) % old(divisor.Mag()) == 0)
  {
    hide Val, Bignum.Mag;
    ZeroMag(num); ZeroMag(divisor);
    if IsZero(divisor) { return false; }
    ghost var m, d := num.Mag(), divisor.Mag();
    ghost var nm, nd := num.neg, divisor.neg;
    var c := Ucmp(num, divisor);
    if c < 0 {
      QuotientUnique(m, d, 0, m);
      Copy(rm, num);
      SetWord(dv, 0);
      SignedDivision(m, d, nm, nd, 0, rm.Value());
      return true;
    }
    DivLarge(dv, rm, num, divisor);
    ZeroMag(rm);
    InPlaceSign(m, d, nm, nd, rm.neg, dv.Value(), rm.Value());
    return true;
  }

  /** The division identity when the remainder is given the sign nr: it holds exactly if that is the
      sign of the dividend or the remainder is zero. */
  lemma InPlaceSign(m: int, d: int, nm: bool, nd: bool, nr: bool, q: int, r: int)
    requires m >= 0 && d > 0
    requires q == (if nm != nd then -(m / d) else m / d) && r == if nr then -(m % d) else m % d
    ensures DivisionHolds(q, if nd then -d else d, r, if nm then -m else m) <==> nr == nm || m % d == 0
  {
    SignedDivision(m, d, nm, nd, q, if nm then -(m % d) else m % d);
    QuotientBounds(m, d);
  }

  lemma SignedDivision(m: int, d: int, nm: bool, nd: bool, q: int, r: int)
    requires m >= 0 && d > 0
    requires q == (if nm != nd then -(m / d) else m / d) && r == if nm then -(m % d) else m % d
    ensures DivisionHolds(q, if nd then -d else d, r, if nm then -m else m)
  {
    QuotientBounds(m, d);
  }

  /** 7 divided in place by -2: the quotient is -3, but the remainder -1 and not 1. */
  method SevenByMinusTwo() returns (num: Bignum, rm: Bignum)
    ensures num.Valid() && rm.Valid() && num.Value() == -3 && rm.Value() == -1
    ensures !DivisionHolds(num.Value(), -2, rm.Value(), 7)
  {
    num := new Bignum();
    rm := new Bignum();
    var divisor := new Bignum();
    SetWord(num, 7);
    SetWord(divisor, 2);
    divisor.neg := true;
    var ok := Div(num, rm, num, divisor);
    ZeroMag(num); ZeroMag(rm);
  }

  /** BN_mod: BN_div without a quotient. */
  method Mod(rm: Bignum, num: Bignum, divisor: Bignum) returns (ok: bool)
    requires rm.Wf() && num.Valid() && divisor.Valid()
    modifies rm
    ensures ok <==> old(divisor.Mag()) != 0
    ensures !ok ==> unchanged(rm)
    ensures ok ==> rm.Valid() && rm.Mag() == old(num.Mag()) % old(divisor.Mag())
    ensures ok ==> rm.neg == (old(num.neg) && (rm.top > 0 || old(num.top) == 0))
  {
    var dv := new Bignum.Temp();
    ok := Div(dv, rm, num, divisor);
  }

  /** BN_div without a remainder; the quotient may overwrite the dividend. */
  method Quotient(dv: Bignum, num: Bignum, divisor: Bignum) returns (ok: bool)
    requires dv.Wf() && num.Valid() && divisor.Valid()
    modifies dv
    ensures ok <==> old(divisor.Mag()) != 0
    ensures !ok ==> unchanged(dv)
    ensures ok ==> dv.Valid() && dv.Mag() == old(num.Mag()) / old(divisor.Mag())
    ensures ok ==> dv.neg == (dv.top > 0 && old(num.neg) != old(divisor.neg))
  {
    var rm := new Bignum.Temp();
    ok := Div(dv, rm, num, divisor);
  }
}
