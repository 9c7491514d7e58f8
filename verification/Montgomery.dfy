/** bn_mont.c: Montgomery reduction word by word, and its context. */
module Montgomery {
  import opened Words
  import opened Bits
  import opened Bignums
  import opened WordLoops
  import opened Ripple
  import opened Basics
  import opened AddSub
  import opened Products
  import opened Shift
  import opened Division
  import opened WordOps
  import opened Divisors
  import opened Inverse
  import opened Residues

  /** BN_MONT_CTX */
  class MontCtx {
    const N: Bignum
    const RR: Bignum
    var ri: nat
    var n0: Word

    /** BN_MONT_CTX_init: an empty context; n0 is left unset. */
    constructor ()
      ensures fresh(N) && fresh(RR) && N != RR && N.Valid() && RR.Valid()
      ensures N.Value() == 0 && RR.Value() == 0 && ri == 0 && Empty()
    {
      N := new Bignum();
      RR := new Bignum();
      ri := 0;
    }

    /** No modulus has been set: BN_from_montgomery then does nothing, and reports success. */
    predicate Empty()
      reads this, N
    {
      ri < 32 || N.top == 0
    }

    /** n0 is -1/N modulo the word size, ri is the number of bits of R. */
    ghost predicate Ready()
      reads this, N
      ensures Ready() ==> !Empty()
    {
      && NonNeg(N) && N.top > 0 && ri == 32 * N.top
      && (N.d[0] * n0 + 1) % 0x1_0000_0000 == 0
    }

    /** RR is R^2 modulo N. */
    ghost predicate Valid()
      reads this, N, RR
    {
      && N != RR && Ready() && NonNeg(RR)
      && 0 <= RR.Mag() < N.Mag() && RR.Mag() == P2(2 * ri) % N.Mag()
    }
  }

  // ---------- one pass of the reduction

  /** r holds a plus a multiple of N below R; its low i words are zero. */
  ghost predicate Reducing(y: seq<Word>, i: nat, a: int, m: int, n: int) {
    i <= |y| && Val(y[..i]) == 0 && Val(y) == a + Times(m, n) && 0 <= m < BP(i)
  }

  /** The factor (rp[0]*n0) & BN_MASK2 makes the low word vanish. */
  lemma LowWordVanishes(w: Word, x0: Word, n0: Word, m: Word)
    requires (x0 * n0 + 1) % 0x1_0000_0000 == 0 && m == Trunc(w * n0)
    ensures (w + x0 * m) % 0x1_0000_0000 == 0
  {
    var b := 0x1_0000_0000;
    QuotientBounds(w * n0, b); QuotientBounds(x0 * n0 + 1, b);
    var j, k := (w * n0) / b, (x0 * n0 + 1) / b;
    Vanish(w, x0, n0, m, j, k);
    QuotientUnique(w + x0 * m, b, w * k - x0 * j, 0);
  }

  lemma Vanish(w: int, x0: int, n0: int, m: int, j: int, k: int)
    requires w * n0 == j * 0x1_0000_0000 + m && x0 * n0 + 1 == k * 0x1_0000_0000
    ensures w + x0 * m == (w * k - x0 * j) * 0x1_0000_0000
  {
    assert x0 * (w * n0) == w * (x0 * n0);
    assert x0 * (j * 0x1_0000_0000 + m) == (x0 * j) * 0x1_0000_0000 + x0 * m;
    assert w * (k * 0x1_0000_0000) == (w * k) * 0x1_0000_0000;
  }

  /** The lowest word of z when z plus its carry is y + x * m. */
  lemma LowestWord(z: seq<Word>, v: Word, x: seq<Word>, y: seq<Word>, m: Word)
    requires |z| == |x| == |y| > 0 && Scaled(z, v, x, m, Val(y)) && (y[0] + x[0] * m) % 0x1_0000_0000 == 0
    ensures z[0] == 0
  {
    hide Val;
    LowWord(z); LowWord(x); LowWord(y);
    assert BP(|z|) == 0x1_0000_0000 * BP(|z| - 1);
    LowestDigit(z[0], Val(z[1..]), v, BP(|z| - 1), x[0], Val(x[1..]), m, y[0], Val(y[1..]));
  }

  lemma LowestDigit(z: Word, z': int, v: int, p: int, x: int, x': int, m: int, y: int, y': int)
    requires z + 0x1_0000_0000 * z' + v * (0x1_0000_0000 * p) == (x + 0x1_0000_0000 * x') * m + (y + 0x1_0000_0000 * y')
    requires (y + x * m) % 0x1_0000_0000 == 0
    ensures z == 0
  {
    QuotientBounds(y + x * m, 0x1_0000_0000);
    var k := (y + x * m) / 0x1_0000_0000;
    assert (x + 0x1_0000_0000 * x') * m == x * m + 0x1_0000_0000 * (x' * m);
    assert v * (0x1_0000_0000 * p) == 0x1_0000_0000 * (v * p);
    assert z == 0x1_0000_0000 * (k + x' * m + y' - z' - v * p);
  }

  /** The words from i up after a pass: those of the pass and, with its carry added, those above. */
  lemma PassRest(y: seq<Word>, x: seq<Word>, m: Word, z1: seq<Word>, v: Word, rest: int, hi': int)
    requires |x| == |z1| <= |y| && Scaled(z1, v, x, m, Val(y[..|x|])) && hi' == Val(y[|x|..]) + v
    requires rest == Val(z1) + BP(|x|) * hi'
    ensures rest == Val(y) + Times(Val(x), m)
  {
    hide Val;
    Halves(y, |x|);
    Commute(BP(|x|), v);
    DistributeLeft(BP(|x|), Val(y[|x|..]), v);
  }

  lemma DistributeLeft(p: int, a: int, b: int)
    ensures p * (a + b) == p * a + p * b
  {}

  /** The value after a pass, in parts: the words below i, the nl words from i and those above. */
  lemma PassValue(y: seq<Word>, i: nat, x: seq<Word>, m: Word, z1: seq<Word>, v: Word, z2: seq<Word>)
    requires i <= |y| && |x| == |z1| <= |y| - i && |z2| == |y| - i - |x|
    requires Scaled(z1, v, x, m, Val(y[i..][..|x|])) && Val(z2) == Val(y[i..][|x|..]) + v
    ensures Val(y[..i] + (z1 + z2)) == Val(y) + Times(BP(i), Times(Val(x), m))
  {
    hide Val, Scaled, Times;
    ValConcat(z1, z2);
    PassRest(y[i..], x, m, z1, v, Val(z1 + z2), Val(z2));
    Halves(y, i);
    ValConcat(y[..i], z1 + z2);
    PassTotal(BP(i), Val(y[..i]), Val(y[i..]), Val(z1 + z2), Times(Val(x), m), Val(y), Val(y[..i] + (z1 + z2)));
  }

  lemma PassTotal(p: int, low: int, rest: int, rest': int, xm: int, y: int, y': int)
    requires y == low + p * rest && y' == low + p * rest' && rest' == rest + xm
    ensures y' == y + Times(p, xm)
  {}

  /** There is room for the carry: the whole stays below 2*N*R. */
  lemma CarryFits(y: seq<Word>, i: nat, x: seq<Word>, m: Word, z1: seq<Word>, v: Word, a: int, k: int)
    requires i < |x| == |z1| && |y| == 2 * |x| + 1
    requires Scaled(z1, v, x, m, Val(y[i..][..|x|]))
    requires Reducing(y, i, a, k, Val(x)) && a < Times(Val(x), BP(|x|))
    ensures Val(y[i..][|x|..]) + v < BP(|y| - i - |x|)
  {
    hide Val, Scaled, Times;
    var n := |x|;
    var above := Val(y[i..][n..]) + v;
    PassRest(y[i..], x, m, z1, v, Val(z1) + BP(n) * above, above);
    Halves(y, i);
    BPAdd(i, n); BPAdd(n, n); BPAdd(i + n, |y| - i - n);
    ValBound(x);
    BPMono(i + 1, n);
    FactorBelow(k, m, BP(i), BP(n));
    TotalBelow(a, k, m, Val(x), BP(i), BP(n));
    RoomAbove(Val(y), BP(i), BP(n), Val(y[i..]), Times(Val(x), m), Val(z1), above, BP(|y| - i - n));
  }

  lemma FactorBelow(k: int, m: Word, p: int, r: int)
    requires 0 <= k < p && 0x1_0000_0000 * p <= r
    ensures 0 <= k + m * p < r
  {
    MulMono(m, 0xFFFF_FFFF, p);
    MulMono(0, m, p);
  }

  lemma TotalBelow(a: int, k: int, m: int, x: int, p: int, r: int)
    requires a < Times(x, r) && 0 <= k + m * p < r && 0 <= x < r
    ensures a + Times(k, x) + p * Times(x, m) < 2 * (r * r)
  {
    assert Times(k, x) + p * (x * m) == (k + m * p) * x;
    MulMono(k + m * p, r, x);
    MulMono(x, r, r);
    Commute(x, r);
  }

  /** The part of the total above p*r is less than the words there can hold. */
  lemma RoomAbove(y: int, p: int, r: int, rest: int, xm: int, low: int, above: int, top: int)
    requires y == p * rest && low + r * above == rest + xm && low >= 0
    requires y + p * xm < 2 * (r * r) && p > 0 && r > 0
    requires (p * r) * top == 0x1_0000_0000 * (r * r)
    ensures above < top
  {
    DistributeLeft(p, rest, xm); DistributeLeft(p, low, r * above);
    MulMono(0, low, p);
    TimesAssoc(p, r, above);
    if above >= top {
      MulPos(p, r); MulPos(r, r);
      MulMono(top, above, p * r);
      Commute(top, p * r); Commute(above, p * r);
    }
  }

  lemma TimesAssoc(p: int, r: int, a: int)
    ensures p * (r * a) == (p * r) * a
  {}

  lemma PassSlices(s: seq<Word>, i: nat, n: nat, max: nat, z1: seq<Word>, z2: seq<Word>)
    requires i + n <= max <= |s| && |z1| == n && |z2| == max - i - n
    ensures s[..max][i..][..n] == s[i..i + n] && s[..max][i..][n..] == s[i + n..max]
    ensures Splice(s, i, z1)[i + n..max] == s[i + n..max]
    ensures Splice(Splice(s, i, z1), i + n, z2)[..max] == s[..max][..i] + (z1 + z2)
  {
    SpliceKeeps(s, i, z1, i + n, max);
    var u, v := Splice(Splice(s, i, z1), i + n, z2)[..max], s[..max][..i] + (z1 + z2);
    assert |u| == |v|;
    forall k | 0 <= k < max ensures u[k] == v[k] {}
  }

  /** What the pass has added keeps the form a + k*N, with one zero word more. */
  lemma PassEnd(y: seq<Word>, i: nat, a: int, k: int, x: int, m: Word, y': seq<Word>)
    requires i < |y| == |y'| && Reducing(y, i, a, k, x) && y'[..i] == y[..i] && y'[i] == 0
    requires Val(y') == Val(y) + Times(BP(i), Times(x, m))
    ensures Reducing(y', i + 1, a, k + m * BP(i), x)
  {
    hide Val;
    ValTake(y', i);
    FactorBelow(k, m, BP(i), BP(i + 1));
    FactorSum(k, m, BP(i), x);
  }

  lemma FactorSum(k: int, m: int, p: int, x: int)
    ensures Times(k + m * p, x) == Times(k, x) + Times(p, Times(x, m))
  {
    assert (m * p) * x == p * (x * m);
  }

  /** One pass of BN_from_montgomery: a multiple of N is added so that word i becomes zero. */
  method ReductionPass(r: Bignum, n: Bignum, nl: nat, i: nat, n0: Word, ghost a: int, ghost k: int)
    returns (ghost k': int)
    requires r != n && i < nl <= |n.d| && 2 * nl + 1 <= |r.d| && (n.d[0] * n0 + 1) % 0x1_0000_0000 == 0
    requires Reducing(r.d[..2 * nl + 1], i, a, k, Val(n.d[..nl])) && a < Times(Val(n.d[..nl]), BP(nl))
    modifies r`d
    ensures |r.d| == old(|r.d|) && Reducing(r.d[..2 * nl + 1], i + 1, a, k', Val(n.d[..nl]))
  {
    hide Val, Scaled, Times, BP, Reducing;
    ghost var s, max, x := r.d, 2 * nl + 1, n.d[..nl];
    ghost var y := s[..max];
    assert n.d[0..0 + nl] == x;
    var m := Trunc(r.d[i] * n0);
    LowWordVanishes(r.d[i], x[0], n0, m);
    var v;
    ghost var z1, z2;
    v, z1 := MulAddWords(r, i, n, 0, nl, m);
    PassSlices(s, i, nl, max, z1, y[i..][nl..]);
    LowestWord(z1, v, x, y[i..][..nl], m);
    CarryFits(y, i, x, m, z1, v, a, k);
    z2 := AddWordAt(r, nl + i, max, v);
    PassSlices(s, i, nl, max, z1, z2);
    PassValue(y, i, x, m, z1, v, z2);
    PassEnd(y, i, a, k, Val(x), m, r.d[..max]);
    k' := k + m * BP(i);
  }

  // ---------- BN_from_montgomery

  /** Clears the words between the operand and max; a longer operand keeps its words. */
  method ClearTop(r: Bignum, max: nat)
    requires r.Wf() && r.top <= max < |r.d|
    modifies r`d, r`top
    ensures r.Wf() && r.top == max && r.Mag() == old(r.Mag())
  {
    hide Val, Bignum.Mag;
    MagIs(r);
    ghost var x := r.d[..r.top];
    ghost var z := ClearAbove(r, max);
    ValPad(x, max - |x|);
    r.top := max;
    MagIs(r);
  }

  /** ret := r >> ri, by copying words. */
  method CopyHigh(ret: Bignum, r: Bignum, x: nat)
    requires ret != r && ret.Wf() && r.Valid() && r.top < |ret.d| + x
    modifies ret`d, ret`top
    ensures ret.Valid() && ret.Mag() == Val(r.d[if r.top < x then r.top else x..r.top])
  {
    hide Val, Bignum.Mag;
    var al: nat := if r.top < x then 0 else r.top - x;
    ghost var y := r.d[r.top - al..r.top];
    ret.top := al;
    var i := 0;
    while i < al
      invariant i <= al && |ret.d| == old(|ret.d|) && ret.top == al
      invariant ret.d[..i] == y[..i]
    {
      ret.d := ret.d[i := r.d[x + i]];
      i := i + 1;
    }
    assert ret.d[..al] == y;
    MagIs(ret);
  }

  /** The passes over all words of N. */
  method ReductionLoop(r: Bignum, n: Bignum, nl: nat, n0: Word) returns (ghost k: int)
    requires r != n && nl <= |n.d| && 2 * nl + 1 <= |r.d|
    requires nl > 0 ==> (n.d[0] * n0 + 1) % 0x1_0000_0000 == 0
    requires Val(r.d[..2 * nl + 1]) < Times(Val(n.d[..nl]), BP(nl))
    modifies r`d
    ensures |r.d| == old(|r.d|)
    ensures Reducing(r.d[..2 * nl + 1], nl, Val(old(r.d[..2 * nl + 1])), k, Val(n.d[..nl]))
  {
    hide Val, Times, BP, Reducing;
    ghost var a := Val(r.d[..2 * nl + 1]);
    var i := 0;
    k := 0;
    ReducingStart(r.d[..2 * nl + 1], i, Val(n.d[..nl]));
    while i < nl
      invariant i <= nl && |r.d| == old(|r.d|)
      invariant Reducing(r.d[..2 * nl + 1], i, a, k, Val(n.d[..nl]))
    {
      k := ReductionPass(r, n, nl, i, n0, a, k);
      i := i + 1;
    }
  }

  lemma ReducingStart(y: seq<Word>, i: nat, x: int)
    requires i == 0
    ensures Reducing(y, i, Val(y), 0, x)
  {
    assert y[..0] == [];
  }

  /** After the passes the words above R are (a + k*N) / R, which is below 2N. */
  lemma HighPart(y: seq<Word>, n: nat, a: int, k: int, x: int)
    requires Reducing(y, n, a, k, x) && n <= |y| && 0 <= a < Times(x, BP(n)) && x > 0
    ensures Val(y) == BP(n) * Val(y[n..]) == a + Times(k, x) && Val(y[n..]) < 2 * x
  {
    Halves(y, n);
    BelowTwice(a, k, x, BP(n), Val(y[n..]));
  }

  lemma BelowTwice(a: int, k: int, x: int, r: int, t: int)
    requires a < Times(x, r) && 0 <= k < r && x > 0 && r * t == a + Times(k, x)
    ensures t < 2 * x
  {
    MulMono(k, r, x);
    Commute(x, r);
    Commute(r, t);
    assert (2 * x) * r == 2 * (x * r);
    if t >= 2 * x { MulMono(2 * x, t, r); }
  }

  /** The same words after leading zeros have been dropped. */
  lemma HighWords(y: seq<Word>, n: nat, top: nat, low: nat)
    requires n <= |y| && top <= |y| && low == (if top < n then top else n)
    requires Val(y[..top]) == Val(y) == BP(n) * Val(y[n..]) && Val(y[..n]) == 0
    ensures Val(y[low..top]) == Val(y[n..])
  {
    hide Val;
    if top < n {
      assert y[top..top] == [];
      NoWords();
      ValBound(y[..top]);
      BPMono(top, n);
      SmallMultipleOf(BP(n), Val(y[n..]));
    } else {
      Halves(y[..top], n);
      assert y[..top][..n] == y[..n] && y[..top][n..] == y[n..top];
      CancelFactor(BP(n), Val(y[n..top]), Val(y[n..]));
    }
  }

  lemma SmallMultipleOf(p: int, t: int)
    requires p > 0 && t >= 0 && p * t < p
    ensures t == 0
  {
    if t > 0 { MulMono(1, t, p); }
  }

  lemma CancelFactor(p: int, s: int, t: int)
    requires p > 0 && p * s == p * t
    ensures s == t
  {
    if s < t { MulMono(s + 1, t, p); }
    if t < s { MulMono(t + 1, s, p); }
  }

  lemma ShortOperand(x: seq<Word>, n: int, k: nat)
    requires Val(x) < Times(n, BP(k)) && 0 <= n < BP(k) && (x != [] ==> x[|x| - 1] != 0)
    ensures |x| <= 2 * k + 1
  {
    hide Val;
    if |x| > 2 * k + 1 {
      TopWordNonzero(x);
      BPMono(2 * k, |x| - 1);
      BPAdd(k, k);
      MulMono(n, BP(k), BP(k));
    }
  }

  /** T = (a + k*N)/R is congruent to a/R. */
  lemma ReducedCong(a: int, k: int, x: int, r: int, t: int, t': int)
    requires x > 0 && r * t == a + Times(k, x) && (t' == t || t' == t - x)
    requires 0 <= k < r
    ensures Cong(t' * r, a, x)
    ensures t' == t <==> t' * r >= a
  {
    assert t' == t ==> t' * r == a + k * x;
    assert t' == t - x ==> t' * r == a + (k - r) * x;
    CongBy(t' * r, a, x, if t' == t then k else k - r);
  }

  /** The working copy of BN_from_montgomery, reduced; t is (a + k*N)/R. */
  method ReduceCopy(r: Bignum, a: Bignum, n: Bignum, nl: nat, n0: Word) returns (ghost t: int, ghost k: int)
    requires r != a && r != n && r.Wf() && a.Valid() && n.Valid() && n.top == nl > 0
    requires (n.d[0] * n0 + 1) % 0x1_0000_0000 == 0
    requires a.Mag() < Times(n.Mag(), BP(nl))
    modifies r
    ensures r.Valid() && r.top <= 2 * nl + 1 && r.neg == (a.neg != n.neg)
    ensures BP(nl) * t == a.Mag() + Times(k, n.Mag()) && 0 <= t < 2 * n.Mag() && 0 <= k < BP(nl)
    ensures Val(r.d[if r.top < nl then r.top else nl..r.top]) == t
  {
    hide Val, Times, BP, Reducing, Bignum.Mag;
    ZeroMag(n);
    MagIs(a); MagIs(n);
    Copy(r, a);
    ValBound(n.d[..nl]);
    ShortOperand(a.d[..a.top], n.Mag(), nl);
    WExpand(r, 2 * nl + 1);
    r.neg := a.neg != n.neg;
    MagIs(r);
    ClearTop(r, 2 * nl + 1);
    MagIs(r);
    k := ReductionLoop(r, n, nl, n0);
    ghost var y := r.d[..2 * nl + 1];
    HighPart(y, nl, a.Mag(), k, n.Mag());
    ReducingIs(y, nl, a.Mag(), k, n.Mag());
    t := Val(y[nl..]);
    MagIs(r);
    FixTop(r);
    MagIs(r);
    HighSlices(r.d, 2 * nl + 1, nl, r.top);
    HighWords(y, nl, r.top, if r.top < nl then r.top else nl);
  }

  lemma HighSlices(s: seq<Word>, max: nat, n: nat, top: nat)
    requires top <= max <= |s| && n <= max
    ensures s[..max][..top] == s[..top]
    ensures s[..max][if top < n then top else n..top] == s[if top < n then top else n..top]
  {}

  lemma ReducingIs(y: seq<Word>, i: nat, a: int, k: int, x: int)
    requires Reducing(y, i, a, k, x)
    ensures i <= |y| && Val(y[..i]) == 0 && 0 <= k < BP(i)
  {}

  /** BN_from_montgomery: a/R modulo N, below N after at most one subtraction. That subtraction
      makes the result positive, whatever the sign of a; it is made when the result times R is
      less than |a|. */
  method FromMontgomery(ret: Bignum, a: Bignum, mont: MontCtx)
    requires ret.Wf() && a.Valid() && ret != mont.N
    requires mont.Empty() || (mont.Ready() && mont.N.Wf() && a.Mag() < Times(mont.N.Mag(), BP(mont.N.top)))
    modifies ret
    ensures mont.Empty() ==> unchanged(ret)
    ensures !mont.Empty() ==> ret.Valid() && mont.N.Wf() && ret.Mag() < mont.N.Mag()
    ensures !mont.Empty() ==> ret.neg == (old(a.neg) && ret.Mag() * BP(mont.N.top) >= old(a.Mag()))
    ensures !mont.Empty() ==> Cong(ret.Mag() * BP(mont.N.top), old(a.Mag()), mont.N.Mag())
  {
    hide Val, Times, BP, Bignum.Mag, Cong;
    if mont.Empty() { return; }
    var n := mont.N;
    var al, nl := mont.ri / 32, n.top;
    var r := new Bignum.Temp();
    ghost var t, k;
    ghost var v := a.Mag();
    t, k := ReduceCopy(r, a, n, nl, mont.n0);
    WExpand(ret, nl + al + 1);
    ret.neg := r.neg;
    CopyHigh(ret, r, al);
    var c := Ucmp(ret, n);
    if c >= 0 {
      TopsOrdered(n, ret);
      var ok := Usub(ret, ret, n);
    }
    ReducedCong(v, k, n.Mag(), BP(nl), t, ret.Mag());
  }

  // ---------- products in Montgomery form

  /** N is odd, or it would have no inverse modulo the word size. */
  lemma OddModulus(x: seq<Word>, n0: Word)
    requires x != [] && (x[0] * n0 + 1) % 0x1_0000_0000 == 0
    ensures Val(x) % 2 == 1
  {
    hide Val;
    OddWord(x[0], n0);
    LowWord(x);
    CongBy(Val(x), x[0], 2, 0x8000_0000 * Val(x[1..]));
  }

  lemma OddWord(w: Word, n0: Word)
    requires (w * n0 + 1) % 0x1_0000_0000 == 0
    ensures w % 2 == 1
  {
    QuotientBounds(w * n0 + 1, 0x1_0000_0000);
    var h := w / 2;
    assert w % 2 == 0 ==> w * n0 == 2 * (h * n0);
  }

  /** The Montgomery form of x. */
  ghost function Form(x: int, k: nat, n: int): int
    requires n > 0
  {
    (x * BP(k)) % n
  }

  lemma CancelR(x: int, y: int, k: nat, n: int)
    requires n > 0 && n % 2 == 1 && Cong(x * BP(k), y * BP(k), n)
    ensures Cong(x, y, n)
  {
    BPIsP2(k);
    CancelPower(x, y, 32 * k, n);
  }

  /** BN_mod_mul_montgomery of two forms is the form of the product. */
  lemma FormProduct(r: int, p: int, q: int, x: int, y: int, k: nat, n: int)
    requires n > 0 && n % 2 == 1 && 0 <= r < n && Cong(r * BP(k), p * q, n)
    requires p == Form(x, k, n) && q == Form(y, k, n)
    ensures r == Form(x * y, k, n)
  {
    hide Cong, BP;
    var R := BP(k);
    CongSelf(x * R, n); CongSelf(y * R, n);
    CongTimes(p, x * R, q, y * R, n);
    FourFactors(x, R, y);
    CongTrans(r * R, p * q, ((x * y) * R) * R, n);
    CancelR(r, (x * y) * R, k, n);
    CongIs(r, (x * y) * R, n);
  }

  lemma FourFactors(x: int, r: int, y: int)
    ensures (x * r) * (y * r) == ((x * y) * r) * r
  {
    assert (x * r) * (y * r) == x * (r * y) * r;
    assert x * (r * y) == (x * y) * r;
  }

  /** Multiplying by RR = R^2 mod N gives the form. */
  lemma FormIn(r: int, x: int, rr: int, k: nat, n: int)
    requires n > 0 && n % 2 == 1 && 0 <= r < n && Cong(r * BP(k), x * rr, n) && rr == (BP(k) * BP(k)) % n
    ensures r == Form(x, k, n)
  {
    hide Cong, BP;
    var R := BP(k);
    CongSelf(R * R, n);
    CongTimesBy(rr, R * R, x, n);
    ThreeFactors(x, R);
    CongTrans(r * R, x * rr, (x * R) * R, n);
    CancelR(r, x * R, k, n);
    CongIs(r, x * R, n);
  }

  lemma ThreeFactors(x: int, r: int)
    ensures x * (r * r) == (x * r) * r
  {}

  /** Reducing a form gives back the number: to-Montgomery and from-Montgomery cancel. */
  lemma FormOut(t: int, p: int, x: int, k: nat, n: int)
    requires n > 0 && n % 2 == 1 && 0 <= t < n && Cong(t * BP(k), p, n) && p == Form(x, k, n)
    ensures t == x % n
  {
    hide Cong, BP;
    CongSelf(x * BP(k), n);
    CongTrans(t * BP(k), p, x * BP(k), n);
    CancelR(t, x, k, n);
    CongIs(t, x, n);
  }

  /** There is only one residue t with t*R = a (mod N). */
  lemma ReductionUnique(t: int, t': int, a: int, k: nat, n: int)
    requires n > 0 && n % 2 == 1 && 0 <= t < n && 0 <= t' < n
    requires Cong(t * BP(k), a, n) && Cong(t' * BP(k), a, n)
    ensures t == t'
  {
    hide BP;
    assert Cong(t * BP(k), t' * BP(k), n);
    CancelR(t, t', k, n);
    CongIs(t, t', n);
    CongIs(t', t', n);
  }

  /** BN_mod_mul_montgomery */
  method ModMulMontgomery(r: Bignum, a: Bignum, b: Bignum, mont: MontCtx, tmp: Bignum)
    requires r.Wf() && a.Valid() && b.Valid() && mont.Ready() && r != mont.N
    requires tmp.Wf() && tmp !in {r, a, b, mont.N}
    requires Times(a.Mag(), b.Mag()) < Times(mont.N.Mag(), BP(mont.N.top))
    modifies r, tmp
    ensures r.Valid() && r.Mag() < mont.N.Mag()
    ensures Cong(r.Mag() * BP(mont.N.top), Times(old(a.Mag()), old(b.Mag())), mont.N.Mag())
    ensures old(a.Value()) >= 0 && old(b.Value()) >= 0 ==> r.Value() >= 0
    ensures if a == b then r.neg == (old(a.Mag()) == 0 && old(tmp.neg))
            else r.neg == (old(a.neg) != old(b.neg) && old(a.Mag()) > 0 && old(b.Mag()) > 0
                           && r.Mag() * BP(mont.N.top) >= Times(old(a.Mag()), old(b.Mag())))
    ensures tmp.Wf()
    ensures old(a.Value()) >= 0 && old(b.Value()) >= 0 && (a == b && old(tmp.neg) ==> old(a.Mag()) > 0) ==>
      !r.neg && !tmp.neg
  {
    hide Val, Times, BP, Bignum.Mag, Cong;
    ghost var x, y := a.Mag(), b.Mag();
    ZeroMag(a);
    SignOfTimes(x, y, a.neg, b.neg);
    if a == b { Sqr(tmp, a); } else { Mul(tmp, a, b); }
    ZeroMag(tmp);
    MagIs(mont.N);
    OddModulus(mont.N.d[..mont.N.top], mont.n0);
    FromMontgomery(r, tmp, mont);
    if tmp.Mag() == 0 { ZeroForm(r.Mag(), mont.N.top, mont.N.Mag()); }
  }

  lemma ZeroForm(r: int, k: nat, n: int)
    requires n > 0 && n % 2 == 1 && 0 <= r < n && Cong(r * BP(k), 0, n)
    ensures r == 0
  {
    hide BP;
    assert 0 * BP(k) == 0;
    CancelR(r, 0, k, n);
    CongIs(r, 0, n);
    QuotientUnique(0, n, 0, 0);
  }

  // ---------- BN_MONT_CTX_set

  /** A word is coprime to 2^32 exactly when it is odd. */
  lemma OddIsCoprime(w: Word)
    ensures Coprime(0x1_0000_0000, w) <==> w % 2 == 1
  {
    P2Bytes();
    if w % 2 == 0 {
      DividesIs(2, 0x1_0000_0000, 0x8000_0000);
      DividesIs(2, w, w / 2);
      NotCoprime(0x1_0000_0000, w, 2);
    } else {
      forall d | Divides(d, 0x1_0000_0000) && Divides(d, w) ensures d == 1 {
        OddDivisor(d, w);
        PowerDivisorIsOne(d, 32);
      }
    }
  }

  lemma PowerDivisorIsOne(d: int, k: nat)
    requires d > 0 && d % 2 == 1 && P2(k) % d == 0
    ensures d == 1
  {
    QuotientUnique(0, d, 0, 0);
    assert 1 * P2(k) == P2(k) && 0 * P2(k) == 0;
    CancelPower(1, 0, k, d);
    if d > 1 { QuotientUnique(1, d, 0, 1); }
  }

  /** From R * Ri = 1 (mod w) to w * n0 = -1 (mod R); for w = 1 the inverse is 0. */
  lemma N0Is(w: Word, x: int, v: int)
    requires w > 0 && 0 <= x < w && (0x1_0000_0000 * x) % w == 1 % w
    requires v == if x == 0 then 0xFFFF_FFFF else 0x1_0000_0000 * x - 1
    ensures 0 < v / w < 0x1_0000_0000 && (w * (v / w) + 1) % 0x1_0000_0000 == 0
  {
    if w == 1 {
      QuotientUnique(v, w, v, 0);
      return;
    }
    QuotientUnique(1, w, 0, 1);
    QuotientUnique(0, w, 0, 0);
    var b := 0x1_0000_0000;
    QuotientBounds(b * x, w);
    var q := (b * x) / w;
    QuotientUnique(v, w, q, 0);
    Commute(q, w);
    QuotientUnique(w * q + 1, b, x, 0);
    if q >= b { MulMono(b, q, w); }
    if q <= 0 { MulMono(q, 0, w); }
  }

  /** The word n0 for the lowest word w of the modulus; R holds the word size. */
  method ComputeN0(R: Bignum, w: Word) returns (ok: bool, n0: Word)
    requires R.Valid() && R.Value() == 0x1_0000_0000
    ensures ok <==> w % 2 == 1
    ensures ok ==> (w * n0 + 1) % 0x1_0000_0000 == 0
  {
    hide Val, P2, Bignum.Mag, Coprime;
    n0 := 0;
    if w == 0 { return false, n0; }   // BN_mod_inverse then fails in BN_div
    OddIsCoprime(w);
    var tmod := new Bignum();
    tmod.d, tmod.top := [w, 0], 1;
    OneWord(w);
    assert tmod.d[..1] == [w];
    MagIs(tmod);
    var Ri := new Bignum();
    ok := ModInverse(Ri, R, tmod);
    if !ok { return; }
    n0 := InverseToN0(Ri, tmod, w);
  }

  method InverseToN0(Ri: Bignum, tmod: Bignum, w: Word) returns (n0: Word)
    requires Ri != tmod && NonNeg(Ri) && tmod.Valid() && w > 0 && tmod.Mag() == w && Ri.Mag() < w
    requires (0x1_0000_0000 * Ri.Mag()) % w == 1 % w
    modifies Ri
    ensures (w * n0 + 1) % 0x1_0000_0000 == 0
  {
    hide Val, P2, Bignum.Mag;
    P2Bytes();
    ghost var x := Ri.Mag();
    Lshift(Ri, Ri, 32);
    ZeroMag(Ri);
    if !IsZero(Ri) { SubWord(Ri, 1); } else { SetWord(Ri, 0xFFFF_FFFF); }
    N0Is(w, x, Ri.Mag());
    var ok := Quotient(Ri, Ri, tmod);
    ZeroMag(Ri);
    WordMag(Ri, Ri.Mag());
    n0 := if Ri.top > 0 then Ri.d[0] else 0;
  }

  /** BN_MONT_CTX_set: succeeds exactly for an odd modulus. */
  method MontCtxSet(mont: MontCtx, mod: Bignum) returns (ok: bool)
    requires mont.N != mont.RR && mont.N.Wf() && mont.RR.Wf() && mod.Valid() && mod != mont.RR
    modifies mont, mont.N, mont.RR
    ensures ok <==> old(mod.Mag()) % 2 == 1
    ensures ok ==> mont.Valid() && mont.N.Mag() == old(mod.Mag())
    ensures mont.N.Wf() && mont.RR.Wf()
  {
    hide Val, P2, Bignum.Mag;
    SetModulus(mont, mod);
    OddMag(mont.N);
    ZeroMag(mont.N);
    P2Bytes();
    SetPower(mont.RR, 32);
    var n0;
    ok, n0 := ComputeN0(mont.RR, mod.d[0]);
    if !ok { return; }
    mont.n0 := n0;
    SetPower(mont.RR, 2 * mont.ri);
    ok := Mod(mont.RR, mont.RR, mont.N);
  }

  /** N and the number of bits of R, those of N rounded up to whole words. */
  method SetModulus(mont: MontCtx, mod: Bignum)
    requires mont.N != mont.RR && mont.N.Wf() && mod.Valid() && mod != mont.RR
    modifies mont`ri, mont.N
    ensures NonNeg(mont.N) && mont.N.Mag() == old(mod.Mag()) && mont.ri == 32 * mont.N.top
    ensures mod.Wf() && (mont.N.top > 0 ==> mont.N.d[0] == mod.d[0])
  {
    hide Val, P2, Bignum.Mag, HasBits;
    var bits := NumBits(mod);
    mont.ri := (bits + 31) / 32 * 32;
    Copy(mont.N, mod);
    mont.N.neg := false;
    if mont.N.top > 0 { assert mont.N.d[0] == mont.N.d[..mont.N.top][0] == old(mod.d[..mod.top])[0]; }
  }

  /** BN_to_montgomery */
  method ToMontgomery(r: Bignum, a: Bignum, mont: MontCtx, tmp: Bignum)
    requires r.Wf() && a.Valid() && mont.Valid() && r != mont.N && r != mont.RR && a.Mag() < BP(mont.N.top)
    requires tmp.Wf() && tmp !in {r, a, mont.N, mont.RR}
    modifies r, tmp
    ensures r.Valid() && r.Mag() == Form(old(a.Mag()), mont.N.top, mont.N.Mag())
    ensures old(a.Value()) >= 0 ==> r.Value() >= 0
    ensures tmp.Wf()
    ensures old(a.Value()) >= 0 && (a == mont.RR ==> old(a.Mag()) > 0) ==> !r.neg && !tmp.neg
  {
    hide Val, P2, BP, Bignum.Mag, Cong, Form, Times;
    ghost var x, k, n := a.Mag(), mont.N.top, mont.N.Mag();
    FormFits(x, mont.RR.Mag(), n, BP(k));
    ModMulMontgomery(r, a, mont.RR, mont, tmp);
    MagIs(mont.N);
    OddModulus(mont.N.d[..k], mont.n0);
    SquareOfR(k, mont.ri, n);
    FormIn(r.Mag(), x, mont.RR.Mag(), k, n);
  }

  lemma FormFits(x: int, rr: int, n: int, r: int)
    requires 0 <= x < r && 0 <= rr < n
    ensures Times(x, rr) < Times(n, r)
    ensures Times(x, rr) == x * rr
  {
    MulMono(x, r, rr);
    MulMono(rr + 1, n, r);
    Distribute(rr, 1, r);
    Commute(r, rr);
  }

  lemma SquareOfR(k: nat, ri: nat, n: int)
    requires ri == 32 * k && n > 0
    ensures P2(2 * ri) % n == (BP(k) * BP(k)) % n
  {
    BPIsP2(k);
    P2Add(ri, ri);
  }

  lemma FormBelow(x: int, k: nat, n: int)
    requires n > 0
    ensures 0 <= Form(x, k, n) < n
  {
    QuotientBounds(x * BP(k), n);
  }

  lemma Reducible(x: int, n: int, r: int)
    requires 0 <= x < n && r > 0
    ensures x < Times(n, r)
  {
    MulMono(1, r, n);
    Commute(r, n);
  }

  /** To Montgomery form and back: the residue, so a itself when it is below N. */
  method ThroughForm(r: Bignum, a: Bignum, mont: MontCtx)
    requires r.Wf() && a.Valid() && mont.Valid() && r != mont.N && r != mont.RR && a.Mag() < BP(mont.N.top)
    modifies r
    ensures r.Valid() && r.Mag() == old(a.Mag()) % mont.N.Mag()
    ensures old(a.Mag()) < mont.N.Mag() ==> r.Mag() == old(a.Mag())
    ensures old(a.Value()) >= 0 ==> r.Value() >= 0
  {
    hide Val, P2, BP, Bignum.Mag, Cong, Form, Times;
    ghost var x, k, n := a.Mag(), mont.N.top, mont.N.Mag();
    var tmp := new Bignum.Temp();
    ToMontgomery(r, a, mont, tmp);
    ghost var p := r.Mag();
    MagIs(mont.N);
    OddModulus(mont.N.d[..k], mont.n0);
    ZeroMag(mont.N);
    FormBelow(x, k, n);
    Reducible(p, n, BP(k));
    FromMontgomery(r, r, mont);
    FormOut(r.Mag(), p, x, k, n);
    if p == 0 { ZeroForm(r.Mag(), k, n); }
    if x < n { QuotientUnique(x, n, 0, x); }
  }
}
