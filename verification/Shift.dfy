/** bn_shift.c: shifts by one bit and by any number of bits. */
module Shift {
  import opened Words
  import opened Bits
  import opened Bignums
  import opened WordLoops
  import opened Ripple
  import opened Basics

  /** The word of a left shift: l << lb with the lb bits k coming in from below. */
  lemma ShiftedWord(l: Word, p: int, c: int, k: int)
    requires p > 0 && c > 0 && p * c == 0x1_0000_0000 && 0 <= k < p
    ensures 0 <= Trunc(l * p) + k < 0x1_0000_0000
    ensures Trunc(l * p) + k + 0x1_0000_0000 * (l / c) == l * p + k
    ensures 0 <= l / c < p
  {
    SplitAtBit(l, p, c);
    QuotientBounds(l, c);
    SplitProductAtBit(l, p, c, l / c, l % c);
    TruncIs(l * p, l / c, (l % c) * p);
    MulMono(l % c, c - 1, p);
    Distribute(c, 1, p);
    Commute(c, p);
  }

  // ---------- left by one

  /** BN_lshift1 */
  method Lshift1(r: Bignum, a: Bignum)
    requires r.Wf() && a.Valid()
    modifies r
    ensures r.Valid() && r.neg == old(a.neg) && r.Mag() == 2 * old(a.Mag())
    ensures r.top == 0 <==> old(a.top) == 0
  {
    hide Val, Scaled, Splice, Bignum.Mag;
    MagIs(a);
    var n := a.top;
    ghost var x := a.d[..n];
    if r != a { r.neg := a.neg; }
    WExpand(r, n + 1);
    r.top := n;
    assert a.d[..n] == x;
    ghost var s := r.d;
    var c;
    ghost var z;
    c, z := DoubleWords(r, a, n);
    DoubleTop(x, z, c);
    SpliceSlice(s, 0, z);
    if c != 0 {
      OneAbove(r.d, n);
      r.d := r.d[n := 1];
      r.top := r.top + 1;
    }
    MagIs(r);
  }

  /** The loop of BN_lshift1: the words doubled and the bit carried out of them. */
  method DoubleWords(r: Bignum, a: Bignum, n: nat) returns (c: Word, ghost z: seq<Word>)
    requires n < |r.d| && n <= |a.d|
    modifies r`d
    ensures c <= 1 && |z| == n && r.d == Splice(old(r.d), 0, z)
    ensures Scaled(z, c, old(a.d[..n]), 2, 0)
  {
    hide Val, BP, Scaled;
    ghost var s, x := r.d, a.d[..n];
    z := [];
    c := 0;
    var i := 0;
    ScaledNone(x, 2, []);
    assert Splice(s, 0, z) == s;
    while i < n
      invariant |z| == i <= n && c <= 1
      invariant r.d == Splice(s, 0, z)
      invariant Scaled(z, c, x[..i], 2, 0)
    {
      var t := a.d[i];
      assert t == x[i];
      ghost var c0 := c;
      var l: Word := Trunc(t as int * 2) + c;
      c := if t >= 0x8000_0000 then 1 else 0;
      MulWordStep(x, 2, 0, z, c0, l, c, 0);
      SpliceSnoc(s, 0, z, l);
      r.d := r.d[i := l];
      i, z := i + 1, z + [l];
    }
    assert x[..n] == x;
  }

  lemma OneAbove(s: seq<Word>, n: nat)
    requires n < |s|
    ensures s[n := 1][..n + 1] == s[..n] + [1]
  {}

  lemma DoubleTop(x: seq<Word>, z: seq<Word>, c: Word)
    requires |x| == |z| && c <= 1 && Scaled(z, c, x, 2, 0) && (x != [] ==> x[|x| - 1] != 0)
    ensures c == 0 ==> Val(z) == 2 * Val(x) && (z != [] ==> z[|z| - 1] != 0)
    ensures c == 1 ==> Val(z + [1]) == 2 * Val(x) && x != []
  {
    hide Val;
    ValSnoc(z, 1);
    NoWords();
    if z != [] { TopWordNonzero(z); TopWordNonzero(x); }
  }

  // ---------- right by one

  /** Words i and up of a right shift by one, and the bit that leaves below word i. */
  lemma HalveStep(x: seq<Word>, i: nat, z: seq<Word>, c: int, l: Word, c': int)
    requires i < |x| && |z| == |x| - (i + 1) && 0 <= c <= 1
    requires 2 * Val(z) + c == Val(x[i + 1..])
    requires l == x[i] / 2 + c * 0x8000_0000 && c' == x[i] % 2
    ensures 2 * Val([l] + z) + c' == Val(x[i..])
  {
    LowWord(x[i..]);
    assert x[i..][1..] == x[i + 1..];
    LowWord([l] + z);
    assert ([l] + z)[1..] == z;
  }

  /** BN_rshift1: the magnitude is halved, the odd bit dropped; a negative one becomes -0. */
  method Rshift1(r: Bignum, a: Bignum)
    requires r.Wf() && a.Valid()
    modifies r
    ensures r.Valid() && r.Mag() == old(a.Mag()) / 2
    ensures r.neg == (old(a.neg) && old(a.top) > 0)
  {
    hide Val;
    MagIs(a);
    if a.top == 0 {
      assert a.d[..0] == [];
      NoWords();
      SetWord(r, 0);
      return;
    }
    var n := a.top;
    ghost var x := a.d[..n];
    if a != r {
      WExpand(r, n);
      r.top := n;
      r.neg := a.neg;
    }
    ghost var s := r.d;
    ghost var z: seq<Word> := [];
    var c: int, i := 0, n;
    NoWords();
    assert x[n..] == [];
    assert Splice(s, n, z) == s;
    while i > 0
      invariant 0 <= i <= n && |z| == n - i && 0 <= c <= 1
      invariant r.d == Splice(s, i, z)
      invariant 2 * Val(z) + c == Val(x[i..])
      modifies r`d
    {
      i := i - 1;
      var t := a.d[i];
      assert t == x[i];
      var l: Word := t / 2 + c * 0x8000_0000;
      HalveStep(x, i, z, c, l, t % 2);
      c := t % 2;
      SpliceFront(s, i, z, l);
      r.d := r.d[i := l];
      z := [l] + z;
    }
    assert x[0..] == x && r.d[..n] == z;
    MagIs(r);
    FixTop(r);
  }

  lemma SpliceFront(s: seq<Word>, i: nat, z: seq<Word>, l: Word)
    requires i + 1 + |z| <= |s|
    ensures Splice(s, i + 1, z)[i := l] == Splice(s, i, [l] + z)
  {}

  // ---------- left by any number of bits

  lemma LshiftStep(x: seq<Word>, i: nat, z: seq<Word>, p: int, c: int, t0: Word, t1: Word)
    requires i < |x| && z != [] && c > 0 && Val(z) == Val(x[i + 1..]) * p
    requires t0 + 0x1_0000_0000 * (x[i] / c) == x[i] * p && t1 == z[0] + x[i] / c
    ensures Val([t0, t1] + z[1..]) == Val(x[i..]) * p
  {
    hide Val;
    LowWord(x[i..]);
    assert x[i..][1..] == x[i + 1..];
    LowWord(z);
    var u := [t1] + z[1..];
    LowWord(u);
    assert u[1..] == z[1..];
    LowWord([t0] + u);
    assert ([t0] + u)[1..] == u && [t0] + u == [t0, t1] + z[1..];
    ShiftSum(x[i], Val(x[i + 1..]), p);
  }

  lemma ShiftSum(w: int, v: int, p: int)
    ensures (w + 0x1_0000_0000 * v) * p == w * p + 0x1_0000_0000 * (v * p)
  {}

  lemma SpliceTwo(s: seq<Word>, i: nat, z: seq<Word>, t0: Word, t1: Word)
    requires z != [] && i + 1 + |z| <= |s|
    ensures Splice(s, i + 1, z)[i + 1 := t1][i := t0] == Splice(s, i, [t0, t1] + z[1..])
  {}

  /** In place, the words below the part already written are still those of the operand. */
  lemma ReadBelow(s: seq<Word>, lo: nat, z: seq<Word>, x: seq<Word>, i: nat)
    requires lo + |z| <= |s| && i < lo && i < |x| <= |s| && s[..|x|] == x
    ensures Splice(s, lo, z)[i] == x[i]
  {}

  /** The descending loop of BN_lshift for a shift that is not a whole number of words;
      the bits or-ed into a word are below those already there, so or is a sum. */
  method ShiftUp(r: Bignum, a: Bignum, n: nat, nw: nat, lb: nat) returns (ghost z: seq<Word>)
    requires 0 < lb < 32 && n + nw < |r.d| && n <= |a.d| && r.d[nw + n] == 0
    modifies r`d
    ensures |z| == n + 1 && r.d == Splice(old(r.d), nw, z)
    ensures Val(z) == Val(old(a.d[..n])) * P2(lb)
  {
    hide Val, P2, Trunc, Splice;
    ghost var s, x := r.d, a.d[..n];
    var rb := 32 - lb;
    var p, c := P2(lb), P2(rb);
    BitSplit(lb);
    var i := n;
    z := [0];
    ShiftStart(x, p);
    SpliceOne(s, nw + n);
    while i > 0
      invariant 0 <= i <= n && |z| == n + 1 - i
      invariant r.d == Splice(s, nw + i, z)
      invariant exists l: Word :: z[0] == Trunc(l * p)
      invariant Val(z) == Val(x[i..]) * p
      modifies r`d
    {
      if r == a { ReadBelow(s, nw + i, z, x, i - 1); }
      SpliceHead(s, nw + i, z);
      i := i - 1;
      var l := a.d[i];
      assert l == x[i];
      ghost var l0: Word :| z[0] == Trunc(l0 * p);
      ShiftedWord(l, p, c, 0);
      ShiftedWord(l0, p, c, l / c);
      var t1: Word := r.d[nw + i + 1] + l / c;
      r.d := r.d[nw + i + 1 := t1];
      var t0 := Trunc(l * p);
      r.d := r.d[nw + i := t0];
      LshiftStep(x, i, z, p, c, t0, t1);
      SpliceTwo(s, nw + i, z, t0, t1);
      z := [t0, t1] + z[1..];
    }
    assert x[0..] == x;
  }

  lemma BitSplit(lb: nat)
    requires 0 < lb < 32
    ensures P2(lb) * P2(32 - lb) == 0x1_0000_0000
  {
    P2Bytes();
    P2Add(lb, 32 - lb);
  }

  lemma ShiftStart(x: seq<Word>, p: int)
    ensures Val([0]) == Val(x[|x|..]) * p && Trunc(0 * p) == 0
  {
    OneWord(0);
    assert x[|x|..] == [];
  }

  lemma SpliceHead(s: seq<Word>, lo: nat, z: seq<Word>)
    requires z != [] && lo + |z| <= |s|
    ensures Splice(s, lo, z)[lo] == z[0]
  {}

  lemma SpliceOne(s: seq<Word>, i: nat)
    requires i < |s| && s[i] == 0
    ensures Splice(s, i, [0]) == s
  {}

  lemma OneMoreWord(x: seq<Word>, i: nat)
    requires i < |x|
    ensures [x[i]] + (x[i + 1..] + [0]) == x[i..] + [0]
  {}

  /** The descending loop for a whole number of words. */
  method MoveUp(r: Bignum, a: Bignum, n: nat, nw: nat) returns (ghost z: seq<Word>)
    requires n + nw < |r.d| && n <= |a.d| && r.d[nw + n] == 0
    modifies r`d
    ensures |z| == n + 1 && r.d == Splice(old(r.d), nw, z)
    ensures z == old(a.d[..n]) + [0]
  {
    hide Splice;
    ghost var s, x := r.d, a.d[..n];
    var i := n;
    z := [0];
    SpliceOne(s, nw + n);
    while i > 0
      invariant 0 <= i <= n && |z| == n + 1 - i
      invariant r.d == Splice(s, nw + i, z)
      invariant z == x[i..] + [0]
      modifies r`d
    {
      if r == a { ReadBelow(s, nw + i, z, x, i - 1); }
      i := i - 1;
      assert a.d[i] == x[i];
      OneMoreWord(x, i);
      SpliceFront(s, nw + i, z, x[i]);
      r.d := r.d[nw + i := a.d[i]];
      z := [x[i]] + z;
    }
  }

  /** BN_lshift */
  method Lshift(r: Bignum, a: Bignum, n: nat)
    requires r.Wf() && a.Valid()
    modifies r
    ensures r.Valid() && r.neg == old(a.neg)
    ensures r.Mag() == old(a.Mag()) * P2(n)
  {
    hide Val, P2, Bignum.Mag;
    MagIs(a);
    r.neg := a.neg;
    var nw, m := n / 32, a.top;
    ghost var x := a.d[..m];
    WExpand(r, m + nw + 1);
    assert a.d[..m] == x;
    LshiftWords(r, a, m, nw, n % 32);
    r.top := m + nw + 1;
    MagIs(r);
    FixTop(r);
  }

  /** The word loops of BN_lshift. */
  method LshiftWords(r: Bignum, a: Bignum, m: nat, nw: nat, lb: nat)
    requires m + nw + 1 < |r.d| && m <= |a.d| && lb < 32
    modifies r`d
    ensures |r.d| == old(|r.d|)
    ensures Val(r.d[..m + nw + 1]) == Val(old(a.d[..m])) * P2(32 * nw + lb)
  {
    hide Val, P2;
    ghost var x := a.d[..m];
    r.d := r.d[m + nw := 0];
    assert a.d[..m] == x;
    ghost var s, z := r.d, [];
    if lb == 0 {
      z := MoveUp(r, a, m, nw);
      ValSnoc(x, 0);
      NoShift(Val(x));
    } else {
      z := ShiftUp(r, a, m, nw, lb);
    }
    assert Val(z) == Val(x) * P2(lb);
    ghost var u := ClearWords(r, 0, nw);
    LowAndHigh(s, nw, u, z);
    ValConcat(u, z);
    ShiftedValue(Val(x), Val(z), nw, lb);
  }

  lemma LowAndHigh(s: seq<Word>, nw: nat, u: seq<Word>, z: seq<Word>)
    requires |u| == nw && nw + |z| <= |s|
    ensures Splice(Splice(s, nw, z), 0, u)[..|z| + nw] == u + z
  {}

  lemma NoShift(x: int)
    ensures x * P2(0) == x
  {}

  lemma ShiftedValue(x: int, z: int, nw: nat, lb: nat)
    requires z == x * P2(lb)
    ensures BP(nw) * z == x * P2(32 * nw + lb)
  {
    BPIsP2(nw);
    P2Add(32 * nw, lb);
    Regrouped(x, BP(nw), P2(lb));
  }

  lemma Regrouped(x: int, p: int, q: int)
    ensures p * (x * q) == x * (p * q)
  {}

  // ---------- right by any number of bits

  /** The word of a right shift: the high bits of l, and above them the low bits of the next word l'. */
  lemma RshiftWord(l: Word, l': Word, p: int, c: int)
    requires p > 0 && c > 0 && p * c == 0x1_0000_0000
    ensures 0 <= l / p + Trunc(l' * c) < 0x1_0000_0000
    ensures p * (l / p + Trunc(l' * c)) + l % p == l + (l' % p) * 0x1_0000_0000
  {
    Commute(p, c);
    SplitAtBit(l, c, p);
    ShiftedWord(l', c, p, l / p);
    QuotientBounds(l, p); QuotientBounds(l', p);
    SplitProductAtBit(l', c, p, l' / p, l' % p);
    TruncIs(l' * c, l' / p, (l' % p) * c);
    RshiftSum(l / p, l' % p, p, c);
  }

  lemma RshiftSum(q: int, r: int, p: int, c: int)
    requires p * c == 0x1_0000_0000
    ensures p * (q + r * c) == q * p + r * 0x1_0000_0000
  {
    assert p * (r * c) == r * (p * c);
  }

  /** The words shifted so far; the low bits of the first word are lost, those of the next are owed. */
  ghost predicate Halfway(z: seq<Word>, y: seq<Word>, p: int)
    requires |z| < |y| && p > 0
  {
    p * Val(z) + y[0] % p == Val(y[..|z|]) + (y[|z|] % p) * BP(|z|)
  }

  lemma RshiftStep(z: seq<Word>, y: seq<Word>, p: int, c: int, w: Word)
    requires |z| + 1 < |y| && p > 0 && c > 0 && p * c == 0x1_0000_0000 && Halfway(z, y, p)
    requires w == y[|z|] / p + Trunc(y[|z| + 1] * c)
    ensures Halfway(z + [w], y, p)
  {
    hide Val;
    var k := |z|;
    RshiftWord(y[k], y[k + 1], p, c);
    ValSnoc(z, w);
    ValTake(y, k);
    RshiftArith(p, Val(z), y[0] % p, Val(y[..k]), y[k] % p, BP(k), w, y[k], y[k + 1] % p);
  }

  lemma RshiftArith(p: int, v: int, r0: int, u: int, r: int, b: int, w: int, l: int, r': int)
    requires p * v + r0 == u + r * b
    requires p * w + r == l + r' * 0x1_0000_0000
    ensures p * (v + w * b) + r0 == u + l * b + r' * (0x1_0000_0000 * b)
  {
    assert (p * w + r) * b == (l + r' * 0x1_0000_0000) * b;
    assert p * (v + w * b) == p * v + (p * w) * b;
  }

  lemma RshiftEnd(z: seq<Word>, y: seq<Word>, p: int, w: Word)
    requires |z| + 1 == |y| && p > 0 && Halfway(z, y, p) && w == y[|z|] / p
    ensures Val(z + [w]) == Val(y) / p
  {
    hide Val;
    var k := |z|;
    ValSnoc(z, w);
    ValTake(y, k);
    assert y[..k + 1] == y;
    QuotientBounds(y[k], p); QuotientBounds(y[0], p);
    Commute(p, w);
    RshiftArith(p, Val(z), y[0] % p, Val(y[..k]), y[k] % p, BP(k), w, y[k], 0);
    Commute(p, Val(z + [w]));
    QuotientUnique(Val(y), p, Val(z + [w]), y[0] % p);
  }

  lemma RshiftStart(y: seq<Word>, p: int)
    requires y != [] && p > 0
    ensures Halfway([], y, p)
  {
    assert y[..0] == [];
  }

  /** The ascending loop of BN_rshift when bits move across words: j words of a from word nw on. */
  method ShiftDown(r: Bignum, a: Bignum, nw: nat, j: nat, rb: nat) returns (ghost z: seq<Word>)
    requires 0 < rb < 32 && 0 < j && nw + j <= |a.d| && j <= |r.d|
    modifies r`d
    ensures |z| == j && r.d == Splice(old(r.d), 0, z)
    ensures Val(z) == Val(old(a.d[nw..nw + j])) / P2(rb)
  {
    hide Val, P2, Trunc, Halfway, Splice;
    ghost var s, y, u := r.d, a.d[nw..nw + j], a.d;
    var lb := 32 - rb;
    var p, c := P2(rb), P2(lb);
    BitSplit(rb);
    var l := a.d[nw];
    z := [];
    RshiftStart(y, p);
    SpliceNothing(s, 0);
    var i := 1;
    while i < j
      invariant 1 <= i <= j && |z| == i - 1 && l == y[i - 1]
      invariant r.d == Splice(s, 0, z)
      invariant Halfway(z, y, p)
      modifies r`d
    {
      var tmp := l / p;
      ghost var l0 := l;
      if r == a { ReadAbove(s, z, nw + i); }
      l := a.d[nw + i];
      assert l == u[nw + i] == y[i];
      RshiftWord(l0, l, p, c);
      var w: Word := tmp + Trunc(l * c);
      RshiftStep(z, y, p, c, w);
      SpliceSnoc(s, 0, z, w);
      r.d := r.d[i - 1 := w];
      z := z + [w];
      i := i + 1;
    }
    QuotientWord(l, p);
    var w: Word := l / p;
    RshiftEnd(z, y, p, w);
    SpliceSnoc(s, 0, z, w);
    r.d := r.d[j - 1 := w];
    z := z + [w];
  }

  /** In place, the words above the part already written are still those of the operand. */
  lemma ReadAbove(s: seq<Word>, z: seq<Word>, k: nat)
    requires |z| <= k < |s|
    ensures Splice(s, 0, z)[k] == s[k]
  {}

  lemma QuotientWord(l: Word, p: int)
    requires p > 0
    ensures 0 <= l / p < 0x1_0000_0000
  {
    QuotientBounds(l, p);
    if l / p < 0 { MulMono(l / p, -1, p); }
    if l / p > l { MulMono(l + 1, l / p, p); MulMono(1, p, l); Distribute(l, 1, p); }
  }

  /** The copying loop for a whole number of words; it also copies the word beyond the number. */
  method MoveDown(r: Bignum, a: Bignum, nw: nat, j: nat)
    requires nw + j < |a.d| && j < |r.d| && (r == a ==> nw > 0)
    modifies r`d
    ensures |r.d| == old(|r.d|)
    ensures r.d[..j] == old(a.d[nw..nw + j])
  {
    ghost var y := a.d;
    var i := 0;
    while i < j + 1
      invariant 0 <= i <= j + 1 && |r.d| == old(|r.d|) && |a.d| == |y|
      invariant forall k :: 0 <= k < i ==> r.d[k] == y[nw + k]
      invariant forall k :: nw + i <= k <= nw + j ==> a.d[k] == y[k]
      modifies r`d
    {
      r.d := r.d[i := a.d[nw + i]];
      i := i + 1;
    }
  }

  /** BN_rshift. The sign is kept even when nothing is left of the number. */
  method Rshift(r: Bignum, a: Bignum, n: nat)
    requires r.Wf() && a.Wf() && (r == a && n == 0 ==> a.Valid())
    modifies r
    ensures r.Valid() && r.Mag() == Shr(old(a.Mag()), n)
    ensures r.neg == (old(a.neg) && 0 < old(a.top) && n / 32 <= old(a.top))
  {
    hide Val, P2, Shr, Bignum.Mag;
    MagIs(a);
    var nw := n / 32;
    ghost var x := a.d[..a.top];
    if nw > a.top || a.top == 0 {
      ShiftedOut(x, n);
      SetWord(r, 0);
      return;
    }
    if r != a {
      r.neg := a.neg;
      WExpand(r, a.top - nw + 1);
    } else if n == 0 {
      ShrNone(Val(x), n);
      return;
    }
    var j := a.top - nw;
    RshiftValue(x, nw, n % 32);
    assert a.d[nw..nw + j] == x[nw..];
    r.top := j;
    RshiftWords(r, a, nw, j, n % 32);
    MagIs(r);
    FixTop(r);
  }

  lemma RshiftValue(x: seq<Word>, nw: nat, rb: nat)
    requires nw <= |x|
    ensures Shr(Val(x), 32 * nw + rb) == Shr(Val(x[nw..]), rb)
  {
    ShrWords(x, nw);
    ShrShr(Val(x), 32 * nw, rb);
  }

  /** The word loops of BN_rshift. */
  method RshiftWords(r: Bignum, a: Bignum, nw: nat, j: nat, rb: nat)
    requires rb < 32 && nw + j < |a.d| && j < |r.d| && (rb == 0 || j == 0 ==> j + 1 < |r.d|)
    requires r == a && rb == 0 ==> nw > 0
    modifies r`d
    ensures |r.d| == old(|r.d|)
    ensures Val(r.d[..j]) == Shr(Val(old(a.d[nw..nw + j])), rb)
  {
    hide Val, P2, Shr;
    ghost var y := a.d[nw..nw + j];
    if rb == 0 {
      MoveDown(r, a, nw, j);
      r.d := r.d[j + 1 := 0];
      ShrNone(Val(y), rb);
      assert r.d[..j] == y;
    } else if j > 0 {
      ghost var z := ShiftDown(r, a, nw, j, rb);
      ShrIs(Val(y), rb);
      r.d := r.d[j := 0];
      assert r.d[..j] == z;
    } else {
      var w := LowBitsDropped(a.d[nw], rb);
      r.d := r.d[0 := w];
      r.d := r.d[1 := 0];
      ShiftedOut(y, rb);
      assert r.d[..j] == [];
      NoWords();
    }
  }

  method LowBitsDropped(l: Word, rb: nat) returns (w: Word)
    requires rb < 32
    ensures w == l / P2(rb)
  {
    QuotientWord(l, P2(rb));
    w := l / P2(rb);
  }

  lemma ShrIs(x: int, n: nat)
    ensures Shr(x, n) == x / P2(n)
  {}

  /** A shift by more words than there are leaves nothing. */
  lemma ShiftedOut(x: seq<Word>, n: nat)
    requires n / 32 > |x| || x == []
    ensures Shr(Val(x), n) == 0
  {
    ValBound(x);
    BPIsP2(|x|);
    P2Mono(32 * |x|, n);
    QuotientUnique(Val(x), P2(n), 0, Val(x));
  }
}
