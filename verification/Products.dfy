/** BN_mul and BN_sqr: signed products of numbers. */
module Products {
  import opened Words
  import opened Bits
  import opened Bignums
  import opened WordLoops
  import opened Comba
  import opened Karatsuba
  import opened Multiply
  import opened Square
  import opened Basics

  // ---------- which routine multiplies

  lemma {:induction false} PowersAreRecursive(k: nat)
    requires k >= 3
    ensures RecursiveSize(P2(k))
  {
    if k == 3 {
      assert P2(3) == 8;
    } else {
      PowersAreRecursive(k - 1);
      P2Mono(3, k - 1);
      assert P2(3) == 8;
    }
  }

  /** j = 1 << (BN_num_bits_word(al) - 1): the largest power of two up to al. */
  method LargestPower(al: nat) returns (j: nat)
    requires al >= 16
    ensures j == al ==> RecursiveSize(al)
  {
    ghost var k := 4;
    assert P2(4) == 16;
    j := 16;
    while 2 * j <= al
      invariant k >= 4 && j == P2(k) && j <= al
    {
      j, k := 2 * j, k + 1;
    }
    PowersAreRecursive(k);
  }

  /** Writes the product of the two magnitudes into the words of rr, which is neither operand. */
  method MulWordsInto(rr: Bignum, a: Bignum, b: Bignum)
    requires rr.Wf() && a.Valid() && b.Valid() && a.top > 0 && b.top > 0 && rr != a && rr != b
    modifies rr`d, rr`top
    ensures rr.Wf() && rr.Mag() == Times(a.Mag(), b.Mag())
    ensures rr.top == a.top + b.top
  {
    hide Val, Product, BP;
    var al, bl := a.top, b.top;
    var top := al + bl;
    ghost var x, y := a.d[..al], b.d[..bl];
    MagIs(a); MagIs(b);
    ProductLength(x, y);
    if al == bl == 8 {
      assert a.d[0..0 + al] == x && b.d[0..0 + bl] == y;
      WExpand(rr, 16);
      ghost var s := rr.d;
      ghost var z := MulComba(rr, 0, a, 0, b, 0, 8);
      SpliceSlice(s, 0, z);
      rr.top := 16;
      MagIs(rr);
      return;
    }
    if al >= 16 && bl >= 16 {
      if al == bl + 1 && bl + 1 < |b.d| {
        var pb := Padded(b);
        MulLong(rr, a, al, pb, al, top);
      } else if bl == al + 1 && al + 1 < |a.d| {
        var pa := Padded(a);
        MulLong(rr, pa, bl, b, bl, top);
      } else {
        MulLong(rr, a, al, b, bl, top);
      }
    } else {
      NormalInto(rr, a, al, b, bl, top);
    }
    MagIs(rr);
  }

  lemma ProductLength(x: seq<Word>, y: seq<Word>)
    ensures Times(Val(x), Val(y)) < BP(|x| + |y|)
  {
    ValBound(x); ValBound(y);
    ProductBound(Val(x), BP(|x|), Val(y), BP(|y|));
    BPAdd(|x|, |y|);
  }

  /** The operand with the zero word that BN_mul writes above it; here in a copy. */
  method Padded(b: Bignum) returns (pb: Bignum)
    requires b.Valid()
    ensures fresh(pb) && b.top < |pb.d| && Val(pb.d[..b.top + 1]) == Val(b.d[..b.top])
  {
    hide Val;
    pb := new Bignum.Temp();
    Copy(pb, b);
    ghost var x := pb.d[..pb.top];
    WExpand(pb, pb.top + 1);
    pb.d := pb.d[pb.top := 0];
    assert pb.d[..pb.top + 1] == x + [0];
    DropZero(x + [0]);
    assert (x + [0])[..|x|] == x;
  }

  /** Operands of 16 words or more: recursively when both have the same power of two of them. */
  method MulLong(rr: Bignum, a: Bignum, al: nat, b: Bignum, bl: nat, top: nat)
    requires rr.Wf() && 0 < al <= |a.d| && 0 < bl <= |b.d| && rr != a && rr != b && al >= 16
    requires top <= al + bl <= top + 1 && Times(Val(a.d[..al]), Val(b.d[..bl])) < BP(top)
    modifies rr`d, rr`top
    ensures rr.Wf() && rr.top == top && Val(rr.d[..top]) == Times(Val(a.d[..al]), Val(b.d[..bl]))
  {
    hide Val, BP, RecursiveSize;
    if al == bl {
      var j := LargestPower(al);
      var t := new Bignum.Temp();
      if al == j {
        WExpand(t, 4 * al);
        WExpand(rr, 4 * al);
        RecursiveInto(rr, a, b, al, t);
        ShorterBy(rr.d, al + bl, top);
        rr.top := top;
        return;
      }
    }
    NormalInto(rr, a, al, b, bl, top);
  }

  /** A product below 2^(32*top) leaves the word above zero. */
  lemma ShorterBy(d: seq<Word>, n: nat, top: nat)
    requires top <= n <= top + 1 && n <= |d| && Val(d[..n]) < BP(top)
    ensures Val(d[..top]) == Val(d[..n])
  {
    hide Val;
    if n == top + 1 {
      TopWordNonzero(d[..n]);
      DropZero(d[..n]);
      assert d[..n][..top] == d[..top];
    }
  }

  method RecursiveInto(rr: Bignum, a: Bignum, b: Bignum, n: nat, t: Bignum)
    requires RecursiveSize(n) && n <= |a.d| && n <= |b.d|
    requires 2 * n <= |rr.d| && 4 * n <= |t.d|
    requires rr != a && rr != b && t != a && t != b && rr != t
    modifies rr`d, t`d
    ensures |rr.d| == old(|rr.d|) && Val(rr.d[..n + n]) == Times(Val(a.d[..n]), Val(b.d[..n]))
  {
    hide Val, Product, RecursiveSize, Kept;
    ghost var s := rr.d;
    assert a.d[0..0 + n] == a.d[..n] && b.d[0..0 + n] == b.d[..n];
    WorkIs(n);
    MulRecursive(rr, 0, a, 0, b, 0, n, t, 0);
    KeptLength(s, rr.d, 0, 2 * n, rr == t, 0, Work(n));
    ProductIs(a.d[..n], b.d[..n]);
    assert rr.d[..n + n] == rr.d[0..0 + 2 * n];
  }

  lemma KeptLength(s: seq<Word>, s': seq<Word>, lo: nat, n: nat, same: bool, lo2: nat, m: nat)
    requires Kept(s, s', lo, n, same, lo2, m)
    ensures |s'| == |s|
  {}

  /** bn_mul_normal; with a padded operand it uses the one word beyond the room asked for. */
  method NormalInto(rr: Bignum, a: Bignum, al: nat, b: Bignum, bl: nat, top: nat)
    requires rr.Wf() && 0 < al <= |a.d| && 0 < bl <= |b.d| && rr != a && rr != b
    requires top <= al + bl <= top + 1 && Times(Val(a.d[..al]), Val(b.d[..bl])) < BP(top)
    modifies rr`d, rr`top
    ensures rr.Wf() && rr.top == top && Val(rr.d[..top]) == Times(Val(a.d[..al]), Val(b.d[..bl]))
  {
    hide Val, BP, Product;
    assert a.d[0..0 + al] == a.d[..al] && b.d[0..0 + bl] == b.d[..bl];
    WExpand(rr, top);
    ghost var s := rr.d;
    ghost var z := MulNormal(rr, 0, a, 0, al, b, 0, bl);
    SpliceSlice(s, 0, z);
    ProductIs(a.d[..al], b.d[..bl]);
    assert rr.d[..al + bl] == z;
    ShorterBy(rr.d, al + bl, top);
    rr.top := top;
  }

  /** The sign rule, and no zero product of nonzero factors. */
  lemma SignOfTimes(x: int, y: int, nx: bool, ny: bool)
    ensures (if nx then -x else x) * (if ny then -y else y) == if nx != ny then -Times(x, y) else Times(x, y)
    ensures x > 0 && y > 0 ==> Times(x, y) > 0
    ensures x == 0 || y == 0 ==> Times(x, y) == 0
  {
    if x > 0 && y > 0 { MulMono(1, x, y); }
  }

  /** BN_mul */
  method Mul(r: Bignum, a: Bignum, b: Bignum)
    requires r.Wf() && a.Valid() && b.Valid()
    modifies r
    ensures r.Valid() && r.ProperSign()
    ensures r.Value() == old(a.Value()) * old(b.Value())
  {
    hide Val, Bignum.Mag, Times;
    ghost var x, y, nx, ny := a.Mag(), b.Mag(), a.neg, b.neg;
    SignOfTimes(x, y, nx, ny);
    ZeroMag(a); ZeroMag(b);
    if a.top == 0 || b.top == 0 {
      SetWord(r, 0);
      return;
    }
    MulNonzero(r, a, b);
  }

  method MulNonzero(r: Bignum, a: Bignum, b: Bignum)
    requires r.Wf() && a.Valid() && b.Valid() && a.top > 0 && b.top > 0
    modifies r
    ensures r.Valid() && r.top > 0 && r.neg == (old(a.neg) != old(b.neg))
    ensures r.Mag() == Times(old(a.Mag()), old(b.Mag()))
  {
    hide Val, Bignum.Mag, Times;
    ZeroMag(a); ZeroMag(b);
    SignOfTimes(a.Mag(), b.Mag(), false, false);
    var rr := r;
    if r == a || r == b {
      rr := new Bignum.Temp();
    }
    rr.neg := a.neg != b.neg;
    MulWordsInto(rr, a, b);
    FixTop(rr);
    ZeroMag(rr);
    if r != rr { Copy(r, rr); }
  }

  /** The square of n words: comba, doubled cross products or recursion, by length. */
  method SqrWordsInto(rr: Bignum, a: Bignum)
    requires rr.Wf() && a.Valid() && a.top > 0 && rr != a
    modifies rr`d
    ensures |rr.d| > 2 * a.top && Val(rr.d[..2 * a.top]) == Times(a.Mag(), a.Mag())
  {
    hide Val, Product, RecursiveSize, Apart, Kept;
    var al := a.top;
    ghost var x := a.d[..al];
    assert a.d[0..0 + al] == x;
    WExpand(rr, 2 * al + 1);
    ghost var s := rr.d;
    ProductIs(x, x);
    if al == 4 || al == 8 {
      ghost var z := SqrComba(rr, 0, a, 0, al);
      SpliceSlice(s, 0, z);
      return;
    }
    var t := new Bignum.Temp();
    if al >= 16 {
      var j := LargestPower(al);
      if al == j {
        WExpand(t, 4 * al);
        SqrRecursiveInto(rr, a, al, t);
        return;
      }
    }
    WExpand(t, if al < 16 then 32 else 2 * al);
    ghost var z := SqrNormal(rr, 0, a, 0, al, t, 0);
    SpliceSlice(s, 0, z);
  }

  method SqrRecursiveInto(rr: Bignum, a: Bignum, n: nat, t: Bignum)
    requires RecursiveSize(n) && a.top == n && a.Valid()
    requires 2 * n < |rr.d| && 4 * n <= |t.d|
    requires rr != a && t != a && rr != t
    modifies rr`d, t`d
    ensures |rr.d| == old(|rr.d|) && Val(rr.d[..2 * n]) == Times(a.Mag(), a.Mag())
  {
    hide Val, Product, RecursiveSize, Kept;
    assert a.d[0..0 + n] == a.d[..n];
    WorkIs(n);
    SqrRecursive(rr, 0, a, 0, n, t, 0);
    ProductIs(a.d[..n], a.d[..n]);
    assert rr.d[..2 * n] == rr.d[0..0 + 2 * n];
  }

  /** The square of n words with a nonzero top word has 2n or 2n - 1 words. */
  lemma SquareLength(x: seq<Word>, z: seq<Word>)
    requires x != [] && x[|x| - 1] != 0 && |z| == 2 * |x| && Val(z) == Times(Val(x), Val(x))
    requires z[|z| - 1] == 0
    ensures z[|z| - 2] != 0 && Val(z[..|z| - 1]) == Val(z)
  {
    hide Val;
    var m := |x| - 1;
    DropZero(z);
    TopWordNonzero(x);
    BPAdd(m, m);
    SquareMono(BP(m), Val(x));
    TopWordNonzero(z[..|z| - 1]);
  }

  lemma SquareMono(p: int, x: int)
    requires 0 <= p <= x
    ensures p * p <= Times(x, x)
  {
    MulMono(p, x, p);
    MulMono(p, x, x);
    Commute(p, x);
  }

  /** BN_sqr. The square of zero leaves the sign of r as it was. */
  method Sqr(r: Bignum, a: Bignum)
    requires r.Wf() && a.Valid()
    modifies r
    ensures r.Valid() && r.Mag() == Times(old(a.Mag()), old(a.Mag()))
    ensures r.neg == (old(a.top) == 0 && old(r.neg))
    ensures r.top == 0 <==> old(a.top) == 0
  {
    hide Val, Bignum.Mag, Times;
    ZeroMag(a);
    SignOfTimes(a.Mag(), a.Mag(), false, false);
    if a.top == 0 {
      r.top := 0;
      ZeroMag(r);
      return;
    }
    var rr := r;
    if r == a { rr := new Bignum.Temp(); }
    SqrWordsInto(rr, a);
    var max := 2 * a.top;
    ghost var z := rr.d[..max];
    MagIs(a);
    rr.top := max;
    rr.neg := false;
    if rr.d[max - 1] == 0 {
      SquareLength(a.d[..a.top], z);
      rr.top := rr.top - 1;
      assert rr.d[..rr.top] == z[..max - 1];
    }
    MagIs(rr);
    ZeroMag(rr);
    if rr != r { Copy(r, rr); }
  }
}
