/** bn_mul.c: the schoolbook and the Karatsuba product. */
module Multiply {
  import opened Words
  import opened Bignums
  import opened WordLoops
  import opened Ripple

  // ---------- bn_mul_normal

  /** Adding x times the next word of y into the partial product. */
  lemma NormalStep(x: seq<Word>, y: seq<Word>, z: seq<Word>, i: nat, z1: seq<Word>, c: Word)
    requires i < |y| && |z| == |x| + i && |z1| == |x|
    requires Val(z) == Product(x, y[..i])
    requires Scaled(z1, c, x, y[i], Val(z[i..]))
    ensures Val(z[..i] + z1 + [c]) == Product(x, y[..i + 1])
  {
    hide Val;
    assert z == z[..i] + z[i..];
    ValConcat(z[..i], z[i..]);
    assert z[..i] + z1 + [c] == z[..i] + (z1 + [c]);
    ValConcat(z[..i], z1 + [c]);
    ValSnoc(z1, c);
    ValTake(y, i);
    PartialProduct(Val(x), Val(y[..i]), y[i], BP(i), Val(z[..i]), Val(z[i..]), Val(z1 + [c]));
  }

  lemma PartialProduct(x: int, y: int, w: int, p: int, lo: int, hi: int, hi': int)
    requires lo + p * hi == x * y && hi' == x * w + hi
    ensures lo + p * hi' == x * (y + w * p)
  {
    assert p * hi' == x * (w * p) + p * hi;
  }

  lemma SpliceStep(s: seq<Word>, ro: nat, z: seq<Word>, i: nat, z1: seq<Word>, c: Word)
    requires i <= |z| && |z| == |z1| + i && ro + |z| < |s|
    ensures Splice(Splice(s, ro, z), ro + i, z1)[ro + |z| := c] == Splice(s, ro, z[..i] + z1 + [c])
  {}

  /** bn_mul_normal: the exact product for any operand lengths from one word. */
  method MulNormal(r: Bignum, ro: nat, a: Bignum, ao: nat, na: nat, b: Bignum, bo: nat, nb: nat)
    returns (ghost z: seq<Word>)
    requires na > 0 && nb > 0
    requires ro + na + nb <= |r.d| && ao + na <= |a.d| && bo + nb <= |b.d|
    requires Disjoint(r, ro, na + nb, a, ao, na) && Disjoint(r, ro, na + nb, b, bo, nb)
    modifies r`d
    ensures |z| == na + nb && r.d == Splice(old(r.d), ro, z)
    ensures Val(z) == Product(old(a.d[ao..ao + na]), old(b.d[bo..bo + nb]))
  {
    if na < nb {
      z := MulRows(r, ro, b, bo, nb, a, ao, na);
      Commute(Val(old(a.d[ao..ao + na])), Val(old(b.d[bo..bo + nb])));
    } else {
      z := MulRows(r, ro, a, ao, na, b, bo, nb);
    }
  }

  /** The rows of bn_mul_normal, after the longer operand has been put first. */
  method MulRows(r: Bignum, ro: nat, a: Bignum, ao: nat, na: nat, b: Bignum, bo: nat, nb: nat)
    returns (ghost z: seq<Word>)
    requires na > 0 && nb > 0
    requires ro + na + nb <= |r.d| && ao + na <= |a.d| && bo + nb <= |b.d|
    requires Disjoint(r, ro, na + nb, a, ao, na) && Disjoint(r, ro, na + nb, b, bo, nb)
    modifies r`d
    ensures |z| == na + nb && r.d == Splice(old(r.d), ro, z)
    ensures Val(z) == Product(old(a.d[ao..ao + na]), old(b.d[bo..bo + nb]))
  {
    hide Val, Scaled, Product, BP, Splice;
    ghost var s, x, y := r.d, a.d[ao..ao + na], b.d[bo..bo + nb];
    ghost var z1;
    var c;
    c, z1 := MulWords(r, ro, a, ao, na, b.d[bo]);
    r.d := r.d[ro + na := c];
    z := z1 + [c];
    SpliceSnoc(s, ro, z1, c);
    FirstRow(x, y, z1, c);
    var i := 1;
    while i < nb
      invariant 1 <= i <= nb && |z| == na + i
      invariant r.d == Splice(s, ro, z)
      invariant Val(z) == Product(x, y[..i])
    {
      SpliceKeepsBoth(s, ro, z, na + nb, ao, na, bo, nb);
      ghost var z0 := z;
      c, z1 := Row(r, ro, i, a, ao, na, b.d[bo + i], s, z);
      NormalStep(x, y, z0, i, z1, c);
      z := z0[..i] + z1 + [c];
      i := i + 1;
    }
    assert y[..nb] == y;
  }

  /** One row: a times the word w added in at word i, its carry stored above. */
  method Row(r: Bignum, ro: nat, i: nat, a: Bignum, ao: nat, na: nat, w: Word, ghost s: seq<Word>, ghost z: seq<Word>)
    returns (c: Word, ghost z1: seq<Word>)
    requires |z| == na + i && ro + na + i < |s| && r.d == Splice(s, ro, z)
    requires ao + na <= |a.d| && Disjoint(r, ro, na + i, a, ao, na)
    modifies r`d
    ensures |z1| == na && Scaled(z1, c, old(a.d[ao..ao + na]), w, Val(z[i..]))
    ensures r.d == Splice(s, ro, z[..i] + z1 + [c])
  {
    hide Val, Scaled, BP;
    assert r.d[ro + i..ro + i + na] == z[i..];
    c, z1 := MulAddWords(r, ro + i, a, ao, na, w);
    SpliceStep(s, ro, z, i, z1, c);
    r.d := r.d[ro + na + i := c];
  }

  lemma FirstRow(x: seq<Word>, y: seq<Word>, z: seq<Word>, c: Word)
    requires y != [] && |z| == |x| && Scaled(z, c, x, y[0], 0)
    ensures Val(z + [c]) == Product(x, y[..1])
  {
    ValSnoc(z, c);
    LowWord(y[..1]);
  }

  /** Splices inside the first m words at ro leave disjoint operand slices alone. */
  lemma SpliceKeepsBoth(s: seq<Word>, ro: nat, z: seq<Word>, m: nat, ao: nat, na: nat, bo: nat, nb: nat)
    requires |z| <= m && ro + m <= |s|
    ensures ao + na <= |s| && (ro + m <= ao || ao + na <= ro)
        ==> Splice(s, ro, z)[ao..ao + na] == s[ao..ao + na]
    ensures bo + nb <= |s| && (ro + m <= bo || bo + nb <= ro)
        ==> Splice(s, ro, z)[bo..bo + nb] == s[bo..bo + nb]
  {
    hide Splice;
    if ao + na <= |s| && (ro + m <= ao || ao + na <= ro) { SpliceKeeps(s, ro, z, ao, ao + na); }
    if bo + nb <= |s| && (ro + m <= bo || bo + nb <= ro) { SpliceKeeps(s, ro, z, bo, bo + nb); }
  }

  // ---------- bn_mul_low_normal

  /** z is the product of x and the first i words of y, less a multiple k of 2^(32*|z|). */
  ghost predicate LowProduct(z: seq<Word>, x: seq<Word>, y: seq<Word>, i: nat, k: int)
    requires i <= |y|
  {
    Val(z) + k * BP(|z|) == Product(x, y[..i])
  }

  /** A row that is cut off at the top. */
  lemma LowStep(x: seq<Word>, y: seq<Word>, z: seq<Word>, i: nat, k: int, z1: seq<Word>, c: Word)
    requires 0 < i < |y| && |z| == |x| == |z1| + i && LowProduct(z, x, y, i, k)
    requires Scaled(z1, c, x[..|x| - i], y[i], Val(z[i..]))
    ensures LowProduct(z[..i] + z1, x, y, i + 1, k + c + Val(x[|x| - i..]) * y[i])
  {
    hide Val;
    var n := |x| - i;
    assert z == z[..i] + z[i..] && x == x[..n] + x[n..];
    ValConcat(z[..i], z[i..]); ValConcat(z[..i], z1); ValConcat(x[..n], x[n..]);
    ValTake(y, i);
    BPAdd(i, n);
    LowArith(Val(x[..n]), Val(x[n..]), BP(n), y[i], BP(i), Val(z[..i]), Val(z[i..]), Val(z1), c);
    LowSum(Val(z), Val(z[..i] + z1), k, BP(|z|), c, Val(x[n..]), y[i], Val(x), Val(y[..i]), BP(i));
  }

  lemma LowArith(lo: int, hi: int, q: int, w: int, p: int, zl: int, zh: int, z1: int, c: int)
    requires z1 + c * q == lo * w + zh
    ensures (zl + p * z1) + (c + hi * w) * (p * q) == (zl + p * zh) + p * ((lo + q * hi) * w)
  {
    assert p * (z1 + c * q) == p * z1 + c * (p * q);
    assert p * (lo * w + zh) == p * (lo * w) + p * zh;
    assert (lo + q * hi) * w == lo * w + (hi * w) * q;
    assert p * (lo * w + (hi * w) * q) == p * (lo * w) + (hi * w) * (p * q);
    Distribute(c, hi * w, p * q);
  }

  lemma LowSum(z: int, z': int, k: int, b: int, c: int, hi: int, w: int, x: int, y: int, p: int)
    requires z + k * b == x * y && z' + (c + hi * w) * b == z + p * (x * w)
    ensures z' + (k + c + hi * w) * b == x * (y + w * p)
  {
    Distribute(k, c + hi * w, b);
    assert x * (y + w * p) == x * y + p * (x * w);
  }

  /** bn_mul_low_normal: the low n words of the product of two numbers of n words. */
  method MulLowNormal(r: Bignum, ro: nat, a: Bignum, ao: nat, b: Bignum, bo: nat, n: nat) returns (ghost z: seq<Word>)
    requires n > 0 && ro + n <= |r.d| && ao + n <= |a.d| && bo + n <= |b.d|
    requires Disjoint(r, ro, n, a, ao, n) && Disjoint(r, ro, n, b, bo, n)
    modifies r`d
    ensures |z| == n && r.d == Splice(old(r.d), ro, z)
    ensures Val(z) == Product(old(a.d[ao..ao + n]), old(b.d[bo..bo + n])) % BP(n)
  {
    hide Val, Scaled, Product, BP, LowProduct, Splice;
    ghost var s, x, y := r.d, a.d[ao..ao + n], b.d[bo..bo + n];
    var c;
    c, z := MulWords(r, ro, a, ao, n, b.d[bo]);
    LowStart(x, y, z, c);
    ghost var k: int := c;
    var i := 1;
    while i < n
      invariant 1 <= i <= n && |z| == n
      invariant r.d == Splice(s, ro, z) && LowProduct(z, x, y, i, k)
    {
      SpliceKeepsBoth(s, ro, z, n, ao, n, bo, n);
      assert a.d[ao..ao + n] == x && b.d[bo..bo + n] == y;
      PartOfSlice(a.d, ao, n, i);
      SpliceTail(s, ro, z, i);
      assert r.d[ro + i..ro + i + (n - i)] == z[i..];
      ghost var z1;
      c, z1 := MulAddWords(r, ro + i, a, ao, n - i, b.d[bo + i]);
      LowStep(x, y, z, i, k, z1, c);
      InnerSplice(s, ro, z, i, z1);
      k := k + c + Val(x[n - i..]) * y[i];
      z := z[..i] + z1;
      i := i + 1;
    }
    assert y[..n] == y;
    LowEnd(z, x, y, k);
  }

  lemma PartOfSlice(s: seq<Word>, ao: nat, n: nat, i: nat)
    requires i <= n && ao + n <= |s|
    ensures s[ao..ao + n][..n - i] == s[ao..ao + (n - i)]
  {}

  lemma LowStart(x: seq<Word>, y: seq<Word>, z: seq<Word>, c: Word)
    requires y != [] && |z| == |x| && Scaled(z, c, x, y[0], 0)
    ensures LowProduct(z, x, y, 1, c)
  {
    assert y[..1] == [y[0]];
    LowWord(y[..1]);
  }

  lemma SpliceTail(s: seq<Word>, ro: nat, z: seq<Word>, i: nat)
    requires i <= |z| && ro + |z| <= |s|
    ensures Splice(s, ro, z)[ro + i..ro + |z|] == z[i..]
  {}

  lemma InnerSplice(s: seq<Word>, ro: nat, z: seq<Word>, i: nat, z1: seq<Word>)
    requires i + |z1| == |z| && ro + |z| <= |s|
    ensures Splice(Splice(s, ro, z), ro + i, z1) == Splice(s, ro, z[..i] + z1)
  {}

  lemma LowEnd(z: seq<Word>, x: seq<Word>, y: seq<Word>, k: int)
    requires LowProduct(z, x, y, |y|, k)
    ensures Val(z) == Product(x, y) % BP(|z|)
  {
    hide Val;
    assert y[..|y|] == y;
    ValBound(z);
    QuotientUnique(Product(x, y), BP(|z|), k, Val(z));
  }

}
