/** bn_mul_comba4/8 and bn_sqr_comba4/8: products by columns in a three-word accumulator. */
module Comba {
  import opened Words
  import opened HalfWords
  import opened Bignums
  import opened WordLoops

  /** y[j], and 0 outside the sequence. */
  ghost function At(y: seq<Word>, j: int): (w: Word) {
    if 0 <= j < |y| then y[j] else 0
  }

  /** The products x[i] * y[k-i] of column k with i < m. */
  ghost function Column(x: seq<Word>, y: seq<Word>, k: int, m: nat): int
    requires m <= |x|
  {
    if m == 0 then 0 else Column(x, y, k, m - 1) + x[m - 1] * At(y, k - (m - 1))
  }

  /** The first n columns, weighted. */
  ghost function Columns(x: seq<Word>, y: seq<Word>, m: nat, n: nat): int
    requires m <= |x|
  {
    if n == 0 then 0 else Columns(x, y, m, n - 1) + Column(x, y, n - 1, m) * BP(n - 1)
  }

  /** y moved up by m words, cut after n words. */
  ghost function Moved(y: seq<Word>, m: nat, n: nat): int {
    if n == 0 then 0 else Moved(y, m, n - 1) + At(y, n - 1 - m) * BP(n - 1)
  }

  lemma {:induction false} MovedLow(y: seq<Word>, m: nat, n: nat)
    requires n <= m
    ensures Moved(y, m, n) == 0
  {
    if n > 0 { MovedLow(y, m, n - 1); }
  }

  lemma {:induction false} MovedIs(y: seq<Word>, m: nat, j: nat)
    ensures Moved(y, m, m + j) == BP(m) * Val(y[..if j < |y| then j else |y|])
  {
    if j == 0 {
      MovedLow(y, m, m);
    } else {
      MovedIs(y, m, j - 1);
      if j <= |y| {
        ValTake(y, j - 1);
        BPAdd(m, j - 1);
        ConcatStep(BP(m), Val(y[..j - 1]), y[j - 1], BP(j - 1));
      }
    }
  }

  lemma {:induction false} ColumnsGrow(x: seq<Word>, y: seq<Word>, m: nat, n: nat)
    requires m < |x|
    ensures Columns(x, y, m + 1, n) == Columns(x, y, m, n) + x[m] * Moved(y, m, n)
  {
    if n > 0 {
      ColumnsGrow(x, y, m, n - 1);
      GrowStep(Column(x, y, n - 1, m), x[m], At(y, n - 1 - m), BP(n - 1), Moved(y, m, n - 1));
    }
  }

  lemma GrowStep(c: int, x: int, a: int, p: int, v: int)
    ensures (c + x * a) * p + x * v == c * p + x * (v + a * p)
  {}

  /** All columns together are the product. */
  lemma {:induction false} ColumnsAre(x: seq<Word>, y: seq<Word>, m: nat, n: nat)
    requires m <= |x| && m + |y| <= n + 1
    ensures Columns(x, y, m, n) == Val(x[..m]) * Val(y)
  {
    if m == 0 {
      NoColumns(x, y, n);
    } else {
      ColumnsAre(x, y, m - 1, n);
      ColumnsGrow(x, y, m - 1, n);
      MovedIs(y, m - 1, n - (m - 1));
      assert y[..|y|] == y;
      ValTake(x, m - 1);
      ProductStep(Val(x[..m - 1]), x[m - 1], BP(m - 1), Val(y));
    }
  }

  lemma ProductStep(v: int, x: int, p: int, y: int)
    ensures v * y + x * (p * y) == (v + x * p) * y
  {}

  lemma {:induction false} NoColumns(x: seq<Word>, y: seq<Word>, n: nat)
    ensures Columns(x, y, 0, n) == 0
  {
    if n > 0 { NoColumns(x, y, n - 1); }
  }

  /** Terms of a column whose y index is past the end, or negative, contribute nothing. */
  lemma {:induction false} ColumnEnds(x: seq<Word>, y: seq<Word>, k: nat, m: nat)
    requires m <= |x|
    ensures m == 0 || m + |y| <= k + 1 ==> Column(x, y, k, m) == 0
    ensures k < m ==> Column(x, y, k, m) == Column(x, y, k, k + 1)
  {
    if m > 0 { ColumnEnds(x, y, k, m - 1); }
  }

  lemma ColumnNext(x: seq<Word>, y: seq<Word>, k: nat, m: nat)
    requires m < |x| && m <= k < m + |y|
    ensures Column(x, y, k, m + 1) == Column(x, y, k, m) + (x[m] as int) * y[k - m]
  {}

  /** One column of bn_mul_comba: c += the sum of a[i] * b[k-i]. */
  method MulColumn(a: Bignum, ao: nat, b: Bignum, bo: nat, n: nat, k: nat, c0: Word, c1: Word)
    returns (c0': Word, c1': Word, c2': Word)
    requires 0 < n <= 8 && k < 2 * n - 1 && ao + n <= |a.d| && bo + n <= |b.d|
    ensures Acc(c0', c1', c2') == Acc(c0, c1, 0) + Column(a.d[ao..ao + n], b.d[bo..bo + n], k, n)
    ensures c2' <= 8
  {
    hide Acc, Column;
    ghost var x, y := a.d[ao..ao + n], b.d[bo..bo + n];
    var i: nat := if k < n then 0 else k - n + 1;
    var hi: nat := if k < n then k else n - 1;
    ghost var t: nat := 0;
    c0', c1', c2' := c0, c1, 0;
    ColumnEnds(x, y, k, i);
    ColumnEnds(x, y, k, n);
    AccBounds(c0, c1, 0);
    while i <= hi
      invariant i <= hi + 1 <= n && t + (hi + 1 - i) <= 8
      invariant Acc(c0', c1', c2') == Acc(c0, c1, 0) + Column(x, y, k, i)
      invariant Acc(c0', c1', c2') < 0x1_0000_0000_0000_0000 + t * 0x1_0000_0000_0000_0000
    {
      WordProduct(x[i], y[k - i]);
      ColumnNext(x, y, k, i);
      c0', c1', c2' := MulAddC(a.d[ao + i], b.d[bo + (k - i)], c0', c1', c2');
      i, t := i + 1, t + 1;
    }
    AccBounds(c0', c1', c2');
  }

  lemma AccBounds(c0: Word, c1: Word, c2: Word)
    ensures 0x1_0000_0000_0000_0000 * c2 <= Acc(c0, c1, c2) < 0x1_0000_0000_0000_0000 * (c2 + 1)
  {}

  /** One column of bn_sqr_comba: the products off the diagonal are taken once and doubled. */
  method SqrColumn(a: Bignum, ao: nat, n: nat, k: nat, c0: Word, c1: Word)
    returns (c0': Word, c1': Word, c2': Word)
    requires 0 < n <= 8 && k < 2 * n - 1 && ao + n <= |a.d|
    ensures Acc(c0', c1', c2') == Acc(c0, c1, 0) + Column(a.d[ao..ao + n], a.d[ao..ao + n], k, n)
    ensures c2' <= 8
  {
    hide Acc, Column;
    ghost var x := a.d[ao..ao + n];
    var lo: nat := if k < n then 0 else k - n + 1;
    var hi: nat := if k < n then k else n - 1;
    var i := lo;
    ghost var t: nat := 0;
    c0', c1', c2' := c0, c1, 0;
    ColumnEnds(x, x, k, i);
    ColumnEnds(x, x, k, n);
    AccBounds(c0, c1, 0);
    while i < k - i
      invariant lo <= i <= k - i + 1 && t + (k - i + 1 - i) <= 8
      invariant Acc(c0', c1', c2') + Column(x, x, k, k - i + 1) - Column(x, x, k, i)
             == Acc(c0, c1, 0) + Column(x, x, k, n)
      invariant Acc(c0', c1', c2') < 0x1_0000_0000_0000_0000 + t * 0x1_0000_0000_0000_0000
    {
      WordProduct(x[i], x[k - i]);
      Commute(x[i], x[k - i]);
      ColumnNext(x, x, k, i);
      ColumnNext(x, x, k, k - i);
      c0', c1', c2' := MulAddC2(a.d[ao + (k - i)], a.d[ao + i], c0', c1', c2');
      i, t := i + 1, t + 2;
    }
    if i == k - i {
      WordProduct(x[i], x[i]);
      ColumnNext(x, x, k, i);
      c0', c1', c2' := SqrAddC(a.d[ao + i], c0', c1', c2');
    }
    AccBounds(c0', c1', c2');
  }

  /** Storing the low accumulator word as word k of the result and moving the others down. */
  lemma CombaStep(x: seq<Word>, y: seq<Word>, n: nat, z: seq<Word>, acc: int, c0: Word, c1: Word, c2: Word)
    requires n <= |x| && Val(z) + BP(|z|) * acc == Columns(x, y, n, |z|)
    requires Acc(c0, c1, c2) == acc + Column(x, y, |z|, n)
    ensures Val(z + [c0]) + BP(|z| + 1) * Acc(c1, c2, 0) == Columns(x, y, n, |z| + 1)
  {
    ValSnoc(z, c0);
    StoreStep(Val(z), BP(|z|), acc, Column(x, y, |z|, n), c0, Acc(c1, c2, 0));
  }

  lemma StoreStep(v: int, p: int, acc: int, col: int, c0: int, rest: int)
    requires c0 + 0x1_0000_0000 * rest == acc + col
    ensures v + c0 * p + (0x1_0000_0000 * p) * rest == v + p * acc + col * p
  {
    assert (c0 + 0x1_0000_0000 * rest) * p == (acc + col) * p;
  }

  /** After the last column the accumulator is the top word. */
  lemma CombaEnd(x: seq<Word>, y: seq<Word>, z: seq<Word>, c0: Word, c1: Word)
    requires |x| == |y| > 0 && |z| == 2 * |x| - 1
    requires Val(z) + BP(|z|) * Acc(c0, c1, 0) == Columns(x, y, |x|, |z|)
    ensures Val(z + [c0]) == Val(x) * Val(y)
  {
    hide Acc, Column, Columns, Val;
    ColumnsAre(x, y, |x|, |z|);
    assert x[..|x|] == x;
    ValBound(x); ValBound(y);
    BPAdd(|x|, |y|);
    ProductBound(Val(x), BP(|x|), Val(y), BP(|y|));
    assert BP(|x| + |y|) == 0x1_0000_0000 * BP(|z|);
    TopWord(Val(z), BP(|z|), c0, c1);
    ValSnoc(z, c0);
  }

  lemma ProductBound(x: int, p: int, y: int, q: int)
    requires 0 <= x < p && 0 <= y < q
    ensures 0 <= x * y < p * q
  {
    MulMono(x, p, y);
    MulMono(0, x, y);
    MulMono(y, q - 1, p);
    Commute(p, y); Commute(p, q);
  }

  lemma TopWord(v: int, p: int, c0: Word, c1: Word)
    requires v >= 0 && p > 0 && v + p * Acc(c0, c1, 0) < 0x1_0000_0000 * p
    ensures c1 == 0 && Acc(c0, c1, 0) == c0 && p * c0 == c0 * p
  {
    if c1 > 0 { MulMono(0x1_0000_0000, Acc(c0, c1, 0), p); }
  }

  /** bn_mul_comba4 (n = 4) and bn_mul_comba8 (n = 8). */
  method MulComba(r: Bignum, ro: nat, a: Bignum, ao: nat, b: Bignum, bo: nat, n: nat)
    returns (ghost z: seq<Word>)
    requires 0 < n <= 8 && ro + 2 * n <= |r.d| && ao + n <= |a.d| && bo + n <= |b.d|
    requires Disjoint(r, ro, 2 * n, a, ao, n) && Disjoint(r, ro, 2 * n, b, bo, n)
    modifies r`d
    ensures |z| == 2 * n && r.d == Splice(old(r.d), ro, z)
    ensures Val(z) == Val(old(a.d[ao..ao + n])) * Val(old(b.d[bo..bo + n]))
  {
    hide Acc, Column, Columns, Val;
    ghost var s, x, y := r.d, a.d[ao..ao + n], b.d[bo..bo + n];
    var c0: Word, c1: Word, c2: Word := 0, 0, 0;
    var k := 0;
    z := [];
    AccZero(c0, c1);
    CombaStart(x, y, n, z, k, Acc(c0, c1, 0));
    assert Splice(s, ro, z) == s;
    while k < 2 * n - 1
      invariant |z| == k <= 2 * n - 1 && c2 == 0
      invariant r.d == Splice(s, ro, z)
      invariant a.d[ao..ao + n] == x && b.d[bo..bo + n] == y
      invariant Val(z) + BP(k) * Acc(c0, c1, 0) == Columns(x, y, n, k)
    {
      ghost var acc := Acc(c0, c1, 0);
      c0, c1, c2 := MulColumn(a, ao, b, bo, n, k, c0, c1);
      CombaStep(x, y, n, z, acc, c0, c1, c2);
      Store(s, ro, z, c0, 2 * n, ao, bo, n);
      r.d := r.d[ro + k := c0];
      k, z := k + 1, z + [c0];
      c0, c1, c2 := c1, c2, 0;
    }
    CombaEnd(x, y, z, c0, c1);
    SpliceSnoc(s, ro, z, c0);
    r.d := r.d[ro + k := c0];
    z := z + [c0];
  }

  lemma AccZero(c0: Word, c1: Word)
    ensures c0 == c1 == 0 ==> Acc(c0, c1, 0) == 0
  {}

  lemma CombaStart(x: seq<Word>, y: seq<Word>, n: nat, z: seq<Word>, k: nat, acc: int)
    requires n <= |x| && |z| == k == acc == 0
    ensures Val(z) + BP(k) * acc == Columns(x, y, n, k)
  {}

  /** Writing word |z| of the result slice leaves operand slices outside it alone. */
  lemma Store(s: seq<Word>, ro: nat, z: seq<Word>, c: Word, m: nat, ao: nat, bo: nat, n: nat)
    requires |z| < m && ro + m <= |s|
    ensures Splice(s, ro, z)[ro + |z| := c] == Splice(s, ro, z + [c])
    ensures ao + n <= |s| && (ro + m <= ao || ao + n <= ro)
        ==> Splice(s, ro, z + [c])[ao..ao + n] == s[ao..ao + n]
    ensures bo + n <= |s| && (ro + m <= bo || bo + n <= ro)
        ==> Splice(s, ro, z + [c])[bo..bo + n] == s[bo..bo + n]
  {
    hide Splice;
    SpliceSnoc(s, ro, z, c);
    if ao + n <= |s| && (ro + m <= ao || ao + n <= ro) { SpliceKeeps(s, ro, z + [c], ao, ao + n); }
    if bo + n <= |s| && (ro + m <= bo || bo + n <= ro) { SpliceKeeps(s, ro, z + [c], bo, bo + n); }
  }

  /** bn_sqr_comba4 (n = 4) and bn_sqr_comba8 (n = 8). */
  method SqrComba(r: Bignum, ro: nat, a: Bignum, ao: nat, n: nat)
    returns (ghost z: seq<Word>)
    requires 0 < n <= 8 && ro + 2 * n <= |r.d| && ao + n <= |a.d|
    requires Disjoint(r, ro, 2 * n, a, ao, n)
    modifies r`d
    ensures |z| == 2 * n && r.d == Splice(old(r.d), ro, z)
    ensures Val(z) == Val(old(a.d[ao..ao + n])) * Val(old(a.d[ao..ao + n]))
  {
    hide Acc, Column, Columns, Val;
    ghost var s, x := r.d, a.d[ao..ao + n];
    var c0: Word, c1: Word, c2: Word := 0, 0, 0;
    var k := 0;
    z := [];
    AccZero(c0, c1);
    CombaStart(x, x, n, z, k, Acc(c0, c1, 0));
    assert Splice(s, ro, z) == s;
    while k < 2 * n - 1
      invariant |z| == k <= 2 * n - 1 && c2 == 0
      invariant r.d == Splice(s, ro, z)
      invariant a.d[ao..ao + n] == x
      invariant Val(z) + BP(k) * Acc(c0, c1, 0) == Columns(x, x, n, k)
    {
      ghost var acc := Acc(c0, c1, 0);
      c0, c1, c2 := SqrColumn(a, ao, n, k, c0, c1);
      CombaStep(x, x, n, z, acc, c0, c1, c2);
      Store(s, ro, z, c0, 2 * n, ao, ao, n);
      r.d := r.d[ro + k := c0];
      k, z := k + 1, z + [c0];
      c0, c1, c2 := c1, c2, 0;
    }
    CombaEnd(x, x, z, c0, c1);
    SpliceSnoc(s, ro, z, c0);
    r.d := r.d[ro + k := c0];
    z := z + [c0];
  }
}
