/** bn_sqr.c: squares from doubled cross products, and the recursive square. */
module Square {
  import opened Words
  import opened Bignums
  import opened HalfWords
  import opened WordLoops
  import opened Ripple
  import opened Comba
  import opened Karatsuba
  import opened Multiply

  // ---------- bn_sqr_words

  /** The sum of the squares of the words, each at twice its position. */
  ghost function Squares(x: seq<Word>): int {
    if |x| == 0 then 0 else Squares(x[..|x| - 1]) + (x[|x| - 1] * x[|x| - 1]) * BP(2 * (|x| - 1))
  }

  lemma SquaresStep(x: seq<Word>, i: nat, z: seq<Word>, lo: Word, hi: Word)
    requires i < |x| && |z| == 2 * i && Val(z) == Squares(x[..i])
    requires lo + 0x1_0000_0000 * hi == x[i] as int * x[i]
    ensures Val(z + [lo] + [hi]) == Squares(x[..i + 1])
  {
    hide Val, Squares;
    SquaresIs(x, i);
    ValSnoc(z, lo);
    ValSnoc(z + [lo], hi);
    PairStep(lo, hi, BP(2 * i), x[i] as int * x[i]);
  }

  lemma SquaresIs(x: seq<Word>, i: nat)
    requires i < |x|
    ensures Squares(x[..i + 1]) == Squares(x[..i]) + (x[i] as int * x[i]) * BP(2 * i)
  {
    assert x[..i + 1][..i] == x[..i];
  }

  lemma PairStep(lo: int, hi: int, p: int, q: int)
    requires lo + 0x1_0000_0000 * hi == q
    ensures lo * p + hi * (0x1_0000_0000 * p) == q * p
  {}

  /** bn_sqr_words */
  method SqrWords(r: Bignum, ro: nat, a: Bignum, ao: nat, n: nat) returns (ghost z: seq<Word>)
    requires ro + 2 * n <= |r.d| && ao + n <= |a.d| && Disjoint(r, ro, 2 * n, a, ao, n)
    modifies r`d
    ensures |z| == 2 * n && r.d == Splice(old(r.d), ro, z)
    ensures Val(z) == Squares(old(a.d[ao..ao + n]))
  {
    hide Val, BP, Squares;
    ghost var s, x := r.d, a.d[ao..ao + n];
    var i := 0;
    z := [];
    NoSquares(x);
    assert Splice(s, ro, z) == s;
    while i < n
      invariant |z| == 2 * i <= 2 * n
      invariant r.d == Splice(s, ro, z) && a.d[ao..ao + n] == x
      invariant Val(z) == Squares(x[..i])
    {
      var lo: Word, hi: Word := Sqr64(a.d[ao + i]);
      SquaresStep(x, i, z, lo, hi);
      Store(s, ro, z, lo, 2 * n, ao, ao, n);
      Store(s, ro, z + [lo], hi, 2 * n, ao, ao, n);
      r.d := r.d[ro + 2 * i := lo];
      r.d := r.d[ro + 2 * i + 1 := hi];
      i, z := i + 1, z + [lo] + [hi];
    }
    assert x[..n] == x;
  }

  lemma NoSquares(x: seq<Word>)
    ensures x[..0] == [] && Val([]) == Squares(x[..0])
  {}

  // ---------- the cross products

  /** The products x[i] * x[j] with i < k and i < j, each at position i + j. */
  ghost function Cross(x: seq<Word>, k: nat): int
    requires k <= |x|
  {
    if k == 0 then 0 else Cross(x, k - 1) + (x[k - 1] * BP(2 * k - 1)) * Val(x[k..])
  }

  /** A square is the squares of its words and twice their cross products. */
  lemma {:induction false} SquareSplit(x: seq<Word>, k: nat)
    requires k <= |x|
    ensures Product(x, x) == Squares(x[..k]) + 2 * Cross(x, k) + BP(2 * k) * Product(x[k..], x[k..])
  {
    if k == 0 {
      assert x[..0] == [] && x[0..] == x;
      NoSquares(x);
      ProductIs(x, x);
    } else {
      SquareSplit(x, k - 1);
      assert x[..k][..k - 1] == x[..k - 1];
      assert x[k - 1..][1..] == x[k..];
      LowWord(x[k - 1..]);
      ProductIs(x[k - 1..], x[k - 1..]); ProductIs(x[k..], x[k..]);
      SplitStep(x[k - 1], Val(x[k..]), BP(2 * (k - 1)), BP(2 * k - 1), BP(2 * k));
    }
  }

  lemma SplitStep(w: int, v: int, p: int, p1: int, p2: int)
    requires p1 == 0x1_0000_0000 * p && p2 == 0x1_0000_0000 * p1
    ensures p * ((w + 0x1_0000_0000 * v) * (w + 0x1_0000_0000 * v)) == (w * w) * p + 2 * ((w * p1) * v) + p2 * (v * v)
  {
    var c := 0x1_0000_0000 * v;
    assert (w + c) * (w + c) == w * w + 2 * (w * c) + c * c;
    assert p * (w * c) == (w * p1) * v;
    assert p * (c * c) == p2 * (v * v);
  }

  lemma CrossEnd(x: seq<Word>)
    requires x != []
    ensures Cross(x, |x|) == Cross(x, |x| - 1)
  {
    assert x[|x|..] == [];
  }

  /** Row k of the cross products. */
  lemma CrossStep(x: seq<Word>, k: nat, z: seq<Word>, z1: seq<Word>, c: Word)
    requires k + 1 < |x| && |z| == |x| + k && |z1| == |x| - 1 - k
    requires Val(z) == Cross(x, k)
    requires Scaled(z1, c, x[k + 1..], x[k], Val(z[2 * k + 1..]))
    ensures Val(z[..2 * k + 1] + z1 + [c]) == Cross(x, k + 1)
  {
    hide Val, Cross;
    var i := 2 * k + 1;
    assert z == z[..i] + z[i..];
    ValConcat(z[..i], z[i..]);
    assert z[..i] + z1 + [c] == z[..i] + (z1 + [c]);
    ValConcat(z[..i], z1 + [c]);
    ValSnoc(z1, c);
    CrossIs(x, k);
    CrossArith(Val(x[k + 1..]), x[k], BP(i), Val(z[..i]), Val(z[i..]), Val(z1 + [c]));
  }

  lemma CrossIs(x: seq<Word>, k: nat)
    requires k < |x|
    ensures Cross(x, k + 1) == Cross(x, k) + (x[k] * BP(2 * k + 1)) * Val(x[k + 1..])
  {}

  lemma CrossArith(v: int, w: int, p: int, lo: int, hi: int, hi': int)
    requires hi' == v * w + hi
    ensures lo + p * hi' == lo + p * hi + (w * p) * v
  {}

  lemma FirstCross(x: seq<Word>, z1: seq<Word>, c: Word)
    requires |x| > 1 && |z1| == |x| - 1 && Scaled(z1, c, x[1..], x[0], 0)
    ensures Val([0] + z1 + [c]) == Cross(x, 1)
  {
    hide Val;
    assert [0] + z1 + [c] == [0] + (z1 + [c]);
    ValSnoc(z1, c);
    LowWord([0] + (z1 + [c]));
    assert ([0] + (z1 + [c]))[1..] == z1 + [c];
    NoCross(x);
    CrossIs(x, 0);
    assert BP(1) == 0x1_0000_0000;
    CrossArith(Val(x[1..]), x[0], BP(1), 0, 0, Val(z1 + [c]));
  }

  lemma NoCross(x: seq<Word>)
    ensures Cross(x, 0) == 0 && Val([0]) == 0
  {
    ValSnoc([], 0);
    assert [] + [0] == [0];
  }

  /** The cross products in place: rows of bn_mul_words and bn_mul_add_words, two words apart. */
  method CrossProducts(r: Bignum, ro: nat, a: Bignum, ao: nat, n: nat) returns (ghost z: seq<Word>)
    requires n > 0 && ro + 2 * n <= |r.d| && ao + n <= |a.d| && Disjoint(r, ro, 2 * n, a, ao, n)
    modifies r`d
    ensures |z| == 2 * n && r.d == Splice(old(r.d), ro, z)
    ensures Val(z) == Cross(old(a.d[ao..ao + n]), n)
  {
    hide Val, Scaled, BP, Cross;
    ghost var s, x := r.d, a.d[ao..ao + n];
    r.d := r.d[ro := 0];
    r.d := r.d[ro + 2 * n - 1 := 0];
    ghost var s1 := s[ro + 2 * n - 1 := 0];
    z := [0];
    NoCross(x);
    assert r.d == Splice(s1, ro, z);
    var k := 0;
    if n > 1 {
      z := FirstRowCross(r, ro, a, ao, n, s1);
      k := 1;
    }
    while k < n - 1
      invariant k <= n - 1 && |z| == n + k && (n > 1 ==> k > 0)
      invariant r.d == Splice(s1, ro, z) && a.d[ao..ao + n] == x
      invariant Val(z) == Cross(x, k)
    {
      z := NextRowCross(r, ro, a, ao, n, k, s1, z);
      k := k + 1;
    }
    ValSnoc(z, 0);
    CrossEnd(x);
    TopZero(s, ro, n, z);
    z := z + [0];
  }

  lemma TopZero(s: seq<Word>, ro: nat, n: nat, z: seq<Word>)
    requires n > 0 && |z| == 2 * n - 1 && ro + 2 * n <= |s|
    ensures Splice(s[ro + 2 * n - 1 := 0], ro, z) == Splice(s, ro, z + [0])
    ensures 0 * BP(|z|) == 0
  {
    hide BP, Splice;
    SpliceSnoc(s[ro + 2 * n - 1 := 0], ro, z, 0);
    SpliceOver(s, ro, s[ro..ro + 2 * n - 1] + [0], z + [0]);
    LastCleared(s, ro, n, z);
  }

  lemma LastCleared(s: seq<Word>, ro: nat, n: nat, z: seq<Word>)
    requires n > 0 && |z| == 2 * n - 1 && ro + 2 * n <= |s|
    ensures s[ro + 2 * n - 1 := 0] == Splice(s, ro, s[ro..ro + 2 * n - 1] + [0])
    ensures Splice(s[ro + 2 * n - 1 := 0], ro, z)[ro + 2 * n - 1] == 0
  {}

  method FirstRowCross(r: Bignum, ro: nat, a: Bignum, ao: nat, n: nat, ghost s: seq<Word>) returns (ghost z: seq<Word>)
    requires n > 1 && ro + 2 * n <= |s| && ao + n <= |a.d| && Disjoint(r, ro, 2 * n, a, ao, n)
    requires r.d == Splice(s, ro, [0])
    modifies r`d
    ensures |z| == n + 1 && r.d == Splice(s, ro, z) && a.d[ao..ao + n] == old(a.d[ao..ao + n])
    ensures Val(z) == Cross(a.d[ao..ao + n], 1)
  {
    hide Val, Scaled, BP, Cross;
    ghost var x := a.d[ao..ao + n];
    var c;
    ghost var z1;
    c, z1 := MulWords(r, ro + 1, a, ao + 1, n - 1, a.d[ao]);
    r.d := r.d[ro + n := c];
    z := [0] + z1 + [c];
    FirstCross(x, z1, c);
    JoinFirst(s, ro, z1, c);
    SpliceKeepsBoth(s, ro, z, 2 * n, ao, n, ao, n);
  }

  lemma JoinFirst(s: seq<Word>, ro: nat, z1: seq<Word>, c: Word)
    requires ro + |z1| + 2 <= |s|
    ensures Splice(Splice(s, ro, [0]), ro + 1, z1)[ro + |z1| + 1 := c] == Splice(s, ro, [0] + z1 + [c])
  {}

  method NextRowCross(r: Bignum, ro: nat, a: Bignum, ao: nat, n: nat, k: nat, ghost s: seq<Word>, ghost z: seq<Word>)
    returns (ghost z': seq<Word>)
    requires 0 < k < n - 1 && ro + 2 * n <= |s| && ao + n <= |a.d| && Disjoint(r, ro, 2 * n, a, ao, n)
    requires |z| == n + k && r.d == Splice(s, ro, z) && Val(z) == Cross(a.d[ao..ao + n], k)
    modifies r`d
    ensures |z'| == n + k + 1 && r.d == Splice(s, ro, z') && a.d[ao..ao + n] == old(a.d[ao..ao + n])
    ensures Val(z') == Cross(a.d[ao..ao + n], k + 1)
  {
    hide Val, Scaled, BP, Cross;
    ghost var x := a.d[ao..ao + n];
    assert a.d[ao + k + 1..ao + n] == x[k + 1..];
    var c;
    ghost var z1;
    c, z1 := Row(r, ro, 2 * k + 1, a, ao + k + 1, n - 1 - k, a.d[ao + k], s, z);
    z' := z[..2 * k + 1] + z1 + [c];
    CrossStep(x, k, z, z1, c);
    SpliceKeepsBoth(s, ro, z', 2 * n, ao, n, ao, n);
    SpliceKeepsBoth(s, ro, z, 2 * n, ao, n, ao, n);
  }

  // ---------- bn_sqr_normal

  /** Doubling the cross products does not overflow 2n words, and neither does adding the squares. */
  lemma SquareFits(x: seq<Word>, z: seq<Word>, z1: seq<Word>, c1: int, w: seq<Word>, z2: seq<Word>, c2: int)
    requires |z| == |z1| == |w| == |z2| == 2 * |x|
    requires Val(z) == Cross(x, |x|) && Val(w) == Squares(x)
    requires Added(z1, c1, z, z) && Added(z2, c2, z1, w) && c1 >= 0 && c2 >= 0
    ensures c1 == 0 && c2 == 0 && Val(z2) == Product(x, x)
  {
    hide Val, Squares, Cross, BP, Product;
    SquareSplit(x, |x|);
    assert x[..|x|] == x && x[|x|..] == [];
    EmptyProduct(x[|x|..], BP(2 * |x|));
    ValBound(x);
    BPAdd(|x|, |x|);
    ProductIs(x, x);
    ProductBound(Val(x), BP(|x|), Val(x), BP(|x|));
    NoCarries(Product(x, x), Val(z), Val(w), BP(2 * |x|), Val(z1), c1, Val(z2), c2);
  }

  lemma NoCarries(q: int, cross: int, squares: int, p: int, v1: int, c1: int, v2: int, c2: int)
    requires p > 0 && q == squares + 2 * cross < p && squares >= 0 && v1 >= 0 && v2 >= 0 && c1 >= 0 && c2 >= 0
    requires v1 + c1 * p == cross + cross && v2 + c2 * p == v1 + squares
    ensures c1 == 0 && c2 == 0 && v2 == q
  {
    if c1 >= 1 { MulMono(1, c1, p); }
    if c2 >= 1 { MulMono(1, c2, p); }
  }

  lemma EmptyProduct(x: seq<Word>, p: int)
    requires x == []
    ensures p * Product(x, x) == 0
  {
    assert Product(x, x) == 0;
  }

  /** bn_sqr_normal: tmp is 2n words of workspace at to. */
  method SqrNormal(r: Bignum, ro: nat, a: Bignum, ao: nat, n: nat, t: Bignum, to: nat) returns (ghost z: seq<Word>)
    requires n > 0 && ro + 2 * n <= |r.d| && ao + n <= |a.d| && to + 2 * n <= |t.d|
    requires r != a && r != t && a != t
    modifies r`d, t`d
    ensures |z| == 2 * n && r.d == Splice(old(r.d), ro, z)
    ensures Val(z) == Product(old(a.d[ao..ao + n]), old(a.d[ao..ao + n]))
    ensures |t.d| == old(|t.d|)
  {
    hide Val, Added, Squares, Cross, BP;
    ghost var s, x := r.d, a.d[ao..ao + n];
    ghost var z0 := CrossProducts(r, ro, a, ao, n);
    SpliceSlice(s, ro, z0);
    var c1;
    ghost var z1;
    c1, z1 := AddWords(r, ro, r, ro, r, ro, 2 * n);
    SpliceOver(s, ro, z0, z1);
    SpliceSlice(s, ro, z1);
    ghost var u := t.d;
    ghost var w := SqrWords(t, to, a, ao, n);
    SpliceSlice(u, to, w);
    var c2;
    c2, z := AddWords(r, ro, r, ro, t, to, 2 * n);
    SpliceOver(s, ro, z1, z);
    SquareFits(x, z0, z1, c1, w, z, c2);
  }

  lemma SpliceOver(s: seq<Word>, lo: nat, z: seq<Word>, z': seq<Word>)
    requires |z| == |z'| && lo + |z| <= |s|
    ensures Splice(Splice(s, lo, z), lo, z') == Splice(s, lo, z')
  {}

  // ---------- bn_sqr_recursive

  /** The lengths bn_sqr_recursive is written for. */
  predicate SqrSize(n2: nat) { n2 == 4 || RecursiveSize(n2) }

  /** bn_sqr_recursive: like bn_mul_recursive with b = a; the middle product is never positive. */
  method SqrRecursive(r: Bignum, ro: nat, a: Bignum, ao: nat, n2: nat, t: Bignum, to: nat)
    requires SqrSize(n2) && Apart(r, ro, a, ao, a, ao, n2, t, to, Work(n2))
    requires ro + 2 * n2 <= |r.d| && ao + n2 <= |a.d| && to + Work(n2) <= |t.d|
    modifies r`d, t`d
    ensures Kept(old(r.d), r.d, ro, 2 * n2, r == t, to, Work(n2))
    ensures Kept(old(t.d), t.d, to, Work(n2), r == t, ro, 2 * n2)
    ensures Val(r.d[ro..ro + 2 * n2]) == Product(old(a.d[ao..ao + n2]), old(a.d[ao..ao + n2]))
    ensures n2 > 8 ==>
      LastMiddle(old(a.d[ao..ao + n2]), old(a.d[ao..ao + n2]), t.d[to + Work(n2) - 16..to + Work(n2)])
    decreases n2, 1
  {
    hide Val, Kept, Apart, Product, LastMiddle;
    ghost var s, u := r.d, t.d;
    ghost var x := a.d[ao..ao + n2];
    KeptNothing(s, ro, 2 * n2, r == t, to, Work(n2));
    KeptNothing(u, to, Work(n2), r == t, ro, 2 * n2);
    if n2 == 4 || n2 == 8 {
      BaseApart(r, ro, a, ao, a, ao, n2, t, to, Work(n2));
      ghost var z := SqrComba(r, ro, a, ao, n2);
      ProductIs(x, x);
      KeptSplice(s, s, ro, 2 * n2, r == t, to, Work(n2), ro, z);
      if r == t { KeptSplice(u, u, to, Work(n2), true, ro, 2 * n2, ro, z); }
      SpliceSlice(s, ro, z);
      return;
    }
    var n := n2 / 2;
    WorkHalf(n2, n);
    SqrHalves(r, ro, a, ao, n, t, to);
    ghost var s1, u1 := r.d, t.d;
    HalvesApart(r, ro, a, ao, a, ao, n, t, to);
    Combine(r, ro, n, t, to, true, x, x);
    LastKept(r, ro, n, t, to, u1, t.d, x, x);
    KeptThen(s, s1, r.d, ro, 4 * n, r == t, to, 4 * n + Work(n), ro, 4 * n, r == t, to, 4 * n + Work(n));
    KeptThen(u, u1, t.d, to, 4 * n + Work(n), r == t, ro, 4 * n, to, 4 * n, r == t, ro, 4 * n);
  }

  /** The three half-size squares. */
  method SqrHalves(r: Bignum, ro: nat, a: Bignum, ao: nat, n: nat, t: Bignum, to: nat)
    requires n > 0 && RecursiveSize(n) && Apart(r, ro, a, ao, a, ao, 2 * n, t, to, 4 * n + Work(n))
    requires ro + 4 * n <= |r.d| && ao + 2 * n <= |a.d| && to + 4 * n + Work(n) <= |t.d|
    modifies r`d, t`d
    ensures Kept(old(r.d), r.d, ro, 4 * n, r == t, to, 4 * n + Work(n))
    ensures Kept(old(t.d), t.d, to, 4 * n + Work(n), r == t, ro, 4 * n)
    ensures var x := old(a.d[ao..ao + 2 * n]);
            && Val(r.d[ro..ro + 2 * n]) == Product(x[..n], x[..n])
            && Val(r.d[ro + 2 * n..ro + 4 * n]) == Product(x[n..], x[n..])
            && MiddleHeld(x, x, n, true, t.d[to + 2 * n..to + 4 * n])
            && (n > 8 ==> LastMiddle(x[n..], x[n..], t.d[to + 4 * n + Work(n) - 16..to + 4 * n + Work(n)]))
    decreases n, 4
  {
    hide Val, Kept, RecursiveSize, Product, Apart, Disjoint, MiddleHeld, LastMiddle;
    SizeAtLeast(n);
    ghost var s, u, v := r.d, t.d, a.d;
    HalvesApart(r, ro, a, ao, a, ao, n, t, to);
    SqrDifference(a, ao, n, t, to);
    ghost var s1, u1 := r.d, t.d;
    OperandKept(t, to, n, a, ao, u, u1, v, a.d);
    SqrOuter(r, ro, a, ao, n, t, to + 4 * n);
    HalfFrames(r, ro, n, t, to, s, s1, r.d, u, u1, t.d);
  }

  /** The difference of the halves in t and its square in words 2n to 4n of t. */
  method SqrDifference(a: Bignum, ao: nat, n: nat, t: Bignum, to: nat)
    requires n > 0 && RecursiveSize(n) && ao + 2 * n <= |a.d| && to + 4 * n + Work(n) <= |t.d|
    requires Disjoint(t, to, 4 * n + Work(n), a, ao, 2 * n)
    modifies t`d
    ensures Kept(old(t.d), t.d, to, 4 * n + Work(n), false, 0, 0)
    ensures MiddleHeld(old(a.d[ao..ao + 2 * n]), old(a.d[ao..ao + 2 * n]), n, true, t.d[to + 2 * n..to + 4 * n])
    decreases n, 3
  {
    hide Val, Kept, RecursiveSize, Product, MiddleHeld, Splice, Work;
    ghost var u, v := t.d, a.d;
    OperandHalves(v, ao, n);
    KeptNothing(u, to, 4 * n + Work(n), false, 0, 0);
    var c1 := CmpWords(a, ao, a, ao + n, n);
    if c1 == 0 {
      ghost var z := ClearWords(t, to + 2 * n, 2 * n);
      KeptSplice(u, u, to, 4 * n + Work(n), false, 0, 0, to + 2 * n, z);
      SpliceSlice(u, to + 2 * n, z);
      SquareHeld(v[ao..ao + 2 * n], n, 0, t.d[to + 2 * n..to + 4 * n]);
    } else {
      ghost var z := HalfDifference(t, to, a, ao, n, c1);
      KeptSplice(u, u, to, 4 * n + Work(n), false, 0, 0, to, z);
      SpliceSlice(u, to, z);
      ghost var u1 := t.d;
      SqrRecursive(t, to + 2 * n, t, to, n, t, to + 4 * n);
      KeptThen(u, u1, t.d, to, 4 * n + Work(n), false, 0, 0, to + 2 * n, 2 * n, true, to + 4 * n, Work(n));
      ProductIs(z, z);
      SquareHeld(v[ao..ao + 2 * n], n, Val(z), t.d[to + 2 * n..to + 4 * n]);
    }
  }

  lemma SquareHeld(x: seq<Word>, n: nat, d: int, w: seq<Word>)
    requires n <= |x| && Val(w) == d * d
    requires d == Val(x[..n]) - Val(x[n..]) || d == Val(x[n..]) - Val(x[..n])
    ensures MiddleHeld(x, x, n, true, w)
  {
    var a, b := Val(x[..n]), Val(x[n..]);
    assert (a - b) * (b - a) == -((a - b) * (a - b));
    assert (b - a) * (b - a) == (a - b) * (a - b);
  }

  /** The squares of the two halves. */
  method SqrOuter(r: Bignum, ro: nat, a: Bignum, ao: nat, n: nat, t: Bignum, p: nat)
    requires RecursiveSize(n) && ro + 4 * n <= |r.d| && ao + 2 * n <= |a.d| && p + Work(n) <= |t.d|
    requires Apart(r, ro, a, ao, a, ao, 2 * n, t, p, Work(n))
    modifies r`d, t`d
    ensures Kept(old(r.d), r.d, ro, 4 * n, r == t, p, Work(n))
    ensures Kept(old(t.d), t.d, p, Work(n), r == t, ro, 4 * n)
    ensures Val(r.d[ro..ro + 2 * n]) == Product(old(a.d[ao..ao + n]), old(a.d[ao..ao + n]))
    ensures Val(r.d[ro + 2 * n..ro + 2 * n + 2 * n])
         == Product(old(a.d[ao + n..ao + n + n]), old(a.d[ao + n..ao + n + n]))
    ensures n > 8 ==>
      LastMiddle(old(a.d[ao + n..ao + n + n]), old(a.d[ao + n..ao + n + n]), t.d[p + Work(n) - 16..p + Work(n)])
    decreases n, 2
  {
    hide Val, Kept, RecursiveSize, Product, Apart, Disjoint, LastMiddle;
    SizeAtLeast(n);
    ghost var s, u, v := r.d, t.d, a.d;
    OuterApart(r, ro, a, ao, a, ao, n, t, p);
    SqrRecursive(r, ro, a, ao, n, t, p);
    ghost var s1, u1 := r.d, t.d;
    SliceSafe(r, ro, 2 * n, t, p, Work(n), a, ao + n, n, s, s1, u, u1, v, a.d);
    SqrRecursive(r, ro + 2 * n, a, ao + n, n, t, p);
    OuterFrames(s, s1, r.d, u, u1, t.d, ro, n, r == t, p);
  }

  // ---------- all paths agree

  /** The square by the multiplication rows, by bn_sqr_normal, by columns where n is 4 or 8 and by the
      recursion where it applies: always the same words. */
  method EveryPath(a: Bignum, n: nat, p: Bignum, q: Bignum, u: Bignum, v: Bignum, t: Bignum)
    requires n > 0 && n <= |a.d| && 2 * n <= |p.d| && 2 * n <= |q.d| && 2 * n <= |u.d| && 2 * n <= |v.d|
    requires 4 * n <= |t.d| && a !in {p, q, u, v, t} && p !in {q, u, v, t} && q !in {u, v, t} && u !in {v, t} && v != t
    modifies p`d, q`d, u`d, v`d, t`d
    ensures |p.d| == old(|p.d|) && |q.d| == old(|q.d|) && |u.d| == old(|u.d|) && |v.d| == old(|v.d|)
    ensures Val(p.d[..2 * n]) == Product(a.d[..n], a.d[..n])
    ensures q.d[..2 * n] == p.d[..2 * n]
    ensures n == 4 || n == 8 ==> u.d[..2 * n] == p.d[..2 * n]
    ensures SqrSize(n) ==> v.d[..2 * n] == p.d[..2 * n]
  {
    hide Val, Product, Splice, Kept, Apart, SqrSize, LastMiddle;
    ghost var x := a.d[..n];
    assert a.d[0..0 + n] == x;
    ghost var z0 := MulNormal(p, 0, a, 0, n, a, 0, n);
    StoredIs(old(p.d), z0, 2 * n);
    ghost var z1 := SqrNormal(q, 0, a, 0, n, t, 0);
    StoredIs(old(q.d), z1, 2 * n);
    ValUnique(z0, z1);
    if n == 4 || n == 8 {
      ghost var z2 := SqrComba(u, 0, a, 0, n);
      StoredIs(old(u.d), z2, 2 * n);
      ProductIs(x, x);
      ValUnique(z0, z2);
    }
    if SqrSize(n) {
      RecursivePath(a, n, v, t);
      ValUnique(z0, v.d[..2 * n]);
    }
  }

  method RecursivePath(a: Bignum, n: nat, v: Bignum, t: Bignum)
    requires SqrSize(n) && n <= |a.d| && 2 * n <= |v.d| && 4 * n <= |t.d| && a != v && a != t && v != t
    modifies v`d, t`d
    ensures |v.d| == old(|v.d|) && Val(v.d[..2 * n]) == Product(a.d[..n], a.d[..n])
  {
    hide Val, Product, LastMiddle;
    if n >= 8 { WorkIs(n); }
    SqrRecursive(v, 0, a, 0, n, t, 0);
    assert v.d[..2 * n] == v.d[0..0 + 2 * n] && a.d[0..0 + n] == a.d[..n];
  }

  lemma StoredIs(s: seq<Word>, z: seq<Word>, n: nat)
    requires |z| == n <= |s|
    ensures |Splice(s, 0, z)| == |s| && Splice(s, 0, z)[..n] == z
  {}
}
