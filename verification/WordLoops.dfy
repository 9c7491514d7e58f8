/** The word loops of bn_asm.c and bn_lib.c. */
module WordLoops {
  import opened Words
  import opened Bignums
  import opened HalfWords

  lemma ValTake(s: seq<Word>, i: nat)
    requires i < |s|
    ensures Val(s[..i + 1]) == Val(s[..i]) + s[i] * BP(i)
  {
    assert s[..i + 1][..i] == s[..i];
  }

  // ---------- sums

  /** z and the carry c are the sum of x and y. */
  ghost predicate Added(z: seq<Word>, c: int, x: seq<Word>, y: seq<Word>) {
    Val(z) + c * BP(|z|) == Val(x) + Val(y)
  }

  lemma CarryStep(s: int, z: int, c: int, p: int, a: int, l: int, c': int)
    requires z + c * p == s && l + c' * 0x1_0000_0000 == a + c
    ensures (z + l * p) + c' * (0x1_0000_0000 * p) == s + a * p
  {
    assert l * p + (c' * 0x1_0000_0000) * p == a * p + c * p;
  }

  lemma BorrowStep(s: int, z: int, c: int, p: int, a: int, l: int, c': int)
    requires z - c * p == s && l - c' * 0x1_0000_0000 == a - c
    ensures (z + l * p) - c' * (0x1_0000_0000 * p) == s + a * p
  {
    assert l * p - (c' * 0x1_0000_0000) * p == a * p - c * p;
  }

  lemma AddedNone(x: seq<Word>, y: seq<Word>)
    ensures Added([], 0, x[..0], y[..0])
  {}

  lemma AddWordStep(x: seq<Word>, y: seq<Word>, z: seq<Word>, c: int, l: Word, c': int)
    requires |z| < |x| == |y| && Added(z, c, x[..|z|], y[..|z|])
    requires l + c' * 0x1_0000_0000 == x[|z|] + y[|z|] + c
    ensures Added(z + [l], c', x[..|z| + 1], y[..|z| + 1])
  {
    var i := |z|;
    var a: int, b: int := x[i], y[i];
    CarryStep(Val(x[..i]) + Val(y[..i]), Val(z), c, BP(i), a + b, l, c');
    Distribute(a, b, BP(i));
    ValTake(x, i); ValTake(y, i);
    ValSnoc(z, l);
  }

  /** bn_add_words */
  method AddWords(r: Bignum, ro: nat, a: Bignum, ao: nat, b: Bignum, bo: nat, n: nat)
    returns (c: Word, ghost z: seq<Word>)
    requires ro + n <= |r.d| && ao + n <= |a.d| && bo + n <= |b.d|
    requires Readable(r, ro, a, ao, n) && Readable(r, ro, b, bo, n)
    modifies r`d
    ensures c <= 1
    ensures |z| == n && r.d == Splice(old(r.d), ro, z)
    ensures Added(z, c, old(a.d[ao..ao + n]), old(b.d[bo..bo + n]))
  {
    hide Added;
    ghost var s, x, y := r.d, a.d[ao..ao + n], b.d[bo..bo + n];
    var i := 0;
    c, z := 0, [];
    AddedNone(x, y);
    assert Splice(s, ro, z) == s;
    while i < n
      invariant |z| == i <= n && c <= 1
      invariant r.d == Splice(s, ro, z)
      invariant Added(z, c, x[..i], y[..i])
    {
      var t := a.d[ao + i];
      ghost var c0 := c;
      t := Trunc(t + c);
      c := if t < c then 1 else 0;
      var l := Trunc(t + b.d[bo + i]);
      if l < t { c := c + 1; }
      AddWordStep(x, y, z, c0, l, c);
      SpliceSnoc(s, ro, z, l);
      r.d := r.d[ro + i := l];
      i, z := i + 1, z + [l];
    }
    assert x[..n] == x && y[..n] == y;
  }

  // ---------- differences

  /** z less the borrow c is the difference of x and y. */
  ghost predicate Subtracted(z: seq<Word>, c: int, x: seq<Word>, y: seq<Word>) {
    Val(z) - c * BP(|z|) == Val(x) - Val(y)
  }

  lemma SubtractedNone(x: seq<Word>, y: seq<Word>)
    ensures Subtracted([], 0, x[..0], y[..0])
  {}

  lemma SubWordStep(x: seq<Word>, y: seq<Word>, z: seq<Word>, c: int, l: Word, c': int)
    requires |z| < |x| == |y| && Subtracted(z, c, x[..|z|], y[..|z|])
    requires l - c' * 0x1_0000_0000 == x[|z|] - y[|z|] - c
    ensures Subtracted(z + [l], c', x[..|z| + 1], y[..|z| + 1])
  {
    var i := |z|;
    var a: int, b: int := x[i], y[i];
    BorrowStep(Val(x[..i]) - Val(y[..i]), Val(z), c, BP(i), a - b, l, c');
    Distribute(a, b, BP(i));
    ValTake(x, i); ValTake(y, i);
    ValSnoc(z, l);
  }

  /** bn_sub_words */
  method SubWords(r: Bignum, ro: nat, a: Bignum, ao: nat, b: Bignum, bo: nat, n: nat)
    returns (c: Word, ghost z: seq<Word>)
    requires ro + n <= |r.d| && ao + n <= |a.d| && bo + n <= |b.d|
    requires Readable(r, ro, a, ao, n) && Readable(r, ro, b, bo, n)
    modifies r`d
    ensures c <= 1
    ensures |z| == n && r.d == Splice(old(r.d), ro, z)
    ensures Subtracted(z, c, old(a.d[ao..ao + n]), old(b.d[bo..bo + n]))
  {
    hide Subtracted;
    ghost var s, x, y := r.d, a.d[ao..ao + n], b.d[bo..bo + n];
    var i := 0;
    c, z := 0, [];
    SubtractedNone(x, y);
    assert Splice(s, ro, z) == s;
    while i < n
      invariant |z| == i <= n && c <= 1
      invariant r.d == Splice(s, ro, z)
      invariant Subtracted(z, c, x[..i], y[..i])
    {
      var t1, t2 := a.d[ao + i], b.d[bo + i];
      ghost var c0 := c;
      var l := Trunc(t1 - t2 - c);
      if t1 != t2 { c := if t1 < t2 then 1 else 0; }
      SubWordStep(x, y, z, c0, l, c);
      SpliceSnoc(s, ro, z, l);
      r.d := r.d[ro + i := l];
      i, z := i + 1, z + [l];
    }
    assert x[..n] == x && y[..n] == y;
  }

  // ---------- multiples

  /** z and the carry word c are y + x * w. */
  ghost predicate Scaled(z: seq<Word>, c: int, x: seq<Word>, w: int, y: int) {
    Val(z) + c * BP(|z|) == Val(x) * w + y
  }

  lemma ScaledStep(x: int, w: int, y: int, z: int, c: int, p: int, a: int, l: int, c': int, v: int)
    requires z + c * p == x * w + y && l + c' * 0x1_0000_0000 == a * w + c + v
    ensures (z + l * p) + c' * (0x1_0000_0000 * p) == (x + a * p) * w + (y + v * p)
  {
    CarryStep(x * w + y, z, c, p, a * w + v, l, c');
    Distribute(a * w, v, p);
    Distribute(x, a * p, w);
    assert (a * w) * p == (a * p) * w;
  }

  lemma ScaledNone(x: seq<Word>, w: int, y: seq<Word>)
    ensures x[..0] == [] && y[..0] == [] && Scaled([], 0, x[..0], w, Val(y[..0])) && Val(y[..0]) == 0
  {}

  lemma MulWordStep(x: seq<Word>, w: Word, y: int, z: seq<Word>, c: int, l: Word, c': int, v: int)
    requires |z| < |x| && Scaled(z, c, x[..|z|], w, y)
    requires l + c' * 0x1_0000_0000 == x[|z|] * w + c + v
    ensures Scaled(z + [l], c', x[..|z| + 1], w, y + v * BP(|z|))
  {
    var i := |z|;
    ScaledStep(Val(x[..i]), w, y, Val(z), c, BP(i), x[i], l, c', v);
    ValTake(x, i);
    ValSnoc(z, l);
  }

  /** bn_mul_words */
  method MulWords(r: Bignum, ro: nat, a: Bignum, ao: nat, n: nat, w: Word)
    returns (c: Word, ghost z: seq<Word>)
    requires ro + n <= |r.d| && ao + n <= |a.d| && Readable(r, ro, a, ao, n)
    modifies r`d
    ensures |z| == n && r.d == Splice(old(r.d), ro, z)
    ensures Scaled(z, c, old(a.d[ao..ao + n]), w, 0)
  {
    hide Scaled;
    ghost var s, x := r.d, a.d[ao..ao + n];
    var i := 0;
    c, z := 0, [];
    ScaledNone(x, w, []);
    assert Splice(s, ro, z) == s;
    while i < n
      invariant |z| == i <= n
      invariant r.d == Splice(s, ro, z)
      invariant Scaled(z, c, x[..i], w, 0)
    {
      ghost var c0 := c;
      var l;
      l, c := HalfWords.Mul(a.d[ao + i], w, c);
      MulWordStep(x, w, 0, z, c0, l, c, 0);
      SpliceSnoc(s, ro, z, l);
      r.d := r.d[ro + i := l];
      i, z := i + 1, z + [l];
    }
    assert x[..n] == x;
  }

  /** bn_mul_add_words */
  method MulAddWords(r: Bignum, ro: nat, a: Bignum, ao: nat, n: nat, w: Word)
    returns (c: Word, ghost z: seq<Word>)
    requires ro + n <= |r.d| && ao + n <= |a.d| && Readable(r, ro, a, ao, n)
    modifies r`d
    ensures |z| == n && r.d == Splice(old(r.d), ro, z)
    ensures Scaled(z, c, old(a.d[ao..ao + n]), w, Val(old(r.d[ro..ro + n])))
  {
    hide Scaled;
    ghost var s, x, y := r.d, a.d[ao..ao + n], r.d[ro..ro + n];
    var i := 0;
    c, z := 0, [];
    ScaledNone(x, w, y);
    assert Splice(s, ro, z) == s;
    while i < n
      invariant |z| == i <= n
      invariant r.d == Splice(s, ro, z)
      invariant Scaled(z, c, x[..i], w, Val(y[..i]))
    {
      ghost var c0 := c;
      var l;
      l, c := HalfWords.MulAdd(r.d[ro + i], a.d[ao + i], w, c);
      MulWordStep(x, w, Val(y[..i]), z, c0, l, c, y[i]);
      ValTake(y, i);
      SpliceSnoc(s, ro, z, l);
      r.d := r.d[ro + i := l];
      i, z := i + 1, z + [l];
    }
    assert x[..n] == x && y[..n] == y;
  }

  /** The product of two numbers given by their words. */
  ghost function Product(x: seq<Word>, y: seq<Word>): int {
    Val(x) * Val(y)
  }

  lemma ProductIs(x: seq<Word>, y: seq<Word>)
    ensures Product(x, y) == Val(x) * Val(y)
  {}

  // ---------- comparison

  lemma {:induction false} ValLess(x: seq<Word>, y: seq<Word>, i: nat)
    requires i < |x| == |y| && x[i] < y[i] && x[i + 1..] == y[i + 1..]
    ensures Val(x) < Val(y)
  {
    assert x == x[..i] + [x[i]] + x[i + 1..] && y == y[..i] + [y[i]] + y[i + 1..];
    ValConcat(x[..i] + [x[i]], x[i + 1..]);
    ValConcat(y[..i] + [y[i]], y[i + 1..]);
    ValSnoc(x[..i], x[i]); ValSnoc(y[..i], y[i]);
    ValBound(x[..i]);
    MulMono(x[i] + 1, y[i], BP(i));
    Distribute(x[i], 1, BP(i));
  }

  /** bn_cmp_words: the sign of the difference of two slices. */
  method CmpWords(a: Bignum, ao: nat, b: Bignum, bo: nat, n: nat) returns (c: int)
    requires ao + n <= |a.d| && bo + n <= |b.d|
    ensures c == -1 || c == 0 || c == 1
    ensures c == 0 <==> a.d[ao..ao + n] == b.d[bo..bo + n]
    ensures c < 0 <==> Val(a.d[ao..ao + n]) < Val(b.d[bo..bo + n])
    ensures c > 0 <==> Val(a.d[ao..ao + n]) > Val(b.d[bo..bo + n])
  {
    ghost var x, y := a.d[ao..ao + n], b.d[bo..bo + n];
    var i := n;
    while i > 0
      invariant 0 <= i <= n
      invariant x[i..] == y[i..]
    {
      i := i - 1;
      var aa, bb := a.d[ao + i], b.d[bo + i];
      if aa != bb {
        if aa > bb {
          ValLess(y, x, i);
          return 1;
        }
        ValLess(x, y, i);
        return -1;
      }
      assert x[i..] == [x[i]] + x[i + 1..];
    }
    return 0;
  }

  lemma NoBorrow(z: seq<Word>, c: int, x: seq<Word>, y: seq<Word>)
    requires Subtracted(z, c, x, y) && 0 <= c && Val(x) >= Val(y)
    ensures Val(z) == Val(x) - Val(y)
  {
    ValBound(z);
    if c >= 1 { MulMono(1, c, BP(|z|)); }
  }
}
