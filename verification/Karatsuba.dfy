/** bn_mul_recursive: the Karatsuba product of two operands of n2 words, n2 = 8 * 2^k. */
module Karatsuba {
  import opened Words
  import opened Bignums
  import opened WordLoops
  import opened Ripple
  import opened Comba

  /** The operand lengths the recursion is called on. */
  predicate RecursiveSize(n2: nat) {
    n2 == 8 || (n2 >= 16 && n2 % 2 == 0 && RecursiveSize(n2 / 2))
  }

  /** The buffers agree outside the n words at lo and, when same, outside the m words at lo2. */
  ghost predicate Kept(s: seq<Word>, s': seq<Word>, lo: nat, n: nat, same: bool, lo2: nat, m: nat)
    ensures Kept(s, s', lo, n, same, lo2, m) ==> |s'| == |s|
  {
    |s'| == |s|
    && forall k | 0 <= k < |s| && !(lo <= k < lo + n) && !(same && lo2 <= k < lo2 + m) :: s'[k] == s[k]
  }

  lemma KeptNothing(s: seq<Word>, lo: nat, n: nat, same: bool, lo2: nat, m: nat)
    ensures Kept(s, s, lo, n, same, lo2, m)
  {}

  lemma KeptSplice(s: seq<Word>, s': seq<Word>, lo: nat, n: nat, same: bool, lo2: nat, m: nat, at: nat, z: seq<Word>)
    requires Kept(s, s', lo, n, same, lo2, m) && at + |z| <= |s'|
    requires (lo <= at && at + |z| <= lo + n) || (same && lo2 <= at && at + |z| <= lo2 + m)
    ensures Kept(s, Splice(s', at, z), lo, n, same, lo2, m)
  {}

  /** Whether the n' words at lo' lie inside the changed words. */
  ghost predicate Inside(lo': nat, n': nat, lo: nat, n: nat, same: bool, lo2: nat, m: nat) {
    (lo <= lo' && lo' + n' <= lo + n) || (same && lo2 <= lo' && lo' + n' <= lo2 + m)
  }

  lemma KeptThen(s: seq<Word>, s': seq<Word>, s'': seq<Word>, lo: nat, n: nat, same: bool, lo2: nat, m: nat,
                 lo': nat, n': nat, same': bool, lo2': nat, m': nat)
    requires Kept(s, s', lo, n, same, lo2, m) && Kept(s', s'', lo', n', same', lo2', m')
    requires Inside(lo', n', lo, n, same, lo2, m) && (same' ==> Inside(lo2', m', lo, n, same, lo2, m))
    ensures Kept(s, s'', lo, n, same, lo2, m)
  {}

  lemma KeptSlice(s: seq<Word>, s': seq<Word>, lo: nat, n: nat, same: bool, lo2: nat, m: nat, i: nat, j: nat)
    requires Kept(s, s', lo, n, same, lo2, m) && i <= j <= |s|
    requires j <= lo || lo + n <= i
    requires same ==> j <= lo2 || lo2 + m <= i
    ensures |s'| == |s| && s'[i..j] == s[i..j]
  {}

  // ---------- the combining step

  /** The middle term x0*y1 + x1*y0 is the sum of the outer products plus or minus t. */
  lemma MiddleTerm(x0: int, x1: int, y0: int, y1: int, t: int, neg: bool)
    requires (x0 - x1) * (y1 - y0) == if neg then -t else t
    ensures x0 * y0 + x1 * y1 + (if neg then -t else t) == x0 * y1 + x1 * y0
  {}

  lemma KaratsubaProduct(x0: int, x1: int, y0: int, y1: int, p: int)
    ensures x0 * y0 + p * (x0 * y1 + x1 * y0) + (p * p) * (x1 * y1) == (x0 + p * x1) * (y0 + p * y1)
  {}

  /** Three-part sums: l + p*m + p^2*h regrouped around the word positions n, 2n and 3n. */
  lemma Regroup(l0: int, l1: int, h0: int, h1: int, p: int, m: int, z: int, c: int, c3: int, q: int, mid: int)
    requires q == p * p
    requires mid == m + c * q
    requires z + c3 * q == l1 + p * h0 + m
    ensures l0 + p * z + (p * q) * (h1 + c + c3) == (l0 + p * l1) + p * mid + q * (h0 + p * h1)
  {
    assert p * (z + c3 * q) == p * (l1 + p * h0 + m);
    assert p * (l1 + p * h0 + m) == p * l1 + (p * p) * h0 + p * m;
    assert p * (z + c3 * q) == p * z + (p * q) * c3;
    assert p * (m + c * q) == p * m + (p * q) * c;
    assert q * (h0 + p * h1) == q * h0 + (p * q) * h1;
    assert (p * q) * (h1 + c + c3) == (p * q) * h1 + (p * q) * c + (p * q) * c3;
  }

  /** What is left to add at the top fits: the whole is a product below p^4. */
  lemma TopFits(lo: int, r: int, top: int, whole: int, p: int)
    requires lo >= 0 && r > 0 && lo + r * top == whole && whole < r * p
    ensures top < p
  {
    if top >= p { MulMono(p, top, r); Commute(p, r); Commute(top, r); }
  }

  /** The signed carry of the middle term is never negative. */
  lemma MiddleCarry(m: int, z: int, c: int, q: int)
    requires 0 <= z < q && m == z + c * q && m >= 0
    ensures c >= 0
  {
    if c <= -1 { MulMono(c, -1, q); }
  }

  /** The first two steps in t: the middle term and its carry. */
  method Middle(r: Bignum, ro: nat, n2: nat, t: Bignum, to: nat, neg: bool) returns (c: int, ghost w: seq<Word>)
    requires ro + 2 * n2 <= |r.d| && to + 2 * n2 <= |t.d|
    requires Disjoint(r, ro, 2 * n2, t, to, 2 * n2)
    modifies t`d
    ensures |w| == 2 * n2 && t.d == Splice(old(t.d), to, w) && -1 <= c <= 2
    ensures Val(w[n2..]) + c * BP(n2) == Val(old(r.d[ro..ro + n2])) + Val(old(r.d[ro + n2..ro + 2 * n2]))
                 + (if neg then -Val(old(t.d[to + n2..to + 2 * n2])) else Val(old(t.d[to + n2..to + 2 * n2])))
  {
    hide Val, Added, Subtracted;
    ghost var u := t.d;
    ghost var l, h, v := r.d[ro..ro + n2], r.d[ro + n2..ro + 2 * n2], t.d[to + n2..to + 2 * n2];
    ghost var z1, z2;
    var c1, c2;
    c1, z1 := AddWords(t, to, r, ro, r, ro + n2, n2);
    LowSplice(u, to, z1, n2);
    if neg {
      c2, z2 := SubWords(t, to + n2, t, to, t, to + n2, n2);
      c := c1 as int - c2;
      MiddleSub(l, h, v, z1, c1, z2, c2);
    } else {
      c2, z2 := AddWords(t, to + n2, t, to + n2, t, to, n2);
      c := c1 as int + c2;
      MiddleAdd(l, h, v, z1, c1, z2, c2);
    }
    w := z1 + z2;
    JoinTwo(u, to, z1, z2);
  }

  lemma LowSplice(s: seq<Word>, at: nat, z: seq<Word>, n: nat)
    requires |z| == n && at + 2 * n <= |s|
    ensures Splice(s, at, z)[at..at + n] == z
    ensures Splice(s, at, z)[at + n..at + 2 * n] == s[at + n..at + 2 * n]
    ensures Splice(s, at, z)[at + n..at + n + n] == s[at + n..at + 2 * n]
  {}

  lemma JoinTwo(s: seq<Word>, at: nat, z1: seq<Word>, z2: seq<Word>)
    requires at + |z1| + |z2| <= |s|
    ensures Splice(Splice(s, at, z1), at + |z1|, z2) == Splice(s, at, z1 + z2)
    ensures (z1 + z2)[|z1|..] == z2
  {}

  lemma MiddleSub(l: seq<Word>, h: seq<Word>, v: seq<Word>, z1: seq<Word>, c1: int, z2: seq<Word>, c2: int)
    requires |z1| == |z2| && Added(z1, c1, l, h) && Subtracted(z2, c2, z1, v)
    ensures Val(z2) + (c1 - c2) * BP(|z2|) == Val(l) + Val(h) - Val(v)
  {
    Distribute(c1, c2, BP(|z2|));
  }

  lemma MiddleAdd(l: seq<Word>, h: seq<Word>, v: seq<Word>, z1: seq<Word>, c1: int, z2: seq<Word>, c2: int)
    requires |z1| == |z2| && Added(z1, c1, l, h) && Added(z2, c2, v, z1)
    ensures Val(z2) + (c1 + c2) * BP(|z2|) == Val(l) + Val(h) + Val(v)
  {
    Distribute(c1, c2, BP(|z2|));
  }

  /** The last steps in r: the middle term added at word n, its carry run up from word 3n. */
  method AddMiddle(r: Bignum, ro: nat, n: nat, t: Bignum, to: nat, c: int, ghost mid: int, ghost whole: int)
    returns (ghost z: seq<Word>)
    requires n > 0 && ro + 4 * n <= |r.d| && to + 4 * n <= |t.d|
    requires Disjoint(r, ro, 4 * n, t, to, 4 * n)
    requires -1 <= c <= 2 && mid >= 0 && mid == Val(t.d[to + 2 * n..to + 4 * n]) + c * BP(2 * n)
    requires whole == Val(r.d[ro..ro + 2 * n]) + BP(n) * mid + BP(2 * n) * Val(r.d[ro + 2 * n..ro + 4 * n])
    requires whole < BP(4 * n)
    modifies r`d
    ensures |z| == 4 * n && r.d == Splice(old(r.d), ro, z)
    ensures Val(z) == whole
  {
    hide Val, Added;
    ghost var s := r.d;
    ghost var x, m := r.d[ro..ro + 4 * n], t.d[to + 2 * n..to + 4 * n];
    ghost var z3, z4;
    var c3;
    c3, z3 := AddWords(r, ro + n, r, ro + n, t, to + 2 * n, 2 * n);
    Quarters(s, ro, n);
    CombineValues(x, n, m, c, mid, z3, c3, whole);
    if c + c3 != 0 {
      TopQuarter(s, ro, n, z3);
      z4 := AddWordAt(r, ro + 3 * n, ro + 4 * n, c + c3);
    } else {
      z4 := x[3 * n..];
    }
    z := x[..n] + z3 + z4;
    JoinSplices(s, ro, n, z3, z4);
    CombineEnd(x, n, z3, z4, c + c3, whole);
  }

  lemma Quarters(s: seq<Word>, ro: nat, n: nat)
    requires ro + 4 * n <= |s|
    ensures var x := s[ro..ro + 4 * n];
            s[ro..ro + 2 * n] == x[..2 * n] && s[ro + 2 * n..ro + 4 * n] == x[2 * n..]
            && s[ro + n..ro + 3 * n] == x[n..3 * n]
  {
    var x := s[ro..ro + 4 * n];
    assert |x[n..3 * n]| == |s[ro + n..ro + 3 * n]|;
    assert forall k | 0 <= k < 2 * n :: x[n..3 * n][k] == x[n + k] == s[ro + n..ro + 3 * n][k];
  }

  lemma TopQuarter(s: seq<Word>, ro: nat, n: nat, z: seq<Word>)
    requires ro + 4 * n <= |s| && |z| == 2 * n
    ensures Splice(s, ro + n, z)[ro + 3 * n..ro + 4 * n] == s[ro..ro + 4 * n][3 * n..]
  {}

  lemma JoinSplices(s: seq<Word>, ro: nat, n: nat, z3: seq<Word>, z4: seq<Word>)
    requires ro + 4 * n <= |s| && |z3| == 2 * n && |z4| == n
    ensures Splice(Splice(s, ro + n, z3), ro + 3 * n, z4)
         == Splice(s, ro, s[ro..ro + 4 * n][..n] + z3 + z4)
    ensures z4 == s[ro..ro + 4 * n][3 * n..] ==>
            Splice(s, ro + n, z3) == Splice(s, ro, s[ro..ro + 4 * n][..n] + z3 + z4)
  {
    var x := s[ro..ro + 4 * n];
    var w := Splice(s, ro + n, z3);
    var u, v := Splice(w, ro + 3 * n, z4), Splice(s, ro, x[..n] + z3 + z4);
    forall k | 0 <= k < |s| ensures u[k] == v[k] {}
    if z4 == x[3 * n..] {
      forall k | 0 <= k < |s| ensures w[k] == v[k] {
        if ro + 3 * n <= k < ro + 4 * n { assert v[k] == z4[k - ro - 3 * n] == x[3 * n..][k - ro - 3 * n]; }
      }
    }
  }

  lemma CombineValues(x: seq<Word>, n: nat, m: seq<Word>, c: int, mid: int, z3: seq<Word>, c3: Word, whole: int)
    requires n > 0 && |x| == 4 * n && |m| == |z3| == 2 * n
    requires mid >= 0 && mid == Val(m) + c * BP(2 * n)
    requires whole == Val(x[..2 * n]) + BP(n) * mid + BP(2 * n) * Val(x[2 * n..]) && whole < BP(4 * n)
    requires Added(z3, c3, x[n..3 * n], m)
    ensures c >= 0 && Val(x[3 * n..]) + (c + c3) < BP(n)
    ensures Val(x[..n]) + BP(n) * Val(z3) + BP(3 * n) * (Val(x[3 * n..]) + c + c3) == whole
  {
    hide Val, BP;
    var l0, l1, h0, h1 := x[..n], x[n..2 * n], x[2 * n..3 * n], x[3 * n..];
    assert x[..2 * n] == l0 + l1 && x[2 * n..] == h0 + h1 && x[n..3 * n] == l1 + h0;
    ValConcat(l0, l1); ValConcat(h0, h1); ValConcat(l1, h0);
    ValBound(m);
    MiddleCarry(mid, Val(m), c, BP(2 * n));
    BPAdd(n, n); BPAdd(n, 2 * n); BPAdd(3 * n, n);
    Regroup(Val(l0), Val(l1), Val(h0), Val(h1), BP(n), Val(m), Val(z3), c, c3, BP(2 * n), mid);
    MulPos(BP(n), Val(z3));
    TopFits(Val(l0) + BP(n) * Val(z3), BP(3 * n), Val(h1) + c + c3, whole, BP(n));
  }

  lemma CombineEnd(x: seq<Word>, n: nat, z3: seq<Word>, z4: seq<Word>, c: int, whole: int)
    requires |x| == 4 * n && |z3| == 2 * n && |z4| == n && Val(z4) == Val(x[3 * n..]) + c
    requires Val(x[..n]) + BP(n) * Val(z3) + BP(3 * n) * (Val(x[3 * n..]) + c) == whole
    ensures Val(x[..n] + z3 + z4) == whole
  {
    hide Val;
    ValConcat(x[..n] + z3, z4);
    ValConcat(x[..n], z3);
  }

  // ---------- the recursion

  /** A slice of any buffer that lies apart from the changed words of r and t is unchanged. */
  lemma SliceSafe(r: Bignum, ro: nat, n: nat, t: Bignum, to: nat, m: nat, a: Bignum, ao: nat, k: nat,
                  s: seq<Word>, s': seq<Word>, u: seq<Word>, u': seq<Word>, v: seq<Word>, v': seq<Word>)
    requires Kept(s, s', ro, n, r == t, to, m) && Kept(u, u', to, m, r == t, ro, n)
    requires a == r ==> v == s && v' == s'
    requires a == t ==> v == u && v' == u'
    requires a != r && a != t ==> v == v'
    requires Disjoint(r, ro, n, a, ao, k) && Disjoint(t, to, m, a, ao, k) && ao + k <= |v|
    ensures |v'| == |v| && v'[ao..ao + k] == v[ao..ao + k]
  {
    if a == r { KeptSlice(s, s', ro, n, r == t, to, m, ao, ao + k); }
    if a == t { KeptSlice(u, u', to, m, r == t, ro, n, ao, ao + k); }
  }

  /** bn_sub_words of a smaller operand: no borrow. */
  method SubLarger(t: Bignum, to: nat, a: Bignum, ao: nat, b: Bignum, bo: nat, n: nat) returns (ghost z: seq<Word>)
    requires to + n <= |t.d| && ao + n <= |a.d| && bo + n <= |b.d|
    requires Disjoint(t, to, n, a, ao, n) && Disjoint(t, to, n, b, bo, n)
    requires Val(a.d[ao..ao + n]) >= Val(b.d[bo..bo + n])
    modifies t`d
    ensures |z| == n && t.d == Splice(old(t.d), to, z)
    ensures Val(z) == Val(old(a.d[ao..ao + n])) - Val(old(b.d[bo..bo + n]))
  {
    hide Val, Subtracted;
    ghost var x, y := a.d[ao..ao + n], b.d[bo..bo + n];
    var c;
    c, z := SubWords(t, to, a, ao, b, bo, n);
    NoBorrow(z, c, x, y);
  }

  /** The larger of two n-word halves less the smaller. */
  method HalfDifference(t: Bignum, to: nat, a: Bignum, ao: nat, n: nat, c: int) returns (ghost z: seq<Word>)
    requires to + n <= |t.d| && ao + 2 * n <= |a.d| && Disjoint(t, to, n, a, ao, 2 * n)
    requires if c < 0 then Val(a.d[ao..ao + n]) <= Val(a.d[ao + n..ao + 2 * n])
                      else Val(a.d[ao + n..ao + 2 * n]) <= Val(a.d[ao..ao + n])
    modifies t`d
    ensures |z| == n && t.d == Splice(old(t.d), to, z)
    ensures Val(z) == if c < 0 then Val(old(a.d[ao + n..ao + 2 * n])) - Val(old(a.d[ao..ao + n]))
                               else Val(old(a.d[ao..ao + n])) - Val(old(a.d[ao + n..ao + 2 * n]))
  {
    hide Val;
    if c < 0 {
      z := SubLarger(t, to, a, ao + n, a, ao, n);
    } else {
      z := SubLarger(t, to, a, ao, a, ao + n, n);
    }
  }

  /** The nine cases of the switch on c1*3+c2: |x0 - x1| into t and |y1 - y0| into t + n;
      neg is the sign of the product of the differences, zero says that it vanishes. */
  method Differences(a: Bignum, ao: nat, b: Bignum, bo: nat, n: nat, t: Bignum, to: nat)
    returns (neg: bool, zero: bool, ghost d: int)
    requires n > 0 && ao + 2 * n <= |a.d| && bo + 2 * n <= |b.d| && to + 2 * n <= |t.d|
    requires Disjoint(t, to, 2 * n, a, ao, 2 * n) && Disjoint(t, to, 2 * n, b, bo, 2 * n)
    modifies t`d
    ensures Kept(old(t.d), t.d, to, 2 * n, false, 0, 0)
    ensures zero ==> d == 0 && !neg
    ensures !zero ==> d == Val(t.d[to..to + n]) * Val(t.d[to + n..to + 2 * n])
    ensures (Val(old(a.d[ao..ao + n])) - Val(old(a.d[ao + n..ao + 2 * n])))
          * (Val(old(b.d[bo + n..bo + 2 * n])) - Val(old(b.d[bo..bo + n]))) == if neg then -d else d
  {
    hide Val, Kept;
    ghost var u := t.d;
    ghost var x0, x1 := Val(a.d[ao..ao + n]), Val(a.d[ao + n..ao + 2 * n]);
    ghost var y0, y1 := Val(b.d[bo..bo + n]), Val(b.d[bo + n..bo + 2 * n]);
    var c1 := CmpWords(a, ao, a, ao + n, n);
    var c2 := CmpWords(b, bo + n, b, bo, n);
    KeptNothing(u, to, 2 * n, false, 0, 0);
    if c1 == 0 || c2 == 0 {
      ZeroProduct(x0 - x1, y1 - y0);
      return false, true, 0;
    }
    ghost var z0 := HalfDifference(t, to, a, ao, n, c1);
    KeptSplice(u, u, to, 2 * n, false, 0, 0, to, z0);
    DisjointKeeps(u, to, z0, b, bo, n, t);
    ghost var z1 := HalfDifference(t, to + n, b, bo, n, -c2);
    KeptSplice(u, Splice(u, to, z0), to, 2 * n, false, 0, 0, to + n, z1);
    SignedProduct(x0, x1, y0, y1, Val(z0), Val(z1), c1 < 0, c2 < 0);
    BothSlices(u, to, z0, z1);
    return (c1 < 0) != (c2 < 0), false, Val(z0) * Val(z1);
  }

  lemma BothSlices(u: seq<Word>, to: nat, z0: seq<Word>, z1: seq<Word>)
    requires to + |z0| + |z1| <= |u|
    ensures var v := Splice(Splice(u, to, z0), to + |z0|, z1);
            v[to..to + |z0|] == z0 && v[to + |z0|..to + |z0| + |z1|] == z1
  {}

  lemma ZeroProduct(x: int, y: int)
    requires x == 0 || y == 0
    ensures x * y == 0
  {}

  lemma DisjointKeeps(u: seq<Word>, to: nat, z: seq<Word>, b: Bignum, bo: nat, n: nat, t: Bignum)
    requires to + |z| <= |u| && |z| == n
    requires Disjoint(t, to, 2 * n, b, bo, 2 * n)
    ensures b == t && bo + 2 * n <= |u| ==>
      Splice(u, to, z)[bo..bo + n] == u[bo..bo + n] && Splice(u, to, z)[bo + n..bo + 2 * n] == u[bo + n..bo + 2 * n]
  {}

  lemma SignedProduct(x0: int, x1: int, y0: int, y1: int, d0: int, d1: int, nx: bool, ny: bool)
    requires d0 == if nx then x1 - x0 else x0 - x1
    requires d1 == if ny then y0 - y1 else y1 - y0
    ensures (x0 - x1) * (y1 - y0) == if nx != ny then -(d0 * d1) else d0 * d1
  {
    assert (x0 - x1) * (y1 - y0) == (x1 - x0) * (y0 - y1);
    assert -((x1 - x0) * (y1 - y0)) == (x0 - x1) * (y1 - y0);
    assert -((x0 - x1) * (y0 - y1)) == (x0 - x1) * (y1 - y0);
  }

  /** The words of workspace for operands of n2 words: none at the bottom, otherwise 2*n2 for the
      differences and their product, and what the products of half the size take beyond them. */
  ghost function Work(n2: nat): nat {
    if n2 <= 8 then 0 else 2 * n2 + Work(n2 / 2)
  }

  lemma SizeAtLeast(n: nat)
    requires RecursiveSize(n)
    ensures n == 8 || (n >= 16 && Work(n) >= 16)
  {}

  lemma WorkHalf(n2: nat, n: nat)
    requires n2 > 8 && n2 == 2 * n
    ensures Work(n2) == 4 * n + Work(n)
  {}

  /** Less than the 4*n2 words that BN_mul and BN_sqr allocate. */
  lemma {:induction false} WorkIs(n2: nat)
    requires RecursiveSize(n2)
    ensures Work(n2) == 4 * n2 - 32
  {
    if n2 > 8 { WorkIs(n2 / 2); }
  }

  /** The 2*n2 words of the comments are enough up to 16 words and for no larger operands: the last
      words written (LastMiddle) then lie beyond them. */
  lemma CommentedWork(n2: nat)
    requires RecursiveSize(n2)
    ensures Work(n2) <= 2 * n2 <==> n2 <= 16
    ensures n2 > 16 ==> Work(n2) - 16 >= 2 * n2
  {
    WorkIs(n2);
    if n2 > 16 { SizeAtLeast(n2 / 2); }
  }

  /** The operands, the result and the workspace of a recursive call lie apart. */
  ghost predicate Apart(r: Bignum, ro: nat, a: Bignum, ao: nat, b: Bignum, bo: nat, n2: nat,
                        t: Bignum, to: nat, m: nat) {
    && Disjoint(r, ro, 2 * n2, a, ao, n2) && Disjoint(r, ro, 2 * n2, b, bo, n2)
    && Disjoint(t, to, m, a, ao, n2) && Disjoint(t, to, m, b, bo, n2)
    && Disjoint(r, ro, 2 * n2, t, to, m)
  }

  /** bn_mul_recursive: the exact product in the 2*n2 words at ro, with Work(n2) words of
      workspace at to; nothing else changes. */
  method MulRecursive(r: Bignum, ro: nat, a: Bignum, ao: nat, b: Bignum, bo: nat, n2: nat, t: Bignum, to: nat)
    requires RecursiveSize(n2) && Apart(r, ro, a, ao, b, bo, n2, t, to, Work(n2))
    requires ro + 2 * n2 <= |r.d| && ao + n2 <= |a.d| && bo + n2 <= |b.d| && to + Work(n2) <= |t.d|
    modifies r`d, t`d
    ensures Kept(old(r.d), r.d, ro, 2 * n2, r == t, to, Work(n2))
    ensures Kept(old(t.d), t.d, to, Work(n2), r == t, ro, 2 * n2)
    ensures Val(r.d[ro..ro + 2 * n2]) == Product(old(a.d[ao..ao + n2]), old(b.d[bo..bo + n2]))
    ensures n2 > 8 ==>
      LastMiddle(old(a.d[ao..ao + n2]), old(b.d[bo..bo + n2]), t.d[to + Work(n2) - 16..to + Work(n2)])
    decreases n2, 1
  {
    hide Val, Kept, Apart, Product, LastMiddle;
    ghost var s, u := r.d, t.d;
    ghost var x, y := a.d[ao..ao + n2], b.d[bo..bo + n2];
    KeptNothing(s, ro, 2 * n2, r == t, to, Work(n2));
    KeptNothing(u, to, Work(n2), r == t, ro, 2 * n2);
    if n2 == 8 {
      BaseApart(r, ro, a, ao, b, bo, n2, t, to, Work(n2));
      ghost var z := MulComba(r, ro, a, ao, b, bo, 8);
      ProductIs(x, y);
      KeptSplice(s, s, ro, 2 * n2, r == t, to, Work(n2), ro, z);
      if r == t { KeptSplice(u, u, to, Work(n2), true, ro, 2 * n2, ro, z); }
      SpliceSlice(s, ro, z);
      return;
    }
    var n := n2 / 2;
    WorkHalf(n2, n);
    var neg := HalfProducts(r, ro, a, ao, b, bo, n, t, to);
    ghost var s1, u1 := r.d, t.d;
    HalvesApart(r, ro, a, ao, b, bo, n, t, to);
    Combine(r, ro, n, t, to, neg, x, y);
    LastKept(r, ro, n, t, to, u1, t.d, x, y);
    KeptThen(s, s1, r.d, ro, 4 * n, r == t, to, 4 * n + Work(n), ro, 4 * n, r == t, to, 4 * n + Work(n));
    KeptThen(u, u1, t.d, to, 4 * n + Work(n), r == t, ro, 4 * n, to, 4 * n, r == t, ro, 4 * n);
  }

  lemma BaseApart(r: Bignum, ro: nat, a: Bignum, ao: nat, b: Bignum, bo: nat, n2: nat, t: Bignum, to: nat, m: nat)
    requires Apart(r, ro, a, ao, b, bo, n2, t, to, m)
    ensures Disjoint(r, ro, 2 * n2, a, ao, n2) && Disjoint(r, ro, 2 * n2, b, bo, n2)
  {}

  lemma HalvesApart(r: Bignum, ro: nat, a: Bignum, ao: nat, b: Bignum, bo: nat, n: nat, t: Bignum, to: nat)
    requires Apart(r, ro, a, ao, b, bo, 2 * n, t, to, 4 * n + Work(n))
    ensures Disjoint(r, ro, 4 * n, t, to, 4 * n + Work(n))
    ensures Disjoint(t, to, 2 * n, a, ao, 2 * n) && Disjoint(t, to, 2 * n, b, bo, 2 * n)
    ensures Disjoint(t, to, 4 * n + Work(n), a, ao, 2 * n) && Disjoint(t, to, 4 * n + Work(n), b, bo, 2 * n)
    ensures Apart(r, ro, a, ao, b, bo, 2 * n, t, to + 4 * n, Work(n))
  {}

  /** w holds the middle term of the last 16 words of x and y, apart from its carry. */
  ghost predicate LastMiddle(x: seq<Word>, y: seq<Word>, w: seq<Word>)
    requires |x| >= 16 && |y| >= 16
  {
    var u, v := x[|x| - 16..], y[|y| - 16..];
    Val(w) == (Product(u[..8], v[8..]) + Product(u[8..], v[..8])) % BP(16)
  }

  lemma LastIs(x: seq<Word>, y: seq<Word>, w: seq<Word>, c: int)
    requires |x| == |y| == |w| == 16
    requires Val(w) + c * BP(16) == Product(x[..8], y[8..]) + Product(x[8..], y[..8])
    ensures LastMiddle(x, y, w)
  {
    hide Val, Product, BP;
    ValBound(w);
    assert x[0..] == x && y[0..] == y;
    QuotientUnique(Product(x[..8], y[8..]) + Product(x[8..], y[..8]), BP(16), c, Val(w));
  }

  lemma LastOfHalf(x: seq<Word>, y: seq<Word>, n: nat, w: seq<Word>)
    requires |x| >= n + 16 && |y| >= n + 16 && LastMiddle(x[n..], y[n..], w)
    ensures LastMiddle(x, y, w)
  {
    hide Val, Product, BP;
    assert x[n..][|x| - n - 16..] == x[|x| - 16..];
    assert y[n..][|y| - n - 16..] == y[|y| - 16..];
  }

  /** The signed product of the half differences is what words 2n to 4n of t hold, up to sign. */
  ghost predicate MiddleHeld(x: seq<Word>, y: seq<Word>, n: nat, neg: bool, w: seq<Word>)
    requires n <= |x| && n <= |y|
  {
    (Val(x[..n]) - Val(x[n..])) * (Val(y[n..]) - Val(y[..n])) == if neg then -Val(w) else Val(w)
  }

  /** Above the bottom of the recursion, combining leaves the last words of the workspace alone. */
  lemma LastKept(r: Bignum, ro: nat, n: nat, t: Bignum, to: nat, u: seq<Word>, u': seq<Word>,
                 x: seq<Word>, y: seq<Word>)
    requires n == 8 || n >= 16
    requires Kept(u, u', to, 4 * n, r == t, ro, 4 * n) && to + 4 * n + Work(n) <= |u|
    requires |x| == |y| == 2 * n && Disjoint(r, ro, 4 * n, t, to, 4 * n + Work(n)) && (n > 8 ==> Work(n) >= 16)
    requires n > 8 ==> LastMiddle(x[n..], y[n..], u[to + 4 * n + Work(n) - 16..to + 4 * n + Work(n)])
    requires n == 8 ==> LastMiddle(x, y, u'[to + 16..to + 32])
    ensures LastMiddle(x, y, u'[to + 4 * n + Work(n) - 16..to + 4 * n + Work(n)])
  {
    hide LastMiddle, Kept;
    if n > 8 {
      KeptSlice(u, u', to, 4 * n, r == t, ro, 4 * n, to + 4 * n + Work(n) - 16, to + 4 * n + Work(n));
      LastOfHalf(x, y, n, u[to + 4 * n + Work(n) - 16..to + 4 * n + Work(n)]);
    }
  }

  /** The three half-size products of the Karatsuba scheme. */
  method HalfProducts(r: Bignum, ro: nat, a: Bignum, ao: nat, b: Bignum, bo: nat, n: nat, t: Bignum, to: nat)
    returns (neg: bool)
    requires n > 0 && RecursiveSize(n) && Apart(r, ro, a, ao, b, bo, 2 * n, t, to, 4 * n + Work(n))
    requires ro + 4 * n <= |r.d| && ao + 2 * n <= |a.d| && bo + 2 * n <= |b.d| && to + 4 * n + Work(n) <= |t.d|
    modifies r`d, t`d
    ensures Kept(old(r.d), r.d, ro, 4 * n, r == t, to, 4 * n + Work(n))
    ensures Kept(old(t.d), t.d, to, 4 * n + Work(n), r == t, ro, 4 * n)
    ensures var x, y := old(a.d[ao..ao + 2 * n]), old(b.d[bo..bo + 2 * n]);
            && Val(r.d[ro..ro + 2 * n]) == Product(x[..n], y[..n])
            && Val(r.d[ro + 2 * n..ro + 4 * n]) == Product(x[n..], y[n..])
            && MiddleHeld(x, y, n, neg, t.d[to + 2 * n..to + 4 * n])
            && (n > 8 ==> LastMiddle(x[n..], y[n..], t.d[to + 4 * n + Work(n) - 16..to + 4 * n + Work(n)]))
    decreases n, 4
  {
    hide Val, Kept, RecursiveSize, Product, Apart, Disjoint, MiddleHeld, LastMiddle;
    SizeAtLeast(n);
    ghost var s, u, v, w := r.d, t.d, a.d, b.d;
    HalvesApart(r, ro, a, ao, b, bo, n, t, to);
    neg := DifferenceStep(a, ao, b, bo, n, t, to);
    ghost var s1, u1 := r.d, t.d;
    OperandKept(t, to, n, a, ao, u, u1, v, a.d);
    OperandKept(t, to, n, b, bo, u, u1, w, b.d);
    OuterProducts(r, ro, a, ao, b, bo, n, t, to + 4 * n);
    HalfFrames(r, ro, n, t, to, s, s1, r.d, u, u1, t.d);
  }

  /** The difference words of t and their product. */
  method DifferenceStep(a: Bignum, ao: nat, b: Bignum, bo: nat, n: nat, t: Bignum, to: nat) returns (neg: bool)
    requires n > 0 && RecursiveSize(n)
    requires ao + 2 * n <= |a.d| && bo + 2 * n <= |b.d| && to + 4 * n + Work(n) <= |t.d|
    requires Disjoint(t, to, 2 * n, a, ao, 2 * n) && Disjoint(t, to, 2 * n, b, bo, 2 * n)
    modifies t`d
    ensures Kept(old(t.d), t.d, to, 4 * n + Work(n), false, 0, 0)
    ensures MiddleHeld(old(a.d[ao..ao + 2 * n]), old(b.d[bo..bo + 2 * n]), n, neg, t.d[to + 2 * n..to + 4 * n])
    decreases n, 3
  {
    hide Val, Kept, RecursiveSize, Product, Disjoint, MiddleHeld;
    ghost var u, v, w := t.d, a.d, b.d;
    var zero;
    ghost var d;
    neg, zero, d := Differences(a, ao, b, bo, n, t, to);
    ghost var u1 := t.d;
    DifferenceProduct(t, to, n, zero);
    KeptNothing(u, to, 4 * n + Work(n), false, 0, 0);
    KeptThen(u, u, u1, to, 4 * n + Work(n), false, 0, 0, to, 2 * n, false, 0, 0);
    KeptThen(u, u1, t.d, to, 4 * n + Work(n), false, 0, 0, to + 2 * n, 2 * n + Work(n), false, 0, 0);
    OperandHalves(v, ao, n); OperandHalves(w, bo, n);
    ProductIs(u1[to..to + n], u1[to + n..to + 2 * n]);
    HeldIs(v[ao..ao + 2 * n], w[bo..bo + 2 * n], n, neg, t.d[to + 2 * n..to + 4 * n], d);
  }

  lemma HeldIs(x: seq<Word>, y: seq<Word>, n: nat, neg: bool, w: seq<Word>, d: int)
    requires n <= |x| && n <= |y| && Val(w) == d
    requires (Val(x[..n]) - Val(x[n..])) * (Val(y[n..]) - Val(y[..n])) == if neg then -d else d
    ensures MiddleHeld(x, y, n, neg, w)
  {}

  lemma OperandHalves(v: seq<Word>, ao: nat, n: nat)
    requires ao + 2 * n <= |v|
    ensures v[ao..ao + 2 * n][..n] == v[ao..ao + n] && v[ao..ao + 2 * n][n..] == v[ao + n..ao + 2 * n]
  {}

  lemma OperandKept(t: Bignum, to: nat, n: nat, a: Bignum, ao: nat,
                    u: seq<Word>, u1: seq<Word>, v: seq<Word>, v': seq<Word>)
    requires Kept(u, u1, to, 4 * n + Work(n), false, 0, 0)
    requires a == t ==> v == u && v' == u1
    requires a != t ==> v' == v
    requires Disjoint(t, to, 4 * n + Work(n), a, ao, 2 * n) && ao + 2 * n <= |v|
    ensures |v'| == |v| && v'[ao..ao + n] == v[ao..ao + n] && v'[ao + n..ao + n + n] == v[ao + n..ao + n + n]
    ensures v[ao..ao + 2 * n][..n] == v[ao..ao + n] && v[ao..ao + 2 * n][n..] == v[ao + n..ao + n + n]
  {}

  lemma HalfFrames(r: Bignum, ro: nat, n: nat, t: Bignum, to: nat, s: seq<Word>, s1: seq<Word>, s2: seq<Word>,
                   u: seq<Word>, u1: seq<Word>, u2: seq<Word>)
    requires Kept(u, u1, to, 4 * n + Work(n), false, 0, 0)
    requires Kept(s1, s2, ro, 4 * n, r == t, to + 4 * n, Work(n))
    requires Kept(u1, u2, to + 4 * n, Work(n), r == t, ro, 4 * n)
    requires if r == t then s == u && s1 == u1 && s2 == u2 else s1 == s
    requires to + 4 * n + Work(n) <= |u| && Disjoint(r, ro, 4 * n, t, to, 4 * n + Work(n))
    ensures Kept(s, s2, ro, 4 * n, r == t, to, 4 * n + Work(n)) && Kept(u, u2, to, 4 * n + Work(n), r == t, ro, 4 * n)
    ensures u2[to + 2 * n..to + 4 * n] == u1[to + 2 * n..to + 4 * n]
    ensures |s2| == |s| && ro + 4 * n <= |s| ==> s2[ro + 2 * n..ro + 4 * n] == s2[ro + 2 * n..ro + 2 * n + 2 * n]
  {}

  /** Adds the middle term to the outer products that r holds. */
  method Combine(r: Bignum, ro: nat, n: nat, t: Bignum, to: nat, neg: bool, ghost x: seq<Word>, ghost y: seq<Word>)
    requires n > 0 && |x| == |y| == 2 * n && ro + 4 * n <= |r.d| && to + 4 * n + Work(n) <= |t.d|
    requires Disjoint(r, ro, 4 * n, t, to, 4 * n + Work(n))
    requires Val(r.d[ro..ro + 2 * n]) == Product(x[..n], y[..n])
    requires Val(r.d[ro + 2 * n..ro + 4 * n]) == Product(x[n..], y[n..])
    requires MiddleHeld(x, y, n, neg, t.d[to + 2 * n..to + 4 * n])
    modifies r`d, t`d
    ensures Kept(old(r.d), r.d, ro, 4 * n, r == t, to, 4 * n + Work(n))
    ensures Kept(old(t.d), t.d, to, 4 * n, r == t, ro, 4 * n)
    ensures n == 8 ==> LastMiddle(x, y, t.d[to + 16..to + 32])
    ensures Val(r.d[ro..ro + 4 * n]) == Product(x, y)
  {
    hide Val, Kept, Product, MiddleHeld, LastMiddle, Splice, BP, Work;
    ghost var s, u := r.d, t.d;
    ghost var tt := t.d[to + 2 * n..to + 4 * n];
    var c;
    ghost var w;
    c, w := Middle(r, ro, 2 * n, t, to, neg);
    ghost var s1, u1 := r.d, t.d;
    ghost var mid := MiddleIs(x, y, n, neg, tt);
    MiddleSlices(s, u, ro, n, to, w);
    ghost var z := AddMiddle(r, ro, n, t, to, c, mid, Product(x, y));
    SpliceSlice(s1, ro, z);
    CombineFrames(s, u, ro, n, to, w, z, r == t);
    if n == 8 { LastOfCombine(s, u, ro, to, w, z, x, y, c); }
  }

  lemma LastOfCombine(s: seq<Word>, u: seq<Word>, ro: nat, to: nat, w: seq<Word>, z: seq<Word>,
                      x: seq<Word>, y: seq<Word>, c: int)
    requires ro + 32 <= |s| && to + 32 <= |u| && |w| == |z| == 32 && |x| == |y| == 16
    requires Val(w[16..]) + c * BP(16) == Product(x[..8], y[8..]) + Product(x[8..], y[..8])
    ensures LastMiddle(x, y, Splice(u, to, w)[to + 16..to + 32])
    ensures s == u && (ro + 32 <= to || to + 32 <= ro) ==>
      LastMiddle(x, y, Splice(Splice(s, to, w), ro, z)[to + 16..to + 32])
  {
    hide Val, Product, BP, Splice, LastMiddle;
    MiddleStays(s, u, ro, 8, to, w, z);
    LastIs(x, y, w[16..], c);
  }

  lemma MiddleStays(s: seq<Word>, u: seq<Word>, ro: nat, n: nat, to: nat, w: seq<Word>, z: seq<Word>)
    requires ro + 4 * n <= |s| && to + 4 * n <= |u| && |w| == |z| == 4 * n
    ensures Splice(u, to, w)[to + 2 * n..to + 4 * n] == w[2 * n..]
    ensures s == u && (ro + 4 * n <= to || to + 4 * n <= ro) ==>
      Splice(Splice(s, to, w), ro, z)[to + 2 * n..to + 4 * n] == w[2 * n..]
  {}

  lemma MiddleSlices(s: seq<Word>, u: seq<Word>, ro: nat, n: nat, to: nat, w: seq<Word>)
    requires ro + 4 * n <= |s| && to + 4 * n <= |u| && |w| == 4 * n
    ensures Splice(u, to, w)[to + 2 * n..to + 4 * n] == w[2 * n..]
    ensures s == u && (ro + 4 * n <= to || to + 4 * n <= ro) ==>
      Splice(u, to, w)[ro..ro + 2 * n] == s[ro..ro + 2 * n] &&
      Splice(u, to, w)[ro + 2 * n..ro + 4 * n] == s[ro + 2 * n..ro + 4 * n]
  {}

  lemma CombineFrames(s: seq<Word>, u: seq<Word>, ro: nat, n: nat, to: nat, w: seq<Word>, z: seq<Word>, same: bool)
    requires ro + 4 * n <= |s| && to + 4 * n <= |u| && |w| == |z| == 4 * n && (same ==> s == u)
    ensures !same ==> Kept(s, Splice(s, ro, z), ro, 4 * n, same, to, 4 * n + Work(n))
    ensures !same ==> Kept(u, Splice(u, to, w), to, 4 * n, same, ro, 4 * n)
    ensures same ==> Kept(s, Splice(Splice(s, to, w), ro, z), ro, 4 * n, same, to, 4 * n + Work(n))
    ensures same ==> Kept(u, Splice(Splice(s, to, w), ro, z), to, 4 * n, same, ro, 4 * n)
  {
    hide Kept, Splice;
    var m := 4 * n + Work(n);
    KeptNothing(s, ro, 4 * n, same, to, m);
    KeptNothing(u, to, 4 * n, same, ro, 4 * n);
    KeptSplice(u, u, to, 4 * n, same, ro, 4 * n, to, w);
    if same {
      KeptSplice(s, s, ro, 4 * n, same, to, m, to, w);
      KeptSplice(s, Splice(s, to, w), ro, 4 * n, same, to, m, ro, z);
      KeptSplice(u, Splice(s, to, w), to, 4 * n, same, ro, 4 * n, ro, z);
    } else {
      KeptSplice(s, s, ro, 4 * n, same, to, m, ro, z);
    }
  }

  /** The value of the middle term, and the whole product from its three parts. */
  lemma MiddleIs(x: seq<Word>, y: seq<Word>, n: nat, neg: bool, w: seq<Word>) returns (mid: int)
    requires n <= |x| && n <= |y| && MiddleHeld(x, y, n, neg, w)
    requires |x| == |y| == 2 * n
    ensures mid >= 0
    ensures mid == Product(x[..n], y[..n]) + Product(x[n..], y[n..]) + (if neg then -Val(w) else Val(w))
    ensures mid == Product(x[..n], y[n..]) + Product(x[n..], y[..n])
    ensures Product(x, y) == Product(x[..n], y[..n]) + BP(n) * mid + BP(2 * n) * Product(x[n..], y[n..])
    ensures Product(x, y) < BP(4 * n)
  {
    hide Val;
    var x0, x1, y0, y1 := Val(x[..n]), Val(x[n..]), Val(y[..n]), Val(y[n..]);
    mid := x0 * y1 + x1 * y0;
    MulPos(x0, y1); MulPos(x1, y0);
    MiddleTerm(x0, x1, y0, y1, Val(w), neg);
    Halves(x, n); Halves(y, n);
    BPAdd(n, n); BPAdd(2 * n, 2 * n);
    KaratsubaProduct(x0, x1, y0, y1, BP(n));
    ValBound(x); ValBound(y);
    ProductBound(Val(x), BP(2 * n), Val(y), BP(2 * n));
  }

  /** The products of the low halves and of the high halves, with p as workspace of both. */
  method OuterProducts(r: Bignum, ro: nat, a: Bignum, ao: nat, b: Bignum, bo: nat, n: nat, t: Bignum, p: nat)
    requires RecursiveSize(n) && ro + 4 * n <= |r.d|
    requires ao + 2 * n <= |a.d| && bo + 2 * n <= |b.d| && p + Work(n) <= |t.d|
    requires Apart(r, ro, a, ao, b, bo, 2 * n, t, p, Work(n))
    modifies r`d, t`d
    ensures Kept(old(r.d), r.d, ro, 4 * n, r == t, p, Work(n))
    ensures Kept(old(t.d), t.d, p, Work(n), r == t, ro, 4 * n)
    ensures Val(r.d[ro..ro + 2 * n]) == Product(old(a.d[ao..ao + n]), old(b.d[bo..bo + n]))
    ensures Val(r.d[ro + 2 * n..ro + 2 * n + 2 * n])
         == Product(old(a.d[ao + n..ao + n + n]), old(b.d[bo + n..bo + n + n]))
    ensures n > 8 ==>
      LastMiddle(old(a.d[ao + n..ao + n + n]), old(b.d[bo + n..bo + n + n]), t.d[p + Work(n) - 16..p + Work(n)])
    decreases n, 2
  {
    hide Val, Kept, RecursiveSize, Product, Apart, Disjoint, LastMiddle;
    SizeAtLeast(n);
    ghost var s, u, v, w := r.d, t.d, a.d, b.d;
    OuterApart(r, ro, a, ao, b, bo, n, t, p);
    MulRecursive(r, ro, a, ao, b, bo, n, t, p);
    ghost var s1, u1 := r.d, t.d;
    SliceSafe(r, ro, 2 * n, t, p, Work(n), a, ao + n, n, s, s1, u, u1, v, a.d);
    SliceSafe(r, ro, 2 * n, t, p, Work(n), b, bo + n, n, s, s1, u, u1, w, b.d);
    MulRecursive(r, ro + 2 * n, a, ao + n, b, bo + n, n, t, p);
    OuterFrames(s, s1, r.d, u, u1, t.d, ro, n, r == t, p);
  }

  lemma OuterApart(r: Bignum, ro: nat, a: Bignum, ao: nat, b: Bignum, bo: nat, n: nat, t: Bignum, p: nat)
    requires Apart(r, ro, a, ao, b, bo, 2 * n, t, p, Work(n))
    ensures Apart(r, ro, a, ao, b, bo, n, t, p, Work(n))
    ensures Apart(r, ro + 2 * n, a, ao + n, b, bo + n, n, t, p, Work(n))
    ensures Disjoint(r, ro, 2 * n, a, ao + n, n) && Disjoint(r, ro, 2 * n, b, bo + n, n)
    ensures Disjoint(t, p, Work(n), a, ao + n, n) && Disjoint(t, p, Work(n), b, bo + n, n)
    ensures r == t ==> ro + 4 * n <= p || p + Work(n) <= ro
  {}

  lemma OuterFrames(s: seq<Word>, s1: seq<Word>, s2: seq<Word>, u: seq<Word>, u1: seq<Word>, u2: seq<Word>,
                    ro: nat, n: nat, same: bool, p: nat)
    requires Kept(s, s1, ro, 2 * n, same, p, Work(n)) && Kept(u, u1, p, Work(n), same, ro, 2 * n)
    requires Kept(s1, s2, ro + 2 * n, 2 * n, same, p, Work(n)) && Kept(u1, u2, p, Work(n), same, ro + 2 * n, 2 * n)
    requires ro + 4 * n <= |s| && (same ==> ro + 4 * n <= p || p + Work(n) <= ro)
    ensures Kept(s, s2, ro, 4 * n, same, p, Work(n)) && Kept(u, u2, p, Work(n), same, ro, 4 * n)
    ensures s2[ro..ro + 2 * n] == s1[ro..ro + 2 * n]
  {}

  /** The product of the differences, in words 2n to 4n of t. */
  method DifferenceProduct(t: Bignum, to: nat, n: nat, zero: bool)
    requires RecursiveSize(n) && to + 4 * n + Work(n) <= |t.d|
    modifies t`d
    ensures Kept(old(t.d), t.d, to + 2 * n, 2 * n + Work(n), false, 0, 0)
    ensures Val(t.d[to + 2 * n..to + 4 * n])
         == if zero then 0 else Product(old(t.d[to..to + n]), old(t.d[to + n..to + 2 * n]))
    decreases n, 2
  {
    hide Val, Kept, Splice;
    ghost var u := t.d;
    KeptNothing(u, to + 2 * n, 2 * n + Work(n), false, 0, 0);
    if zero {
      ghost var z := ClearWords(t, to + 2 * n, 2 * n);
      KeptSplice(u, u, to + 2 * n, 2 * n + Work(n), false, 0, 0, to + 2 * n, z);
      SpliceSlice(u, to + 2 * n, z);
    } else {
      MulRecursive(t, to + 2 * n, t, to, t, to + n, n, t, to + 4 * n);
      KeptThen(u, u, t.d, to + 2 * n, 2 * n + Work(n), false, 0, 0, to + 2 * n, 2 * n, true, to + 4 * n, Work(n));
    }
  }
}
