/** Carries that run up a buffer until a word does not wrap. */
module Ripple {
  import opened Words
  import opened Bignums
  import opened WordLoops

  ghost function Zeros(n: nat): (z: seq<Word>)
    ensures |z| == n
  {
    if n == 0 then [] else Zeros(n - 1) + [0]
  }

  lemma {:induction false} ValZeros(n: nat)
    ensures Val(Zeros(n)) == 0
  {
    hide Val, BP;
    if n > 0 {
      ValZeros(n - 1);
      ValSnoc(Zeros(n - 1), 0);
    } else {
      NoWords();
    }
  }

  /** One more word of ones: the carry passes through it. */
  lemma RipplePast(x: seq<Word>, i: nat)
    requires i < |x| && x[i] == 0xFFFF_FFFF && Val(x[..i]) == BP(i) - 1
    ensures Val(x[..i + 1]) == BP(i + 1) - 1
  {
    ValTake(x, i);
  }

  lemma ThreeParts(u: seq<Word>, w: Word, v: seq<Word>)
    ensures Val(u + [w] + v) == Val(u) + w * BP(|u|) + BP(|u| + 1) * Val(v)
  {
    ValConcat(u + [w], v);
    ValSnoc(u, w);
  }

  /** The carry stops at word i. */
  lemma RippleStops(x: seq<Word>, i: nat, w: Word)
    requires i < |x| && w == x[i] as int + 1 && Val(x[..i]) == BP(i) - 1
    ensures Val(Zeros(i) + [w] + x[i + 1..]) == Val(x) + 1
  {
    hide Val;
    var u, v := x[..i], x[i + 1..];
    assert x == u + [x[i]] + v;
    ThreeParts(u, x[i], v); ThreeParts(Zeros(i), w, v);
    ValZeros(i);
    StopStep(Val(u), x[i], w, BP(i), BP(i + 1) * Val(v));
  }

  lemma StopStep(v: int, x: int, w: int, p: int, rest: int)
    requires v == p - 1 && w == x + 1
    ensures w * p + rest == v + x * p + rest + 1
  {}

  /** The loops "while (++p[x] == 0)": adds one at word k. The number in words k to hi
      does not overflow, so the carry stops below hi. */
  method Increment(r: Bignum, k: nat, ghost hi: nat) returns (ghost z: seq<Word>)
    requires k <= hi <= |r.d| && Val(r.d[k..hi]) + 1 < BP(hi - k)
    modifies r`d
    ensures |z| == hi - k && r.d == Splice(old(r.d), k, z)
    ensures Val(z) == Val(old(r.d[k..hi])) + 1
  {
    hide Val, Zeros, BP, Splice, Trunc;
    ghost var s, x := r.d, r.d[k..hi];
    var i := 0;
    RippleStart(x);
    NoZeros();
    SpliceNothing(s, k);
    while true
      invariant i < |x|
      invariant r.d == Splice(s, k, Zeros(i))
      invariant Val(x[..i]) == BP(i) - 1
      decreases |x| - i
    {
      SpliceAbove(s, k, Zeros(i), k + i);
      var w := Trunc(r.d[k + i] as int + 1);
      TruncSuccessor(x[i]);
      SpliceSnoc(s, k, Zeros(i), w);
      r.d := r.d[k + i := w];
      if w != 0 {
        z := Zeros(i) + [w] + x[i + 1..];
        RippleStops(x, i, w);
        SpliceRest(s, k, hi, Zeros(i) + [w]);
        return;
      }
      RipplePast(x, i);
      ZerosSnoc(i);
      assert x[..|x|] == x;
      i := i + 1;
    }
  }

  lemma SpliceRest(s: seq<Word>, k: nat, hi: nat, z: seq<Word>)
    requires k + |z| <= hi <= |s|
    ensures Splice(s, k, z) == Splice(s, k, z + s[k..hi][|z|..])
  {}

  lemma NoZeros()
    ensures Zeros(0) == []
  {}

  lemma TruncSuccessor(w: Word)
    ensures Trunc(w as int + 1) == if w == 0xFFFF_FFFF then 0 else w + 1
  {}

  lemma ZerosSnoc(i: nat)
    ensures Zeros(i + 1) == Zeros(i) + [0]
  {}

  lemma RippleStart(x: seq<Word>)
    requires Val(x) + 1 < BP(|x|)
    ensures x != [] && Val(x[..0]) == BP(0) - 1 && Zeros(0) == []
  {}

  lemma AddAtNoCarry(x: seq<Word>, c: Word, w: Word)
    requires x != [] && w == x[0] + c
    ensures Val([w] + x[1..]) == Val(x) + c
  {
    LowWord(x);
    LowWord([w] + x[1..]);
  }

  lemma LowWord(x: seq<Word>)
    requires x != []
    ensures Val(x) == x[0] + 0x1_0000_0000 * Val(x[1..])
  {
    assert x == [x[0]] + x[1..];
    ValConcat([x[0]], x[1..]);
    assert [x[0]][..0] == [];
    assert BP(1) == 0x1_0000_0000;
  }

  lemma AddAtCarry(x: seq<Word>, c: Word, w: Word)
    requires x != [] && w + 0x1_0000_0000 == x[0] + c && Val(x) + c < BP(|x|)
    ensures Val(x[1..]) + 1 < BP(|x| - 1)
    ensures forall y | Val(y) == Val(x[1..]) + 1 :: Val([w] + y) == Val(x) + c
  {
    LowWord(x);
    forall y | Val(y) == Val(x[1..]) + 1 ensures Val([w] + y) == Val(x) + c {
      LowWord([w] + y);
      assert ([w] + y)[1..] == y;
    }
  }

  /** Adds the word c at word k of r and lets the carry run; the sum fits below hi. */
  method AddWordAt(r: Bignum, k: nat, ghost hi: nat, c: Word) returns (ghost z: seq<Word>)
    requires k < hi <= |r.d| && Val(r.d[k..hi]) + c < BP(hi - k)
    modifies r`d
    ensures |z| == hi - k && r.d == Splice(old(r.d), k, z)
    ensures Val(z) == Val(old(r.d[k..hi])) + c
  {
    hide Val;
    ghost var s, x := r.d, r.d[k..hi];
    var w := Trunc(r.d[k] + c);
    r.d := r.d[k := w];
    if w < c {
      AddAtCarry(x, c, w);
      assert r.d[k + 1..hi] == x[1..];
      ghost var y := Increment(r, k + 1, hi);
      z := [w] + y;
    } else {
      AddAtNoCarry(x, c, w);
      z := [w] + x[1..];
    }
    assert r.d == Splice(s, k, z);
  }

  /** memset: the n words at to become zero. */
  method ClearWords(t: Bignum, to: nat, n: nat) returns (ghost z: seq<Word>)
    requires to + n <= |t.d|
    modifies t`d
    ensures |z| == n && t.d == Splice(old(t.d), to, z) && Val(z) == 0
  {
    ghost var u := t.d;
    var i := 0;
    assert Splice(u, to, Zeros(0)) == u;
    while i < n
      invariant i <= n && t.d == Splice(u, to, Zeros(i))
    {
      SpliceSnoc(u, to, Zeros(i), 0);
      ZerosSnoc(i);
      t.d := t.d[to + i := 0];
      i := i + 1;
    }
    ValZeros(n);
    z := Zeros(n);
  }
}
