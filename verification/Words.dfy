/** Little-endian sequences of 32-bit words and the natural numbers they stand for. */
module Words {

  /** BN_ULONG under THIRTY_TWO_BIT: 0x1_0000_0000 is 2^32. */
  type Word = w: int | 0 <= w < 0x1_0000_0000

  /** A half word, the operand of the multiplication macros. */
  type Half = w: int | 0 <= w < 0x1_0000

  /** `x & BN_MASK2` */
  function Trunc(x: int): Word { x % 0x1_0000_0000 }

  /** LBITS */
  function LBits(x: Word): Half { x % 0x1_0000 }

  /** HBITS */
  function HBits(x: Word): Half { x / 0x1_0000 }

  /** 2^(32*n) */
  ghost function BP(n: nat): (p: int)
    ensures p > 0
  {
    if n == 0 then 1 else 0x1_0000_0000 * BP(n - 1)
  }

  /** The number a word sequence stands for, least significant word first. */
  ghost function Val(s: seq<Word>): (v: int)
    ensures v >= 0
  {
    if |s| == 0 then 0 else Val(s[..|s| - 1]) + s[|s| - 1] * BP(|s| - 1)
  }

  /** A product under a name, for contracts whose proofs do not multiply. */
  ghost function Times(x: int, y: int): int { x * y }

  lemma TimesCommute(x: int, y: int)
    ensures Times(x, y) == Times(y, x) && (x == 0 ==> Times(x, y) == 0)
  {}

  lemma MulMono(x: int, y: int, z: int)
    requires x <= y && z >= 0
    ensures x * z <= y * z
  {}

  lemma Commute(a: int, b: int)
    ensures a * b == b * a
  {}

  lemma ConcatStep(p: int, u: int, x: int, q: int)
    ensures p * (u + x * q) == p * u + x * (p * q)
  {}

  lemma {:induction false} BPAdd(m: nat, n: nat)
    ensures BP(m + n) == BP(m) * BP(n)
  {
    if m > 0 {
      BPAdd(m - 1, n);
      assert 0x1_0000_0000 * BP(m - 1) * BP(n) == 0x1_0000_0000 * (BP(m - 1) * BP(n));
    }
  }

  lemma {:induction false} ValBound(s: seq<Word>)
    ensures Val(s) < BP(|s|)
  {
    if |s| > 0 {
      ValBound(s[..|s| - 1]);
      MulMono(s[|s| - 1], 0xFFFF_FFFF, BP(|s| - 1));
    }
  }

  lemma NoWords()
    ensures Val([]) == 0
  {}

  lemma ValSnoc(s: seq<Word>, x: Word)
    ensures Val(s + [x]) == Val(s) + x * BP(|s|)
  {
    assert (s + [x])[..|s|] == s;
  }

  lemma {:induction false} ValConcat(s: seq<Word>, t: seq<Word>)
    ensures Val(s + t) == Val(s) + BP(|s|) * Val(t)
  {
    if |t| == 0 {
      assert s + t == s;
    } else {
      var u, x := t[..|t| - 1], t[|t| - 1];
      ValConcat(s, u);
      assert t == u + [x] && s + t == (s + u) + [x];
      ValSnoc(s + u, x);
      ValSnoc(u, x);
      BPAdd(|s|, |u|);
      ConcatStep(BP(|s|), Val(u), x, BP(|u|));
    }
  }

  lemma Distribute(a: int, b: int, p: int)
    ensures (a + b) * p == a * p + b * p
    ensures (a - b) * p == a * p - b * p
  {}

  lemma QuotientUnique(x: int, p: int, q: int, r: int)
    requires p > 0 && x == q * p + r && 0 <= r < p
    ensures x / p == q && x % p == r
  {
    var q', r' := x / p, x % p;
    assert x == q' * p + r' && 0 <= r' < p;
    Distribute(q, q', p);
    if q > q' { MulMono(1, q - q', p); }
    if q < q' { MulMono(1, q' - q, p); Distribute(q', q, p); }
  }

  lemma QuotientBounds(x: int, p: int)
    requires p > 0
    ensures x == (x / p) * p + x % p && 0 <= x % p < p
  {}

  /** The low n words and the rest. */
  lemma Halves(x: seq<Word>, n: nat)
    requires n <= |x|
    ensures Val(x) == Val(x[..n]) + BP(n) * Val(x[n..])
  {
    assert x == x[..n] + x[n..];
    ValConcat(x[..n], x[n..]);
  }

  lemma MulPos(x: int, y: int)
    requires x >= 0 && y >= 0
    ensures x * y >= 0
  {}

  /** A number has one representation in a given count of words. */
  lemma {:induction false} ValUnique(s: seq<Word>, t: seq<Word>)
    requires |s| == |t| && Val(s) == Val(t)
    ensures s == t
  {
    if |s| > 0 {
      var n := |s| - 1;
      ValBound(s[..n]); ValBound(t[..n]);
      QuotientUnique(Val(s), BP(n), s[n], Val(s[..n]));
      QuotientUnique(Val(t), BP(n), t[n], Val(t[..n]));
      ValUnique(s[..n], t[..n]);
      assert s == s[..n] + [s[n]] && t == t[..n] + [t[n]];
    }
  }
}
