/** The quotient digit of BN_div and how far it can be from the true digit. */
module QuotientDigit {
  import opened Words
  import opened HalfWords
  import opened DivWord

  // ---------- the refinement loop

  lemma TwoByOne(n0: int, n1: int, n2: int, d0: int, d1: int, q: int)
    requires (q + 1) * d0 > n0 * 0x1_0000_0000 + n1 && d1 >= 0 && q >= 0 && n2 < 0x1_0000_0000
    ensures (q + 1) * (d0 * 0x1_0000_0000 + d1) > (n0 * 0x1_0000_0000 + n1) * 0x1_0000_0000 + n2
  {
    MulMono(0, q + 1, d1);
    DigitSplit(q + 1, d0, d1);
  }

  lemma DigitSplit(q: int, d0: int, d1: int)
    ensures q * (d0 * 0x1_0000_0000 + d1) == (q * d0) * 0x1_0000_0000 + q * d1
  {}

  /** q * d1 against the remainder followed by the third word. */
  lemma Refine(n: int, n2: int, d0: int, d1: int, q: int, rem: int)
    requires rem == n - q * d0
    ensures q * d1 <= rem * 0x1_0000_0000 + n2 <==> q * (d0 * 0x1_0000_0000 + d1) <= n * 0x1_0000_0000 + n2
  {
    DigitSplit(q, d0, d1);
  }

  lemma RemainderIs(n0: int, n1: Word, d0: Word, q: int)
    requires 0 <= n0 * 0x1_0000_0000 + n1 - q * d0 < d0
    ensures Trunc(n1 - q * d0) == n0 * 0x1_0000_0000 + n1 - q * d0
  {}

  /** The digit of BN_div: BN_MASK2 when the leading words agree, and else the exact
      quotient of the three leading words by the two leading words of the divisor. */
  method DivDigit(n0: Word, n1: Word, n2: Word, d0: Word, d1: Word) returns (q: Word)
    requires 0x8000_0000 <= d0 && n0 <= d0
    ensures n0 == d0 ==> q == 0xFFFF_FFFF
    ensures n0 < d0 ==> ExactDigit(q, d0 * 0x1_0000_0000 + d1, (n0 * 0x1_0000_0000 + n1) * 0x1_0000_0000 + n2)
  {
    hide Trunc;
    if n0 == d0 { return 0xFFFF_FFFF; }
    q := DivWords(n0, n1, d0);
    Successor(q, d0);
    RemainderIs(n0, n1, d0, q);
    TwoByOne(n0, n1, n2, d0, d1, q);
    q := RefineDigit(n0 * 0x1_0000_0000 + n1, n2, d0, d1, q, Trunc(n1 - q * d0));
  }

  /** q is the floor of n / d. */
  ghost predicate ExactDigit(q: int, d: int, n: int) {
    q * d <= n < (q + 1) * d
  }

  /** The loop that lowers q until q * d1 fits below the remainder. */
  method RefineDigit(ghost n: int, n2: Word, d0: Word, d1: Word, q0: Word, rem0: Word) returns (q: Word)
    requires rem0 == n - q0 * d0
    requires (q0 + 1) * (d0 * 0x1_0000_0000 + d1) > n * 0x1_0000_0000 + n2
    ensures ExactDigit(q, d0 * 0x1_0000_0000 + d1, n * 0x1_0000_0000 + n2)
  {
    hide HBits, LBits;
    q := q0;
    var rem := rem0;
    var t2l: Word, t2h: Word := Mul64(LBits(d1), HBits(d1), LBits(q), HBits(q));
    HalvesJoin(d1); HalvesJoin(q);
    Commute(d1, q);
    while true
      invariant rem == n - q * d0 && t2l + t2h * 0x1_0000_0000 == q * d1
      invariant (q + 1) * (d0 * 0x1_0000_0000 + d1) > n * 0x1_0000_0000 + n2
      decreases q
    {
      Refine(n, n2, d0, d1, q, rem);
      if t2h < rem || (t2h == rem && t2l <= n2) { break; }
      var over: bool;
      over, q, rem, t2h, t2l := Decrement(n, n2, d0, d1, q, rem, t2h, t2l);
      if over { break; }
    }
  }

  /** One pass of the loop; over says that the remainder no longer fits in a word. */
  method Decrement(ghost n: int, ghost n2: Word, d0: Word, d1: Word, q: Word, rem: Word, t2h: Word, t2l: Word)
    returns (over: bool, q': Word, rem': Word, t2h': Word, t2l': Word)
    requires rem == n - q * d0 && t2l + t2h * 0x1_0000_0000 == q * d1 > 0
    ensures q' == q - 1
    ensures over ==> q' * (d0 * 0x1_0000_0000 + d1) <= n * 0x1_0000_0000 + n2
    ensures !over ==> rem' == n - q' * d0 && t2l' + t2h' * 0x1_0000_0000 == q' * d1
  {
    hide Trunc;
    Positive(q, d1);
    Successor(q - 1, d0); Successor(q - 1, d1);
    q', rem', t2h', t2l' := q - 1, rem, t2h, t2l;
    over := rem as int + d0 >= 0x1_0000_0000;   // rem += d0; if (rem < d0) break;
    WordProduct(q', d1);
    if over {
      Refine(n, n2, d0, d1, q', rem as int + d0);
      return;
    }
    rem' := rem + d0;
    PairLess(t2l, t2h, d1, q' * d1);
    if t2l < d1 { t2h' := t2h - 1; }
    t2l' := WrappedLess(t2l, d1);
  }

  lemma Positive(q: int, d: int)
    requires q >= 0 && q * d > 0
    ensures q > 0
  {}

  lemma HalvesJoin(x: Word)
    ensures LBits(x) + 0x1_0000 * HBits(x) == x
  {}

  /** t - d modulo 2^32 */
  function WrappedLess(t: Word, d: Word): (r: Word)
    ensures r == if t < d then t + 0x1_0000_0000 - d else t - d
  {
    Trunc(t - d)
  }

  lemma PairLess(l: Word, h: Word, d: Word, rest: int)
    requires l + h * 0x1_0000_0000 == rest + d && rest >= 0
    ensures l < d ==> h > 0
  {}

  // ---------- how good the digit is

  /** Equal leading words: BN_MASK2 is at most one too large. */
  lemma MaskDigit(w: int, v: int, d0: int, p: int)
    requires p > 0 && 0x8000_0000 <= d0 && v < (d0 + 1) * p
    requires (d0 * 0x1_0000_0000) * p <= w < v * 0x1_0000_0000
    ensures CloseDigit(0xFFFF_FFFF, v, w)
  {
    assert 0xFFFF_FFFE * ((d0 + 1) * p) == (0xFFFF_FFFE * (d0 + 1)) * p;
    MulMono(0xFFFF_FFFE * (d0 + 1), d0 * 0x1_0000_0000, p);
  }

  /** The digit from the leading words is never too small and at most one too large. */
  lemma LeadingDigit(w: int, v: int, n: int, d: int, p: int, q: int)
    requires p > 0 && 0 <= q < 0x1_0000_0000 <= d
    requires d * p <= v < (d + 1) * p && n * p <= w < (n + 1) * p
    requires ExactDigit(q, d, n)
    ensures CloseDigit(q, v, w)
  {
    MulMono(0, q, d); MulMono(0, n, p); MulMono(0, d, p);
    assert n < (q + 1) * d;
    Upper(w, v, n, d, p, q);
    Lower(w, v, n, d, p, q);
  }

  lemma Upper(w: int, v: int, n: int, d: int, p: int, q: int)
    requires p > 0 && q >= 0 && d * p <= v && w < (n + 1) * p && n + 1 <= (q + 1) * d
    ensures w < (q + 1) * v
  {
    MulMono(n + 1, (q + 1) * d, p);
    MulMono(d * p, v, q + 1);
    assert ((q + 1) * d) * p == (d * p) * (q + 1);
    Commute(v, q + 1);
  }

  lemma Lower(w: int, v: int, n: int, d: int, p: int, q: int)
    requires p > 0 && 0 <= q < d && 0 < d && 0 <= v < (d + 1) * p && n * p <= w && q * d <= n && w >= 0
    ensures (q - 1) * v <= w
  {
    if q == 0 { return; }
    MulMono(v, (d + 1) * p, q - 1);
    assert ((d + 1) * p) * (q - 1) == ((q - 1) * (d + 1)) * p;
    assert (q - 1) * (d + 1) == q * d - d + q - 1;
    MulMono((q - 1) * (d + 1), n, p);
    Commute(v, q - 1);
  }

  /** With a one-word divisor the digit is exact. */
  lemma OneWordDigit(w: int, v: int, n2: int, q: int)
    requires 0 <= n2 < 0x1_0000_0000 && v >= 0
    requires ExactDigit(q, v * 0x1_0000_0000, w * 0x1_0000_0000 + n2)
    ensures ExactDigit(q, v, w) && CloseDigit(q, v, w)
  {
    assert q * (v * 0x1_0000_0000) == (q * v) * 0x1_0000_0000;
    assert (q + 1) * (v * 0x1_0000_0000) == ((q + 1) * v) * 0x1_0000_0000;
  }

  /** q is the digit of w divided by v, or one more. */
  ghost predicate CloseDigit(q: int, v: int, w: int) {
    Times(q - 1, v) <= w < Times(q + 1, v)
  }

  lemma CloseDigitIs(q: int, v: int, w: int)
    requires CloseDigit(q, v, w)
    ensures Times(q, v) - v <= w < Times(q, v) + v
    ensures Times(q - 1, v) == Times(q, v) - v
    ensures q == 0 ==> Times(q, v) == 0
  {
    Successor(q, v); Successor(q - 1, v);
  }
}
