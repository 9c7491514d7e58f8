/** bn_div_words: a two-word by one-word quotient from half-word divisions. */
module DivWord {
  import opened Words
  import opened Bits
  import opened HalfWords

  lemma EstimateNotSmall(h: int, hb: int, d: int, dh: int, dl: int, q: int)
    requires d == dh * 0x1_0000 + dl && dh > 0 && 0 <= dl && 0 <= hb < 0x1_0000 && 0 <= h
    requires q * dh <= h < (q + 1) * dh
    ensures (q + 1) * d > h * 0x1_0000 + hb
  {
    assert (q + 1) * d == ((q + 1) * dh) * 0x1_0000 + (q + 1) * dl;
    if q < 0 { MulMono(q + 1, 0, dh); }
    MulMono(0, q + 1, dl);
  }

  lemma SplitDigit(q: int, d: int, dh: int, dl: int)
    requires d == dh * 0x1_0000 + dl
    ensures q * d == (q * dh) * 0x1_0000 + q * dl
  {}

  /** The trial digit and its correction loop: the exact half-word quotient digit. */
  method HalfDigit(h: Word, l: Word, d: Word) returns (q: Half, th: Word, tl: Word)
    requires 0x8000_0000 <= d && h < d
    ensures th == q * HBits(d) && tl == q * LBits(d) && th <= h
    ensures 0 <= h * 0x1_0000 + HBits(l) - q * d < d
  {
    var dh, dl := HBits(d), LBits(d);
    if HBits(h) == dh {
      q := 0xFFFF;
      MulMono(0x1_0000, 0x1_0000, d);
    } else {
      DivIsHalf(h, dh);
      q := h / dh;
      FloorBounds(h, dh);
      EstimateNotSmall(h, HBits(l), d, dh, dl, h / dh);
    }
    Successor(q, d);
    HalfProduct(q, dh); HalfProduct(q, dl);
    th, tl := q * dh, dl * q;
    while true
      invariant th == q * dh <= h && tl == q * dl
      invariant h * 0x1_0000 + HBits(l) < q * d + d
      decreases q
    {
      var t := h - th;
      SplitDigit(q, d, dh, dl);
      if t >= 0x1_0000 || tl <= t * 0x1_0000 + HBits(l) { break; }
      assert q > 0;
      StepDown(q, dh); StepDown(q, dl); Successor(q - 1, d);
      q := q - 1;
      th := th - dh;
      tl := tl - dl;
    }
  }

  lemma Successor(q: int, d: int)
    ensures (q + 1) * d == q * d + d
  {}

  lemma StepDown(q: Half, x: Half)
    requires q > 0
    ensures (q - 1) * x == q * x - x >= 0
  {
    MulMono(0, q - 1, x);
  }

  lemma DivIsHalf(h: Word, dh: Half)
    requires dh > 0 && HBits(h) < dh
    ensures 0 <= h / dh < 0x1_0000
  {
    FloorBounds(h, dh);
    if h / dh >= 0x1_0000 { MulMono(0x1_0000, h / dh, dh); }
    if h / dh <= -1 { MulMono(h / dh + 1, 0, dh); }
  }

  /** Subtracting a digit's product leaves the partial remainder, and never more than h. */
  lemma PassCarries(h: Word, l: Word, d: Word, qd: int, th: Word, tl: Word, th': int, tl': Word)
    requires qd == th * 0x1_0000 + tl
    requires qd <= h * 0x1_0000 + HBits(l) < qd + d
    requires tl' == Trunc(tl * 0x1_0000)
    requires th' == th + HBits(tl) + (if l < tl' then 1 else 0)
    ensures th' <= h
    ensures (h - th') * 0x1_0000_0000 + Trunc(l - tl') == h * 0x1_0000_0000 + l - qd * 0x1_0000
    ensures 0 <= (h - th') * 0x1_0000 + HBits(Trunc(l - tl')) < d
  {
    assert tl' == LBits(tl) * 0x1_0000;
    assert tl == HBits(tl) * 0x1_0000 + LBits(tl);
    assert l == HBits(l) * 0x1_0000 + LBits(l);
    assert l < tl' <==> HBits(l) < LBits(tl);
  }

  /** One pass: the digit, and the remainder left in h and the high half of l. */
  method DivPass(h: Word, l: Word, d: Word) returns (q: Half, h': Word, l': Word)
    requires 0x8000_0000 <= d && h < d
    ensures h' * 0x1_0000_0000 + l' == h * 0x1_0000_0000 + l - (q * d) * 0x1_0000
    ensures 0 <= h' * 0x1_0000 + HBits(l') < d
  {
    hide Trunc, HBits;
    var th: Word, tl: Word;
    q, th, tl := HalfDigit(h, l, d);
    ghost var qd, th0, tl0 := q * d, th, tl;
    DigitProduct(q, d, th, tl);
    var th': int := th + HBits(tl);
    tl := Trunc(tl * 0x1_0000);
    if l < tl { th' := th' + 1; }
    PassCarries(h, l, d, qd, th0, tl0, th', tl);
    l' := Trunc(l - tl);
    h' := h - th';   // th' <= h: the "h < th" correction never fires
  }

  lemma DigitProduct(q: int, d: Word, th: int, tl: int)
    requires th == q * HBits(d) && tl == q * LBits(d)
    ensures q * d == th * 0x1_0000 + tl
  {
    SplitDigit(q, d, HBits(d), LBits(d));
  }

  /** Normalising shifts dividend and divisor alike and keeps h below d. */
  lemma NormaliseDivisor(d: Word, n: nat)
    requires 0 < n <= 32 && HasBits(d, n)
    ensures 0x8000_0000 <= d * P2(32 - n) < 0x1_0000_0000
    ensures P2(32 - n) * P2(n) == 0x1_0000_0000
  {
    P2Bytes();
    P2Add(n, 32 - n);
    P2Add(n - 1, 32 - n);
    ScaleBounds(P2(n - 1), d, P2(n), P2(32 - n));
  }

  lemma ScaleBounds(lo: int, x: int, hi: int, p: int)
    requires lo <= x < hi && p > 0
    ensures lo * p <= x * p < hi * p
    ensures p * hi == hi * p
  {
    MulMono(lo, x, p);
    MulMono(x + 1, hi, p);
  }

  /** The two normalised dividend words: the value is scaled by p and the high word stays below d. */
  lemma NormaliseDividend(h: Word, l: Word, d: Word, p: int, c: int)
    requires p > 0 && c > 0 && p * c == 0x1_0000_0000 && h < d
    ensures 0 <= h * p + l / c < d * p
    ensures (h * p + l / c) * 0x1_0000_0000 + Trunc(l * p) == (h * 0x1_0000_0000 + l) * p
  {
    SplitAtBit(l, p, c);
    MulMono(h + 1, d, p);
    MulMono(0, h, p);
    assert (h * 0x1_0000_0000 + l) * p == (h * p) * 0x1_0000_0000 + l * p;
  }

  lemma Unscale(n: int, d: int, p: int, q: int)
    requires p > 0 && 0 <= n * p - q * (d * p) < d * p
    ensures q * d <= n < (q + 1) * d
  {
    assert n * p - q * (d * p) == (n - q * d) * p;
    if n - q * d < 0 { MulMono(n - q * d, -1, p); }
    if n - q * d >= d { MulMono(d, n - q * d, p); }
  }

  /** The digits of two passes, put together. */
  lemma TwoDigits(n: int, d: int, q1: int, q2: int, r: int)
    requires r == n - (q1 * d) * 0x1_0000
    ensures r - q2 * d == n - (q1 * 0x1_0000 + q2) * d
  {}

  /** The two passes of bn_div_words over normalised operands. */
  method DivNormalised(h: Word, l: Word, d: Word) returns (ret: Word)
    requires 0x8000_0000 <= d && h < d
    ensures 0 <= h * 0x1_0000_0000 + l - ret * d < d
  {
    var q1, h1, l1 := DivPass(h, l, d);
    PassJoin(h1, l1);
    var q2, h2, l2 := DivPass(h1 * 0x1_0000 + HBits(l1), LBits(l1) * 0x1_0000, d);
    ret := q1 * 0x1_0000 + q2;
    LastPass(h1, l1, d, q2 * d, h2, l2);
    TwoDigits(h * 0x1_0000_0000 + l, d, q1, q2, h1 * 0x1_0000_0000 + l1);
  }

  lemma PassJoin(h: Word, l: Word)
    ensures (h * 0x1_0000 + HBits(l)) * 0x1_0000_0000 + LBits(l) * 0x1_0000
         == (h * 0x1_0000_0000 + l) * 0x1_0000
  {}

  lemma LastPass(h: Word, l: Word, d: Word, qd: int, h': Word, l': Word)
    requires h' * 0x1_0000_0000 + l'
          == (h * 0x1_0000 + HBits(l)) * 0x1_0000_0000 + LBits(l) * 0x1_0000 - qd * 0x1_0000
    requires h' * 0x1_0000 + HBits(l') < d
    ensures 0 <= h * 0x1_0000_0000 + l - qd < d
  {
    PassJoin(h, l);
  }

  /** A quotient of one word exists exactly for h < d. */
  lemma OneWordQuotient(h: Word, l: Word, d: Word)
    requires d > 0
    ensures (exists q: Word :: q * d <= h * 0x1_0000_0000 + l < (q + 1) * d) <==> h < d
  {
    var n := h * 0x1_0000_0000 + l;
    QuotientBounds(n, d);
    Distribute(n / d, 1, d);
    if h < d {
      if n / d >= 0x1_0000_0000 { MulMono(0x1_0000_0000, n / d, d); }
      if n / d < 0 { MulMono(n / d, -1, d); }
      var q: Word := n / d;
      assert q * d <= n < (q + 1) * d;
    } else if q: Word :| q * d <= n < (q + 1) * d {
      MulMono(q + 1, 0x1_0000_0000, d);
    }
  }

  /** The compiled-out assertion would reject every such call with a divisor below 2^31. */
  lemma AssertionRejects(h: Word, d: Word)
    requires 0 < d < 0x8000_0000 && h < d
    ensures !(NumBitsWord(d) == 32 || h > P2(NumBitsWord(d)))
  {
    hide NumBitsWord, P2;
    BitsBelow(d, NumBitsWord(d));
  }

  lemma BitsBelow(d: Word, n: nat)
    requires 0 < d < 0x8000_0000 && n <= 32 && HasBits(d, n)
    ensures n < 32 && d < P2(n)
  {
    P2Bytes();
  }

  /** bn_div_words: floor((h*2^32 + l) / d) for h < d; BN_MASK2 for d = 0. For d <= h < 2d, where the
      quotient has a second word, 1, the result is its low word. */
  method DivWords(h: Word, l: Word, d: Word) returns (ret: Word)
    requires d == 0 || h < 2 * d
    ensures d == 0 ==> ret == 0xFFFF_FFFF
    ensures 0 < d && h < d ==> ret * d <= h * 0x1_0000_0000 + l < (ret + 1) * d
    ensures 0 < d <= h ==> (0x1_0000_0000 + ret) * d <= h * 0x1_0000_0000 + l < (0x1_0000_0000 + ret + 1) * d
  {
    if d == 0 { return 0xFFFF_FFFF; }
    var n := NumBitsWord(d);
    NormaliseDivisor(d, n);
    var h0: Word := if h >= d then h - d else h;
    NormaliseDividend(h0, l, d, P2(32 - n), P2(n));
    var h', l', d' := ShiftWords(h0, l, d, n);
    ret := DivNormalised(h', l', d');
    Unscale(h0 * 0x1_0000_0000 + l, d, P2(32 - n), ret);
    Distribute(0x1_0000_0000, ret, d);
    Distribute(0x1_0000_0000, ret + 1, d);
  }

  /** The dividend and the divisor shifted left by 32 - n bits, and not at all for n = 32. */
  method ShiftWords(h: Word, l: Word, d: Word, n: nat) returns (h': Word, l': Word, d': Word)
    requires 0 < n <= 32
    requires h * P2(32 - n) + l / P2(n) < d * P2(32 - n) < 0x1_0000_0000
    ensures h' == h * P2(32 - n) + l / P2(n) && l' == Trunc(l * P2(32 - n)) && d' == d * P2(32 - n)
  {
    hide P2, Trunc;
    var p, c := P2(32 - n), P2(n);
    if n == 32 {
      Unshifted(h, l, d);
      return h, l, d;
    }
    ShiftFits(h, l, d, p, c);
    return h * p + l / c, Trunc(l * p), d * p;
  }

  lemma Unshifted(h: Word, l: Word, d: Word)
    ensures h * P2(0) + l / P2(32) == h && Trunc(l * P2(0)) == l && d * P2(0) == d
  {
    P2Bytes();
    QuotientUnique(l, 0x1_0000_0000, 0, l);
  }

  lemma ShiftFits(h: Word, l: Word, d: Word, p: int, c: int)
    requires p > 0 && c > 0
    ensures h * p + l / c >= 0 && d * p >= 0
  {
    MulPos(h, p); MulPos(d, p);
    QuotientBounds(l, c);
    if l / c < 0 { MulMono(l / c, -1, c); }
  }
}
