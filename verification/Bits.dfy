/** Powers of two, bit lengths and single bits of natural numbers. */
module Bits {
  import opened Words

  /** 2^n, written 1 << n in the source */
  function P2(n: nat): (p: int)
    ensures p > 0
  {
    if n == 0 then 1 else 2 * P2(n - 1)
  }

  lemma DoubledProduct(x: int, y: int)
    ensures (2 * x) * y == 2 * (x * y)
  {}

  lemma {:induction false} P2Add(m: nat, n: nat)
    ensures P2(m + n) == P2(m) * P2(n)
  {
    if m > 0 {
      P2Add(m - 1, n);
      DoubledProduct(P2(m - 1), P2(n));
      assert P2(m + n) == 2 * P2(m - 1 + n);
    }
  }

  lemma P2Bytes()
    ensures P2(8) == 0x100 && P2(16) == 0x1_0000 && P2(24) == 0x100_0000
    ensures P2(31) == 0x8000_0000 && P2(32) == 0x1_0000_0000
  {
    assert P2(4) == 16;
    P2Add(4, 4); P2Add(8, 8); P2Add(16, 8); P2Add(16, 16);
  }

  lemma {:induction false} P2Mono(m: nat, n: nat)
    requires m <= n
    ensures P2(m) <= P2(n)
  {
    if m < n { P2Mono(m, n - 1); }
  }

  lemma {:induction false} BPIsP2(n: nat)
    ensures BP(n) == P2(32 * n)
  {
    if n > 0 {
      BPIsP2(n - 1);
      P2Bytes();
      P2Add(32, 32 * (n - 1));
    }
  }

  /** x has exactly n bits. */
  ghost predicate HasBits(x: int, n: nat) {
    if n == 0 then x == 0 else P2(n - 1) <= x < P2(n)
  }

  lemma BitsUnique(x: int, m: nat, n: nat)
    requires HasBits(x, m) && HasBits(x, n)
    ensures m == n
  {
    if m < n { P2Mono(m, n - 1); }
    if n < m { P2Mono(n, m - 1); }
  }

  /** The table of BN_num_bits_word: the bit length of a byte. */
  function ByteBits(x: int): (n: nat)
    requires 0 <= x < 0x100
    ensures n <= 8 && HasBits(x, n)
  {
    if x == 0 then 0
    else if x < 2 then 1
    else if x < 4 then 2
    else if x < 8 then 3
    else if x < 16 then 4
    else if x < 32 then (assert P2(4) == 16; 5)
    else if x < 64 then (assert P2(4) == 16; assert P2(5) == 32; 6)
    else if x < 128 then (assert P2(4) == 16; assert P2(5) == 32; assert P2(6) == 64; 7)
    else (assert P2(4) == 16; assert P2(5) == 32; assert P2(6) == 64; assert P2(7) == 128; P2Bytes(); 8)
  }

  lemma HighByteBits(l: int, p: int, k: nat, n: nat)
    requires p == P2(k) && 0 <= l && HasBits(l / p, n) && n > 0
    ensures HasBits(l, n + k)
  {
    P2Add(n - 1, k); P2Add(n, k);
    MulMono(P2(n - 1), l / p, p);
    MulMono(l / p + 1, P2(n), p);
    FloorBounds(l, p);
  }

  lemma FloorBounds(x: int, p: int)
    requires p > 0
    ensures (x / p) * p <= x < (x / p + 1) * p
  {}

  /** BN_num_bits_word */
  function NumBitsWord(l: Word): (n: nat)
    ensures n <= 32 && HasBits(l, n)
  {
    P2Bytes();
    if l >= 0x1_0000 then
      if l >= 0x100_0000 then
        HighByteBits(l, 0x100_0000, 24, ByteBits(l / 0x100_0000));
        ByteBits(l / 0x100_0000) + 24
      else
        HighByteBits(l, 0x1_0000, 16, ByteBits(l / 0x1_0000));
        ByteBits(l / 0x1_0000) + 16
    else if l >= 0x100 then
      HighByteBits(l, 0x100, 8, ByteBits(l / 0x100));
      ByteBits(l / 0x100) + 8
    else
      ByteBits(l)
  }

  /** Splitting l at bit 32 - i, where p = 2^i and c = 2^(32-i). */
  lemma SplitAtBit(l: Word, p: int, c: int)
    requires p > 0 && c > 0 && p * c == 0x1_0000_0000
    ensures 0 <= l / c < p
    ensures (l / c) * 0x1_0000_0000 + Trunc(l * p) == l * p
  {
    FloorBounds(l, c);
    if l / c >= p { MulMono(p, l / c, c); }
    if l / c <= -1 { MulMono(l / c + 1, 0, c); }
    SplitProductAtBit(l, p, c, l / c, l % c);
    TruncIs(l * p, l / c, (l % c) * p);
  }

  lemma SplitProductAtBit(l: int, p: int, c: int, q: int, r: int)
    requires p > 0 && p * c == 0x1_0000_0000 && l == q * c + r && 0 <= r < c
    ensures l * p == q * 0x1_0000_0000 + r * p && 0 <= r * p < 0x1_0000_0000
  {
    assert l * p == q * (p * c) + r * p;
    MulMono(r, c - 1, p);
    MulMono(0, r, p);
  }

  lemma TruncIs(x: int, q: int, r: int)
    requires x == q * 0x1_0000_0000 + r && 0 <= r < 0x1_0000_0000
    ensures Trunc(x) == r
  {}
}
