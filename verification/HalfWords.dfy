/** The half-word multiplication macros of bn_lcl.h and bn_asm.c. */
module HalfWords {
  import opened Words

  lemma HalfProduct(x: Half, y: Half)
    ensures 0 <= x * y <= 0xFFFE_0001
  {
    MulMono(x, 0xFFFF, y);
    MulMono(0, x, y);
  }

  lemma WordProduct(x: Word, y: Word)
    ensures 0 <= x * y <= 0xFFFF_FFFE_0000_0001
  {
    MulMono(x, 0xFFFF_FFFF, y);
    MulMono(0, x, y);
  }

  /** (l + 2^16 h)(bl + 2^16 bh) expanded into half-word products. */
  lemma SplitProduct(l: int, h: int, bl: int, bh: int)
    ensures (l + 0x1_0000 * h) * (bl + 0x1_0000 * bh)
         == bl * l + 0x1_0000 * (bh * l + bl * h) + 0x1_0000_0000 * (bh * h)
  {}

  /** The carries of mul64, for any four partial products. */
  lemma Mul64Carries(ll: Word, m0: Word, m1: Word, hh: int, m: Word, lo: Word, hi: int)
    requires m == Trunc(m0 + m1) && lo == Trunc(ll + Trunc(m * 0x1_0000))
    requires hi == hh + (if m < m1 then 0x1_0000 else 0) + HBits(m)
                      + (if lo < Trunc(m * 0x1_0000) then 1 else 0)
    ensures lo + 0x1_0000_0000 * hi == ll + 0x1_0000 * (m0 + m1) + 0x1_0000_0000 * hh
  {}

  /** mul64: the 64-bit product of two words given by their halves. */
  method Mul64(l: Half, h: Half, bl: Half, bh: Half) returns (lo: Word, hi: Word)
    ensures lo + 0x1_0000_0000 * hi == (l + 0x1_0000 * h) * (bl + 0x1_0000 * bh)
  {
    HalfProduct(bh, l); HalfProduct(bl, l); HalfProduct(bl, h); HalfProduct(bh, h);
    var m: Word, lt: Word, m1: Word, ht: int := bh * l, bl * l, bl * h, bh * h;
    ghost var m0, ll, mm, hh := m, lt, m1, ht;
    m := Trunc(m + m1);
    if m < m1 { ht := ht + 0x1_0000; }
    ht := ht + HBits(m);
    m1 := Trunc(m * 0x1_0000);
    lt := Trunc(lt + m1);
    if lt < m1 { ht := ht + 1; }
    Mul64Carries(ll, m0, mm, hh, m, lt, ht);
    SplitProduct(l, h, bl, bh);
    WordProduct(l + 0x1_0000 * h, bl + 0x1_0000 * bh);
    return lt, ht;
  }

  method Mul(a: Word, w: Word, c: Word) returns (r: Word, c': Word)
    ensures r + 0x1_0000_0000 * c' == a * w + c
  {
    var l, h := Mul64(LBits(a), HBits(a), LBits(w), HBits(w));
    assert l + 0x1_0000_0000 * h == a * w;
    WordProduct(a, w);
    var ht: int := h;
    l := Trunc(l + c);
    if l < c { ht := ht + 1; }
    return l, ht;
  }

  method MulAdd(r: Word, a: Word, w: Word, c: Word) returns (r': Word, c': Word)
    ensures r' + 0x1_0000_0000 * c' == a * w + c + r
  {
    hide Trunc;
    var l, h := Mul64(LBits(a), HBits(a), LBits(w), HBits(w));
    assert l + 0x1_0000_0000 * h == a * w;
    WordProduct(a, w);
    var ht: int := h;
    CarryOut(l, c, Trunc(l + c));
    l := Trunc(l + c);
    if l < c { ht := ht + 1; }
    CarryOut(l, r, Trunc(l + r));
    l := Trunc(l + r);
    if l < r { ht := ht + 1; }
    return l, ht;
  }

  lemma Sqr64Carries(x: Word, l: Half, h: Half, ll: Word, lh: Word, hh: Word, lo: Word, hi: int)
    requires x == l + 0x1_0000 * h && ll == l * l && lh == l * h && hh == h * h
    requires lo == Trunc(ll + Trunc(LBits(lh) * 0x2_0000))
    requires hi == hh + lh / 0x8000 + (if lo < Trunc(LBits(lh) * 0x2_0000) then 1 else 0)
    ensures lo + 0x1_0000_0000 * hi == x * x
  {
    SplitProduct(l, h, l, h);
    ShiftedMiddle(ll, lh, lo, hi - hh);
  }

  /** (m & BN_MASK2l) << 17 drops bit 15 of m. */
  lemma LowBits(m: Word)
    ensures Trunc(LBits(m) * 0x2_0000) == (m % 0x8000) * 0x2_0000
    ensures m == (m / 0x8000) * 0x8000 + m % 0x8000
  {
    var lb: int := LBits(m);
    var q, r: int := lb / 0x8000, lb % 0x8000;
    QuotientBounds(m, 0x1_0000); QuotientBounds(lb, 0x8000); QuotientBounds(m, 0x8000);
    QuotientUnique(m, 0x8000, 2 * (m / 0x1_0000) + q, r);
    QuotientUnique(lb * 0x2_0000, 0x1_0000_0000, q, r * 0x2_0000);
  }

  lemma CarryOut(x: Word, y: Word, z: Word)
    requires z == Trunc(x + y)
    ensures z + (if z < y then 0x1_0000_0000 else 0) == x + y
  {}

  lemma ShiftedMiddle(ll: Word, lh: Word, lo: Word, hi: int)
    requires lo == Trunc(ll + Trunc(LBits(lh) * 0x2_0000))
    requires hi == lh / 0x8000 + (if lo < Trunc(LBits(lh) * 0x2_0000) then 1 else 0)
    ensures lo + 0x1_0000_0000 * hi == ll + 0x2_0000 * lh
  {
    LowBits(lh);
    var m := (lh % 0x8000) * 0x2_0000;
    CarryOut(ll, m, lo);
  }

  /** sqr64: the square of a word. */
  method Sqr64(x: Word) returns (lo: Word, hi: Word)
    ensures lo + 0x1_0000_0000 * hi == x * x
  {
    var l: Half, h: Half := LBits(x), HBits(x);
    HalfProduct(l, h); HalfProduct(l, l); HalfProduct(h, h);
    var m: Word, l2: Word, ht: int := l * h, l * l, h * h;
    ghost var lh, ll, hh := m, l2, ht;
    ht := ht + m / 0x8000;
    m := Trunc(LBits(m) * 0x2_0000);
    l2 := Trunc(l2 + m);
    if l2 < m { ht := ht + 1; }
    Sqr64Carries(x, l, h, ll, lh, hh, l2, ht);
    WordProduct(x, x);
    return l2, ht;
  }

  /** The value of the three-word accumulator of the comba routines. */
  ghost function Acc(c0: Word, c1: Word, c2: Word): int {
    c0 + 0x1_0000_0000 * c1 + 0x1_0000_0000_0000_0000 * c2
  }

  /** Adding a two-word product into the accumulator. */
  method Accumulate(t1: Word, t2: Word, c0: Word, c1: Word, c2: Word)
    returns (c0': Word, c1': Word, c2': Word)
    requires t2 < 0xFFFF_FFFF
    requires Acc(c0, c1, c2) + t1 + 0x1_0000_0000 * t2 < 0x1_0000_0000_0000_0000_0000_0000
    ensures Acc(c0', c1', c2') == Acc(c0, c1, c2) + t1 + 0x1_0000_0000 * t2
  {
    var t: Word := t2;
    c0' := Trunc(c0 + t1);
    if c0' < t1 { t := t + 1; }
    c1' := Trunc(c1 + t);
    var top: int := c2;
    if c1' < t { top := top + 1; }
    c2' := top;
  }

  /** mul_add_c: c += a * b */
  method MulAddC(a: Word, b: Word, c0: Word, c1: Word, c2: Word)
    returns (c0': Word, c1': Word, c2': Word)
    requires Acc(c0, c1, c2) + a * b < 0x1_0000_0000_0000_0000_0000_0000
    ensures Acc(c0', c1', c2') == Acc(c0, c1, c2) + a * b
  {
    hide Acc;
    var t1: Word, t2: Word := Mul64(LBits(a), HBits(a), LBits(b), HBits(b));
    assert t1 + 0x1_0000_0000 * t2 == a * b;
    WordProduct(a, b);
    c0', c1', c2' := Accumulate(t1, t2, c0, c1, c2);
  }

  /** sqr_add_c: c += a * a */
  method SqrAddC(a: Word, c0: Word, c1: Word, c2: Word)
    returns (c0': Word, c1': Word, c2': Word)
    requires Acc(c0, c1, c2) + a * a < 0x1_0000_0000_0000_0000_0000_0000
    ensures Acc(c0', c1', c2') == Acc(c0, c1, c2) + a * a
  {
    hide Acc;
    var t1: Word, t2: Word := Sqr64(a);
    WordProduct(a, a);
    c0', c1', c2' := Accumulate(t1, t2, c0, c1, c2);
  }

  /** mul_add_c2 and sqr_add_c2: c += 2 * a * b, the doubling done on the two product words. */
  method MulAddC2(a: Word, b: Word, c0: Word, c1: Word, c2: Word)
    returns (c0': Word, c1': Word, c2': Word)
    requires Acc(c0, c1, c2) + 2 * (a * b) < 0x1_0000_0000_0000_0000_0000_0000
    ensures Acc(c0', c1', c2') == Acc(c0, c1, c2) + 2 * (a * b)
  {
    hide Acc;
    var t1: Word, t2: Word := Mul64(LBits(a), HBits(a), LBits(b), HBits(b));
    assert t1 + 0x1_0000_0000 * t2 == a * b;
    WordProduct(a, b);
    c0', c1', c2' := AccumulateTwice(t1, t2, c0, c1, c2);
  }

  method AccumulateTwice(t1: Word, t2: Word, c0: Word, c1: Word, c2: Word)
    returns (c0': Word, c1': Word, c2': Word)
    requires t2 < 0xFFFF_FFFF
    requires Acc(c0, c1, c2) + 2 * (t1 + 0x1_0000_0000 * t2) < 0x1_0000_0000_0000_0000_0000_0000
    ensures Acc(c0', c1', c2') == Acc(c0, c1, c2) + 2 * (t1 + 0x1_0000_0000 * t2)
  {
    var u1: Word, u2: Word, u3: Word := DoublePair(t1, t2);
    c0', c1', c2' := AccumulatePair(u1, u2, u3, c0, c1, c2);
  }

  method DoublePair(t1: Word, t2: Word) returns (u1: Word, u2: Word, u3: Word)
    ensures Acc(u1, u2, u3) == 2 * (t1 + 0x1_0000_0000 * t2) && u3 <= 1
  {
    u3 := if t2 >= 0x8000_0000 then 1 else 0;
    u2 := Trunc(t2 + t2);
    if t1 >= 0x8000_0000 { u2 := u2 + 1; }
    u1 := Trunc(t1 + t1);
  }

  method AccumulatePair(u1: Word, u2: Word, u3: Word, c0: Word, c1: Word, c2: Word)
    returns (c0': Word, c1': Word, c2': Word)
    requires Acc(c0, c1, c2) + Acc(u1, u2, u3) < 0x1_0000_0000_0000_0000_0000_0000
    ensures Acc(c0', c1', c2') == Acc(c0, c1, c2) + Acc(u1, u2, u3)
  {
    hide Trunc;
    var u: Word, top: int := u2, c2 + u3;
    CarryOut(c0, u1, Trunc(c0 + u1));
    c0' := Trunc(c0 + u1);
    if c0' < u1 {
      CarryOut(u, 1, Trunc(u + 1));
      u := Trunc(u + 1);
      if u == 0 { top := top + 1; }
    }
    assert c0' + 0x1_0000_0000 * u + 0x1_0000_0000_0000_0000 * top
        == c0 + u1 + 0x1_0000_0000 * u2 + 0x1_0000_0000_0000_0000 * (c2 + u3);
    CarryOut(c1, u, Trunc(c1 + u));
    c1' := Trunc(c1 + u);
    if c1' < u { top := top + 1; }
    c2' := top;
  }
}
