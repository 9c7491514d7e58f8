/** Powers, and the windows of exponent bits that bn_exp.c works through. */
module Windows {
  import opened Words
  import opened Bits
  import opened Bignums
  import opened Basics
  import opened Residues

  // ---------- powers

  ghost function Pow(a: int, e: nat): int {
    if e == 0 then 1 else a * Pow(a, e - 1)
  }

  lemma {:induction false} PowAdd(a: int, m: nat, n: nat)
    ensures Pow(a, m + n) == Pow(a, m) * Pow(a, n)
  {
    if m > 0 {
      PowAdd(a, m - 1, n);
      TimesAssociate(a, Pow(a, m - 1), Pow(a, n));
    }
  }

  lemma TimesAssociate(x: int, y: int, z: int)
    ensures (x * y) * z == x * (y * z)
  {}

  lemma {:induction false} PowCong(a: int, b: int, e: nat, n: int)
    requires n > 0 && Cong(a, b, n)
    ensures Cong(Pow(a, e), Pow(b, e), n)
  {
    hide Cong;
    if e > 0 {
      PowCong(a, b, e - 1, n);
      CongTimes(a, b, Pow(a, e - 1), Pow(b, e - 1), n);
    } else {
      CongBy(1, 1, n, 0);
    }
  }

  /** A positive power of a multiple of n is a multiple of n. */
  lemma PowOfZero(a: int, e: nat, n: int)
    requires n > 0 && e > 0 && a % n == 0
    ensures Pow(a, e) % n == 0
  {
    QuotientBounds(a, n);
    ZeroMultiple(a / n, n, Pow(a, e - 1));
    QuotientUnique(Pow(a, e), n, (a / n) * Pow(a, e - 1), 0);
  }

  lemma ZeroMultiple(q: int, n: int, p: int)
    ensures (q * n) * p == (q * p) * n
  {}

  lemma PowSmall(a: int)
    ensures Pow(a, 0) == 1 && Pow(a, 1) == a && Pow(a, 2) == a * a
  {
    assert Pow(a, 2) == a * Pow(a, 1);
  }

  // ---------- windows

  /** BN_window_bits_for_exponent_size */
  function WindowBits(b: nat): (w: nat)
    ensures 1 <= w <= 6
  {
    if b > 671 then 6 else if b > 239 then 5 else if b > 79 then 4 else if b > 23 then 3 else 1
  }

  /** The multiplications to expect with a window of w bits: the table, and one for every w + 1 bits. */
  function WindowCost(w: nat, b: nat): (c: real) {
    (match w case 2 => 2.0 case 3 => 4.0 case 4 => 8.0 case 5 => 16.0 case _ => 32.0)
    + (b as real - w as real) / (w as real + 1.0)
  }

  /** The window is the cheapest of those from 2 to 6 bits; short exponents do without a table. */
  lemma WindowCheapest(b: nat, w: nat)
    requires 2 <= w <= 6
    ensures b > 23 ==> WindowCost(WindowBits(b), b) <= WindowCost(w, b)
    ensures b <= 23 ==> WindowBits(b) == 1
  {}

  /** The bits of p above bit i: the exponent reached when bit i is next. */
  ghost function Prefix(p: int, i: int): int
    requires i >= -1
  {
    Shr(p, i + 1)
  }

  /** Bits wstart down to wstart - wend of p have the value v. */
  ghost predicate Scanned(p: int, wstart: nat, wend: nat, v: int) {
    wend <= wstart && Prefix(p, wstart - wend - 1) == Prefix(p, wstart) * P2(wend + 1) + v
  }

  lemma ScanStart(p: int, wstart: nat)
    requires BitOf(p, wstart)
    ensures Scanned(p, wstart, 0, 1)
  {
    ShrStep(p, wstart);
    assert P2(1) == 2;
  }

  /** Bits i - 1 to wend + 1 below wstart are zero. */
  ghost predicate ZeroRun(p: int, wstart: nat, wend: nat, i: nat)
    requires wend < i <= wstart + 1
  {
    Prefix(p, wstart - i) == Prefix(p, wstart - wend - 1) * P2(i - 1 - wend)
  }

  lemma ZeroRunNone(p: int, wstart: nat, wend: nat)
    requires wend <= wstart
    ensures ZeroRun(p, wstart, wend, wend + 1)
  {}

  lemma ZeroRunStep(p: int, wstart: nat, wend: nat, i: nat)
    requires wend < i <= wstart && ZeroRun(p, wstart, wend, i) && !BitOf(p, wstart - i)
    ensures ZeroRun(p, wstart, wend, i + 1)
  {
    ShrStep(p, wstart - i);
    DoublePower(Prefix(p, wstart - wend - 1), i - 1 - wend);
  }

  lemma DoublePower(x: int, k: nat)
    ensures 2 * (x * P2(k)) == x * P2(k + 1)
  {}

  /** The next set bit extends the window to i: wvalue <<= i - wend; wvalue |= 1. */
  lemma ScanStep(p: int, wstart: nat, wend: nat, v: int, i: nat)
    requires wend < i <= wstart && Scanned(p, wstart, wend, v) && ZeroRun(p, wstart, wend, i) && BitOf(p, wstart - i)
    ensures Scanned(p, wstart, i, v * P2(i - wend) + 1)
  {
    ShrStep(p, wstart - i);
    DoublePower(Prefix(p, wstart - wend - 1), i - 1 - wend);
    P2Add(wend + 1, i - wend);
    ExtendWindow(Prefix(p, wstart), P2(wend + 1), v, P2(i - wend));
  }

  lemma ExtendWindow(e: int, p: int, v: int, q: int)
    ensures (e * p + v) * q == e * (p * q) + v * q
  {
    assert (e * p) * q == e * (p * q);
  }

  /** The inner loop of the exponentiators: the window that starts at the set bit wstart. Its value
      is odd and below 2^window, so wvalue >> 1 indexes the table of odd powers. */
  method ScanWindow(p: Bignum, wstart: nat, window: nat) returns (wvalue: nat, wend: nat)
    requires p.Valid() && BitOf(p.Mag(), wstart) && 1 <= window
    ensures wend < window && Scanned(p.Mag(), wstart, wend, wvalue)
    ensures wvalue % 2 == 1 && wvalue < P2(window)
  {
    hide Bignum.Mag, BitOf, Shr, P2, Scanned, ZeroRun;
    ScanStart(p.Mag(), wstart);
    ScannedIs(p.Mag(), wstart, 0, 1);
    ZeroRunNone(p.Mag(), wstart, 0);
    assert P2(1) == 2 by { TwoIsPower(); }
    wvalue, wend := 1, 0;
    var i := 1;
    while i < window
      invariant 0 <= wend < i <= window && wend <= wstart && i <= wstart + 1
      invariant Scanned(p.Mag(), wstart, wend, wvalue) && ZeroRun(p.Mag(), wstart, wend, i)
      invariant wvalue % 2 == 1 && wvalue < P2(wend + 1)
    {
      if wstart < i { break; }
      var bit := IsBitSet(p, wstart - i);
      if bit {
        ScanStep(p.Mag(), wstart, wend, wvalue, i);
        WindowPower(wvalue, wend, i - wend);
        wvalue := wvalue * P2(i - wend) + 1;
        wend := i;
        ZeroRunNone(p.Mag(), wstart, wend);
      } else {
        ZeroRunStep(p.Mag(), wstart, wend, i);
      }
      i := i + 1;
    }
    P2Mono(wend + 1, window);
  }

  lemma TwoIsPower()
    ensures P2(1) == 2
  {}

  lemma ScannedIs(p: int, wstart: nat, wend: nat, v: int)
    requires Scanned(p, wstart, wend, v)
    ensures wend <= wstart
  {}

  lemma WindowPower(v: nat, wend: nat, k: nat)
    requires k > 0 && v < P2(wend + 1)
    ensures v * P2(k) >= 0 && (v * P2(k) + 1) % 2 == 1 && v * P2(k) + 1 < P2(wend + k + 1)
  {
    P2Add(wend + 1, k);
    WindowArith(v, P2(wend + 1), P2(k - 1));
  }

  lemma WindowArith(v: nat, p: int, h: int)
    requires v < p && h > 0
    ensures 0 <= v * (2 * h) && (v * (2 * h) + 1) % 2 == 1 && v * (2 * h) + 1 < p * (2 * h)
  {
    DoubleTimes(v, h); DoubleTimes(p, h);
    BelowProduct(v, p, h);
    EvenPlusOne(v * h, v * (2 * h));
  }

  lemma BelowProduct(v: nat, p: int, h: int)
    requires v < p && h > 0
    ensures 0 <= v * h < p * h
  {
    MulMono(0, v, h);
    MulMono(v + 1, p, h);
    Distribute(v, 1, h);
  }

  lemma EvenPlusOne(x: int, y: int)
    requires y == 2 * x
    ensures (y + 1) % 2 == 1
  {}

  /** The table holds 2^(window-1) odd powers, at most TABLE_SIZE = 32. */
  lemma TableIndex(wvalue: nat, window: nat)
    requires 1 <= window <= 6 && wvalue % 2 == 1 && wvalue < P2(window)
    ensures wvalue / 2 < P2(window - 1) <= 32 && 2 * (wvalue / 2) + 1 == wvalue
  {
    assert P2(window) == 2 * P2(window - 1);
    P2Mono(window - 1, 5);
    assert P2(5) == 32;
  }

  // ---------- accumulators

  /** x is a^e modulo n. */
  ghost predicate Power(x: int, a: int, e: int, n: int)
    requires n > 0
  {
    e >= 0 && Cong(x, Pow(a, e), n)
  }

  lemma PowerOne(a: int, n: int)
    requires n > 0
    ensures Power(1, a, 0, n)
  {}

  /** Multiplying accumulators adds the exponents. */
  lemma PowerTimes(x: int, y: int, a: int, e: int, w: int, n: int, z: int)
    requires n > 0 && Power(x, a, e, n) && Power(y, a, w, n) && z == Times(x, y) % n
    ensures Power(z, a, e + w, n) && 0 <= z < n
  {
    hide Cong;
    CongSelf(x * y, n);
    CongTimes(x, Pow(a, e), y, Pow(a, w), n);
    PowAdd(a, e, w);
    CongTrans(z, x * y, Pow(a, e + w), n);
  }

  /** The window's squarings and its multiplication reach the next prefix of the exponent. */
  lemma WindowDone(p: int, wstart: nat, wend: nat, v: int)
    requires Scanned(p, wstart, wend, v)
    ensures wend <= wstart && Prefix(p, wstart - wend - 1) == Prefix(p, wstart) * P2(wend + 1) + v
  {}

  /** A zero bit doubles the exponent. */
  lemma ZeroBit(p: int, wstart: nat)
    requires !BitOf(p, wstart)
    ensures Prefix(p, wstart - 1) == 2 * Prefix(p, wstart)
  {
    ShrStep(p, wstart);
  }

  /** Before the top bit the prefix is zero; after the last bit it is the exponent. */
  lemma PrefixEnds(p: int, bits: nat)
    requires HasBits(p, bits) && p >= 0
    ensures bits > 0 ==> Prefix(p, bits - 1) == 0 && BitOf(p, bits - 1)
    ensures Prefix(p, -1) == p
  {
    assert Shr(p, 0) == p;
    if bits > 0 {
      QuotientUnique(p, P2(bits), 0, p);
      QuotientUnique(p, P2(bits - 1), 1, p - P2(bits - 1));
    }
  }

  /** The table val: entry i is a^(2i+1). */
  ghost predicate OddPowers(vals: seq<Bignum>, a: int, n: int)
    requires n > 0
    reads vals
  {
    forall i | 0 <= i < |vals| :: NonNeg(vals[i]) && Power(vals[i].Mag(), a, 2 * i + 1, n)
  }

  lemma FirstEntry(v: Bignum, a: int, n: int)
    requires n > 0 && NonNeg(v) && Power(v.Mag(), a, 1, n)
    ensures OddPowers([v], a, n)
  {}

  lemma TableEntry(vals: seq<Bignum>, a: int, n: int, i: nat)
    requires n > 0 && OddPowers(vals, a, n) && i < |vals|
    ensures NonNeg(vals[i]) && Power(vals[i].Mag(), a, 2 * i + 1, n)
  {}

  lemma TableSnoc(vals: seq<Bignum>, v: Bignum, a: int, n: int)
    requires n > 0 && OddPowers(vals, a, n)
    requires NonNeg(v) && Power(v.Mag(), a, 2 * |vals| + 1, n)
    ensures OddPowers(vals + [v], a, n)
  {}

  lemma PowerSelf(x: int, n: int)
    requires n > 0
    ensures Power(x, x, 1, n)
  {
    PowSmall(x);
  }

  /** No squarings, and squarings of 1. */
  lemma SquaresNone(e: int, i: nat, j: nat)
    requires i == 0
    ensures e * P2(i) == e && (e == 0 ==> e * P2(j) == 0)
  {}

  /** A reduced accumulator for the whole exponent is the power, whatever representative v of a was used. */
  lemma PowerFound(r: int, v: int, a: int, e: nat, n: int)
    requires n > 0 && 0 <= r < n && Power(r, v, e, n) && Cong(v, a, n)
    ensures r == Pow(a, e) % n
  {
    hide Cong;
    PowCong(v, a, e, n);
    CongTrans(r, Pow(v, e), Pow(a, e), n);
    CongIs(r, Pow(a, e), n);
  }

  /** The representative that BN_nnmod leaves of a: the residue, or n for -0. */
  lemma Representative(a: int, n: int, v: int, e: nat)
    requires n > 0 && (v == a % n || (a == 0 && v == n))
    ensures Cong(v, a, n)
    ensures v == 0 && e > 0 ==> Pow(a, e) % n == 0
  {
    CongSelf(a, n);
    if v == n { CongBy(n, 0, n, 1); }
    if v == 0 && e > 0 { PowOfZero(a, e, n); }
  }
}
