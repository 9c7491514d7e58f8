/** bn_mod.c: residues and arithmetic on them. */
module Modular {
  import opened Words
  import opened Bits
  import opened Bignums
  import opened Basics
  import opened AddSub
  import opened Products
  import opened Shift
  import opened Division

  function Abs(x: int): (r: nat)
    ensures r == x || r == -x
  {
    if x < 0 then -x else x
  }

  /** From the truncated remainder r of m to the non-negative one. */
  lemma NonNegative(m: int, d: int, r: int)
    requires d > 0 && Abs(m) % d == Abs(r) && (r > 0 ==> m > 0) && (r < 0 ==> m < 0)
    ensures r < 0 ==> r + d == m % d
    ensures r >= 0 ==> r == m % d
    ensures Abs(r) < d
  {
    QuotientBounds(Abs(m), d);
    var q := Abs(m) / d;
    if m >= 0 {
      QuotientUnique(m, d, q, r);
    } else if r < 0 {
      NegatedProduct(q, d);
      QuotientUnique(m, d, -q - 1, r + d);
    } else {
      NegatedProduct(q, d);
      QuotientUnique(m, d, -q, 0);
    }
  }

  lemma NegatedProduct(q: int, d: int)
    ensures (-q - 1) * d == -(q * d) - d && (-q) * d == -(q * d)
  {}

  lemma ModAbs(m: int, d: int)
    requires d != 0
    ensures m % d == m % Abs(d)
  {
    if d < 0 {
      QuotientBounds(m, Abs(d));
      var q := m / Abs(d);
      EuclidNegative(m, d, q);
    }
  }

  lemma EuclidNegative(m: int, d: int, q: int)
    requires d < 0 && 0 <= m - q * (-d) < -d
    ensures m % d == m - q * (-d)
  {
    var q', r' := m / d, m % d;
    assert m == q' * d + r' && 0 <= r' < -d;
    assert (q' + q) * (-d) == r' - (m - q * (-d));
    if q' + q >= 1 { MulMono(1, q' + q, -d); }
    if q' + q <= -1 { MulMono(q' + q, -1, -d); }
  }

  /** BN_nnmod: the residue 0 <= r < |d|, for any dividend but -0, which gives |d|. */
  method NNMod(r: Bignum, m: Bignum, d: Bignum) returns (ok: bool)
    requires r.Wf() && m.Valid() && d.Valid() && r != d
    modifies r
    ensures ok <==> d.Mag() != 0
    ensures ok ==> r.Valid() && !r.neg
    ensures ok ==> r.Value() == if old(m.ProperSign()) then old(m.Value()) % d.Value() else d.Mag()
    ensures ok ==> (r.Mag() < d.Mag() <==> old(m.ProperSign()))
  {
    hide Val, Bignum.Mag;
    ghost var v := m.Value();
    ZeroMag(m);
    ok := Mod(r, m, d);
    if !ok { return; }
    ZeroMag(r);
    assert Abs(v) == old(m.Mag()) && Abs(r.Value()) == r.Mag() && Abs(d.Value()) == d.Mag();
    ModAbs(v, d.Value());
    NonNegative(v, d.Mag(), r.Value());
    if r.neg { AddModulus(r, d); }
  }

  /** r + |d| for a negative r above -|d|. */
  method AddModulus(r: Bignum, d: Bignum)
    requires r.Valid() && d.Valid() && r != d && r.neg && r.Mag() < d.Mag()
    modifies r
    ensures r.Valid() && !r.neg && r.Value() == old(r.Value()) + d.Mag()
  {
    hide Val, Bignum.Mag;
    if d.neg { Sub(r, r, d); } else { Add(r, r, d); }
  }

  // ---------- sums and differences of residues

  lemma OneSubtraction(x: int, m: int)
    requires 0 <= x < 2 * m
    ensures x % m == if x >= m then x - m else x
  {
    QuotientUnique(x, m, if x >= m then 1 else 0, if x >= m then x - m else x);
  }

  lemma OneAddition(x: int, m: int)
    requires -m <= x < m
    ensures x % m == if x < 0 then x + m else x
  {
    QuotientUnique(x, m, if x < 0 then -1 else 0, if x < 0 then x + m else x);
  }

  /** BN_mod_add */
  method ModAdd(r: Bignum, a: Bignum, b: Bignum, m: Bignum) returns (ok: bool)
    requires r.Wf() && a.Valid() && b.Valid() && m.Valid() && r != m
    modifies r
    ensures ok <==> m.Mag() != 0
    ensures ok ==> r.Valid() && !r.neg
    ensures ok ==> r.Value() == if old(a.ProperSign()) || old(b.ProperSign())
                                then (old(a.Value()) + old(b.Value())) % m.Value() else m.Mag()
  {
    hide Val, Bignum.Mag;
    Add(r, a, b);
    ok := NNMod(r, r, m);
  }

  /** BN_mod_sub */
  method ModSub(r: Bignum, a: Bignum, b: Bignum, m: Bignum) returns (ok: bool)
    requires r.Wf() && a.Valid() && b.Valid() && m.Valid() && r != m
    modifies r
    ensures ok <==> m.Mag() != 0
    ensures ok ==> r.Valid() && !r.neg
    ensures ok ==> r.Value() == if old(a.ProperSign()) || old(b.top) > 0 || old(b.neg)
                                then (old(a.Value()) - old(b.Value())) % m.Value() else m.Mag()
  {
    hide Val, Bignum.Mag;
    Sub(r, a, b);
    ok := NNMod(r, r, m);
  }

  /** x is a residue modulo m, both positively signed. */
  ghost predicate Reduced(x: Bignum, m: Bignum)
    reads x, m
  {
    x.Valid() && m.Valid() && !x.neg && !m.neg && x.Mag() < m.Mag()
  }

  /** BN_mod_add_quick: one subtraction is enough for residues. */
  method ModAddQuick(r: Bignum, a: Bignum, b: Bignum, m: Bignum) returns (ok: bool)
    requires r.Wf() && Reduced(a, m) && Reduced(b, m) && r != m
    modifies r
    ensures ok && Reduced(r, m) && r.Value() == (old(a.Value()) + old(b.Value())) % m.Value()
  {
    hide Val, Bignum.Mag;
    OneSubtraction(a.Value() + b.Value(), m.Value());
    Add(r, a, b);
    ZeroMag(r);
    ok := true;
    var c := Ucmp(r, m);
    if c >= 0 {
      TopsOrdered(m, r);
      ok := Usub(r, r, m);
    }
  }

  /** BN_mod_sub_quick */
  method ModSubQuick(r: Bignum, a: Bignum, b: Bignum, m: Bignum) returns (ok: bool)
    requires r.Wf() && Reduced(a, m) && Reduced(b, m) && r != m
    modifies r
    ensures ok && Reduced(r, m) && r.Value() == (old(a.Value()) - old(b.Value())) % m.Value()
  {
    hide Val, Bignum.Mag;
    OneAddition(a.Value() - b.Value(), m.Value());
    Sub(r, a, b);
    ZeroMag(r);
    ok := true;
    if r.neg { Add(r, r, m); }
  }

  // ---------- products of residues

  /** BN_mod_mul; t is the temporary from the BN_CTX. When a and b are the same zero, BN_sqr leaves
      t with the sign of its last use, and a stale minus sign turns the result into |m|. */
  method ModMul(r: Bignum, a: Bignum, b: Bignum, m: Bignum, t: Bignum) returns (ok: bool)
    requires r.Wf() && a.Valid() && b.Valid() && m.Valid() && t.Wf()
    requires r != m && t != r && t != a && t != b && t != m
    modifies r, t
    ensures ok <==> m.Mag() != 0
    ensures ok ==> r.Valid() && !r.neg
    ensures ok && a == b && old(a.Mag()) == 0 && old(t.neg) ==> r.Value() == m.Mag()
    ensures ok && !(a == b && old(a.Mag()) == 0 && old(t.neg)) ==>
      r.Value() == (old(a.Value()) * old(b.Value())) % m.Value()
    ensures t.Wf()
    ensures t.neg && old(a.Value()) >= 0 && old(b.Value()) >= 0 ==> (a == b && old(a.Mag()) == 0 && old(t.neg))
  {
    hide Val, Bignum.Mag, Times;
    ZeroMag(a);
    SignOfTimes(a.Mag(), b.Mag(), a.neg, b.neg);
    if a == b { Sqr(t, a); } else { Mul(t, a, b); }
    ZeroMag(t);
    ok := NNMod(r, t, m);
  }

  /** BN_mod_sqr */
  method ModSqr(r: Bignum, a: Bignum, m: Bignum) returns (ok: bool)
    requires r.Wf() && a.Valid() && m.Valid() && r != m
    modifies r
    ensures ok <==> m.Mag() != 0
    ensures ok ==> r.Valid() && r.Value() == (old(a.Value()) * old(a.Value())) % m.Value()
    ensures ok ==> r.neg == (old(a.top) == 0 && old(r.neg))
  {
    hide Val, Bignum.Mag, Times;
    ZeroMag(a);
    SignOfTimes(a.Mag(), a.Mag(), a.neg, a.neg);
    ghost var v := a.Value() * a.Value();
    Sqr(r, a);
    ZeroMag(r);
    if m.Mag() != 0 { ModAbs(v, m.Value()); }
    ok := Mod(r, r, m);
    if ok { ZeroMag(r); }
  }

  // ---------- shifts of residues

  /** BN_mod_lshift1 */
  method ModLshift1(r: Bignum, a: Bignum, m: Bignum) returns (ok: bool)
    requires r.Wf() && a.Valid() && m.Valid() && r != m
    modifies r
    ensures ok <==> m.Mag() != 0
    ensures ok ==> r.Valid() && !r.neg
    ensures ok ==> r.Value() == if old(a.ProperSign()) then (2 * old(a.Value())) % m.Value() else m.Mag()
  {
    hide Val, Bignum.Mag;
    Lshift1(r, a);
    ok := NNMod(r, r, m);
  }

  /** BN_mod_lshift1_quick */
  method ModLshift1Quick(r: Bignum, a: Bignum, m: Bignum)
    requires r.Wf() && Reduced(a, m) && r != m
    modifies r
    ensures Reduced(r, m) && r.Value() == (2 * old(a.Value())) % m.Value()
  {
    hide Val, Bignum.Mag;
    OneSubtraction(2 * a.Value(), m.Value());
    Lshift1(r, a);
    SubtractOnce(r, m);
  }

  /** if (BN_cmp(r, m) >= 0) BN_sub(r, r, m) */
  method SubtractOnce(r: Bignum, m: Bignum)
    requires r.Valid() && m.Valid() && r != m && !r.neg && !m.neg && r.Mag() <= 2 * m.Mag()
    modifies r
    ensures r.Valid() && !r.neg && r.Mag() == old(r.Mag()) - (if old(r.Mag()) >= m.Mag() then m.Mag() else 0)
  {
    hide Val, Bignum.Mag;
    var c := Cmp(r, m);
    if c >= 0 { Sub(r, r, m); }
    ZeroMag(r);
  }

  /** A shift and one subtraction, or none, multiply a residue by the power of two. */
  lemma ShiftStep(a: int, p: int, m: int, r: int, q: int, r': int)
    requires m > 0 && r == (a * p) % m && 0 <= r' < m && (r' == r * q || r' == r * q - m)
    ensures r' == (a * (p * q)) % m
  {
    QuotientBounds(a * p, m);
    var k := (a * p) / m;
    ScaledQuotient(a, p, q, k, m, r);
    var c := if r' == r * q then 0 else 1;
    Distribute(k * q, c, m);
    QuotientUnique(a * (p * q), m, k * q + c, r');
  }

  lemma ScaledQuotient(a: int, p: int, q: int, k: int, m: int, r: int)
    requires a * p == k * m + r
    ensures a * (p * q) == (k * q) * m + r * q
  {
    assert a * (p * q) == (a * p) * q;
    assert (k * m) * q == (k * q) * m;
  }

  /** Shifting by the difference of the bit lengths, or less, stays below 2m. */
  lemma ShiftBelow(r: int, br: nat, m: int, bm: nat, k: nat)
    requires HasBits(r, br) && HasBits(m, bm) && 0 <= r < m && k + br <= bm
    ensures r * P2(k) < 2 * m
  {
    if br == 0 { return; }
    P2Add(br, k);
    P2Mono(br + k, bm);
    MulMono(r + 1, P2(br), P2(k));
    Distribute(r, 1, P2(k));
  }

  /** A smaller number does not have more bits. */
  lemma FewerBits(r: int, br: nat, m: int, bm: nat)
    requires HasBits(r, br) && HasBits(m, bm) && 0 <= r < m
    ensures br <= bm
  {
    if br > bm { P2Mono(bm, br - 1); }
  }

  /** BN_mod_lshift_quick: shifts of varying size, each followed by at most one subtraction.
      An operand equal to m, which BN_nnmod makes of -0, stays equal to m. */
  method ModLshiftQuick(r: Bignum, a: Bignum, n: nat, m: Bignum) returns (ok: bool)
    requires r.Wf() && a.Valid() && m.Valid() && r != m && !a.neg && !m.neg && a.Mag() <= m.Mag() && m.Mag() > 0
    modifies r
    ensures ok && r.Valid() && !r.neg
    ensures old(a.Mag()) < m.Mag() ==> Reduced(r, m) && r.Value() == (old(a.Value()) * P2(n)) % m.Value()
    ensures old(a.Mag()) == m.Mag() ==> r.Mag() == m.Mag()
  {
    hide Val, P2, Bignum.Mag, HasBits;
    ghost var x := a.Mag();
    if r != a { Copy(r, a); }
    var k := n;
    if x < m.Mag() { StartShift(x, m.Mag()); }
    while k > 0
      invariant 0 <= k <= n && r.Valid() && !r.neg
      invariant if x < m.Mag() then r.Mag() < m.Mag() && r.Mag() == (x * P2(n - k)) % m.Mag() else r.Mag() == m.Mag()
    {
      ghost var r0, k0 := r.Mag(), k;
      k := ShiftPass(r, k, m);
      if x < m.Mag() {
        P2Add(n - k0, k0 - k);
        ShiftStep(x, P2(n - k0), m.Mag(), r0, P2(k0 - k), r.Mag());
      }
    }
    return true;
  }

  lemma StartShift(x: int, m: int)
    requires 0 <= x < m
    ensures (x * P2(0)) % m == x
  {
    QuotientUnique(x, m, 0, x);
  }

  /** One pass of the loop: shifts by up to k bits and says how many are left. */
  method ShiftPass(r: Bignum, k: nat, m: Bignum) returns (k': nat)
    requires r.Valid() && m.Valid() && r != m && !r.neg && !m.neg && r.Mag() <= m.Mag() && m.Mag() > 0 && k > 0
    modifies r
    ensures k' < k && r.Valid() && !r.neg
    ensures old(r.Mag()) < m.Mag() ==> r.Mag() < m.Mag()
    ensures old(r.Mag()) < m.Mag() ==>
      var p := P2(k - k'); r.Mag() == old(r.Mag()) * p || r.Mag() == old(r.Mag()) * p - m.Mag()
    ensures old(r.Mag()) == m.Mag() ==> r.Mag() == m.Mag()
  {
    hide Val, P2, Bignum.Mag, HasBits;
    var bm := NumBits(m);
    var br := NumBits(r);
    if r.Mag() < m.Mag() { FewerBits(r.Mag(), br, m.Mag(), bm); } else { BitsUnique(m.Mag(), bm, br); }
    var shift := bm - br;   // never negative
    if shift > k { shift := k; }
    if r.Mag() < m.Mag() { ShiftBelow(r.Mag(), br, m.Mag(), bm, shift); }
    k' := ShiftSome(r, k, shift);
    SubtractOnce(r, m);
  }

  /** The shift of a pass, by one bit where the lengths do not allow more. */
  method ShiftSome(r: Bignum, k: nat, shift: nat) returns (k': nat)
    requires r.Valid() && 0 < k && shift <= k
    modifies r
    ensures r.Valid() && r.neg == old(r.neg) && k' < k && k - k' == (if shift > 0 then shift else 1)
    ensures r.Mag() == old(r.Mag()) * P2(k - k') && (shift == 0 ==> r.Mag() == 2 * old(r.Mag()))
  {
    hide Val, P2, Bignum.Mag;
    if shift > 0 {
      Lshift(r, r, shift);
      k' := k - shift;
    } else {
      OneBit();
      Lshift1(r, r);
      k' := k - 1;
    }
  }

  lemma OneBit()
    ensures P2(1) == 2
  {}

  /** BN_mod_lshift */
  method ModLshift(r: Bignum, a: Bignum, n: nat, m: Bignum) returns (ok: bool)
    requires r.Wf() && a.Valid() && m.Valid() && r != m
    modifies r
    ensures ok <==> m.Mag() != 0
    ensures ok ==> r.Valid() && !r.neg
    ensures ok ==> r.Value() == if old(a.ProperSign()) then (old(a.Value()) * P2(n)) % m.Value() else m.Mag()
  {
    hide Val, P2, Bignum.Mag;
    ghost var v := a.Value();
    ok := NNMod(r, a, m);
    if !ok { return; }
    var absM := m;
    if m.neg {
      absM := new Bignum();
      Copy(absM, m);
      absM.neg := false;
    }
    if old(a.ProperSign()) {
      ModAbs(v, m.Value());
      ResidueTimes(v, P2(n), absM.Value());
      ModAbs(v * P2(n), m.Value());
    }
    ok := ModLshiftQuick(r, r, n, absM);
  }

  lemma ResidueTimes(v: int, p: int, m: int)
    requires m > 0
    ensures ((v % m) * p) % m == (v * p) % m
  {
    QuotientBounds(v, m);
    var q, r := v / m, v % m;
    QuotientBounds(r * p, m);
    ScaledRest(v, p, q, m, r);
    Distribute(q * p, (r * p) / m, m);
    QuotientUnique(v * p, m, q * p + (r * p) / m, (r * p) % m);
  }

  lemma ScaledRest(v: int, p: int, q: int, m: int, r: int)
    requires v == q * m + r
    ensures v * p == (q * p) * m + r * p
  {
    assert (q * m) * p == (q * p) * m;
  }
}
