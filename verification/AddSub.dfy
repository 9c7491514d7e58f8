/** bn_add.c: sums and differences of numbers, signed and unsigned. */
module AddSub {
  import opened Words
  import opened Bignums
  import opened WordLoops
  import opened Basics

  // ---------- unsigned difference

  lemma BorrowWordStep(x: seq<Word>, y: seq<Word>, z: seq<Word>, c: int, l: Word, c': int)
    requires |z| < |x| && Subtracted(z, c, x[..|z|], y)
    requires l - c' * 0x1_0000_0000 == x[|z|] - c
    ensures Subtracted(z + [l], c', x[..|z| + 1], y)
  {
    var i := |z|;
    BorrowStep(Val(x[..i]) - Val(y), Val(z), c, BP(i), x[i], l, c');
    ValTake(x, i);
    ValSnoc(z, l);
  }

  /** The words both operands have. */
  method SubCommon(r: Bignum, ro: nat, a: Bignum, ao: nat, b: Bignum, bo: nat, n: nat)
    returns (carry: Word, ghost z: seq<Word>)
    requires ro + n <= |r.d| && ao + n <= |a.d| && bo + n <= |b.d|
    requires Readable(r, ro, a, ao, n) && Readable(r, ro, b, bo, n)
    modifies r`d
    ensures carry <= 1
    ensures |z| == n && r.d == Splice(old(r.d), ro, z)
    ensures Subtracted(z, carry, old(a.d[ao..ao + n]), old(b.d[bo..bo + n]))
  {
    hide Subtracted;
    ghost var s, x, y := r.d, a.d[ao..ao + n], b.d[bo..bo + n];
    var i := 0;
    carry, z := 0, [];
    SubtractedNone(x, y);
    assert Splice(s, ro, z) == s;
    while i < n
      invariant |z| == i <= n && carry <= 1
      invariant r.d == Splice(s, ro, z)
      invariant Subtracted(z, carry, x[..i], y[..i])
    {
      var t1: int, t2: int := a.d[ao + i], b.d[bo + i];
      ghost var c0 := carry;
      var l: Word;
      if carry != 0 {
        carry := if t1 <= t2 then 1 else 0;
        l := Trunc(t1 - t2 - 1);
      } else {
        carry := if t1 < t2 then 1 else 0;
        l := Trunc(t1 - t2);
      }
      SubWordStep(x, y, z, c0, l, carry);
      SpliceSnoc(s, ro, z, l);
      r.d := r.d[ro + i := l];
      i, z := i + 1, z + [l];
    }
    assert x[..n] == x && y[..n] == y;
  }

  /** The loops of BN_usub over the slices of max words at ao and min words at bo. */
  method SubSlices(r: Bignum, ro: nat, a: Bignum, ao: nat, max: nat, b: Bignum, bo: nat, min: nat)
    returns (ghost z: seq<Word>)
    requires min <= max && ro + max <= |r.d| && ao + max <= |a.d| && bo + min <= |b.d|
    requires Readable(r, ro, a, ao, max) && Readable(r, ro, b, bo, min)
    requires Val(b.d[bo..bo + min]) <= Val(a.d[ao..ao + max])
    modifies r`d
    ensures |z| == max && r.d == Splice(old(r.d), ro, z)
    ensures Val(z) == Val(old(a.d[ao..ao + max])) - Val(old(b.d[bo..bo + min]))
  {
    hide Subtracted, Val;
    ghost var s, x, y := r.d, a.d[ao..ao + max], b.d[bo..bo + min];
    var carry;
    carry, z := SubCommon(r, ro, a, ao, b, bo, min);
    assert x[..min] == old(a.d[ao..ao + min]);
    var i := min;
    while carry != 0 && i < max
      invariant min <= i <= max && |z| == i && carry <= 1
      invariant r.d == Splice(s, ro, z)
      invariant Subtracted(z, carry, x[..i], y)
    {
      var t1 := a.d[ao + i];
      var t2 := Trunc(t1 as int - 1);
      BorrowWordStep(x, y, z, carry, t2, if t1 > t2 then 0 else 1);
      SpliceSnoc(s, ro, z, t2);
      r.d := r.d[ro + i := t2];
      i, z := i + 1, z + [t2];
      if t1 > t2 { carry := 0; }
    }
    assert x[..max] == x;
    if i == max { NoBorrow(z, carry, x, y); }
    z := CopyRest(r, ro, a, ao, i, max, s, x, z);
    RestCopied(z, i, x, y);
  }

  lemma RestCopied(z: seq<Word>, i: nat, x: seq<Word>, y: seq<Word>)
    requires i <= |x| == |z| && z[i..] == x[i..]
    requires Subtracted(z[..i], 0, x[..i], y)
    ensures Val(z) == Val(x) - Val(y)
  {
    Halves(z, i); Halves(x, i);
  }

  /** Copies words i to max, unless source and destination are the same words. */
  method CopyRest(r: Bignum, ro: nat, a: Bignum, ao: nat, i: nat, max: nat,
                  ghost s: seq<Word>, ghost x: seq<Word>, ghost z: seq<Word>)
    returns (ghost z': seq<Word>)
    requires i == |z| <= max && ro + max <= |s| && |x| == max && r.d == Splice(s, ro, z)
    requires ao + max <= |a.d| && Readable(r, ro, a, ao, max)
    requires (if a == r then s else a.d)[ao..ao + max] == x
    modifies r`d
    ensures z' == z + x[i..] && r.d == Splice(s, ro, z')
  {
    hide Splice;
    if r == a && ro == ao {
      z' := z + x[i..];
      SameWords(s, ro, z, x, max);
      return;
    }
    var j := i;
    z' := z;
    assert x[i..i] == [] && z + [] == z;
    while j < max
      invariant i <= j <= max && z' == z + x[i..j]
      invariant r.d == Splice(s, ro, z')
    {
      NextWord(if a == r then s else a.d, ro, z', ao, max, x);
      SpliceSnoc(s, ro, z', x[j]);
      assert x[i..j + 1] == x[i..j] + [x[j]];
      r.d := r.d[ro + j := a.d[ao + j]];
      z' := z' + [x[j]];
      j := j + 1;
    }
    assert x[i..max] == x[i..];
  }

  lemma SameWords(s: seq<Word>, ro: nat, z: seq<Word>, x: seq<Word>, max: nat)
    requires |z| <= max == |x| && ro + max <= |s|
    requires s[ro..ro + max] == x
    ensures Splice(s, ro, z) == Splice(s, ro, z + x[|z|..])
  {}

  /** The next word to copy has not been overwritten. */
  lemma NextWord(s: seq<Word>, ro: nat, z: seq<Word>, ao: nat, max: nat, x: seq<Word>)
    requires |z| < max == |x| && ao + max <= |s| && s[ao..ao + max] == x
    ensures s[ao + |z|] == x[|z|]
    ensures ro + |z| <= |s| && (ro <= ao || ao + max <= ro) ==> Splice(s, ro, z)[ao + |z|] == x[|z|]
  {}

  /** BN_usub: the difference of the magnitudes, the first being at least the second. */
  method Usub(r: Bignum, a: Bignum, b: Bignum) returns (ok: bool)
    requires r.Wf() && a.Valid() && b.Valid()
    requires b.top <= a.top ==> b.Mag() <= a.Mag()
    modifies r
    ensures ok <==> old(b.top) <= old(a.top)
    ensures ok ==> r.Valid() && !r.neg && r.Mag() == old(a.Mag()) - old(b.Mag())
    ensures !ok ==> r.d == old(r.d) && r.top == old(r.top) && r.neg == old(r.neg)
  {
    hide Val;
    if a.top < b.top { return false; }
    var max, min := a.top, b.top;
    MagIs(a); MagIs(b);
    ghost var x, y := a.d[..max], b.d[..min];
    WExpand(r, max);
    assert a.d[0..0 + max] == x && b.d[0..0 + min] == y;
    ghost var s := r.d;
    ghost var z := SubSlices(r, 0, a, 0, max, b, 0, min);
    r.top := max;
    r.neg := false;
    assert r.d[..r.top] == z;
    MagIs(r);
    FixTop(r);
    return true;
  }

  // ---------- unsigned sum

  lemma CarryWordStep(x: seq<Word>, y: seq<Word>, z: seq<Word>, c: int, l: Word, c': int)
    requires |z| < |x| && Added(z, c, x[..|z|], y)
    requires l + c' * 0x1_0000_0000 == x[|z|] + c
    ensures Added(z + [l], c', x[..|z| + 1], y)
  {
    var i := |z|;
    CarryStep(Val(x[..i]) + Val(y), Val(z), c, BP(i), x[i], l, c');
    ValTake(x, i);
    ValSnoc(z, l);
  }

  lemma RestAdded(z: seq<Word>, i: nat, c: Word, x: seq<Word>, y: seq<Word>)
    requires i <= |x| == |z| && z[i..] == x[i..] && (c != 0 ==> i == |x|)
    requires Added(z[..i], c, x[..i], y)
    ensures Added(z, c, x, y)
  {
    if c == 0 {
      Halves(z, i); Halves(x, i);
    } else {
      assert z[..i] == z && x[..i] == x;
    }
  }

  /** The words of the sum of the longer operand a and the shorter b, without the last carry. */
  method AddRows(r: Bignum, a: Bignum, max: nat, b: Bignum, min: nat) returns (c: Word, ghost z: seq<Word>)
    requires min <= max <= |r.d| && max <= |a.d| && min <= |b.d|
    modifies r`d
    ensures c <= 1 && |z| == max && r.d == Splice(old(r.d), 0, z)
    ensures Added(z, c, old(a.d[..max]), old(b.d[..min]))
  {
    hide Added, Val;
    ghost var s, x, y := r.d, a.d[..max], b.d[..min];
    c, z := AddWords(r, 0, a, 0, b, 0, min);
    assert a.d[0..0 + min] == a.d[..min];
    assert x[..min] == old(a.d[0..0 + min]) && y == old(b.d[0..0 + min]);
    var i := min;
    while c != 0 && i < max
      invariant min <= i <= max && |z| == i && c <= 1
      invariant r.d == Splice(s, 0, z)
      invariant Added(z, c, x[..i], y)
    {
      var t1 := a.d[i];
      var l := Trunc(t1 as int + 1);
      CarryWordStep(x, y, z, c, l, if l >= t1 then 0 else 1);
      SpliceSnoc(s, 0, z, l);
      r.d := r.d[i := l];
      i, z := i + 1, z + [l];
      if l >= t1 { c := 0; }
    }
    z := CopyRest(r, 0, a, 0, i, max, s, x, z);
    RestAdded(z, i, c, x, y);
  }

  /** The final carry word; without it the top word of the longer operand keeps the sum long. */
  lemma SumTop(x: seq<Word>, y: seq<Word>, z: seq<Word>, c: Word)
    requires |x| == |z| && c <= 1 && Added(z, c, x, y) && (x != [] ==> x[|x| - 1] != 0)
    ensures c == 0 ==> Val(z) == Val(x) + Val(y) && (z != [] ==> z[|z| - 1] != 0)
    ensures c == 1 ==> Val(z + [1]) == Val(x) + Val(y)
  {
    hide Val;
    ValSnoc(z, 1);
    if z != [] { TopWordNonzero(z); TopWordNonzero(x); }
  }

  /** BN_uadd: the sum of the magnitudes. */
  method Uadd(r: Bignum, a: Bignum, b: Bignum)
    requires r.Wf() && a.Valid() && b.Valid()
    modifies r
    ensures r.Valid() && !r.neg && r.Mag() == old(a.Mag()) + old(b.Mag())
  {
    if a.top < b.top {
      UaddOrdered(r, b, a);
    } else {
      UaddOrdered(r, a, b);
    }
  }

  /** BN_uadd after the operands have been put in order of length. */
  method UaddOrdered(r: Bignum, a: Bignum, b: Bignum)
    requires r.Wf() && a.Valid() && b.Valid() && b.top <= a.top
    modifies r
    ensures r.Valid() && !r.neg && r.Mag() == old(a.Mag()) + old(b.Mag())
  {
    hide Added, Val;
    var max, min := a.top, b.top;
    ghost var x, y := a.d[..max], b.d[..min];
    MagIs(a); MagIs(b);
    WExpand(r, max + 1);
    assert a.d[..max] == x && b.d[..min] == y;
    r.top := max;
    var c;
    ghost var z;
    c, z := AddRows(r, a, max, b, min);
    SumTop(x, y, z, c);
    assert r.d[..max] == z;
    if c != 0 {
      r.d := r.d[max := 1];
      r.top := r.top + 1;
      assert r.d[..r.top] == z + [1];
    }
    r.neg := false;
    MagIs(r);
  }

  // ---------- signed sum and difference

  /** BN_add */
  method Add(r: Bignum, a: Bignum, b: Bignum)
    requires r.Wf() && a.Valid() && b.Valid()
    modifies r
    ensures r.ProperSign() <==> old(a.ProperSign()) || old(b.ProperSign())
    ensures r.Valid() && r.Value() == old(a.Value()) + old(b.Value())
  {
    hide Val, Bignum.Mag;
    var aNeg := a.neg;
    if aNeg != b.neg {
      if aNeg { SubMag(r, b, a); } else { SubMag(r, a, b); }
      return;
    }
    ZeroMag(a); ZeroMag(b);
    Uadd(r, a, b);
    ZeroMag(r);
    r.neg := aNeg;
  }

  /** |a| - |b| with its sign, the common tail of BN_add and BN_sub. */
  method SubMag(r: Bignum, a: Bignum, b: Bignum)
    requires r.Wf() && a.Valid() && b.Valid()
    modifies r
    ensures r.Valid() && r.ProperSign() && r.Value() == old(a.Mag()) - old(b.Mag())
  {
    hide Val, Bignum.Mag;
    var c := Ucmp(a, b);
    var ok;
    if c < 0 {
      TopsOrdered(a, b);
      ok := Usub(r, b, a);
      ZeroMag(r);
      r.neg := true;
    } else {
      TopsOrdered(b, a);
      ok := Usub(r, a, b);
      r.neg := false;
    }
  }

  lemma TopsOrdered(a: Bignum, b: Bignum)
    requires a.Valid() && b.Valid() && a.Mag() <= b.Mag()
    ensures a.top <= b.top
  {
    if a.top > b.top { LongerIsLarger(a.d[..a.top], b.d[..b.top]); }
  }

  /** BN_sub */
  method Sub(r: Bignum, a: Bignum, b: Bignum)
    requires r.Wf() && a.Valid() && b.Valid()
    modifies r
    ensures r.ProperSign() <==> old(a.ProperSign()) || old(b.top) > 0 || old(b.neg)
    ensures r.Valid() && r.Value() == old(a.Value()) - old(b.Value())
  {
    hide Val, Bignum.Mag;
    var aNeg, bNeg := a.neg, b.neg;
    ZeroMag(a); ZeroMag(b);
    if aNeg == bNeg {
      WExpandBoth(r, a, b);
      if aNeg { SubMag(r, b, a); } else { SubMag(r, a, b); }
      return;
    }
    Uadd(r, a, b);
    ZeroMag(r);
    r.neg := aNeg;
  }

  /** The bn_wexpand of BN_sub: room in r, the operands unchanged even where r is one of them. */
  method WExpandBoth(r: Bignum, a: Bignum, b: Bignum)
    requires r.Wf() && a.Valid() && b.Valid()
    modifies r`d
    ensures r.Wf() && a.Valid() && b.Valid()
    ensures a.Mag() == old(a.Mag()) && b.Mag() == old(b.Mag())
  {
    MagIs(a); MagIs(b);
    ghost var x, y := a.d[..a.top], b.d[..b.top];
    WExpand(r, if a.top > b.top then a.top else b.top);
    assert a.d[..a.top] == x && b.d[..b.top] == y;
    assert forall k | 0 <= k < a.top :: a.d[k] == x[k];
    assert forall k | 0 <= k < b.top :: b.d[k] == y[k];
  }
}
