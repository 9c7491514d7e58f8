/** bn_word.c: a number and a single word. */
module WordOps {
  import opened Words
  import opened Bits
  import opened Bignums
  import opened WordLoops
  import opened Ripple
  import opened DivWord
  import opened Basics
  import opened Shift

  // ---------- BN_div_word

  lemma DivWordStep(x: seq<Word>, i: nat, z: seq<Word>, w: Word, ret: int, d: Word, ret': int)
    requires i < |x| && |z| == |x| - (i + 1)
    requires Val(x[i + 1..]) == Times(Val(z), w) + ret
    requires ret * 0x1_0000_0000 + x[i] == Times(d, w) + ret'
    ensures Val(x[i..]) == Times(Val([d] + z), w) + ret'
  {
    hide Val;
    LowWord(x[i..]);
    assert x[i..][1..] == x[i + 1..];
    LowWord([d] + z);
    assert ([d] + z)[1..] == z;
    QuotientSum(d, Val(z), w);
  }

  lemma QuotientSum(d: int, q: int, w: int)
    ensures Times(d + 0x1_0000_0000 * q, w) == Times(d, w) + 0x1_0000_0000 * Times(q, w)
  {}

  lemma WordRemainder(h: Word, l: Word, d: Word, w: Word)
    requires d * w <= h * 0x1_0000_0000 + l < (d + 1) * w
    ensures h * 0x1_0000_0000 + l == Times(d, w) + Trunc(l - Trunc(d * w)) && Trunc(l - Trunc(d * w)) < w
  {
    Successor(d, w);
    TruncDifference(h, l, d * w);
  }

  lemma TruncDifference(h: Word, l: Word, p: int)
    requires 0 <= h * 0x1_0000_0000 + l - p < 0x1_0000_0000
    ensures Trunc(l - Trunc(p)) == h * 0x1_0000_0000 + l - p
  {}

  /** A normalised number divided by a word loses at most one word. */
  lemma QuotientLength(x: seq<Word>, z: seq<Word>, w: Word, r: int)
    requires x != [] && x[|x| - 1] != 0 && |z| == |x| && Val(x) == Times(Val(z), w) + r && 0 <= r < w
    requires z[|z| - 1] == 0
    ensures Val(z[..|z| - 1]) == Val(z) && (|z| > 1 ==> z[|z| - 2] != 0)
  {
    hide Val;
    DropZero(z);
    if |z| > 1 {
      TopWordNonzero(x);
      var q, p := Val(z), BP(|z| - 2);
      TopWordNonzero(z[..|z| - 1]);
      if q < p {
        Successor(q, w);
        MulMono(q + 1, p, w);
        MulMono(w, 0x1_0000_0000, p);
      }
    }
  }

  ghost predicate AllMask(z: seq<Word>) {
    forall i | 0 <= i < |z| :: z[i] == 0xFFFF_FFFF
  }

  /** BN_div_word: a is divided by w in place and the remainder returned. By zero, every word is set
      to BN_MASK2; the sign stays even when nothing is left. */
  method DivideByWord(a: Bignum, w: Word) returns (ret: Word)
    requires a.Valid()
    modifies a
    ensures a.neg == old(a.neg)
    ensures w > 0 ==> a.Valid() && a.Mag() == old(a.Mag()) / w && ret == old(a.Mag()) % w
    ensures w == 0 ==> a.Valid() && a.top == old(a.top) && AllMask(a.d[..a.top])
    ensures w == 0 ==> ret == if old(a.top) == 0 then 0 else old(a.d[0])
  {
    hide Val, Times, AllMask, Bignum.Mag;
    ghost var m := a.Mag();
    ret := DivideInPlace(a, w);
    WordDivisionIs(m, w, a.Mag(), ret);
  }

  /** q and r are the quotient and the remainder of m by w; nothing for w = 0. */
  ghost predicate WordDivision(m: int, w: Word, q: int, r: Word) {
    w > 0 ==> q == m / w && r == m % w
  }

  lemma WordDivisionIs(m: int, w: Word, q: int, r: Word)
    requires WordDivision(m, w, q, r)
    ensures w > 0 ==> q == m / w && r == m % w
  {}

  lemma NothingDivided(w: Word)
    ensures WordDivision(Val([]), w, Val([]), 0)
    ensures AllMask([])
  {
    NoWords();
    if w > 0 { QuotientUnique(0, w, 0, 0); }
  }

  /** The loop, and one leading zero word less. */
  method DivideInPlace(a: Bignum, w: Word) returns (ret: Word)
    requires a.Valid()
    modifies a
    ensures a.neg == old(a.neg) && a.Valid() && WordDivision(old(a.Mag()), w, a.Mag(), ret)
    ensures w == 0 ==> a.top == old(a.top) && AllMask(a.d[..a.top])
    ensures w == 0 ==> ret == if old(a.top) == 0 then 0 else old(a.d[0])
  {
    hide Val, Times, AllMask, WordDivision, Splice, Bignum.Mag;
    MagIs(a);
    var n: nat := a.top;
    ghost var s, x := a.d, a.d[..n];
    if n == 0 {
      NothingDivided(w);
      return 0;
    }
    ghost var z;
    ret, z := DivWordLoop(a, n, w);
    SpliceSlice(s, 0, z);
    EndQuotient(x, z, w, ret);
    if a.d[a.top - 1] == 0 {
      a.top := a.top - 1;
      assert a.d[..a.top] == z[..n - 1];
    }
    MagIs(a);
  }

  /** The loop of BN_div_word. */
  method DivWordLoop(a: Bignum, n: nat, w: Word) returns (ret: Word, ghost z: seq<Word>)
    requires n <= |a.d|
    modifies a`d
    ensures |z| == n && a.d == Splice(old(a.d), 0, z)
    ensures w > 0 ==> ret < w && Val(old(a.d[..n])) == Times(Val(z), w) + ret
    ensures w == 0 ==> AllMask(z) && ret == if n == 0 then 0 else old(a.d[0])
  {
    hide Val, Times, Trunc;
    ghost var s, x := a.d, a.d[..n];
    ret, z := 0, [];
    var i := n;
    StartQuotient(x, w);
    assert Splice(s, n, z) == s;
    while i > 0
      invariant 0 <= i <= n && |z| == n - i
      invariant a.d == Splice(s, i, z)
      invariant w > 0 ==> ret < w && Val(x[i..]) == Times(Val(z), w) + ret
      invariant w == 0 ==> AllMask(z) && ret == if i == n then 0 else x[i]
    {
      i := i - 1;
      var l := a.d[i];
      assert l == x[i];
      var d := DivWords(ret, l, w);
      ghost var ret0 := ret;
      ret := Trunc(l - Trunc(d * w));
      if w > 0 {
        WordRemainder(ret0, l, d, w);
        DivWordStep(x, i, z, w, ret0, d, ret);
      } else {
        ZeroDivisor(l, d);
      }
      SpliceFront(s, i, z, d);
      a.d := a.d[i := d];
      z := [d] + z;
    }
    assert x[0..] == x;
  }

  lemma ZeroDivisor(l: Word, d: Word)
    ensures Trunc(l - Trunc(d * 0)) == l
  {}

  lemma StartQuotient(x: seq<Word>, w: Word)
    ensures Val(x[|x|..]) == Times(Val([]), w) + 0
  {
    NoWords();
    assert x[|x|..] == [];
  }

  /** The quotient has at most one leading zero word, and none of ones for w = 0. */
  lemma EndQuotient(x: seq<Word>, z: seq<Word>, w: Word, r: Word)
    requires x != [] && |z| == |x| && x[|x| - 1] != 0
    requires if w > 0 then Val(x) == Times(Val(z), w) + r && r < w else AllMask(z)
    ensures WordDivision(Val(x), w, Val(z), r)
    ensures z[|z| - 1] == 0 ==> w > 0 && Val(z[..|z| - 1]) == Val(z) && (|z| > 1 ==> z[|z| - 2] != 0)
  {
    hide Val;
    if w > 0 {
      QuotientUnique(Val(x), w, Val(z), r);
      if z[|z| - 1] == 0 { QuotientLength(x, z, w, r); }
    }
  }

  // ---------- BN_mod_word

  /** One half-word step of BN_mod_word; the shift of ret drops its high half. */
  function ModStep(ret: Word, h: Half, w: Word): (r: Word)
    requires w > 0
  {
    (Trunc(ret * 0x1_0000) + h) % w
  }

  /** What BN_mod_word computes: two half-word steps for each word, from the top. */
  function ModWords(x: seq<Word>, w: Word): (r: Word)
    requires w > 0
  {
    if |x| == 0 then 0
    else ModStep(ModStep(ModWords(x[1..], w), HBits(x[0]), w), LBits(x[0]), w)
  }

  /** BN_mod_word */
  method ModWord(a: Bignum, w: Word) returns (ret: Word)
    requires a.Wf() && w > 0
    ensures ret == ModWords(a.d[..a.top], w) == (a.Mag() - Lost(a.d[..a.top], w)) % w
    ensures w <= 0x1_0000 || 0x1_0000_0000 % w == 0 ==> ret == a.Mag() % w
  {
    hide ModWords;
    ghost var x := a.d[..a.top];
    ret := 0;
    var i := a.top;
    ModWordsIs(x, i, w);
    while i > 0
      invariant 0 <= i <= a.top && ret == ModWords(x[i..], w)
    {
      i := i - 1;
      ModWordsIs(x, i, w);
      ret := ModStep(ret, HBits(a.d[i]), w);
      ret := ModStep(ret, LBits(a.d[i]), w);
    }
    assert x[0..] == x;
    ModWordValue(x, w);
    if w <= 0x1_0000 || 0x1_0000_0000 % w == 0 { ModWordRight(x, w); }
  }

  /** The multiple of 2^32 that a step drops from a partial residue r, after a loss of l before. */
  function LossStep(l: int, r: Word): int {
    0x1_0000 * l + 0x1_0000_0000 * HBits(r)
  }

  /** What BN_mod_word loses of a number: the high halves of the partial residues, at their weights. */
  function Lost(x: seq<Word>, w: Word): int
    requires w > 0
  {
    if |x| == 0 then 0
    else
      var r := ModWords(x[1..], w);
      LossStep(LossStep(Lost(x[1..], w), r), ModStep(r, HBits(x[0]), w))
  }

  lemma StepValue(v: int, l: int, h: Half, w: Word)
    requires w > 0
    ensures ModStep((v - l) % w, h, w) == (0x1_0000 * v + h - LossStep(l, (v - l) % w)) % w
  {
    var r: Word := (v - l) % w;
    ShiftedHalf(r);
    QuotientBounds(v - l, w);
    QuotientBounds(Trunc(r * 0x1_0000) + h, w);
    StepMultiple((v - l) / w, w, r, v - l);
    var q, q' := (v - l) / w, (Trunc(r * 0x1_0000) + h) / w;
    Distribute(0x1_0000 * q, q', w);
    QuotientUnique(0x1_0000 * v + h - LossStep(l, r), w, 0x1_0000 * q + q', (Trunc(r * 0x1_0000) + h) % w);
  }

  lemma ShiftedHalf(r: Word)
    ensures Trunc(r * 0x1_0000) == 0x1_0000 * r - 0x1_0000_0000 * HBits(r)
  {}

  lemma StepMultiple(q: int, w: int, r: int, u: int)
    requires u == q * w + r
    ensures 0x1_0000 * u == (0x1_0000 * q) * w + 0x1_0000 * r
  {
    assert 0x1_0000 * (q * w) == (0x1_0000 * q) * w;
  }

  /** For every modulus and every number: the residue of what is left after the loss. */
  lemma {:induction false} ModWordValue(x: seq<Word>, w: Word)
    requires w > 0
    ensures ModWords(x, w) == (Val(x) - Lost(x, w)) % w
  {
    hide ModStep, LossStep, Val;
    if x == [] {
      NoWords();
      QuotientUnique(0, w, 0, 0);
    } else {
      ModWordValue(x[1..], w);
      LowWord(x);
      var v, l := Val(x[1..]), Lost(x[1..], w);
      StepValue(v, l, HBits(x[0]), w);
      StepValue(0x1_0000 * v + HBits(x[0]), LossStep(l, (v - l) % w), LBits(x[0]), w);
    }
  }

  lemma SameIfMultiple(v: int, l: int, w: int)
    requires w > 0 && l % w == 0
    ensures (v - l) % w == v % w
  {
    QuotientBounds(v, w); QuotientBounds(l, w);
    Distribute(v / w, l / w, w);
    QuotientUnique(v - l, w, v / w - l / w, v % w);
  }

  lemma MultipleIfSame(v: int, l: int, w: int)
    requires w > 0 && (v - l) % w == v % w
    ensures l % w == 0
  {
    QuotientBounds(v, w); QuotientBounds(v - l, w);
    Distribute(v / w, (v - l) / w, w);
    QuotientUnique(l, w, v / w - (v - l) / w, 0);
  }

  /** So BN_mod_word is right for a number exactly when the loss is a multiple of the modulus. */
  lemma RightForNumber(x: seq<Word>, w: Word)
    requires w > 0
    ensures ModWords(x, w) == Val(x) % w <==> Lost(x, w) % w == 0
  {
    hide Val, ModWords, Lost;
    ModWordValue(x, w);
    if Lost(x, w) % w == 0 { SameIfMultiple(Val(x), Lost(x, w), w); }
    if ModWords(x, w) == Val(x) % w { MultipleIfSame(Val(x), Lost(x, w), w); }
  }

  /** Every partial residue is below 2^16. */
  ghost predicate SmallResidues(x: seq<Word>, w: Word)
    requires w > 0
  {
    x == [] || (SmallResidues(x[1..], w) && HBits(ModWords(x[1..], w)) == 0
                && HBits(ModStep(ModWords(x[1..], w), HBits(x[0]), w)) == 0)
  }

  /** Nothing is lost while the partial residues stay below 2^16, and so nothing of one word. */
  lemma {:induction false} NothingLost(x: seq<Word>, w: Word)
    requires w > 0 && (|x| <= 1 || SmallResidues(x, w))
    ensures Lost(x, w) == 0 && ModWords(x, w) == Val(x) % w
  {
    ModWordValue(x, w);
    if |x| > 1 {
      NothingLost(x[1..], w);
    } else if |x| == 1 {
      SmallFirstStep(HBits(x[0]), w);
    }
  }

  lemma SmallFirstStep(h: Half, w: Word)
    requires w > 0
    ensures HBits(ModStep(0, h, w)) == 0
  {
    QuotientBounds(h, w);
    var q := h / w;
    if q < 0 { MulMono(q, -1, w); }
  }

  lemma ModWordsIs(x: seq<Word>, i: nat, w: Word)
    requires w > 0 && i <= |x|
    ensures i == |x| ==> ModWords(x[i..], w) == 0
    ensures i < |x| ==> ModWords(x[i..], w) == ModStep(ModStep(ModWords(x[i + 1..], w), HBits(x[i]), w), LBits(x[i]), w)
  {
    if i < |x| { assert x[i..][1..] == x[i + 1..]; }
  }

  /** A step is right when the shift loses nothing, or nothing that counts modulo w. */
  lemma ModStepRight(v: int, h: Half, w: Word)
    requires v >= 0 && w > 0 && (w <= 0x1_0000 || 0x1_0000_0000 % w == 0)
    ensures ModStep(v % w, h, w) == (v * 0x1_0000 + h) % w
  {
    var r := v % w;
    QuotientBounds(v, w);
    QuotientBounds(r * 0x1_0000, 0x1_0000_0000);
    var t := Trunc(r * 0x1_0000);
    var c := (r * 0x1_0000) / 0x1_0000_0000;
    QuotientBounds(0x1_0000_0000, w);
    var k := if w <= 0x1_0000 then 0 else 0x1_0000_0000 / w;
    if w <= 0x1_0000 { assert c == 0; }
    LostMultiple(c, k, w);
    assert t + (c * k) * w == r * 0x1_0000;
    QuotientBounds(t + h, w);
    SameResidue(v, v / w, w, r, c * k, t, h, (t + h) / w, (t + h) % w);
    QuotientUnique(v * 0x1_0000 + h, w, (v / w) * 0x1_0000 + c * k + (t + h) / w, (t + h) % w);
  }

  lemma LostMultiple(c: int, k: int, w: int)
    requires c == 0 || k * w == 0x1_0000_0000
    ensures (c * k) * w == c * 0x1_0000_0000
  {
    assert (c * k) * w == c * (k * w);
  }

  lemma SameResidue(v: int, q: int, w: int, r: int, c: int, t: int, h: int, q': int, r': int)
    requires v == q * w + r && t + c * w == r * 0x1_0000 && t + h == q' * w + r'
    ensures v * 0x1_0000 + h == (q * 0x1_0000 + c + q') * w + r'
  {
    assert (q * w) * 0x1_0000 == (q * 0x1_0000) * w;
  }

  /** For moduli up to 2^16, and for powers of two, BN_mod_word is the residue. */
  lemma {:induction false} ModWordRight(x: seq<Word>, w: Word)
    requires w > 0 && (w <= 0x1_0000 || 0x1_0000_0000 % w == 0)
    ensures ModWords(x, w) == Val(x) % w
  {
    if x == [] {
      NoWords();
      QuotientUnique(0, w, 0, 0);
    } else {
      ModWordRight(x[1..], w);
      LowWord(x);
      var v := Val(x[1..]);
      ModStepRight(v, HBits(x[0]), w);
      ModStepRight(v * 0x1_0000 + HBits(x[0]), LBits(x[0]), w);
    }
  }

  /** A divisor of 2^(n+1) that is at most 2^n divides 2^n. */
  lemma {:induction false} PowerDivisor(w: int, k: int, n: nat) returns (j: int)
    requires w > 0 && k * w == P2(n + 1) && w <= P2(n)
    ensures j * w == P2(n)
  {
    if k % 2 == 0 {
      j := k / 2;
      HalveFactor(k, w);
    } else {
      OddFactor(k, w);
      var u := w / 2;
      HalveFactor(w, k);
      Commute(k, w); Commute(u, k);
      j := PowerDivisor(u, k, n - 1);
      assert j * (2 * u) == 2 * (j * u);
    }
  }

  lemma HalveFactor(k: int, w: int)
    requires k % 2 == 0
    ensures 2 * ((k / 2) * w) == k * w
  {
    assert (2 * (k / 2)) * w == 2 * ((k / 2) * w);
  }

  lemma OddFactor(k: int, w: int)
    requires k % 2 == 1 && (k * w) % 2 == 0
    ensures w % 2 == 0
  {
    assert k * w == 2 * ((k / 2) * w) + w;
  }

  lemma {:induction false} NotPowerDivisor(w: Word, n: nat)
    requires w > 0 && 0x1_0000_0000 % w != 0 && n >= 32
    ensures P2(n) % w != 0
  {
    P2Bytes();
    if n > 32 {
      NotPowerDivisor(w, n - 1);
      if P2(n) % w == 0 {
        QuotientBounds(P2(n), w);
        P2Mono(32, n - 1);
        var j := PowerDivisor(w, P2(n) / w, n - 1);
        QuotientUnique(P2(n - 1), w, j, 0);
      }
    }
  }

  /** For every other modulus it is wrong, for instance of 2^48. */
  lemma ModWordWrong(w: Word)
    requires w > 0x1_0000 && 0x1_0000_0000 % w != 0
    ensures Val([0, 0x1_0000]) == 0x1_0000_0000_0000
    ensures ModWords([0, 0x1_0000], w) == 0 && 0x1_0000_0000_0000 % w != 0
  {
    hide Val;
    var x: seq<Word> := [0, 0x1_0000];
    LowWord(x);
    assert x[1..] == [0x1_0000];
    OneWord(0x1_0000);
    assert x[1..][1..] == [];
    QuotientUnique(1, w, 0, 1);
    QuotientUnique(0x1_0000, w, 0, 0x1_0000);
    QuotientUnique(0, w, 0, 0);
    assert ModWords([0x1_0000], w) == 0x1_0000;
    NotPowerDivisor(w, 48);
    P2Bytes();
    P2Add(32, 16);
  }

  /** BN_mod_word gives the residue of every number exactly for these moduli. */
  lemma ModWordExact(w: Word)
    requires w > 0
    ensures (forall x: seq<Word> :: ModWords(x, w) == Val(x) % w) <==> w <= 0x1_0000 || 0x1_0000_0000 % w == 0
  {
    if w <= 0x1_0000 || 0x1_0000_0000 % w == 0 {
      forall x: seq<Word> ensures ModWords(x, w) == Val(x) % w { ModWordRight(x, w); }
    } else {
      ModWordWrong(w);
      assert ModWords([0, 0x1_0000], w) != Val([0, 0x1_0000]) % w;
    }
  }

  // ---------- BN_add_word and BN_sub_word

  /** The carry leaves the words it has passed as zeros and reaches word i as w. */
  ghost predicate Carried(z: seq<Word>, w: int, x: seq<Word>, v: int)
    requires |z| <= |x|
  {
    Val(z) + w * BP(|z|) == Val(x[..|z|]) + v
  }

  lemma CarriedStep(z: seq<Word>, w: Word, x: seq<Word>, v: int, l: Word, c: int)
    requires |z| < |x| && Carried(z, w, x, v) && l + 0x1_0000_0000 * c == x[|z|] + w
    ensures Carried(z + [l], c, x, v)
  {
    var i := |z|;
    ValTake(x, i);
    ValSnoc(z, l);
    CarryStep(Val(x[..i]) + v, Val(z), w, BP(i), x[i], l, c);
  }

  lemma CarriedDone(z: seq<Word>, x: seq<Word>, v: int)
    requires |z| <= |x| && Carried(z, 0, x, v)
    ensures Val(z + x[|z|..]) == Val(x) + v
  {
    hide Val;
    ValConcat(z, x[|z|..]);
    ValConcat(x[..|z|], x[|z|..]);
    assert x == x[..|z|] + x[|z|..];
  }

  lemma CarriedOut(z: seq<Word>, w: Word, x: seq<Word>, v: int)
    requires |z| == |x| && Carried(z, w, x, v)
    ensures Val(z + [w]) == Val(x) + v
  {
    assert x[..|z|] == x;
    ValSnoc(z, w);
  }

  /** BN_add_word for a non-negative number. Adding 0 to 0 leaves a zero word. */
  method AddMagWord(a: Bignum, w: Word)
    requires a.Valid()
    modifies a`d, a`top
    ensures a.Wf() && a.Mag() == old(a.Mag()) + w
    ensures a.Valid() <==> !(old(a.top) == 0 && w == 0)
    ensures old(a.top) == 0 ==> a.top == 1 && a.d[0] == w
  {
    hide Val, BP, Bignum.Mag, Carried;
    MagIs(a);
    var n: nat := a.top;
    ghost var x := a.d[..n];
    WExpand(a, n + 1);
    assert a.d[..n] == x;
    ghost var s := a.d;
    var i: nat;
    ghost var z;
    i, z := AddWordLoop(a, n, w);
    AddedValue(s, z, x, w, i);
    if i >= a.top { a.top := a.top + 1; }
    MagIs(a);
    if i < n { TopOfSum(s, z, x, w, i); }
  }

  /** The loop: word i is the last one written. */
  method AddWordLoop(a: Bignum, n: nat, w: Word) returns (i: nat, ghost z: seq<Word>)
    requires n < |a.d|
    modifies a`d
    ensures |z| == i + 1 <= n + 1 && a.d == Splice(old(a.d), 0, z)
    ensures i < n ==> Carried(z, 0, old(a.d[..n]), w)
    ensures i == n ==> Val(z) == Val(old(a.d[..n])) + w && z[n] == if n == 0 then w else 1
  {
    hide Val, BP, Carried, Splice, Trunc;
    ghost var s, x := a.d, a.d[..n];
    var c: Word := w;
    i, z := 0, [];
    CarriedNone(x, w);
    SpliceNothing(s, 0);
    while i < n
      invariant |z| == i <= n && a.d == Splice(s, 0, z)
      invariant Carried(z, c, x, w) && c == if i == 0 then w else 1
    {
      SpliceAbove(s, 0, z, i);
      TruncCarry(x[i], c);
      var l := Trunc(a.d[i] as int + c);
      SpliceSnoc(s, 0, z, l);
      a.d := a.d[i := l];
      CarriedStep(z, c, x, w, l, if c > l then 1 else 0);
      z := z + [l];
      if c <= l { return; }
      c := 1;
      i := i + 1;
    }
    SpliceSnoc(s, 0, z, c);
    a.d := a.d[i := c];
    CarriedOut(z, c, x, w);
    z := z + [c];
  }

  lemma TruncCarry(w: Word, c: Word)
    ensures var l := Trunc(w as int + c); l + 0x1_0000_0000 * (if c > l then 1 else 0) == w + c
  {}

  /** Where the carry stops inside, the sum still needs its top word. */
  lemma TopOfSum(s: seq<Word>, z: seq<Word>, x: seq<Word>, w: Word, i: nat)
    requires |z| == i + 1 <= |s| && i < |x| < |s| && x[|x| - 1] != 0
    requires Val(Splice(s, 0, z)[..|x|]) == Val(x) + w
    ensures Splice(s, 0, z)[|x| - 1] != 0
  {
    hide Val;
    TopWordNonzero(x);
    TopWordNonzero(Splice(s, 0, z)[..|x|]);
  }

  lemma CarriedNone(x: seq<Word>, w: Word)
    ensures Carried([], w, x, w)
  {
    NoWords();
    assert x[..0] == [];
  }

  lemma AddedValue(s: seq<Word>, z: seq<Word>, x: seq<Word>, w: Word, i: nat)
    requires |z| == i + 1 <= |s| && i <= |x| < |s| && s[..|x|] == x
    requires i < |x| ==> Carried(z, 0, x, w)
    requires i == |x| ==> Val(z) == Val(x) + w
    ensures Val(Splice(s, 0, z)[..if i < |x| then |x| else i + 1]) == Val(x) + w
  {
    hide Val, BP, Carried, Splice;
    if i < |x| {
      CarriedDone(z, x, w);
      SpliceThen(s, z, x);
    } else {
      SpliceSlice(s, 0, z);
    }
  }

  lemma SpliceThen(s: seq<Word>, z: seq<Word>, x: seq<Word>)
    requires |z| <= |x| <= |s| && s[..|x|] == x
    ensures Splice(s, 0, z)[..|x|] == z + x[|z|..]
  {}

  /** The borrow has reached word |z| as w. */
  ghost predicate Borrowed(z: seq<Word>, w: int, x: seq<Word>, v: int)
    requires |z| <= |x|
  {
    Val(z) - w * BP(|z|) == Val(x[..|z|]) - v
  }

  lemma BorrowedNone(x: seq<Word>, w: Word)
    ensures Borrowed([], w, x, w)
  {
    NoWords();
    assert x[..0] == [];
  }

  lemma BorrowedStep(z: seq<Word>, w: Word, x: seq<Word>, v: int, l: Word, c: int)
    requires |z| < |x| && Borrowed(z, w, x, v) && l - 0x1_0000_0000 * c == x[|z|] as int - w
    ensures Borrowed(z + [l], c, x, v)
  {
    var i := |z|;
    ValTake(x, i);
    ValSnoc(z, l);
    BorrowStep(Val(x[..i]) - v, Val(z), w, BP(i), x[i], l, c);
  }

  lemma BorrowedDone(z: seq<Word>, x: seq<Word>, v: int)
    requires |z| <= |x| && Borrowed(z, 0, x, v)
    ensures Val(z + x[|z|..]) == Val(x) - v
  {
    hide Val;
    ValConcat(z, x[|z|..]);
    ValConcat(x[..|z|], x[|z|..]);
    assert x == x[..|z|] + x[|z|..];
  }

  /** The borrow stops inside a number that is not below the word. */
  lemma BorrowStops(z: seq<Word>, x: seq<Word>, v: int)
    requires |z| == |x| && Borrowed(z, 1, x, v)
    ensures Val(x) < v
  {
    assert x[..|x|] == x;
    ValBound(z);
  }

  /** The loop of BN_sub_word: word i is the last one written. */
  method SubWordLoop(a: Bignum, n: nat, w: Word) returns (i: nat, ghost z: seq<Word>)
    requires 0 < n <= |a.d| && w <= Val(a.d[..n])
    modifies a`d
    ensures i < n && |z| == i + 1 && a.d == Splice(old(a.d), 0, z)
    ensures Borrowed(z, 0, old(a.d[..n]), w) && (i > 0 ==> z[i - 1] != 0)
  {
    hide Val, BP, Borrowed;
    ghost var s, x := a.d, a.d[..n];
    var c: Word := w;
    i, z := 0, [];
    BorrowedNone(x, w);
    assert Splice(s, 0, z) == s;
    while a.d[i] < c
      invariant |z| == i < n && a.d == Splice(s, 0, z)
      invariant Borrowed(z, c, x, w) && (i > 0 ==> z[i - 1] != 0)
      decreases n - i
    {
      assert a.d[i] == x[i];
      var l := Trunc(a.d[i] - c);
      SpliceSnoc(s, 0, z, l);
      a.d := a.d[i := l];
      BorrowedStep(z, c, x, w, l, 1);
      z := z + [l];
      if i + 1 == n { BorrowStops(z, x, w); }
      i, c := i + 1, 1;
    }
    assert a.d[i] == x[i];
    var l: Word := a.d[i] - c;
    SpliceSnoc(s, 0, z, l);
    a.d := a.d[i := l];
    BorrowedStep(z, c, x, w, l, 0);
    z := z + [l];
  }

  /** BN_sub_word for a positive number. */
  method SubMagWord(a: Bignum, w: Word)
    requires a.Valid() && a.top > 0 && !a.neg
    modifies a
    ensures a.Valid() && a.ProperSign() && a.Value() == old(a.Mag()) - w
  {
    hide Val, BP, Borrowed;
    MagIs(a);
    var n: nat := a.top;
    ghost var x := a.d[..n];
    if n == 1 && a.d[0] < w {
      OneWord(a.d[0]);
      assert x == [a.d[0]];
      a.d := a.d[0 := w - a.d[0]];
      a.neg := true;
      OneWord(a.d[0]);
      assert a.d[..1] == [a.d[0]];
      return;
    }
    LargeEnough(x, w);
    ghost var s := a.d;
    var i: nat;
    ghost var z;
    i, z := SubWordLoop(a, n, w);
    BorrowedDone(z, x, w);
    ghost var y := z + x[i + 1..];
    assert a.d[..n] == y;
    if a.d[i] == 0 && i == a.top - 1 {
      DropZero(y);
      a.top := a.top - 1;
      assert a.d[..a.top] == y[..n - 1];
    }
    MagIs(a);
  }

  lemma LargeEnough(x: seq<Word>, w: Word)
    requires x != [] && x[|x| - 1] != 0 && (|x| == 1 ==> x[0] >= w)
    ensures w <= Val(x)
  {
    if |x| == 1 {
      OneWord(x[0]);
      assert x == [x[0]];
    } else {
      TopWordNonzero(x);
      BPMono(1, |x| - 1);
    }
  }

  /** BN_add_word */
  method AddWord(a: Bignum, w: Word)
    requires a.Valid()
    modifies a
    ensures a.Wf() && a.Value() == old(a.Value()) + w
    ensures a.Valid() <==> !(old(a.top) == 0 && w == 0)
    ensures IsZero(a) <==> a.Value() == 0
    ensures IsZero(a) && a.neg <==> old(a.top) == 0 && old(a.neg) && w == 0
  {
    hide Val, Bignum.Mag;
    ZeroMag(a);
    if a.neg {
      a.neg := false;
      SubWord(a, w);
      if !IsZero(a) { a.neg := !a.neg; }
    } else {
      AddMagWord(a, w);
      ZeroWord(a);
    }
  }

  /** BN_sub_word */
  method SubWord(a: Bignum, w: Word)
    requires a.Valid()
    modifies a
    ensures a.Wf() && a.Value() == old(a.Value()) - w
    ensures a.Valid() <==> !(old(a.top) == 0 && w == 0)
    ensures IsZero(a) <==> a.Value() == 0
    ensures IsZero(a) && a.neg <==> old(a.top) == 0 && w == 0
  {
    hide Val, Bignum.Mag;
    ZeroMag(a);
    if IsZero(a) || a.neg {
      a.neg := false;
      AddMagWord(a, w);
      a.neg := true;
      ZeroWord(a);
    } else {
      SubMagWord(a, w);
      ZeroMag(a);
    }
  }

  lemma ZeroWord(a: Bignum)
    requires a.Wf() && (a.Valid() || (a.top == 1 && a.d[0] == 0))
    ensures IsZero(a) <==> a.Mag() == 0
  {
    if a.Valid() { ZeroMag(a); } else { OneWord(0); assert a.d[..1] == [0]; }
  }

  // ---------- BN_mul_word

  lemma TimesTop(x: seq<Word>, z: seq<Word>, c: Word, w: Word)
    requires |x| == |z| > 0 && x[|x| - 1] != 0 && w > 0 && Scaled(z, c, x, w, 0)
    ensures c == 0 ==> Val(z) == Times(Val(x), w) && z[|z| - 1] != 0
    ensures Val(z + [c]) == Times(Val(x), w)
  {
    hide Val;
    ValSnoc(z, c);
    TopWordNonzero(z); TopWordNonzero(x);
    MulMono(1, w, Val(x));
    Commute(w, Val(x));
  }

  /** The loop of BN_mul_word and the word carried out of it, for nonzero factors. */
  method ScaleInPlace(a: Bignum, w: Word)
    requires a.Valid() && a.top > 0 && w > 0
    modifies a
    ensures a.Valid() && a.neg == old(a.neg) && a.Mag() == Times(old(a.Mag()), w)
  {
    hide Val, Scaled, Splice, Times, Bignum.Mag;
    MagIs(a);
    var n: nat := a.top;
    ghost var s, x := a.d, a.d[..n];
    assert a.d[0..0 + n] == x;
    var ll;
    ghost var z;
    ll, z := MulWords(a, 0, a, 0, n, w);
    TimesTop(x, z, ll, w);
    SpliceSlice(s, 0, z);
    if ll != 0 {
      WExpand(a, n + 1);
      a.d := a.d[n := ll];
      a.top := n + 1;
      assert a.d[..n + 1] == z + [ll];
    }
    MagIs(a);
  }

  lemma SignedTimes(m: int, neg: bool, w: Word)
    ensures (if neg then -m else m) * w == if neg then -Times(m, w) else Times(m, w)
  {}

  /** BN_mul_word */
  method MulWord(a: Bignum, w: Word)
    requires a.Valid()
    modifies a
    ensures a.Valid() && a.Value() == old(a.Value()) * w
    ensures a.neg == (old(a.neg) && !(w == 0 && old(a.top) > 0))
  {
    hide Val, Times, Bignum.Mag;
    ghost var m, neg := a.Mag(), a.neg;
    SignedTimes(m, neg, w);
    ZeroMag(a);
    TimesCommute(m, w); TimesCommute(w, m);
    if a.top == 0 { return; }
    if w == 0 {
      SetWord(a, 0);
      return;
    }
    ScaleInPlace(a, w);
  }
}
