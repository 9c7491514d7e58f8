/** bn_lib.c: growing, copying, comparing and measuring numbers. */
module Basics {
  import opened Words
  import opened Bits
  import opened Bignums
  import opened WordLoops
  import opened Ripple

  /** A normalised number without a minus sign. */
  ghost predicate NonNeg(a: Bignum)
    reads a
  {
    a.Valid() && !a.neg
  }

  // ---------- leading zeros

  lemma {:induction false} DropZero(z: seq<Word>)
    requires z != [] && z[|z| - 1] == 0
    ensures Val(z) == Val(z[..|z| - 1])
  {}

  /** The top word is nonzero exactly when the number needs all the words. */
  lemma TopWordNonzero(z: seq<Word>)
    requires z != []
    ensures z[|z| - 1] != 0 <==> Val(z) >= BP(|z| - 1)
  {
    ValBound(z[..|z| - 1]);
    if z[|z| - 1] != 0 { MulMono(1, z[|z| - 1], BP(|z| - 1)); }
  }

  /** bn_fix_top */
  method FixTop(a: Bignum)
    requires a.Wf()
    modifies a`top
    ensures a.top <= old(a.top) && (a.top > 0 ==> a.d[a.top - 1] != 0)
    ensures a.Mag() == old(a.Mag())
  {
    hide Val, Bignum.Mag;
    MagIs(a);
    while a.top > 0 && a.d[a.top - 1] == 0
      invariant a.Wf() && a.top <= old(a.top) && Val(a.d[..a.top]) == old(a.Mag())
      decreases a.top
    {
      DropZero(a.d[..a.top]);
      assert a.d[..a.top][..a.top - 1] == a.d[..a.top - 1];
      a.top := a.top - 1;
    }
    MagIs(a);
  }

  lemma MagIs(a: Bignum)
    requires a.Wf()
    ensures a.Mag() == Val(a.d[..a.top])
  {}

  // ---------- buffers

  /** bn_wexpand: room for that many words, and the one beyond; the number is kept. */
  method WExpand(a: Bignum, words: nat)
    requires a.Wf()
    modifies a`d
    ensures |a.d| > words && |a.d| >= old(|a.d|)
    ensures a.d[..a.top] == old(a.d[..a.top])
    ensures words < old(|a.d|) ==> a.d == old(a.d)
  {
    if words >= |a.d| {
      a.d := a.d[..a.top] + seq(words + 1 - a.top, i => 0);
    }
  }

  /** BN_set_word */
  method SetWord(a: Bignum, w: Word)
    requires a.Wf()
    modifies a
    ensures a.Valid() && !a.neg && a.Value() == w && a.top == if w == 0 then 0 else 1
  {
    WExpand(a, 1);
    a.neg, a.top := false, 0;
    a.d := a.d[0 := w];
    if w != 0 { a.top := 1; }
    OneWord(w);
    assert a.d[..1] == [w];
  }

  lemma OneWord(w: Word)
    ensures Val([w]) == w && Val([]) == 0
  {
    LowWord([w]);
    assert [w][1..] == [];
  }

  /** BN_copy */
  method Copy(a: Bignum, b: Bignum)
    requires a.Wf() && b.Wf()
    modifies a
    ensures a.Wf() && a.top == old(b.top) && a.neg == old(b.neg)
    ensures a.d[..a.top] == old(b.d[..b.top]) && a.Mag() == old(b.Mag())
    ensures old(b.Valid()) ==> a.Valid()
  {
    if a == b { return; }
    WExpand(a, b.top);
    ghost var s := a.d;
    var i := 0;
    while i < b.top
      invariant i <= b.top && |a.d| == |s|
      invariant a.d[..i] == b.d[..i]
    {
      a.d := a.d[i := b.d[i]];
      i := i + 1;
    }
    a.top := b.top;
    if a.top == 0 { a.d := a.d[0 := 0]; }
    a.neg := b.neg;
  }

  /** BN_is_zero */
  predicate IsZero(a: Bignum)
    requires a.Wf()
    reads a
  {
    a.top == 0 || (a.top == 1 && a.d[0] == 0)
  }

  /** A normalised number is zero exactly when it has no words, which is what BN_is_zero sees. */
  lemma ZeroMag(a: Bignum)
    requires a.Valid()
    ensures a.top == 0 <==> a.Mag() == 0
    ensures IsZero(a) <==> a.Mag() == 0
  {
    if a.top > 0 { TopWordNonzero(a.d[..a.top]); }
  }

  /** BN_is_one */
  predicate IsOne(a: Bignum)
    requires a.Wf()
    reads a
  {
    a.top == 1 && a.d[0] == 1 && !a.neg
  }

  /** BN_is_word */
  predicate IsWord(a: Bignum, w: Word)
    requires a.Wf()
    reads a
  {
    if w == 0 then IsZero(a) else a.top == 1 && a.d[0] == w && !a.neg
  }

  /** BN_is_odd */
  predicate IsOdd(a: Bignum)
    requires a.Wf()
    reads a
  {
    a.top > 0 && a.d[0] % 2 == 1
  }

  /** A number with one word. */
  lemma WordMag(a: Bignum, w: Word)
    requires a.Valid() && w > 0
    ensures a.top == 1 && a.d[0] == w <==> a.Mag() == w
  {
    hide Val;
    MagIs(a);
    ZeroMag(a);
    if a.top == 1 {
      OneWord(a.d[0]);
      assert a.d[..1] == [a.d[0]];
    } else if a.top > 1 {
      TopWordNonzero(a.d[..a.top]);
      BPMono(1, a.top - 1);
    }
  }

  /** BN_is_odd looks at the lowest bit. */
  lemma OddMag(a: Bignum)
    requires a.Valid()
    ensures IsOdd(a) <==> a.Mag() % 2 == 1
  {
    hide Val;
    MagIs(a);
    ZeroMag(a);
    if a.top > 0 { LowWord(a.d[..a.top]); }
  }

  // ---------- comparison

  /** Two word slices compared as BN_ucmp does: by length, then from the top word down. */
  method CmpSlices(a: Bignum, ao: nat, na: nat, b: Bignum, bo: nat, nb: nat) returns (c: int)
    requires ao + na <= |a.d| && bo + nb <= |b.d|
    requires na > nb ==> Val(b.d[bo..bo + nb]) <= Val(a.d[ao..ao + na])
    requires na < nb ==> Val(a.d[ao..ao + na]) < Val(b.d[bo..bo + nb])
    ensures c < 0 <==> Val(a.d[ao..ao + na]) < Val(b.d[bo..bo + nb])
    ensures na <= nb ==> (c > 0 <==> Val(a.d[ao..ao + na]) > Val(b.d[bo..bo + nb]))
    ensures na > nb ==> c > 0
  {
    if na != nb { return na as int - nb; }
    c := CmpWords(a, ao, b, bo, na);
  }

  /** A longer normalised number is larger. */
  lemma LongerIsLarger(x: seq<Word>, y: seq<Word>)
    requires |x| > |y| && x[|x| - 1] != 0
    ensures Val(y) < Val(x)
  {
    TopWordNonzero(x);
    ValBound(y);
    BPMono(|y|, |x| - 1);
  }

  lemma {:induction false} BPMono(m: nat, n: nat)
    requires m <= n
    ensures BP(m) <= BP(n)
  {
    if m < n { BPMono(m, n - 1); }
  }

  /** BN_ucmp: the order of the magnitudes. */
  method Ucmp(a: Bignum, b: Bignum) returns (c: int)
    requires a.Valid() && b.Valid()
    ensures c < 0 <==> a.Mag() < b.Mag()
    ensures c > 0 <==> a.Mag() > b.Mag()
  {
    hide Val;
    ghost var x, y := a.d[..a.top], b.d[..b.top];
    if a.top > b.top { LongerIsLarger(x, y); }
    if a.top < b.top { LongerIsLarger(y, x); }
    assert a.d[0..a.top] == x && b.d[0..b.top] == y;
    c := CmpSlices(a, 0, a.top, b, 0, b.top);
  }

  /** BN_cmp: the order of the values, except that it puts -0 below 0. */
  method Cmp(a: Bignum, b: Bignum) returns (c: int)
    requires a.Valid() && b.Valid()
    ensures c < 0 <==> a.Value() < b.Value() || (a.Value() == b.Value() && a.neg && !b.neg)
    ensures c > 0 <==> a.Value() > b.Value() || (a.Value() == b.Value() && !a.neg && b.neg)
  {
    hide Val, Bignum.Mag;
    if a.neg != b.neg { return if a.neg then -1 else 1; }
    c := Ucmp(a, b);
    if a.neg { c := -c; }
  }

  // ---------- bits

  /** BN_num_bits */
  method NumBits(a: Bignum) returns (n: nat)
    requires a.Valid()
    ensures HasBits(a.Mag(), n)
    ensures a.top > 0 ==> 32 * (a.top - 1) < n <= 32 * a.top
    ensures a.top == 0 ==> n == 0
  {
    if a.top == 0 {
      assert a.d[..0] == [];
      return 0;
    }
    n := 32 * (a.top - 1) + NumBitsWord(a.d[a.top - 1]);
    WordsHaveBits(a.d[..a.top], NumBitsWord(a.d[a.top - 1]));
  }

  lemma WordsHaveBits(x: seq<Word>, k: nat)
    requires x != [] && x[|x| - 1] != 0 && HasBits(x[|x| - 1], k)
    ensures HasBits(Val(x), 32 * (|x| - 1) + k) && k > 0
  {
    var m, w: int := |x| - 1, x[|x| - 1];
    ValBound(x[..m]);
    BPIsP2(m);
    P2Add(k, 32 * m); P2Add(k - 1, 32 * m);
    MulMono(P2(k - 1), w, BP(m));
    MulMono(w + 1, P2(k), BP(m));
    Distribute(w, 1, BP(m));
  }

  /** x shifted right by n bits. */
  ghost function Shr(x: int, n: nat): int {
    x / P2(n)
  }

  /** A shift by n = 0 bits. */
  lemma ShrNone(x: int, n: nat)
    requires n == 0
    ensures Shr(x, n) == x
  {}

  /** Shifting by m and then by n. */
  lemma ShrShr(x: int, m: nat, n: nat)
    ensures Shr(x, m + n) == Shr(Shr(x, m), n)
  {
    var q, r := x / P2(m), x % P2(m);
    var q', r' := q / P2(n), q % P2(n);
    QuotientBounds(x, P2(m)); QuotientBounds(q, P2(n));
    P2Add(n, m);
    NestedQuotient(x, P2(m), q, r, P2(n), q', r');
    QuotientUnique(x, P2(m + n), q', r' * P2(m) + r);
  }

  lemma NestedQuotient(x: int, p: int, q: int, r: int, s: int, q': int, r': int)
    requires x == q * p + r && 0 <= r < p && q == q' * s + r' && 0 <= r' < s
    ensures x == q' * (s * p) + (r' * p + r) && 0 <= r' * p + r < s * p
  {
    assert q * p == q' * (s * p) + r' * p;
    MulMono(0, r', p); MulMono(r' + 1, s, p);
    Distribute(r', 1, p);
  }

  /** Bit n of a natural number. */
  ghost predicate BitOf(x: int, n: nat) {
    Shr(x, n) % 2 == 1
  }

  lemma BitIsOdd(x: int, n: nat)
    ensures BitOf(x, n) <==> Shr(x, n) % 2 == 1
  {}

  /** Dropping one bit more. */
  lemma ShrStep(x: int, n: nat)
    ensures Shr(x, n) == 2 * Shr(x, n + 1) + (if BitOf(x, n) then 1 else 0)
  {
    ShrShr(x, n, 1);
    assert P2(1) == 2;
  }

  lemma ShrWords(x: seq<Word>, i: nat)
    requires i <= |x|
    ensures Shr(Val(x), 32 * i) == Val(x[i..])
  {
    assert x == x[..i] + x[i..];
    ValConcat(x[..i], x[i..]);
    ValBound(x[..i]);
    BPIsP2(i);
    Commute(BP(i), Val(x[i..]));
    QuotientUnique(Val(x), P2(32 * i), Val(x[i..]), Val(x[..i]));
  }

  /** The bits of the lowest word are bits of the number. */
  lemma LowWordBit(w: Word, v: int, j: nat)
    requires j < 32
    ensures BitOf(w + 0x1_0000_0000 * v, j) == BitOf(w, j)
  {
    hide P2;
    var p, c := P2(j), P2(31 - j);
    P2Bytes();
    P2Add(31 - j, j);
    QuotientBounds(w, p);
    WordPlus(w, v, p, c, w / p, w % p);
    QuotientUnique(w + 0x1_0000_0000 * v, p, w / p + 2 * (c * v), w % p);
    SameParity(w / p, c * v);
  }

  lemma SameParity(q: int, k: int)
    ensures (q + 2 * k) % 2 == q % 2
  {}

  lemma WordPlus(w: int, v: int, p: int, c: int, q: int, r: int)
    requires c * p == 0x8000_0000 && w == q * p + r
    ensures w + 0x1_0000_0000 * v == (q + 2 * (c * v)) * p + r
  {
    assert (q + 2 * (c * v)) * p == q * p + 2 * ((c * p) * v);
  }

  /** Which word and which of its bits bit n is. */
  lemma BitInWord(x: seq<Word>, n: nat)
    ensures n / 32 < |x| ==> BitOf(Val(x), n) == BitOf(x[n / 32], n % 32)
    ensures n / 32 >= |x| ==> !BitOf(Val(x), n)
  {
    var i, j := n / 32, n % 32;
    if i < |x| {
      ShrShr(Val(x), 32 * i, j);
      ShrWords(x, i);
      LowWord(x[i..]);
      LowWordBit(x[i], Val(x[i..][1..]), j);
    } else {
      ValBound(x);
      BPIsP2(|x|);
      P2Mono(32 * |x|, n);
      QuotientUnique(Val(x), P2(n), 0, Val(x));
    }
  }

  /** BN_is_bit_set */
  method IsBitSet(a: Bignum, n: nat) returns (b: bool)
    requires a.Wf()
    ensures b <==> BitOf(a.Mag(), n)
  {
    hide BitOf, Val;
    BitInWord(a.d[..a.top], n);
    MagIs(a);
    if a.top <= n / 32 { return false; }
    BitOfWord(a.d[n / 32], n % 32);
    b := (a.d[n / 32] / P2(n % 32)) % 2 == 1;
  }

  lemma BitOfWord(w: Word, j: nat)
    ensures BitOf(w, j) <==> (w / P2(j)) % 2 == 1
  {}

  /** Setting a clear bit of a word adds its weight and stays inside the word. */
  lemma SetBitOfWord(w: Word, j: nat)
    requires j < 32 && !BitOf(w, j)
    ensures w as int + P2(j) < 0x1_0000_0000
  {
    var p, c := P2(j), P2(31 - j);
    P2Bytes();
    P2Add(31 - j, j);
    QuotientBounds(w, p);
    var q := w / p;
    var h := q / 2;
    assert q == 2 * h;
    EvenQuotient(w, p, c, h, w % p);
  }

  lemma EvenQuotient(w: int, p: int, c: int, h: int, r: int)
    requires c * p == 0x8000_0000 && p > 0 && w == (2 * h) * p + r && 0 <= r < p && w < 0x1_0000_0000
    ensures w + p < 0x1_0000_0000
  {
    if h >= c { MulMono(c, h, p); }
    MulMono(h, c - 1, p);
    Distribute(c, 1, p);
    assert (2 * h) * p == 2 * (h * p);
  }

  lemma UpdateWord(x: seq<Word>, i: nat, w: Word)
    requires i < |x|
    ensures Val(x[i := w]) == Val(x) + (w - x[i]) * BP(i)
  {
    assert x == x[..i] + [x[i]] + x[i + 1..] && x[i := w] == x[..i] + [w] + x[i + 1..];
    ThreeParts(x[..i], x[i], x[i + 1..]);
    ThreeParts(x[..i], w, x[i + 1..]);
    Distribute(w, x[i], BP(i));
  }

  lemma {:induction false} ValPad(x: seq<Word>, n: nat)
    ensures Val(x + Zeros(n)) == Val(x)
  {
    ValConcat(x, Zeros(n));
    ValZeros(n);
  }

  /** BN_set_bit */
  method SetBit(a: Bignum, n: nat)
    requires a.Valid()
    modifies a
    ensures a.Valid() && a.neg == old(a.neg)
    ensures a.Mag() == old(a.Mag()) + (if BitOf(old(a.Mag()), n) then 0 else P2(n))
  {
    hide BitOf, Val, BP, P2;
    ghost var x := a.d[..a.top];
    var i, j := n / 32, n % 32;
    if a.top <= i {
      WExpand(a, i + 1);
      ghost var z := ClearAbove(a, i + 1);
      a.top := i + 1;
      ValPad(x, |z| - |x|);
    }
    ghost var y := a.d[..a.top];
    BitInWord(y, n);
    var w := OrBit(a.d[i], j);
    UpdateWord(y, i, w);
    WordWeight(y[i], i, j);
    a.d := a.d[i := w];
    assert a.d[..a.top] == y[i := w];
    MagIs(a);
  }

  /** w | (1 << j) */
  method OrBit(w: Word, j: nat) returns (w': Word)
    requires j < 32
    ensures w' > 0 && w' == w + (if BitOf(w, j) then 0 else P2(j))
  {
    BitOfWord(w, j);
    if (w / P2(j)) % 2 == 1 {
      SomeBit(w, P2(j));
      return w;
    }
    SetBitOfWord(w, j);
    w' := w + P2(j);
  }

  lemma SomeBit(w: int, p: int)
    requires p > 0 && w >= 0 && (w / p) % 2 == 1
    ensures w > 0
  {
    if w == 0 { QuotientUnique(w, p, 0, 0); }
  }

  lemma WordWeight(w: int, i: nat, j: nat)
    ensures (w + P2(j) - w) * BP(i) == P2(32 * i + j)
    ensures (w + 0 - w) * BP(i) == 0
  {
    BPIsP2(i);
    P2Add(j, 32 * i);
  }

  /** Clears the words from top up to n. */
  method ClearAbove(a: Bignum, n: nat) returns (ghost z: seq<Word>)
    requires a.top <= n <= |a.d|
    modifies a`d
    ensures |a.d| == old(|a.d|) && a.d[n..] == old(a.d[n..])
    ensures z == a.d[..n] == old(a.d[..a.top]) + Zeros(n - a.top)
  {
    ghost var s, x := a.d, a.d[..a.top];
    var k := a.top;
    assert x + Zeros(0) == x;
    while k < n
      invariant a.top <= k <= n && |a.d| == |s|
      invariant a.d[..k] == x + Zeros(k - a.top) && a.d[k..] == s[k..]
    {
      ZerosSnoc(k - a.top);
      a.d := a.d[k := 0];
      assert a.d[..k + 1] == a.d[..k] + [0];
      k := k + 1;
    }
    z := a.d[..n];
  }

  /** BN_zero followed by BN_set_bit: the number 2^n. */
  method SetPower(a: Bignum, n: nat)
    requires a.Wf()
    modifies a
    ensures a.Valid() && !a.neg && a.Mag() == P2(n)
  {
    hide Val, P2, Bignum.Mag, BitOf;
    SetWord(a, 0);
    NoBitSet(n);
    SetBit(a, n);
  }

  lemma NoBitSet(n: nat)
    ensures !BitOf(0, n)
  {
    QuotientUnique(0, P2(n), 0, 0);
  }
}
