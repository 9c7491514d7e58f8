/** BN_div: normalised long division with a window that slides down the dividend. */
module LongDivision {
  import opened Words
  import opened Bignums
  import opened WordLoops
  import opened Ripple
  import opened Basics
  import opened AddSub
  import opened QuotientDigit

  // ---------- the window wnum

  /** The t words at o are the window, of value v and normalised; the words from there to hi are zero. */
  ghost predicate Window(u: seq<Word>, o: nat, t: nat, hi: nat, v: int) {
    o + t <= hi <= |u| && Val(u[o..o + t]) == v && (t > 0 ==> u[o + t - 1] != 0)
    && u[o + t..hi] == Zeros(hi - (o + t))
  }

  /** Taking in the zero words above the window does not change its value. */
  lemma WindowWide(u: seq<Word>, o: nat, t: nat, hi: nat, v: int, m: nat)
    requires Window(u, o, t, hi, v) && t <= m && o + m <= hi
    ensures Val(u[o..o + m]) == v && u[o + m..hi] == Zeros(hi - (o + m))
  {
    hide Val, Zeros;
    ZerosSlice(hi - (o + t), m - t);
    SliceSplit(u, o, t, m, hi);
    ValPad(u[o..o + t], m - t);
  }

  lemma SliceSplit(u: seq<Word>, o: nat, t: nat, m: nat, hi: nat)
    requires t <= m && o + m <= hi <= |u|
    ensures u[o..o + m] == u[o..o + t] + u[o + t..hi][..m - t] && u[o + m..hi] == u[o + t..hi][m - t..]
  {}

  lemma {:induction false} ZerosSlice(k: nat, j: nat)
    requires j <= k
    ensures Zeros(k)[..j] == Zeros(j) && Zeros(k)[j..] == Zeros(k - j)
  {
    if j < k {
      ZerosSlice(k - 1, j);
      assert Zeros(k)[j..] == Zeros(k - 1)[j..] + [0];
      assert Zeros(k)[..j] == Zeros(k - 1)[..j];
    } else {
      assert Zeros(k)[k..] == [] && Zeros(k)[..k] == Zeros(k);
    }
  }

  lemma ZerosFront(k: nat)
    ensures [0] + Zeros(k) == Zeros(k + 1)
  {
    ZerosSlice(k + 1, 1);
    assert Zeros(k + 1) == Zeros(k + 1)[..1] + Zeros(k + 1)[1..];
    assert Zeros(1) == [0];
  }

  lemma WindowShort(u: seq<Word>, o: nat, t: nat, hi: nat, v: int, n: nat)
    requires Window(u, o, t, hi, v) && v < BP(n)
    ensures t <= n
  {
    if t > n {
      TopWordNonzero(u[o..o + t]);
      BPMono(n, t - 1);
    }
  }

  /** BN_usub into the window, followed by its bn_fix_top; one operand may be the window itself. */
  method SubWindow(s: Bignum, o: nat, ghost hi: nat, a: Bignum, ao: nat, at: nat, b: Bignum, bo: nat, bt: nat)
    returns (t: nat)
    requires bt <= at && o + at <= hi <= |s.d| && ao + at <= |a.d| && bo + bt <= |b.d|
    requires (a == s ==> ao == o) && (b == s ==> bo == o)
    requires Val(b.d[bo..bo + bt]) <= Val(a.d[ao..ao + at])
    requires s.d[o + at..hi] == Zeros(hi - (o + at))
    modifies s`d
    ensures |s.d| == old(|s.d|) && s.d[..o] == old(s.d[..o])
    ensures t <= at && Window(s.d, o, t, hi, Val(old(a.d[ao..ao + at])) - Val(old(b.d[bo..bo + bt])))
  {
    hide Val, Zeros;
    ghost var u := s.d;
    ghost var z := SubSlices(s, o, a, ao, at, b, bo, bt);
    SpliceSlice(u, o, z);
    SpliceKeeps(u, o, z, o + at, hi);
    SpliceKeeps(u, o, z, 0, o);
    t := TrimWindow(s, o, at, hi);
  }

  /** bn_fix_top of the window. */
  method TrimWindow(s: Bignum, o: nat, at: nat, ghost hi: nat) returns (t: nat)
    requires o + at <= hi <= |s.d| && s.d[o + at..hi] == Zeros(hi - (o + at))
    ensures t <= at && Window(s.d, o, t, hi, Val(s.d[o..o + at]))
  {
    hide Val, Zeros;
    t := at;
    while t > 0 && s.d[o + t - 1] == 0
      invariant t <= at && Val(s.d[o..o + t]) == Val(s.d[o..o + at])
      invariant s.d[o + t..hi] == Zeros(hi - (o + t))
    {
      DropZero(s.d[o..o + t]);
      assert s.d[o..o + t][..t - 1] == s.d[o..o + (t - 1)];
      ZerosFront(hi - (o + t));
      assert s.d[o + t - 1..hi] == [0] + s.d[o + t..hi];
      t := t - 1;
    }
  }

  // ---------- one digit

  /** Three leading words of a sequence, or of its first words. */
  lemma LeadingThree(x: seq<Word>)
    requires |x| >= 3
    ensures var n, k := (x[|x| - 1] as int * 0x1_0000_0000 + x[|x| - 2]) * 0x1_0000_0000 + x[|x| - 3], |x| - 3;
            n * BP(k) <= Val(x) < (n + 1) * BP(k)
  {
    var k := |x| - 3;
    assert x == x[..k] + x[k..];
    ValConcat(x[..k], x[k..]);
    ValBound(x[..k]);
    LowWord(x[k..]); LowWord(x[k..][1..]);
    assert x[k..][1..] == [x[k + 1]] + [x[k + 2]];
    assert x[k..][1..][1..] == [x[k + 2]];
    OneWord(x[k + 2]);
    Commute(BP(k), Val(x[k..]));
  }

  lemma LeadingTwo(x: seq<Word>)
    requires |x| >= 2
    ensures var n, k := x[|x| - 1] as int * 0x1_0000_0000 + x[|x| - 2], |x| - 2;
            n * BP(k) <= Val(x) < (n + 1) * BP(k)
  {
    var k := |x| - 2;
    assert x == x[..k] + x[k..];
    ValConcat(x[..k], x[k..]);
    ValBound(x[..k]);
    LowWord(x[k..]);
    assert x[k..][1..] == [x[k + 1]];
    OneWord(x[k + 1]);
    Commute(BP(k), Val(x[k..]));
  }

  lemma LeadingOne(x: seq<Word>)
    requires x != []
    ensures x[|x| - 1] * BP(|x| - 1) <= Val(x) < (x[|x| - 1] + 1) * BP(|x| - 1)
  {
    var k := |x| - 1;
    ValBound(x[..k]);
    Distribute(x[k], 1, BP(k));
  }

  /** The leading word of a number below v is at most the leading word of v. */
  lemma LeadingOrder(x: seq<Word>, y: seq<Word>)
    requires |x| == |y| > 0 && Val(x) < Val(y)
    ensures x[|x| - 1] <= y[|y| - 1]
  {
    hide Val;
    LeadingOne(x); LeadingOne(y);
    var a, b: int := x[|x| - 1], y[|y| - 1];
    if a > b { MulMono(b + 1, a, BP(|x| - 1)); }
  }

  /** x is the window with the next dividend word below it, w the words under that one. */
  lemma DigitClose(x: seq<Word>, n2: Word, y: seq<Word>, q: Word)
    requires |y| > 0 && |x| == |y| + 1 && y[|y| - 1] >= 0x8000_0000
    requires Val(x) < Val(y) * 0x1_0000_0000
    requires var n, d0 := |x|, y[|y| - 1];
             && (n > 2 ==> n2 == x[n - 3])
             && x[n - 1] <= d0
             && (x[n - 1] == d0 ==> q == 0xFFFF_FFFF)
             && (x[n - 1] < d0 ==> ExactDigit(q, d0 as int * 0x1_0000_0000 + (if n == 2 then 0 else y[n - 3]),
                                              (x[n - 1] as int * 0x1_0000_0000 + x[n - 2]) * 0x1_0000_0000 + n2))
    ensures CloseDigit(q, Val(y), Val(x))
  {
    hide Val, ExactDigit, CloseDigit;
    var n, d0 := |x|, y[|y| - 1];
    if x[n - 1] == d0 {
      LeadingOne(x); LeadingOne(y);
      MaskLength(d0, n - 2);
      MaskDigit(Val(x), Val(y), d0, BP(n - 2));
    } else if n == 2 {
      TwoWords(x);
      OneWord(d0); assert y == [d0];
      OneWordDigit(Val(x), Val(y), n2, q);
    } else {
      LeadingThree(x); LeadingTwo(y);
      LeadingDigit(Val(x), Val(y), (x[n - 1] as int * 0x1_0000_0000 + x[n - 2]) * 0x1_0000_0000 + n2,
                   d0 as int * 0x1_0000_0000 + y[n - 3], BP(n - 3), q);
    }
  }

  lemma MaskLength(d: int, k: nat)
    ensures d * BP(k + 1) == (d * 0x1_0000_0000) * BP(k)
  {}

  lemma TwoWords(x: seq<Word>)
    requires |x| == 2
    ensures Val(x) == x[1] as int * 0x1_0000_0000 + x[0]
  {
    LowWord(x);
    assert x[1..] == [x[1]];
    OneWord(x[1]);
  }

  /** tmp = q times the divisor, with its leading zero words dropped. */
  method MulDigit(tmp: Bignum, sdiv: Bignum, n: nat, q: Word)
    requires tmp != sdiv && n + 1 < |tmp.d| && n <= |sdiv.d|
    modifies tmp`d, tmp`top
    ensures |tmp.d| == old(|tmp.d|) && tmp.Valid() && tmp.top <= n + 1
    ensures Val(tmp.d[..tmp.top]) == Times(q, Val(sdiv.d[..n]))
  {
    hide Val, Bignum.Mag, Scaled;
    ghost var s, y := tmp.d, sdiv.d[..n];
    assert sdiv.d[0..0 + n] == y;
    var c;
    ghost var z;
    c, z := MulWords(tmp, 0, sdiv, 0, n, q);
    tmp.d := tmp.d[n := c];
    tmp.top := n + 1;
    ProductWords(y, q, z, c);
    assert tmp.d[..n + 1] == z + [c];
    MagIs(tmp);
    FixTop(tmp);
    MagIs(tmp);
  }

  lemma ProductWords(y: seq<Word>, q: Word, z: seq<Word>, c: Word)
    requires |z| == |y| && Scaled(z, c, y, q, 0)
    ensures Val(z + [c]) == Times(q, Val(y))
  {
    ValSnoc(z, c);
    Commute(Val(y), q);
  }

  /** The digit for the window at o with the next dividend word o - 1 taken in: the C code reads
      wnump[0], wnump[-1] and wnump[-2], the last being word 0 of snum in the last pass of n = 1. */
  method NextDigit(snum: Bignum, sdiv: Bignum, o: nat, ghost t: nat, n: nat, ghost hi: nat, ghost v: int)
    returns (q: Word)
    requires 2 <= o && 0 < n <= |sdiv.d| && o + n <= hi && sdiv.d[n - 1] >= 0x8000_0000
    requires Window(snum.d, o, t, hi, v) && 0 <= v < Val(sdiv.d[..n]) && t <= n
    ensures CloseDigit(q, Val(sdiv.d[..n]), snum.d[o - 1] + 0x1_0000_0000 * v)
  {
    hide Val, Zeros, ExactDigit, CloseDigit;
    ghost var x, y := snum.d[o - 1..o + n], sdiv.d[..n];
    WindowWide(snum.d, o, t, hi, v, n);
    assert x[1..] == snum.d[o..o + n];
    LowWord(x);
    LeadingOrder(x[1..], y);
    var d0 := sdiv.d[n - 1];
    var d1: Word := if n == 1 then 0 else sdiv.d[n - 2];
    q := DivDigit(snum.d[o + n - 1], snum.d[o + n - 2], snum.d[o + n - 3], d0, d1);
    DigitClose(x, snum.d[o + n - 3], y, q);
  }

  /** Where the length decides a comparison: the longer of the window and tmp is the larger. */
  lemma WindowOrder(u: seq<Word>, o: nat, t: nat, hi: nat, v: int, x: seq<Word>)
    requires Window(u, o, t, hi, v) && o > 0
    requires x != [] ==> x[|x| - 1] != 0
    ensures o + t <= hi <= |u| && u[o - 1] + 0x1_0000_0000 * v == Val(u[o - 1..o + t]) < BP(t + 1)
    ensures u[o + t..hi] == Zeros(hi - (o + t))
    ensures t + 1 > |x| ==> Val(x) <= u[o - 1] + 0x1_0000_0000 * v
    ensures t + 1 < |x| ==> u[o - 1] + 0x1_0000_0000 * v < Val(x)
  {
    hide Val;
    var w := u[o - 1..o + t];
    LowWord(w);
    ValBound(w);
    assert w[1..] == u[o..o + t];
    if |w| > |x| {
      if t > 0 { LongerIsLarger(w, x); } else { NoWords(); }
    }
    if |w| < |x| { LongerIsLarger(x, w); }
  }

  /** BN_sub(&wnum, &wnum, tmp) and, if the digit was one too large, BN_add(&wnum, &wnum, sdiv). */
  method SubtractDigit(snum: Bignum, sdiv: Bignum, tmp: Bignum, o: nat, t: nat, n: nat, q0: Word,
                       ghost hi: nat, ghost v: int)
    returns (q: Word, t': nat, ghost v': int)
    requires snum != sdiv && snum != tmp && sdiv != tmp
    requires 2 <= o && 0 < n <= |sdiv.d| && o + n <= hi && sdiv.d[n - 1] != 0
    requires Window(snum.d, o, t, hi, v) && 0 <= v < Val(sdiv.d[..n]) && t <= n
    requires tmp.Valid() && tmp.top <= n + 1 && Val(tmp.d[..tmp.top]) == Times(q0, Val(sdiv.d[..n]))
    requires CloseDigit(q0, Val(sdiv.d[..n]), snum.d[o - 1] + 0x1_0000_0000 * v)
    modifies snum`d
    ensures |snum.d| == old(|snum.d|) && snum.d[..o - 1] == old(snum.d[..o - 1])
    ensures Window(snum.d, o - 1, t', hi, v') && 0 <= v' < Val(sdiv.d[..n]) && t' <= n && t' <= t + 1
    ensures old(snum.d[o - 1]) + 0x1_0000_0000 * v == Times(q, Val(sdiv.d[..n])) + v'
  {
    hide Val, Zeros, Times, CloseDigit, Window, BP;
    ghost var u, x, y := snum.d, tmp.d[..tmp.top], sdiv.d[..n];
    WindowOrder(u, o, t, hi, v, x);
    ghost var vv, w := Val(y), u[o - 1] + 0x1_0000_0000 * v;
    assert tmp.d[0..0 + tmp.top] == x && sdiv.d[0..0 + n] == y;
    q := q0;
    CloseDigitIs(q0, vv, w);
    var o1, t1 := o - 1, t + 1;
    var c := CmpSlices(snum, o1, t1, tmp, 0, tmp.top);
    if c >= 0 {
      t' := SubWindow(snum, o1, hi, snum, o1, t1, tmp, 0, tmp.top);
      v' := w - Times(q0, vv);
    } else {
      WindowWide(u, o, t, hi, v, tmp.top - 1);
      t' := SubWindow(snum, o1, hi, tmp, 0, tmp.top, snum, o1, t1);
      q := q - 1;
      v' := Times(q0, vv) - w;
      t', v' := AddBack(snum, sdiv, o1, t', n, hi, v');
    }
    ValBound(y);
    WindowShort(snum.d, o1, t', hi, v', n);
    NotLonger(q, vv, v', w);
    WindowShort(snum.d, o1, t', hi, v', t + 1);
  }

  lemma NotLonger(q: int, vv: int, v: int, w: int)
    requires q >= 0 && vv >= 0 && w == Times(q, vv) + v
    ensures v <= w
  {
    MulMono(0, q, vv);
  }

  /** BN_add of the divisor to a negative window of magnitude v. */
  method AddBack(snum: Bignum, sdiv: Bignum, o: nat, t: nat, n: nat, ghost hi: nat, ghost v: int)
    returns (t': nat, ghost v': int)
    requires snum != sdiv && 0 < n <= |sdiv.d| && o + n <= hi && sdiv.d[n - 1] != 0
    requires Window(snum.d, o, t, hi, v) && 0 < v <= Val(sdiv.d[..n])
    modifies snum`d
    ensures |snum.d| == old(|snum.d|) && snum.d[..o] == old(snum.d[..o])
    ensures v' == Val(sdiv.d[..n]) - v && Window(snum.d, o, t', hi, v') && t' <= n
  {
    hide Val, Zeros;
    ghost var u, y := snum.d, sdiv.d[..n];
    assert sdiv.d[0..0 + n] == y;
    ValBound(y);
    WindowShort(u, o, t, hi, v, n);
    WindowWide(u, o, t, hi, v, n);
    if n > t { LongerIsLarger(y, u[o..o + t]); }
    var c := CmpSlices(sdiv, 0, n, snum, o, t);   // never negative
    t' := SubWindow(snum, o, hi, sdiv, 0, n, snum, o, t);
    v' := Val(y) - v;
  }

  /** One pass of the division loop: the digit for the window at o, and the window at o - 1. */
  method DivisionStep(snum: Bignum, sdiv: Bignum, tmp: Bignum, o: nat, t: nat, n: nat, ghost hi: nat, ghost v: int)
    returns (q: Word, t': nat, ghost v': int)
    requires snum != sdiv && snum != tmp && sdiv != tmp && n + 1 < |tmp.d|
    requires 2 <= o && 0 < n <= |sdiv.d| && o + n <= hi && sdiv.d[n - 1] >= 0x8000_0000
    requires Window(snum.d, o, t, hi, v) && 0 <= v < Val(sdiv.d[..n]) && t <= n
    modifies snum`d, tmp`d, tmp`top
    ensures |snum.d| == old(|snum.d|) && snum.d[..o - 1] == old(snum.d[..o - 1]) && |tmp.d| == old(|tmp.d|)
    ensures Window(snum.d, o - 1, t', hi, v') && 0 <= v' < Val(sdiv.d[..n]) && t' <= n && t' <= t + 1
    ensures old(snum.d[o - 1]) + 0x1_0000_0000 * v == Times(q, Val(sdiv.d[..n])) + v'
  {
    hide Val, Zeros, Times, CloseDigit, Window;
    q := NextDigit(snum, sdiv, o, t, n, hi, v);
    MulDigit(tmp, sdiv, n, q);
    q, t', v' := SubtractDigit(snum, sdiv, tmp, o, t, n, q, hi, v);
  }

  // ---------- all digits

  /** The dividend words from o up are the window plus the divisor vv times the digits so far. */
  ghost predicate Divided(x: seq<Word>, o: nat, v: int, digits: seq<Word>, vv: int)
    requires o <= |x|
  {
    Val(x[o..]) == v + Times(Val(digits), vv)
  }

  lemma DigitBelow(d: seq<Word>, o: nat, top: nat, q: Word)
    requires 2 <= o <= top + 1 <= |d| + 1
    ensures d[o - 2 := q][o - 2..top] == [q] + d[o - 1..top]
    ensures top > o - 1 ==> d[o - 2 := q][top - 1] == d[top - 1]
  {}

  lemma PrefixOfPrefix(u: seq<Word>, x: seq<Word>, o: nat)
    requires 0 < o <= |u| && o <= |x|
    ensures u[..o] == x[..o] ==> u[..o - 1] == x[..o - 1]
    ensures u[..o - 1] == x[..o][..o - 1] ==> u[..o - 1] == x[..o - 1]
  {
    assert u[..o][..o - 1] == u[..o - 1] && x[..o][..o - 1] == x[..o - 1];
  }

  lemma DividedStep(x: seq<Word>, o: nat, v: int, digits: seq<Word>, vv: int, q: Word, v': int)
    requires 0 < o <= |x| && Divided(x, o, v, digits, vv)
    requires x[o - 1] + 0x1_0000_0000 * v == Times(q, vv) + v'
    ensures Divided(x, o - 1, v', [q] + digits, vv)
  {
    hide Val;
    LowWord(x[o - 1..]);
    assert x[o - 1..][1..] == x[o..];
    LowWord([q] + digits);
    assert ([q] + digits)[1..] == digits;
    DigitsSum(q, Val(digits), vv);
  }

  lemma DigitsSum(q: int, d: int, vv: int)
    ensures (q + 0x1_0000_0000 * d) * vv == q * vv + 0x1_0000_0000 * (d * vv)
  {}

  /** A normalised divisor is at least half of all the numbers of its length. */
  lemma HalfRange(y: seq<Word>)
    requires y != [] && y[|y| - 1] >= 0x8000_0000
    ensures 2 * Val(y) >= BP(|y|) > 0
  {
    hide Val;
    LeadingOne(y);
    MulMono(0x8000_0000, y[|y| - 1], BP(|y| - 1));
  }

  /** The first digit, 0 or 1; a zero is not stored but shortens the result. */
  method FirstDigit(res: Bignum, snum: Bignum, sdiv: Bignum, loop: nat, n: nat)
    returns (t: nat, ghost v: int)
    requires snum != sdiv && res != snum && res != sdiv
    requires 0 < loop < |res.d| && 0 < n <= |sdiv.d| && sdiv.d[n - 1] >= 0x8000_0000
    requires snum.Valid() && snum.top == loop + n
    modifies res`d, res`top, snum`d
    ensures |res.d| == old(|res.d|) && |snum.d| == old(|snum.d|) && snum.d[..loop] == old(snum.d[..loop])
    ensures loop - 1 <= res.top <= loop && (res.top == loop ==> res.d[loop - 1] == 1)
    ensures t <= n && Window(snum.d, loop, t, loop + n, v) && 0 <= v < Val(sdiv.d[..n])
    ensures Divided(old(snum.d[..snum.top]), loop, v, res.d[loop - 1..res.top], Val(sdiv.d[..n]))
  {
    hide Val, Times;
    ghost var x, y := snum.d[..snum.top], sdiv.d[..n];
    assert snum.d[loop..loop + n] == x[loop..] && sdiv.d[0..0 + n] == y;
    res.top := loop;
    t, v := n, Val(x[loop..]);
    var c := CmpSlices(snum, loop, n, sdiv, 0, n);
    HalfRange(y);
    ValBound(x[loop..]);
    TimesSmall(Val(y));
    OneWord(1);
    if c >= 0 {
      assert snum.d[loop + n..loop + n] == [];
      t := SubWindow(snum, loop, loop + n, snum, loop, n, sdiv, 0, n);
      v := v - Val(y);
      res.d := res.d[loop - 1 := 1];
      assert res.d[loop - 1..res.top] == [1];
    } else {
      res.top := loop - 1;
      assert snum.d[loop + n..loop + n] == [];
      assert res.d[loop - 1..res.top] == [];
    }
  }

  lemma TimesSmall(v: int)
    ensures Times(0, v) == 0 && Times(1, v) == v
  {}

  /** The loop of BN_div: snum is consumed, the digits are stored in res. */
  method DivideWords(res: Bignum, snum: Bignum, sdiv: Bignum, tmp: Bignum, loop: nat, n: nat)
    returns (ghost v: int)
    requires snum != sdiv && snum != tmp && sdiv != tmp && res != snum && res != sdiv && res != tmp
    requires 0 < loop < |res.d| && 0 < n <= |sdiv.d| && sdiv.d[n - 1] >= 0x8000_0000 && n + 1 < |tmp.d|
    requires snum.Valid() && snum.top == loop + n
    modifies res`d, res`top, res`neg, snum`d, snum`top, tmp`d, tmp`top
    ensures res.neg == (old(res.neg) && (loop > 1 || res.top > 0))
    ensures snum.Wf() && 1 <= snum.top && snum.d[0] == old(snum.d[0]) && Val(snum.d[1..snum.top]) == v
    ensures 0 <= v < Val(sdiv.d[..n])
    ensures res.Wf() && loop - 1 <= res.top <= loop && (res.top == loop ==> res.d[loop - 1] == 1)
    ensures Divided(old(snum.d[..snum.top]), 1, v, res.d[..res.top], Val(sdiv.d[..n]))
  {
    hide Val, Times, Divided, Zeros, Window;
    ghost var x, hi := snum.d[..snum.top], snum.top;
    var t: nat;
    t, v := FirstDigit(res, snum, sdiv, loop, n);
    if res.top == 0 { res.neg := false; }
    ghost var top := res.top;
    ghost var e := n - t;
    var o: nat := loop;
    while o > 1
      invariant 1 <= o <= loop && t <= n && Window(snum.d, o, t, hi, v) && 0 <= v < Val(sdiv.d[..n])
      invariant |snum.d| == old(|snum.d|) && snum.d[..o] == x[..o] && snum.top == o + t + e <= hi
      invariant n + 1 < |tmp.d|
      invariant |res.d| == old(|res.d|) && res.top == top && (top == loop ==> res.d[loop - 1] == 1)
      invariant Divided(x, o, v, res.d[o - 1..top], Val(sdiv.d[..n]))
      modifies res`d, snum`d, snum`top, tmp`d, tmp`top
    {
      var q, t': nat;
      ghost var v';
      assert snum.d[o - 1] == x[..o][o - 1];
      q, t', v' := DivisionStep(snum, sdiv, tmp, o, t, n, hi, v);
      snum.top := snum.top + t' - (t + 1);
      DividedStep(x, o, v, res.d[o - 1..top], Val(sdiv.d[..n]), q, v');
      ghost var digits := res.d[o - 1..top];
      DigitBelow(res.d, o, top, q);
      res.d := res.d[o - 2 := q];
      PrefixOfPrefix(snum.d, x, o);
      o, t, v := o - 1, t', v';
    }
    WindowWide(snum.d, o, t, hi, v, snum.top - 1);
    assert res.d[0..top] == res.d[..top];
    assert snum.d[0] == snum.d[..1][0];
  }
}
