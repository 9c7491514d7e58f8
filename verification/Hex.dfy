/** BN_bn2hex and BN_hex2bn: hexadecimal text. */
module Hex {
  import opened Words
  import opened Bits
  import opened Bignums
  import opened Ripple
  import opened Basics

  // ---------- digits

  function HexChar(v: int): (c: char)
    requires 0 <= v < 16
    ensures IsPrinted(c) && DigitValue(c) == v
  {
    "0123456789ABCDEF"[v]
  }

  /** The digits that BN_bn2hex prints. */
  predicate IsPrinted(c: char) {
    '0' <= c <= '9' || 'A' <= c <= 'F'
  }

  predicate IsHex(c: char) {
    'a' <= c <= 'f' || 'A' <= c <= 'F' || '0' <= c <= '9'
  }

  function DigitValue(c: char): (k: nat)
    ensures k < 16
  {
    if '0' <= c <= '9' then c as int - '0' as int
    else if 'a' <= c <= 'f' then c as int - 'a' as int + 10
    else if 'A' <= c <= 'F' then c as int - 'A' as int + 10
    else 0
  }

  /** The value of a digit is its place in either of the two rows. */
  lemma DigitTable(v: int)
    requires 0 <= v < 16
    ensures DigitValue("0123456789ABCDEF"[v]) == v && DigitValue("0123456789abcdef"[v]) == v
  {
    if v < 10 {
      assert "0123456789ABCDEF"[v] == "0123456789abcdef"[v] == "0123456789"[v];
    }
  }

  /** The 22 characters that count as digits. */
  lemma HexAlphabet(c: char)
    ensures IsHex(c) <==> c in "0123456789ABCDEFabcdef"
  {
    var t := "0123456789ABCDEFabcdef";
    if '0' <= c <= '9' { assert t[c as int - '0' as int] == c; }
    if 'A' <= c <= 'F' { assert t[c as int - 'A' as int + 10] == c; }
    if 'a' <= c <= 'f' { assert t[c as int - 'a' as int + 16] == c; }
  }

  function Upper(c: char): (u: char) {
    if 'a' <= c <= 'f' then "ABCDEF"[c as int - 'a' as int] else c
  }

  function UpperText(s: string): (t: string)
    ensures |t| == |s|
  {
    seq(|s|, i requires 0 <= i < |s| => Upper(s[i]))
  }

  lemma UpperDigit(c: char)
    ensures IsHex(Upper(c)) == IsHex(c) && DigitValue(Upper(c)) == DigitValue(c)
  {}

  /** Upper and lower case mean the same. */
  lemma {:induction false} CaseIgnored(s: string)
    ensures HexValue(UpperText(s)) == HexValue(s)
  {
    if s != [] {
      var u, c := s[..|s| - 1], s[|s| - 1];
      CaseIgnored(u);
      UpperDigit(c);
      assert UpperText(s)[..|s| - 1] == UpperText(u);
    }
  }

  /** Also in what is taken for the digits of a longer text. */
  lemma PrefixCaseIgnored(s: string)
    ensures HexPrefix(UpperText(s)) == HexPrefix(s)
    ensures HexValue(UpperText(s)[..HexPrefix(s)]) == HexValue(s[..HexPrefix(s)])
  {
    hide HexPrefix, HexValue;
    var i, t := HexPrefix(s), UpperText(s);
    forall k | 0 <= k < i ensures IsHex(t[..i][k]) { assert IsHex(s[..i][k]); UpperDigit(s[k]); }
    if i < |s| { UpperDigit(s[i]); }
    PrefixUnique(t, i);
    assert t[..i] == UpperText(s[..i]);
    CaseIgnored(s[..i]);
  }

  ghost predicate AllHex(s: string) {
    forall i | 0 <= i < |s| :: IsHex(s[i])
  }

  /** The number that hexadecimal digits stand for. */
  ghost function HexValue(s: string): (v: int)
    ensures v >= 0
  {
    if |s| == 0 then 0 else 16 * HexValue(s[..|s| - 1]) + DigitValue(s[|s| - 1])
  }

  lemma HexSnoc(s: string, c: char)
    ensures HexValue(s + [c]) == 16 * HexValue(s) + DigitValue(c)
  {
    assert (s + [c])[..|s|] == s;
  }

  lemma {:induction false} HexConcat(s: string, t: string)
    ensures HexValue(s + t) == HexValue(s) * P2(4 * |t|) + HexValue(t)
  {
    if t == [] {
      assert s + t == s;
    } else {
      var u, c := t[..|t| - 1], t[|t| - 1];
      HexConcat(s, u);
      assert s + t == (s + u) + [c] && t == u + [c];
      HexSnoc(s + u, c); HexSnoc(u, c);
      P2Add(4, 4 * |u|);
      assert P2(4) == 16;
      SixteenTimes(HexValue(s), P2(4 * |u|));
    }
  }

  lemma SixteenTimes(v: int, p: int)
    ensures 16 * (v * p) == v * (16 * p)
  {}

  lemma {:induction false} HexBound(s: string)
    ensures HexValue(s) < P2(4 * |s|)
  {
    if s != [] {
      HexBound(s[..|s| - 1]);
      P2Add(4, 4 * (|s| - 1));
      assert P2(4) == 16;
    }
  }

  /** A text that reads as a number: a sign, and digits of the magnitude. */
  ghost predicate ReadsAs(s: string, mag: int, neg: bool) {
    var digits := if neg then s[if s == [] then 0 else 1..] else s;
    (neg ==> s != [] && s[0] == '-') && digits != [] && AllHex(digits) && HexValue(digits) == mag
  }

  // ---------- the printed text

  ghost predicate AllPrinted(s: string) {
    forall i | 0 <= i < |s| :: IsPrinted(s[i])
  }

  /** Pairs of digits of which the first is not 00; one digit for zero. */
  ghost predicate Digits(s: string, mag: int) {
    && AllPrinted(s) && HexValue(s) == mag
    && (if mag == 0 then s == "0" else |s| % 2 == 0 && s != [] && s[..2] != "00")
  }

  /** The text of a number: a sign, and the digits of the magnitude. */
  ghost predicate HexText(s: string, mag: int, neg: bool) {
    if neg then s != [] && s[0] == '-' && Digits(s[1..], mag) else Digits(s, mag)
  }

  lemma TextReads(s: string, mag: int, neg: bool)
    requires HexText(s, mag, neg)
    ensures ReadsAs(s, mag, neg)
  {}

  /** A first pair that is not 00 puts the number at or above a power of 256. */
  lemma FirstPair(s: string)
    requires |s| >= 2 && AllPrinted(s) && s[..2] != "00"
    ensures P2(4 * (|s| - 2)) <= HexValue(s) < P2(4 * |s|)
  {
    hide HexValue, P2;
    assert s == s[..2] + s[2..];
    HexConcat(s[..2], s[2..]);
    PairValue(s[0], s[1]);
    assert s[..2] == [s[0], s[1]];
    MulMono(1, HexValue(s[..2]), P2(4 * (|s| - 2)));
    HexBound(s);
  }

  lemma PairValue(c: char, d: char)
    requires IsPrinted(c) && IsPrinted(d) && [c, d] != "00"
    ensures HexValue([c, d]) >= 1
  {
    HexSnoc([], c);
    HexSnoc([c], d);
    assert [] + [c] == [c] && [c] + [d] == [c, d];
    assert ['0', '0'] == "00";
  }

  /** Two digits for every byte of the magnitude. */
  lemma DigitCount(s: string, mag: int, bits: nat)
    requires Digits(s, mag) && mag > 0 && HasBits(mag, bits)
    ensures |s| == 2 * ((bits + 7) / 8)
  {
    hide HexValue, P2;
    FirstPair(s);
    var k := |s| / 2;
    if bits > 8 * k { P2Mono(8 * k, bits - 1); }
    if bits <= 8 * (k - 1) { P2Mono(bits, 8 * (k - 1)); }
  }

  /** A number has one text. */
  lemma TextUnique(s: string, t: string, mag: int, neg: bool)
    requires HexText(s, mag, neg) && HexText(t, mag, neg)
    ensures s == t
  {
    if neg {
      DigitsUnique(s[1..], t[1..], mag);
      assert s == [s[0]] + s[1..] && t == [t[0]] + t[1..];
    } else {
      DigitsUnique(s, t, mag);
    }
  }

  lemma DigitsUnique(s: string, t: string, mag: int)
    requires Digits(s, mag) && Digits(t, mag)
    ensures s == t
  {
    hide HexValue, P2;
    if mag != 0 {
      FirstPair(s); FirstPair(t);
      if |s| < |t| { P2Mono(4 * |s|, 4 * (|t| - 2)); }
      if |t| < |s| { P2Mono(4 * |t|, 4 * (|s| - 2)); }
      SameLengthUnique(s, t);
    }
  }

  lemma {:induction false} SameLengthUnique(s: string, t: string)
    requires |s| == |t| && AllPrinted(s) && AllPrinted(t) && HexValue(s) == HexValue(t)
    ensures s == t
  {
    if s != [] {
      var n := |s| - 1;
      SameLengthUnique(s[..n], t[..n]);
      assert s == s[..n] + [s[n]] && t == t[..n] + [t[n]];
    }
  }

  // ---------- BN_bn2hex

  /** The digits so far stand for v; there are none while v is zero. */
  ghost predicate Printed(digits: string, v: int, bytes: nat) {
    && (if digits == [] then v == 0 else v != 0 && Digits(digits, v)) && |digits| <= 2 * bytes
  }

  lemma PrintByte(digits: string, v: int, bytes: nat, b: int)
    requires Printed(digits, v, bytes) && 0 <= b < 0x100
    ensures Printed(digits + [HexChar(b / 16)] + [HexChar(b % 16)], 0x100 * v + b, bytes + 1) || (v == 0 && b == 0)
    ensures v == 0 && b == 0 ==> Printed(digits, 0, bytes + 1)
  {
    hide HexValue;
    var c, d := HexChar(b / 16), HexChar(b % 16);
    HexSnoc(digits, c);
    HexSnoc(digits + [c], d);
    NonNegativeValue(digits);
    if digits == [] {
      NoDigits("", 0);
      if b != 0 { PrintPair(c, d); }
    } else {
      assert (digits + [c] + [d])[..2] == digits[..2];
    }
  }

  lemma PrintPair(c: char, d: char)
    requires IsPrinted(c) && IsPrinted(d) && DigitValue(c) + DigitValue(d) > 0
    ensures ("" + [c] + [d])[..2] != "00"
  {
    var s, z := ("" + [c] + [d])[..2], "00";
    assert s[0] == c && s[1] == d && z[0] == z[1] == '0';
  }

  lemma NonNegativeValue(s: string)
    ensures HexValue(s) >= 0
  {}

  /** The bytes of one word, from the top: after k of them. */
  lemma WordByte(v: int, w: Word, k: nat)
    requires k < 4
    ensures v * P2(8 * (k + 1)) + w / P2(32 - 8 * (k + 1))
         == 0x100 * (v * P2(8 * k) + w / P2(32 - 8 * k)) + (w / P2(24 - 8 * k)) % 0x100
  {
    ShrShr(w, 24 - 8 * k, 8);
    P2Bytes();
    P2Add(8 * k, 8);
    QuotientBounds(w / P2(24 - 8 * k), 0x100);
    ByteTimes(v, P2(8 * k));
  }

  lemma ByteTimes(v: int, p: int)
    ensures v * (p * 0x100) == 0x100 * (v * p)
  {}

  /** The number v with the first k bytes of w behind it. */
  ghost function WithBytes(v: int, w: Word, k: nat): int
    requires k <= 4
  {
    v * P2(8 * k) + w / P2(32 - 8 * k)
  }

  lemma WordEnds(v: int, w: Word)
    ensures WithBytes(v, w, 0) == v && WithBytes(v, w, 4) == w + 0x1_0000_0000 * v
  {
    hide P2;
    P2Bytes();
    P2Zero();
    QuotientUnique(w, P2(32), 0, w);
    QuotientUnique(w, 1, w, 0);
  }

  lemma P2Zero()
    ensures P2(0) == 1
  {}

  lemma ByteStep(v: int, w: Word, k: nat)
    requires k < 4
    ensures WithBytes(v, w, k + 1) == 0x100 * WithBytes(v, w, k) + (w / P2(24 - 8 * k)) % 0x100
  {
    hide P2;
    WordByte(v, w, k);
  }

  /** The inner loop of BN_bn2hex: the four bytes of a word. */
  method PrintWord(digits0: string, w: Word, ghost v: int, ghost bytes: nat) returns (digits: string)
    requires Printed(digits0, v, bytes)
    ensures Printed(digits, w + 0x1_0000_0000 * v, bytes + 4)
  {
    hide Printed, P2, WithBytes;
    digits := digits0;
    var k := 0;
    WordEnds(v, w);
    while k < 4
      invariant 0 <= k <= 4
      invariant Printed(digits, WithBytes(v, w, k), bytes + k)
    {
      ByteStep(v, w, k);
      PrintedIs(digits, WithBytes(v, w, k), bytes + k);
      var b := (w / P2(24 - 8 * k)) % 0x100;
      PrintByte(digits, WithBytes(v, w, k), bytes + k, b);
      if digits != [] || b != 0 {
        digits := digits + [HexChar(b / 16)] + [HexChar(b % 16)];
      }
      k := k + 1;
    }
  }

  lemma PrintedIs(digits: string, v: int, bytes: nat)
    requires Printed(digits, v, bytes)
    ensures digits == [] <==> v == 0
    ensures (v != 0 ==> Digits(digits, v)) && |digits| <= 2 * bytes
  {}

  /** BN_bn2hex. With its terminating NUL the text fits the top*8+2 bytes allocated, except for -0. */
  method Bn2Hex(a: Bignum) returns (buf: string)
    requires a.Valid()
    ensures HexText(buf, a.Mag(), a.neg)
    ensures |buf| + 1 <= 8 * a.top + 2 <==> a.ProperSign()
  {
    hide Val, Printed, Digits, Bignum.Mag;
    MagIs(a);
    ghost var x := a.d[..a.top];
    var digits := "";
    var i := a.top;
    assert x[i..] == [];
    NothingPrinted();
    while i > 0
      invariant 0 <= i <= a.top && Printed(digits, Val(x[i..]), 4 * (a.top - i))
    {
      i := i - 1;
      LowWord(x[i..]);
      assert x[i..][1..] == x[i + 1..];
      digits := PrintWord(digits, a.d[i], Val(x[i + 1..]), 4 * (a.top - (i + 1)));
    }
    assert x[0..] == x;
    PrintedIs(digits, Val(x), 4 * a.top);
    ZeroMag(a);
    if a.top == 0 { digits := "0"; ZeroText(); }
    buf := (if a.neg then "-" else "") + digits;
    if a.neg { assert buf[1..] == digits; } else { assert buf == digits; }
  }

  lemma NothingPrinted()
    ensures Printed("", Val([]), 0)
  {
    NoWords();
  }

  lemma ZeroText()
    ensures HexValue("0") == 0 && AllHex("0") && Digits("0", 0)
  {
    HexSnoc("", '0');
    assert "" + ['0'] == "0";
  }

  // ---------- BN_hex2bn

  /** The length of the hexadecimal digits that s begins with. */
  ghost function HexPrefix(s: string): (n: nat)
    ensures n <= |s| && AllHex(s[..n]) && (n < |s| ==> !IsHex(s[n]))
  {
    if s != [] && IsHex(s[0]) then
      var n := 1 + HexPrefix(s[1..]);
      assert AllHex(s[..n]) by {
        forall i | 0 <= i < n ensures IsHex(s[i]) { if i > 0 { assert s[i] == s[1..][..n - 1][i - 1]; } }
      }
      n
    else 0
  }

  lemma PrefixUnique(s: string, i: nat)
    requires i <= |s| && AllHex(s[..i]) && (i < |s| ==> !IsHex(s[i]))
    ensures HexPrefix(s) == i
  {
    var n := HexPrefix(s);
    if n < i { HexInside(s, i, n); }
    if i < n { HexInside(s, n, i); }
  }

  lemma HexInside(s: string, n: nat, i: nat)
    requires i < n <= |s| && AllHex(s[..n])
    ensures IsHex(s[i])
  {
    assert s[..n][i] == s[i];
  }

  /** The scan for digits. */
  method CountDigits(s: string) returns (i: nat)
    ensures i == HexPrefix(s)
  {
    i := 0;
    while i < |s| && IsHex(s[i])
      invariant i <= |s| && AllHex(s[..i])
    {
      i := i + 1;
    }
    PrefixUnique(s, i);
  }

  /** The inner loop: up to eight digits make a word. */
  method DigitsWord(a: string, j: nat, m: nat) returns (l: Word)
    requires 0 < m <= 8 && m <= j <= |a|
    ensures l == HexValue(a[j - m..j])
  {
    hide HexValue, P2;
    var k := 0;
    l := 0;
    NoDigits(a, j - m);
    while k < m
      invariant 0 <= k <= m && l == HexValue(a[j - m..j - m + k])
    {
      ghost var t := a[j - m..j - m + k];
      assert a[j - m..j - m + (k + 1)] == t + [a[j - m + k]];
      HexSnoc(t, a[j - m + k]);
      HexBound(a[j - m..j - m + (k + 1)]);
      EightDigits(k + 1);
      l := 16 * l + DigitValue(a[j - m + k]);
      k := k + 1;
    }
  }

  lemma NoDigits(a: string, i: nat)
    requires i <= |a|
    ensures HexValue(a[i..i]) == 0
  {
    assert a[i..i] == [];
  }

  lemma EightDigits(k: nat)
    requires k <= 8
    ensures P2(4 * k) <= 0x1_0000_0000
  {
    P2Bytes();
    P2Mono(4 * k, 32);
  }

  /** The outer loop: the i digits of a, from the last to the first, into words. */
  method DigitsToWords(ret: Bignum, a: string, i: nat) returns (h: nat)
    requires i <= |a| && (4 * i + 31) / 32 < |ret.d|
    modifies ret`d
    ensures |ret.d| == old(|ret.d|) && h < |ret.d| && Val(ret.d[..h]) == HexValue(a[..i])
  {
    hide Val, HexValue, P2, BP;
    var j: int := i;
    h := 0;
    NoDigits(a, i);
    NoWords();
    assert ret.d[..0] == [];
    ghost var rest: nat := i;
    while j > 0
      invariant |ret.d| == old(|ret.d|) && h <= (4 * i + 31) / 32
      invariant rest == (if j > 0 then j else 0) <= i && (j > 0 ==> i - j == 8 * h)
      invariant Val(ret.d[..h]) == HexValue(a[rest..i])
    {
      var m := if 8 <= j then 8 else j;
      var l := DigitsWord(a, j, m);
      WordOfDigits(a, j, m, i, h, ret.d, l);
      ret.d := ret.d[h := l];
      h := h + 1;
      j := j - 8;
      rest := rest - m;
    }
    assert a[..i] == a[0..i];
  }

  lemma WordOfDigits(a: string, j: nat, m: nat, i: nat, h: nat, d: seq<Word>, l: Word)
    requires m <= j <= i <= |a| && i - j == 8 * h < 8 * |d| && l == HexValue(a[j - m..j])
    requires Val(d[..h]) == HexValue(a[j..i])
    ensures Val(d[h := l][..h + 1]) == HexValue(a[j - m..i])
  {
    hide Val, HexValue;
    assert d[h := l][..h + 1] == d[..h] + [l];
    ValSnoc(d[..h], l);
    assert a[j - m..i] == a[j - m..j] + a[j..i];
    HexConcat(a[j - m..j], a[j..i]);
    BPIsP2(h);
  }

  /** BN_hex2bn into an existing number: the sign, and the digits up to the first other character.
      The count of characters used is returned; nothing changes for an empty string. */
  method Hex2Bn(ret: Bignum, s: string) returns (num: nat)
    requires ret.Wf()
    modifies ret
    ensures s == [] ==> num == 0 && unchanged(ret)
    ensures s != [] ==> ret.Valid() && ret.neg == (s[0] == '-')
    ensures s != [] ==> var a := if s[0] == '-' then s[1..] else s;
                        num == |s| - |a| + HexPrefix(a) && ret.Mag() == HexValue(a[..HexPrefix(a)])
  {
    hide Val, HexValue, Bignum.Mag;
    if |s| == 0 { return 0; }
    var neg := s[0] == '-';
    var a := if neg then s[1..] else s;
    var i := CountDigits(a);
    num := i + if neg then 1 else 0;
    SetWord(ret, 0);
    WExpand(ret, (4 * i + 31) / 32);
    var h := DigitsToWords(ret, a, i);
    ret.top := h;
    MagIs(ret);
    FixTop(ret);
    ret.neg := neg;
  }

  /** Reading the text of a number gives back its magnitude and its sign, that of zero included. */
  lemma HexRoundTrip(s: string, mag: int, neg: bool)
    requires ReadsAs(s, mag, neg)
    ensures s != [] && (s[0] == '-') == neg
    ensures var a := if s[0] == '-' then s[1..] else s; HexPrefix(a) == |a| && HexValue(a[..HexPrefix(a)]) == mag
  {
    var digits := if neg then s[1..] else s;
    assert IsHex(digits[0]);
    assert digits[..|digits|] == digits;
    PrefixUnique(digits, |digits|);
  }

  /** BN_bn2hex and then BN_hex2bn: the same number, and the whole text is used. */
  method ThroughHex(ret: Bignum, a: Bignum) returns (s: string, num: nat)
    requires ret.Wf() && a.Valid()
    modifies ret
    ensures ret.Valid() && ret.Mag() == old(a.Mag()) && ret.neg == old(a.neg) && num == |s|
  {
    hide Val, HexValue, HexPrefix, HexText, ReadsAs, Bignum.Mag;
    s := Bn2Hex(a);
    TextReads(s, a.Mag(), a.neg);
    HexRoundTrip(s, a.Mag(), a.neg);
    num := Hex2Bn(ret, s);
  }
}
