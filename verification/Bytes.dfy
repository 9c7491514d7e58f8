/** BN_bin2bn and BN_bn2bin: big-endian byte strings. */
module Bytes {
  import opened Words
  import opened Bits
  import opened Bignums
  import opened Ripple
  import opened Basics

  type Byte = b: int | 0 <= b < 0x100

  /** The number a byte string stands for, most significant byte first. */
  ghost function BytesValue(s: seq<Byte>): (v: int)
    ensures v >= 0
  {
    if |s| == 0 then 0 else 0x100 * BytesValue(s[..|s| - 1]) + s[|s| - 1]
  }

  lemma BytesSnoc(s: seq<Byte>, b: Byte)
    ensures BytesValue(s + [b]) == 0x100 * BytesValue(s) + b
  {
    assert (s + [b])[..|s|] == s;
  }

  /** s without its leading zero bytes. */
  ghost function Stripped(s: seq<Byte>): (r: seq<Byte>)
    ensures r != [] ==> r[0] != 0
  {
    if s != [] && s[0] == 0 then Stripped(s[1..]) else s
  }

  lemma {:induction false} ZeroFront(s: seq<Byte>)
    ensures BytesValue([0] + s) == BytesValue(s)
  {
    if s == [] {
      assert [0] + s == [] + [0];
      BytesSnoc([], 0);
    } else {
      var u, b := s[..|s| - 1], s[|s| - 1];
      ZeroFront(u);
      assert [0] + s == ([0] + u) + [b] && s == u + [b];
      BytesSnoc([0] + u, b); BytesSnoc(u, b);
    }
  }

  lemma {:induction false} StrippedValue(s: seq<Byte>)
    ensures BytesValue(Stripped(s)) == BytesValue(s)
  {
    if s != [] && s[0] == 0 {
      StrippedValue(s[1..]);
      ZeroFront(s[1..]);
      assert s == [0] + s[1..];
    }
  }

  lemma {:induction false} NonzeroFront(s: seq<Byte>)
    requires s != [] && s[0] != 0
    ensures BytesValue(s) > 0
  {
    if |s| > 1 { NonzeroFront(s[..|s| - 1]); }
  }

  /** Without leading zeros the bytes are determined by the number. */
  lemma {:induction false} BytesUnique(s: seq<Byte>, t: seq<Byte>)
    requires BytesValue(s) == BytesValue(t)
    requires (s != [] ==> s[0] != 0) && (t != [] ==> t[0] != 0)
    ensures s == t
  {
    if s == [] || t == [] {
      if s != [] { NonzeroFront(s); }
      if t != [] { NonzeroFront(t); }
    } else {
      var u, v := s[..|s| - 1], t[..|t| - 1];
      SameDigits(BytesValue(u), s[|s| - 1], BytesValue(v), t[|t| - 1]);
      BytesUnique(u, v);
      assert s == u + [s[|s| - 1]] && t == v + [t[|t| - 1]];
    }
  }

  lemma SameDigits(p: int, a: Byte, q: int, b: Byte)
    requires 0x100 * p + a == 0x100 * q + b
    ensures p == q && a == b
  {}

  // ---------- BN_bin2bn

  lemma StoreWord(z: seq<Word>, v: int, l: Word, c: nat)
    requires v == Val(z) * P2(8 * c) + l && (z == [] || c == 4)
    ensures Val([l] + z) == v
  {
    hide Val;
    LowWord([l] + z);
    assert ([l] + z)[1..] == z;
    if z == [] { NoWords(); } else { P2Bytes(); }
  }

  lemma NextByte(v: int, z: int, l: int, c: nat, b: Byte)
    requires v == z * P2(8 * c) + l
    ensures 0x100 * v + b == z * P2(8 * (c + 1)) + (0x100 * l + b)
    ensures 0 <= l < P2(8 * c) ==> 0x100 * l + b < P2(8 * (c + 1))
  {
    P2Bytes();
    P2Add(8 * c, 8);
    Regroup(z, P2(8 * c));
  }

  lemma Regroup(z: int, p: int)
    ensures 0x100 * (z * p) == z * (p * 0x100)
  {}

  lemma ByteRoom(l: int, c: nat)
    requires 0 <= l < P2(8 * c) && c <= 4
    ensures l < 0x1_0000_0000
  {
    P2Bytes();
    P2Mono(8 * c, 32);
  }

  /** The loop of BN_bin2bn: n bytes into the words below top. */
  method BytesToWords(ret: Bignum, s: seq<Byte>) returns (top: nat)
    requires s != [] && (|s| - 1) / 4 + 1 < |ret.d|
    modifies ret`d
    ensures |ret.d| == old(|ret.d|) && top == (|s| - 1) / 4 + 1 && Val(ret.d[..top]) == BytesValue(s)
  {
    hide Val, P2, BytesValue;
    top := (|s| - 1) / 4 + 1;
    var i, m := top, (|s| - 1) % 4;
    var l: Word, k := 0, 0;
    ghost var c, z: seq<Word> := 0, [];
    BytesStart(s, k, c);
    assert ret.d[top..top] == z;
    while k < |s|
      invariant 0 <= k <= |s| && 0 <= i <= top && |ret.d| == old(|ret.d|) && z == ret.d[i..top]
      invariant k < |s| ==> i > 0 && 0 <= m < 4 && |s| - k == 4 * (i - 1) + m + 1 && 0 <= c && c + m + 1 <= 4
      invariant k < |s| ==> i == top || c + m + 1 == 4
      invariant k == |s| ==> i == 0 && l == 0 && c == 0
      invariant 0 <= l < P2(8 * c) && BytesValue(s[..k]) == Val(z) * P2(8 * c) + l
    {
      NextByte(BytesValue(s[..k]), Val(z), l, c, s[k]);
      assert s[..k + 1] == s[..k] + [s[k]];
      BytesSnoc(s[..k], s[k]);
      ByteRoom(0x100 * l + s[k], c + 1);
      l := 0x100 * l + s[k];
      c := c + 1;
      k := k + 1;
      if m == 0 {
        StoreWord(z, BytesValue(s[..k]), l, c);
        i := i - 1;
        ret.d := ret.d[i := l];
        z := [l] + z;
        l, c := 0, 0;
        m := 3;
        NewWord(BytesValue(s[..k]), Val(z));
      } else {
        m := m - 1;
      }
    }
    assert s[..k] == s;
    NewWord(BytesValue(s), Val(z));
  }

  lemma BytesStart(s: seq<Byte>, k: nat, c: nat)
    requires k == 0 && c == 0
    ensures BytesValue(s[..k]) == Val([]) * P2(8 * c) + 0 && P2(8 * c) == 1
  {
    NoWords();
    assert s[..k] == [];
  }

  lemma NewWord(v: int, z: int)
    ensures P2(8 * 0) == 1 && (v == z ==> v == z * P2(8 * 0) + 0) && (v == z * P2(8 * 0) + 0 ==> v == z)
  {}

  /** BN_bin2bn; an empty string leaves the sign of ret as it was. */
  method Bin2Bn(s: seq<Byte>, ret: Bignum)
    requires ret.Wf()
    modifies ret
    ensures ret.Valid() && ret.Mag() == BytesValue(s)
    ensures ret.neg == (s == [] && old(ret.neg))
  {
    hide Val, P2, BytesValue, Bignum.Mag;
    if |s| == 0 {
      ret.top := 0;
      EmptyBytes(ret, s);
      return;
    }
    WExpand(ret, ((|s| + 2) * 8 + 31) / 32);
    var top := BytesToWords(ret, s);
    ret.top := top;
    ret.neg := false;
    MagIs(ret);
    FixTop(ret);
  }

  lemma EmptyBytes(a: Bignum, s: seq<Byte>)
    requires a.Wf() && a.top == 0 && s == []
    ensures a.Mag() == BytesValue(s)
  {
    assert a.d[..0] == [];
    NoWords();
  }

  // ---------- BN_bn2bin

  /** The byte of a word is a byte of the number. */
  lemma ByteInWord(x: seq<Word>, i: nat)
    requires i / 4 < |x|
    ensures (x[i / 4] / P2(8 * (i % 4))) % 0x100 == Shr(Val(x), 8 * i) % 0x100
  {
    var j, s := i / 4, 8 * (i % 4);
    ShrShr(Val(x), 32 * j, s);
    ShrWords(x, j);
    LowWord(x[j..]);
    var w, v: int := x[j], Val(x[j..][1..]);
    P2Bytes();
    P2Add(s, 24 - s); P2Add(24 - s, 8);
    var p, c := P2(s), P2(24 - s);
    QuotientBounds(w, p);
    WordAndMore(w, v, p, c, w / p, w % p);
    QuotientUnique(w + 0x1_0000_0000 * v, p, w / p + 0x100 * (c * v), w % p);
    SameByte(w / p, c * v);
  }

  lemma WordAndMore(w: int, v: int, p: int, c: int, q: int, r: int)
    requires p * c == 0x100_0000 && w == q * p + r
    ensures w + 0x1_0000_0000 * v == (q + 0x100 * (c * v)) * p + r
  {
    assert (q + 0x100 * (c * v)) * p == q * p + 0x100 * ((p * c) * v);
  }

  lemma SameByte(q: int, k: int)
    ensures (q + 0x100 * k) % 0x100 == q % 0x100
  {}

  /** One byte further down. */
  lemma ShrByte(x: int, i: nat)
    ensures Shr(x, 8 * i) == 0x100 * Shr(x, 8 * (i + 1)) + Shr(x, 8 * i) % 0x100
  {
    ShrShr(x, 8 * i, 8);
    P2Bytes();
  }

  /** BN_bn2bin: the bytes of the magnitude, without leading zeros. */
  method Bn2Bin(a: Bignum) returns (to: seq<Byte>)
    requires a.Valid()
    ensures BytesValue(to) == a.Mag() && (to != [] ==> to[0] != 0)
  {
    hide Val, P2, BytesValue, Shr, Bignum.Mag, HasBits;
    ghost var v := a.Mag();
    var bits := NumBits(a);
    var n := (bits + 7) / 8;
    MagIs(a);
    ByteBounds(v, bits, n);
    to := [];
    BytesNone();
    var i := n;
    while i > 0
      invariant 0 <= i <= n && |to| == n - i && BytesValue(to) == Shr(v, 8 * i)
      invariant to != [] ==> to[0] != 0
    {
      i := i - 1;
      ByteInWord(a.d[..a.top], i);
      ShrByte(v, i);
      var b: Byte := (a.d[i / 4] / P2(8 * (i % 4))) % 0x100;
      BytesSnoc(to, b);
      to := to + [b];
    }
    ShrNone(v, 8 * i);
  }

  lemma BytesNone()
    ensures BytesValue([]) == 0
  {}

  lemma ByteBounds(v: int, bits: nat, n: nat)
    requires HasBits(v, bits) && n == (bits + 7) / 8 && v >= 0
    ensures Shr(v, 8 * n) == 0
    ensures n > 0 ==> 0 < Shr(v, 8 * (n - 1)) < 0x100
  {
    P2Mono(bits, 8 * n);
    QuotientUnique(v, P2(8 * n), 0, v);
    if n > 0 {
      P2Mono(8 * (n - 1), bits - 1);
      P2Add(8 * (n - 1), 8);
      P2Bytes();
      QuotientBounds(v, P2(8 * (n - 1)));
      var q, p := v / P2(8 * (n - 1)), P2(8 * (n - 1));
      if q <= 0 { MulMono(q, 0, p); }
      if q >= 0x100 { MulMono(0x100, q, p); }
    }
  }

  /** Reading bytes and writing them again strips leading zeros and nothing else. */
  lemma BinRoundTrip(s: seq<Byte>, v: int, to: seq<Byte>)
    requires v == BytesValue(s) && BytesValue(to) == v && (to != [] ==> to[0] != 0)
    ensures to == Stripped(s)
  {
    StrippedValue(s);
    BytesUnique(to, Stripped(s));
  }

  /** BN_bin2bn and then BN_bn2bin: the bytes without their leading zeros. */
  method ThroughNumber(s: seq<Byte>, ret: Bignum) returns (to: seq<Byte>)
    requires ret.Wf()
    modifies ret
    ensures to == Stripped(s)
  {
    hide Val, BytesValue, Bignum.Mag;
    Bin2Bn(s, ret);
    to := Bn2Bin(ret);
    BinRoundTrip(s, ret.Mag(), to);
  }

  /** BN_bn2bin and then BN_bin2bn: the same magnitude. */
  method ThroughBytes(a: Bignum, ret: Bignum)
    requires ret.Wf() && a.Valid()
    modifies ret
    ensures ret.Valid() && ret.Mag() == old(a.Mag())
  {
    hide Val, BytesValue, Bignum.Mag;
    var s := Bn2Bin(a);
    Bin2Bn(s, ret);
  }
}
