/** A zero marked negative, made by the library itself, and what the routines make of it. */
module NegativeZeros {
  import opened Words
  import opened Bits
  import opened Bignums
  import opened Basics
  import opened Products
  import opened Shift
  import opened Modular
  import opened WordOps
  import opened JacobiTheory
  import opened Kronecker
  import opened Hex

  /** -1 halved by BN_rshift1: normalised, zero, and negative. */
  method HalvedMinusOne() returns (a: Bignum)
    ensures fresh(a) && a.Valid() && a.top == 0 && a.neg && a.Value() == 0 && !a.ProperSign()
  {
    hide Val, Bignum.Mag;
    a := new Bignum();
    SetWord(a, 1);
    a.neg := true;
    Rshift1(a, a);
    ZeroMag(a);
  }

  /** The same from BN_rshift and from BN_div_word. */
  method ShiftedOrDivided() returns (a: Bignum, b: Bignum)
    ensures a.Valid() && !a.ProperSign() && b.Valid() && !b.ProperSign()
  {
    hide Val, P2, Shr, Bignum.Mag;
    a := new Bignum();
    SetWord(a, 1);
    a.neg := true;
    b := new Bignum();
    Copy(b, a);
    ShiftedOne();
    Rshift(a, a, 1);
    ZeroMag(a);
    var ret := DivideByWord(b, 2);
    ZeroMag(b);
  }

  /** From BN_sqr and BN_mod_sqr of zero into a negative number. */
  method SquaredZero() returns (a: Bignum, b: Bignum)
    ensures a.Valid() && !a.ProperSign() && b.Valid() && !b.ProperSign()
  {
    hide Val, Bignum.Mag;
    var zero := new Bignum();
    var m := new Bignum();
    SetWord(m, 5);
    ZeroMag(m);
    a := new Bignum();
    SetWord(a, 1);
    a.neg := true;
    b := new Bignum();
    Copy(b, a);
    Sqr(a, zero);
    var ok := ModSqr(b, zero, m);
    ZeroMag(b);
  }

  /** From BN_hex2bn of the texts "-" and "-0". */
  method ReadZero() returns (a: Bignum, b: Bignum)
    ensures a.Valid() && !a.ProperSign() && b.Valid() && !b.ProperSign()
  {
    hide Val, HexValue, Bignum.Mag;
    a := new Bignum();
    b := new Bignum();
    ZeroTexts();
    var n := Hex2Bn(a, "-");
    ZeroMag(a);
    n := Hex2Bn(b, "-0");
    ZeroMag(b);
  }

  lemma ZeroTexts()
    ensures HexValue("-"[1..][..HexPrefix("-"[1..])]) == 0
    ensures HexValue("-0"[1..][..HexPrefix("-0"[1..])]) == 0
  {
    assert "-"[1..] == "" && "-0"[1..] == "0";
    ZeroText();
  }

  lemma ShiftedOne()
    ensures Shr(1, 1) == 0
  {
    assert P2(1) == 2;
  }

  /** BN_nnmod leaves 5 modulo 5, not 0. */
  method FullResidue() returns (r: Bignum, m: Bignum)
    ensures r.Valid() && m.Valid() && r.Value() == m.Value() == 5
  {
    hide Val, P2, Bignum.Mag;
    var a := HalvedMinusOne();
    m := new Bignum();
    SetWord(m, 5);
    r := new Bignum();
    ZeroMag(m);
    var ok := NNMod(r, a, m);
  }

  /** So does BN_mod_add, of two such zeros. */
  method FullSum() returns (r: Bignum, m: Bignum)
    ensures r.Valid() && m.Valid() && r.Value() == m.Value() == 5
  {
    hide Val, P2, Bignum.Mag;
    var a := HalvedMinusOne();
    m := new Bignum();
    SetWord(m, 5);
    r := new Bignum();
    ZeroMag(m);
    var ok := ModAdd(r, a, a, m);
  }

  /** BN_mod_sub, of such a zero and a proper one. */
  method FullDifference() returns (r: Bignum, m: Bignum)
    ensures r.Valid() && m.Valid() && r.Value() == m.Value() == 5
  {
    hide Val, P2, Bignum.Mag;
    var a := HalvedMinusOne();
    m := new Bignum();
    SetWord(m, 5);
    r := new Bignum();
    ZeroMag(m);
    var zero := new Bignum();
    var ok := ModSub(r, a, zero, m);
  }

  /** BN_mod_lshift1. */
  method FullDouble() returns (r: Bignum, m: Bignum)
    ensures r.Valid() && m.Valid() && r.Value() == m.Value() == 5
  {
    hide Val, P2, Bignum.Mag;
    var a := HalvedMinusOne();
    m := new Bignum();
    SetWord(m, 5);
    r := new Bignum();
    ZeroMag(m);
    var ok := ModLshift1(r, a, m);
  }

  /** BN_mod_lshift by three bits. */
  method FullShift() returns (r: Bignum, m: Bignum)
    ensures r.Valid() && m.Valid() && r.Value() == m.Value() == 5
  {
    hide Val, P2, Bignum.Mag;
    var a := HalvedMinusOne();
    m := new Bignum();
    SetWord(m, 5);
    r := new Bignum();
    ZeroMag(m);
    var ok := ModLshift(r, a, 3, m);
  }

  /** BN_mod_mul of zero by itself, when a minus sign is left over in its temporary, gives 5 modulo 5. */
  method FullProduct() returns (r: Bignum, m: Bignum)
    ensures r.Valid() && m.Valid() && r.Value() == m.Value() == 5
  {
    hide Val, Bignum.Mag;
    var t := new Bignum();
    SetWord(t, 1);
    t.neg := true;
    var a := new Bignum();
    ZeroMag(a);
    m := new Bignum();
    SetWord(m, 5);
    ZeroMag(m);
    r := new Bignum();
    var ok := ModMul(r, a, a, m, t);
  }

  /** BN_bn2hex allocates two characters for a text of two and the closing zero. */
  method HexOverrun() returns (a: Bignum, text: string)
    ensures a.top == 0 && |text| + 1 > 8 * a.top + 2
  {
    a := HalvedMinusOne();
    text := Bn2Hex(a);
  }

  /** BN_cmp puts it below zero. */
  method BelowZero() returns (a: Bignum, b: Bignum, c: int)
    ensures a.Valid() && b.Valid() && a.Value() == b.Value() == 0 && c < 0
  {
    a := HalvedMinusOne();
    b := new Bignum();
    c := Cmp(a, b);
  }

  /** BN_kronecker gives (0/-1) = -1 for it, and 1 for the proper zero. */
  method KroneckerSigns() returns (wrong: int, right: int)
    ensures wrong == -1 && right == 1 == KroneckerSymbol(0, -1)
  {
    var a := HalvedMinusOne();
    var zero := new Bignum();
    var b := new Bignum();
    SetWord(b, 1);
    b.neg := true;
    wrong := KroneckerOf(a, b);
    right := KroneckerOf(zero, b);
  }
}
