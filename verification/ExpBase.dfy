/** What the exponentiators of bn_exp.c share: the reduced base. */
module ExpBase {
  import opened Words
  import opened Bits
  import opened Bignums
  import opened Basics
  import opened Modular
  import opened Residues
  import opened Windows

  /** val[0] := a mod |m| */
  method ReduceBase(v: Bignum, a: Bignum, m: Bignum, ghost e: nat) returns (ok: bool)
    requires v.Wf() && a.Valid() && m.Valid() && v != a && v != m && e > 0
    modifies v
    ensures ok <==> m.Mag() > 0
    ensures ok ==> NonNeg(v) && v.Mag() <= m.Mag() && Cong(v.Mag(), a.Value(), m.Mag())
    ensures ok && IsZero(v) ==> Pow(a.Value(), e) % m.Mag() == 0
  {
    hide Val, Bignum.Mag, Pow, Cong;
    ok := NNMod(v, a, m);
    if !ok { return; }
    ZeroMag(a); ZeroMag(v);
    ModAbs(a.Value(), m.Value());
    CongSelf(a.Value(), m.Mag());
    Representative(a.Value(), m.Mag(), v.Mag(), e);
  }

  lemma ZeroBits(x: int, bits: nat)
    requires HasBits(x, bits)
    ensures bits == 0 <==> x == 0
  {}

  lemma OneSquare(e: int)
    ensures e * P2(1) == 2 * e
  {}
}
