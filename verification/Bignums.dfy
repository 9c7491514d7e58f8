/** The BIGNUM record and the slices of its word buffer. */
module Bignums {
  import opened Words

  /** BIGNUM: d is the allocated buffer of dmax + 1 words, of which the low top words
      are the magnitude. A word pointer of the source is a Bignum and an offset into d. */
  class Bignum {
    var d: seq<Word>
    var top: nat
    var neg: bool

    /** The fields fit together: top <= dmax. */
    ghost predicate Wf()
      reads `d, `top
    {
      top < |d|
    }

    /** Normalised: no leading zero word. */
    ghost predicate Valid()
      reads `d, `top
      ensures Valid() ==> Wf()
    {
      top < |d| && (top > 0 ==> d[top - 1] != 0)
    }

    /** Zero is not marked negative. The library keeps this of most results, but not of all. */
    ghost predicate ProperSign()
      reads `top, `neg
    {
      neg ==> top > 0
    }

    ghost function Mag(): (m: int)
      requires Wf()
      reads `d, `top
      ensures m >= 0
    {
      Val(d[..top])
    }

    ghost function Value(): (v: int)
      requires Wf()
      reads this
      ensures v == if neg then -Mag() else Mag()
    {
      if neg then -Mag() else Mag()
    }

    /** BN_init, BN_new: the number zero. */
    constructor ()
      ensures Valid() && Value() == 0 && top == 0 && !neg
    {
      d, top, neg := [0], 0, false;
    }

    /** BN_CTX_get: a temporary; nothing is known of what its last user left in it. */
    constructor Temp()
      ensures Wf()
    {
      d, top, neg := [0], 0, false;
    }
  }

  /** s with the words z written over it from position lo on. */
  ghost function Splice(s: seq<Word>, lo: nat, z: seq<Word>): (r: seq<Word>)
    requires lo + |z| <= |s|
    ensures |r| == |s|
  {
    s[..lo] + z + s[lo + |z|..]
  }

  lemma SpliceSnoc(s: seq<Word>, lo: nat, z: seq<Word>, x: Word)
    requires lo + |z| < |s|
    ensures Splice(s, lo, z)[lo + |z| := x] == Splice(s, lo, z + [x])
  {}

  lemma SpliceSlice(s: seq<Word>, lo: nat, z: seq<Word>)
    requires lo + |z| <= |s|
    ensures Splice(s, lo, z)[lo..lo + |z|] == z
  {}

  lemma SpliceNothing(s: seq<Word>, lo: nat)
    requires lo <= |s|
    ensures Splice(s, lo, []) == s
  {}

  /** A word above the splice. */
  lemma SpliceAbove(s: seq<Word>, lo: nat, z: seq<Word>, i: nat)
    requires lo + |z| <= i < |s|
    ensures Splice(s, lo, z)[i] == s[i]
  {}

  /** A slice that the splice does not touch. */
  lemma SpliceKeeps(s: seq<Word>, lo: nat, z: seq<Word>, i: nat, j: nat)
    requires lo + |z| <= |s| && i <= j <= |s| && (j <= lo || lo + |z| <= i)
    ensures Splice(s, lo, z)[i..j] == s[i..j]
  {}

  /** The words [ro, ro+n) of r can be written in ascending order while the words
      [ao, ao+n) of a are being read: no word is overwritten before it is read. */
  ghost predicate Readable(r: Bignum, ro: nat, a: Bignum, ao: nat, n: nat) {
    r != a || ro <= ao || ao + n <= ro
  }

  /** The slice of n words at ro in r and that of m words at ao in a share no word. */
  ghost predicate Disjoint(r: Bignum, ro: nat, n: nat, a: Bignum, ao: nat, m: nat) {
    r != a || ro + n <= ao || ao + m <= ro
  }
}
