/** Congruences modulo n. */
module Residues {
  import opened Words
  import opened Bits

  /** x = y (mod n) */
  ghost predicate Cong(x: int, y: int, n: int)
    requires n > 0
  {
    x % n == y % n
  }

  lemma CongBy(x: int, y: int, n: int, k: int)
    requires n > 0 && x == y + k * n
    ensures Cong(x, y, n)
  {
    QuotientBounds(y, n);
    Distribute(k, y / n, n);
    QuotientUnique(x, n, k + y / n, y % n);
  }

  lemma CongWith(x: int, y: int, n: int) returns (k: int)
    requires n > 0 && Cong(x, y, n)
    ensures x == y + k * n
  {
    QuotientBounds(x, n); QuotientBounds(y, n);
    k := x / n - y / n;
    Distribute(x / n, y / n, n);
  }

  lemma CongSelf(x: int, n: int)
    requires n > 0
    ensures Cong(x % n, x, n) && 0 <= x % n < n
  {
    QuotientBounds(x, n);
    QuotientUnique(x % n, n, 0, x % n);
  }

  /** A residue is determined by what it is congruent to. */
  lemma CongIs(r: int, x: int, n: int)
    requires n > 0 && 0 <= r < n && Cong(r, x, n)
    ensures r == x % n
  {
    QuotientUnique(r, n, 0, r);
  }

  lemma CongTimes(x: int, x': int, y: int, y': int, n: int)
    requires n > 0 && Cong(x, x', n) && Cong(y, y', n)
    ensures Cong(x * y, x' * y', n)
  {
    hide Cong;
    var j := CongWith(x, x', n);
    var k := CongWith(y, y', n);
    ProductWith(x', y', n, j, k);
    CongBy(x * y, x' * y', n, j * y' + k * x' + (j * k) * n);
  }

  lemma ProductWith(x: int, y: int, n: int, j: int, k: int)
    ensures (x + j * n) * (y + k * n) == x * y + (j * y + k * x + (j * k) * n) * n
  {
    assert (j * n) * y == (j * y) * n && x * (k * n) == (k * x) * n;
    assert (j * n) * (k * n) == ((j * k) * n) * n;
  }

  lemma CongTimesBy(x: int, x': int, y: int, n: int)
    requires n > 0 && Cong(x, x', n)
    ensures Cong(x * y, x' * y, n) && Cong(y * x, y * x', n)
  {
    CongTimes(x, x', y, y, n);
    CongTimes(y, y, x, x', n);
  }

  lemma CongTrans(x: int, y: int, z: int, n: int)
    requires n > 0 && Cong(x, y, n) && Cong(y, z, n)
    ensures Cong(x, z, n)
  {}

  /** Powers of two can be cancelled modulo an odd number. */
  lemma {:induction false} CancelPower(x: int, y: int, k: nat, n: int)
    requires n > 0 && n % 2 == 1 && Cong(x * P2(k), y * P2(k), n)
    ensures Cong(x, y, n)
  {
    if k > 0 {
      hide Cong;
      var p := P2(k - 1);
      var j := CongWith(x * P2(k), y * P2(k), n);
      DoubleTimes(x, p); DoubleTimes(y, p);
      HalfCong(x * p, y * p, n, j);
      CongBy(x * p, y * p, n, j / 2);
      CancelPower(x, y, k - 1, n);
    } else {
      assert P2(0) == 1 && x * P2(0) == x && y * P2(0) == y;
    }
  }

  lemma DoubleTimes(x: int, p: int)
    ensures x * (2 * p) == 2 * (x * p)
  {}

  lemma HalfCong(x: int, y: int, n: int, j: int)
    requires n % 2 == 1 && 2 * x == 2 * y + j * n
    ensures j % 2 == 0 && x == y + (j / 2) * n
  {
    var i := n / 2;
    assert n == 2 * i + 1;
    assert j * n == 2 * (j * i) + j;
    assert (2 * (j / 2)) * n == 2 * ((j / 2) * n);
  }
}
