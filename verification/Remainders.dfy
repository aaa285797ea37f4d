// Quotients and remainders of nonlinear size, as far as the models need them.
module Remainders {

  lemma MultipleIsFar(d: int, c: nat)
    ensures d >= 1 ==> d * c >= c
    ensures d <= -1 ==> d * c <= -1 * c
  {
  }

  lemma DivModUnique(x: nat, k: nat, c: nat, r: nat)
    requires r < c && x == k * c + r
    ensures x % c == r && x / c == k
  {
    var d := x / c - k;
    assert x == x / c * c + x % c;
    assert d * c == r - x % c;
    MultipleIsFar(d, c);
  }

  lemma DivModTimes(x: nat, c: nat, m: nat)
    requires c > 0 && m > 0
    ensures x * c % (m * c) / c == x % m
    ensures m * c > 0
  {
    var q, r := x / m, x % m;
    assert x == q * m + r;
    assert x * c == q * (m * c) + r * c by {
      assert (q * m + r) * c == q * m * c + r * c;
    }
    assert r * c < m * c by { MultipleIsFar(m - r, c); assert (m - r) * c == m * c - r * c; }
    DivModUnique(x * c, q, m * c, r * c);
    DivModUnique(r * c, r, c, 0);
  }

  lemma Distribute(e: int, f: int, p: int)
    ensures (2 * e + f) * p == e * (2 * p) + f * p
  {
  }

  // The top bit of the low k bits of x, and the bits below, for p = 2^(k-1).
  lemma TopBit(x: nat, p: nat)
    requires p > 0
    ensures x / p % 2 == (if x % (2 * p) >= p then 1 else 0)
    ensures x % p == x % (2 * p) - (if x % (2 * p) >= p then p else 0)
    ensures x / p / 2 == x / (2 * p)
  {
    var d, r := x / p, x % p;
    var e, f := d / 2, d % 2;
    Distribute(e, f, p);
    var low := if f == 1 then p + r else r;
    assert x == e * (2 * p) + low;
    DivModUnique(x, e, 2 * p, low);
  }
}
