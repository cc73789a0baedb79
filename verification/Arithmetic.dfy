/**
  Small facts of integer arithmetic, each proved alone so that the solver sees one
  product at a time.
 */
module Arithmetic {

  lemma MulDistributes(a: int, b: int, c: int)
    ensures a * (b + c) == a * b + a * c
    ensures a * (b - c) == a * b - a * c
  {
  }

  lemma MulAssociates(a: int, b: int, c: int)
    ensures (a * b) * c == a * (b * c) == b * (a * c)
  {
  }

  lemma MulAtLeast(d: int, w: int)
    requires d > 0 && w >= 1
    ensures d * w >= d
  {
  }

  /** A multiple of d strictly between -d and d is zero. */
  lemma SmallMultiple(d: int, w: int)
    requires d > 0 && -d < d * w < d
    ensures w == 0
  {
    if w >= 1 {
      MulAtLeast(d, w);
    } else if w <= -1 {
      MulAtLeast(d, -w);
    }
  }

  lemma SameMultiple(d: int, x: int, y: int)
    requires d > 0 && d * x == d * y
    ensures x == y
  {
    MulDistributes(d, x, y);
    SmallMultiple(d, x - y);
  }

  lemma DivOfMultiple(d: int, w: int)
    requires d > 0
    ensures (d * w) / d == w && (d * w) % d == 0
  {
    var k, r := (d * w) / d, (d * w) % d;
    assert d * w == d * k + r;
    MulDistributes(d, w, k);
    SmallMultiple(d, w - k);
  }

  lemma DivMod(x: int, d: int) returns (q: int, r: nat)
    requires d > 0
    ensures x == d * q + r && r < d && q == x / d && r == x % d
  {
    q, r := x / d, x % d;
  }

  /** Quotient and remainder are unique. */
  lemma DivModUnique(n: int, p: int, q: int, r: int)
    requires 0 <= r < p && n == p * q + r
    ensures n / p == q && n % p == r
  {
    var q', r' := DivMod(n, p);
    MulDistributes(p, q, q');
    SmallMultiple(p, q - q');
  }

  /** Quotient and remainder of the next number. */
  lemma DivModNext(n: nat, p: nat)
    requires p > 0
    ensures if n % p < p - 1 then (n + 1) / p == n / p && (n + 1) % p == n % p + 1
            else (n + 1) / p == n / p + 1 && (n + 1) % p == 0
  {
    var q, r := n / p, n % p;
    if r < p - 1 {
      DivModUnique(n + 1, p, q, r + 1);
    } else {
      MulDistributes(p, q, 1);
      DivModUnique(n + 1, p, q + 1, 0);
    }
  }
}
