// Facts about products, quotients and remainders of natural numbers.

module Arithmetic {

  lemma MulLe(x: nat, y: nat, w: nat)
    requires x <= y
    ensures x * w <= y * w
  {
  }

  lemma ProductMonotone(x: nat, y: nat, x': nat, y': nat)
    requires x <= x' && y <= y'
    ensures x * y <= x' * y'
  {
  }

  lemma MulAssoc(x: nat, y: nat, z: nat)
    ensures x * (y * z) == (x * y) * z
  {
  }

  lemma MulDistributes(x: int, y: int, w: int)
    ensures (x + y) * w == x * w + y * w
  {
  }

  lemma MulNonNegative(x: nat, y: nat)
    ensures x * y >= 0
  {
  }

  lemma TwiceProduct(x: nat, y: nat)
    ensures x * (2 * y) == 2 * (x * y)
  {
  }

  lemma FourFactors(x: nat, y: nat, z: nat, w: nat)
    ensures (x * y) * (z * w) == (x * z) * (y * w)
  {
  }

  // x modulo m, known from x up to a multiple of m.
  lemma ModUnique(x: nat, r: nat, k: nat, m: nat)
    requires x == r + k * m && r < m
    ensures x % m == r && x / m == k
  {
    var q := x / m;
    assert q < k ==> (q + 1) * m <= k * m;
    assert q > k ==> (k + 1) * m <= q * m;
  }

  lemma ModOfSum(x: nat, k: nat, m: nat)
    requires m > 0
    ensures (x + k * m) % m == x % m
  {
    ModUnique(x, x % m, x / m, m);
    assert (x / m) * m + k * m == (x / m + k) * m;
    ModUnique(x + k * m, x % m, x / m + k, m);
  }

  lemma QuotientLe(x: nat, p: nat)
    requires p > 0
    ensures 0 <= x / p <= x
  {
    var q := x / p;
    assert q * p + x % p == x;
    MulLe(1, p, q);
  }

  lemma QuotientBound(x: nat, p: nat, t: nat)
    requires p > 0 && x < p * t
    ensures x / p < t
  {
  }

  lemma QuotientAtLeast(x: nat, p: nat, t: nat)
    requires p > 0 && t * p <= x
    ensures x / p >= t
  {
    var q := x / p;
    assert x < q * p + p && (q < t ==> (q + 1) * p <= t * p);
    MulDistributes(q, 1, p);
  }

  lemma QuotientMonotone(x: nat, y: nat, p: nat)
    requires x <= y && p > 0
    ensures x / p <= y / p
  {
    QuotientAtLeast(y, p, x / p);
  }

  lemma QuotientTimes(x: nat, p: nat)
    requires p > 0
    ensures (x / p) * p <= x
  {
  }

  lemma TwoRemainders(x: nat, p: nat, t: nat, q: nat, r: nat, k: nat, l: nat)
    requires x == q * p + r && r < p && q == k * t + l && l < t
    ensures l * p + r < t * p && x == l * p + r + k * (t * p)
  {
    MulLe(l + 1, t, p);
    MulDistributes(l, 1, p);
    MulDistributes(k * t, l, p);
    MulAssoc(k, t, p);
  }

  lemma QuotientOfQuotient(x: nat, p: nat, t: nat)
    requires p > 0 && t > 0
    ensures 0 < t * p && (x / p) / t == x / (t * p)
  {
    var q := x / p;
    MulLe(1, t, p);
    TwoRemainders(x, p, t, q, x % p, q / t, q % t);
    hide *;
    ModUnique(x, (q % t) * p + x % p, q / t, t * p);
  }
}
