/**
 Facts about products, quotients and remainders.
 */
module Arithmetic {

  lemma Multiple(n: nat, k: int)
    ensures 1 <= k ==> n * k >= n
    ensures k <= -1 ==> n * k + n <= 0
  {
  }

  lemma RemainderUnique(n: nat, q: int, r: nat, q': int, r': nat)
    requires n * q + r == n * q' + r' && r < n && r' < n
    ensures r == r'
  {
    assert n * (q - q') == n * q - n * q' == r' - r;
    Multiple(n, q - q');
  }

  lemma Remainder(x: nat, n: nat, q: nat, r: nat)
    requires 0 < n && x == n * q + r && r < n
    ensures x % n == r
  {
    RemainderUnique(n, q, r, x / n, x % n);
  }

  lemma Scaled(a: nat, b: nat, w: nat)
    requires a < b
    ensures a * w + w <= b * w
  {
    assert (b - a - 1) * w >= 0;
    assert b * w == a * w + w + (b - a - 1) * w;
  }

  lemma AtLeast(n: nat, p: nat, q: nat)
    requires p <= q
    ensures n * p <= n * q
  {
    assert n * q == n * p + n * (q - p);
  }

  lemma Quotient(x: nat, n: nat, q: nat, r: nat)
    requires 0 < n && x == n * q + r && r < n
    ensures x / n == q && x % n == r
  {
    QuotientUnique(n, q, r, x / n, x % n);
  }

  lemma Divided(n: nat, x: nat)
    requires 0 < n
    ensures n * (x / n) + x % n == x && x % n < n
  {
  }

  lemma QuotientUnique(n: nat, q: nat, r: nat, q': nat, r': nat)
    requires n * q + r == n * q' + r' && r < n && r' < n
    ensures q == q' && r == r'
  {
    RemainderUnique(n, q, r, q', r');
    assert n * (q - q') == n * q - n * q' == 0;
    Multiple(n, q - q');
  }
}
