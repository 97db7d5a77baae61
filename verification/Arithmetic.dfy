/** Quotients and remainders. */
module Arithmetic {

  lemma Quotient(m: nat, n: nat, q: nat, s: nat)
    requires s < n && m == q * n + s
    ensures m / n == q && m % n == s
  {
    var q' := m / n;
    assert m == q' * n + m % n;
    assert q' < q ==> (q' + 1) * n <= q * n;
    assert q < q' ==> (q + 1) * n <= q' * n;
  }

  lemma AddMultiple(x: nat, m: nat, q: nat)
    requires m > 0
    ensures (x + q * m) % m == x % m
  {
    assert x == x / m * m + x % m;
    assert x + q * m == (x / m + q) * m + x % m;
    Quotient(x + q * m, m, x / m + q, x % m);
  }

  lemma AddToRemainder(x: nat, a: nat, m: nat)
    requires m > 0
    ensures (x + a) % m == (x % m + a) % m
  {
    assert x + a == x % m + a + x / m * m;
    AddMultiple(x % m + a, m, x / m);
  }

  lemma TwiceProduct(q: nat, m: nat)
    ensures q * (2 * m) == (2 * q) * m == 2 * (q * m)
  {}

  lemma RemainderOfSum(x: nat, r: nat, q: nat, m: nat, n: nat)
    requires m > 0 && n == 2 * m && x == r + q * n
    ensures r % m == x % m
  {
    TwiceProduct(q, m);
    AddMultiple(r, m, 2 * q);
  }

  lemma HalfRemainder(n: nat, m: nat)
    requires m > 0
    ensures n % (2 * m) == n % 2 + 2 * (n / 2 % m)
  {
    var h := n / 2;
    TwiceProduct(h / m, m);
    Quotient(n, 2 * m, h / m, n % 2 + 2 * (h % m));
  }
}
