/** Products, quotients and remainders. */
module Arithmetic {

  lemma Monotone(a: nat, b: nat, c: nat)
    requires a <= b
    ensures a * c <= b * c
  {
  }

  lemma DivMod(x: nat, h: nat)
    requires h > 0
    ensures x == x / h * h + x % h && x % h < h && x / h >= 0
  {
  }

  function Product(a: nat, b: nat): nat {
    a * b
  }

  lemma OneMore(r: nat, unit: nat)
    ensures Product(r + 1, unit) == Product(r, unit) + unit
  {
  }

  lemma QuotientUnique(x: nat, d: nat, q: nat, r: nat)
    requires d > 0 && x == q * d + r && r < d
    ensures q == x / d && r == x % d
  {
    DivMod(x, d);
    if q < x / d {
      Monotone(q + 1, x / d, d);
      OneMore(q, d);
    } else if q > x / d {
      Monotone(x / d + 1, q, d);
      OneMore(x / d, d);
    }
  }

  lemma SmallRemainder(a: nat, n: nat)
    requires a < n
    ensures a % n == a
  {
  }

  lemma Multiple(q: nat, n: nat, r: nat)
    requires r < n
    ensures (q * n + r) % n == r && (q * n + r) / n == q
  {
    QuotientUnique(q * n + r, n, q, r);
  }

  lemma NextRemainder(a: nat, n: nat)
    requires n > 0
    ensures (a % n + 1) % n == (a + 1) % n
  {
    DivMod(a, n);
    Carried(a, n, a / n, a % n);
  }

  lemma Carried(a: nat, n: nat, q: nat, r: nat)
    requires a == q * n + r && r < n
    ensures (r + 1) % n == (a + 1) % n
  {
    if r + 1 == n {
      OneMore(q, n);
      QuotientUnique(a + 1, n, q + 1, 0);
      QuotientUnique(n, n, 1, 0);
    } else {
      QuotientUnique(a + 1, n, q, r + 1);
      SmallRemainder(r + 1, n);
    }
  }
}
