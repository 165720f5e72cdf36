/** Facts about products and division that several models need. */
module Arithmetic {
  lemma DivModUnique(x: nat, n: nat, k: nat, r: nat)
    requires x == n * k + r && r < n
    ensures x / n == k && x % n == r
  {
    var d: int := k - x / n;
    assert n * d == n * k - n * (x / n);
    assert d >= 1 ==> n * d >= n;
    assert d <= -1 ==> n * d + n <= 0;
  }

  lemma Distribute(a: nat, s: nat, b: nat, n: nat)
    ensures (a * s + b) * n == s * (a * n) + b * n
  {
    assert (a * s + b) * n == a * s * n + b * n;
    assert a * s * n == s * (a * n);
  }

  lemma Associate(a: nat, b: nat, c: nat)
    ensures a * b * c == a * (b * c)
  {
  }

  lemma Commute(a: nat, b: nat)
    ensures a * b == b * a
  {
  }

  lemma MulMonotone(a: nat, b: nat, n: nat)
    requires a <= b
    ensures a * n <= b * n
  {
  }

  lemma NextMultiple(a: nat, n: nat)
    ensures (a + 1) * n == a * n + n
  {
  }

  lemma DivBound(x: nat, n: nat, a: nat)
    requires n > 0 && x < a * n
    ensures x / n < a
  {
    if x / n >= a {
      MulMonotone(a, x / n, n);
    }
  }

  lemma DivMod(x: nat, n: nat)
    requires n > 0
    ensures x == x / n * n + x % n && x % n < n
  {
  }
}
