/** Division by a number that is not a constant. */
module Arithmetic {
  function Divided(n: nat, k: nat): nat
    requires k > 0
  {
    n / k
  }

  lemma Multiple(d: nat, k: nat)
    requires d > 0
    ensures d * k >= k
  {
  }

  lemma Quotient(n: nat, k: nat, q: nat, r: nat)
    requires n == q * k + r && r < k
    ensures n / k == q
  {
    var d, m := n / k, n % k;
    assert d * k + m == n;
    assert (d - q) * k == r - m;
    if d > q {
      Multiple(d - q, k);
    } else if d < q {
      assert (q - d) * k == m - r;
      Multiple(q - d, k);
    }
  }

  lemma Remainder(n: nat, k: nat, q: nat, r: nat)
    requires n == q * k + r && r < k
    ensures n % k == r
  {
    Quotient(n, k, q, r);
    assert n / k * k + n % k == n;
  }

  lemma DivideByDouble(n: nat, k: nat)
    requires k > 0
    ensures n / 2 / k == n / (2 * k)
  {
    var q, r := n / 2 / k, n / 2 % k;
    assert n / 2 == q * k + r;
    assert q * (2 * k) == 2 * (q * k);
    Quotient(n, 2 * k, q, 2 * r + n % 2);
  }

  // A multiple of the divisor leaves the remainder as it was.
  lemma MultipleAdded(r: nat, q: nat, p: nat)
    requires p > 0
    ensures (q * p + r) % p == r % p
  {
    var d, m := r / p, r % p;
    assert q * p + r == (q + d) * p + m;
    Remainder(q * p + r, p, q + d, m);
  }

  lemma DivideBytes(n: nat, k: nat)
    requires k > 0
    ensures n / 256 / k == n / (256 * k)
  {
    var q, r := n / 256 / k, n / 256 % k;
    assert n / 256 == q * k + r;
    assert q * (256 * k) == 256 * (q * k);
    Quotient(n, 256 * k, q, 256 * r + n % 256);
  }
}
