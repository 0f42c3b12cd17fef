/** Facts about products and quotients of variables, each proved by itself. */
module Arithmetic {
  lemma MulMonotone(a: nat, b: nat, q: nat)
    requires a <= b
    ensures 0 <= a * q <= b * q
  {
  }

  lemma QuotientBelow(a: nat, d: nat, p: nat)
    requires d > 0
    ensures a / d < p <==> a < p * d
  {
    var q := a / d;
    assert q * d <= a < (q + 1) * d;
    if q < p {
      MulMonotone(q + 1, p, d);
    } else {
      MulMonotone(p, q, d);
    }
  }

  lemma QuotientIs(x: nat, d: nat, q: nat, r: nat)
    requires r < d && x == q * d + r
    ensures x / d == q
  {
    QuotientBelow(x, d, q + 1);
    QuotientBelow(x, d, q);
    assert (q + 1) * d == q * d + d;
  }

  lemma Division(x: nat, p: nat)
    requires p > 0
    ensures 0 <= x % p < p && 0 <= x / p && x == x % p + x / p * p
  {
  }

  lemma Multiple(q: nat, d: nat)
    requires q > 0
    ensures q * d % q == 0
  {
    Division(q * d, q);
    QuotientIs(q * d, q, d, 0);
  }

  lemma DivisorPart(n: nat, f: nat, g: nat)
    requires f > 0 && g > 0 && n % (f * g) == 0
    ensures n % f == 0
  {
    var q := n / (f * g);
    Division(n, f * g);
    ProductRegrouped(q, f, g);
    Multiple(f, q * g);
  }

  lemma ProductRegrouped(q: nat, f: nat, g: nat)
    ensures q * (f * g) == f * (q * g)
  {
  }
}
