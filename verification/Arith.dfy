/** Division facts for divisors that are not constants. */
module Arith {

  lemma ProductOrder(a: int, b: int, k: nat)
    ensures a >= b ==> a * k >= b * k
  {
    assert (a - b) * k == a * k - b * k;
  }

  lemma Divide(x: nat, d: nat)
    requires d > 0
    ensures x == x / d * d + x % d
  {
  }

  /** Quotient and remainder are unique. */
  lemma Quotient(q: nat, r: nat, d: nat)
    requires r < d
    ensures (q * d + r) / d == q && (q * d + r) % d == r
  {
    var x := q * d + r;
    var e := x / d - q;
    assert e * d == r - x % d;
    ProductOrder(e, 1, d);
    ProductOrder(-1, e, d);
  }
}
