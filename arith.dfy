/** Facts about multiplication and Euclidean division on naturals. */
module Arith {

  lemma MulMonotone(a: nat, b: nat, k: nat)
    requires a <= b
    ensures a * k <= b * k
  {
  }

  lemma MulCancelLess(a: nat, b: nat, k: nat)
    requires a * k < b * k
    ensures a < b
  {
    if b <= a {
      MulMonotone(b, a, k);
    }
  }

  /** Quotient and remainder of a natural by a positive divisor are natural, the remainder below the divisor. */
  lemma DivModRange(y: nat, d: nat)
    requires d > 0
    ensures 0 <= y / d && 0 <= y % d < d
  {
  }

  /** A value in [q * d, q * d + d) has quotient q. */
  lemma DivUnique(y: nat, d: nat, q: nat)
    requires d > 0 && q * d <= y < q * d + d
    ensures y / d == q
  {
    var r := y / d;
    assert r * d <= y < r * d + d;
    assert (r + 1) * d == r * d + d && (q + 1) * d == q * d + d;
    MulCancelLess(q, r + 1, d);
    MulCancelLess(r, q + 1, d);
  }
}
