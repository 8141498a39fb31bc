/** Facts about multiplication by a common factor and about division with remainder. */
module Arith {

  lemma MulMonotone(a: nat, b: nat, k: nat)
    requires a <= b
    ensures a * k <= b * k
  {
    assert b * k == a * k + (b - a) * k;
  }

  lemma MulCancel(a: nat, b: nat, k: nat)
    requires k > 0 && a * k <= b * k
    ensures a <= b
  {
    if a > b {
      MulMonotone(b + 1, a, k);
      assert false;
    }
  }

  lemma MulCancelStrict(a: nat, b: nat, k: nat)
    requires a * k < b * k
    ensures a < b
  {
    if a >= b {
      MulMonotone(b, a, k);
      assert false;
    }
  }

  /** Division with remainder is unique. */
  lemma UniqueQuotient(q1: nat, r1: nat, q2: nat, r2: nat, k: nat)
    requires r1 < k && r2 < k
    requires q1 * k + r1 == q2 * k + r2
    ensures q1 == q2 && r1 == r2
  {
    if q1 < q2 {
      MulMonotone(q1 + 1, q2, k);
    } else if q2 < q1 {
      MulMonotone(q2 + 1, q1, k);
    }
  }
}
