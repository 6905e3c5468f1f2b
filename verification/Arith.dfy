/** Division facts the models share. */
module Arith {

  lemma MulAtLeast(k: int, p: int)
    requires k >= 1 && p >= 0
    ensures k * p >= p
  {
  }

  /** Quotient and remainder are determined by the division equation. */
  lemma DivModUnique(a: int, p: int, q: int, r: int)
    requires 0 <= r < p && a == q * p + r
    ensures a / p == q && a % p == r
  {
    var q', r' := a / p, a % p;
    assert a == q' * p + r';
    assert (q - q') * p == r' - r;
    if q > q' {
      MulAtLeast(q - q', p);
    } else if q < q' {
      MulAtLeast(q' - q, p);
    }
  }

  lemma DivBounds(a: nat, p: nat) returns (k: nat)
    requires p > 0
    ensures k == a / p && p * k <= a < p * k + p
  {
    k := a / p;
  }
}
