/** Facts about Euclidean division that the clock arithmetic relies on. */
module Arithmetic {

  lemma MulAtLeast(m: nat, k: int)
    requires k >= 1
    ensures m * k >= m
  {
  }

  /** Quotient and remainder are the unique pair with `x == q * m + r`, `0 <= r < m`. */
  lemma DivModUnique(x: nat, m: nat, q: nat, r: nat)
    requires m > 0 && r < m && x == q * m + r
    ensures x / m == q && x % m == r
  {
    var q' := x / m;
    assert x == q' * m + x % m;
    if q > q' {
      MulAtLeast(m, q - q');
    } else if q < q' {
      MulAtLeast(m, q' - q);
    }
  }

  /** Rounding down to a multiple of `m` gives a multiple of `m` within `m` below `x`. */
  lemma FloorToMultiple(x: nat, m: nat)
    requires m > 0
    ensures (x / m) * m <= x < (x / m) * m + m
    ensures ((x / m) * m) % m == 0
  {
    var q := x / m;
    assert x == q * m + x % m;
    DivModUnique(q * m, m, q, 0);
  }

  lemma MulSucc(k: nat, m: nat)
    ensures k * m + m == (k + 1) * m
  {
  }

  lemma MulAddDistrib(a: nat, b: nat, m: nat)
    ensures (a + b) * m == a * m + b * m
  {
  }

  lemma MulMonotone(a: nat, b: nat, m: nat)
    requires a <= b
    ensures a * m <= b * m
  {
  }
}
