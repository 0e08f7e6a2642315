/**
 Facts about quotients that several modules share.
 */
module Arithmetic {
  /** The quotient and remainder are the only ones of their kind. */
  lemma QuotientIs(n: int, m: int, q: int, r: int)
    requires m > 0 && n == q * m + r && 0 <= r < m
    ensures n / m == q && n % m == r
  {
    var k := q - n / m;
    assert n == n / m * m + n % m;
    assert k * m == q * m - n / m * m;
    if k != 0 {
      FarMultiples(k, m);
    }
  }

  lemma FarMultiples(k: int, m: int)
    requires k != 0 && m > 0
    ensures k * m >= m || -(k * m) >= m
  {
    if k > 0 {
      assert k * m == (k - 1) * m + m;
    } else {
      assert -(k * m) == (-k - 1) * m + m;
    }
  }
}
