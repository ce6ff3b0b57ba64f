/** Facts about Euclidean division that the unpacking proofs rest on. */
module Arithmetic {

  /** Division with remainder has exactly one answer. */
  lemma DivModUnique(x: int, m: int, q: int, r: int)
    requires 0 < m && 0 <= r < m && x == q * m + r
    ensures x / m == q && x % m == r
  {
    var q', r' := x / m, x % m;
    assert x == q' * m + r';
    if q > q' {
      assert (q' + 1) * m == q' * m + m;
      MulMonotone(q' + 1, q, m);
    } else if q < q' {
      assert (q + 1) * m == q * m + m;
      MulMonotone(q + 1, q', m);
    }
  }

  lemma MulMonotone(a: int, b: int, m: int)
    requires a <= b && 0 <= m
    ensures a * m <= b * m
  {
    assert b * m - a * m == (b - a) * m;
  }
}
