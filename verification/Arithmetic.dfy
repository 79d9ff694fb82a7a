/** Facts about products and quotients of unknown integers. */
module Arithmetic {

  lemma {:induction false} MultipleApart(q: int, m: int)
    requires m > 0
    ensures q == 0 ==> q * m == 0
    ensures q >= 1 ==> q * m >= m && q * m >= q
    ensures q <= -1 ==> q * m <= -m && q * m <= q
  {
    if q >= 1 {
      assert (q - 1) * m >= 0;
      assert q * (m - 1) >= 0;
    } else if q <= -1 {
      assert (q + 1) * m <= 0;
      assert q * (m - 1) <= 0;
    }
  }

  /** Quotient and remainder are the only such pair. */
  lemma {:induction false} DivisionUnique(a: int, m: int, q: int, r: int)
    requires m > 0 && a == q * m + r && 0 <= r < m
    ensures a / m == q && a % m == r
  {
    var d := a / m - q;
    assert d * m == (a / m) * m - q * m;
    MultipleApart(d, m);
  }

  lemma {:induction false} DivisionMonotonic(a: int, b: int, m: int)
    requires m > 0 && a <= b
    ensures a / m <= b / m
  {
    var d := b / m - a / m;
    assert d * m == (b / m) * m - (a / m) * m;
    MultipleApart(d, m);
  }

  lemma {:induction false} DivisionStep(a: int, m: int)
    requires m > 0
    ensures (a + m) / m == a / m + 1
  {
    assert a + m == (a / m + 1) * m + a % m;
    DivisionUnique(a + m, m, a / m + 1, a % m);
  }
}
