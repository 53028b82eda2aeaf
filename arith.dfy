/** Facts about integer multiplication and division used by the averaging
    and normalisation steps of the filters. */
module Arithmetic {

  /** Division by a positive number keeps the order of nonnegative operands. */
  lemma DivMonotone(a: int, b: int, m: int)
    requires 0 <= a <= b && m > 0
    ensures a / m <= b / m
  {
    var qa, qb := a / m, b / m;
    assert a == m * qa + a % m && b == m * qb + b % m;
    if qa > qb {
      MulMonotone(m, qb + 1, qa);
    }
  }

  /** Multiplying by a positive number keeps order. */
  lemma MulMonotone(m: int, x: int, y: int)
    requires m > 0 && x <= y
    ensures m * x <= m * y
  {
  }

  /** Dividing an exact multiple gives back the factor. */
  lemma DivExact(q: int, m: int)
    requires m > 0
    ensures (q * m) / m == q
  {
    var d, r := (q * m) / m, (q * m) % m;
    assert q * m == m * d + r;
    if d < q {
      MulMonotone(m, 1, q - d);
    } else if d > q {
      MulMonotone(m, 1, d - q);
    }
  }

  /** Quotient and remainder are unique: `i * m + j` with `0 <= j < m`
      divides to `i` with remainder `j`. */
  lemma DivModUnique(k: int, i: int, j: int, m: int)
    requires m > 0 && 0 <= j < m && k == i * m + j
    ensures k / m == i && k % m == j
  {
    var q, r := k / m, k % m;
    assert k == m * q + r;
    if q < i {
      MulMonotone(m, q + 1, i);
    } else if q > i {
      MulMonotone(m, i + 1, q);
    }
  }
}
