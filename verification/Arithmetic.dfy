/** Products and quotients by a variable. */
module Arithmetic {
  lemma Rows(n: int, d: int)
    ensures n * d == (n - 1) * d + d
  {
  }

  lemma Product(n: nat, d: nat)
    ensures n * d >= 0
  {
  }

  lemma Distribute(a: int, b: int, d: int)
    ensures (a + b) * d == a * d + b * d
  {
  }

  lemma Multiple(q: int, q': int, d: nat)
    requires q < q'
    ensures q * d + d <= q' * d
  {
    Distribute(q + 1, q' - q - 1, d);
    Rows(q + 1, d);
    Product(q' - q - 1, d);
  }

  /** A multiple below another has the smaller factor. */
  lemma Below(q: int, q': int, d: nat)
    requires q * d < q' * d
    ensures q < q'
  {
    if q' < q {
      Multiple(q', q, d);
    }
  }

  lemma Divided(a: nat, d: nat)
    requires d > 0
    ensures a == a / d * d + a % d && 0 <= a / d && 0 <= a % d < d
  {
  }

  lemma Quotient(a: int, d: int, q: int, r: int)
    requires d > 0 && a == q * d + r && 0 <= r < d
    ensures a / d == q && a % d == r
  {
    var q', r' := a / d, a % d;
    assert a == q' * d + r';
    if q < q' {
      Multiple(q, q', d);
    } else if q' < q {
      Multiple(q', q, d);
    }
  }

  lemma SumOfRows(a: int, b: int, d: int)
    ensures a * d + b * d == (a + b) * d
  {
  }

  lemma Twice(a: int, b: int)
    ensures a * (2 * b) == 2 * (a * b)
  {
  }

  lemma Associate(a: int, b: int, d: int)
    ensures a * b * d == a * (d * b)
  {
  }

  /** Adding a multiple of the divisor keeps the remainder. */
  lemma Shifted(a: int, d: int, k: int)
    requires d > 0
    ensures (a + k * d) % d == a % d && (a + k * d) / d == a / d + k
  {
    SumOfRows(a / d, k, d);
    Quotient(a + k * d, d, a / d + k, a % d);
  }
}
