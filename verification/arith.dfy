/** Facts about integer multiplication and division that the solver does not
    find on its own: monotonicity, order of squares, uniqueness of quotient
    and remainder. */
module Arith {

  lemma MulMonotone(a: int, b: int, c: int)
    requires a <= b && c >= 0
    ensures a * c <= b * c
  {
    assert b * c - a * c == (b - a) * c;
  }

  lemma MulStrict(a: int, b: int, c: int)
    requires a < b && c >= 1
    ensures a * c < b * c
  {
    assert b * c - a * c == (b - a) * c;
    MulMonotone(1, b - a, c);
  }

  /** For non-negative numbers, comparing squares compares the numbers. */
  lemma SquareOrder(a: int, b: int)
    requires a >= 0 && b >= 0
    ensures a < b <==> a * a < b * b
  {
    if a < b {
      MulMonotone(a, b, a);
      MulStrict(a, b, b);
    } else {
      MulMonotone(b, a, b);
      MulMonotone(b, a, a);
    }
  }

  /** Quotient and remainder are the only ones satisfying the division equation. */
  lemma DivModUnique(n: int, b: int, q: int, r: int)
    requires b >= 1 && n == q * b + r && 0 <= r < b
    ensures n / b == q && n % b == r
  {
    var q', r' := n / b, n % b;
    assert n == q' * b + r';
    assert (q - q') * b == r' - r;
    if q - q' >= 1 {
      MulMonotone(1, q - q', b);
    } else if q - q' <= -1 {
      MulMonotone(q - q', -1, b);
    }
  }
}
