/** The few facts about products and quotients that the models need, proved one step at a time. */
module Arithmetic {

  lemma MulMono(a: int, b: int, d: int)
    requires a <= b && d >= 0
    ensures a * d <= b * d
  {
    assert (b - a) * d >= 0;
  }

  lemma MulCancelLess(a: int, b: int, d: int)
    requires d > 0 && a * d < b * d
    ensures a < b
  {
    if b <= a {
      MulMono(b, a, d);
    }
  }

  lemma QuotientIs(n: int, d: int, q: int, r: int)
    requires d > 0 && n == q * d + r && 0 <= r < d
    ensures n / d == q && n % d == r
  {
    var x := n / d;
    assert n == x * d + n % d;
    assert (q + 1) * d == q * d + d && (x + 1) * d == x * d + d;
    MulCancelLess(x, q + 1, d);
    MulCancelLess(q, x + 1, d);
  }

  /** Quotient and remainder of a division by a positive number. */
  lemma DivMod(n: int, d: int)
    requires d > 0
    ensures n == (n / d) * d + n % d && 0 <= n % d < d
  {
  }
}
