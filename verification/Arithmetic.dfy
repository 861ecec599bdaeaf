/** Facts about products and quotients. */
module Arithmetic {
  lemma MulMonotone(a: int, b: int, c: nat)
    requires a <= b
    ensures a * c <= b * c && (a + 1) * c == a * c + c
    ensures a < b && c > 0 ==> a * c < b * c
  {
  }

  lemma Associate(a: int, b: int, c: int)
    ensures a * (b * c) == (a * b) * c && a * (b * c) == b * (a * c)
  {
  }

  /** 0 is the only multiple of m between -m and m. */
  lemma SmallMultiple(k: int, m: int, d: int)
    requires k * m == d && -m < d < m
    ensures d == 0 && k == 0
  {
  }

  /** Quotient and remainder are the only ones that fit. */
  lemma DivisionIs(n: int, d: int, q: int, r: int)
    requires 0 <= r < d && n == q * d + r
    ensures n / d == q && n % d == r
  {
    var p := n / d;
    assert n == p * d + n % d;
    assert (q - p) * d == q * d - p * d;
    SmallMultiple(q - p, d, n % d - r);
  }
}
