/** Division with a variable divisor. */
module Arith {
  lemma Multiples(c: nat, x: nat, y: nat)
    requires 0 < x <= y
    ensures c * (x - 1) + c == c * x <= c * y
  {
  }

  /** Quotient and remainder are determined by their defining equation. */
  lemma DivModIs(n: nat, c: nat, q: nat, r: nat)
    requires r < c && n == c * q + r
    ensures n / c == q && n % c == r
  {
    var q' := n / c;
    assert n == c * q' + n % c;
    if q < q' {
      Multiples(c, q + 1, q');
    } else if q' < q {
      Multiples(c, q' + 1, q);
    }
  }
}
