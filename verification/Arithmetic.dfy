/** Facts about multiplication and division that several modules use. */
module Arithmetic {

  lemma {:induction false} Distribute(a: int, b: int, m: int)
    ensures (a - b) * m == a * m - b * m
  {
  }

  lemma {:induction false} MulGap(d: int, m: nat)
    requires d >= 1
    ensures d * m >= m
  {
  }

  lemma {:induction false} MulMono(a: nat, b: nat, m: nat)
    requires a <= b
    ensures a * m <= b * m
  {
  }

  /** Quotient and remainder are determined by the division equation. */
  lemma {:induction false} UniqueDivision(x: int, q: int, r: int, m: nat)
    requires m > 0 && x == q * m + r && 0 <= r < m
    ensures x / m == q && x % m == r
  {
    var q' := x / m;
    assert x == q' * m + x % m;
    Distribute(q, q', m);
    Distribute(q', q, m);
    if q > q' {
      MulGap(q - q', m);
    } else if q < q' {
      MulGap(q' - q, m);
    }
  }

  /** Division as C defines it: truncating toward zero. */
  function TruncDiv(a: int, b: int): int
    requires b > 0
  {
    if a >= 0 then a / b else -((-a) / b)
  }
}
