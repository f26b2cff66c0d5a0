/** An optional value, the smaller and the larger of two numbers, and products and quotients by a variable factor. */
module Basics {

  datatype Option<+T> = None | Some(value: T)

  function Min(a: int, b: int): int { if a < b then a else b }

  function Max(a: int, b: int): int { if a < b then b else a }

  lemma MulOrder(a: nat, b: nat, m: nat)
    requires a <= b
    ensures a * m <= b * m
  {
  }

  lemma MulStep(a: nat, b: nat, m: nat)
    requires a < b
    ensures a * m + m <= b * m
  {
    assert (b - a - 1) * m >= 0;
    assert b * m == a * m + m + (b - a - 1) * m;
  }

  lemma DivMod(q: nat, r: nat, m: nat)
    requires r < m
    ensures (q * m + r) / m == q && (q * m + r) % m == r
  {
    var n := q * m + r;
    assert n == n / m * m + n % m;
    if n / m < q {
      MulStep(n / m, q, m);
    } else if q < n / m {
      MulStep(q, n / m, m);
    }
  }
}
