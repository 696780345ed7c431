/** Real arithmetic shared by the motor and training models. */
module Numeric {

  function Abs(x: real): real { if x < 0.0 then -x else x }

  function Min(x: real, y: real): real { if x <= y then x else y }

  function Max(x: real, y: real): real { if x >= y then x else y }

  /** constrain_float, and numpy's clip for low <= high: the low bound is tested first. */
  function Constrain(x: real, low: real, high: real): real {
    if x < low then low else if x > high then high else x
  }

  lemma AbsMeans(x: real)
    ensures Abs(x) >= 0.0 && (Abs(x) == x || Abs(x) == -x)
  {
  }

  lemma MinMaxMean(x: real, y: real)
    ensures Min(x, y) <= x <= Max(x, y) && Min(x, y) <= y <= Max(x, y)
    ensures (Min(x, y) == x || Min(x, y) == y) && (Max(x, y) == x || Max(x, y) == y)
  {
  }

  /** Between proper bounds the clamp is the nearest value; the low bound wins where they cross. */
  lemma ConstrainMeans(x: real, low: real, high: real)
    ensures low <= x <= high ==> Constrain(x, low, high) == x
    ensures x < low ==> Constrain(x, low, high) == low
    ensures x >= low && x > high ==> Constrain(x, low, high) == high
  {
  }

  /** Division by a number of at least one. */
  function Over(x: real, m: real): real
    requires m >= 1.0
  {
    x / m
  }

  lemma OverBack(x: real, m: real)
    requires m >= 1.0
    ensures Over(x, m) * m == x
  {
  }

  lemma ProductPositive(a: real, b: real)
    requires a > 0.0 && b > 0.0
    ensures a * b > 0.0
  {
  }

  lemma FactorInside(q: real, x: real, n: real)
    requires 0.0 < x < n && q * n == x
    ensures 0.0 < q < 1.0
  {
    if q < 0.0 { ProductPositive(-q, n); }
    if q > 1.0 { ProductPositive(q - 1.0, n); }
  }

  lemma ProperFraction(x: real, n: real)
    requires 0.0 < x < n
    ensures 0.0 < x / n < 1.0 && x / n * n == x
  {
    QuotientBack(x, n);
    FactorInside(x / n, x, n);
  }

  lemma QuotientBack(x: real, n: real)
    requires n > 0.0
    ensures x / n * n == x
  {
  }
}
