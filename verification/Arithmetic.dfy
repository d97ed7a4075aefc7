/** Facts about products, quotients and remainders that the solver needs spelled out. */
module Arithmetic {

  lemma MulLe(a: int, b: int, m: int)
    requires a <= b && m >= 0
    ensures a * m <= b * m
  {
    assert (b - a) * m >= 0;
    assert (b - a) * m == b * m - a * m;
  }

  lemma DoubleProduct(a: int, b: int)
    ensures a * (2 * b) == 2 * (a * b) && (2 * a) * b == 2 * (a * b)
  {
  }

  /** A nonzero multiple of `m` is at least `m` away from zero. */
  lemma MultipleIsFar(d: int, m: int)
    requires m > 0
    ensures d >= 1 ==> d * m >= m
    ensures d <= -1 ==> d * m <= -m
  {
    if d >= 1 {
      MulLe(1, d, m);
    }
    if d <= -1 {
      MulLe(d, -1, m);
    }
  }

  lemma DivUnique(a: int, m: int, q: int, r: int)
    requires m > 0 && a == q * m + r && 0 <= r < m
    ensures a / m == q && a % m == r
  {
    var p, t := a / m, a % m;
    assert a == p * m + t && 0 <= t < m;
    MultipleIsFar(p - q, m);
    assert (p - q) * m == p * m - q * m;
  }

  lemma MultipleMod(q: int, m: int)
    requires m > 0
    ensures (q * m) % m == 0 && (q * m) / m == q
  {
    DivUnique(q * m, m, q, 0);
  }

  lemma DivMonotone(a: int, b: int, m: int)
    requires a <= b && m > 0
    ensures a / m <= b / m
  {
    var p, q := a / m, b / m;
    assert p * m <= a && b < q * m + m;
    MultipleIsFar(p - q, m);
    assert (p - q) * m == p * m - q * m;
  }

  lemma DivStep(a: int, m: int)
    requires m > 0
    ensures a / m == (a - m) / m + 1
    ensures a % m == (a - m) % m
  {
    var q, r := (a - m) / m, (a - m) % m;
    assert a - m == q * m + r;
    assert (q + 1) * m == q * m + m;
    DivUnique(a, m, q + 1, r);
  }
}
