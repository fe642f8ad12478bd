/** C++ integer arithmetic and casts that differ from Dafny's own. */
module Numbers {
  /** Integer division as C++ performs it: the quotient is truncated toward zero. */
  function TruncDiv(a: int, b: int): int
    requires b > 0
  {
    if a >= 0 then a / b else -((-a) / b)
  }

  /** The remainder that goes with TruncDiv: it has the sign of the dividend. */
  function TruncMod(a: int, b: int): int
    requires b > 0
  {
    a - b * TruncDiv(a, b)
  }

  /** The cast (int)x: truncation toward zero. */
  function Trunc(x: real): int {
    if x >= 0.0 then x.Floor else -((-x).Floor)
  }

  function Max(a: int, b: int): int {
    if a >= b then a else b
  }

  function AbsReal(x: real): real {
    if x < 0.0 then -x else x
  }

  const DBL_EPSILON: real := 1.0 / 4503599627370496.0

  lemma MulAtLeast(d: int, n: int)
    requires d > 0 && n > 0
    ensures n * d >= d
  {
  }

  lemma SmallMultiple(d: int, n: int)
    requires d > 0
    ensures -d < n * d < d ==> n == 0
  {
    if n > 0 {
      assert n * d >= d;
    } else if n < 0 {
      assert n * d <= -d;
    }
  }

  /** Quotient and remainder are the only pair that fits. */
  lemma DivModIs(x: int, d: int, q: int, r: int)
    requires d > 0 && 0 <= r < d && x == q * d + r
    ensures x / d == q && x % d == r
  {
    var t, m := x / d, x % d;
    assert 0 <= m < d && x == t * d + m;
    assert (q - t) * d == q * d - t * d;
    SmallMultiple(d, q - t);
  }
}
