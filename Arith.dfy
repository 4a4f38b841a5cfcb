/** Integer division facts the decimal and 32-bit models rest on (Dafny's
    `/` and `%` are Euclidean: the remainder is never negative). */
module Arith {

  lemma ModuloShift(a: int, k: int, m: int)
    requires m > 0
    ensures (a + k * m) % m == a % m
  {
    var q, r := a / m, a % m;
    assert a == q * m + r && 0 <= r < m;
    assert a + k * m == (q + k) * m + r by {
      assert (q + k) * m == q * m + k * m;
    }
    ModuloUnique(a + k * m, m, q + k, r);
  }

  /** Quotient and remainder are determined by any pair that reassembles the dividend. */
  lemma ModuloUnique(b: int, m: int, q: int, r: int)
    requires m > 0 && b == q * m + r && 0 <= r < m
    ensures b / m == q && b % m == r
  {
    var q0, r0 := b / m, b % m;
    assert b == q0 * m + r0;
    var d := q - q0;
    assert d * m == r0 - r by {
      assert d * m == q * m - q0 * m;
    }
    if d > 0 {
      assert d * m >= m by { MulAtLeast(d, m); }
    } else if d < 0 {
      assert (-d) * m >= m by { MulAtLeast(-d, m); }
    }
  }

  lemma MulAtLeast(d: int, m: int)
    requires d >= 1 && m > 0
    ensures d * m >= m
  {
    assert d * m == (d - 1) * m + m;
    assert (d - 1) * m >= 0;
  }

  lemma MulMonotone(a: int, b: int, m: int)
    requires a <= b && m > 0
    ensures a * m <= b * m
  {
    assert b * m == a * m + (b - a) * m;
    assert (b - a) * m >= 0;
  }

  /** The quotient of a non-negative number brackets it between two multiples. */
  lemma DivBounds(b: int, m: int)
    requires b >= 0 && m > 0
    ensures 0 <= b / m <= b
    ensures (b / m) * m <= b < (b / m + 1) * m
  {
    var q, r := b / m, b % m;
    assert b == q * m + r && 0 <= r < m;
    assert (q + 1) * m == q * m + m;
    if q < 0 {
      assert q * m <= -m by { MulMonotone(q, -1, m); }
    }
    if q > 0 {
      assert q * m >= q by { MulMonotone(1, m, q); }
    }
  }

  /** A multiple of m leaves no remainder. */
  lemma MultipleHasZeroRemainder(x: int, m: int, k: int)
    requires m > 0 && x == k * m
    ensures x % m == 0
  {
    ModuloUnique(x, m, k, 0);
  }
}
