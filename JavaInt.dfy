/** Java `int` arithmetic: 32-bit two's complement, wrapping on overflow, and
    `/` truncating toward zero (Dafny's own `/` is Euclidean). */
module JavaInt {
  import opened Outcomes
  import Arith

  const MIN: int := -0x8000_0000
  const MAX: int := 0x7fff_ffff
  const MODULUS: int := 0x1_0000_0000

  type Int32 = x: int | MIN <= x <= MAX

  /** The value a Java `int` holds after an operation whose exact result is `x`. */
  function Wrap(x: int): (r: Int32)
    ensures (r - x) % MODULUS == 0
    ensures MIN <= x <= MAX ==> r == x
  {
    (x - MIN) % MODULUS + MIN
  }

  function Add(a: Int32, b: Int32): Int32 { Wrap(a + b) }

  function Sub(a: Int32, b: Int32): Int32 { Wrap(a - b) }

  function Mul(a: Int32, b: Int32): Int32 { Wrap(a * b) }

  /** `Math.max(int, int)`. */
  function Max(a: Int32, b: Int32): Int32 { if a >= b then a else b }

  /** Java `a / b`: rounds toward zero; `/ by zero` throws; `MIN / -1` wraps to MIN. */
  function Div(a: Int32, b: Int32): (r: Result<Int32>)
    ensures r.Err? <==> b == 0
    ensures r.Err? ==> r.failure == ArithmeticError("/ by zero")
    ensures r.Ok? && a >= 0 && b > 0 ==> r.value == a / b
    ensures a == MIN && b == -1 ==> r == Ok(MIN)
  {
    if b == 0 then Err(ArithmeticError("/ by zero"))
    else
      var q := Abs(a) / Abs(b);
      Ok(Wrap(if (a < 0) == (b < 0) then q else -q))
  }

  /** For every sign of the operands `/` truncates toward zero: the remainder is smaller
      than the divisor and has the dividend's sign (or is zero). */
  lemma DivTruncates(a: Int32, b: Int32)
    ensures Div(a, b).Ok? && !(a == MIN && b == -1) ==>
      var rem := a - Div(a, b).value * b; Abs(rem) < Abs(b) && (rem == 0 || (rem < 0) == (a < 0))
  {
    if b != 0 {
      var q := Abs(a) / Abs(b);
      TruncatedQuotient(a, b, q);
      var v := if (a < 0) == (b < 0) then q else -q;
      if !(a == MIN && b == -1) {
        assert Div(a, b) == Ok(v);
      }
    }
  }

  /** The quotient of the magnitudes, given the sign of the exact quotient, leaves a
      remainder smaller than the divisor and of the dividend's sign; it fits an `int`
      except for MIN / -1. */
  lemma TruncatedQuotient(a: Int32, b: Int32, q: int)
    requires b != 0 && q == Abs(a) / Abs(b)
    ensures var v := if (a < 0) == (b < 0) then q else -q;
      && a - v * b == (if a < 0 then -(Abs(a) % Abs(b)) else Abs(a) % Abs(b))
      && (MIN <= v <= MAX || (a == MIN && b == -1))
  {
    var m := Abs(a) % Abs(b);
    MagnitudeQuotient(Abs(a), Abs(b), q, m);
    var v := if (a < 0) == (b < 0) then q else -q;
    if a < 0 && b < 0 {
      assert v * b == -(q * Abs(b));
    } else if a < 0 {
      assert v * b == -(q * Abs(b));
    } else if b < 0 {
      assert v * b == q * Abs(b);
    } else {
      assert v * b == q * Abs(b);
    }
  }

  /** Dividing magnitudes: the quotient is at most the dividend, and equals a non-zero
      dividend only for the divisor 1. */
  lemma MagnitudeQuotient(x: nat, y: nat, q: int, m: int)
    requires y > 0 && q == x / y && m == x % y
    ensures x == q * y + m && 0 <= m < y
    ensures 0 <= q <= x
    ensures q == x && x > 0 ==> y == 1
  {
    if q > 0 {
      Arith.MulAtLeast(y, q);
      if y > 1 {
        Arith.MulAtLeast(y - 1, q);
        assert q * y == (y - 1) * q + q;
      }
    }
  }

  function Abs(x: int): nat { if x < 0 then -x else x }

  /** Wrapping an intermediate result does not change the wrapped value of a later sum:
      the overflowed `int` behaves like the exact integer modulo 2^32. */
  lemma WrapAddCongruent(x: int, y: int)
    ensures Wrap(Wrap(x) + y) == Wrap(x + y)
  {
    var w := Wrap(x);
    var k := (w - x) / MODULUS;
    assert w - x == k * MODULUS;
    ShiftByMultiple(x + y, k);
    assert w + y == (x + y) + k * MODULUS;
  }

  lemma ShiftByMultiple(x: int, k: int)
    ensures Wrap(x + k * MODULUS) == Wrap(x)
  {
    var a := x - MIN;
    assert (a + k * MODULUS) % MODULUS == a % MODULUS by {
      Arith.ModuloShift(a, k, MODULUS);
    }
  }
}
