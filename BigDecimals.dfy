/** The part of java.math.BigDecimal the services use. A decimal is an
    unscaled integer and a scale: its value is `unscaled × 10^-scale`.
    Equality of two `Decimal`s is structural, like `BigDecimal.equals`
    (10.0 and 10.00 differ); `SameValue` is `compareTo(...) == 0`. */
module BigDecimals {
  import opened Outcomes
  import Arith

  /** java.math.RoundingMode. */
  datatype RoundingMode = Up | Down | Ceiling | Floor | HalfUp | HalfDown | HalfEven | Unnecessary {
    predicate IsHalfMode() { this == HalfUp || this == HalfDown || this == HalfEven }
  }

  datatype Decimal = Decimal(unscaled: int, scale: int)

  function Pow10(n: nat): (r: nat)
    ensures r >= 1
  {
    if n == 0 then 1 else 10 * Pow10(n - 1)
  }

  lemma {:induction false} Pow10Add(a: nat, b: nat)
    ensures Pow10(a + b) == Pow10(a) * Pow10(b)
  {
    if a > 0 {
      Pow10Add(a - 1, b);
      assert Pow10(a + b) == 10 * Pow10(a - 1 + b);
    }
  }

  /** The value of `x` multiplied by `10^s`, an integer whenever `s` is at least x's scale. */
  function ValueAt(x: Decimal, s: int): int
    requires s >= x.scale
  {
    x.unscaled * Pow10(s - x.scale)
  }

  lemma ValueAtFiner(x: Decimal, s: int, t: int)
    requires x.scale <= s <= t
    ensures ValueAt(x, t) == ValueAt(x, s) * Pow10(t - s)
  {
    Pow10Add(s - x.scale, t - s);
    assert Pow10(t - x.scale) == Pow10(s - x.scale) * Pow10(t - s);
  }

  function MaxScale(a: Decimal, b: Decimal): int { if a.scale >= b.scale then a.scale else b.scale }

  /** `a.compareTo(b) == 0`: equal values, whatever the scales. */
  predicate SameValue(a: Decimal, b: Decimal) {
    ValueAt(a, MaxScale(a, b)) == ValueAt(b, MaxScale(a, b))
  }

  /** `x.signum()`. */
  function Signum(x: Decimal): (r: int)
    ensures r == -1 || r == 0 || r == 1
    ensures r < 0 <==> ValueAt(x, x.scale) < 0
    ensures r == 0 <==> ValueAt(x, x.scale) == 0
  {
    if x.unscaled < 0 then -1 else if x.unscaled == 0 then 0 else 1
  }

  /** `a.add(b)`: exact, at the larger of the two scales. */
  function Add(a: Decimal, b: Decimal): (r: Decimal)
    ensures r.scale == MaxScale(a, b)
    ensures forall s :: s >= r.scale ==> ValueAt(r, s) == ValueAt(a, s) + ValueAt(b, s)
  {
    var m := MaxScale(a, b);
    var r := Decimal(ValueAt(a, m) + ValueAt(b, m), m);
    assert forall s :: s >= m ==> ValueAt(r, s) == ValueAt(a, s) + ValueAt(b, s) by {
      forall s | s >= m ensures ValueAt(r, s) == ValueAt(a, s) + ValueAt(b, s) {
        ValueAtFiner(a, m, s);
        ValueAtFiner(b, m, s);
        ValueAtFiner(r, m, s);
      }
    }
    r
  }

  /** `a.subtract(b)`: exact, at the larger of the two scales. */
  function Subtract(a: Decimal, b: Decimal): (r: Decimal)
    ensures r.scale == MaxScale(a, b)
    ensures forall s :: s >= r.scale ==> ValueAt(r, s) == ValueAt(a, s) - ValueAt(b, s)
  {
    var m := MaxScale(a, b);
    var r := Decimal(ValueAt(a, m) - ValueAt(b, m), m);
    assert forall s :: s >= m ==> ValueAt(r, s) == ValueAt(a, s) - ValueAt(b, s) by {
      forall s | s >= m ensures ValueAt(r, s) == ValueAt(a, s) - ValueAt(b, s) {
        ValueAtFiner(a, m, s);
        ValueAtFiner(b, m, s);
        ValueAtFiner(r, m, s);
      }
    }
    r
  }

  /** `a.multiply(b)`: exact, at the sum of the scales. */
  function Multiply(a: Decimal, b: Decimal): (r: Decimal)
    ensures r.scale == a.scale + b.scale
    ensures ValueAt(r, r.scale) == ValueAt(a, a.scale) * ValueAt(b, b.scale)
  {
    Decimal(a.unscaled * b.unscaled, a.scale + b.scale)
  }

  /** Subtracting what was added gives back the very same decimal when the addend's
      scale is not finer: a debit undone by a credit leaves a balance unchanged. */
  lemma SubtractUndoesAdd(a: Decimal, b: Decimal)
    requires b.scale <= a.scale
    ensures Subtract(Add(a, b), b) == a
    ensures Add(Subtract(a, b), b) == a
  {
  }

  // ---------------------------------------------------------------------------
  // Rounding an exact quotient n / d to an integer.

  function Abs(x: int): (r: int)
    ensures r >= 0
  {
    if x < 0 then -x else x
  }

  /** `(q - n/d) × |d|`: how far the integer q lies above the exact quotient n / d. */
  function Excess(q: int, n: int, d: int): int
    requires d != 0
  {
    if d > 0 then q * d - n else n - q * d
  }

  /** The exact quotient n / d is positive, zero or negative. */
  function QuotientSign(n: int, d: int): int
    requires d != 0
  {
    if n == 0 then 0 else if (n > 0) == (d > 0) then 1 else -1
  }

  /** An integer with this excess over a quotient of this sign is no farther from zero. */
  predicate TowardZero(excess: int, sign: int) {
    (sign > 0 ==> excess <= 0) && (sign < 0 ==> excess >= 0)
  }

  /** An integer with this excess over a quotient of this sign is no nearer to zero. */
  predicate AwayFromZero(excess: int, sign: int) {
    (sign > 0 ==> excess >= 0) && (sign < 0 ==> excess <= 0)
  }

  /** How far an integer may lie from the quotient: the excess `e` (over a divisor of
      magnitude `dd`) is under one unit, zero on an exact quotient, at most half a unit
      in the half modes. */
  predicate CloseToQuotient(mode: RoundingMode, e: int, dd: int, exact: bool) {
    && Abs(e) < dd
    && (exact ==> e == 0)
    && (mode.IsHalfMode() ==> 2 * Abs(e) <= dd)
  }

  /** The side each mode rounds to, for an integer `value` with excess `e` over a
      quotient of sign `sign` and divisor magnitude `dd`: the four directed modes go
      the way their names say; on a tie HALF_UP goes away from zero, HALF_DOWN toward
      zero and HALF_EVEN to the even neighbour. */
  predicate RoundsAsModeSays(mode: RoundingMode, value: int, e: int, dd: int, sign: int) {
    && (mode == Floor ==> e <= 0)
    && (mode == Ceiling ==> e >= 0)
    && (mode == Down ==> TowardZero(e, sign))
    && (mode == Up ==> AwayFromZero(e, sign))
    && (mode == HalfUp && 2 * Abs(e) == dd ==> AwayFromZero(e, sign))
    && (mode == HalfDown && 2 * Abs(e) == dd ==> TowardZero(e, sign))
    && (mode == HalfEven && 2 * Abs(e) == dd ==> value % 2 == 0)
  }

  /** Rounds n / d to an integer as `mode` says; `Unnecessary` fails on an inexact quotient.
      How close the result lies and on which side is stated by `RoundingBounds` and
      `RoundingDirection`. */
  function RoundQuotient(n: int, d: int, mode: RoundingMode): (r: Result<int>)
    requires d != 0
    ensures r.Err? <==> mode == Unnecessary && n % Abs(d) != 0
    ensures r.Err? ==> r.failure == ArithmeticError("Rounding necessary")
  {
    var nn := if d > 0 then n else -n;
    var dd := Abs(d);
    var q := nn / dd;
    var rem := nn % dd;
    RemainderSign(n, d, nn, dd, rem);
    if mode == Unnecessary && rem != 0 then Err(ArithmeticError("Rounding necessary"))
    else if ChooseUp(q, rem, dd, nn > 0, mode) then Ok(q + 1)
    else Ok(q)
  }

  lemma RemainderSign(n: int, d: int, nn: int, dd: int, rem: int)
    requires d != 0 && nn == (if d > 0 then n else -n) && dd == Abs(d) && rem == nn % dd
    ensures (n % dd == 0) <==> (rem == 0)
  {
    if d < 0 {
      NegatedRemainder(n, dd);
    }
  }

  /** The rounded integer lies less than one unit from n / d, exactly on it when the
      quotient is exact, and within half a unit in the half modes. */
  lemma RoundingBounds(n: int, d: int, mode: RoundingMode)
    requires d != 0
    ensures var r := RoundQuotient(n, d, mode);
      r.Ok? ==> CloseToQuotient(mode, Excess(r.value, n, d), Abs(d), n % Abs(d) == 0)
  {
    var nn, dd, q, rem, v, e := Chosen(n, d, mode);
    ChoiceFacts(q, rem, dd, nn > 0, QuotientSign(n, d), mode, v, e);
    var r := RoundQuotient(n, d, mode);
    if r.Ok? {
      assert r.value == v;
      assert CloseToQuotient(mode, Excess(v, n, d), Abs(d), n % Abs(d) == 0);
    }
  }

  /** Each mode rounds n / d to the side its name says, ties included. */
  lemma RoundingDirection(n: int, d: int, mode: RoundingMode)
    requires d != 0
    ensures var r := RoundQuotient(n, d, mode);
      r.Ok? ==> RoundsAsModeSays(mode, r.value, Excess(r.value, n, d), Abs(d), QuotientSign(n, d))
  {
    var nn, dd, q, rem, v, e := Chosen(n, d, mode);
    ChoiceFacts(q, rem, dd, nn > 0, QuotientSign(n, d), mode, v, e);
    var r := RoundQuotient(n, d, mode);
    if r.Ok? {
      assert r.value == v;
      assert RoundsAsModeSays(mode, v, Excess(v, n, d), Abs(d), QuotientSign(n, d));
    }
  }

  /** The intermediate values of `RoundQuotient` and the excess of the integer it picks. */
  lemma Chosen(n: int, d: int, mode: RoundingMode) returns (nn: int, dd: int, q: int, rem: int, v: int, e: int)
    requires d != 0
    ensures dd == Abs(d) && 0 <= rem < dd && (n % dd == 0 <==> rem == 0)
    ensures (QuotientSign(n, d) > 0) == (nn > 0) && (QuotientSign(n, d) == 0 ==> rem == 0)
    ensures v == (if ChooseUp(q, rem, dd, nn > 0, mode) then q + 1 else q)
    ensures e == (if ChooseUp(q, rem, dd, nn > 0, mode) then dd - rem else -rem)
    ensures RoundQuotient(n, d, mode) == if mode == Unnecessary && rem != 0 then Err(ArithmeticError("Rounding necessary")) else Ok(v)
    ensures Excess(v, n, d) == e
  {
    nn := if d > 0 then n else -n;
    dd := Abs(d);
    q := nn / dd;
    rem := nn % dd;
    ExcessOfFloor(n, d, nn, dd, q, rem);
    assert nn == 0 ==> rem == 0;
    v := if ChooseUp(q, rem, dd, nn > 0, mode) then q + 1 else q;
    e := if ChooseUp(q, rem, dd, nn > 0, mode) then dd - rem else -rem;
  }

  /** What the rounding choice guarantees, stated on the excess `e` of the chosen
      integer `v` over the quotient `q + rem / dd` whose sign is `sign`. */
  lemma ChoiceFacts(q: int, rem: int, dd: int, positive: bool, sign: int, mode: RoundingMode, v: int, e: int)
    requires 0 <= rem < dd
    requires (sign > 0) == positive && (sign == 0 ==> rem == 0)
    requires v == (if ChooseUp(q, rem, dd, positive, mode) then q + 1 else q)
    requires e == (if ChooseUp(q, rem, dd, positive, mode) then dd - rem else -rem)
    ensures CloseToQuotient(mode, e, dd, rem == 0)
    ensures RoundsAsModeSays(mode, v, e, dd, sign)
  {
  }

  /** Whether rounding the quotient `q + rem / dd` (0 <= rem < dd) goes up to q + 1. */
  function ChooseUp(q: int, rem: int, dd: int, positive: bool, mode: RoundingMode): bool
  {
    if rem == 0 then false
    else match mode
      case Up => positive
      case Down => !positive
      case Ceiling => true
      case Floor => false
      case HalfUp => 2 * rem > dd || (2 * rem == dd && positive)
      case HalfDown => 2 * rem > dd || (2 * rem == dd && !positive)
      case HalfEven => 2 * rem > dd || (2 * rem == dd && q % 2 != 0)
      case Unnecessary => false
  }

  /** The floor quotient of the normalised pair sits below n / d by rem / dd, and
      the next integer sits above it by (dd - rem) / dd. */
  lemma ExcessOfFloor(n: int, d: int, nn: int, dd: int, q: int, rem: int)
    requires d != 0 && nn == (if d > 0 then n else -n) && dd == Abs(d)
    requires q == nn / dd && rem == nn % dd
    ensures 0 <= rem < dd && nn == q * dd + rem
    ensures Excess(q, n, d) == -rem
    ensures Excess(q + 1, n, d) == dd - rem
    ensures (n % dd == 0) <==> (rem == 0)
    ensures QuotientSign(n, d) == (if nn > 0 then 1 else if nn == 0 then 0 else -1)
  {
    assert nn == q * dd + rem;
    assert (q + 1) * dd == q * dd + dd;
    if d > 0 {
      assert Excess(q, n, d) == q * d - n;
    } else {
      assert q * d == -(q * dd);
      assert (q + 1) * d == -((q + 1) * dd);
      NegatedRemainder(n, dd);
    }
  }

  lemma NegatedRemainder(n: int, dd: int)
    requires dd > 0
    ensures (n % dd == 0) <==> ((-n) % dd == 0)
  {
    var q := n / dd;
    assert n == q * dd + n % dd;
    if n % dd == 0 {
      assert -n == (-q) * dd;
      Arith.MultipleHasZeroRemainder(-n, dd, -q);
    }
    var q' := (-n) / dd;
    assert -n == q' * dd + (-n) % dd;
    if (-n) % dd == 0 {
      assert n == (-q') * dd;
      Arith.MultipleHasZeroRemainder(n, dd, -q');
    }
  }

  // ---------------------------------------------------------------------------
  // Rounded BigDecimal operations.

  /** n / d equals (a / b) × 10^scale: the unscaled quotient of a result at `scale`. */
  function DivisionTerms(a: Decimal, b: Decimal, scale: int): (nd: (int, int))
    ensures b.unscaled != 0 ==> nd.1 != 0
  {
    var e := scale - a.scale + b.scale;
    if e >= 0 then (a.unscaled * Pow10(e), b.unscaled)
    else (a.unscaled, b.unscaled * Pow10(-e))
  }

  /** `a.divide(b, scale, mode)`: the quotient rounded to exactly `scale` digits. */
  function Divide(a: Decimal, b: Decimal, scale: int, mode: RoundingMode): (r: Result<Decimal>)
    ensures r.Err? <==>
              || b.unscaled == 0
              || (mode == Unnecessary && DivisionTerms(a, b, scale).0 % Abs(DivisionTerms(a, b, scale).1) != 0)
    ensures b.unscaled == 0 ==> r == Err(DivisionByZero)
    ensures r.Ok? ==> r.value.scale == scale
    ensures r.Ok? ==> var (n, d) := DivisionTerms(a, b, scale);
      Abs(Excess(r.value.unscaled, n, d)) < Abs(d)
    ensures r.Ok? && mode.IsHalfMode() ==> var (n, d) := DivisionTerms(a, b, scale);
      2 * Abs(Excess(r.value.unscaled, n, d)) <= Abs(d)
    ensures r.Ok? ==> var (n, d) := DivisionTerms(a, b, scale);
      RoundsAsModeSays(mode, r.value.unscaled, Excess(r.value.unscaled, n, d), Abs(d), QuotientSign(n, d))
  {
    if b.unscaled == 0 then Err(DivisionByZero)
    else
      var (n, d) := DivisionTerms(a, b, scale);
      var q :- RoundQuotient(n, d, mode);
      RoundingBounds(n, d, mode);
      RoundingDirection(n, d, mode);
      Ok(Decimal(q, scale))
  }

  /** `x.setScale(scale, mode)`: exact when the scale grows, rounded when it shrinks. */
  function SetScale(x: Decimal, scale: int, mode: RoundingMode): (r: Result<Decimal>)
    ensures r.Ok? ==> r.value.scale == scale
    ensures scale >= x.scale ==> r.Ok? && ValueAt(r.value, scale) == ValueAt(x, scale)
    ensures r.Ok? && scale < x.scale ==>
      Abs(Excess(r.value.unscaled, x.unscaled, Pow10(x.scale - scale))) < Pow10(x.scale - scale)
    ensures r.Ok? && scale < x.scale && mode.IsHalfMode() ==>
      2 * Abs(Excess(r.value.unscaled, x.unscaled, Pow10(x.scale - scale))) <= Pow10(x.scale - scale)
    ensures r.Err? <==> scale < x.scale && mode == Unnecessary && x.unscaled % Pow10(x.scale - scale) != 0
    ensures r.Ok? && scale < x.scale ==>
      var d := Pow10(x.scale - scale);
      RoundsAsModeSays(mode, r.value.unscaled, Excess(r.value.unscaled, x.unscaled, d), d, QuotientSign(x.unscaled, d))
  {
    if scale >= x.scale then Ok(Decimal(ValueAt(x, scale), scale))
    else
      var q :- RoundQuotient(x.unscaled, Pow10(x.scale - scale), mode);
      RoundingBounds(x.unscaled, Pow10(x.scale - scale), mode);
      RoundingDirection(x.unscaled, Pow10(x.scale - scale), mode);
      Ok(Decimal(q, scale))
  }

  /** Setting a number to the scale it already has leaves it as it is. */
  lemma SetScaleToOwnScale(x: Decimal, mode: RoundingMode)
    ensures SetScale(x, x.scale, mode) == Ok(x)
  {
    assert ValueAt(x, x.scale) == x.unscaled * Pow10(0);
  }

  /** The example of the with-conversion transfer test: 10.0 / 1.12 at scale 10, HALF_UP. */
  lemma DivideExample()
    ensures Divide(Decimal(100, 1), Decimal(112, 2), 10, HalfUp) == Ok(Decimal(89285714286, 10))
  {
    assert Pow10(11) == 100000000000;
  }

  /** 60.0 set to scale 10 is 60.0000000000. */
  lemma SetScaleExample()
    ensures SetScale(Decimal(600, 1), 10, HalfUp) == Ok(Decimal(600000000000, 10))
  {
    assert Pow10(9) == 1000000000;
  }
}
