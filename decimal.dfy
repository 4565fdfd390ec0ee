/**
 * Exact decimal arithmetic as the Java code uses it: BigDecimal values are
 * Dafny reals (every division here is by a power of ten, so nothing is lost),
 * and the rounding modes, truncating casts and 32-bit narrowings are written out.
 */
module Decimal {

  /** Constants.ANALOG_GIGA */
  const GIGA: int := 1_000_000_000
  const GIGA_REAL: real := 1_000_000_000.0
  /** Constants.UTC_MAX_PRECISION */
  const UTC_MAX_PRECISION: int := 9

  const INT_MIN: int := -0x8000_0000
  const INT_MAX: int := 0x7fff_ffff

  predicate InInt32(x: int) {
    INT_MIN <= x <= INT_MAX
  }

  /** Java's narrowing of a long (or BigInteger) to int: keep the low 32 bits. */
  function ToInt32(x: int): (r: int)
    ensures InInt32(r)
    ensures (x - r) % 0x1_0000_0000 == 0
    ensures InInt32(x) ==> r == x
  {
    (x - INT_MIN) % 0x1_0000_0000 + INT_MIN
  }

  /** BigDecimal.setScale(0, RoundingMode.FLOOR): the greatest integer not above x. */
  function Floor(x: real): (r: int)
    ensures r as real <= x < r as real + 1.0
  {
    x.Floor
  }

  /** BigDecimal.intValue before narrowing: drop the fraction, toward zero. */
  function Trunc(x: real): (r: int)
    ensures 0.0 <= x ==> 0 <= r && r as real <= x < r as real + 1.0
    ensures x < 0.0 ==> r <= 0 && r as real - 1.0 < x <= r as real
  {
    if x >= 0.0 then x.Floor else -((-x).Floor)
  }

  /** BigDecimal.setScale(0, RoundingMode.HALF_UP): nearest integer, ties away from zero. */
  function HalfUp(x: real): (r: int)
    ensures 0.0 <= x ==> r as real - 0.5 <= x < r as real + 0.5
    ensures x < 0.0 ==> r as real - 0.5 < x <= r as real + 0.5
  {
    if x >= 0.0 then (x + 0.5).Floor else -((-x + 0.5).Floor)
  }

  /** x * 10^n, one factor of ten at a time (every step is linear). */
  function ShiftLeft(x: real, n: nat): real {
    if n == 0 then x else 10.0 * ShiftLeft(x, n - 1)
  }

  /** x / 10^n, one factor of ten at a time. */
  function ShiftRight(x: real, n: nat): real {
    if n == 0 then x else ShiftRight(x, n - 1) / 10.0
  }

  /** Moves the decimal point p places to the right (to the left when p is negative). */
  function MovePoint(x: real, p: int): real {
    if p >= 0 then ShiftLeft(x, p) else ShiftRight(x, -p)
  }

  /** BigDecimal.setScale(p, RoundingMode.HALF_UP): round to p places after the point. */
  function SetScaleHalfUp(x: real, p: int): real {
    if p >= 0 then ShiftRight(HalfUp(ShiftLeft(x, p)) as real, p)
    else ShiftLeft(HalfUp(ShiftRight(x, -p)) as real, -p)
  }

  lemma {:induction false} ShiftLeftLinear(a: real, b: real, n: nat)
    ensures ShiftLeft(a - b, n) == ShiftLeft(a, n) - ShiftLeft(b, n)
  {
    if n > 0 { ShiftLeftLinear(a, b, n - 1); }
  }

  lemma {:induction false} ShiftRightLinear(a: real, b: real, n: nat)
    ensures ShiftRight(a - b, n) == ShiftRight(a, n) - ShiftRight(b, n)
  {
    if n > 0 { ShiftRightLinear(a, b, n - 1); }
  }

  lemma {:induction false} ShiftLeftTenth(x: real, n: nat)
    ensures ShiftLeft(x / 10.0, n) == ShiftLeft(x, n) / 10.0
  {
    if n > 0 { ShiftLeftTenth(x, n - 1); }
  }

  lemma {:induction false} ShiftRightTimesTen(x: real, n: nat)
    ensures ShiftRight(10.0 * x, n) == 10.0 * ShiftRight(x, n)
  {
    if n > 0 { ShiftRightTimesTen(x, n - 1); }
  }

  /** Shifting right and then left by the same amount gives the value back. */
  lemma {:induction false} ShiftLeftRight(x: real, n: nat)
    ensures ShiftLeft(ShiftRight(x, n), n) == x
  {
    if n > 0 {
      calc {
        ShiftLeft(ShiftRight(x, n), n);
        10.0 * ShiftLeft(ShiftRight(x, n - 1) / 10.0, n - 1);
        { ShiftLeftTenth(ShiftRight(x, n - 1), n - 1); }
        ShiftLeft(ShiftRight(x, n - 1), n - 1);
        { ShiftLeftRight(x, n - 1); }
        x;
      }
    }
  }

  /** Shifting left and then right by the same amount gives the value back. */
  lemma {:induction false} ShiftRightLeft(x: real, n: nat)
    ensures ShiftRight(ShiftLeft(x, n), n) == x
  {
    if n > 0 {
      calc {
        ShiftRight(ShiftLeft(x, n), n);
        ShiftRight(10.0 * ShiftLeft(x, n - 1), n - 1) / 10.0;
        { ShiftRightTimesTen(ShiftLeft(x, n - 1), n - 1); }
        ShiftRight(ShiftLeft(x, n - 1), n - 1);
        { ShiftRightLeft(x, n - 1); }
        x;
      }
    }
  }

  /** Rounding to p places moves a value by at most half a unit in the p-th place. */
  lemma SetScaleHalfUpError(x: real, p: int)
    ensures -0.5 <= MovePoint(SetScaleHalfUp(x, p) - x, p) <= 0.5
  {
    var r := SetScaleHalfUp(x, p);
    if p >= 0 {
      var k := HalfUp(ShiftLeft(x, p)) as real;
      ShiftLeftLinear(r, x, p);
      ShiftLeftRight(k, p);
    } else {
      var k := HalfUp(ShiftRight(x, -p)) as real;
      ShiftRightLinear(r, x, -p);
      ShiftRightLeft(k, -p);
    }
  }

  /**
   * What setScale(p, HALF_UP) stores: seen with its decimal point moved p places,
   * the result is the HALF_UP integer of x moved the same way, so it lies on the
   * 10^-p grid.
   */
  lemma SetScaleHalfUpGrid(x: real, p: int)
    ensures MovePoint(SetScaleHalfUp(x, p), p) == HalfUp(MovePoint(x, p)) as real
  {
    if p >= 0 {
      ShiftLeftRight(HalfUp(ShiftLeft(x, p)) as real, p);
    } else {
      ShiftRightLeft(HalfUp(ShiftRight(x, -p)) as real, -p);
    }
  }

  /** Rounding leaves an integer alone. */
  lemma HalfUpOfInteger(k: int)
    ensures HalfUp(k as real) == k
  {
  }

  /** 10^n times an integer, as an integer. */
  function ShiftLeftInt(k: int, n: nat): int {
    if n == 0 then k else 10 * ShiftLeftInt(k, n - 1)
  }

  lemma {:induction false} ShiftLeftOfInteger(k: int, n: nat)
    ensures ShiftLeft(k as real, n) == ShiftLeftInt(k, n) as real
  {
    if n > 0 { ShiftLeftOfInteger(k, n - 1); }
  }

  lemma {:induction false} ShiftLeftAdd(x: real, a: nat, b: nat)
    ensures ShiftLeft(x, a + b) == ShiftLeft(ShiftLeft(x, a), b)
  {
    if b > 0 { ShiftLeftAdd(x, a, b - 1); }
  }

  lemma {:induction false} ShiftLeftMonotonic(x: real, y: real, n: nat)
    requires x <= y
    ensures ShiftLeft(x, n) <= ShiftLeft(y, n)
    ensures x < y ==> ShiftLeft(x, n) < ShiftLeft(y, n)
  {
    if n > 0 { ShiftLeftMonotonic(x, y, n - 1); }
  }

  lemma {:induction false} ShiftRightMonotonic(x: real, y: real, n: nat)
    requires x <= y
    ensures ShiftRight(x, n) <= ShiftRight(y, n)
  {
    if n > 0 { ShiftRightMonotonic(x, y, n - 1); }
  }

  /** A value with no more than p decimal places is left unchanged by rounding to p places. */
  lemma SetScaleHalfUpExact(x: real, p: nat, k: int)
    requires ShiftLeft(x, p) == k as real
    ensures SetScaleHalfUp(x, p) == x
  {
    HalfUpOfInteger(k);
    ShiftRightLeft(x, p);
  }

  lemma HalfUpWithin(a: real, top: int)
    requires 0.0 <= a <= top as real
    ensures 0 <= HalfUp(a) <= top
  {
  }

  lemma ShiftedUnitInterval(x: real, p: nat)
    requires 0.0 <= x <= 1.0
    ensures 0.0 <= ShiftLeft(x, p) <= ShiftLeftInt(1, p) as real
  {
    ShiftLeftOfInteger(1, p);
    ShiftLeftOfInteger(0, p);
    ShiftLeftMonotonic(0.0, x, p);
    ShiftLeftMonotonic(x, 1.0, p);
  }

  /** Rounding a value in [0, 1] to p >= 0 places stays in [0, 1]. */
  lemma SetScaleHalfUpUnitInterval(x: real, p: nat)
    requires 0.0 <= x <= 1.0
    ensures 0.0 <= SetScaleHalfUp(x, p) <= 1.0
  {
    var top := ShiftLeftInt(1, p);
    ShiftedUnitInterval(x, p);
    var k := HalfUp(ShiftLeft(x, p));
    assert SetScaleHalfUp(x, p) == ShiftRight(k as real, p);
    HalfUpWithin(ShiftLeft(x, p), top);
    ShiftRightMonotonic(0.0, k as real, p);
    ShiftRightMonotonic(k as real, top as real, p);
    ShiftRightZero(p);
    ShiftLeftOfInteger(1, p);
    ShiftRightLeft(1.0, p);
  }

  lemma {:induction false} ShiftRightZero(n: nat)
    ensures ShiftRight(0.0, n) == 0.0
  {
    if n > 0 { ShiftRightZero(n - 1); }
  }

  /** Java's long `/`: the quotient truncated toward zero. */
  function JavaDiv(a: int, b: int): int
    requires b > 0
  {
    if a >= 0 then a / b else -((-a) / b)
  }

  /** Java's long `%`: the remainder takes the sign of the dividend. */
  function JavaRem(a: int, b: int): (r: int)
    requires b > 0
    ensures JavaDiv(a, b) * b + r == a
    ensures 0 <= a ==> 0 <= r < b
    ensures a < 0 ==> -b < r <= 0
  {
    if a >= 0 then a % b else -((-a) % b)
  }
}
