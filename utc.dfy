/**
 * The Utc helper: a pair of epoch seconds and a decimal "last second fraction",
 * built from an Instant, from a millisecond count or from a Ballerina
 * [int, decimal] tuple, and turned back into a tuple or an Instant.
 *
 * Which constructor ran decides what the decimal field means: a fraction of a
 * second for the Instant and millisecond constructors, a count of nanoseconds
 * for the tuple constructor, which generateInstant expects.
 */
module UtcModel {
  import opened Wrappers
  import opened Decimal
  import opened JavaTime

  /** A member of a Ballerina Utc tuple: the int seconds or the decimal fraction. */
  datatype UtcElement = IntElement(i: int) | DecimalElement(d: real)

  /** new BigDecimal(element.toString()): the element's numeric value. */
  function ElementValue(e: UtcElement): real {
    match e
    case IntElement(i) => i as real
    case DecimalElement(d) => d
  }

  datatype Utc = Utc(secondsFromEpoc: int, lastSecondFraction: real)

  /** Utc(Instant): the nano-of-second divided by 10^9, which is exact. */
  function FromInstant(i: Instant): (r: Utc)
    requires ValidInstant(i)
    ensures r.secondsFromEpoc == i.epochSecond
    ensures 0.0 <= r.lastSecondFraction < 1.0
    ensures r.lastSecondFraction * GIGA_REAL == i.nano as real
  {
    Utc(i.epochSecond, i.nano as real / GIGA_REAL)
  }

  /** Utc(Instant, precision): the fraction rounded HALF_UP to the given number of places. */
  function FromInstantWithPrecision(i: Instant, precision: int): (r: Utc)
    requires ValidInstant(i)
    ensures r.secondsFromEpoc == i.epochSecond
    ensures MovePoint(r.lastSecondFraction, precision) == HalfUp(MovePoint(i.nano as real / GIGA_REAL, precision)) as real
    ensures -0.5 <= MovePoint(r.lastSecondFraction - i.nano as real / GIGA_REAL, precision) <= 0.5
    ensures precision >= 0 ==> 0.0 <= r.lastSecondFraction <= 1.0
  {
    var fraction := i.nano as real / GIGA_REAL;
    SetScaleHalfUpGrid(fraction, precision);
    SetScaleHalfUpError(fraction, precision);
    RoundedFractionBounds(fraction, precision);
    Utc(i.epochSecond, SetScaleHalfUp(fraction, precision))
  }

  lemma RoundedFractionBounds(fraction: real, precision: int)
    requires 0.0 <= fraction <= 1.0
    ensures precision >= 0 ==> 0.0 <= SetScaleHalfUp(fraction, precision) <= 1.0
  {
    if precision >= 0 {
      SetScaleHalfUpUnitInterval(fraction, precision);
    }
  }

  /**
   * Utc(BArray): a two-element tuple stores its fraction multiplied by 10^9, a
   * one-element tuple only its seconds, and any other length leaves (0, 0).
   */
  function FromTuple(utc: seq<UtcElement>): (r: Utc)
    requires |utc| == 1 || |utc| == 2 ==> utc[0].IntElement?
    ensures |utc| == 2 ==> r.secondsFromEpoc == utc[0].i && r.lastSecondFraction == ElementValue(utc[1]) * GIGA_REAL
    ensures |utc| == 1 ==> r == Utc(utc[0].i, 0.0)
    ensures |utc| != 1 && |utc| != 2 ==> r == Utc(0, 0.0)
  {
    if |utc| == 2 then Utc(utc[0].i, ElementValue(utc[1]) * GIGA_REAL)
    else if |utc| == 1 then Utc(utc[0].i, 0.0)
    else Utc(0, 0.0)
  }

  /**
   * Utc(long millis), and Utc(Date) on date.getTime(): Java's truncating `/` and
   * `%` split the count, so a negative count gives a negative fraction.
   */
  function FromMillis(millis: int): (r: Utc)
    ensures r.secondsFromEpoc as real * 1000.0 + r.lastSecondFraction * 1000.0 == millis as real
    ensures r.secondsFromEpoc == JavaDiv(millis, 1000)
    ensures -1.0 < r.lastSecondFraction < 1.0
    ensures millis >= 0 ==> r.lastSecondFraction >= 0.0
    ensures millis < 0 ==> r.lastSecondFraction <= 0.0
  {
    var remainder := JavaRem(millis, 1000);
    MillisFractionExact(remainder);
    Utc(JavaDiv(millis, 1000), SetScaleHalfUp(remainder as real / 1000.0, UTC_MAX_PRECISION))
  }

  /** Whole milliseconds have three decimal places, so rounding to nine changes nothing. */
  lemma MillisFractionExact(k: int)
    ensures SetScaleHalfUp(k as real / 1000.0, UTC_MAX_PRECISION) == k as real / 1000.0
  {
    var x := k as real / 1000.0;
    assert ShiftLeft(x, 1) == 10.0 * x;
    assert ShiftLeft(x, 2) == 100.0 * x;
    assert ShiftLeft(x, 3) == k as real;
    ShiftLeftAdd(x, 3, 6);
    ShiftLeftOfInteger(k, 6);
    SetScaleHalfUpExact(x, UTC_MAX_PRECISION, ShiftLeftInt(k, 6));
  }

  /** build(): the tuple (secondsFromEpoc, lastSecondFraction). */
  function Build(u: Utc): (r: seq<UtcElement>)
    ensures |r| == 2 && r[0].IntElement? && r[1].DecimalElement?
    ensures r[0].i == u.secondsFromEpoc && ElementValue(r[1]) == u.lastSecondFraction
  {
    [IntElement(u.secondsFromEpoc), DecimalElement(u.lastSecondFraction)]
  }

  /**
   * generateInstant(): the field, truncated to an int (intValue), is the
   * nanosecond adjustment; Instant.ofEpochSecond carries it into the seconds.
   */
  function GenerateInstant(u: Utc): (r: Instant)
    ensures ValidInstant(r)
    ensures InstantValue(r) == u.secondsFromEpoc as real + ToInt32(Trunc(u.lastSecondFraction)) as real / GIGA_REAL
  {
    OfEpochSecond(u.secondsFromEpoc, ToInt32(Trunc(u.lastSecondFraction)))
  }

  /** generateZonedDateAtZ(): the same instant, viewed at offset zero in the zone "Z". */
  function GenerateZonedDateAtZ(u: Utc): (r: ZonedDateTime)
    ensures r.offset == 0 && r.zone == ZoneOffsetId(0) && ZoneIdText(r.zone) == "Z"
    ensures 1 <= r.dateTime.date.month <= 12 && ToInstant(r) == GenerateInstant(u)
  {
    AtOffsetRoundTrip(GenerateInstant(u), 0, ZoneOffsetId(0));
    AtOffset(GenerateInstant(u), 0, ZoneOffsetId(0))
  }

  // ---------------------------------------------------------------------
  // Properties

  /** Rounding to a precision can reach a whole second without carrying into the seconds. */
  lemma PrecisionCanReachOne()
    ensures FromInstantWithPrecision(Instant(0, 999_600_000), 3) == Utc(0, 1.0)
  {
    var x := 999_600_000 as real / GIGA_REAL;
    assert x == 0.9996;
    assert ShiftLeft(x, 1) == 9.996;
    assert ShiftLeft(x, 2) == 99.96;
    assert ShiftLeft(x, 3) == 999.6;
    assert HalfUp(999.6) == 1000;
    assert ShiftRight(1000.0, 3) == 1.0;
  }

  /** A negative millisecond count keeps its sign in both parts. */
  lemma MillisTruncateTowardZero()
    ensures FromMillis(-1500) == Utc(-1, -0.5)
  {
  }

  /** A tuple built from an Instant-made Utc and read back yields that Instant. */
  lemma BuildThenGenerate(i: Instant)
    requires ValidInstant(i)
    ensures GenerateInstant(FromTuple(Build(FromInstant(i)))) == i
  {
    var field := FromTuple(Build(FromInstant(i))).lastSecondFraction;
    assert field == i.nano as real;
    assert Trunc(field) == i.nano;
  }

  /**
   * Reading a tuple with a fraction in [0, 1) and storing the Instant again
   * keeps the seconds and truncates the fraction to whole nanoseconds.
   */
  lemma TupleRoundTrip(seconds: int, fraction: real)
    requires 0.0 <= fraction < 1.0
    ensures var n := Trunc(fraction * GIGA_REAL);
      FromInstant(GenerateInstant(FromTuple([IntElement(seconds), DecimalElement(fraction)])))
        == Utc(seconds, n as real / GIGA_REAL)
  {
    var n := Trunc(fraction * GIGA_REAL);
    assert 0 <= n < GIGA;
    assert ToInt32(n) == n;
  }

  /** A Utc made from an Instant keeps its fraction below one, so generateInstant drops it. */
  lemma InstantFractionDropped(i: Instant)
    requires ValidInstant(i)
    ensures GenerateInstant(FromInstant(i)) == Instant(i.epochSecond, 0)
  {
    assert Trunc(FromInstant(i).lastSecondFraction) == 0;
  }

  /** The same holds for a Utc made from milliseconds, whose fraction lies strictly between -1 and 1. */
  lemma MillisFractionDropped(millis: int)
    ensures GenerateInstant(FromMillis(millis)) == Instant(JavaDiv(millis, 1000), 0)
  {
    assert Trunc(FromMillis(millis).lastSecondFraction) == 0;
  }
}
