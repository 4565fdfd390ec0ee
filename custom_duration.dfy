/**
 * CustomDuration: a duration record whose decimal seconds are split into whole
 * seconds (rounded toward negative infinity) and nanoseconds (the remaining
 * fraction scaled by 10^9 and rounded HALF_UP). The same split turns a civil
 * decimal second into LocalTime's second and nano.
 */
module CustomDurationModel {
  import opened Decimal

  datatype CustomDuration = CustomDuration(
    years: int, months: int, days: int, hours: int, minutes: int, seconds: int, nanoSeconds: int)

  /** getSeconds: setScale(0, FLOOR).intValue(). */
  function GetSeconds(seconds: real): (r: int)
    ensures InInt32(r)
    ensures InInt32(Floor(seconds)) ==> r as real <= seconds < r as real + 1.0
  {
    ToInt32(Floor(seconds))
  }

  /** getNanoSeconds: (seconds - getSeconds) * 10^9, setScale(0, HALF_UP).intValue(). */
  function GetNanoSeconds(seconds: real): (r: int)
    ensures InInt32(r)
    ensures InInt32(Floor(seconds)) ==> 0 <= r <= GIGA
    ensures InInt32(Floor(seconds)) ==>
      -0.5 < (GetSeconds(seconds) as real + r as real / GIGA_REAL - seconds) * GIGA_REAL <= 0.5
  {
    var scaled := (seconds - GetSeconds(seconds) as real) * GIGA_REAL;
    ToInt32(HalfUp(scaled))
  }

  /** The record constructor taking decimal seconds: the other fields pass through unchanged. */
  function FromDecimalSeconds(years: int, months: int, days: int, hours: int, minutes: int, seconds: real)
    : (r: CustomDuration)
    ensures r.years == years && r.months == months && r.days == days
    ensures r.hours == hours && r.minutes == minutes
    ensures InInt32(Floor(seconds)) ==> r.seconds as real <= seconds < r.seconds as real + 1.0
    ensures InInt32(Floor(seconds)) ==> 0 <= r.nanoSeconds <= GIGA
    ensures InInt32(Floor(seconds)) ==>
      -0.5 < (r.seconds as real + r.nanoSeconds as real / GIGA_REAL - seconds) * GIGA_REAL <= 0.5
    ensures r.seconds == GetSeconds(seconds) && r.nanoSeconds == GetNanoSeconds(seconds)
  {
    CustomDuration(years, months, days, hours, minutes, GetSeconds(seconds), GetNanoSeconds(seconds))
  }

  /** A whole number of seconds is kept as it is, with no nanoseconds. */
  lemma IntegralSeconds(k: int)
    requires InInt32(k)
    ensures GetSeconds(k as real) == k && GetNanoSeconds(k as real) == 0
  {
    assert Floor(k as real) == k;
    HalfUpOfInteger(0);
  }

  /** Flooring goes toward negative infinity: -1.25 s is -2 s and 750000000 ns. */
  lemma NegativeSecondsFloor()
    ensures GetSeconds(-1.25) == -2 && GetNanoSeconds(-1.25) == 750_000_000
  {
    assert Floor(-1.25) == -2;
    assert HalfUp(750_000_000.0) == 750_000_000;
  }

  /** A fraction at or above 0.9999999995 rounds up to a full 10^9 nanoseconds, with no carry into the seconds. */
  lemma NanosecondsCanReachGiga()
    ensures GetSeconds(0.9999999996) == 0 && GetNanoSeconds(0.9999999996) == GIGA
  {
    assert Floor(0.9999999996) == 0;
    assert HalfUp(999_999_999.6) == GIGA;
  }
}
