/**
 * createZoneDateTimeFromCivilValues: the fields of a Ballerina Civil record
 * turned into a ZonedDateTime. The decimal second is split into a floored whole
 * second and HALF_UP nanoseconds, the decimal zone second is rounded HALF_UP,
 * every long is narrowed to an int, and the zone is either the numeric offset
 * (PREFER_ZONE_OFFSET) or the zone named by the abbreviation (any other mode).
 */
module CivilValues {
  import opened Wrappers
  import opened Decimal
  import opened Calendar
  import opened JavaTime
  import opened CustomDurationModel

  /** The names of HeaderZoneHandling's constants, as the mode string carries them. */
  const PREFER_TIME_ABBREV: string := "PREFER_TIME_ABBREV"
  const PREFER_ZONE_OFFSET: string := "PREFER_ZONE_OFFSET"
  const ZONE_OFFSET_WITH_TIME_ABBREV_COMMENT: string := "ZONE_OFFSET_WITH_TIME_ABBREV_COMMENT"

  /**
   * The local date-time of the civil fields: LocalDateTime.of on the narrowed
   * fields and the split second, so every rejection LocalDate.of and
   * LocalTime.of make (a day beyond the month, hour 24, second 60 or more,
   * nanoseconds that rounded up to 10^9) is a failure.
   */
  function LocalFromCivilValues(year: int, month: int, day: int, hour: int, minute: int, second: real)
    : (r: Result<LocalDateTime>)
    ensures r.Success? <==>
      IsLocalDate(ToInt32(year), ToInt32(month), ToInt32(day))
      && ValidTime(ToInt32(hour), ToInt32(minute), GetSeconds(second), GetNanoSeconds(second))
    ensures r.Success? ==> ValidLocalDateTime(r.value)
    ensures r.Success? ==> r.value.date == Date(ToInt32(year), ToInt32(month), ToInt32(day))
    ensures r.Success? ==> r.value.hour == ToInt32(hour) && r.value.minute == ToInt32(minute)
    ensures r.Success? ==> r.value.second == GetSeconds(second) && r.value.nano == GetNanoSeconds(second)
    ensures r.Success? && InInt32(Floor(second)) ==>
      -0.5 < (r.value.second as real + r.value.nano as real / GIGA_REAL - second) * GIGA_REAL <= 0.5
  {
    LocalDateTimeOf(ToInt32(year), ToInt32(month), ToInt32(day), ToInt32(hour), ToInt32(minute),
                    GetSeconds(second), GetNanoSeconds(second))
  }

  /**
   * ZoneId.of(ZoneOffset.ofHoursMinutesSeconds(hours, minutes, round(zoneSecond)).toString()):
   * the fixed offset, or the offset's rejection.
   */
  function OffsetZone(zoneHour: int, zoneMinute: int, zoneSecond: real): (r: Result<ZoneId>)
    ensures r.Success? ==> r.value.ZoneOffsetId? && ValidOffset(r.value.totalSeconds)
    ensures r.Success? ==>
      r.value.totalSeconds == ToInt32(zoneHour) * 3600 + ToInt32(zoneMinute) * 60 + ToInt32(HalfUp(zoneSecond))
    ensures r.Failure? ==> r == Failure(InvalidOffset)
    ensures r.Success? <==> OfHoursMinutesSeconds(ToInt32(zoneHour), ToInt32(zoneMinute), ToInt32(HalfUp(zoneSecond))).Success?
  {
    var total :- OfHoursMinutesSeconds(ToInt32(zoneHour), ToInt32(zoneMinute), ToInt32(HalfUp(zoneSecond)));
    Success(ZoneOffsetId(total))
  }

  /** The PREFER_ZONE_OFFSET path: the civil fields at the numeric offset; the offset is checked first. */
  function ZonedAtOffsetFromCivilValues(year: int, month: int, day: int, hour: int, minute: int, second: real,
                                        zoneHour: int, zoneMinute: int, zoneSecond: real)
    : (r: Result<ZonedDateTime>)
    ensures r.Success? <==>
      OffsetZone(zoneHour, zoneMinute, zoneSecond).Success?
      && LocalFromCivilValues(year, month, day, hour, minute, second).Success?
    ensures OffsetZone(zoneHour, zoneMinute, zoneSecond).Failure? ==> r == Failure(InvalidOffset)
    ensures r.Success? ==> ValidZoned(r.value)
    ensures r.Success? ==> r.value.zone == OffsetZone(zoneHour, zoneMinute, zoneSecond).value
    ensures r.Success? ==> r.value.dateTime == LocalFromCivilValues(year, month, day, hour, minute, second).value
  {
    var zone :- OffsetZone(zoneHour, zoneMinute, zoneSecond);
    var local :- LocalFromCivilValues(year, month, day, hour, minute, second);
    Success(ZonedDateTime(local, zone.totalSeconds, zone))
  }

  /**
   * createZoneDateTimeFromCivilValues: PREFER_ZONE_OFFSET uses the numeric
   * offset and ignores the abbreviation; every other mode resolves the
   * abbreviation and ignores the numeric offset.
   */
  function ZonedFromCivilValues(year: int, month: int, day: int, hour: int, minute: int, second: real,
                                zoneHour: int, zoneMinute: int, zoneSecond: real,
                                zoneAbbr: Option<string>, zoneHandling: string, p: Platform)
    : (r: Result<ZonedDateTime>)
    requires p.Valid()
    requires zoneHandling != PREFER_ZONE_OFFSET ==> zoneAbbr.Some?
    ensures r.Success? ==> ValidZoned(r.value)
    ensures zoneHandling == PREFER_ZONE_OFFSET ==>
      r == ZonedAtOffsetFromCivilValues(year, month, day, hour, minute, second, zoneHour, zoneMinute, zoneSecond)
    ensures zoneHandling != PREFER_ZONE_OFFSET ==>
      (r.Success? <==> p.zoneOf(zoneAbbr.value).Success?
                       && LocalFromCivilValues(year, month, day, hour, minute, second).Success?)
    ensures zoneHandling != PREFER_ZONE_OFFSET && r.Success? ==> r.value.zone == p.zoneOf(zoneAbbr.value).value
  {
    if zoneHandling == PREFER_ZONE_OFFSET then
      ZonedAtOffsetFromCivilValues(year, month, day, hour, minute, second, zoneHour, zoneMinute, zoneSecond)
    else
      var zone :- p.zoneOf(zoneAbbr.value);
      var local :- LocalFromCivilValues(year, month, day, hour, minute, second);
      Success(ZonedOf(local, zone, p))
  }

  // ---------------------------------------------------------------------
  // Properties

  /** The civil second of a date-time: whole seconds plus nanoseconds over 10^9 (exact). */
  function SecondOf(t: LocalDateTime): (r: real)
    requires ValidTime(t.hour, t.minute, t.second, t.nano)
    ensures t.second as real <= r < t.second as real + 1.0
  {
    t.second as real + t.nano as real / GIGA_REAL
  }

  /** Splitting a date-time's civil second gives back its second and nano: the split inverts SecondOf. */
  lemma SecondSplitRoundTrip(t: LocalDateTime)
    requires ValidTime(t.hour, t.minute, t.second, t.nano)
    ensures GetSeconds(SecondOf(t)) == t.second
    ensures GetNanoSeconds(SecondOf(t)) == t.nano
  {
    var s := SecondOf(t);
    assert Floor(s) == t.second;
    assert (s - t.second as real) * GIGA_REAL == t.nano as real;
    HalfUpOfInteger(t.nano);
  }

  /** Under PREFER_ZONE_OFFSET two abbreviations give the same result. */
  lemma PreferOffsetIgnoresAbbreviation(year: int, month: int, day: int, hour: int, minute: int, second: real,
                                        zoneHour: int, zoneMinute: int, zoneSecond: real,
                                        a: Option<string>, b: Option<string>, p: Platform)
    requires p.Valid()
    ensures ZonedFromCivilValues(year, month, day, hour, minute, second, zoneHour, zoneMinute, zoneSecond, a, PREFER_ZONE_OFFSET, p)
         == ZonedFromCivilValues(year, month, day, hour, minute, second, zoneHour, zoneMinute, zoneSecond, b, PREFER_ZONE_OFFSET, p)
  {
  }

  /** In the other modes two numeric offsets give the same result. */
  lemma AbbreviationIgnoresOffset(year: int, month: int, day: int, hour: int, minute: int, second: real,
                                  h1: int, m1: int, s1: real, h2: int, m2: int, s2: real,
                                  zoneAbbr: Option<string>, zoneHandling: string, p: Platform)
    requires p.Valid() && zoneHandling != PREFER_ZONE_OFFSET && zoneAbbr.Some?
    ensures ZonedFromCivilValues(year, month, day, hour, minute, second, h1, m1, s1, zoneAbbr, zoneHandling, p)
         == ZonedFromCivilValues(year, month, day, hour, minute, second, h2, m2, s2, zoneAbbr, zoneHandling, p)
  {
  }

  /**
   * A second whose fraction is at least 0.9999999995 rounds to 10^9 nanoseconds,
   * which LocalTime.of rejects: 2021-01-01T00:00:00.9999999996 cannot be built.
   */
  lemma NanosecondsRoundedToGigaRejected()
    ensures ZonedAtOffsetFromCivilValues(2021, 1, 1, 0, 0, 0.9999999996, 0, 0, 0.0) == Failure(InvalidTime)
  {
    NanosecondsCanReachGiga();
    HalfUpOfInteger(0);
    assert IsLocalDate(2021, 1, 1);
    assert OffsetZone(0, 0, 0.0).Success?;
    InvalidTimeRejected(2021, 1, 1, 0, 0, 0.9999999996, 0, 0, 0.0);
  }

  /** Once the offset and the date are accepted, a time LocalTime.of rejects makes the conversion fail with InvalidTime. */
  lemma InvalidTimeRejected(year: int, month: int, day: int, hour: int, minute: int, second: real,
                            zoneHour: int, zoneMinute: int, zoneSecond: real)
    requires OffsetZone(zoneHour, zoneMinute, zoneSecond).Success?
    requires IsLocalDate(ToInt32(year), ToInt32(month), ToInt32(day))
    requires !ValidTime(ToInt32(hour), ToInt32(minute), GetSeconds(second), GetNanoSeconds(second))
    ensures ZonedAtOffsetFromCivilValues(year, month, day, hour, minute, second, zoneHour, zoneMinute, zoneSecond)
         == Failure(InvalidTime)
  {
  }

  /** The 30th of February is rejected as a date. */
  lemma FebruaryThirtiethRejected()
    ensures ZonedAtOffsetFromCivilValues(2024, 2, 30, 0, 0, 0.0, 0, 0, 0.0) == Failure(InvalidDate)
  {
    assert DaysInMonth(2024, 2) == 29;
    HalfUpOfInteger(0);
    assert OffsetZone(0, 0, 0.0).Success?;
    InvalidDateRejected(2024, 2, 30, 0, 0, 0.0, 0, 0, 0.0);
  }

  /** Once the offset is accepted, a date LocalDate.of rejects makes the whole conversion fail with InvalidDate. */
  lemma InvalidDateRejected(year: int, month: int, day: int, hour: int, minute: int, second: real,
                            zoneHour: int, zoneMinute: int, zoneSecond: real)
    requires OffsetZone(zoneHour, zoneMinute, zoneSecond).Success?
    requires !IsLocalDate(ToInt32(year), ToInt32(month), ToInt32(day))
    ensures ZonedAtOffsetFromCivilValues(year, month, day, hour, minute, second, zoneHour, zoneMinute, zoneSecond)
         == Failure(InvalidDate)
  {
  }

  /** A valid date-time at a valid offset is accepted and kept exactly. */
  lemma ValidFieldsAccepted(t: LocalDateTime, totalSeconds: int)
    requires ValidLocalDateTime(t) && ValidOffset(totalSeconds)
    ensures ZonedAtOffsetFromCivilValues(t.date.year, t.date.month, t.date.day, t.hour, t.minute, SecondOf(t),
                                         OffsetHours(totalSeconds), OffsetMinutes(totalSeconds), OffsetSeconds(totalSeconds) as real)
         == Success(ZonedDateTime(t, totalSeconds, ZoneOffsetId(totalSeconds)))
  {
    SecondSplitRoundTrip(t);
    OfHoursMinutesSecondsComponents(totalSeconds);
    HalfUpOfInteger(OffsetSeconds(totalSeconds));
    assert InInt32(t.date.year) && InInt32(t.date.month) && InInt32(t.date.day);
    assert InInt32(OffsetHours(totalSeconds)) && InInt32(OffsetMinutes(totalSeconds)) && InInt32(OffsetSeconds(totalSeconds));
  }
}
