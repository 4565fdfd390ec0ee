/**
 * The parts of java.time the library relies on, over the proleptic Gregorian
 * calendar: Instant, LocalDateTime, ZoneOffset (validation and id text),
 * ZonedDateTime at a fixed offset, and the RFC 1123 printer.
 *
 * What depends on the time-zone database or on locale text (parsing, named
 * zones, pattern formatting, Instant.toString) is supplied by a Platform value.
 */
module JavaTime {
  import opened Wrappers
  import opened Decimal
  import opened Calendar
  import opened JavaText

  const SECONDS_PER_DAY: int := 86400
  /** ZoneOffset's limit: offsets lie within -18:00 .. +18:00. */
  const MAX_OFFSET_SECONDS: int := 64800

  // ---------------------------------------------------------------------
  // Instant

  /** An instant: seconds from 1970-01-01T00:00:00Z plus a nano-of-second in [0, 10^9). */
  datatype Instant = Instant(epochSecond: int, nano: int)

  predicate ValidInstant(i: Instant) {
    0 <= i.nano < GIGA
  }

  /** The instant as an exact number of seconds. */
  function InstantValue(i: Instant): real {
    i.epochSecond as real + i.nano as real / 1_000_000_000.0
  }

  lemma ScaledSum(q: int, r: int)
    ensures ((GIGA * q + r) as real) / 1_000_000_000.0 == q as real + r as real / 1_000_000_000.0
  {
  }

  /** Instant.ofEpochSecond(seconds, nanoAdjustment): the adjustment is carried into the seconds by floor division. */
  function OfEpochSecond(seconds: int, nanoAdjustment: int): (r: Instant)
    ensures ValidInstant(r)
    ensures InstantValue(r) == seconds as real + nanoAdjustment as real / 1_000_000_000.0
  {
    var q, n := nanoAdjustment / GIGA, nanoAdjustment % GIGA;
    ScaledSum(q, n);
    Instant(seconds + q, n)
  }

  /** Instant.plus(secondsToAdd, nanosToAdd), the step behind plusNanos, minusNanos and minusSeconds. */
  function Plus(i: Instant, secondsToAdd: int, nanosToAdd: int): (r: Instant)
    requires ValidInstant(i)
    ensures ValidInstant(r)
    ensures InstantValue(r) == InstantValue(i) + secondsToAdd as real + nanosToAdd as real / 1_000_000_000.0
  {
    if secondsToAdd == 0 && nanosToAdd == 0 then i
    else
      var q, n := JavaDiv(nanosToAdd, GIGA), JavaRem(nanosToAdd, GIGA);
      ScaledSum(q, n);
      OfEpochSecond(i.epochSecond + secondsToAdd + q, i.nano + n)
  }

  /** Instant.minusNanos. */
  function MinusNanos(i: Instant, nanos: int): (r: Instant)
    requires ValidInstant(i)
    ensures ValidInstant(r)
    ensures InstantValue(r) == InstantValue(i) - nanos as real / 1_000_000_000.0
  {
    Plus(i, 0, -nanos)
  }

  /** Instant.minusSeconds. */
  function MinusSeconds(i: Instant, seconds: int): (r: Instant)
    requires ValidInstant(i)
    ensures ValidInstant(r)
    ensures InstantValue(r) == InstantValue(i) - seconds as real
  {
    Plus(i, -seconds, 0)
  }

  // ---------------------------------------------------------------------
  // LocalDateTime

  datatype LocalDateTime = LocalDateTime(date: Date, hour: int, minute: int, second: int, nano: int)

  /** The values LocalTime.of accepts. */
  predicate ValidTime(hour: int, minute: int, second: int, nano: int) {
    0 <= hour < 24 && 0 <= minute < 60 && 0 <= second < 60 && 0 <= nano < GIGA
  }

  predicate ValidLocalDateTime(t: LocalDateTime) {
    IsLocalDate(t.date.year, t.date.month, t.date.day) && ValidTime(t.hour, t.minute, t.second, t.nano)
  }

  function SecondOfDay(t: LocalDateTime): int {
    t.hour * 3600 + t.minute * 60 + t.second
  }

  /**
   * LocalDateTime.of(year, month, day, hour, minute, second, nano): LocalDate.of
   * checks the date first (year range, month, day of month), then LocalTime.of
   * checks the time.
   */
  function LocalDateTimeOf(year: int, month: int, day: int, hour: int, minute: int, second: int, nano: int)
    : (r: Result<LocalDateTime>)
    ensures r.Success? <==> IsLocalDate(year, month, day) && ValidTime(hour, minute, second, nano)
    ensures r.Success? ==> r.value == LocalDateTime(Date(year, month, day), hour, minute, second, nano)
    ensures !IsLocalDate(year, month, day) ==> r == Failure(InvalidDate)
  {
    if !(MIN_YEAR <= year <= MAX_YEAR) || !(1 <= month <= 12) || !(1 <= day <= 31) then Failure(InvalidDate)
    else if day > DaysInMonth(year, month) then Failure(InvalidDate)
    else if !(0 <= hour < 24) || !(0 <= minute < 60) || !(0 <= second < 60) || !(0 <= nano < GIGA) then
      Failure(InvalidTime)
    else Success(LocalDateTime(Date(year, month, day), hour, minute, second, nano))
  }

  /**
   * LocalDateTime.ofEpochSecond(epochSecond, nano, offset): the local date and
   * time that the instant shows at the offset, by floor division into days.
   */
  function LocalDateTimeOfEpochSecond(epochSecond: int, nano: int, offsetSeconds: int): LocalDateTime {
    var localSecond := epochSecond + offsetSeconds;
    var time := TimeOfSecondOfDay(localSecond % SECONDS_PER_DAY);
    LocalDateTime(CivilFromDays(localSecond / SECONDS_PER_DAY), time.0, time.1, time.2, nano)
  }

  /** LocalTime.ofNanoOfDay's split of a second of the day into hour, minute and second. */
  function TimeOfSecondOfDay(secsOfDay: int): (int, int, int) {
    var hour := secsOfDay / 3600;
    var minute := (secsOfDay - hour * 3600) / 60;
    (hour, minute, secsOfDay - hour * 3600 - minute * 60)
  }

  lemma TimeOfSecondOfDayCorrect(secsOfDay: int)
    requires 0 <= secsOfDay < SECONDS_PER_DAY
    ensures var time := TimeOfSecondOfDay(secsOfDay);
      && 0 <= time.0 < 24 && 0 <= time.1 < 60 && 0 <= time.2 < 60
      && time.0 * 3600 + time.1 * 60 + time.2 == secsOfDay
  {
  }

  lemma TimeOfSecondOfDayUnique(hour: int, minute: int, second: int)
    requires 0 <= hour < 24 && 0 <= minute < 60 && 0 <= second < 60
    ensures TimeOfSecondOfDay(hour * 3600 + minute * 60 + second) == (hour, minute, second)
  {
    var secsOfDay := hour * 3600 + minute * 60 + second;
    DivModUnique(secsOfDay, 3600, hour, minute * 60 + second);
    DivModUnique(minute * 60 + second, 60, minute, second);
  }

  /** ChronoLocalDateTime.toEpochSecond(offset): the instant the local date-time denotes at the offset. */
  function EpochSecondOf(t: LocalDateTime, offsetSeconds: int): int
    requires 1 <= t.date.month <= 12
  {
    DaysFromCivil(t.date.year, t.date.month, t.date.day) * SECONDS_PER_DAY + SecondOfDay(t) - offsetSeconds
  }

  /** Viewing an instant at an offset and reading it back gives the same epoch second; the view is a valid date and time. */
  lemma LocalDateTimeOfEpochSecondRoundTrip(epochSecond: int, nano: int, offsetSeconds: int)
    requires 0 <= nano < GIGA
    ensures var t := LocalDateTimeOfEpochSecond(epochSecond, nano, offsetSeconds);
      && IsValidDate(t.date.year, t.date.month, t.date.day)
      && ValidTime(t.hour, t.minute, t.second, t.nano)
      && EpochSecondOf(t, offsetSeconds) == epochSecond
  {
    var localSecond := epochSecond + offsetSeconds;
    var days, secsOfDay := localSecond / SECONDS_PER_DAY, localSecond % SECONDS_PER_DAY;
    CivilFromDaysRoundTrip(days);
    TimeOfSecondOfDayCorrect(secsOfDay);
    var t := LocalDateTimeOfEpochSecond(epochSecond, nano, offsetSeconds);
    assert DaysFromCivil(t.date.year, t.date.month, t.date.day) == days;
    assert SecondOfDay(t) == secsOfDay;
    assert days * SECONDS_PER_DAY + secsOfDay == localSecond;
  }

  /** A valid local date-time is what its own epoch second shows at the same offset. */
  lemma EpochSecondOfRoundTrip(t: LocalDateTime, offsetSeconds: int)
    requires IsValidDate(t.date.year, t.date.month, t.date.day) && ValidTime(t.hour, t.minute, t.second, t.nano)
    ensures LocalDateTimeOfEpochSecond(EpochSecondOf(t, offsetSeconds), t.nano, offsetSeconds) == t
  {
    var days := DaysFromCivil(t.date.year, t.date.month, t.date.day);
    var localSecond := days * SECONDS_PER_DAY + SecondOfDay(t);
    DivModUnique(localSecond, SECONDS_PER_DAY, days, SecondOfDay(t));
    DaysFromCivilRoundTrip(t.date.year, t.date.month, t.date.day);
    TimeOfSecondOfDayUnique(t.hour, t.minute, t.second);
  }

  // ---------------------------------------------------------------------
  // ZoneOffset and ZoneId

  predicate ValidOffset(totalSeconds: int) {
    -MAX_OFFSET_SECONDS <= totalSeconds <= MAX_OFFSET_SECONDS
  }

  /**
   * ZoneOffset.ofHoursMinutesSeconds: the total offset in seconds, or the
   * rejection of hours outside -18..18, of components whose signs disagree, of
   * minutes or seconds outside -59..59, and of anything beyond 18 whole hours.
   */
  function OfHoursMinutesSeconds(hours: int, minutes: int, seconds: int): (r: Result<int>)
    ensures r.Success? ==> r.value == hours * 3600 + minutes * 60 + seconds && ValidOffset(r.value)
    ensures r.Failure? ==> r.error == InvalidOffset
  {
    if hours < -18 || hours > 18 then Failure(InvalidOffset)
    else if hours > 0 && (minutes < 0 || seconds < 0) then Failure(InvalidOffset)
    else if hours < 0 && (minutes > 0 || seconds > 0) then Failure(InvalidOffset)
    else if hours == 0 && ((minutes > 0 && seconds < 0) || (minutes < 0 && seconds > 0)) then Failure(InvalidOffset)
    else if minutes < -59 || minutes > 59 then Failure(InvalidOffset)
    else if seconds < -59 || seconds > 59 then Failure(InvalidOffset)
    else if (hours == 18 || hours == -18) && (minutes != 0 || seconds != 0) then Failure(InvalidOffset)
    else Success(hours * 3600 + minutes * 60 + seconds)
  }

  /** The hours, minutes and seconds of an offset, each carrying the offset's sign. */
  function OffsetHours(totalSeconds: int): int {
    if totalSeconds < 0 then -((-totalSeconds) / 3600) else totalSeconds / 3600
  }

  function OffsetMinutes(totalSeconds: int): int {
    if totalSeconds < 0 then -((-totalSeconds) / 60 % 60) else totalSeconds / 60 % 60
  }

  function OffsetSeconds(totalSeconds: int): int {
    if totalSeconds < 0 then -((-totalSeconds) % 60) else totalSeconds % 60
  }

  lemma OffsetParts(abs: int)
    requires 0 <= abs <= MAX_OFFSET_SECONDS
    ensures 0 <= abs / 3600 <= 18 && 0 <= abs / 60 % 60 < 60 && 0 <= abs % 60 < 60
    ensures abs / 3600 * 3600 + abs / 60 % 60 * 60 + abs % 60 == abs
    ensures abs / 3600 == 18 ==> abs / 60 % 60 == 0 && abs % 60 == 0
  {
    var h, rest := abs / 3600, abs % 3600;
    DivModUnique(abs / 60, 60, h, rest / 60);
  }

  /** Every valid offset is accepted back from its own signed components. */
  lemma OfHoursMinutesSecondsComponents(totalSeconds: int)
    requires ValidOffset(totalSeconds)
    ensures OfHoursMinutesSeconds(OffsetHours(totalSeconds), OffsetMinutes(totalSeconds), OffsetSeconds(totalSeconds))
         == Success(totalSeconds)
  {
    OffsetParts(if totalSeconds < 0 then -totalSeconds else totalSeconds);
  }

  /** ZoneOffset.toString: "Z" for zero, otherwise the sign, hours and minutes, and the seconds only when there are any. */
  function OffsetId(totalSeconds: int): (r: string)
    requires ValidOffset(totalSeconds)
    ensures totalSeconds == 0 <==> r == "Z"
    ensures totalSeconds != 0 ==> |r| == 6 || |r| == 9
  {
    if totalSeconds == 0 then "Z"
    else
      var abs := if totalSeconds < 0 then -totalSeconds else totalSeconds;
      var seconds := abs % 60;
      (if totalSeconds < 0 then "-" else "+") + TwoDigits(abs / 3600) + ":" + TwoDigits(abs / 60 % 60)
      + (if seconds != 0 then ":" + TwoDigits(seconds) else "")
  }

  /** A zone: a fixed offset (ZoneOffset) or a named region (ZoneRegion). */
  datatype ZoneId = ZoneOffsetId(totalSeconds: int) | ZoneRegion(id: string)

  predicate ValidZoneId(z: ZoneId) {
    z.ZoneOffsetId? ==> ValidOffset(z.totalSeconds)
  }

  /** ZoneId.toString. */
  function ZoneIdText(z: ZoneId): (r: string)
    requires ValidZoneId(z)
    ensures z.ZoneRegion? ==> r == z.id
  {
    match z
    case ZoneOffsetId(t) => OffsetId(t)
    case ZoneRegion(id) => id
  }

  // ---------------------------------------------------------------------
  // ZonedDateTime

  datatype ZonedDateTime = ZonedDateTime(dateTime: LocalDateTime, offset: int, zone: ZoneId)

  /** What java.time guarantees of every ZonedDateTime. */
  predicate ValidZoned(z: ZonedDateTime) {
    && ValidLocalDateTime(z.dateTime)
    && ValidOffset(z.offset)
    && ValidZoneId(z.zone)
    && (z.zone.ZoneOffsetId? ==> z.zone.totalSeconds == z.offset)
  }

  /** ZonedDateTime.ofInstant(instant, zone) for a zone whose offset is fixed. */
  function AtOffset(i: Instant, offsetSeconds: int, zone: ZoneId): ZonedDateTime {
    ZonedDateTime(LocalDateTimeOfEpochSecond(i.epochSecond, i.nano, offsetSeconds), offsetSeconds, zone)
  }

  /** ZonedDateTime.toInstant. */
  function ToInstant(z: ZonedDateTime): (r: Instant)
    requires 1 <= z.dateTime.date.month <= 12
    ensures r.nano == z.dateTime.nano
  {
    Instant(EpochSecondOf(z.dateTime, z.offset), z.dateTime.nano)
  }

  /** Viewing an instant at a fixed offset and converting back gives the same instant. */
  lemma AtOffsetRoundTrip(i: Instant, offsetSeconds: int, zone: ZoneId)
    requires ValidInstant(i)
    ensures var z := AtOffset(i, offsetSeconds, zone);
      && IsValidDate(z.dateTime.date.year, z.dateTime.date.month, z.dateTime.date.day)
      && ValidTime(z.dateTime.hour, z.dateTime.minute, z.dateTime.second, z.dateTime.nano)
      && ToInstant(z) == i
  {
    LocalDateTimeOfEpochSecondRoundTrip(i.epochSecond, i.nano, offsetSeconds);
  }

  /** A zoned date-time is the view of its own instant at its own offset. */
  lemma ToInstantRoundTrip(z: ZonedDateTime)
    requires ValidZoned(z)
    ensures AtOffset(ToInstant(z), z.offset, z.zone) == z
  {
    EpochSecondOfRoundTrip(z.dateTime, z.offset);
  }

  /** The library services that depend on the zone database, on locale text or on parsing. */
  datatype Platform = Platform(
    parseIso: string -> Result<ZonedDateTime>,          // ZonedDateTime.parse(text)
    parseEmail: string -> Result<ZonedDateTime>,        // ZonedDateTime.parse(text, email pattern)
    zoneOf: string -> Result<ZoneId>,                   // ZoneId.of(text)
    atRegion: (LocalDateTime, string) -> ZonedDateTime, // ZonedDateTime.of(local, region), gaps and overlaps resolved
    format: (ZonedDateTime, string) -> string,          // DateTimeFormatter.ofPattern(pattern).format(value)
    instantText: Instant -> string                      // Instant.toString
  ) {
    /** Every value the services produce is one java.time could hold. */
    ghost predicate Valid() {
      && (forall s :: parseIso(s).Success? ==> ValidZoned(parseIso(s).value))
      && (forall s :: parseEmail(s).Success? ==> ValidZoned(parseEmail(s).value))
      && (forall s :: zoneOf(s).Success? ==> ValidZoneId(zoneOf(s).value))
      && (forall t, id :: ValidLocalDateTime(t) ==>
            ValidZoned(atRegion(t, id)) && atRegion(t, id).zone == ZoneRegion(id))
    }
  }

  /** ZonedDateTime.of(local, zone): a fixed offset is used as it is; a region's rules come from the platform. */
  function ZonedOf(t: LocalDateTime, zone: ZoneId, p: Platform): (r: ZonedDateTime)
    requires p.Valid() && ValidLocalDateTime(t) && ValidZoneId(zone)
    ensures ValidZoned(r) && r.zone == zone
    ensures zone.ZoneOffsetId? ==> r.dateTime == t && r.offset == zone.totalSeconds
  {
    match zone
    case ZoneOffsetId(total) => ZonedDateTime(t, total, zone)
    case ZoneRegion(id) => p.atRegion(t, id)
  }

  // ---------------------------------------------------------------------
  // DateTimeFormatter.RFC_1123_DATE_TIME

  function DayName(isoDay: int): (r: string)
    requires 1 <= isoDay <= 7
    ensures |r| == 3
  {
    ["Mon", "Tue", "Wed", "Thu", "Fri", "Sat", "Sun"][isoDay - 1]
  }

  function MonthName(month: int): (r: string)
    requires 1 <= month <= 12
    ensures |r| == 3
  {
    ["Jan", "Feb", "Mar", "Apr", "May", "Jun", "Jul", "Aug", "Sep", "Oct", "Nov", "Dec"][month - 1]
  }

  /**
   * The RFC 1123 offset field, appendOffset("+HHMM", "GMT"): "GMT" when the hours
   * and minutes printed would both be zero, otherwise +HHMM (seconds are not printed).
   */
  function Rfc1123Offset(totalSeconds: int): string
    requires ValidOffset(totalSeconds)
  {
    var abs := if totalSeconds < 0 then -totalSeconds else totalSeconds;
    if abs / 60 == 0 then "GMT"
    else (if totalSeconds < 0 then "-" else "+") + TwoDigits(abs / 3600) + TwoDigits(abs / 60 % 60)
  }

  /** The RFC 1123 text before the offset field, e.g. "Tue, 3 Jun 2008 11:05:30". */
  function Rfc1123DateTime(t: LocalDateTime): string
    requires ValidLocalDateTime(t) && 0 <= t.date.year <= 9999
  {
    var d := t.date;
    DayName(IsoDayOfWeek(DaysFromCivil(d.year, d.month, d.day))) + ", " + ShortDigits(d.day) + " "
    + MonthName(d.month) + " " + FourDigits(d.year) + " "
    + TwoDigits(t.hour) + ":" + TwoDigits(t.minute) + ":" + TwoDigits(t.second)
  }

  /**
   * RFC_1123_DATE_TIME.format: the year is printed in exactly four digits, so a
   * year outside 0..9999 cannot be printed.
   */
  function FormatRfc1123(z: ZonedDateTime): (r: Result<string>)
    requires ValidZoned(z)
    ensures r.Success? <==> 0 <= z.dateTime.date.year <= 9999
    ensures r.Success? ==> r.value == Rfc1123DateTime(z.dateTime) + " " + Rfc1123Offset(z.offset)
  {
    if 0 <= z.dateTime.date.year <= 9999 then
      Success(Rfc1123DateTime(z.dateTime) + " " + Rfc1123Offset(z.offset))
    else Failure(Unprintable)
  }
}
