/**
 * The interop functions behind the Ballerina time API: Utc tuples in and out of
 * instants, their difference in seconds, date validation and day of week, Utc
 * to and from Civil fields, and the RFC 1123 / RFC 5322 email renderings.
 *
 * A Failure stands for the DateTimeException the function turns into a
 * Ballerina FormatError, or, where noted, one it does not catch.
 */
module ExternMethods {
  import opened Wrappers
  import opened Decimal
  import opened Calendar
  import opened JavaText
  import opened JavaTime
  import opened UtcModel
  import opened CivilValues
  import opened CivilModel
  import opened NativeHandler

  const GMT_STRING_VALUE: string := "GMT"
  const ZERO_ZONE_STRING_VALUE: string := "+0000"
  const EMAIL_DATE_TIME_FORMAT: string := "EEE, dd MMM yyyy HH:mm:ss Z[ ][(z)]"
  const EMAIL_DATE_TIME_FORMAT_WITHOUT_COMMENT: string := "EEE, dd MMM yyyy HH:mm:ss Z"

  /** A tuple the Utc tuple constructor can read: its first member, when it has one it reads, is the int seconds. */
  predicate UtcShape(utc: seq<UtcElement>) {
    |utc| == 1 || |utc| == 2 ==> utc[0].IntElement?
  }

  /** The instant a Utc tuple denotes: new Utc(utc).generateInstant(). */
  function TupleInstant(utc: seq<UtcElement>): (r: Instant)
    requires UtcShape(utc)
    ensures ValidInstant(r)
  {
    GenerateInstant(FromTuple(utc))
  }

  // ---------------------------------------------------------------------
  // Utc tuples

  /** externUtcNow's precision: a precision in 1..9 is used as given, anything else means 9. */
  function UtcNowPrecision(precision: int): (r: int)
    ensures 1 <= r <= UTC_MAX_PRECISION
    ensures 1 <= precision <= UTC_MAX_PRECISION ==> r == precision
    ensures !(1 <= precision <= UTC_MAX_PRECISION) ==> r == UTC_MAX_PRECISION
  {
    if precision > 0 && precision <= 9 then precision else 9
  }

  /** externUtcNow, for the instant `now` the clock reported: its seconds and its fraction rounded to the precision. */
  function UtcNow(now: Instant, precision: int): (r: seq<UtcElement>)
    requires ValidInstant(now)
    ensures |r| == 2 && r[0] == IntElement(now.epochSecond) && r[1].DecimalElement?
    ensures 0.0 <= r[1].d <= 1.0
    ensures MovePoint(r[1].d, UtcNowPrecision(precision)) == HalfUp(MovePoint(now.nano as real / GIGA_REAL, UtcNowPrecision(precision))) as real
    ensures -0.5 <= MovePoint(r[1].d - now.nano as real / GIGA_REAL, UtcNowPrecision(precision)) <= 0.5
  {
    Build(FromInstantWithPrecision(now, UtcNowPrecision(precision)))
  }

  /** externUtcFromString: the parsed date-time's instant as a tuple, or the parser's rejection. */
  function UtcFromString(text: string, p: Platform): (r: Result<seq<UtcElement>>)
    requires p.Valid()
    ensures r.Success? <==> p.parseIso(text).Success?
    ensures r.Success? ==> UtcShape(r.value) && TupleInstant(r.value) == ToInstant(p.parseIso(text).value)
  {
    var z :- p.parseIso(text);
    BuildThenGenerate(ToInstant(z));
    Success(Build(FromInstant(ToInstant(z))))
  }

  /** externUtcToString: Instant.toString of the tuple's instant. */
  function UtcToString(utc: seq<UtcElement>, p: Platform): (r: string)
    requires UtcShape(utc)
    ensures r == p.instantText(TupleInstant(utc))
  {
    p.instantText(TupleInstant(utc))
  }

  /** A tuple made from an instant prints as that instant. */
  lemma UtcToStringOfInstant(i: Instant, p: Platform)
    requires ValidInstant(i)
    ensures UtcShape(Build(FromInstant(i)))
    ensures UtcToString(Build(FromInstant(i)), p) == p.instantText(i)
  {
    BuildThenGenerate(i);
  }

  /**
   * externUtcDiffSeconds: the second instant's nano and then its seconds are
   * subtracted from the first, and the result read as seconds plus nano / 10^9.
   */
  function UtcDiffSeconds(utc1: seq<UtcElement>, utc2: seq<UtcElement>): (r: real)
    requires UtcShape(utc1) && UtcShape(utc2)
    ensures r == InstantValue(TupleInstant(utc1)) - InstantValue(TupleInstant(utc2))
  {
    var time1 := TupleInstant(utc1);
    var time2 := TupleInstant(utc2);
    var diff := MinusSeconds(MinusNanos(time1, time2.nano), time2.epochSecond);
    diff.epochSecond as real + diff.nano as real / GIGA_REAL
  }

  // ---------------------------------------------------------------------
  // Dates

  /** externDateValidate: LocalDate.of's verdict; the fields must fit an int (Math.toIntExact). */
  function DateValidate(year: int, month: int, day: int): (r: Option<TimeError>)
    requires InInt32(year) && InInt32(month) && InInt32(day)
    ensures r.None? <==> IsLocalDate(year, month, day)
    ensures r.Some? ==> r.value == InvalidDate
  {
    var date := LocalDateTimeOf(year, month, day, 0, 0, 0, 0);
    if date.Success? then None else Some(date.error)
  }

  /** externDayOfWeek: the ISO day of the week mod 7 (Sunday is 0) of a valid date. */
  function DayOfWeekOf(year: int, month: int, day: int): (r: Result<int>)
    requires InInt32(year) && InInt32(month) && InInt32(day)
    ensures r.Success? <==> IsLocalDate(year, month, day)
    ensures r.Failure? ==> r.error == InvalidDate
    ensures r.Success? ==> 0 <= r.value <= 6 && r.value == IsoDayOfWeek(DaysFromCivil(year, month, day)) % 7
  {
    var date :- LocalDateTimeOf(year, month, day, 0, 0, 0, 0);
    Success(DayOfWeek(date.date.year, date.date.month, date.date.day))
  }

  // ---------------------------------------------------------------------
  // Utc and Civil

  /**
   * externUtcToCivil: the tuple's instant at offset zero, as a Civil record with
   * timeAbbrev "Z". An instant beyond java.time's year range throws there, so
   * the caller must not pass one.
   */
  method UtcToCivil(utc: seq<UtcElement>, now: ZonedDateTime) returns (r: map<string, CivilValue>)
    requires UtcShape(utc) && ValidZoned(now)
    requires ValidZoned(CreateZonedDateTimeFromUtc(utc))
    ensures var z := CreateZonedDateTimeFromUtc(utc);
      && r == CommonFields(z)[SECOND_KEY := SecondField(z)]
      && r[TIME_ABBREV_KEY] == StringValue("Z")
      && ToInstant(z) == TupleInstant(utc)
  {
    r := CreateCivilFromZoneDateTime(CreateZonedDateTimeFromUtc(utc), now);
  }

  /** externUtcFromCivil: the civil fields at their numeric offset, as the tuple of their instant. */
  function UtcFromCivil(year: int, month: int, day: int, hour: int, minute: int, second: real,
                        zoneHour: int, zoneMinute: int, zoneSecond: real): (r: Result<seq<UtcElement>>)
    ensures var z := ZonedAtOffsetFromCivilValues(year, month, day, hour, minute, second, zoneHour, zoneMinute, zoneSecond);
      && (r.Success? <==> z.Success?)
      && (r.Failure? ==> r.error == z.error)
      && (r.Success? ==> UtcShape(r.value) && TupleInstant(r.value) == ToInstant(z.value))
  {
    var z :- ZonedAtOffsetFromCivilValues(year, month, day, hour, minute, second, zoneHour, zoneMinute, zoneSecond);
    BuildThenGenerate(ToInstant(z));
    Success(Build(FromInstant(ToInstant(z))))
  }

  /** externCivilToString: Instant.toString of the civil fields' instant. */
  function CivilToString(year: int, month: int, day: int, hour: int, minute: int, second: real,
                         zoneHour: int, zoneMinute: int, zoneSecond: real, p: Platform): (r: Result<string>)
    ensures var z := ZonedAtOffsetFromCivilValues(year, month, day, hour, minute, second, zoneHour, zoneMinute, zoneSecond);
      && (r.Success? <==> z.Success?)
      && (r.Success? ==> r.value == p.instantText(ToInstant(z.value)))
  {
    var z :- ZonedAtOffsetFromCivilValues(year, month, day, hour, minute, second, zoneHour, zoneMinute, zoneSecond);
    Success(p.instantText(ToInstant(z)))
  }

  // ---------------------------------------------------------------------
  // Email renderings

  /** The zone text externUtcToEmailString substitutes: "0" means "+0000". */
  function EmailZoneText(zh: string): (r: string)
    ensures zh == "0" ==> r == ZERO_ZONE_STRING_VALUE
    ensures zh != "0" ==> r == zh
  {
    if zh == "0" then ZERO_ZONE_STRING_VALUE else zh
  }

  /**
   * externUtcToEmailString: the instant in the zone GMT printed by
   * RFC_1123_DATE_TIME, then every "GMT" and every "+0000" replaced by the
   * zone text. The printer throws (uncaught) for a year outside 0..9999.
   */
  function UtcToEmailString(utc: seq<UtcElement>, zh: string): (r: Result<string>)
    requires UtcShape(utc)
    requires ValidZoned(AtOffset(TupleInstant(utc), 0, ZoneRegion(GMT_STRING_VALUE)))
    ensures var t := AtOffset(TupleInstant(utc), 0, ZoneRegion(GMT_STRING_VALUE)).dateTime;
      r.Success? <==> 0 <= t.date.year <= 9999
  {
    var zhString := EmailZoneText(zh);
    var z := AtOffset(TupleInstant(utc), 0, ZoneRegion(GMT_STRING_VALUE));
    var text :- FormatRfc1123(z);
    Success(ReplaceAll(ReplaceAll(text, GMT_STRING_VALUE, zhString), ZERO_ZONE_STRING_VALUE, zhString))
  }

  /** The pattern externCivilToEmailString formats with: no "(z)" comment exactly under PREFER_ZONE_OFFSET. */
  function EmailPattern(zoneHandling: string): (r: string)
    ensures r == EMAIL_DATE_TIME_FORMAT_WITHOUT_COMMENT <==> zoneHandling == PREFER_ZONE_OFFSET
    ensures r != EMAIL_DATE_TIME_FORMAT_WITHOUT_COMMENT ==> r == EMAIL_DATE_TIME_FORMAT
  {
    if zoneHandling == PREFER_ZONE_OFFSET then EMAIL_DATE_TIME_FORMAT_WITHOUT_COMMENT else EMAIL_DATE_TIME_FORMAT
  }

  /** externCivilToEmailString: the civil fields' date-time formatted with the mode's email pattern. */
  function CivilToEmailString(year: int, month: int, day: int, hour: int, minute: int, second: real,
                              zoneHour: int, zoneMinute: int, zoneSecond: real,
                              zoneAbbr: Option<string>, zoneHandling: string, p: Platform): (r: Result<string>)
    requires p.Valid()
    requires zoneHandling != PREFER_ZONE_OFFSET ==> zoneAbbr.Some?
    ensures var z := ZonedFromCivilValues(year, month, day, hour, minute, second, zoneHour, zoneMinute, zoneSecond,
                                          zoneAbbr, zoneHandling, p);
      && (r.Success? <==> z.Success?)
      && (r.Success? ==> r.value == p.format(z.value, EmailPattern(zoneHandling)))
  {
    var z :- ZonedFromCivilValues(year, month, day, hour, minute, second, zoneHour, zoneMinute, zoneSecond,
                                  zoneAbbr, zoneHandling, p);
    Success(p.format(z, EmailPattern(zoneHandling)))
  }

  // ---------------------------------------------------------------------
  // Properties

  /** A tuple's difference from itself is zero. */
  lemma DiffSelfIsZero(utc: seq<UtcElement>)
    requires UtcShape(utc)
    ensures UtcDiffSeconds(utc, utc) == 0.0
  {
  }

  /** Swapping the arguments negates the difference. */
  lemma DiffAntisymmetric(utc1: seq<UtcElement>, utc2: seq<UtcElement>)
    requires UtcShape(utc1) && UtcShape(utc2)
    ensures UtcDiffSeconds(utc1, utc2) == -UtcDiffSeconds(utc2, utc1)
  {
  }

  /** Between two millisecond tuples the difference is exactly the millisecond difference over 1000. */
  lemma DiffOfMillisTuples(m1: int, m2: int)
    ensures UtcDiffSeconds(CreateUtcFromMilliSeconds(m1), CreateUtcFromMilliSeconds(m2)) == (m1 - m2) as real / 1000.0
  {
    MillisTupleInstant(m1);
    MillisTupleInstant(m2);
  }

  /** February 29 is a valid date exactly in leap years. */
  lemma LeapDayValidation(year: int)
    requires MIN_YEAR <= year <= MAX_YEAR
    ensures DateValidate(year, 2, 29).None? <==> IsLeapYear(year)
  {
  }

  /** The day after a date within its month has the next day of the week, wrapping from Saturday (6) to Sunday (0). */
  lemma DayOfWeekOfNextDay(year: int, month: int, day: int)
    requires IsLocalDate(year, month, day) && day < DaysInMonth(year, month)
    ensures DayOfWeekOf(year, month, day + 1).Success?
    ensures DayOfWeekOf(year, month, day + 1).value == (DayOfWeekOf(year, month, day).value + 1) % 7
  {
    assert DaysFromCivil(year, month, day + 1) == DaysFromCivil(year, month, day) + 1;
    IsoDayOfWeekNext(DaysFromCivil(year, month, day));
  }

  /**
   * The Utc–Civil round trip: the civil fields externUtcToCivil produces, given
   * back to externUtcFromCivil with a zero offset, yield a tuple of the same
   * instant (at whole nanoseconds, as a fraction of a second).
   */
  lemma UtcCivilRoundTrip(utc: seq<UtcElement>)
    requires UtcShape(utc)
    requires ValidZoned(CreateZonedDateTimeFromUtc(utc))
    ensures var t := CreateZonedDateTimeFromUtc(utc).dateTime;
      && UtcFromCivil(t.date.year, t.date.month, t.date.day, t.hour, t.minute, SecondOf(t), 0, 0, 0.0)
         == Success(Build(FromInstant(TupleInstant(utc))))
      && TupleInstant(UtcFromCivil(t.date.year, t.date.month, t.date.day, t.hour, t.minute, SecondOf(t), 0, 0, 0.0).value)
         == TupleInstant(utc)
  {
    var z := CreateZonedDateTimeFromUtc(utc);
    ValidFieldsAccepted(z.dateTime, 0);
    assert OffsetHours(0) == 0 && OffsetMinutes(0) == 0 && OffsetSeconds(0) == 0;
  }

  /** Civil text and the Utc route agree: externCivilToString prints the instant of externUtcFromCivil's tuple. */
  lemma CivilToStringAgreesWithUtc(year: int, month: int, day: int, hour: int, minute: int, second: real,
                                   zoneHour: int, zoneMinute: int, zoneSecond: real, p: Platform)
    ensures var u := UtcFromCivil(year, month, day, hour, minute, second, zoneHour, zoneMinute, zoneSecond);
      && (CivilToString(year, month, day, hour, minute, second, zoneHour, zoneMinute, zoneSecond, p).Success? <==> u.Success?)
      && (u.Success? ==>
            CivilToString(year, month, day, hour, minute, second, zoneHour, zoneMinute, zoneSecond, p).value
            == UtcToString(u.value, p))
  {
  }

  /** Digits are neither a 'G' nor a '+'. */
  lemma DigitsUnmarked(s: string)
    requires AllDigits(s)
    ensures 'G' !in s && '+' !in s
  {
    forall k | 0 <= k < |s|
      ensures s[k] != 'G' && s[k] != '+'
    {
      assert IsDigit(s[k]);
    }
  }

  /** Joining pieces with the separators of the RFC 1123 layout brings in no 'G' and no '+'. */
  lemma Rfc1123PiecesUnmarked(day: string, dd: string, month: string, yyyy: string, hh: string, mm: string, ss: string)
    requires 'G' !in day && 'G' !in dd && 'G' !in month && 'G' !in yyyy && 'G' !in hh && 'G' !in mm && 'G' !in ss
    requires '+' !in day && '+' !in dd && '+' !in month && '+' !in yyyy && '+' !in hh && '+' !in mm && '+' !in ss
    ensures var text := day + ", " + dd + " " + month + " " + yyyy + " " + hh + ":" + mm + ":" + ss;
      'G' !in text && '+' !in text
  {
  }

  /** No character of the RFC 1123 text before the offset is a 'G' or a '+'. */
  lemma Rfc1123DateTimeUnmarked(t: LocalDateTime)
    requires ValidLocalDateTime(t) && 0 <= t.date.year <= 9999
    ensures 'G' !in Rfc1123DateTime(t) && '+' !in Rfc1123DateTime(t)
  {
    var d := t.date;
    var day := DayName(IsoDayOfWeek(DaysFromCivil(d.year, d.month, d.day)));
    var month := MonthName(d.month);
    assert 'G' !in day && '+' !in day;
    assert 'G' !in month && '+' !in month;
    DigitsUnmarked(ShortDigits(d.day));
    DigitsUnmarked(FourDigits(d.year));
    DigitsUnmarked(TwoDigits(t.hour));
    DigitsUnmarked(TwoDigits(t.minute));
    DigitsUnmarked(TwoDigits(t.second));
    Rfc1123PiecesUnmarked(day, ShortDigits(d.day), month, FourDigits(d.year), TwoDigits(t.hour), TwoDigits(t.minute), TwoDigits(t.second));
  }

  /** The two replacements on "<prefix>GMT", where the prefix holds neither marker's first character. */
  lemma EmailReplacements(prefix: string, zone: string)
    requires 'G' !in prefix && '+' !in prefix
    ensures ReplaceAll(ReplaceAll(prefix + GMT_STRING_VALUE, GMT_STRING_VALUE, zone), ZERO_ZONE_STRING_VALUE, zone)
         == prefix + ReplaceAll(zone, ZERO_ZONE_STRING_VALUE, zone)
  {
    ReplaceAllSkipPrefix(prefix, GMT_STRING_VALUE, GMT_STRING_VALUE, zone);
    ReplaceAllAtFront(GMT_STRING_VALUE, [], zone);
    assert GMT_STRING_VALUE + [] == GMT_STRING_VALUE;
    assert zone + [] == zone;
    ReplaceAllSkipPrefix(prefix, zone, ZERO_ZONE_STRING_VALUE, zone);
  }

  /** "+0000" replaced by itself is "+0000". */
  lemma ZeroZoneReplacedByItself()
    ensures ReplaceAll(ZERO_ZONE_STRING_VALUE, ZERO_ZONE_STRING_VALUE, ZERO_ZONE_STRING_VALUE) == ZERO_ZONE_STRING_VALUE
  {
    ReplaceAllAtFront(ZERO_ZONE_STRING_VALUE, [], ZERO_ZONE_STRING_VALUE);
    assert ZERO_ZONE_STRING_VALUE + [] == ZERO_ZONE_STRING_VALUE;
  }

  /**
   * The email text of a Utc: the RFC 1123 date and time, a space, and the zone
   * text in place of "GMT" (any "+0000" inside the zone text is replaced by the
   * zone text once more). A "0" zone gives "+0000".
   */
  lemma UtcToEmailStringShape(utc: seq<UtcElement>, zh: string)
    requires UtcShape(utc)
    requires ValidZoned(AtOffset(TupleInstant(utc), 0, ZoneRegion(GMT_STRING_VALUE)))
    requires 0 <= AtOffset(TupleInstant(utc), 0, ZoneRegion(GMT_STRING_VALUE)).dateTime.date.year <= 9999
    ensures var t := AtOffset(TupleInstant(utc), 0, ZoneRegion(GMT_STRING_VALUE)).dateTime;
      var zone := EmailZoneText(zh);
      UtcToEmailString(utc, zh) == Success(Rfc1123DateTime(t) + " " + ReplaceAll(zone, ZERO_ZONE_STRING_VALUE, zone))
    ensures zh == "0" ==> var t := AtOffset(TupleInstant(utc), 0, ZoneRegion(GMT_STRING_VALUE)).dateTime;
      UtcToEmailString(utc, zh) == Success(Rfc1123DateTime(t) + " " + ZERO_ZONE_STRING_VALUE)
  {
    var z := AtOffset(TupleInstant(utc), 0, ZoneRegion(GMT_STRING_VALUE));
    var zone := EmailZoneText(zh);
    var prefix := Rfc1123DateTime(z.dateTime) + " ";
    Rfc1123DateTimeUnmarked(z.dateTime);
    assert FormatRfc1123(z).value == prefix + GMT_STRING_VALUE;
    EmailReplacements(prefix, zone);
    ZeroZoneReplacedByItself();
  }

  /** Parsing text to a tuple and printing the tuple gives the parsed date-time's instant text. */
  lemma UtcStringRoundTrip(text: string, p: Platform)
    requires p.Valid() && p.parseIso(text).Success?
    ensures UtcFromString(text, p).Success?
    ensures UtcToString(UtcFromString(text, p).value, p) == p.instantText(ToInstant(p.parseIso(text).value))
  {
  }
}
