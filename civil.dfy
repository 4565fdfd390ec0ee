/**
 * The Civil builder: an object holding a ZonedDateTime and the Ballerina Civil
 * record being filled. Each build method stores the date-time it was given or
 * parsed, puts the common fields, and then the second and utcOffset fields its
 * input calls for.
 */
module CivilModel {
  import opened Wrappers
  import opened Decimal
  import opened Calendar
  import opened JavaTime
  import opened OffsetCodec
  import opened TextPatterns
  import opened CivilValues

  const YEAR_KEY: string := "year"
  const MONTH_KEY: string := "month"
  const DAY_KEY: string := "day"
  const HOUR_KEY: string := "hour"
  const MINUTE_KEY: string := "minute"
  const SECOND_KEY: string := "second"
  const UTC_OFFSET_KEY: string := "utcOffset"
  const TIME_ABBREV_KEY: string := "timeAbbrev"
  const DAY_OF_WEEK_KEY: string := "dayOfWeek"

  /** A field value of the Civil record: an int, a decimal, a string or a zone-offset record. */
  datatype CivilValue = IntValue(i: int) | DecimalValue(d: real) | StringValue(s: string) | OffsetValue(offset: ZoneOffsetRecord)

  /** The date, hour, minute and zone-id fields every builder writes. */
  function DateTimeFields(z: ZonedDateTime): (r: map<string, CivilValue>)
    requires ValidZoned(z)
    ensures r.Keys == {YEAR_KEY, MONTH_KEY, DAY_KEY, HOUR_KEY, MINUTE_KEY, TIME_ABBREV_KEY}
    ensures r[TIME_ABBREV_KEY] == StringValue(ZoneIdText(z.zone))
  {
    var t := z.dateTime;
    map[YEAR_KEY := IntValue(t.date.year), MONTH_KEY := IntValue(t.date.month), DAY_KEY := IntValue(t.date.day),
        HOUR_KEY := IntValue(t.hour), MINUTE_KEY := IntValue(t.minute),
        TIME_ABBREV_KEY := StringValue(ZoneIdText(z.zone))]
  }

  /** setCommonCivilFields' puts: the fields above and the day of the week, ISO numbering mod 7 (Sunday is 0). */
  function CommonFields(z: ZonedDateTime): (r: map<string, CivilValue>)
    requires ValidZoned(z)
    ensures r.Keys == DateTimeFields(z).Keys + {DAY_OF_WEEK_KEY}
    ensures r[DAY_OF_WEEK_KEY].IntValue? && 0 <= r[DAY_OF_WEEK_KEY].i <= 6
    ensures var d := z.dateTime.date;
      r[DAY_OF_WEEK_KEY].i == IsoDayOfWeek(DaysFromCivil(d.year, d.month, d.day)) % 7
  {
    var d := z.dateTime.date;
    DateTimeFields(z)[DAY_OF_WEEK_KEY := IntValue(DayOfWeek(d.year, d.month, d.day))]
  }

  /** The second field: whole seconds plus nanoseconds over 10^9. */
  function SecondField(z: ZonedDateTime): (r: CivilValue)
    requires ValidZoned(z)
    ensures r.DecimalValue? && z.dateTime.second as real <= r.d < z.dateTime.second as real + 1.0
  {
    DecimalValue(SecondOf(z.dateTime))
  }

  /** The utcOffset field: the offset's id text decoded and filled into the record. */
  function OffsetRecordOf(totalSeconds: int): (r: ZoneOffsetRecord)
    requires ValidOffset(totalSeconds)
    ensures RecordTotal(r) == totalSeconds
    ensures r.hours == OffsetHours(totalSeconds) && r.minutes == OffsetMinutes(totalSeconds)
    ensures r.seconds.Some? <==> OffsetSeconds(totalSeconds) != 0
  {
    ExpectedRecord(totalSeconds);
    ComponentsTotal(totalSeconds);
    ZoneOffsetRecordFromMap(ExpectedFields(totalSeconds))
  }

  /** A put made only when the condition holds. */
  function PutIf(m: map<string, CivilValue>, condition: bool, key: string, v: CivilValue): (r: map<string, CivilValue>)
    ensures condition ==> r == m[key := v]
    ensures !condition ==> r == m
  {
    if condition then m[key := v] else m
  }

  class Civil {
    var zonedDateTime: ZonedDateTime
    var civilMap: map<string, CivilValue>

    /** The stored date-time is one java.time could hold. */
    predicate Valid()
      reads this
    {
      ValidZoned(zonedDateTime)
    }

    /** A fresh builder: the current date-time (supplied by the caller) and an empty record. */
    constructor(now: ZonedDateTime)
      requires ValidZoned(now)
      ensures Valid()
      ensures zonedDateTime == now && civilMap == map[]
    {
      zonedDateTime := now;
      civilMap := map[];
    }

    /** setCommonCivilFields: the seven puts from the stored date-time, as one merge. */
    method SetCommonCivilFields()
      requires Valid()
      modifies this
      ensures Valid()
      ensures zonedDateTime == old(zonedDateTime)
      ensures civilMap == old(civilMap) + CommonFields(zonedDateTime)
    {
      civilMap := civilMap + CommonFields(zonedDateTime);
    }

    /** buildFromZonedDateTime: the common fields and, always, the second. */
    method BuildFromZonedDateTime(z: ZonedDateTime) returns (r: map<string, CivilValue>)
      requires ValidZoned(z)
      modifies this
      ensures Valid()
      ensures zonedDateTime == z
      ensures civilMap == (old(civilMap) + CommonFields(z))[SECOND_KEY := SecondField(z)]
      ensures r == civilMap
    {
      zonedDateTime := z;
      SetCommonCivilFields();
      civilMap := civilMap[SECOND_KEY := SecondField(z)];
      r := civilMap;
    }

    /**
     * buildFromZonedDateTimeString: text that does not parse leaves the builder
     * untouched; otherwise the second is put only when the text shows seconds,
     * and utcOffset only when the text does not end in 'Z' after the minutes or
     * after a fractional second.
     */
    method BuildFromZonedDateTimeString(text: string, p: Platform) returns (r: Result<map<string, CivilValue>>)
      requires p.Valid()
      requires Valid()
      modifies this
      ensures Valid()
      ensures p.parseIso(text).Failure? ==>
        r == Failure(p.parseIso(text).error) && zonedDateTime == old(zonedDateTime) && civilMap == old(civilMap)
      ensures p.parseIso(text).Success? ==>
        var z := p.parseIso(text).value;
        && zonedDateTime == z
        && civilMap == PutIf(PutIf(old(civilMap) + CommonFields(z), IsSecondExists(text), SECOND_KEY, SecondField(z)),
                             IsLocalTimeZoneExists(text), UTC_OFFSET_KEY, OffsetValue(OffsetRecordOf(z.offset)))
        && r == Success(civilMap)
    {
      var parsed := p.parseIso(text);
      if parsed.Failure? {
        return Failure(parsed.error);
      }
      var z := parsed.value;
      zonedDateTime := z;
      SetCommonCivilFields();
      if IsSecondExists(text) {
        civilMap := civilMap[SECOND_KEY := SecondField(z)];
      }
      if IsLocalTimeZoneExists(text) {
        var offset := CreateZoneOffsetFromZonedDateTime(z);
        civilMap := civilMap[UTC_OFFSET_KEY := OffsetValue(offset)];
      }
      r := Success(civilMap);
    }

    /** buildFromEmailString: the common fields, the second and utcOffset, all unconditionally. */
    method BuildFromEmailString(text: string, p: Platform) returns (r: Result<map<string, CivilValue>>)
      requires p.Valid()
      requires Valid()
      modifies this
      ensures Valid()
      ensures p.parseEmail(text).Failure? ==>
        r == Failure(p.parseEmail(text).error) && zonedDateTime == old(zonedDateTime) && civilMap == old(civilMap)
      ensures p.parseEmail(text).Success? ==>
        var z := p.parseEmail(text).value;
        && zonedDateTime == z
        && civilMap == (old(civilMap) + CommonFields(z))[SECOND_KEY := SecondField(z)]
                                                        [UTC_OFFSET_KEY := OffsetValue(OffsetRecordOf(z.offset))]
        && r == Success(civilMap)
    {
      var parsed := p.parseEmail(text);
      if parsed.Failure? {
        return Failure(parsed.error);
      }
      var z := parsed.value;
      zonedDateTime := z;
      SetCommonCivilFields();
      civilMap := civilMap[SECOND_KEY := SecondField(z)];
      var offset := CreateZoneOffsetFromZonedDateTime(z);
      civilMap := civilMap[UTC_OFFSET_KEY := OffsetValue(offset)];
      r := Success(civilMap);
    }

    /**
     * createZoneOffsetFromZonedDateTime: the offset's id text decoded, then hours
     * and minutes defaulted to 0 and seconds copied when present. The record
     * denotes the date-time's own offset.
     */
    method CreateZoneOffsetFromZonedDateTime(z: ZonedDateTime) returns (r: ZoneOffsetRecord)
      requires ValidZoned(z)
      ensures RecordTotal(r) == z.offset
      ensures r == OffsetRecordOf(z.offset)
      ensures OfHoursMinutesSeconds(r.hours, r.minutes, if r.seconds.Some? then r.seconds.value else 0) == Success(z.offset)
    {
      var zoneInfo := ZoneOffsetMapFromString(OffsetId(z.offset));
      OffsetIdDecodes(z.offset);
      OffsetRecordRoundTrip(z.offset);
      r := ZoneOffsetRecordFromMap(zoneInfo.value);
    }
  }

  // ---------------------------------------------------------------------
  // Properties

  /** dayOfWeek counts from Sunday: 1970-01-04 (a Sunday) is 0 and 1970-01-05 (a Monday) is 1. */
  lemma DayOfWeekCountsFromSunday()
    ensures DayOfWeek(1970, 1, 4) == 0 && DayOfWeek(1970, 1, 5) == 1
  {
    assert DaysFromCivil(1970, 1, 4) == 3;
    assert DaysFromCivil(1970, 1, 5) == 4;
  }

  /** Text with a numeric offset always carries utcOffset; so does zulu text with whole seconds. */
  lemma StringBuilderOffsetExamples()
    ensures IsLocalTimeZoneExists("2007-12-03T10:15:30+05:30")
    ensures IsLocalTimeZoneExists("2007-12-03T10:15:30Z") && !IsLocalTimeZoneExists("2007-12-03T10:15Z")
  {
    NumericEndingIsLocal("2007-12-03T10:15:30+05:30");
    WholeSecondsZulu();
    MinutesZulu();
  }

  /** The zero offset's record is hours 0 and minutes 0, with no seconds. */
  lemma ZeroOffsetRecord()
    ensures OffsetRecordOf(0) == ZoneOffsetRecord(0, 0, None)
  {
  }
}
