/**
 * The earlier generation's TimeValueHandler (org.ballerinalang.stdlib.time):
 * Utc tuples and instants, Civil records without a day of the week, the
 * zone-offset record of parsed text, and its own offset decoder.
 *
 * That decoder strips a '+' in both sign branches, so for a negative offset the
 * hours piece keeps its '-' and is then negated a second time: "-05:30" reads
 * as hours 5 and minutes -30.
 */
module LegacyHandler {
  import opened Wrappers
  import opened Decimal
  import opened Calendar
  import opened JavaText
  import opened JavaTime
  import opened UtcModel
  import opened OffsetCodec
  import opened TextPatterns
  import opened CivilValues
  import opened CivilModel

  // ---------------------------------------------------------------------
  // Utc tuples

  /** createUtcFromInstant(instant, precision): the seconds and the fraction rounded HALF_UP to the precision (no clamp). */
  function LegacyUtcFromInstantWithPrecision(i: Instant, precision: int): (r: seq<UtcElement>)
    requires ValidInstant(i)
    ensures |r| == 2 && r[0] == IntElement(i.epochSecond) && r[1].DecimalElement?
    ensures MovePoint(r[1].d, precision) == HalfUp(MovePoint(i.nano as real / GIGA_REAL, precision)) as real
    ensures -0.5 <= MovePoint(r[1].d - i.nano as real / GIGA_REAL, precision) <= 0.5
    ensures precision >= 0 ==> 0.0 <= r[1].d <= 1.0
  {
    Build(FromInstantWithPrecision(i, precision))
  }

  /** createUtcFromInstant(instant): the seconds and the exact fraction nano / 10^9. */
  function LegacyUtcFromInstant(i: Instant): (r: seq<UtcElement>)
    requires ValidInstant(i)
    ensures |r| == 2 && r[0] == IntElement(i.epochSecond) && r[1].DecimalElement?
    ensures r[1].d * GIGA_REAL == i.nano as real
  {
    Build(FromInstant(i))
  }

  /**
   * createInstantFromUtc: a pair's fraction scaled to nanoseconds and narrowed
   * by intValue, a single int alone, anything else the epoch.
   */
  function LegacyInstantFromUtc(utc: seq<UtcElement>): (r: Instant)
    requires |utc| == 1 || |utc| == 2 ==> utc[0].IntElement?
    ensures ValidInstant(r)
    ensures |utc| == 2 ==>
      InstantValue(r) == utc[0].i as real + ToInt32(Trunc(ElementValue(utc[1]) * GIGA_REAL)) as real / GIGA_REAL
    ensures |utc| == 1 ==> InstantValue(r) == utc[0].i as real
    ensures |utc| != 1 && |utc| != 2 ==> InstantValue(r) == 0.0
  {
    GenerateInstant(FromTuple(utc))
  }

  // ---------------------------------------------------------------------
  // Civil records

  /** createCivilFromZoneDateTime: date, hour, minute, the second (always) and the zone id; no day of the week. */
  method LegacyCivilFromZoneDateTime(z: ZonedDateTime) returns (r: map<string, CivilValue>)
    requires ValidZoned(z)
    ensures r == DateTimeFields(z)[SECOND_KEY := SecondField(z)]
    ensures DAY_OF_WEEK_KEY !in r && UTC_OFFSET_KEY !in r
  {
    var t := z.dateTime;
    r := map[];
    r := r[YEAR_KEY := IntValue(t.date.year)];
    r := r[MONTH_KEY := IntValue(t.date.month)];
    r := r[DAY_KEY := IntValue(t.date.day)];
    r := r[HOUR_KEY := IntValue(t.hour)];
    r := r[MINUTE_KEY := IntValue(t.minute)];
    r := r[SECOND_KEY := SecondField(z)];
    r := r[TIME_ABBREV_KEY := StringValue(ZoneIdText(z.zone))];
  }

  /**
   * createCivilFromZoneDateTimeString: the parsed text's date, hour, minute and
   * zone id, and the second only when the text shows one; never utcOffset.
   */
  method LegacyCivilFromZoneDateTimeString(text: string, p: Platform) returns (r: Result<map<string, CivilValue>>)
    requires p.Valid()
    ensures r.Success? <==> p.parseIso(text).Success?
    ensures r.Failure? ==> r.error == p.parseIso(text).error
    ensures r.Success? ==> var z := p.parseIso(text).value;
      r.value == PutIf(DateTimeFields(z), IsSecondExists(text), SECOND_KEY, SecondField(z))
    ensures r.Success? ==> DAY_OF_WEEK_KEY !in r.value && UTC_OFFSET_KEY !in r.value
  {
    var parsed := p.parseIso(text);
    if parsed.Failure? {
      return Failure(parsed.error);
    }
    var z := parsed.value;
    var t := z.dateTime;
    var civil: map<string, CivilValue> := map[];
    civil := civil[YEAR_KEY := IntValue(t.date.year)];
    civil := civil[MONTH_KEY := IntValue(t.date.month)];
    civil := civil[DAY_KEY := IntValue(t.date.day)];
    civil := civil[HOUR_KEY := IntValue(t.hour)];
    civil := civil[MINUTE_KEY := IntValue(t.minute)];
    if IsSecondExists(text) {
      civil := civil[SECOND_KEY := SecondField(z)];
    }
    civil := civil[TIME_ABBREV_KEY := StringValue(ZoneIdText(z.zone))];
    return Success(civil);
  }

  // ---------------------------------------------------------------------
  // Offsets

  /**
   * zoneOffsetMapFromString as written here: the '+' branch and the fallback are
   * those of OffsetFields, but the '-' branch also strips the first '+' (not the
   * '-') before negating each component.
   */
  function LegacyOffsetFields(text: string): (r: Result<map<string, int>>)
    ensures FirstNonWhitespace(text) != Some('-') ==> r == OffsetFields(text)
    ensures FirstNonWhitespace(text) == Some('-') ==> r == SignedFields(ReplaceFirst(text, '+'), true)
    ensures r.Success? ==> r.value.Keys <= {HOURS_KEY, MINUTES_KEY, SECONDS_KEY}
  {
    if FirstNonWhitespace(text) == Some('-') then SignedFields(ReplaceFirst(text, '+'), true)
    else OffsetFields(text)
  }

  /** zoneOffsetMapFromString: a fresh map and up to three puts, parseInt failures ending the call. */
  method LegacyZoneOffsetMapFromString(dateTime: string) returns (r: Result<map<string, int>>)
    ensures r == LegacyOffsetFields(dateTime)
  {
    var zone: map<string, int> := map[];
    var first := FirstNonWhitespace(dateTime);
    if first == Some('+') || first == Some('-') {
      var negate := first == Some('-');
      var pieces := Split(ReplaceFirst(dateTime, '+'), ':');
      if |pieces| > 0 {
        var hours := ParseComponent(pieces[0], negate);
        if hours.Failure? {
          return Failure(hours.error);
        }
        zone := zone[HOURS_KEY := hours.value];
      }
      if |pieces| > 1 {
        var minutes := ParseComponent(pieces[1], negate);
        if minutes.Failure? {
          return Failure(minutes.error);
        }
        zone := zone[MINUTES_KEY := minutes.value];
      }
      if |pieces| > 2 {
        var seconds := ParseComponent(pieces[2], negate);
        if seconds.Failure? {
          return Failure(seconds.error);
        }
        zone := zone[SECONDS_KEY := seconds.value];
      }
    }
    return Success(zone);
  }

  /** The fields the legacy decoder reads from a valid offset's id: as intended, except a negative offset's hours lose their sign. */
  function LegacyExpectedFields(totalSeconds: int): (r: map<string, int>)
    requires ValidOffset(totalSeconds)
  {
    if totalSeconds < 0 then ExpectedFields(totalSeconds)[HOURS_KEY := -OffsetHours(totalSeconds)]
    else ExpectedFields(totalSeconds)
  }

  /** The zone-offset record createZoneOffsetDateTime fills for a valid offset. */
  function LegacyOffsetRecord(totalSeconds: int): (r: ZoneOffsetRecord)
    requires ValidOffset(totalSeconds)
    ensures totalSeconds >= 0 ==> r == OffsetRecordOf(totalSeconds)
    ensures totalSeconds < 0 ==> r == OffsetRecordOf(totalSeconds).(hours := -OffsetHours(totalSeconds))
    ensures totalSeconds < 0 ==> RecordTotal(r) == totalSeconds - 2 * OffsetHours(totalSeconds) * 3600
    ensures totalSeconds >= 0 ==> RecordTotal(r) == totalSeconds
  {
    LegacyFieldsOfOffsetId(totalSeconds);
    LegacyRecordOfExpected(totalSeconds);
    ExpectedRecord(totalSeconds);
    ComponentsTotal(totalSeconds);
    ZoneOffsetRecordFromMap(LegacyOffsetFields(OffsetId(totalSeconds)).value)
  }

  /** The record filled from the legacy fields: the offset's components, except a negative offset's hours lose their sign. */
  lemma LegacyRecordOfExpected(totalSeconds: int)
    requires ValidOffset(totalSeconds)
    ensures ZoneOffsetRecordFromMap(LegacyExpectedFields(totalSeconds))
         == ZoneOffsetRecord(if totalSeconds < 0 then -OffsetHours(totalSeconds) else OffsetHours(totalSeconds),
                             OffsetMinutes(totalSeconds), OptionalSeconds(totalSeconds))
  {
    ExpectedRecord(totalSeconds);
  }

  /**
   * createZoneOffsetDateTime: for parsed text that gives its own offset, the
   * record decoded from the offset's id; otherwise no record (null).
   */
  method CreateZoneOffsetDateTime(text: string, p: Platform) returns (r: Result<Option<ZoneOffsetRecord>>)
    requires p.Valid()
    ensures r.Success? <==> p.parseIso(text).Success?
    ensures r.Failure? ==> r.error == p.parseIso(text).error
    ensures r.Success? ==> (r.value.Some? <==> IsLocalTimeZoneExists(text))
    ensures r.Success? && r.value.Some? ==> r.value.value == LegacyOffsetRecord(p.parseIso(text).value.offset)
  {
    var parsed := p.parseIso(text);
    if parsed.Failure? {
      return Failure(parsed.error);
    }
    var z := parsed.value;
    if IsLocalTimeZoneExists(text) {
      var zoneInfo := LegacyZoneOffsetMapFromString(OffsetId(z.offset));
      LegacyFieldsOfOffsetId(z.offset);
      return Success(Some(ZoneOffsetRecordFromMap(zoneInfo.value)));
    }
    return Success(None);
  }

  // ---------------------------------------------------------------------
  // Properties

  lemma DigitsHaveNoPlus(s: string)
    requires AllDigits(s)
    ensures '+' !in s
  {
    forall i | 0 <= i < |s|
      ensures s[i] != '+'
    {
      assert IsDigit(s[i]);
    }
  }

  /** "-hh:mm[:ss]" splits on ':' into "-hh" and the other two-digit pieces. */
  lemma SplitMinusComponentsText(hours: nat, minutes: nat, seconds: nat)
    requires hours < 100 && minutes < 100 && seconds < 100
    ensures Split("-" + ComponentsText(hours, minutes, seconds), ':')
         == ["-" + TwoDigits(hours), TwoDigits(minutes)] + (if seconds != 0 then [TwoDigits(seconds)] else [])
  {
    var h, m, s := "-" + TwoDigits(hours), TwoDigits(minutes), TwoDigits(seconds);
    DigitsHaveNoColon(TwoDigits(hours));
    assert ':' !in h;
    DigitsHaveNoColon(m);
    DigitsHaveNoColon(s);
    var body := "-" + ComponentsText(hours, minutes, seconds);
    if seconds != 0 {
      SplitComponents(h, m, Some(s));
      assert body == h + ":" + m + ":" + s;
    } else {
      SplitComponents(h, m, None);
      assert body == h + ":" + m;
    }
  }

  /** A piece "-hh" in the '-' branch is negated twice, giving the magnitude back. */
  lemma NegatedNegativeComponent(n: nat)
    requires n < 100
    ensures ParseComponent("-" + TwoDigits(n), true) == Success(n)
  {
    ParseIntNegativeTwoDigits(n);
  }

  /** The '-' branch on "-hh:mm[:ss]": the hours piece keeps its minus sign, the other pieces are negated once. */
  lemma LegacyNegativeComponents(hours: nat, minutes: nat, seconds: nat)
    requires hours < 100 && minutes < 100 && seconds < 100
    ensures var hm := map[HOURS_KEY := hours as int, MINUTES_KEY := 0 - minutes];
      SignedFields("-" + ComponentsText(hours, minutes, seconds), true)
        == Success(if seconds != 0 then hm[SECONDS_KEY := 0 - seconds] else hm)
  {
    SplitMinusComponentsText(hours, minutes, seconds);
    NegatedNegativeComponent(hours);
    ComponentOfTwoDigits(minutes, true);
    ComponentOfTwoDigits(seconds, true);
    SignedFieldsOfPieces("-" + ComponentsText(hours, minutes, seconds), true,
                         "-" + TwoDigits(hours), TwoDigits(minutes), if seconds != 0 then Some(TwoDigits(seconds)) else None,
                         hours, 0 - minutes, if seconds != 0 then Some(0 - seconds) else None);
  }

  /** Text of a '-' and then no '+' goes to the '-' branch whole, its own '-' included. */
  lemma LegacyMinusText(body: string)
    requires '+' !in body
    ensures LegacyOffsetFields("-" + body) == SignedFields("-" + body, true)
  {
    var text := "-" + body;
    assert FirstNonWhitespace(text) == Some('-');
    assert '+' !in text;
  }

  /** The legacy decoder on "-" and an offset's components: hours positive, minutes and seconds negative. */
  lemma LegacyNegativeText(hours: nat, minutes: nat, seconds: nat)
    requires hours < 100 && minutes < 100 && seconds < 100
    ensures LegacyOffsetFields("-" + ComponentsText(hours, minutes, seconds))
         == Success(PutIfPresent(map[HOURS_KEY := hours as int, MINUTES_KEY := 0 - minutes], SECONDS_KEY,
                                 if seconds != 0 then Some(0 - seconds) else None))
  {
    DigitsHaveNoPlus(TwoDigits(hours));
    DigitsHaveNoPlus(TwoDigits(minutes));
    DigitsHaveNoPlus(TwoDigits(seconds));
    LegacyMinusText(ComponentsText(hours, minutes, seconds));
    LegacyNegativeComponents(hours, minutes, seconds);
  }

  /** Text the legacy decoder reads as it reads "-hh:mm[:ss]" gives that text's fields. */
  lemma LegacyDecodesAs(text: string, hours: nat, minutes: nat, seconds: nat)
    requires hours < 100 && minutes < 100 && seconds < 100
    requires LegacyOffsetFields(text) == LegacyOffsetFields("-" + ComponentsText(hours, minutes, seconds))
    ensures LegacyOffsetFields(text)
         == Success(PutIfPresent(map[HOURS_KEY := hours as int, MINUTES_KEY := 0 - minutes], SECONDS_KEY,
                                 if seconds != 0 then Some(0 - seconds) else None))
  {
    LegacyNegativeText(hours, minutes, seconds);
  }

  /** A negative offset's id is "-" and the components of its magnitude, so it decodes as that text does. */
  lemma NegativeOffsetId(totalSeconds: int) returns (hours: nat, minutes: nat, seconds: nat)
    requires ValidOffset(totalSeconds) && totalSeconds < 0
    ensures hours < 100 && minutes < 100 && seconds < 100
    ensures OffsetHours(totalSeconds) == 0 - hours && OffsetMinutes(totalSeconds) == 0 - minutes
    ensures OffsetSeconds(totalSeconds) == 0 - seconds
    ensures LegacyOffsetFields(OffsetId(totalSeconds)) == LegacyOffsetFields("-" + ComponentsText(hours, minutes, seconds))
  {
    hours, minutes, seconds := OffsetIdParts(totalSeconds);
  }

  /** Overwriting the hours of a decoded map leaves the other components in place. */
  lemma HoursOverwritten(hours: int, newHours: int, minutes: int, seconds: Option<int>)
    ensures var hm := map[HOURS_KEY := hours, MINUTES_KEY := minutes];
      var hm2 := map[HOURS_KEY := newHours, MINUTES_KEY := minutes];
      PutIfPresent(hm, SECONDS_KEY, seconds)[HOURS_KEY := newHours] == PutIfPresent(hm2, SECONDS_KEY, seconds)
  {
    assert HOURS_KEY != SECONDS_KEY && HOURS_KEY != MINUTES_KEY;
    var hm := map[HOURS_KEY := hours, MINUTES_KEY := minutes];
    var hm2 := map[HOURS_KEY := newHours, MINUTES_KEY := minutes];
    assert hm[HOURS_KEY := newHours] == hm2;
  }

  /** A negative offset's legacy fields, for the magnitudes of its components: hours positive, the rest negative. */
  lemma LegacyExpectedOfNegative(totalSeconds: int, hours: nat, minutes: nat, seconds: nat)
    requires ValidOffset(totalSeconds) && totalSeconds < 0
    requires OffsetHours(totalSeconds) == 0 - hours && OffsetMinutes(totalSeconds) == 0 - minutes
    requires OffsetSeconds(totalSeconds) == 0 - seconds
    ensures LegacyExpectedFields(totalSeconds)
         == PutIfPresent(map[HOURS_KEY := hours as int, MINUTES_KEY := 0 - minutes], SECONDS_KEY,
                         if seconds != 0 then Some(0 - seconds) else None)
  {
    var sO: Option<int> := if seconds != 0 then Some(0 - seconds) else None;
    HoursOverwritten(0 - hours, hours, 0 - minutes, sO);
  }

  /** The legacy decoder on a negative offset's id: its hours come out positive. */
  lemma LegacyFieldsOfNegativeId(totalSeconds: int)
    requires ValidOffset(totalSeconds) && totalSeconds < 0
    ensures LegacyOffsetFields(OffsetId(totalSeconds)) == Success(LegacyExpectedFields(totalSeconds))
  {
    var h, m, sec := NegativeOffsetId(totalSeconds);
    LegacyDecodesAs(OffsetId(totalSeconds), h, m, sec);
    LegacyExpectedOfNegative(totalSeconds, h, m, sec);
  }

  /** The legacy decoder on every valid offset's id: what OffsetFields gives, but a negative offset's hours come out positive. */
  lemma LegacyFieldsOfOffsetId(totalSeconds: int)
    requires ValidOffset(totalSeconds)
    ensures LegacyOffsetFields(OffsetId(totalSeconds)) == Success(LegacyExpectedFields(totalSeconds))
  {
    if totalSeconds < 0 {
      LegacyFieldsOfNegativeId(totalSeconds);
    } else {
      OffsetIdDecodes(totalSeconds);
      assert totalSeconds == 0 ==> OffsetId(totalSeconds) == "Z";
      assert totalSeconds > 0 ==> OffsetId(totalSeconds)[0] == '+';
    }
  }

  /** "-05:30" is read as hours 5 and minutes -30. */
  lemma LegacyNegativeOffsetExample()
    ensures OffsetId(-19800) == "-05:30"
    ensures LegacyOffsetFields("-05:30") == Success(map[HOURS_KEY := 5, MINUTES_KEY := -30])
  {
    assert TwoDigits(5) == "05" && TwoDigits(30) == "30";
    assert ComponentsText(5, 30, 0) == "05:30";
    assert OffsetId(-19800) == "-" + ComponentsText(5, 30, 0);
    assert "-" + ComponentsText(5, 30, 0) == "-05:30";
    LegacyNegativeText(5, 30, 0);
  }

  /** The offset -05:30 gets the record of +04:30. */
  lemma LegacyNegativeRecordExample()
    ensures LegacyOffsetRecord(-19800) == ZoneOffsetRecord(5, -30, None)
    ensures RecordTotal(LegacyOffsetRecord(-19800)) == 16200
  {
    assert OffsetHours(-19800) == -5 && OffsetMinutes(-19800) == -30 && OffsetSeconds(-19800) == 0;
    LegacyExpectedOfNegative(-19800, 5, 30, 0);
    var fields := map[HOURS_KEY := 5, MINUTES_KEY := -30];
    assert LegacyExpectedFields(-19800) == fields;
  }

  /** Every negative offset of an hour or more gets a record that denotes a different offset. */
  lemma LegacyNegativeRecordWrong(totalSeconds: int)
    requires ValidOffset(totalSeconds) && totalSeconds <= -3600
    ensures RecordTotal(LegacyOffsetRecord(totalSeconds)) != totalSeconds
    ensures RecordTotal(OffsetRecordOf(totalSeconds)) == totalSeconds
  {
    assert OffsetHours(totalSeconds) <= -1;
  }

  /** The legacy Civil record is the current one without its day of the week. */
  lemma LegacyCivilLacksDayOfWeek(z: ZonedDateTime)
    requires ValidZoned(z)
    ensures var d := z.dateTime.date;
      DateTimeFields(z)[SECOND_KEY := SecondField(z)][DAY_OF_WEEK_KEY := IntValue(DayOfWeek(d.year, d.month, d.day))]
        == CommonFields(z)[SECOND_KEY := SecondField(z)]
  {
    var d := z.dateTime.date;
    var dow := IntValue(DayOfWeek(d.year, d.month, d.day));
    var legacy := DateTimeFields(z)[SECOND_KEY := SecondField(z)][DAY_OF_WEEK_KEY := dow];
    var current := CommonFields(z)[SECOND_KEY := SecondField(z)];
    assert legacy.Keys == current.Keys;
    forall k | k in legacy.Keys
      ensures legacy[k] == current[k]
    {
    }
  }

  /** A legacy Utc tuple read back gives the instant it was made from. */
  lemma LegacyUtcRoundTrip(i: Instant)
    requires ValidInstant(i)
    ensures LegacyInstantFromUtc(LegacyUtcFromInstant(i)) == i
  {
    BuildThenGenerate(i);
  }
}
