/**
 * TimeValueHandler (current generation): each Civil record is produced by a
 * fresh Civil builder, Utc tuples by the Utc constructors, and a Utc's
 * ZonedDateTime by viewing its instant at "Z".
 *
 * `now` stands for the ZonedDateTime.now() a fresh builder starts from; the
 * contracts below show that it never reaches the record.
 */
module NativeHandler {
  import opened Wrappers
  import opened Decimal
  import opened JavaTime
  import opened UtcModel
  import opened CivilModel
  import opened TextPatterns

  /** createCivilFromZoneDateTime: a fresh builder's buildFromZonedDateTime. */
  method CreateCivilFromZoneDateTime(z: ZonedDateTime, now: ZonedDateTime) returns (r: map<string, CivilValue>)
    requires ValidZoned(z) && ValidZoned(now)
    ensures r == CommonFields(z)[SECOND_KEY := SecondField(z)]
  {
    var civil := new Civil(now);
    r := civil.BuildFromZonedDateTime(z);
    assert map[] + CommonFields(z) == CommonFields(z);
  }

  /** createCivilFromZoneDateTimeString: a fresh builder's buildFromZonedDateTimeString. */
  method CreateCivilFromZoneDateTimeString(text: string, now: ZonedDateTime, p: Platform)
    returns (r: Result<map<string, CivilValue>>)
    requires p.Valid() && ValidZoned(now)
    ensures r.Success? <==> p.parseIso(text).Success?
    ensures r.Failure? ==> r.error == p.parseIso(text).error
    ensures r.Success? ==> r.value == CivilFromIsoText(text, p.parseIso(text).value)
  {
    var civil := new Civil(now);
    r := civil.BuildFromZonedDateTimeString(text, p);
    if r.Success? {
      var z := p.parseIso(text).value;
      assert map[] + CommonFields(z) == CommonFields(z);
      assert r.value == CivilFromIsoText(text, z);
    }
  }

  /** The record the RFC 3339 builder produces from text that parsed to z. */
  function CivilFromIsoText(text: string, z: ZonedDateTime): (r: map<string, CivilValue>)
    requires ValidZoned(z)
    ensures CommonFields(z).Keys <= r.Keys
    ensures SECOND_KEY in r <==> IsSecondExists(text)
    ensures UTC_OFFSET_KEY in r <==> IsLocalTimeZoneExists(text)
  {
    PutIf(PutIf(CommonFields(z), IsSecondExists(text), SECOND_KEY, SecondField(z)),
          IsLocalTimeZoneExists(text), UTC_OFFSET_KEY, OffsetValue(OffsetRecordOf(z.offset)))
  }

  /** createCivilFromEmailString: a fresh builder's buildFromEmailString. */
  method CreateCivilFromEmailString(text: string, now: ZonedDateTime, p: Platform)
    returns (r: Result<map<string, CivilValue>>)
    requires p.Valid() && ValidZoned(now)
    ensures r.Success? <==> p.parseEmail(text).Success?
    ensures r.Failure? ==> r.error == p.parseEmail(text).error
    ensures r.Success? ==> var z := p.parseEmail(text).value;
      && SECOND_KEY in r.value && UTC_OFFSET_KEY in r.value
      && r.value == CommonFields(z)[SECOND_KEY := SecondField(z)][UTC_OFFSET_KEY := OffsetValue(OffsetRecordOf(z.offset))]
  {
    var civil := new Civil(now);
    r := civil.BuildFromEmailString(text, p);
    if r.Success? {
      assert map[] + CommonFields(p.parseEmail(text).value) == CommonFields(p.parseEmail(text).value);
    }
  }

  /**
   * createUtcFromMilliSeconds, and createUtcFromDate on the Date's millisecond
   * count: the millisecond Utc's tuple, whose parts add back to the count.
   */
  function CreateUtcFromMilliSeconds(millis: int): (r: seq<UtcElement>)
    ensures |r| == 2 && r[0].IntElement? && r[1].DecimalElement?
    ensures r[0].i as real * 1000.0 + ElementValue(r[1]) * 1000.0 == millis as real
    ensures -1.0 < ElementValue(r[1]) < 1.0
    ensures r[0].i == JavaDiv(millis, 1000) && ElementValue(r[1]) * 1000.0 == JavaRem(millis, 1000) as real
  {
    Build(FromMillis(millis))
  }

  /** createZonedDateTimeFromUtc: the tuple's instant at offset zero, in the zone "Z". */
  function CreateZonedDateTimeFromUtc(utc: seq<UtcElement>): (r: ZonedDateTime)
    requires |utc| == 1 || |utc| == 2 ==> utc[0].IntElement?
    ensures r.offset == 0 && r.zone == ZoneOffsetId(0)
    ensures 1 <= r.dateTime.date.month <= 12 && ToInstant(r) == GenerateInstant(FromTuple(utc))
  {
    GenerateZonedDateAtZ(FromTuple(utc))
  }

  // ---------------------------------------------------------------------
  // Properties

  /** A millisecond tuple read back by the Utc tuple constructor denotes exactly the millisecond count. */
  lemma MillisTupleInstant(millis: int)
    ensures InstantValue(GenerateInstant(FromTuple(CreateUtcFromMilliSeconds(millis)))) == millis as real / 1000.0
  {
    var u := FromMillis(millis);
    var rem := JavaRem(millis, 1000);
    assert u.lastSecondFraction == rem as real / 1000.0;
    var nanos := u.lastSecondFraction * GIGA_REAL;
    assert nanos == (rem * 1_000_000) as real;
    assert Trunc(nanos) == rem * 1_000_000;
    assert ToInt32(Trunc(nanos)) == rem * 1_000_000;
  }
}
