/**
 * Offset decoding: the text of a ZoneOffset ("Z", "+05:30", "-05:30:15") read
 * back into a map from "hours", "minutes" and "seconds" to signed integers, and
 * that map turned into the readable zone-offset record, in which hours and
 * minutes default to zero and seconds stays optional.
 *
 * A missing key is not the same as a zero: "+05:30" has no "seconds" key.
 */
module OffsetCodec {
  import opened Wrappers
  import opened Decimal
  import opened Calendar
  import opened JavaText
  import opened JavaTime

  const HOURS_KEY: string := "hours"
  const MINUTES_KEY: string := "minutes"
  const SECONDS_KEY: string := "seconds"

  /** Integer.parseInt(piece), multiplied by -1 in 32-bit arithmetic when the offset is negative. */
  function ParseComponent(piece: string, negate: bool): (r: Result<int>)
    ensures r.Success? ==> InInt32(r.value)
    ensures r.Failure? ==> r.error == NumberFormat
  {
    var v :- ParseInt(piece);
    Success(if negate then ToInt32(-v) else v)
  }

  /** The k-th piece read as a component, or None when there are no more than k pieces. */
  function OptionalComponent(pieces: seq<string>, k: nat, negate: bool): (r: Result<Option<int>>)
    ensures r.Success? ==> (r.value.Some? <==> |pieces| > k) && (r.value.Some? ==> InInt32(r.value.value))
    ensures r.Failure? ==> r.error == NumberFormat
  {
    if |pieces| > k then
      var v :- ParseComponent(pieces[k], negate);
      Success(Some(v))
    else Success(None)
  }

  /** A put made only when there is a value. */
  function PutIfPresent(m: map<string, int>, key: string, v: Option<int>): (r: map<string, int>)
    ensures v.Some? ==> r == m[key := v.value]
    ensures v.None? ==> r == m
  {
    if v.Some? then m[key := v.value] else m
  }

  /**
   * The map a sign branch builds from the text left after its sign is removed:
   * the first three ':'-separated pieces become hours, minutes and seconds.
   */
  function SignedFields(body: string, negate: bool): (r: Result<map<string, int>>)
    ensures r.Success? ==> r.value.Keys <= {HOURS_KEY, MINUTES_KEY, SECONDS_KEY}
    ensures r.Success? ==> SECONDS_KEY in r.value ==> MINUTES_KEY in r.value
    ensures r.Success? ==> MINUTES_KEY in r.value ==> HOURS_KEY in r.value
    ensures r.Success? ==> forall k :: k in r.value ==> InInt32(r.value[k])
  {
    var pieces := Split(body, ':');
    var hours :- OptionalComponent(pieces, 0, negate);
    var minutes :- OptionalComponent(pieces, 1, negate);
    var seconds :- OptionalComponent(pieces, 2, negate);
    Success(FieldsMap(hours, minutes, seconds))
  }

  /** The three puts of a sign branch: a key for each component that is present. */
  function FieldsMap(hours: Option<int>, minutes: Option<int>, seconds: Option<int>): (r: map<string, int>)
    ensures r.Keys <= {HOURS_KEY, MINUTES_KEY, SECONDS_KEY}
    ensures (HOURS_KEY in r <==> hours.Some?) && (hours.Some? ==> r[HOURS_KEY] == hours.value)
    ensures (MINUTES_KEY in r <==> minutes.Some?) && (minutes.Some? ==> r[MINUTES_KEY] == minutes.value)
    ensures (SECONDS_KEY in r <==> seconds.Some?) && (seconds.Some? ==> r[SECONDS_KEY] == seconds.value)
  {
    PutIfPresent(PutIfPresent(PutIfPresent(map[], HOURS_KEY, hours), MINUTES_KEY, minutes), SECONDS_KEY, seconds)
  }

  /**
   * What zoneOffsetMapFromString computes: text whose stripped form starts with
   * '+' or '-' loses its first sign and is split into components, the '-' branch
   * negating each; any other text gives the empty map. A component that is not
   * an int makes the whole call fail.
   */
  function OffsetFields(text: string): (r: Result<map<string, int>>)
    ensures FirstNonWhitespace(text) != Some('+') && FirstNonWhitespace(text) != Some('-') ==> r == Success(map[])
    ensures r.Success? ==> r.value.Keys <= {HOURS_KEY, MINUTES_KEY, SECONDS_KEY}
    ensures r.Success? ==> SECONDS_KEY in r.value ==> MINUTES_KEY in r.value && HOURS_KEY in r.value
    ensures r.Failure? ==> r.error == NumberFormat
  {
    match FirstNonWhitespace(text)
    case Some('+') => SignedFields(ReplaceFirst(text, '+'), false)
    case Some('-') => SignedFields(ReplaceFirst(text, '-'), true)
    case _ => Success(map[])
  }

  /**
   * zoneOffsetMapFromString: a fresh map filled by up to three puts, one per
   * component; a NumberFormatException from parseInt ends the call.
   */
  method ZoneOffsetMapFromString(dateTime: string) returns (r: Result<map<string, int>>)
    ensures r == OffsetFields(dateTime)
  {
    var zone: map<string, int> := map[];
    var first := FirstNonWhitespace(dateTime);
    if first == Some('+') || first == Some('-') {
      var negate := first == Some('-');
      var pieces := Split(ReplaceFirst(dateTime, first.value), ':');
      if |pieces| > 0 {
        var hours := ParseComponent(pieces[0], negate);
        if hours.Failure? {
          return Failure(hours.error);
        }
        zone := zone[HOURS_KEY := hours.value];
      }
      if |pieces| > 1 {
        var minutes := ParseComponent(pieces[1], negate);
        if minutes.Failure? {
          return Failure(minutes.error);
        }
        zone := zone[MINUTES_KEY := minutes.value];
      }
      if |pieces| > 2 {
        var seconds := ParseComponent(pieces[2], negate);
        if seconds.Failure? {
          return Failure(seconds.error);
        }
        zone := zone[SECONDS_KEY := seconds.value];
      }
    }
    return Success(zone);
  }

  // ---------------------------------------------------------------------
  // The readable zone-offset record

  /** Ballerina's ZoneOffset record: hours and minutes, and seconds only when given. */
  datatype ZoneOffsetRecord = ZoneOffsetRecord(hours: int, minutes: int, seconds: Option<int>)

  /** The offset a record denotes, in seconds (a missing seconds field counts as zero). */
  function RecordTotal(r: ZoneOffsetRecord): int {
    r.hours * 3600 + r.minutes * 60 + (if r.seconds.Some? then r.seconds.value else 0)
  }

  /** createZoneOffsetFromZoneInfoMap: hours and minutes default to 0; seconds is copied only when present. */
  function ZoneOffsetRecordFromMap(zoneInfo: map<string, int>): (r: ZoneOffsetRecord)
    ensures HOURS_KEY in zoneInfo ==> r.hours == zoneInfo[HOURS_KEY]
    ensures HOURS_KEY !in zoneInfo ==> r.hours == 0
    ensures MINUTES_KEY in zoneInfo ==> r.minutes == zoneInfo[MINUTES_KEY]
    ensures MINUTES_KEY !in zoneInfo ==> r.minutes == 0
    ensures r.seconds.Some? <==> SECONDS_KEY in zoneInfo
    ensures r.seconds.Some? ==> r.seconds.value == zoneInfo[SECONDS_KEY]
  {
    ZoneOffsetRecord(
      if HOURS_KEY in zoneInfo then zoneInfo[HOURS_KEY] else 0,
      if MINUTES_KEY in zoneInfo then zoneInfo[MINUTES_KEY] else 0,
      if SECONDS_KEY in zoneInfo then Some(zoneInfo[SECONDS_KEY]) else None)
  }

  /** The fields a valid offset's id text decodes to: each component with the offset's sign, seconds only when non-zero. */
  function ExpectedFields(totalSeconds: int): map<string, int> {
    if totalSeconds == 0 then map[]
    else
      PutIfPresent(map[HOURS_KEY := OffsetHours(totalSeconds), MINUTES_KEY := OffsetMinutes(totalSeconds)], SECONDS_KEY,
                   if OffsetSeconds(totalSeconds) != 0 then Some(OffsetSeconds(totalSeconds)) else None)
  }

  // ---------------------------------------------------------------------
  // Properties

  lemma DigitsHaveNoColon(s: string)
    requires AllDigits(s)
    ensures ':' !in s
  {
    forall i | 0 <= i < |s|
      ensures s[i] != ':'
    {
      assert IsDigit(s[i]);
    }
  }

  /** The two-digit pieces of an offset id parse back, with the sign applied. */
  lemma ComponentOfTwoDigits(n: nat, negate: bool)
    requires n < 100
    ensures ParseComponent(TwoDigits(n), negate) == Success(if negate then 0 - n else n)
  {
    ParseIntTwoDigits(n);
  }

  function Signed(n: int, negate: bool): int {
    if negate then -n else n
  }

  /** The id text of an offset with the given magnitudes, after its sign. */
  function ComponentsText(hours: nat, minutes: nat, seconds: nat): string
    requires hours < 100 && minutes < 100 && seconds < 100
  {
    TwoDigits(hours) + ":" + TwoDigits(minutes) + (if seconds != 0 then ":" + TwoDigits(seconds) else "")
  }

  /** A sign branch on text that splits into two or three pieces, each of which parses. */
  lemma SignedFieldsOfPieces(body: string, negate: bool, a: string, b: string, e: Option<string>,
                             va: int, vb: int, ve: Option<int>)
    requires Split(body, ':') == [a, b] + (if e.Some? then [e.value] else [])
    requires ParseComponent(a, negate) == Success(va) && ParseComponent(b, negate) == Success(vb)
    requires e.Some? <==> ve.Some?
    requires e.Some? ==> ParseComponent(e.value, negate) == Success(ve.value)
    ensures SignedFields(body, negate) == Success(PutIfPresent(map[HOURS_KEY := va, MINUTES_KEY := vb], SECONDS_KEY, ve))
  {
  }

  /** The id text after its sign splits on ':' into its two-digit pieces. */
  lemma SplitComponentsText(hours: nat, minutes: nat, seconds: nat)
    requires hours < 100 && minutes < 100 && seconds < 100
    ensures Split(ComponentsText(hours, minutes, seconds), ':')
         == [TwoDigits(hours), TwoDigits(minutes)] + (if seconds != 0 then [TwoDigits(seconds)] else [])
  {
    var h, m, s := TwoDigits(hours), TwoDigits(minutes), TwoDigits(seconds);
    DigitsHaveNoColon(h);
    DigitsHaveNoColon(m);
    DigitsHaveNoColon(s);
    if seconds != 0 {
      SplitComponents(h, m, Some(s));
      assert ComponentsText(hours, minutes, seconds) == h + ":" + m + ":" + s;
    } else {
      SplitComponents(h, m, None);
      assert ComponentsText(hours, minutes, seconds) == h + ":" + m;
    }
  }

  /** A sign branch reads back the magnitudes the id text was written from. */
  lemma SignedFieldsOfComponents(hours: nat, minutes: nat, seconds: nat, negate: bool)
    requires hours < 100 && minutes < 100 && seconds < 100
    ensures SignedFields(ComponentsText(hours, minutes, seconds), negate)
         == Success(PutIfPresent(map[HOURS_KEY := Signed(hours, negate), MINUTES_KEY := Signed(minutes, negate)], SECONDS_KEY,
                                 if seconds != 0 then Some(Signed(seconds, negate)) else None))
  {
    SplitComponentsText(hours, minutes, seconds);
    ComponentOfTwoDigits(hours, negate);
    ComponentOfTwoDigits(minutes, negate);
    ComponentOfTwoDigits(seconds, negate);
    SignedFieldsOfPieces(ComponentsText(hours, minutes, seconds), negate,
                         TwoDigits(hours), TwoDigits(minutes), if seconds != 0 then Some(TwoDigits(seconds)) else None,
                         Signed(hours, negate), Signed(minutes, negate),
                         if seconds != 0 then Some(Signed(seconds, negate)) else None);
  }

  /** Text that starts with a sign is decoded by that sign's branch, from the rest of the text. */
  lemma StripSign(sign: char, body: string)
    requires sign == '+' || sign == '-'
    ensures OffsetFields([sign] + body) == SignedFields(body, sign == '-')
  {
    var text := [sign] + body;
    assert FirstNonWhitespace(text) == Some(sign);
    assert text[1..] == body;
  }

  /** A non-zero offset's id is its sign and the magnitudes of its components, which carry that sign. */
  lemma OffsetIdParts(totalSeconds: int) returns (hours: nat, minutes: nat, seconds: nat)
    requires ValidOffset(totalSeconds) && totalSeconds != 0
    ensures hours < 100 && minutes < 100 && seconds < 100
    ensures OffsetHours(totalSeconds) == Signed(hours, totalSeconds < 0)
    ensures OffsetMinutes(totalSeconds) == Signed(minutes, totalSeconds < 0)
    ensures OffsetSeconds(totalSeconds) == Signed(seconds, totalSeconds < 0)
    ensures OffsetId(totalSeconds) == [if totalSeconds < 0 then '-' else '+'] + ComponentsText(hours, minutes, seconds)
  {
    var abs := if totalSeconds < 0 then -totalSeconds else totalSeconds;
    OffsetParts(abs);
    hours, minutes, seconds := abs / 3600, abs / 60 % 60, abs % 60;
  }

  /** A sign and an offset's components decode to those components, signed. */
  lemma SignedTextDecodes(text: string, sign: char, hours: nat, minutes: nat, seconds: nat)
    requires sign == '+' || sign == '-'
    requires hours < 100 && minutes < 100 && seconds < 100
    requires text == [sign] + ComponentsText(hours, minutes, seconds)
    ensures var negate := sign == '-';
      OffsetFields(text)
        == Success(PutIfPresent(map[HOURS_KEY := Signed(hours, negate), MINUTES_KEY := Signed(minutes, negate)], SECONDS_KEY,
                                if seconds != 0 then Some(Signed(seconds, negate)) else None))
  {
    StripSign(sign, ComponentsText(hours, minutes, seconds));
    SignedFieldsOfComponents(hours, minutes, seconds, sign == '-');
  }

  /**
   * Decoding inverts ZoneOffset.toString: every valid offset's id decodes to its
   * signed hours and minutes, plus its seconds exactly when they are non-zero.
   */
  lemma OffsetIdDecodes(totalSeconds: int)
    requires ValidOffset(totalSeconds)
    ensures OffsetFields(OffsetId(totalSeconds)) == Success(ExpectedFields(totalSeconds))
  {
    if totalSeconds != 0 {
      var h, m, s := OffsetIdParts(totalSeconds);
      SignedTextDecodes(OffsetId(totalSeconds), if totalSeconds < 0 then '-' else '+', h, m, s);
    }
  }

  /** Nothing precedes the first piece of "Z": the UTC offset decodes to the empty map. */
  lemma ZuluDecodesEmpty()
    ensures OffsetFields("Z") == Success(map[])
  {
  }

  /** "+05:30" gives hours 5 and minutes 30, and no seconds key. */
  lemma PositiveOffsetExample()
    ensures OffsetFields("+05:30") == Success(map[HOURS_KEY := 5, MINUTES_KEY := 30])
  {
    assert "+05:30" == ['+'] + ComponentsText(5, 30, 0);
    StripSign('+', ComponentsText(5, 30, 0));
    SignedFieldsOfComponents(5, 30, 0, false);
  }

  /** A leading '-' negates every present component: "-05:30:15" gives -5, -30 and -15. */
  lemma NegativeOffsetExample()
    ensures OffsetFields("-05:30:15") == Success(map[HOURS_KEY := -5, MINUTES_KEY := -30, SECONDS_KEY := -15])
  {
    assert "-05:30:15" == ['-'] + ComponentsText(5, 30, 15);
    StripSign('-', ComponentsText(5, 30, 15));
    SignedFieldsOfComponents(5, 30, 15, true);
  }

  /** The seconds component as the record keeps it: present exactly when non-zero. */
  function OptionalSeconds(totalSeconds: int): (r: Option<int>)
    ensures r.Some? <==> OffsetSeconds(totalSeconds) != 0
    ensures (if r.Some? then r.value else 0) == OffsetSeconds(totalSeconds)
  {
    if OffsetSeconds(totalSeconds) != 0 then Some(OffsetSeconds(totalSeconds)) else None
  }

  /** Filling the record from a valid offset's decoded fields gives the offset's own signed components. */
  lemma ExpectedRecord(totalSeconds: int)
    requires ValidOffset(totalSeconds)
    ensures ZoneOffsetRecordFromMap(ExpectedFields(totalSeconds))
         == ZoneOffsetRecord(OffsetHours(totalSeconds), OffsetMinutes(totalSeconds), OptionalSeconds(totalSeconds))
  {
    if totalSeconds == 0 {
      assert OffsetHours(0) == 0 && OffsetMinutes(0) == 0 && OffsetSeconds(0) == 0;
    }
  }

  /** A valid offset's signed components add back up to it. */
  lemma ComponentsTotal(totalSeconds: int)
    requires ValidOffset(totalSeconds)
    ensures OffsetHours(totalSeconds) * 3600 + OffsetMinutes(totalSeconds) * 60 + OffsetSeconds(totalSeconds) == totalSeconds
  {
    OfHoursMinutesSecondsComponents(totalSeconds);
  }

  /**
   * Decoding an offset id and filling the record gives components that
   * ZoneOffset.ofHoursMinutesSeconds accepts, and they denote the same offset.
   */
  lemma OffsetRecordRoundTrip(totalSeconds: int)
    requires ValidOffset(totalSeconds)
    ensures var rec := ZoneOffsetRecordFromMap(ExpectedFields(totalSeconds));
      && RecordTotal(rec) == totalSeconds
      && (rec.seconds.Some? <==> OffsetSeconds(totalSeconds) != 0)
      && OfHoursMinutesSeconds(rec.hours, rec.minutes, if rec.seconds.Some? then rec.seconds.value else 0)
         == Success(totalSeconds)
  {
    ExpectedRecord(totalSeconds);
    OfHoursMinutesSecondsComponents(totalSeconds);
  }
}
