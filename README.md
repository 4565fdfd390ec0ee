# Ballerina `time` natives, modelled in Dafny

This project models the Java natives behind the Ballerina standard library's
`time` module. They convert between three representations:

- a **Utc tuple** `[int, decimal]`, which holds epoch seconds and a fraction of a second;
- a **Civil record**, which holds year, month, day, hour, minute, a decimal
  second, an optional `utcOffset` record, a zone abbreviation and a day of the week;
- **text**: RFC 3339 timestamps, `±hh:mm[:ss]` zone-offset ids and RFC 5322 email dates.

The model covers the following parts:

- **The `Utc` helper** (`UtcModel`). It has five constructors, `build`,
  `generateInstant` and `generateZonedDateAtZ`. It is a datatype whose constructors
  are functions, because no method changes a `Utc` after it is built.
- **`CustomDuration`** (`CustomDurationModel`). This is the floor / HALF_UP split of a
  decimal second.
- **The offset decoder and the offset record** (`OffsetCodec`). These are
  `zoneOffsetMapFromString` and `createZoneOffsetFromZoneInfoMap`.
- **Civil fields to a `ZonedDateTime`** (`CivilValues`). This is
  `createZoneDateTimeFromCivilValues`, with its `HeaderZoneHandling` switch.
- **The `Civil` builder** (`CivilModel.Civil`). It is a class whose `zonedDateTime` and
  `civilMap` fields the build methods update in place.
- **The two regular-expression presence tests** on RFC 3339 text (`TextPatterns`).
- **The interop functions** in `ExternMethods` (`ExternMethods`).
- **The current `TimeValueHandler`** (`NativeHandler`).
- **The earlier generation's `TimeValueHandler`** (`LegacyHandler`). This includes its
  offset decoder, whose negative branch is wrong (see Findings).

Supporting modules model the parts of the JDK the code relies on:

- `Decimal`: BigDecimal values as exact `real`s, with HALF_UP, FLOOR and
  `intValue` narrowing to 32 bits, and Java's truncating `/` and `%`.
- `Calendar`: the proleptic Gregorian calendar and the day count since 1970-01-01.
- `JavaTime`:
  - `Instant`, `LocalDateTime` and `ZoneOffset` validation and id text;
  - fixed-offset `ZonedDateTime`;
  - the RFC 1123 printer.
- `JavaText`: `strip`, `replaceFirst`, `split`, `Integer.parseInt` and `replace`.

Some library services depend on the zone database, on locale text or on the
clock. These are supplied as values:

- `JavaTime.Platform` holds the ISO and email parsers, named-zone resolution,
  pattern formatting and `Instant.toString`;
- the current instant is an `Instant` parameter, and the
  `ZonedDateTime.now()` of a fresh builder is a `now` parameter.

A Java exception becomes `Failure(e)` of `Wrappers.Result`.

## Model

Source paths are relative to the repository root.

| member | source | states |
|---|---|---|
| UtcModel.FromInstant | native/src/main/java/io/ballerina/stdlib/time/nativeimpl/Utc.java:49-53 | the stored fraction is exactly nano/10^9 and lies in [0, 1); the seconds are the instant's |
| UtcModel.FromInstantWithPrecision | native/src/main/java/io/ballerina/stdlib/time/nativeimpl/Utc.java:55-60 | the fraction, with its point moved `precision` places, is the HALF_UP integer of nano/10^9 moved the same way; so it is within half a unit in the last kept place, and stays in [0, 1] for a non-negative precision |
| UtcModel.PrecisionCanReachOne | native/src/main/java/io/ballerina/stdlib/time/nativeimpl/Utc.java:55-60 | precision 3 on nano 999600000 stores the fraction 1.0, with no carry into the seconds |
| UtcModel.RoundedFractionBounds | native/src/main/java/io/ballerina/stdlib/time/nativeimpl/Utc.java:55-60 | HALF_UP rounding of a fraction in [0, 1] to p >= 0 places stays in [0, 1] |
| UtcModel.FromTuple | native/src/main/java/io/ballerina/stdlib/time/nativeimpl/Utc.java:62-69 | a pair stores its int as the seconds and its fraction times 10^9; a single int gives fraction 0; any other length gives (0, 0) |
| UtcModel.FromMillis | native/src/main/java/io/ballerina/stdlib/time/nativeimpl/Utc.java:71-87 | seconds*1000 + fraction*1000 equals the count; seconds is the count divided toward zero; the fraction lies in (-1, 1) and has the count's sign |
| UtcModel.MillisFractionExact | native/src/main/java/io/ballerina/stdlib/time/nativeimpl/Utc.java:84-86 | rounding a whole number of milliseconds to nine places changes nothing |
| UtcModel.MillisTruncateTowardZero | native/src/main/java/io/ballerina/stdlib/time/nativeimpl/Utc.java:80-87 | -1500 ms gives seconds -1 and fraction -0.5 |
| UtcModel.Build | native/src/main/java/io/ballerina/stdlib/time/nativeimpl/Utc.java:89-98 | the tuple is exactly (secondsFromEpoc, lastSecondFraction) |
| UtcModel.GenerateInstant | native/src/main/java/io/ballerina/stdlib/time/nativeimpl/Utc.java:100-102 | the instant is valid and denotes seconds + trunc(field)/10^9, the field narrowed to 32 bits, with the nanos carried or borrowed into the seconds |
| UtcModel.GenerateZonedDateAtZ | native/src/main/java/io/ballerina/stdlib/time/nativeimpl/Utc.java:104-106 | the date-time at offset 0 in zone "Z" whose instant is generateInstant's |
| UtcModel.BuildThenGenerate | native/src/main/java/io/ballerina/stdlib/time/nativeimpl/Utc.java:49-102 | an Instant-made tuple, read back by the tuple constructor, generates that same instant |
| UtcModel.TupleRoundTrip | native/src/main/java/io/ballerina/stdlib/time/nativeimpl/Utc.java:49-102 | for 0 <= f < 1, tuple (s, f) to instant to Utc gives (s, trunc(f*10^9)/10^9): sub-nanosecond digits are truncated |
| UtcModel.InstantFractionDropped | native/src/main/java/io/ballerina/stdlib/time/nativeimpl/Utc.java:49-102 | generateInstant on an Instant-made Utc drops the sub-second part |
| UtcModel.MillisFractionDropped | native/src/main/java/io/ballerina/stdlib/time/nativeimpl/Utc.java:80-102 | generateInstant on a millisecond-made Utc drops the sub-second part |
| CustomDurationModel.GetSeconds | native/src/main/java/io/ballerina/stdlib/time/nativeimpl/CustomDuration.java:52-55 | the result is a 32-bit int and, when the floor fits, the greatest integer not above the value |
| CustomDurationModel.GetNanoSeconds | native/src/main/java/io/ballerina/stdlib/time/nativeimpl/CustomDuration.java:57-64 | nanoseconds lie in [0, 10^9], and the error of seconds + nanos/10^9 lies in (-0.5, 0.5] nanoseconds, which is exactly HALF_UP rounding of the scaled fraction (a tie rounds up) |
| CustomDurationModel.FromDecimalSeconds | native/src/main/java/io/ballerina/stdlib/time/nativeimpl/CustomDuration.java:40-50 | years to minutes pass through unchanged; seconds and nanoSeconds are getSeconds and getNanoSeconds of the value: the floor, and the HALF_UP nanoseconds in [0, 10^9] whose error lies in (-0.5, 0.5] nanoseconds |
| CustomDurationModel.IntegralSeconds | native/src/main/java/io/ballerina/stdlib/time/nativeimpl/CustomDuration.java:52-64 | an integral value keeps its seconds, with 0 nanoseconds |
| CustomDurationModel.NegativeSecondsFloor | native/src/main/java/io/ballerina/stdlib/time/nativeimpl/CustomDuration.java:52-64 | -1.25 s splits into -2 s and 750000000 ns |
| CustomDurationModel.NanosecondsCanReachGiga | native/src/main/java/io/ballerina/stdlib/time/nativeimpl/CustomDuration.java:57-64 | 0.9999999996 s gives 0 s and exactly 10^9 ns, with no carry |
| Decimal.ToInt32 | native/src/main/java/io/ballerina/stdlib/time/util/Utils.java:117-118 | the result is the 32-bit int congruent to x mod 2^32, equal to x when x fits |
| Decimal.Floor | native/src/main/java/io/ballerina/stdlib/time/nativeimpl/CustomDuration.java:54 | the greatest integer not above x |
| Decimal.Trunc | native/src/main/java/io/ballerina/stdlib/time/nativeimpl/Utc.java:101 | the integer part of x, rounded toward zero on both sides |
| Decimal.HalfUp | native/src/main/java/io/ballerina/stdlib/time/nativeimpl/CustomDuration.java:62 | the nearest integer, with ties rounded away from zero |
| Decimal.SetScaleHalfUpGrid | native/src/main/java/io/ballerina/stdlib/time/nativeimpl/Utc.java:58-59 | rounding to p places leaves the HALF_UP integer of x*10^p at scale p: the value times 10^p is that integer |
| Decimal.SetScaleHalfUpError | native/src/main/java/io/ballerina/stdlib/time/nativeimpl/Utc.java:58-59 | rounding to p places moves a value by at most half a unit in the p-th place |
| Decimal.SetScaleHalfUpExact | native/src/main/java/io/ballerina/stdlib/time/nativeimpl/Utc.java:84-86 | a value with at most p decimal places is unchanged by rounding to p places |
| Decimal.SetScaleHalfUpUnitInterval | native/src/main/java/io/ballerina/stdlib/time/nativeimpl/Utc.java:58-59 | rounding a value in [0, 1] stays in [0, 1] |
| Decimal.HalfUpOfInteger | native/src/main/java/io/ballerina/stdlib/time/util/Utils.java:109 | rounding leaves an integer alone |
| Decimal.ShiftLeftRight | native/src/main/java/io/ballerina/stdlib/time/nativeimpl/Utc.java:58-59 | moving the decimal point right after moving it left by the same places is the identity |
| Decimal.ShiftRightLeft | native/src/main/java/io/ballerina/stdlib/time/nativeimpl/Utc.java:58-59 | moving the decimal point left after moving it right by the same places is the identity |
| Decimal.JavaRem | native/src/main/java/io/ballerina/stdlib/time/nativeimpl/Utc.java:82-84 | quotient*b + remainder is the dividend, and the remainder takes the dividend's sign |
| Calendar.DaysInMonth | native/src/main/java/io/ballerina/stdlib/time/nativeimpl/ExternMethods.java:101 | months have 28 to 31 days; February has 29 exactly in leap years |
| Calendar.CivilFromDaysRoundTrip | native/src/main/java/io/ballerina/stdlib/time/nativeimpl/Utc.java:104-106 | every day count names a valid date whose own day count is that count |
| Calendar.DaysFromCivilRoundTrip | native/src/main/java/io/ballerina/stdlib/time/nativeimpl/ExternMethods.java:127-138 | every valid date is the date of its own day count |
| Calendar.DaysFromCivilInjective | native/src/main/java/io/ballerina/stdlib/time/nativeimpl/ExternMethods.java:127-138 | different valid dates have different day counts |
| Calendar.SplitDayOfEraCorrect | native/src/main/java/io/ballerina/stdlib/time/nativeimpl/Utc.java:104-106 | each day of a 400-year era falls in the March-based year and day that the split gives |
| Calendar.SplitDayOfEraUnique | native/src/main/java/io/ballerina/stdlib/time/nativeimpl/Utc.java:104-106 | the split of a year's start plus a day of that year gives back that year and day |
| Calendar.LeapYearOfEra | native/src/main/java/io/ballerina/stdlib/time/nativeimpl/ExternMethods.java:101 | a March-based year ends with 29 February exactly when its civil successor is a leap year |
| Calendar.DateOfMarchDayCorrect | native/src/main/java/io/ballerina/stdlib/time/nativeimpl/Utc.java:104-106 | the date of a day of a March-based year is a valid date whose day count points back to that day |
| Calendar.MonthOfDayBounds | native/src/main/java/io/ballerina/stdlib/time/nativeimpl/Utc.java:104-106 | the month found for a day of the year is the one whose span contains it |
| Calendar.MonthOfDayUnique | native/src/main/java/io/ballerina/stdlib/time/nativeimpl/Utc.java:104-106 | a day inside a month's span is assigned that month |
| Calendar.IsoDayOfWeek | native/src/main/java/io/ballerina/stdlib/time/nativeimpl/ExternMethods.java:114 | the ISO day of the week lies in 1..7 |
| Calendar.DayOfWeek | native/src/main/java/io/ballerina/stdlib/time/nativeimpl/Civil.java:108-109 | the Civil dayOfWeek lies in 0..6 and is the ISO day mod 7 |
| Calendar.IsoDayOfWeekNext | native/src/main/java/io/ballerina/stdlib/time/nativeimpl/ExternMethods.java:114 | the ISO day moves on by one each day, wrapping from 7 to 1, and repeats every seven days |
| Calendar.DayOfWeekSunday | native/src/main/java/io/ballerina/stdlib/time/nativeimpl/Civil.java:108-109 | Sunday (ISO 7) is 0 and every other day keeps its ISO number |
| Calendar.KnownWeekdays | native/src/main/java/io/ballerina/stdlib/time/nativeimpl/Civil.java:108-109 | 1970-01-01 (day 0) is a Thursday (4) and 2000-01-01 (day 10957) a Saturday (6) |
| JavaTime.OfEpochSecond | native/src/main/java/io/ballerina/stdlib/time/nativeimpl/Utc.java:100-102 | the instant is valid and denotes seconds + adjustment/10^9 exactly |
| JavaTime.Plus | native/src/main/java/io/ballerina/stdlib/time/nativeimpl/ExternMethods.java:88-89 | adding seconds and nanos gives a valid instant with exactly that value |
| JavaTime.MinusNanos | native/src/main/java/io/ballerina/stdlib/time/nativeimpl/ExternMethods.java:88 | the instant moves back by exactly nanos/10^9 |
| JavaTime.MinusSeconds | native/src/main/java/io/ballerina/stdlib/time/nativeimpl/ExternMethods.java:89 | the instant moves back by exactly the seconds |
| JavaTime.LocalDateTimeOf | native/src/main/java/io/ballerina/stdlib/time/util/Utils.java:116-118 | succeeds exactly for a LocalDate-valid date and a valid time; an invalid date fails with InvalidDate before the time is checked |
| JavaTime.TimeOfSecondOfDayCorrect | native/src/main/java/io/ballerina/stdlib/time/nativeimpl/Utc.java:104-106 | a second of the day splits into a valid hour, minute and second that add back to it |
| JavaTime.TimeOfSecondOfDayUnique | native/src/main/java/io/ballerina/stdlib/time/nativeimpl/Utc.java:104-106 | a valid hour, minute and second are what their second of the day splits into |
| JavaTime.LocalDateTimeOfEpochSecondRoundTrip | native/src/main/java/io/ballerina/stdlib/time/nativeimpl/Utc.java:104-106 | an instant viewed at an offset is a valid date and time whose epoch second at that offset is the instant's |
| JavaTime.EpochSecondOfRoundTrip | native/src/main/java/io/ballerina/stdlib/time/nativeimpl/ExternMethods.java:134 | a valid local date-time is what its own epoch second shows at the same offset |
| JavaTime.AtOffsetRoundTrip | native/src/main/java/io/ballerina/stdlib/time/nativeimpl/ExternMethods.java:122-123 | viewing an instant at a fixed offset and converting back gives the same instant |
| JavaTime.ToInstantRoundTrip | native/src/main/java/io/ballerina/stdlib/time/nativeimpl/ExternMethods.java:134 | a zoned date-time is the view of its own instant at its own offset |
| JavaTime.OfHoursMinutesSeconds | native/src/main/java/io/ballerina/stdlib/time/util/Utils.java:111-112 | an accepted offset is h*3600 + m*60 + s and lies within ±18:00; a rejection is InvalidOffset |
| JavaTime.OfHoursMinutesSecondsComponents | native/src/main/java/io/ballerina/stdlib/time/util/Utils.java:111-112 | every valid offset is accepted back from its own signed components |
| JavaTime.OffsetParts | native/src/main/java/io/ballerina/stdlib/time/nativeimpl/Civil.java:128 | an offset magnitude splits into hours, minutes and seconds that add back to it, with nothing beyond 18:00 |
| JavaTime.OffsetId | native/src/main/java/io/ballerina/stdlib/time/nativeimpl/Civil.java:128 | the id is "Z" exactly for offset zero, and otherwise 6 or 9 characters long |
| JavaTime.ToInstant | native/src/main/java/io/ballerina/stdlib/time/nativeimpl/ExternMethods.java:134 | the instant keeps the date-time's nano-of-second |
| JavaTime.ZonedOf | native/src/main/java/io/ballerina/stdlib/time/util/Utils.java:116-118 | the result is valid and in the given zone; at a fixed offset it keeps the local date-time unchanged |
| JavaTime.FormatRfc1123 | native/src/main/java/io/ballerina/stdlib/time/nativeimpl/ExternMethods.java:178-179 | printing succeeds exactly for years 0..9999, as the date-time text, a space and the offset field ("GMT" when its hours and minutes are both zero, otherwise ±HHMM) |
| JavaText.FirstNonWhitespace | native/src/main/java/io/ballerina/stdlib/time/util/Utils.java:46 | a non-whitespace character of the text preceded only by whitespace (the first one left after stripping); None exactly when the text is all whitespace |
| JavaText.IndexOf | native/src/main/java/io/ballerina/stdlib/time/util/Utils.java:47 | the position of an occurrence of the character with none before it |
| JavaText.ReplaceFirst | native/src/main/java/io/ballerina/stdlib/time/util/Utils.java:47 | text without the character is unchanged; otherwise exactly one character is removed |
| JavaText.ReplaceFirstRemovesFirst | native/src/main/java/io/ballerina/stdlib/time/util/Utils.java:47 | the removed character is the first occurrence (at IndexOf), and the text before and after it is kept |
| JavaText.SplitComponents | native/src/main/java/io/ballerina/stdlib/time/util/Utils.java:48 | "a:b" and "a:b:e" split on ':' back into their non-empty components |
| JavaText.ParseInt | native/src/main/java/io/ballerina/stdlib/time/util/Utils.java:50 | accepted exactly when the text is an optional '+' or '-' and one or more digits whose signed value is a 32-bit int; the result is that signed value |
| JavaText.ParseIntTwoDigits | native/src/main/java/io/ballerina/stdlib/time/util/Utils.java:50 | parseInt reads back the two-digit padding of any n < 100 |
| JavaText.ParseIntNegativeTwoDigits | native/src/main/java/io/ballerina/stdlib/time/util/Utils.java:62 | parseInt reads "-" and two digits as the negative number |
| JavaText.ReplaceAllAbsent | native/src/main/java/io/ballerina/stdlib/time/nativeimpl/ExternMethods.java:180 | text without an occurrence of the target is left unchanged |
| JavaText.ReplaceAllSkipPrefix | native/src/main/java/io/ballerina/stdlib/time/nativeimpl/ExternMethods.java:180 | a prefix without the target's first character passes through unchanged |
| JavaText.ReplaceAllAtFront | native/src/main/java/io/ballerina/stdlib/time/nativeimpl/ExternMethods.java:180 | an occurrence at the front is replaced and the scan continues after it |
| TextPatterns.IsSecondExists | native/src/main/java/io/ballerina/stdlib/time/nativeimpl/Civil.java:118-122 | a second is found exactly when some 19 characters read digits-digits-digitsTdigits:digits:digits (4, 2, 2, 2, 2, 2 digits), so never in text shorter than 19 |
| TextPatterns.IsLocalTimeZoneExists | native/src/main/java/io/ballerina/stdlib/time/nativeimpl/Civil.java:112-116 | the local zone is missing only in text of 17 or more characters ending in 'Z' (or 'Z' and a final line terminator), and is missing whenever the text ends with date, 'T', hours, minutes and 'Z' |
| TextPatterns.ShortTextHasNoSecond | native/src/main/java/io/ballerina/stdlib/time/nativeimpl/Civil.java:118-122 | text shorter than 19 characters never shows a second |
| TextPatterns.FractionZuluEnding | native/src/main/java/io/ballerina/stdlib/time/nativeimpl/Civil.java:112-116 | every text ending with date, 'T', hours, minutes, seconds, '.', one or more digits and 'Z' counts as giving no local zone |
| TextPatterns.WholeSecondsZuluEnding | native/src/main/java/io/ballerina/stdlib/time/nativeimpl/Civil.java:112-116 | every text ending with date, 'T', hours, minutes, whole seconds and 'Z' counts as giving its own zone, since the zulu pattern wants a fraction |
| TextPatterns.NumericEndingIsLocal | native/src/main/java/io/ballerina/stdlib/time/nativeimpl/Civil.java:112-116 | text whose last character is neither 'Z' nor a line terminator always counts as having a local zone |
| TextPatterns.WholeSecondsZulu | native/src/main/java/io/ballerina/stdlib/time/nativeimpl/Civil.java:112-122 | "…T10:15:30Z" shows a second and, because the zulu pattern needs a fraction, also gets utcOffset |
| TextPatterns.MinutesZulu | native/src/main/java/io/ballerina/stdlib/time/nativeimpl/Civil.java:112-122 | "…T10:15Z" shows neither a second nor a local zone |
| TextPatterns.FractionZulu | native/src/main/java/io/ballerina/stdlib/time/nativeimpl/Civil.java:112-122 | "…T10:15:30.00Z" shows a second but no local zone |
| OffsetCodec.ParseComponent | native/src/main/java/io/ballerina/stdlib/time/util/Utils.java:50-62 | a parsed component is a 32-bit int; a failure is NumberFormat |
| OffsetCodec.OptionalComponent | native/src/main/java/io/ballerina/stdlib/time/util/Utils.java:49-57 | a component is present exactly when there are more than k pieces |
| OffsetCodec.SignedFields | native/src/main/java/io/ballerina/stdlib/time/util/Utils.java:48-69 | only the three keys appear; seconds only with minutes, minutes only with hours; values are 32-bit |
| OffsetCodec.FieldsMap | native/src/main/java/io/ballerina/stdlib/time/util/Utils.java:49-57 | a key is present exactly when its component is, with that value |
| OffsetCodec.OffsetFields | native/src/main/java/io/ballerina/stdlib/time/util/Utils.java:43-72 | text starting with neither sign gives the empty map; otherwise at most the three keys, seconds only with both others; failures are NumberFormat |
| OffsetCodec.ZoneOffsetMapFromString | native/src/main/java/io/ballerina/stdlib/time/nativeimpl/Civil.java:151-180 | the step-by-step puts compute exactly the decoder's map or failure |
| OffsetCodec.ZoneOffsetRecordFromMap | native/src/main/java/io/ballerina/stdlib/time/util/Utils.java:74-98 | hours and minutes are copied or default to 0; seconds is present exactly when the map has it, with its value |
| OffsetCodec.ComponentOfTwoDigits | native/src/main/java/io/ballerina/stdlib/time/util/Utils.java:50-62 | a two-digit piece parses back to its value, negated in the '-' branch |
| OffsetCodec.SignedFieldsOfComponents | native/src/main/java/io/ballerina/stdlib/time/util/Utils.java:48-69 | a sign branch reads back the magnitudes the id text was written from, with seconds only when written |
| OffsetCodec.StripSign | native/src/main/java/io/ballerina/stdlib/time/util/Utils.java:46-59 | text starting with a sign is decoded by that sign's branch from the rest of the text |
| OffsetCodec.OffsetIdParts | native/src/main/java/io/ballerina/stdlib/time/nativeimpl/Civil.java:128 | a non-zero offset's id is its sign followed by the two-digit magnitudes of its signed components |
| OffsetCodec.SignedTextDecodes | native/src/main/java/io/ballerina/stdlib/time/util/Utils.java:43-72 | a sign and two-digit components decode to those components carrying the sign |
| OffsetCodec.OffsetIdDecodes | native/src/main/java/io/ballerina/stdlib/time/nativeimpl/Civil.java:128-180 | every valid offset's id decodes to its signed hours and minutes, and its seconds when non-zero |
| OffsetCodec.ZuluDecodesEmpty | native/src/main/java/io/ballerina/stdlib/time/util/Utils.java:43-72 | "Z" decodes to the empty map |
| OffsetCodec.PositiveOffsetExample | native/src/main/java/io/ballerina/stdlib/time/util/Utils.java:46-57 | "+05:30" gives hours 5, minutes 30 and no seconds key |
| OffsetCodec.NegativeOffsetExample | native/src/main/java/io/ballerina/stdlib/time/util/Utils.java:58-70 | "-05:30:15" gives -5, -30 and -15 |
| OffsetCodec.OptionalSeconds | native/src/main/java/io/ballerina/stdlib/time/util/Utils.java:92-95 | the record's seconds are present exactly when the offset's seconds are non-zero, and then equal them |
| OffsetCodec.ExpectedRecord | native/src/main/java/io/ballerina/stdlib/time/util/Utils.java:74-98 | the record filled from a valid offset's decoded fields has the offset's own signed components |
| OffsetCodec.ComponentsTotal | native/src/main/java/io/ballerina/stdlib/time/nativeimpl/Civil.java:124-149 | a valid offset's signed components add back up to it |
| OffsetCodec.OffsetRecordRoundTrip | native/src/main/java/io/ballerina/stdlib/time/nativeimpl/Civil.java:124-149 | the record of an offset's id denotes that offset and is accepted back by ofHoursMinutesSeconds |
| CivilValues.LocalFromCivilValues | native/src/main/java/io/ballerina/stdlib/time/util/Utils.java:106-118 | succeeds exactly when the narrowed date and the split time are valid; keeps the fields; second and nano are getSeconds and getNanoSeconds of the decimal second, so their error lies in (-0.5, 0.5] nanoseconds |
| CivilValues.OffsetZone | native/src/main/java/io/ballerina/stdlib/time/util/Utils.java:109-112 | the fixed offset totals hours*3600 + minutes*60 + round(zoneSecond), or fails with InvalidOffset exactly when ofHoursMinutesSeconds rejects |
| CivilValues.ZonedAtOffsetFromCivilValues | time-native/src/main/java/org/ballerinalang/stdlib/time/util/TimeValueHandler.java:160-175 | succeeds exactly when the offset and the local fields are valid; an invalid offset fails first; the result sits at that offset with those fields |
| CivilValues.ZonedFromCivilValues | native/src/main/java/io/ballerina/stdlib/time/util/TimeValueHandler.java:62-82 | PREFER_ZONE_OFFSET takes the numeric-offset path; every other mode resolves the abbreviation and lands in that zone |
| CivilValues.SecondOf | native/src/main/java/io/ballerina/stdlib/time/nativeimpl/Civil.java:52-53 | the civil second lies in [second, second + 1) |
| CivilValues.SecondSplitRoundTrip | native/src/main/java/io/ballerina/stdlib/time/util/Utils.java:106-108 | the floor / HALF_UP split of a date-time's civil second gives back its second and nano |
| CivilValues.PreferOffsetIgnoresAbbreviation | native/src/main/java/io/ballerina/stdlib/time/util/Utils.java:110-112 | under PREFER_ZONE_OFFSET the abbreviation does not affect the result |
| CivilValues.AbbreviationIgnoresOffset | native/src/main/java/io/ballerina/stdlib/time/util/Utils.java:113-115 | in the other modes the numeric offset does not affect the result |
| CivilValues.InvalidDateRejected | native/src/main/java/io/ballerina/stdlib/time/util/Utils.java:116-118 | with a valid offset, a date LocalDate.of rejects fails with InvalidDate |
| CivilValues.FebruaryThirtiethRejected | native/src/main/java/io/ballerina/stdlib/time/util/Utils.java:116-118 | 2024-02-30 is rejected as a date |
| CivilValues.InvalidTimeRejected | native/src/main/java/io/ballerina/stdlib/time/util/Utils.java:116-118 | with a valid offset and date, a time LocalTime.of rejects fails with InvalidTime |
| CivilValues.NanosecondsRoundedToGigaRejected | native/src/main/java/io/ballerina/stdlib/time/util/Utils.java:106-118 | second 0.9999999996 rounds to 10^9 nanos and is rejected as a time |
| CivilValues.ValidFieldsAccepted | native/src/main/java/io/ballerina/stdlib/time/util/Utils.java:100-119 | a valid date-time at a valid offset is accepted and kept exactly |
| CivilModel.DateTimeFields | native/src/main/java/io/ballerina/stdlib/time/nativeimpl/Civil.java:101-107 | exactly the year, month, day, hour, minute and timeAbbrev keys, the last one holding the zone's id text |
| CivilModel.CommonFields | native/src/main/java/io/ballerina/stdlib/time/nativeimpl/Civil.java:99-110 | those keys plus dayOfWeek, which is in 0..6 and is the ISO day mod 7 |
| CivilModel.SecondField | native/src/main/java/io/ballerina/stdlib/time/nativeimpl/Civil.java:52-55 | a decimal in [second, second + 1) |
| CivilModel.OffsetRecordOf | native/src/main/java/io/ballerina/stdlib/time/nativeimpl/Civil.java:124-149 | the record denotes the offset, with its signed hours and minutes, and has seconds exactly when they are non-zero |
| CivilModel.PutIf | native/src/main/java/io/ballerina/stdlib/time/nativeimpl/Civil.java:69-76 | the put happens exactly when the condition holds |
| CivilModel.Civil.constructor | native/src/main/java/io/ballerina/stdlib/time/nativeimpl/Civil.java:44-46 | a fresh builder holds the current date-time and an empty record |
| CivilModel.Civil.SetCommonCivilFields | native/src/main/java/io/ballerina/stdlib/time/nativeimpl/Civil.java:99-110 | the common fields are merged into the record; the date-time is unchanged |
| CivilModel.Civil.BuildFromZonedDateTime | native/src/main/java/io/ballerina/stdlib/time/nativeimpl/Civil.java:48-59 | stores the date-time; the record gains the common fields and, always, the second; returns the record |
| CivilModel.Civil.BuildFromZonedDateTimeString | native/src/main/java/io/ballerina/stdlib/time/nativeimpl/Civil.java:61-80 | unparsable text fails and leaves the builder unchanged; otherwise second only when the text shows one, utcOffset only when it is not zulu text |
| CivilModel.Civil.BuildFromEmailString | native/src/main/java/io/ballerina/stdlib/time/nativeimpl/Civil.java:82-97 | unparsable text fails and leaves the builder unchanged; otherwise the common fields, second and utcOffset are always set |
| CivilModel.Civil.CreateZoneOffsetFromZonedDateTime | native/src/main/java/io/ballerina/stdlib/time/nativeimpl/Civil.java:124-149 | the record decoded from the offset's id denotes the date-time's own offset and is accepted by ofHoursMinutesSeconds |
| CivilModel.DayOfWeekCountsFromSunday | native/src/main/java/io/ballerina/stdlib/time/nativeimpl/Civil.java:108-109 | Sunday 1970-01-04 is 0 and Monday 1970-01-05 is 1 |
| CivilModel.StringBuilderOffsetExamples | native/src/main/java/io/ballerina/stdlib/time/nativeimpl/Civil.java:73-116 | numeric-offset text and whole-second zulu text get utcOffset; minute zulu text does not |
| CivilModel.ZeroOffsetRecord | native/src/main/java/io/ballerina/stdlib/time/nativeimpl/Civil.java:124-149 | the offset "Z" gives hours 0 and minutes 0, with no seconds |
| NativeHandler.CreateCivilFromZoneDateTime | native/src/main/java/io/ballerina/stdlib/time/util/TimeValueHandler.java:47-50 | the common fields and the second of the date-time; the fresh builder's `now` never appears |
| NativeHandler.CreateCivilFromZoneDateTimeString | native/src/main/java/io/ballerina/stdlib/time/util/TimeValueHandler.java:52-55 | fails exactly when parsing fails, with the parser's error; otherwise the RFC 3339 record of the parsed text |
| NativeHandler.CivilFromIsoText | native/src/main/java/io/ballerina/stdlib/time/nativeimpl/Civil.java:61-80 | holds the common keys; second exactly when the text shows one; utcOffset exactly when the text is not zulu |
| NativeHandler.CreateCivilFromEmailString | native/src/main/java/io/ballerina/stdlib/time/util/TimeValueHandler.java:57-60 | fails exactly when parsing fails; otherwise the common fields, second and utcOffset of the parsed date-time |
| NativeHandler.CreateUtcFromMilliSeconds | native/src/main/java/io/ballerina/stdlib/time/util/TimeValueHandler.java:95-103 | a pair whose seconds are the count divided by 1000 toward zero and whose fraction*1000 is Java's truncating remainder; they add back to the count, with the fraction in (-1, 1) |
| NativeHandler.CreateZonedDateTimeFromUtc | native/src/main/java/io/ballerina/stdlib/time/util/TimeValueHandler.java:106-109 | the tuple's generated instant at offset 0 in zone "Z" |
| NativeHandler.MillisTupleInstant | native/src/main/java/io/ballerina/stdlib/time/util/TimeValueHandler.java:100-109 | a millisecond tuple read back denotes exactly millis/1000 seconds |
| ExternMethods.UtcNowPrecision | native/src/main/java/io/ballerina/stdlib/time/nativeimpl/ExternMethods.java:54-57 | the precision is used when in 1..9 and is 9 otherwise |
| ExternMethods.UtcNow | native/src/main/java/io/ballerina/stdlib/time/nativeimpl/ExternMethods.java:51-59 | the instant's seconds, and a fraction in [0, 1] that is nano/10^9 rounded HALF_UP to the clamped precision (on that grid, within half a unit) |
| ExternMethods.UtcFromString | native/src/main/java/io/ballerina/stdlib/time/nativeimpl/ExternMethods.java:67-76 | succeeds exactly when parsing does, with a tuple that denotes the parsed instant |
| ExternMethods.UtcToString | native/src/main/java/io/ballerina/stdlib/time/nativeimpl/ExternMethods.java:78-82 | the platform's Instant text of the instant the tuple generates |
| ExternMethods.UtcToStringOfInstant | native/src/main/java/io/ballerina/stdlib/time/nativeimpl/ExternMethods.java:78-82 | a tuple made from an instant prints as that instant's text |
| ExternMethods.UtcDiffSeconds | native/src/main/java/io/ballerina/stdlib/time/nativeimpl/ExternMethods.java:84-93 | exactly the first instant's value minus the second's |
| ExternMethods.DiffSelfIsZero | native/src/main/java/io/ballerina/stdlib/time/nativeimpl/ExternMethods.java:84-93 | a tuple's difference from itself is zero |
| ExternMethods.DiffAntisymmetric | native/src/main/java/io/ballerina/stdlib/time/nativeimpl/ExternMethods.java:84-93 | swapping the arguments negates the difference |
| ExternMethods.DiffOfMillisTuples | native/src/main/java/io/ballerina/stdlib/time/nativeimpl/ExternMethods.java:84-93 | between two millisecond tuples the difference is exactly (m1 - m2)/1000 |
| ExternMethods.DateValidate | native/src/main/java/io/ballerina/stdlib/time/nativeimpl/ExternMethods.java:95-106 | no error exactly when LocalDate.of accepts the date; otherwise InvalidDate |
| ExternMethods.LeapDayValidation | native/src/main/java/io/ballerina/stdlib/time/nativeimpl/ExternMethods.java:95-106 | February 29 validates exactly in leap years |
| ExternMethods.DayOfWeekOf | native/src/main/java/io/ballerina/stdlib/time/nativeimpl/ExternMethods.java:108-118 | succeeds exactly for valid dates, with the ISO day mod 7 in 0..6; otherwise InvalidDate |
| ExternMethods.DayOfWeekOfNextDay | native/src/main/java/io/ballerina/stdlib/time/nativeimpl/ExternMethods.java:108-118 | the next day of a month has the next day of the week, wrapping from 6 to 0 |
| ExternMethods.UtcToCivil | native/src/main/java/io/ballerina/stdlib/time/nativeimpl/ExternMethods.java:120-125 | the civil fields of the tuple's instant at offset zero, with timeAbbrev "Z" |
| ExternMethods.UtcFromCivil | native/src/main/java/io/ballerina/stdlib/time/nativeimpl/ExternMethods.java:127-138 | fails exactly when the fields or the offset are invalid, with that error; otherwise a tuple of the fields' instant |
| ExternMethods.UtcCivilRoundTrip | native/src/main/java/io/ballerina/stdlib/time/nativeimpl/ExternMethods.java:120-138 | a tuple's civil fields, given back with offset (0, 0, 0), yield a tuple of the same instant |
| ExternMethods.CivilToString | native/src/main/java/io/ballerina/stdlib/time/nativeimpl/ExternMethods.java:158-169 | fails exactly when the fields or the offset are invalid; otherwise the instant's text |
| ExternMethods.CivilToStringAgreesWithUtc | native/src/main/java/io/ballerina/stdlib/time/nativeimpl/ExternMethods.java:127-169 | civil text equals the text of the instant of externUtcFromCivil's tuple, and both fail together |
| ExternMethods.EmailZoneText | native/src/main/java/io/ballerina/stdlib/time/nativeimpl/ExternMethods.java:174-177 | "0" becomes "+0000"; any other zone text is kept |
| ExternMethods.UtcToEmailString | native/src/main/java/io/ballerina/stdlib/time/nativeimpl/ExternMethods.java:171-181 | succeeds exactly when the year at GMT lies in 0..9999 |
| ExternMethods.Rfc1123DateTimeUnmarked | native/src/main/java/io/ballerina/stdlib/time/nativeimpl/ExternMethods.java:178-180 | the RFC 1123 date-time text contains no 'G' and no '+' |
| ExternMethods.EmailReplacements | native/src/main/java/io/ballerina/stdlib/time/nativeimpl/ExternMethods.java:180 | on "<prefix>GMT" the two replacements touch only the trailing "GMT" |
| ExternMethods.ZeroZoneReplacedByItself | native/src/main/java/io/ballerina/stdlib/time/nativeimpl/ExternMethods.java:180 | "+0000" replaced by itself is "+0000" |
| ExternMethods.UtcToEmailStringShape | native/src/main/java/io/ballerina/stdlib/time/nativeimpl/ExternMethods.java:171-181 | the email text is the RFC 1123 date-time, a space and the zone text; zone "0" gives "+0000" |
| ExternMethods.EmailPattern | native/src/main/java/io/ballerina/stdlib/time/nativeimpl/ExternMethods.java:190-195 | the comment-free pattern exactly under PREFER_ZONE_OFFSET, the commented pattern otherwise |
| ExternMethods.CivilToEmailString | native/src/main/java/io/ballerina/stdlib/time/nativeimpl/ExternMethods.java:183-199 | fails exactly when the conversion fails; otherwise the date-time formatted with the mode's pattern |
| ExternMethods.UtcStringRoundTrip | native/src/main/java/io/ballerina/stdlib/time/nativeimpl/ExternMethods.java:67-82 | text parsed to a tuple and printed again gives the parsed instant's text |
| LegacyHandler.LegacyUtcFromInstantWithPrecision | time-native/src/main/java/org/ballerinalang/stdlib/time/util/TimeValueHandler.java:57-66 | the seconds, and nano/10^9 rounded HALF_UP to the precision: on the 10^-precision grid and within half a unit in the last kept place |
| LegacyHandler.LegacyUtcFromInstant | time-native/src/main/java/org/ballerinalang/stdlib/time/util/TimeValueHandler.java:68-76 | the seconds and exactly nano/10^9 |
| LegacyHandler.LegacyInstantFromUtc | time-native/src/main/java/org/ballerinalang/stdlib/time/util/TimeValueHandler.java:78-89 | a pair gives seconds + trunc(fraction*10^9) nanos; a single int gives its seconds; any other length gives the epoch |
| LegacyHandler.LegacyUtcRoundTrip | time-native/src/main/java/org/ballerinalang/stdlib/time/util/TimeValueHandler.java:68-89 | a legacy tuple read back gives the instant it was made from |
| LegacyHandler.LegacyCivilFromZoneDateTime | time-native/src/main/java/org/ballerinalang/stdlib/time/util/TimeValueHandler.java:91-107 | date, hour, minute, second and zone id; no dayOfWeek and no utcOffset |
| LegacyHandler.LegacyCivilFromZoneDateTimeString | time-native/src/main/java/org/ballerinalang/stdlib/time/util/TimeValueHandler.java:109-128 | fails exactly when parsing fails; the second only when the text shows one; never dayOfWeek or utcOffset |
| LegacyHandler.LegacyCivilLacksDayOfWeek | time-native/src/main/java/org/ballerinalang/stdlib/time/util/TimeValueHandler.java:91-107 | the legacy record plus the day of the week is the current record |
| LegacyHandler.LegacyOffsetFields | time-native/src/main/java/org/ballerinalang/stdlib/time/util/TimeValueHandler.java:201-230 | same as the current decoder except the '-' branch, which decodes the text with only a '+' removed |
| LegacyHandler.LegacyZoneOffsetMapFromString | time-native/src/main/java/org/ballerinalang/stdlib/time/util/TimeValueHandler.java:201-230 | the step-by-step puts compute exactly the legacy decoder's map or failure |
| LegacyHandler.LegacyNegativeText | time-native/src/main/java/org/ballerinalang/stdlib/time/util/TimeValueHandler.java:216-228 | on "-hh:mm[:ss]" the hours come out positive and the other components negative |
| LegacyHandler.LegacyFieldsOfOffsetId | time-native/src/main/java/org/ballerinalang/stdlib/time/util/TimeValueHandler.java:201-230 | on every valid offset's id, the current decoder's fields, except that a negative offset's hours are positive |
| LegacyHandler.LegacyNegativeOffsetExample | time-native/src/main/java/org/ballerinalang/stdlib/time/util/TimeValueHandler.java:216-228 | "-05:30" decodes to hours 5 and minutes -30 |
| LegacyHandler.LegacyOffsetRecord | time-native/src/main/java/org/ballerinalang/stdlib/time/util/TimeValueHandler.java:136-154 | a non-negative offset gets the correct record; a negative one gets its hours' sign flipped, so it denotes t - 2*hours*3600 |
| LegacyHandler.LegacyNegativeRecordExample | time-native/src/main/java/org/ballerinalang/stdlib/time/util/TimeValueHandler.java:136-154 | offset -05:30 gets record (5, -30), which denotes +04:30 |
| LegacyHandler.LegacyNegativeRecordWrong | time-native/src/main/java/org/ballerinalang/stdlib/time/util/TimeValueHandler.java:136-154 | every negative offset of an hour or more gets a record that denotes another offset, while the current record is right |
| LegacyHandler.CreateZoneOffsetDateTime | time-native/src/main/java/org/ballerinalang/stdlib/time/util/TimeValueHandler.java:130-158 | fails exactly when parsing fails; a record exactly when the text is not zulu, and then the legacy record of the parsed offset |

## Left out

- I/O and clocks are not modelled. `Instant.now()` in externUtcNow becomes a parameter, `ZonedDateTime.now()` in a fresh Civil
  builder becomes a parameter, and externMonotonicNow (`System.nanoTime`) is not part of this model.
- Library parsing, formatting and named zones are not modelled concretely. `ZonedDateTime.parse` (ISO and email patterns),
  `DateTimeFormatter.ofPattern(...).format`, `ZoneId.of` on a name and `Instant.toString` are fields of
  `JavaTime.Platform`. They are constrained only to return values java.time could hold. Daylight-saving gaps and
  overlaps, zone rules, and what those parsers accept are therefore not modelled.
- Ballerina value marshalling is not modelled: `ValueCreator`, record types, `freezeDirect`, and error construction and its
  message texts. A Java exception is a `TimeError` tag.
- BigDecimal scale and `MathContext.DECIMAL128` are not modelled. Values are exact rationals. Every division is by
  10^9 or by 1000, so the values agree, but the printed scale of a decimal is not modelled.
- Instant range limits are not modelled: `Instant.ofEpochSecond` and `ZonedDateTime` throw beyond years ±999999999.
  JavaTime.OfEpochSecond and the date arithmetic accept any integer. Callers that print a date-time require a
  `ValidZoned` value.
- JavaText.ParseInt accepts ASCII digits only. Integer.parseInt also accepts other Unicode decimal digits. Every
  caller passes ZoneOffset id text, which holds only ASCII digits.
- CustomDurationModel.GetNanoSeconds states its [0, 10^9] and half-nanosecond bounds only when the floored second fits
  in 32 bits. Otherwise `intValue()` wraps, and nothing is promised beyond a 32-bit result.
- CivilValues.LocalFromCivilValues states its half-nanosecond bound only under the same condition, for the same reason.
- ExternMethods.DateValidate and ExternMethods.DayOfWeekOf require the fields to fit in an int. `Math.toIntExact` throws
  ArithmeticException otherwise, and that exception is not caught.
- CivilValues.ZonedFromCivilValues and ExternMethods.CivilToEmailString require a zone abbreviation unless the mode is
  PREFER_ZONE_OFFSET. With a null abbreviation Java calls `getValue()` on it and throws NullPointerException, which
  is not caught (only DateTimeException is), so that error path is not modelled.
- ExternMethods.UtcToCivil and ExternMethods.UtcToEmailString require an instant whose date-time java.time can hold. The
  conversion throws otherwise, and the exception is not caught.
- CivilModel.Civil.SetCommonCivilFields performs the seven puts as one map merge. The resulting map is the same.
- Calendar.CivilFromDays and Calendar.DaysFromCivil use a 400-year-era algorithm rather than java.time's own code.
  Both round trips and the 1970 and 2000 anchors are proved of them.
- The earlier generation's ExternMethods and TimeUtils, and the current Zone.java and TimeZoneExternMethods, are
  not part of this model. They are dispatch to java.time's formatters and zone rules, and their offset decoding is
  the Utils decoder modelled here.
- Constants are used by their values: `ANALOG_GIGA`, `UTC_MAX_PRECISION`, "GMT", "+0000", the email patterns and the
  `HeaderZoneHandling` names.

## Findings

| source | as written | input that shows it | evidently intended | confidence | as-written member | corrected member |
|---|---|---|---|---|---|---|
| time-native/src/main/java/org/ballerinalang/stdlib/time/util/TimeValueHandler.java:217 | the '-' branch strips the first '+' instead of the '-', so the hours piece keeps its minus sign and is negated a second time | "-05:30" (the id of offset -19800) decodes to hours 5 and minutes -30, and its record denotes +04:30 (16200 s) | strip the '-' so that every component is negated once: hours -5, minutes -30 | not executed | LegacyHandler.LegacyOffsetFields (with LegacyHandler.LegacyNegativeOffsetExample and LegacyHandler.LegacyNegativeRecordWrong) | OffsetCodec.OffsetFields (with OffsetCodec.OffsetIdDecodes and OffsetCodec.OffsetRecordRoundTrip) |
