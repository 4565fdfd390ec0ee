/**
 * The proleptic Gregorian calendar as java.time's ISO chronology implements it:
 * date validity, the count of days since 1970-01-01 and back, and the ISO
 * day of the week.
 *
 * Days are counted in 400-year eras of 146097 days that start on a 1 March,
 * so that the leap day is the last day of its (March-based) year.
 */
module Calendar {

  /** LocalDate's year range. */
  const MIN_YEAR: int := -999_999_999
  const MAX_YEAR: int := 999_999_999

  // An era of 400 years has 146097 days.

  /** Days from 0000-03-01 to 1970-01-01. */
  const EPOCH_SHIFT: int := 719468

  datatype Date = Date(year: int, month: int, day: int)

  predicate IsLeapYear(y: int) {
    y % 4 == 0 && (y % 100 != 0 || y % 400 == 0)
  }

  function DaysInMonth(y: int, m: int): (r: int)
    requires 1 <= m <= 12
    ensures 28 <= r <= 31
    ensures r == 29 <==> m == 2 && IsLeapYear(y)
    ensures r == 28 <==> m == 2 && !IsLeapYear(y)
  {
    if m == 2 then (if IsLeapYear(y) then 29 else 28)
    else if m == 4 || m == 6 || m == 9 || m == 11 then 30
    else 31
  }

  /** A real day of the proleptic Gregorian calendar (any year). */
  predicate IsValidDate(y: int, m: int, d: int) {
    1 <= m <= 12 && 1 <= d <= DaysInMonth(y, m)
  }

  /** The dates LocalDate.of accepts: a Gregorian date inside LocalDate's year range. */
  predicate IsLocalDate(y: int, m: int, d: int) {
    MIN_YEAR <= y <= MAX_YEAR && IsValidDate(y, m, d)
  }

  // ---------------------------------------------------------------------
  // Euclidean division by a variable divisor, kept out of the calendar proofs

  lemma MulDiff(n: int, a: int, b: int)
    ensures n * (a - b) == n * a - n * b
  {
  }

  lemma MulAtLeast(n: int, d: int)
    requires n > 0 && d >= 1
    ensures n * d >= n
  {
  }

  /** Quotient and remainder are the only pair with x == n * q + r and 0 <= r < n. */
  lemma DivModUnique(x: int, n: int, q: int, r: int)
    requires n > 0 && 0 <= r < n && x == n * q + r
    ensures x / n == q && x % n == r
  {
    var q', r' := x / n, x % n;
    assert x == n * q' + r';
    MulDiff(n, q, q');
    if q > q' { MulAtLeast(n, q - q'); }
    if q < q' { MulAtLeast(n, q' - q); MulDiff(n, q', q); }
  }

  /** Adding a multiple of n does not change the remainder modulo n. */
  lemma ModAddMultiple(k: int, a: int, n: int)
    requires n > 0
    ensures (n * k + a) % n == a % n
  {
    var q, r := a / n, a % n;
    assert n * k + a == n * (k + q) + r;
    DivModUnique(n * k + a, n, k + q, r);
  }

  // ---------------------------------------------------------------------
  // March-based months and years inside an era

  /** Days in a March-based year before its month mp (0 = March, ..., 11 = February). */
  function DaysBeforeMonth(mp: int): int
    requires 0 <= mp <= 12
  {
    if mp < 6 then
      if mp < 3 then (if mp == 0 then 0 else if mp == 1 then 31 else 61)
      else (if mp == 3 then 92 else if mp == 4 then 122 else 153)
    else if mp < 9 then (if mp == 6 then 184 else if mp == 7 then 214 else 245)
    else (if mp == 9 then 275 else if mp == 10 then 306 else if mp == 11 then 337 else 366)
  }

  /** The March-based month containing day-of-year doy. */
  function MonthOfDay(doy: int): int
    requires 0 <= doy <= 365
  {
    if doy < 153 then
      if doy < 61 then (if doy < 31 then 0 else 1)
      else (if doy < 92 then 2 else if doy < 122 then 3 else 4)
    else if doy < 245 then (if doy < 184 then 5 else if doy < 214 then 6 else 7)
    else (if doy < 275 then 8 else if doy < 306 then 9 else if doy < 337 then 10 else 11)
  }

  lemma MonthOfDayBounds(doy: int)
    requires 0 <= doy <= 365
    ensures 0 <= MonthOfDay(doy) <= 11
    ensures DaysBeforeMonth(MonthOfDay(doy)) <= doy < DaysBeforeMonth(MonthOfDay(doy) + 1)
  {
  }

  lemma MonthOfDayUnique(mp: int, doy: int)
    requires 0 <= mp <= 11 && doy <= 365
    requires DaysBeforeMonth(mp) <= doy < DaysBeforeMonth(mp + 1)
    ensures MonthOfDay(doy) == mp
  {
  }

  /** The March-based years of an era that end with 29 February. */
  predicate IsLongYearOfEra(yoe: int) {
    yoe % 4 == 3 && (yoe % 100 != 99 || yoe == 399)
  }

  function YearOfEraLength(yoe: int): int {
    if IsLongYearOfEra(yoe) then 366 else 365
  }

  /** Days in an era before its March-based year yoe. */
  function DaysBeforeYearOfEra(yoe: int): int
    requires 0 <= yoe <= 399
  {
    365 * yoe + yoe / 4 - yoe / 100
  }

  datatype YearDay = YearDay(yoe: int, doy: int)

  /**
   * Splits a day of an era into its March-based year and day of that year:
   * centuries of 36524 days (the last has 36525), four-year blocks of 1461
   * days (the last of a century may have 1460), years of 365 days (the last
   * of a block may have 366).
   */
  function SplitDayOfEra(doe: int): YearDay
    requires 0 <= doe < 146097
  {
    var c := if doe < 36524 then 0 else if doe < 2 * 36524 then 1 else if doe < 3 * 36524 then 2 else 3;
    var doc := doe - 36524 * c;
    var q := doc / 1461;
    var doq := doc - 1461 * q;
    var r := if doq < 365 then 0 else if doq < 2 * 365 then 1 else if doq < 3 * 365 then 2 else 3;
    YearDay(100 * c + 4 * q + r, doq - 365 * r)
  }

  lemma DaysBeforeYearOfEraParts(c: int, q: int, r: int)
    requires 0 <= c <= 3 && 0 <= q <= 24 && 0 <= r <= 3
    ensures DaysBeforeYearOfEra(100 * c + 4 * q + r) == 36524 * c + 1461 * q + 365 * r
  {
    var yoe := 100 * c + 4 * q + r;
    assert yoe / 4 == 25 * c + q;
    assert yoe / 100 == c;
  }

  lemma LongYearParts(c: int, q: int, r: int)
    requires 0 <= c <= 3 && 0 <= q <= 24 && 0 <= r <= 3
    ensures IsLongYearOfEra(100 * c + 4 * q + r) <==> r == 3 && (q != 24 || c == 3)
  {
    var yoe := 100 * c + 4 * q + r;
    assert yoe % 4 == r;
    assert yoe % 100 == 4 * q + r;
  }

  /** A day given by its century, four-year block, year of the block and day of the year splits back into them. */
  lemma SplitDayOfEraOfParts(c: int, q: int, r: int, doy: int)
    requires 0 <= c <= 3 && 0 <= q <= 24 && 0 <= r <= 3 && 0 <= doy <= 365
    requires doy == 365 ==> r == 3 && (q != 24 || c == 3)
    ensures 36524 * c + 1461 * q + 365 * r + doy < 146097
    ensures SplitDayOfEra(36524 * c + 1461 * q + 365 * r + doy) == YearDay(100 * c + 4 * q + r, doy)
  {
    var doe := 36524 * c + 1461 * q + 365 * r + doy;
    assert c == if doe < 36524 then 0 else if doe < 2 * 36524 then 1 else if doe < 3 * 36524 then 2 else 3;
    DivModUnique(1461 * q + 365 * r + doy, 1461, q, 365 * r + doy);
  }

  /** Every day of an era falls in exactly the year and day SplitDayOfEra gives. */
  lemma SplitDayOfEraCorrect(doe: int)
    requires 0 <= doe < 146097
    ensures var yd := SplitDayOfEra(doe);
      && 0 <= yd.yoe <= 399
      && 0 <= yd.doy < YearOfEraLength(yd.yoe)
      && DaysBeforeYearOfEra(yd.yoe) + yd.doy == doe
  {
    var c := if doe < 36524 then 0 else if doe < 2 * 36524 then 1 else if doe < 3 * 36524 then 2 else 3;
    var doc := doe - 36524 * c;
    var q := doc / 1461;
    var doq := doc - 1461 * q;
    var r := if doq < 365 then 0 else if doq < 2 * 365 then 1 else if doq < 3 * 365 then 2 else 3;
    var doy := doq - 365 * r;
    assert 0 <= q <= 24 && 0 <= doy <= 365;
    if doy == 365 {
      assert r == 3;
      assert q == 24 ==> c == 3;
    }
    assert doe == 36524 * c + 1461 * q + 365 * r + doy;
    SplitDayOfEraOfParts(c, q, r, doy);
    assert SplitDayOfEra(doe) == YearDay(100 * c + 4 * q + r, doy);
    DaysBeforeYearOfEraParts(c, q, r);
    LongYearParts(c, q, r);
  }

  lemma SplitDayOfEraUnique(yoe: int, doy: int)
    requires 0 <= yoe <= 399
    requires 0 <= doy < YearOfEraLength(yoe)
    ensures DaysBeforeYearOfEra(yoe) + doy < 146097
    ensures SplitDayOfEra(DaysBeforeYearOfEra(yoe) + doy) == YearDay(yoe, doy)
  {
    var c, q, r := YearOfEraParts(yoe);
    DaysBeforeYearOfEraParts(c, q, r);
    LongYearParts(c, q, r);
    SplitDayOfEraOfParts(c, q, r, doy);
  }

  /** A year of an era is a century, a four-year block of it and a year of that block. */
  lemma YearOfEraParts(yoe: int) returns (c: int, q: int, r: int)
    requires 0 <= yoe <= 399
    ensures 0 <= c <= 3 && 0 <= q <= 24 && 0 <= r <= 3 && yoe == 100 * c + 4 * q + r
  {
    c, q, r := yoe / 100, yoe % 100 / 4, yoe % 4;
  }

  /** The civil year holding the February of March-based year yoe of an era is a leap year exactly when that year is long. */
  lemma LeapYearOfEra(era: int, yoe: int)
    requires 0 <= yoe <= 399
    ensures IsLeapYear(400 * era + yoe + 1) <==> IsLongYearOfEra(yoe)
  {
    ModAddMultiple(100 * era, yoe + 1, 4);
    ModAddMultiple(4 * era, yoe + 1, 100);
    ModAddMultiple(era, yoe + 1, 400);
  }

  // ---------------------------------------------------------------------
  // Epoch days

  /** March-based month number of civil month m (March = 0, ..., February = 11). */
  function MarchMonth(m: int): int {
    if m > 2 then m - 3 else m + 9
  }

  /** Civil month of March-based month mp. */
  function CivilMonth(mp: int): int {
    if mp < 10 then mp + 3 else mp - 9
  }

  /** The March-based year that holds civil month m of year y (January and February belong to the previous one). */
  function MarchYear(y: int, m: int): int {
    if m <= 2 then y - 1 else y
  }

  /** Days from 0000-03-01 to day d of March-based month mp of March-based year ym. */
  function MarchDayNumber(ym: int, mp: int, d: int): int
    requires 0 <= mp <= 11
  {
    ym / 400 * 146097 + DaysBeforeYearOfEra(ym % 400) + DaysBeforeMonth(mp) + d - 1
  }

  /** LocalDate.toEpochDay: days from 1970-01-01 to the given date. */
  function DaysFromCivil(y: int, m: int, d: int): int
    requires 1 <= m <= 12
  {
    MarchDayNumber(MarchYear(y, m), MarchMonth(m), d) - EPOCH_SHIFT
  }

  /** The civil date of day doy of March-based year ym. */
  function DateOfMarchDay(ym: int, doy: int): Date
    requires 0 <= doy <= 365
  {
    var mp := MonthOfDay(doy);
    var m := CivilMonth(mp);
    Date(if m <= 2 then ym + 1 else ym, m, doy - (if mp <= 12 then DaysBeforeMonth(mp) else 0) + 1)
  }

  /** The civil date of day doe of era `era` (era 0 starts on 0000-03-01). */
  function EraDate(era: int, doe: int): Date
    requires 0 <= doe < 146097
  {
    var yd := SplitDayOfEra(doe);
    DateOfMarchDay(era * 400 + yd.yoe, if 0 <= yd.doy <= 365 then yd.doy else 0)
  }

  /** LocalDate.ofEpochDay: the date that lies z days after 1970-01-01. */
  function CivilFromDays(z: int): Date {
    EraDate((z + EPOCH_SHIFT) / 146097, (z + EPOCH_SHIFT) % 146097)
  }

  /** The date of a day of a March-based year is a valid date in that March-based year, at that day. */
  lemma DateOfMarchDayCorrect(era: int, yoe: int, doy: int)
    requires 0 <= yoe <= 399 && 0 <= doy < YearOfEraLength(yoe)
    ensures var date := DateOfMarchDay(400 * era + yoe, doy);
      && IsValidDate(date.year, date.month, date.day)
      && MarchYear(date.year, date.month) == 400 * era + yoe
      && MarchMonth(date.month) == MonthOfDay(doy)
      && DaysBeforeMonth(MonthOfDay(doy)) + date.day - 1 == doy
  {
    MonthOfDayBounds(doy);
    LeapYearOfEra(era, yoe);
    var date := DateOfMarchDay(400 * era + yoe, doy);
    if date.month == 2 {
      assert date.year == 400 * era + yoe + 1;
    }
  }

  lemma MarchDayNumberSplit(era: int, yoe: int, mp: int, d: int)
    requires 0 <= yoe <= 399 && 0 <= mp <= 11
    ensures MarchDayNumber(400 * era + yoe, mp, d)
         == era * 146097 + DaysBeforeYearOfEra(yoe) + DaysBeforeMonth(mp) + d - 1
  {
    DivModUnique(400 * era + yoe, 400, era, yoe);
  }

  /** A day count is split into an era, a March-based year of it and a day of that year. */
  lemma CivilFromDaysParts(z: int) returns (era: int, yoe: int, doy: int)
    ensures 0 <= yoe <= 399 && 0 <= doy < YearOfEraLength(yoe)
    ensures z + EPOCH_SHIFT == era * 146097 + DaysBeforeYearOfEra(yoe) + doy
    ensures CivilFromDays(z) == DateOfMarchDay(400 * era + yoe, doy)
  {
    var doe := (z + EPOCH_SHIFT) % 146097;
    era := (z + EPOCH_SHIFT) / 146097;
    SplitDayOfEraCorrect(doe);
    yoe, doy := SplitDayOfEra(doe).yoe, SplitDayOfEra(doe).doy;
  }

  /** Every day count names a valid date, and counting the days to that date gives the count back. */
  lemma CivilFromDaysRoundTrip(z: int)
    ensures var date := CivilFromDays(z);
      && IsValidDate(date.year, date.month, date.day)
      && DaysFromCivil(date.year, date.month, date.day) == z
  {
    var era, yoe, doy := CivilFromDaysParts(z);
    DateOfMarchDayCorrect(era, yoe, doy);
    var date := DateOfMarchDay(400 * era + yoe, doy);
    MarchDayNumberSplit(era, yoe, MonthOfDay(doy), date.day);
  }

  lemma DayOfMarchYearBounds(y: int, m: int, d: int)
    requires IsValidDate(y, m, d)
    ensures 0 <= DaysBeforeMonth(MarchMonth(m)) + d - 1 < YearOfEraLength(MarchYear(y, m) % 400)
  {
    var ym := MarchYear(y, m);
    LeapYearOfEra(ym / 400, ym % 400);
    assert 400 * (ym / 400) + ym % 400 + 1 == ym + 1;
    if m == 2 {
      assert ym + 1 == y;
    }
  }

  /** A day count that is day doe of era `era` names that era's date. */
  lemma CivilFromEraDay(z: int, era: int, doe: int)
    requires 0 <= doe < 146097 && z + EPOCH_SHIFT == era * 146097 + doe
    ensures CivilFromDays(z) == EraDate(era, doe)
  {
    DivModUnique(z + EPOCH_SHIFT, 146097, era, doe);
    assert (z + EPOCH_SHIFT) / 146097 == era && (z + EPOCH_SHIFT) % 146097 == doe;
  }

  /** Day doy of March-based year ym, year yoe of its era, is dated in that year, at that day. */
  lemma EraDateOfYearDay(ym: int, era: int, yoe: int, doy: int)
    requires 0 <= yoe <= 399 && 0 <= doy < YearOfEraLength(yoe) && ym == era * 400 + yoe
    ensures DaysBeforeYearOfEra(yoe) + doy < 146097
    ensures EraDate(era, DaysBeforeYearOfEra(yoe) + doy) == DateOfMarchDay(ym, doy)
  {
    SplitDayOfEraUnique(yoe, doy);
  }

  /** The day count of day doy of March-based year yoe of era `era` leads back to that day. */
  lemma CivilFromEraYearDay(z: int, era: int, yoe: int, doy: int)
    requires 0 <= yoe <= 399 && 0 <= doy < YearOfEraLength(yoe)
    requires z + EPOCH_SHIFT == era * 146097 + DaysBeforeYearOfEra(yoe) + doy
    ensures CivilFromDays(z) == DateOfMarchDay(400 * era + yoe, doy)
  {
    EraDateOfYearDay(400 * era + yoe, era, yoe, doy);
    CivilFromEraDay(z, era, DaysBeforeYearOfEra(yoe) + doy);
  }

  /** Every valid date is the date of its own day count. */
  lemma DaysFromCivilRoundTrip(y: int, m: int, d: int)
    requires IsValidDate(y, m, d)
    ensures CivilFromDays(DaysFromCivil(y, m, d)) == Date(y, m, d)
  {
    var ym := MarchYear(y, m);
    var era, yoe, doy := ym / 400, ym % 400, DaysBeforeMonth(MarchMonth(m)) + d - 1;
    DayOfMarchYearBounds(y, m, d);
    CivilFromEraYearDay(DaysFromCivil(y, m, d), era, yoe, doy);
    DateOfMarchDayInverse(y, m, d);
  }

  lemma DateOfMarchDayInverse(y: int, m: int, d: int)
    requires IsValidDate(y, m, d)
    ensures 0 <= DaysBeforeMonth(MarchMonth(m)) + d - 1 <= 365
    ensures DateOfMarchDay(MarchYear(y, m), DaysBeforeMonth(MarchMonth(m)) + d - 1) == Date(y, m, d)
  {
    MonthOfDayUnique(MarchMonth(m), DaysBeforeMonth(MarchMonth(m)) + d - 1);
  }

  /** Different valid dates have different day counts. */
  lemma DaysFromCivilInjective(y1: int, m1: int, d1: int, y2: int, m2: int, d2: int)
    requires IsValidDate(y1, m1, d1) && IsValidDate(y2, m2, d2)
    requires DaysFromCivil(y1, m1, d1) == DaysFromCivil(y2, m2, d2)
    ensures y1 == y2 && m1 == m2 && d1 == d2
  {
    DaysFromCivilRoundTrip(y1, m1, d1);
    DaysFromCivilRoundTrip(y2, m2, d2);
  }

  // ---------------------------------------------------------------------
  // Day of the week

  /** DayOfWeek.getValue of LocalDate.ofEpochDay(z): 1 = Monday, ..., 7 = Sunday. */
  function IsoDayOfWeek(z: int): (r: int)
    ensures 1 <= r <= 7
  {
    (z + 3) % 7 + 1
  }

  /** The Civil record's dayOfWeek: the ISO value mod 7, so Sunday is 0 and Saturday is 6. */
  function DayOfWeek(y: int, m: int, d: int): (r: int)
    requires 1 <= m <= 12
    ensures 0 <= r <= 6
    ensures r == IsoDayOfWeek(DaysFromCivil(y, m, d)) % 7
  {
    IsoDayOfWeek(DaysFromCivil(y, m, d)) % 7
  }

  /** The ISO day of the week moves on by one each day and repeats every seven days. */
  lemma IsoDayOfWeekNext(z: int)
    ensures IsoDayOfWeek(z + 1) == if IsoDayOfWeek(z) == 7 then 1 else IsoDayOfWeek(z) + 1
    ensures IsoDayOfWeek(z + 7) == IsoDayOfWeek(z)
  {
  }

  /** Sunday (ISO 7) is 0 and the other days keep their ISO number. */
  lemma DayOfWeekSunday(y: int, m: int, d: int)
    requires 1 <= m <= 12
    ensures DayOfWeek(y, m, d) == 0 <==> IsoDayOfWeek(DaysFromCivil(y, m, d)) == 7
    ensures DayOfWeek(y, m, d) != 0 ==> DayOfWeek(y, m, d) == IsoDayOfWeek(DaysFromCivil(y, m, d))
  {
  }

  /** Anchors: 1970-01-01 was a Thursday and 2000-01-01 a Saturday. */
  lemma KnownWeekdays()
    ensures DaysFromCivil(1970, 1, 1) == 0 && DayOfWeek(1970, 1, 1) == 4
    ensures DaysFromCivil(2000, 1, 1) == 10957 && DayOfWeek(2000, 1, 1) == 6
  {
    assert DaysBeforeYearOfEra(369) == 134774 && DaysBeforeYearOfEra(399) == 145731;
    assert MarchDayNumber(1969, 10, 1) == 719468 && MarchDayNumber(1999, 10, 1) == 730425;
  }
}
