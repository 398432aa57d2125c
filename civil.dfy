/**
 * Proleptic Gregorian calendar arithmetic on day numbers, day 0 being 1970-01-01.
 * It stands for the two pieces of the JavaScript engine the game leans on:
 * `Date.UTC(y, m0, d, h, mi, s)` (fields to epoch milliseconds, with month and
 * day roll-over) and the calendar half of `Intl.DateTimeFormat` (epoch day to
 * year, month and day).
 */
module Civil {

  const MsPerSecond: int := 1000
  const MsPerMinute: int := 60000
  const MsPerHour: int := 3600000
  const MsPerDay: int := 86400000

  // A 400-year cycle of the Gregorian calendar has 146097 days, and
  // 0000-03-01 lies 719468 days before 1970-01-01.

  datatype Date = Date(year: int, month: int, day: int)

  predicate IsLeapYear(y: int) {
    y % 4 == 0 && (y % 100 != 0 || y % 400 == 0)
  }

  function DaysInMonth(y: int, m: int): int
    requires 1 <= m <= 12
  {
    if m == 2 then (if IsLeapYear(y) then 29 else 28)
    else if m == 4 || m == 6 || m == 9 || m == 11 then 30
    else 31
  }

  predicate IsValidDate(d: Date) {
    1 <= d.month <= 12 && 1 <= d.day <= DaysInMonth(d.year, d.month)
  }

  /** ISO weekday of a day number: 1 = Monday ... 7 = Sunday (day 0 was a Thursday). */
  function WeekdayOf(n: int): (w: int)
    ensures 1 <= w <= 7
  {
    (n + 3) % 7 + 1
  }

  // The calendar is computed on years that start on March 1, so that the leap
  // day closes the year: March-month 0 is March, 11 is the following February.

  function DaysBeforeMarchMonth(mp: int): int
    requires 0 <= mp < 12
  {
    [0, 31, 61, 92, 122, 153, 184, 214, 245, 275, 306, 337][mp]
  }

  /** The March-month in which day `doy` of a March-based year falls. */
  function MarchMonthOf(doy: int): (mp: int)
    requires 0 <= doy
    ensures 0 <= mp < 12 && DaysBeforeMarchMonth(mp) <= doy
    ensures mp < 11 ==> doy < DaysBeforeMarchMonth(mp + 1)
  {
    if doy < 31 then 0
    else if doy < 61 then 1
    else if doy < 92 then 2
    else if doy < 122 then 3
    else if doy < 153 then 4
    else if doy < 184 then 5
    else if doy < 214 then 6
    else if doy < 245 then 7
    else if doy < 275 then 8
    else if doy < 306 then 9
    else if doy < 337 then 10
    else 11
  }

  /** Days in March-based year `yoe` of a 400-year cycle; its February lies in calendar year yoe + 1. */
  function DaysInMarchYear(yoe: int): int {
    if IsLeapYear(yoe + 1) then 366 else 365
  }

  function DaysBeforeYearOfEra(yoe: int): int {
    365 * yoe + yoe / 4 - yoe / 100
  }

  /** Leap years repeat every 400 years. */
  lemma LeapYearPeriodic(era: int, k: int)
    ensures IsLeapYear(400 * era + k) == IsLeapYear(k)
  {
    var y := 400 * era + k;
    DivisionShift(y, 4, 100 * era + k / 4, k % 4);
    DivisionShift(y, 100, 4 * era + k / 100, k % 100);
    DivisionShift(y, 400, era + k / 400, k % 400);
  }

  /** x = m * q + r with 0 <= r < m determines x's remainder. */
  lemma DivisionShift(x: int, m: int, q: int, r: int)
    requires m == 4 || m == 100 || m == 400
    requires x == m * q + r && 0 <= r < m
    ensures x % m == r
  {
  }

  /** Whole units of `size` in `n`, at most 3, and the rest: the last century of a cycle and the last year of a block run one day long. */
  function CappedSplit(n: int, size: int): (int, int)
    requires 0 < size
  {
    var k := if n / size < 3 then n / size else 3;
    (k, n - size * k)
  }

  /**
   * Splits a day of a 400-year cycle into the March-based year of the cycle and
   * the day of that year: centuries of 36524 days (the last one 36525), then
   * four-year blocks of 1461 days, then years of 365 days (the last one 366).
   */
  function SplitDayOfEra(doe: int): (r: (int, int))
    requires 0 <= doe < 146097
    ensures 0 <= r.0 <= 399 && 0 <= r.1 < DaysInMarchYear(r.0)
    ensures DaysBeforeYearOfEra(r.0) + r.1 == doe
  {
    var century := CappedSplit(doe, 36524);
    var c, r1 := century.0, century.1;
    var q, r2 := r1 / 1461, r1 % 1461;
    var year := CappedSplit(r2, 365);
    var yq, doy := year.0, year.1;
    var yoe := 100 * c + 4 * q + yq;
    assert 0 <= c <= 3 && 0 <= r1 && (c < 3 ==> r1 < 36524);
    assert 0 <= q <= 24 && 0 <= yq <= 3 && 0 <= doy <= 365;
    assert yoe / 4 == 25 * c + q && yoe / 100 == c;
    assert doy == 365 ==> IsLeapYear(yoe + 1) by {
      if doy == 365 {
        assert yq == 3 && r2 == 1460;
        assert c == 3 || q < 24;
        assert yoe + 1 == 100 * c + 4 * (q + 1);
      }
    }
    (yoe, doy)
  }

  /** Within a cycle, year yoe + 1 is a leap year exactly when yoe ends a four-year block that does not end a century, or ends the cycle. */
  lemma LeapInEra(yoe: int)
    requires 0 <= yoe <= 399
    ensures IsLeapYear(yoe + 1) <==> yoe % 4 == 3 && (yoe % 100 != 99 || yoe == 399)
  {
  }

  /** A year of the cycle and a day within it are recovered from their sum. */
  lemma SplitDayOfEraUnique(yoe: int, doy: int)
    requires 0 <= yoe <= 399 && 0 <= doy < DaysInMarchYear(yoe)
    ensures 0 <= DaysBeforeYearOfEra(yoe) + doy < 146097
    ensures SplitDayOfEra(DaysBeforeYearOfEra(yoe) + doy) == (yoe, doy)
  {
    var c, q, yq := yoe / 100, yoe % 100 / 4, yoe % 4;
    YearOfEraParts(yoe, c, q, yq, doy);
    SplitDayOfEraOfParts(DaysBeforeYearOfEra(yoe) + doy, yoe, c, q, yq, doy);
  }

  /** A year of the cycle as its century, four-year block and year of the block. */
  lemma YearOfEraParts(yoe: int, c: int, q: int, yq: int, doy: int)
    requires 0 <= yoe <= 399 && 0 <= doy < DaysInMarchYear(yoe)
    requires c == yoe / 100 && q == yoe % 100 / 4 && yq == yoe % 4
    ensures yoe == 100 * c + 4 * q + yq && 0 <= c <= 3 && 0 <= q <= 24 && 0 <= yq <= 3 && 0 <= doy <= 365
    ensures DaysBeforeYearOfEra(yoe) == 36524 * c + 1461 * q + 365 * yq
    ensures doy == 365 ==> yq == 3 && (c == 3 || q < 24)
  {
    assert yoe / 4 == 25 * c + q;
    LeapInEra(yoe);
  }

  /** The split of a day of the cycle given as its century, four-year block, year of the block and day of the year. */
  lemma SplitDayOfEraOfParts(doe: int, yoe: int, c: int, q: int, yq: int, doy: int)
    requires 0 <= c <= 3 && 0 <= q <= 24 && 0 <= yq <= 3 && 0 <= doy <= 365
    requires doy == 365 ==> yq == 3 && (c == 3 || q < 24)
    requires doe == 36524 * c + 1461 * q + 365 * yq + doy && yoe == 100 * c + 4 * q + yq
    ensures 0 <= doe < 146097
    ensures SplitDayOfEra(doe) == (yoe, doy)
  {
    var inYear := 365 * yq + doy;
    var rest := 1461 * q + inYear;
    CenturyIs(doe, c, rest);
    BlockIs(rest, q, inYear);
    YearIs(inYear, yq, doy);
  }

  lemma CenturyIs(doe: int, c: int, rest: int)
    requires doe == 36524 * c + rest && 0 <= c <= 3 && 0 <= rest <= 36524 && (rest < 36524 || c == 3)
    ensures 0 <= doe < 146097
    ensures CappedSplit(doe, 36524) == (c, rest)
  {
  }

  lemma BlockIs(r1: int, q: int, rest: int)
    requires r1 == 1461 * q + rest && 0 <= rest < 1461
    ensures r1 / 1461 == q && r1 % 1461 == rest
  {
  }

  lemma YearIs(r2: int, yq: int, doy: int)
    requires r2 == 365 * yq + doy && 0 <= yq <= 3 && 0 <= doy <= 365 && (doy == 365 ==> yq == 3)
    ensures CappedSplit(r2, 365) == (yq, doy)
  {
  }

  /** Day number of a calendar date; the arithmetic inside Date.UTC. */
  function DaysFromCivil(d: Date): int
    requires 1 <= d.month <= 12
  {
    var y := if d.month <= 2 then d.year - 1 else d.year;
    var mp := if d.month > 2 then d.month - 3 else d.month + 9;
    MarchYearStart(y) + DaysBeforeMarchMonth(mp) + d.day - 1 - 719468
  }

  /** Days from 0000-03-01 to March 1 of year y. */
  function MarchYearStart(y: int): int {
    (y / 400) * 146097 + DaysBeforeYearOfEra(y % 400)
  }

  /** A March-based year is 366 days long when the February it ends has a leap day. */
  lemma MarchYearStartNext(y: int)
    ensures MarchYearStart(y + 1) == MarchYearStart(y) + (if IsLeapYear(y + 1) then 366 else 365)
  {
    var era, yoe := y / 400, y % 400;
    LeapYearPeriodic(era, yoe + 1);
    assert IsLeapYear(y + 1) == IsLeapYear(yoe + 1) by {
      assert y + 1 == 400 * era + (yoe + 1);
    }
    if yoe == 399 {
      Era400Is(y + 1, era + 1, 0);
      assert DaysBeforeYearOfEra(399) + 366 == 146097;
    } else {
      Era400Is(y + 1, era, yoe + 1);
      DaysBeforeYearOfEraNext(yoe);
    }
  }

  lemma Era400Is(y: int, era: int, yoe: int)
    requires y == 400 * era + yoe && 0 <= yoe < 400
    ensures y / 400 == era && y % 400 == yoe
  {
  }

  /** Inside a cycle, the next year of the cycle starts one March-based year later. */
  lemma DaysBeforeYearOfEraNext(yoe: int)
    requires 0 <= yoe < 399
    ensures DaysBeforeYearOfEra(yoe + 1) == DaysBeforeYearOfEra(yoe) + DaysInMarchYear(yoe)
  {
    LeapInEra(yoe);
    if yoe % 4 == 3 {
      assert (yoe + 1) / 4 == yoe / 4 + 1;
      if yoe % 100 == 99 {
        assert (yoe + 1) / 100 == yoe / 100 + 1;
      } else {
        assert (yoe + 1) / 100 == yoe / 100;
      }
    } else {
      assert (yoe + 1) / 4 == yoe / 4;
      assert (yoe + 1) / 100 == yoe / 100;
    }
  }

  lemma EraIs(z: int, era: int, doe: int)
    requires z == era * 146097 + doe && 0 <= doe < 146097
    ensures z / 146097 == era && z % 146097 == doe
  {
  }

  /**
   * The March-based year holding day number n and the day of that year: the
   * 400-year cycle first, then SplitDayOfEra inside the cycle.
   */
  function MarchYearAndDay(n: int): (r: (int, int))
    ensures 0 <= r.1
  {
    CycleYearAndDay((n + 719468) / 146097, (n + 719468) % 146097)
  }

  /** The March-based year and day of that year for day doe of 400-year cycle era. */
  function CycleYearAndDay(era: int, doe: int): (r: (int, int))
    requires 0 <= doe < 146097
    ensures 0 <= r.1
  {
    var split := SplitDayOfEra(doe);
    (era * 400 + split.0, split.1)
  }

  /** Calendar date of a day number; the calendar part of an Intl projection. */
  function CivilFromDays(n: int): Date {
    var r := MarchYearAndDay(n);
    FromMarchYear(r.0, r.1)
  }

  /** The calendar date of day `doy` of the March-based year y. */
  function FromMarchYear(y: int, doy: int): Date
    requires 0 <= doy
  {
    var mp := MarchMonthOf(doy);
    var m := if mp < 10 then mp + 3 else mp - 9;
    Date(if m <= 2 then y + 1 else y, m, doy - DaysBeforeMarchMonth(mp) + 1)
  }

  /** Day n falls inside the March-based year MarchYearAndDay names, at the day it names. */
  lemma MarchYearAndDayBounds(n: int)
    ensures var r := MarchYearAndDay(n);
            r.1 < (if IsLeapYear(r.0 + 1) then 366 else 365) && MarchYearStart(r.0) + r.1 - 719468 == n
  {
    var z := n + 719468;
    var era, doe := z / 146097, z % 146097;
    var r := MarchYearAndDay(n);
    CycleYear(n, r.0, era, SplitDayOfEra(doe).0, r.1);
  }

  /** Every day number names a valid date, and that date counts back to the same day number. */
  lemma CivilFromDaysRoundTrip(n: int)
    ensures IsValidDate(CivilFromDays(n))
    ensures DaysFromCivil(CivilFromDays(n)) == n
  {
    var r := MarchYearAndDay(n);
    MarchYearAndDayBounds(n);
    FromMarchYearRoundTrip(r.0, r.1);
  }

  /** The March-based year y of a day number n, given as year yoe of cycle era, starts doy days before n. */
  lemma CycleYear(n: int, y: int, era: int, yoe: int, doy: int)
    requires 0 <= yoe <= 399 && 0 <= doy < DaysInMarchYear(yoe)
    requires y == era * 400 + yoe && n + 719468 == era * 146097 + DaysBeforeYearOfEra(yoe) + doy
    ensures doy < (if IsLeapYear(y + 1) then 366 else 365)
    ensures MarchYearStart(y) + doy - 719468 == n
  {
    LeapYearPeriodic(era, yoe + 1);
    Era400Is(y, era, yoe);
  }

  /** Day `doy` of March-based year y is a valid date, and it counts back to that day. */
  lemma FromMarchYearRoundTrip(y: int, doy: int)
    requires 0 <= doy < (if IsLeapYear(y + 1) then 366 else 365)
    ensures IsValidDate(FromMarchYear(y, doy))
    ensures DaysFromCivil(FromMarchYear(y, doy)) == MarchYearStart(y) + doy - 719468
  {
    var mp := MarchMonthOf(doy);
    var d := FromMarchYear(y, doy);
    assert d.month == if mp < 10 then mp + 3 else mp - 9;
    assert d.day == doy - DaysBeforeMarchMonth(mp) + 1;
  }

  /** A valid date falls inside its March-based year. */
  lemma DayOfMarchYearBound(d: Date)
    requires IsValidDate(d)
    ensures var y := if d.month <= 2 then d.year - 1 else d.year;
            var mp := if d.month > 2 then d.month - 3 else d.month + 9;
            0 <= DaysBeforeMarchMonth(mp) + d.day - 1 < DaysInMarchYear(y % 400)
  {
    var y := if d.month <= 2 then d.year - 1 else d.year;
    LeapYearPeriodic(y / 400, y % 400 + 1);
    assert y + 1 == 400 * (y / 400) + y % 400 + 1;
  }

  /** A day number given as day doy of March-based year y is split back into y and doy. */
  lemma MarchYearAndDayOf(n: int, y: int, doy: int)
    requires 0 <= doy < DaysInMarchYear(y % 400)
    requires n == MarchYearStart(y) + doy - 719468
    ensures MarchYearAndDay(n) == (y, doy)
  {
    var era, yoe := y / 400, y % 400;
    EraIs(n + 719468, era, DaysBeforeYearOfEra(yoe) + doy);
    CycleYearAndDayOf(y, era, yoe, doy);
  }

  lemma CycleYearAndDayOf(y: int, era: int, yoe: int, doy: int)
    requires 0 <= yoe <= 399 && 0 <= doy < DaysInMarchYear(yoe) && y == era * 400 + yoe
    ensures 0 <= DaysBeforeYearOfEra(yoe) + doy < 146097
    ensures CycleYearAndDay(era, DaysBeforeYearOfEra(yoe) + doy) == (y, doy)
  {
    SplitDayOfEraUnique(yoe, doy);
  }

  /** A valid date is the date of its own day of its March-based year. */
  lemma FromMarchYearOfDate(d: Date, y: int, mp: int, doy: int)
    requires IsValidDate(d)
    requires y == (if d.month <= 2 then d.year - 1 else d.year)
    requires mp == (if d.month > 2 then d.month - 3 else d.month + 9)
    requires doy == DaysBeforeMarchMonth(mp) + d.day - 1 && 0 <= doy
    ensures FromMarchYear(y, doy) == d
  {
    assert MarchMonthOf(doy) == mp;
  }

  /** Every valid date survives the trip through its day number. */
  lemma DaysFromCivilRoundTrip(d: Date)
    requires IsValidDate(d)
    ensures CivilFromDays(DaysFromCivil(d)) == d
  {
    var y := if d.month <= 2 then d.year - 1 else d.year;
    var mp := if d.month > 2 then d.month - 3 else d.month + 9;
    var doy := DaysBeforeMarchMonth(mp) + d.day - 1;
    DayOfMarchYearBound(d);
    MarchYearAndDayOf(DaysFromCivil(d), y, doy);
    FromMarchYearOfDate(d, y, mp, doy);
  }

  /** Two valid dates with the same day number are the same date. */
  lemma DaysFromCivilInjective(a: Date, b: Date)
    requires IsValidDate(a) && IsValidDate(b)
    ensures DaysFromCivil(a) == DaysFromCivil(b) <==> a == b
  {
    DaysFromCivilRoundTrip(a);
    DaysFromCivilRoundTrip(b);
  }

  /** The years Date.UTC does not take as written. */
  predicate TwoDigitYear(y: int) {
    0 <= y <= 99
  }

  /** Date.UTC maps a two-digit year y (0..99) to 1900 + y. */
  function FullYear(y: int): int {
    if TwoDigitYear(y) then 1900 + y else y
  }

  /** Day number of day `d` of zero-based month `m0` of year `y`, months and days rolling over as in MakeDay. */
  function MakeDay(y: int, m0: int, d: int): int {
    DaysFromCivil(Date(y + m0 / 12, m0 % 12 + 1, 1)) + d - 1
  }

  /** `Date.UTC(y, m0, d, h, mi, s)` in epoch milliseconds (the range limit of TimeClip aside). */
  function DateUtc(y: int, m0: int, d: int, h: int, mi: int, s: int): int {
    MakeDay(FullYear(y), m0, d) * MsPerDay + h * MsPerHour + mi * MsPerMinute + s * MsPerSecond
  }

  /** Whole days in milliseconds are a multiple of a day, and divide back. */
  lemma MultipleOfDay(k: int)
    ensures (k * MsPerDay) % MsPerDay == 0 && (k * MsPerDay) / MsPerDay == k
  {
  }

  /** x = q whole days and r more milliseconds, r under a day, has day number q and time of day r. */
  lemma DayIs(x: int, q: int, r: int)
    requires x == q * MsPerDay + r && 0 <= r < MsPerDay
    ensures x / MsPerDay == q && x % MsPerDay == r
  {
  }

  /** Going back whole days from a UTC midnight lands on a UTC midnight. */
  lemma MidnightMinusDays(ms: int, k: int)
    ensures ms % MsPerDay == 0 ==> (ms - k * MsPerDay) % MsPerDay == 0
  {
    var q := ms / MsPerDay;
    assert ms % MsPerDay == 0 ==> ms - k * MsPerDay == (q - k) * MsPerDay;
    MultipleOfDay(q - k);
  }

  /** Date.UTC at midnight is a UTC midnight: a whole multiple of a day. */
  lemma DateUtcMidnight(y: int, m0: int, d: int)
    ensures DateUtc(y, m0, d, 0, 0, 0) == MakeDay(FullYear(y), m0, d) * MsPerDay
    ensures DateUtc(y, m0, d, 0, 0, 0) % MsPerDay == 0
  {
    MultipleOfDay(MakeDay(FullYear(y), m0, d));
  }

  /** Date.UTC on the fields of a date whose year is not two-digit reads it back as its day number. */
  lemma DateUtcOfDate(d: Date, h: int, mi: int, s: int)
    requires 1 <= d.month <= 12 && !TwoDigitYear(d.year)
    ensures DateUtc(d.year, d.month - 1, d.day, h, mi, s)
         == DaysFromCivil(d) * MsPerDay + h * MsPerHour + mi * MsPerMinute + s * MsPerSecond
  {
    assert (d.month - 1) / 12 == 0 && (d.month - 1) % 12 == d.month - 1;
  }

  /** Date.UTC at midnight of a valid month, outside the two-digit years, is its day number in milliseconds. */
  lemma DateUtcMidnightOfDate(y: int, m: int, d: int)
    requires 1 <= m <= 12 && !TwoDigitYear(y)
    ensures DateUtc(y, m - 1, d, 0, 0, 0) == DaysFromCivil(Date(y, m, d)) * MsPerDay
  {
    DateUtcOfDate(Date(y, m, d), 0, 0, 0);
  }

  /** The first day of a month follows the last day of the one before it, across year ends too. */
  lemma NextMonthFollows(y: int, m: int)
    requires 1 <= m <= 12
    ensures DaysFromCivil(if m == 12 then Date(y + 1, 1, 1) else Date(y, m + 1, 1))
         == DaysFromCivil(Date(y, m, 1)) + DaysInMonth(y, m)
  {
    if m == 2 {
      MarchYearStartNext(y - 1);
    }
  }

  /** Date.UTC rolls a day past the end of its month into the next month, and month 12 into January of the next year. */
  lemma DateUtcRollsOver(y: int, m: int)
    requires 1 <= m <= 12 && !TwoDigitYear(y) && !TwoDigitYear(y + 1)
    ensures DateUtc(y, m - 1, DaysInMonth(y, m) + 1, 0, 0, 0) == DateUtc(y, m, 1, 0, 0, 0)
    ensures DateUtc(y, 12, 1, 0, 0, 0) == DateUtc(y + 1, 0, 1, 0, 0, 0)
  {
    MakeDayRollsOver(y, m);
  }

  /** MakeDay's side of the roll-over: the day numbers agree before they are scaled to milliseconds. */
  lemma MakeDayRollsOver(y: int, m: int)
    requires 1 <= m <= 12
    ensures MakeDay(y, m - 1, DaysInMonth(y, m) + 1) == MakeDay(y, m, 1)
    ensures MakeDay(y, 12, 1) == MakeDay(y + 1, 0, 1)
  {
    NextMonthFollows(y, m);
    assert (m - 1) / 12 == 0 && (m - 1) % 12 == m - 1;
    if m == 12 {
      assert m / 12 == 1 && m % 12 == 0;
    } else {
      assert m / 12 == 0 && m % 12 == m;
    }
  }
}
