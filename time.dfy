/**
 * The America/New_York calendar helpers of lib/time.ts.
 *
 * An instant is an integer count of epoch milliseconds. The time zone is a
 * Zone: at each instant, the offset of UTC from New York wall-clock time in
 * whole seconds (18000 under EST, 14400 under EDT). It stands in for the tz
 * database behind Intl.DateTimeFormat, so no daylight-saving rule is encoded.
 */
module NyTime {
  import opened Wrappers
  import opened Civil
  import opened Text

  type Zone = int -> int

  /** The fields Intl.DateTimeFormat reports for an instant in New York; weekday 1 = Monday ... 7 = Sunday. */
  datatype NyParts = NyParts(year: int, month: int, day: int, hour: int, minute: int, second: int, weekday: int)

  function Min(a: int, b: int): int {
    if a <= b then a else b
  }

  function Max(a: int, b: int): int {
    if a >= b then a else b
  }

  /** New York wall-clock time of instant t, counted in milliseconds from the wall clock's 1970-01-01 00:00. */
  function LocalMs(z: Zone, t: int): int {
    t - MsPerSecond * z(t)
  }

  /** Day number of t's New York calendar date. */
  function NyDay(z: Zone, t: int): int {
    LocalMs(z, t) / MsPerDay
  }

  lemma ShiftMillis(a: int, b: int)
    ensures (MsPerSecond * b + a) % MsPerSecond == a % MsPerSecond
  {
    var q := a / MsPerSecond;
    assert MsPerSecond * b + a == MsPerSecond * (b + q) + a % MsPerSecond;
  }

  /** Zone offsets are whole seconds, so the wall clock shows t's milliseconds. */
  lemma LocalMillis(z: Zone, t: int)
    ensures LocalMs(z, t) % MsPerSecond == t % MsPerSecond
    ensures LocalMs(z, t) % MsPerDay % MsPerSecond == t % MsPerSecond
  {
    var l := LocalMs(z, t);
    ShiftMillis(t, -z(t));
    ShiftMillis(l % MsPerDay, 86400 * (l / MsPerDay));
    assert l == MsPerSecond * (86400 * (l / MsPerDay)) + l % MsPerDay;
  }

  /** Splitting a time of day into hours, minutes, seconds and milliseconds, and putting it back together. */
  lemma TimeOfDaySplit(ms: int)
    requires 0 <= ms < MsPerDay
    ensures 0 <= ms / MsPerHour < 24
    ensures 0 <= ms % MsPerHour / MsPerMinute < 60
    ensures 0 <= ms % MsPerHour % MsPerMinute / MsPerSecond < 60
    ensures ms / MsPerHour * MsPerHour + ms % MsPerHour / MsPerMinute * MsPerMinute
            + ms % MsPerHour % MsPerMinute / MsPerSecond * MsPerSecond + ms % MsPerSecond == ms
  {
    var h, r1 := ms / MsPerHour, ms % MsPerHour;
    var mi, r2 := r1 / MsPerMinute, r1 % MsPerMinute;
    var s, r3 := r2 / MsPerSecond, r2 % MsPerSecond;
    assert ms == MsPerSecond * (3600 * h + 60 * mi + s) + r3;
    ShiftMillis(r3, 3600 * h + 60 * mi + s);
  }

  /** Intl's en-US short weekday names, Monday first. */
  const ShortWeekdayNames: seq<string> := ["Mon", "Tue", "Wed", "Thu", "Fri", "Sat", "Sun"]

  /** The lower-case names weekdayNameToNumber recognises, Monday first. */
  const WeekdayKeys: seq<string> := ["mon", "tue", "wed", "thu", "fri", "sat", "sun"]

  /** The short weekday name Intl prints for day number n (day 0, 1970-01-01, was a Thursday). */
  function WeekdayName(n: int): string {
    ShortWeekdayNames[(n + 3) % 7]
  }

  /**
   * weekdayNameToNumber: a weekday name in any letter case to 1 (Monday) ... 7
   * (Sunday), anything else to 0.
   */
  function WeekdayNameToNumber(name: string): (n: int)
    ensures 0 <= n <= 7
    ensures n == 0 <==> Lower(name) !in WeekdayKeys
    ensures n != 0 ==> WeekdayKeys[n - 1] == Lower(name)
  {
    var key := Lower(name);
    if key == "mon" then 1
    else if key == "tue" then 2
    else if key == "wed" then 3
    else if key == "thu" then 4
    else if key == "fri" then 5
    else if key == "sat" then 6
    else if key == "sun" then 7
    else 0
  }

  /** The letter case of a name does not change its number. */
  lemma WeekdayNameToNumberAnyCase(name: string)
    ensures WeekdayNameToNumber(name) == WeekdayNameToNumber(Lower(name))
  {
    LowerIdempotent(name);
  }

  lemma LowerShortName(i: int)
    requires 0 <= i < 7
    ensures Lower(ShortWeekdayNames[i]) == WeekdayKeys[i]
  {
    var name := ShortWeekdayNames[i];
    assert Lower(name)[0] == WeekdayKeys[i][0];
    assert Lower(name)[1] == name[1] && Lower(name)[2] == name[2];
  }

  /** The name Intl prints for a day reads back as that day's ISO weekday. */
  lemma WeekdayNameNumbers(n: int)
    ensures WeekdayNameToNumber(WeekdayName(n)) == WeekdayOf(n)
  {
    LowerShortName((n + 3) % 7);
  }

  /**
   * getNyParts: a valid calendar date, a wall-clock time and a weekday from
   * Monday = 1 to Sunday = 7; NyPartsDay, NyPartsClock and NyPartsWeekday say which.
   */
  function GetNyParts(z: Zone, t: int): (p: NyParts)
    ensures IsValidDate(Date(p.year, p.month, p.day))
    ensures 0 <= p.hour < 24 && 0 <= p.minute < 60 && 0 <= p.second < 60
    ensures 1 <= p.weekday <= 7
  {
    var day := NyDay(z, t);
    var ms := LocalMs(z, t) % MsPerDay;
    var date := CivilFromDays(day);
    CivilFromDaysRoundTrip(day);
    TimeOfDaySplit(ms);
    WeekdayNameNumbers(day);
    NyParts(date.year, date.month, date.day,
            ms / MsPerHour, ms % MsPerHour / MsPerMinute, ms % MsPerHour % MsPerMinute / MsPerSecond,
            WeekdayNameToNumber(WeekdayName(day)))
  }

  /** The date in t's parts has t's New York day number. */
  lemma NyPartsDay(z: Zone, t: int)
    ensures var p := GetNyParts(z, t);
            DaysFromCivil(Date(p.year, p.month, p.day)) == NyDay(z, t)
  {
    CivilFromDaysRoundTrip(NyDay(z, t));
  }

  /** The wall-clock time in t's parts, with t's milliseconds, is t's New York time of day. */
  lemma NyPartsClock(z: Zone, t: int)
    ensures var p := GetNyParts(z, t);
            p.hour * MsPerHour + p.minute * MsPerMinute + p.second * MsPerSecond + t % MsPerSecond
            == LocalMs(z, t) % MsPerDay
  {
    TimeOfDaySplit(LocalMs(z, t) % MsPerDay);
    LocalMillis(z, t);
  }

  /** The weekday in t's parts is the ISO weekday of t's New York date. */
  lemma NyPartsWeekday(z: Zone, t: int)
    ensures GetNyParts(z, t).weekday == WeekdayOf(NyDay(z, t))
  {
    WeekdayNameNumbers(NyDay(z, t));
  }

  /** The date of t's New York parts is the calendar date of its New York day number. */
  lemma NyPartsDate(z: Zone, t: int)
    ensures var p := GetNyParts(z, t);
            Date(p.year, p.month, p.day) == CivilFromDays(NyDay(z, t))
  {
    var p := GetNyParts(z, t);
    NyPartsDay(z, t);
    DaysFromCivilRoundTrip(Date(p.year, p.month, p.day));
  }

  /** The New York wall-clock fields of t, re-read by Date.UTC, give t's wall-clock time without its milliseconds. */
  lemma WallClockAsUtc(z: Zone, t: int)
    requires !TwoDigitYear(GetNyParts(z, t).year)
    ensures var p := GetNyParts(z, t);
            DateUtc(p.year, p.month - 1, p.day, p.hour, p.minute, p.second) == LocalMs(z, t) - t % MsPerSecond
  {
    var p := GetNyParts(z, t);
    NyPartsDay(z, t);
    NyPartsClock(z, t);
    DateUtcOfDate(Date(p.year, p.month, p.day), p.hour, p.minute, p.second);
    var l := LocalMs(z, t);
    assert l == NyDay(z, t) * MsPerDay + l % MsPerDay;
  }

  /** getNyOffsetMs: t minus its New York wall-clock fields read as UTC. */
  function GetNyOffsetMs(z: Zone, t: int): int {
    var p := GetNyParts(z, t);
    t - DateUtc(p.year, p.month - 1, p.day, p.hour, p.minute, p.second)
  }

  /**
   * The offset getNyOffsetMs measures is the zone offset t was projected with,
   * plus t's milliseconds, which the wall-clock fields drop.
   */
  lemma GetNyOffsetMsIsOffset(z: Zone, t: int)
    requires !TwoDigitYear(GetNyParts(z, t).year)
    ensures GetNyOffsetMs(z, t) == MsPerSecond * z(t) + t % MsPerSecond
  {
    WallClockAsUtc(z, t);
  }

  // ---------------------------------------------------------------------------
  // Date strings

  /** pad: the decimal digits of a value, left-padded with "0" to two characters. */
  function Pad(v: int): (r: string)
    ensures 0 <= v <= 99 ==> |r| == 2 && AllDigits(r) && NumberValue(r) == Some(v)
  {
    var digits := IntToString(v);
    var r := PadStart(digits, 2, '0');
    if 0 <= v <= 99 then
      DecimalStringLength(v);
      DecimalStringRoundTrip(v);
      if v < 10 then
        assert r == ['0'] + digits;
        DigitsValueLeadingZero(digits);
        r
      else
        r
    else
      r
  }

  lemma DigitsValueLeadingZero(s: string)
    requires |s| == 1 && AllDigits(s)
    ensures AllDigits(['0'] + s) && DigitsValue(['0'] + s) == DigitsValue(s)
  {
    var t := ['0'] + s;
    assert t[..1] == ['0'] && t[..1][..0] == [] && s[..0] == [];
  }

  /** The text `${year}-${pad(month)}-${pad(day)}` that getWeekStart and isoDate build. */
  function FormatYmd(y: int, m: int, d: int): string {
    IntToString(y) + "-" + Pad(m) + "-" + Pad(d)
  }

  /** The strings `^\d{4}-\d{2}-\d{2}$` matches: four digits, a hyphen, two digits, a hyphen, two digits. */
  predicate IsIsoDateShape(s: string) {
    |s| == 10 && s[4] == '-' && s[7] == '-'
    && AllDigits(s[..4]) && AllDigits(s[5..7]) && AllDigits(s[8..])
  }

  /** The year, month and day written in a date of that shape. */
  function IsoFields(s: string): Date
    requires IsIsoDateShape(s)
  {
    Date(DigitsValue(s[..4]), DigitsValue(s[5..7]), DigitsValue(s[8..]))
  }

  lemma JoinDateParts(y: string, m: string, d: string)
    requires |y| == 4 && |m| == 2 && |d| == 2
    ensures var s := y + "-" + m + "-" + d;
            |s| == 10 && s[..4] == y && s[4] == '-' && s[5..7] == m && s[7] == '-' && s[8..] == d
  {
  }

  /** A four-digit year with a month and day below 100 is written in that shape, and reads back. */
  lemma FormatYmdShape(y: int, m: int, d: int)
    requires 1000 <= y <= 9999 && 0 <= m <= 99 && 0 <= d <= 99
    ensures IsIsoDateShape(FormatYmd(y, m, d))
    ensures IsoFields(FormatYmd(y, m, d)) == Date(y, m, d)
  {
    var ys, ms, ds := IntToString(y), Pad(m), Pad(d);
    assert ys == DecimalString(y);
    DecimalStringLength(y);
    DecimalStringRoundTrip(y);
    JoinDateParts(ys, ms, ds);
  }

  /** The first ten characters: `slice(0, 10)`. */
  function DatePrefix(s: string): string {
    s[..Min(10, |s|)]
  }

  /** A field `!y` rejects: a missing part, NaN, or 0. */
  predicate Falsy(v: Option<int>) {
    v.None? || v.value == 0
  }

  /**
   * parseISODateOnlyToUTCDate: the first ten characters split on "-", each part
   * read by Number; a missing, NaN or zero year, month or day is an error
   * naming the whole input, anything else is Date.UTC of the three at
   * midnight, rolling over as Date.UTC does.
   */
  function ParseIsoDateOnly(s: string): (r: Result<int, string>)
    ensures r.Err? ==> r.error == "Invalid weekStartDate: " + s
  {
    var parts := Split(DatePrefix(s), '-');
    if |parts| < 3 then Err("Invalid weekStartDate: " + s)
    else
      var y, m, d := NumberValue(parts[0]), NumberValue(parts[1]), NumberValue(parts[2]);
      if Falsy(y) || Falsy(m) || Falsy(d) then Err("Invalid weekStartDate: " + s)
      else Ok(DateUtc(y.value, m.value - 1, d.value, 0, 0, 0))
  }

  /** What parseISODateOnlyToUTCDate returns is a UTC midnight: a whole number of days. */
  lemma ParseIsoDateOnlyMidnight(s: string)
    ensures ParseIsoDateOnly(s).Ok? ==> ParseIsoDateOnly(s).value % MsPerDay == 0
  {
    var parts := Split(DatePrefix(s), '-');
    if ParseIsoDateOnly(s).Ok? {
      var y, m, d := NumberValue(parts[0]), NumberValue(parts[1]), NumberValue(parts[2]);
      DateUtcMidnight(y.value, m.value - 1, d.value);
    }
  }

  /**
   * On a date of the shape `YYYY-MM-DD` naming year y, month m and day d,
   * parseISODateOnlyToUTCDate fails exactly when a field is zero, and
   * otherwise gives Date.UTC of the fields.
   */
  lemma ParseIsoDateOnlyOfShape(s: string, y: int, m: int, d: int)
    requires IsIsoDateShape(s) && IsoFields(s) == Date(y, m, d)
    ensures ParseIsoDateOnly(s)
            == if y == 0 || m == 0 || d == 0 then Err("Invalid weekStartDate: " + s)
               else Ok(DateUtc(y, m - 1, d, 0, 0, 0))
  {
    IsoDateSplits(s);
    assert NumberValue(s[..4]) == Some(y) && NumberValue(s[5..7]) == Some(m) && NumberValue(s[8..]) == Some(d);
  }

  /** A string of the date shape is its own first ten characters and splits on '-' into its three fields. */
  lemma IsoDateSplits(s: string)
    requires IsIsoDateShape(s)
    ensures DatePrefix(s) == s && Split(s, '-') == [s[..4], s[5..7], s[8..]]
  {
    var ys, ms, ds := s[..4], s[5..7], s[8..];
    assert DatePrefix(s) == s;
    assert s == ys + ['-'] + (ms + ['-'] + ds);
    assert '-' !in ys && '-' !in ms && '-' !in ds by {
      assert forall c :: c in ys ==> IsDigit(c);
      assert forall c :: c in ms ==> IsDigit(c);
      assert forall c :: c in ds ==> IsDigit(c);
    }
    SplitAfterPart(ys, ms + ['-'] + ds, '-');
    SplitAfterPart(ms, ds, '-');
    SplitWithoutSeparator(ds, '-');
  }

  /** `${y}-${pad(m)}-${pad(d)}` with a four-digit year and non-zero month and day reads back as Date.UTC of the three. */
  lemma ParseFormatted(y: int, m: int, d: int)
    requires 1000 <= y <= 9999 && 1 <= m <= 99 && 1 <= d <= 99
    ensures ParseIsoDateOnly(FormatYmd(y, m, d)) == Ok(DateUtc(y, m - 1, d, 0, 0, 0))
  {
    FormatYmdShape(y, m, d);
    ParseIsoDateOnlyOfShape(FormatYmd(y, m, d), y, m, d);
  }

  /** Everything after the tenth character is ignored, but for the error message. */
  lemma ParseIsoDateOnlyIgnoresTail(a: string, b: string)
    requires |a| >= 10
    ensures ParseIsoDateOnly(a + b).Ok? == ParseIsoDateOnly(a).Ok?
    ensures ParseIsoDateOnly(a).Ok? ==> ParseIsoDateOnly(a + b) == ParseIsoDateOnly(a)
  {
    assert DatePrefix(a + b) == DatePrefix(a);
  }

  /** A date string with no hyphen in its first ten characters has too few parts. */
  lemma ParseIsoDateOnlyNeedsHyphens(s: string)
    requires '-' !in DatePrefix(s)
    ensures ParseIsoDateOnly(s) == Err("Invalid weekStartDate: " + s)
  {
    SplitWithoutSeparator(DatePrefix(s), '-');
  }

  /** A day past the end of the month, such as 2023-02-29, is read as the first of the next month. */
  lemma ParseIsoDateOnlyRollsOver(y: int, m: int)
    requires 1000 <= y <= 9999 && 1 <= m <= 11
    ensures ParseIsoDateOnly(FormatYmd(y, m, DaysInMonth(y, m) + 1)) == ParseIsoDateOnly(FormatYmd(y, m + 1, 1))
    ensures ParseIsoDateOnly(FormatYmd(y, m + 1, 1)).Ok?
  {
    ParseFormatted(y, m, DaysInMonth(y, m) + 1);
    ParseFormatted(y, m + 1, 1);
    DateUtcRollsOver(y, m);
  }

  /** isoDate: t's New York calendar date as `${year}-${pad(month)}-${pad(day)}`. */
  function IsoDate(z: Zone, t: int): string {
    var p := GetNyParts(z, t);
    FormatYmd(p.year, p.month, p.day)
  }

  /** For four-digit years, isoDate writes `YYYY-MM-DD` naming t's New York calendar date. */
  lemma IsoDateNamesNyDate(z: Zone, t: int)
    requires 1000 <= GetNyParts(z, t).year <= 9999
    ensures IsIsoDateShape(IsoDate(z, t)) && IsoFields(IsoDate(z, t)) == CivilFromDays(NyDay(z, t))
  {
    var p := GetNyParts(z, t);
    FormatYmdShape(p.year, p.month, p.day);
    NyPartsDate(z, t);
  }

  /** isoDate and parseISODateOnlyToUTCDate round-trip: the text reads back as the UTC midnight of t's New York date. */
  lemma IsoDateRoundTrip(z: Zone, t: int)
    requires 1000 <= GetNyParts(z, t).year <= 9999
    ensures ParseIsoDateOnly(IsoDate(z, t)) == Ok(NyDay(z, t) * MsPerDay)
  {
    var p := GetNyParts(z, t);
    FormattedDateRoundTrip(p.year, p.month, p.day);
    NyPartsDay(z, t);
  }

  /** A valid date with a four-digit year, written and read back, is the UTC midnight of its day number. */
  lemma FormattedDateRoundTrip(y: int, m: int, d: int)
    requires IsValidDate(Date(y, m, d)) && 1000 <= y <= 9999
    ensures ParseIsoDateOnly(FormatYmd(y, m, d)) == Ok(DaysFromCivil(Date(y, m, d)) * MsPerDay)
  {
    ParseFormatted(y, m, d);
    DateUtcMidnightOfDate(y, m, d);
  }

  /**
   * A week key is a UTC midnight. New York runs behind UTC, so isoDate of a
   * key names the day before the key's date.
   */
  lemma IsoDateOfUtcMidnight(z: Zone, n: int)
    requires 0 < z(n * MsPerDay) <= 86400
    ensures NyDay(z, n * MsPerDay) == n - 1
    ensures var p := GetNyParts(z, n * MsPerDay);
            Date(p.year, p.month, p.day) == CivilFromDays(n - 1)
  {
    var t := n * MsPerDay;
    DayIs(LocalMs(z, t), n - 1, MsPerDay - MsPerSecond * z(t));
    NyPartsDate(z, t);
  }

  /** Day number of the Monday on or before day n. */
  function MondayOnOrBefore(n: int): (m: int)
    ensures WeekdayOf(m) == 1 && n - 6 <= m <= n
  {
    var m := n - (WeekdayOf(n) - 1);
    assert m + 3 == 7 * ((n + 3) / 7);
    m
  }

  /**
   * getWeekStart: parseISODateOnlyToUTCDate of t's New York date, less one day
   * per day since Monday.
   */
  function GetWeekStart(z: Zone, t: int): (r: Result<int, string>)
    ensures r.Ok? ==> r.value % MsPerDay == 0
  {
    var p := GetNyParts(z, t);
    var s := FormatYmd(p.year, p.month, p.day);
    ParseIsoDateOnlyMidnight(s);
    DaysBack(ParseIsoDateOnly(s), Max(p.weekday - 1, 0))
  }

  /** A parsed UTC midnight moved back by whole days; a parse error passes through. */
  function DaysBack(parsed: Result<int, string>, days: int): (r: Result<int, string>)
    ensures r.Ok? == parsed.Ok? && (r.Err? ==> r == parsed)
    ensures r.Ok? ==> r.value == parsed.value - days * MsPerDay
    ensures r.Ok? && parsed.value % MsPerDay == 0 ==> r.value % MsPerDay == 0
  {
    match parsed
    case Err(e) => Err(e)
    case Ok(startOfDayUtc) =>
      MidnightMinusDays(startOfDayUtc, days);
      Ok(startOfDayUtc - days * MsPerDay)
  }

  /**
   * For four-digit years, the week start is the UTC midnight of the Monday on
   * or before t's New York date.
   */
  lemma GetWeekStartIsMonday(z: Zone, t: int)
    requires 1000 <= GetNyParts(z, t).year <= 9999
    ensures GetWeekStart(z, t) == Ok(MondayOnOrBefore(NyDay(z, t)) * MsPerDay)
  {
    var n := NyDay(z, t);
    var u := n * MsPerDay;
    calc {
      GetWeekStart(z, t);
      { GetWeekStartOfIsoDate(z, t); }
      DaysBack(ParseIsoDateOnly(IsoDate(z, t)), GetNyParts(z, t).weekday - 1);
      { IsoDateRoundTrip(z, t); NyPartsWeekday(z, t); }
      DaysBack(Ok(u), WeekdayOf(n) - 1);
      { DaysBackToMonday(n); }
      Ok(MondayOnOrBefore(n) * MsPerDay);
    }
  }

  /** getWeekStart steps back from the parsed isoDate by the weekday less one. */
  lemma GetWeekStartOfIsoDate(z: Zone, t: int)
    ensures GetWeekStart(z, t) == DaysBack(ParseIsoDateOnly(IsoDate(z, t)), GetNyParts(z, t).weekday - 1)
  {
  }

  /** Stepping back from a day's midnight by its weekday less one lands on its Monday's midnight. */
  lemma DaysBackToMonday(n: int)
    ensures DaysBack(Ok(n * MsPerDay), WeekdayOf(n) - 1) == Ok(MondayOnOrBefore(n) * MsPerDay)
  {
    MultipleOfDay(n);
    assert n * MsPerDay - (WeekdayOf(n) - 1) * MsPerDay == (n - (WeekdayOf(n) - 1)) * MsPerDay;
  }

  /** All instants whose New York dates fall in one Monday-to-Sunday week share a week start. */
  lemma GetWeekStartSameWeek(z: Zone, t: int, u: int)
    requires 1000 <= GetNyParts(z, t).year <= 9999 && 1000 <= GetNyParts(z, u).year <= 9999
    requires MondayOnOrBefore(NyDay(z, t)) <= NyDay(z, u) < MondayOnOrBefore(NyDay(z, t)) + 7
    ensures GetWeekStart(z, u) == GetWeekStart(z, t)
  {
    GetWeekStartIsMonday(z, t);
    GetWeekStartIsMonday(z, u);
    SameMonday(NyDay(z, t), NyDay(z, u));
  }

  /** Days of one Monday-to-Sunday week have the same Monday. */
  lemma SameMonday(n: int, k: int)
    requires MondayOnOrBefore(n) <= k < MondayOnOrBefore(n) + 7
    ensures MondayOnOrBefore(k) == MondayOnOrBefore(n)
  {
    var mn, mk := MondayOnOrBefore(n), MondayOnOrBefore(k);
    assert (mn + 3) % 7 == 0 && (mk + 3) % 7 == 0;
  }

  /** getDayIndex: days since Monday in New York; the clamp at 0 never applies. */
  function GetDayIndex(z: Zone, t: int): (i: int)
    ensures 0 <= i <= 6 && i == GetNyParts(z, t).weekday - 1
  {
    Max(GetNyParts(z, t).weekday - 1, 0)
  }

  /**
   * dayRange, as written: UTC midnight of t's New York date minus the offset,
   * and the last millisecond of the 24 hours from there.
   */
  function DayRange(z: Zone, t: int): (range: (int, int))
    ensures range.1 - range.0 == MsPerDay - 1
  {
    var p := GetNyParts(z, t);
    var startMs := DateUtc(p.year, p.month - 1, p.day, 0, 0, 0) - GetNyOffsetMs(z, t);
    (startMs, startMs + MsPerDay - 1)
  }

  /**
   * The range starts where adding back the offset reaches the UTC midnight of
   * t's New York date, and holds t only when t's time of day plus twice the
   * zone offset stays within the day: in New York (offset 4 or 5 hours) it
   * misses every instant from 14:00 or 15:00 local time on.
   */
  lemma DayRangeContainsIff(z: Zone, t: int)
    requires !TwoDigitYear(GetNyParts(z, t).year)
    ensures DayRange(z, t).0 + GetNyOffsetMs(z, t) == NyDay(z, t) * MsPerDay
    ensures var (start, end) := DayRange(z, t);
            start <= t <= end
            <==> 0 <= LocalMs(z, t) % MsPerDay + 2 * MsPerSecond * z(t) + t % MsPerSecond < MsPerDay
  {
    var p := GetNyParts(z, t);
    NyPartsDay(z, t);
    GetNyOffsetMsIsOffset(z, t);
    DateUtcOfDate(Date(p.year, p.month, p.day), 0, 0, 0);
    var l := LocalMs(z, t);
    assert l == NyDay(z, t) * MsPerDay + l % MsPerDay;
  }

  /** 2024-01-15 15:00 EST (20:00 UTC) lies outside the range dayRange builds for it. */
  lemma DayRangeMissesAfternoon()
    ensures var t := 19737 * MsPerDay + 20 * MsPerHour;
            var (start, end) := DayRange(_ => 18000, t);
            t > end
  {
    var z: Zone := _ => 18000;
    var t := 19737 * MsPerDay + 20 * MsPerHour;
    assert LocalMs(z, t) == 19737 * MsPerDay + 15 * MsPerHour;
    assert NyDay(z, t) == 19737;
    assert DaysFromCivil(Date(2024, 1, 15)) == 19737;
    DaysFromCivilRoundTrip(Date(2024, 1, 15));
    NyPartsDate(z, t);
    DayRangeContainsIff(z, t);
  }

  /**
   * dayRange with the offset added rather than subtracted: the range starts in
   * the first second of t's New York day (at t's millisecond), spans 24 hours
   * and holds t.
   */
  function DayRangeCorrected(z: Zone, t: int): (range: (int, int))
    ensures range.1 - range.0 == MsPerDay - 1
  {
    var p := GetNyParts(z, t);
    var startMs := DateUtc(p.year, p.month - 1, p.day, 0, 0, 0) + GetNyOffsetMs(z, t);
    (startMs, startMs + MsPerDay - 1)
  }

  /** The corrected range opens at t's New York midnight, shifted by t's milliseconds, and holds t. */
  lemma DayRangeCorrectedContains(z: Zone, t: int)
    requires !TwoDigitYear(GetNyParts(z, t).year)
    ensures DayRangeCorrected(z, t).0 == NyDay(z, t) * MsPerDay + MsPerSecond * z(t) + t % MsPerSecond
    ensures DayRangeCorrected(z, t).0 <= t <= DayRangeCorrected(z, t).1
  {
    var p := GetNyParts(z, t);
    NyPartsDay(z, t);
    GetNyOffsetMsIsOffset(z, t);
    DateUtcOfDate(Date(p.year, p.month, p.day), 0, 0, 0);
    LocalMillis(z, t);
    var l := LocalMs(z, t);
    assert l == NyDay(z, t) * MsPerDay + l % MsPerDay;
  }
}
