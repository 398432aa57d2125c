/**
 * The gameplay rules of lib/game.ts: the points table, clue unlocking, word
 * normalisation, the Friday cut-off, the once-a-day check, the Monday check
 * on week dates and the day index.
 */
module Game {
  import opened Wrappers
  import opened Civil
  import opened Text
  import opened NyTime
  import opened Records
  import opened Seqs

  /** POINTS_BY_DAY: points for a correct guess, Monday first. */
  const PointsByDay: seq<int> := [5, 4, 3, 2, 1]

  /** `POINTS_BY_DAY[dayIndex] ?? 0`: 5 on Monday down to 1 on Friday, and 0 for any other index. */
  function PointsFor(dayIndex: int): (p: int)
    ensures 0 <= p <= 5
    ensures 0 <= dayIndex < 5 ==> p == 5 - dayIndex
    ensures !(0 <= dayIndex < 5) ==> p == 0
  {
    if 0 <= dayIndex < |PointsByDay| then PointsByDay[dayIndex] else 0
  }

  /** An earlier day is worth strictly more. */
  lemma PointsDecrease(i: int, j: int)
    requires 0 <= i < j < 5
    ensures PointsFor(i) > PointsFor(j) > 0
  {
  }

  /** The end index `Array.prototype.slice(0, end)` stops at on a list of length len. */
  function SliceEnd(len: nat, end: int): (k: nat)
    ensures k <= len
  {
    if end < 0 then (if len + end < 0 then 0 else len + end)
    else if end < len then end
    else len
  }

  /**
   * availableClues: the clues unlocked on day dayIndex (Monday = 0). From
   * index -1 on, the first dayIndex + 1 clues, all five from Friday on.
   */
  function AvailableClues(week: WeekWord, dayIndex: int): (r: seq<string>)
    ensures r <= week.Clues()
    ensures dayIndex >= -1 ==> |r| == Min(dayIndex + 1, 5)
  {
    var clues := week.Clues();
    clues[..SliceEnd(|clues|, Min(dayIndex + 1, |clues|))]
  }

  /** More days unlock at least as many clues, and from Friday on all of them. */
  lemma AvailableCluesGrow(week: WeekWord, i: int, j: int)
    requires -1 <= i <= j
    ensures AvailableClues(week, i) <= AvailableClues(week, j)
    ensures j >= 4 ==> AvailableClues(week, j) == week.Clues()
  {
  }

  /** On Wednesday (index 2) the first three clues are shown. */
  lemma WednesdayShowsThree(week: WeekWord)
    ensures AvailableClues(week, 2) == [week.clue1, week.clue2, week.clue3]
  {
  }

  /**
   * A negative index below -1 reaches slice as a negative end, which counts
   * from the end of the list: index -3 would unlock three clues.
   */
  lemma AvailableCluesNegativeEnd(week: WeekWord)
    ensures |AvailableClues(week, -3)| == 3 && |AvailableClues(week, -6)| == 0
  {
  }

  /** isAfterFriday on the New York fields of an instant. */
  predicate IsAfterFriday(p: NyParts) {
    p.weekday > 5 || (p.weekday == 5 && p.hour >= 23 && p.minute >= 59)
  }

  /**
   * An instant is after Friday exactly when its New York date is a Saturday
   * or Sunday, or it falls in the last minute (23:59) of a Friday.
   */
  lemma IsAfterFridayIff(z: Zone, t: int)
    ensures IsAfterFriday(GetNyParts(z, t))
            <==> WeekdayOf(NyDay(z, t)) >= 6
                 || (WeekdayOf(NyDay(z, t)) == 5 && LocalMs(z, t) % MsPerDay >= 23 * MsPerHour + 59 * MsPerMinute)
  {
    var p := GetNyParts(z, t);
    NyPartsWeekday(z, t);
    NyPartsClock(z, t);
    LastMinute(p.hour, p.minute, p.second * MsPerSecond + t % MsPerSecond, LocalMs(z, t) % MsPerDay);
  }

  /** A time of day is in its last minute exactly when its hour is 23 and its minute 59. */
  lemma LastMinute(h: int, mi: int, rest: int, x: int)
    requires 0 <= h < 24 && 0 <= mi < 60 && 0 <= rest < MsPerMinute
    requires x == h * MsPerHour + mi * MsPerMinute + rest
    ensures h >= 23 && mi >= 59 <==> x >= 23 * MsPerHour + 59 * MsPerMinute
  {
  }

  /**
   * normalizeWord: trimmed and lower-cased; the result has no surrounding
   * whitespace.
   */
  function NormalizeWord(value: string): (r: string)
    ensures |r| <= |value|
    ensures r != [] ==> !IsWhitespace(r[0]) && !IsWhitespace(r[|r| - 1])
  {
    var t := Trim(value);
    LowerEnds(t);
    Lower(t)
  }

  /** A normalised word has no upper-case letters. */
  lemma NormalizeWordLowerCase(value: string)
    ensures forall i :: 0 <= i < |NormalizeWord(value)| ==> !IsUpper(NormalizeWord(value)[i])
  {
  }

  /** The normal form is the trimmed input with each of its letters A to Z lower-cased and every other character kept. */
  lemma NormalizeWordIs(value: string)
    ensures |NormalizeWord(value)| == |Trim(value)|
    ensures forall i :: 0 <= i < |Trim(value)| ==> NormalizeWord(value)[i] == LowerChar(Trim(value)[i])
  {
  }

  /**
   * Two inputs normalise alike exactly when their trimmed forms have the same
   * length and agree letter by letter up to ASCII case.
   */
  lemma NormalizeWordMatches(a: string, b: string)
    ensures NormalizeWord(a) == NormalizeWord(b)
            <==> |Trim(a)| == |Trim(b)| && forall i :: 0 <= i < |Trim(a)| ==> LowerChar(Trim(a)[i]) == LowerChar(Trim(b)[i])
  {
    assert NormalizeWord(a) == Lower(Trim(a)) && NormalizeWord(b) == Lower(Trim(b));
    LowerEqual(Trim(a), Trim(b));
  }

  /** A padded, capitalised word normalises to its lower-case form, and an all-capitals guess matches it. */
  lemma NormalizeWordExample()
    ensures NormalizeWord(" Teamwork ") == "teamwork"
    ensures NormalizeWord("TEAMWORK") == NormalizeWord("teamwork")
  {
    PaddedExample();
    CapitalsExample();
  }

  /** " Teamwork " normalises to "teamwork". */
  lemma PaddedExample()
    ensures NormalizeWord(" Teamwork ") == "teamwork"
  {
    TrimPadded();
    LowerIsTeamwork("Teamwork");
    assert NormalizeWord(" Teamwork ") == Lower(Trim(" Teamwork "));
  }

  /** "TEAMWORK" and "teamwork" both normalise to "teamwork". */
  lemma CapitalsExample()
    ensures NormalizeWord("TEAMWORK") == NormalizeWord("teamwork")
  {
    CapitalsNormalize();
    LowerCaseNormalizes();
  }

  /** "TEAMWORK" normalises to "teamwork". */
  lemma CapitalsNormalize()
    ensures NormalizeWord("TEAMWORK") == "teamwork"
  {
    LowerIsTeamwork("TEAMWORK");
  }

  /** "teamwork" is its own normal form. */
  lemma LowerCaseNormalizes()
    ensures NormalizeWord("teamwork") == "teamwork"
  {
    LowerIsTeamwork("teamwork");
  }

  /** trim drops the one space on each side of " Teamwork ". */
  lemma TrimPadded()
    ensures Trim(" Teamwork ") == "Teamwork"
  {
    var padded := " Teamwork ";
    var tail := "Teamwork ";
    assert padded[1..] == tail;
    assert IsWhitespace(padded[0]) && !IsWhitespace(tail[0]);
    assert TrimStart(padded) == TrimStart(tail) == tail;
    assert tail[..|tail| - 1] == "Teamwork";
    assert IsWhitespace(tail[|tail| - 1]);
    assert TrimEnd(tail) == TrimEnd("Teamwork") == "Teamwork";
  }

  /** A word whose ends are not whitespace and whose letters lower-case to "teamwork" normalises to "teamwork". */
  lemma LowerIsTeamwork(w: string)
    requires |w| == 8 && !IsWhitespace(w[0]) && !IsWhitespace(w[7])
    requires LowerChar(w[0]) == 't' && LowerChar(w[1]) == 'e' && LowerChar(w[2]) == 'a' && LowerChar(w[3]) == 'm'
    requires LowerChar(w[4]) == 'w' && LowerChar(w[5]) == 'o' && LowerChar(w[6]) == 'r' && LowerChar(w[7]) == 'k'
    ensures NormalizeWord(w) == "teamwork"
  {
    assert Trim(w) == w;
    assert Lower(w) == "teamwork";
  }

  /** Normalising a normalised word changes nothing. */
  lemma NormalizeWordIdempotent(value: string)
    ensures NormalizeWord(NormalizeWord(value)) == NormalizeWord(value)
  {
    var n := NormalizeWord(value);
    assert Trim(n) == n;
    LowerIdempotent(Trim(value));
  }

  /** Trimming before normalising changes nothing: normalizeWord trims itself. */
  lemma NormalizeTrimmed(value: string)
    ensures NormalizeWord(Trim(value)) == NormalizeWord(value)
  {
    var t := Trim(value);
    assert Trim(t) == t;
  }

  /** hasGuessedToday: some guess bears the isoDate of instant now. */
  function HasGuessedToday(z: Zone, guesses: seq<Guess>, now: int): bool {
    Any(guesses, SameIsoDate(z, now))
  }

  /** Whether a guess bears the isoDate of instant now. */
  function SameIsoDate(z: Zone, now: int): Guess -> bool {
    (g: Guess) => IsoDate(z, g.createdAt) == IsoDate(z, now)
  }

  /** No guesses, no guess today; and more guesses never turn a day's guess into none. */
  lemma HasGuessedTodayMonotone(z: Zone, guesses: seq<Guess>, more: seq<Guess>, now: int)
    ensures !HasGuessedToday(z, [], now)
    ensures HasGuessedToday(z, guesses, now) ==> HasGuessedToday(z, guesses + more, now)
  {
    var sameDay := SameIsoDate(z, now);
    if Any(guesses, sameDay) {
      var i :| 0 <= i < |guesses| && sameDay(guesses[i]);
      assert (guesses + more)[i] == guesses[i];
    }
  }

  /** For four-digit years, two instants have the same isoDate exactly when they fall on the same New York day. */
  lemma IsoDateSameDay(z: Zone, a: int, b: int)
    requires 1000 <= GetNyParts(z, a).year <= 9999 && 1000 <= GetNyParts(z, b).year <= 9999
    ensures IsoDate(z, a) == IsoDate(z, b) <==> NyDay(z, a) == NyDay(z, b)
  {
    IsoDateNamesNyDate(z, a);
    IsoDateNamesNyDate(z, b);
    CivilFromDaysRoundTrip(NyDay(z, a));
    CivilFromDaysRoundTrip(NyDay(z, b));
  }

  /** For four-digit years, hasGuessedToday holds exactly when some guess shares now's New York day. */
  lemma HasGuessedTodayIff(z: Zone, guesses: seq<Guess>, now: int)
    requires 1000 <= GetNyParts(z, now).year <= 9999
    requires forall i :: 0 <= i < |guesses| ==> 1000 <= GetNyParts(z, guesses[i].createdAt).year <= 9999
    ensures HasGuessedToday(z, guesses, now) <==> exists i :: 0 <= i < |guesses| && NyDay(z, guesses[i].createdAt) == NyDay(z, now)
  {
    forall i | 0 <= i < |guesses|
      ensures IsoDate(z, guesses[i].createdAt) == IsoDate(z, now) <==> NyDay(z, guesses[i].createdAt) == NyDay(z, now)
    {
      IsoDateSameDay(z, guesses[i].createdAt, now);
    }
  }

  /** The message ensureMonday throws. */
  const MondayMessage: string := "weekStartDate must be a Monday (YYYY-MM-DD)"

  /**
   * ensureMonday on a date string: a `YYYY-MM-DD` naming a real calendar date
   * that is a Monday passes; anything else is rejected with MondayMessage.
   */
  function EnsureMonday(date: string): (r: Result<(), string>)
    ensures r.Err? ==> r.error == MondayMessage
  {
    if IsIsoDateShape(date) && IsValidDate(IsoFields(date)) && WeekdayOf(DaysFromCivil(IsoFields(date))) == 1
    then Ok(())
    else Err(MondayMessage)
  }

  /** A valid date with a four-digit year, written `YYYY-MM-DD`, passes ensureMonday exactly when it is a Monday. */
  lemma EnsureMondayIff(y: int, m: int, d: int)
    requires IsValidDate(Date(y, m, d)) && 1000 <= y <= 9999
    ensures EnsureMonday(FormatYmd(y, m, d)).Ok? <==> WeekdayOf(DaysFromCivil(Date(y, m, d))) == 1
  {
    FormatYmdShape(y, m, d);
  }

  /**
   * A date ensureMonday accepts, outside the years 0 to 99, reads back through
   * parseISODateOnlyToUTCDate as the UTC midnight of a Monday.
   */
  lemma EnsureMondayParses(date: string)
    requires EnsureMonday(date).Ok? && !TwoDigitYear(IsoFields(date).year)
    ensures ParseIsoDateOnly(date) == Ok(DaysFromCivil(IsoFields(date)) * MsPerDay)
    ensures WeekdayOf(DaysFromCivil(IsoFields(date))) == 1
  {
    var f := IsoFields(date);
    ParseIsoDateOnlyOfShape(date, f.year, f.month, f.day);
    DateUtcMidnightOfDate(f.year, f.month, f.day);
  }

  /** dayIndexForDate: the New York weekday less one, Monday = 0, unclamped. */
  function DayIndexForDate(p: NyParts): int {
    p.weekday - 1
  }

  /** On the fields of an instant, dayIndexForDate agrees with getDayIndex: 0 to 6, and 5 and 6 at the weekend. */
  lemma DayIndexForDateIsDayIndex(z: Zone, t: int)
    ensures DayIndexForDate(GetNyParts(z, t)) == GetDayIndex(z, t)
    ensures 0 <= DayIndexForDate(GetNyParts(z, t)) <= 6
    ensures DayIndexForDate(GetNyParts(z, t)) == WeekdayOf(NyDay(z, t)) - 1
  {
    NyPartsWeekday(z, t);
  }
}
