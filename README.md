# Words with Teammates — a verified model of the weekly word game's core

Words with Teammates is a weekly team word game. Each week has one secret word
and five clues, keyed by the UTC midnight of the week's Monday in New York.
Clues unlock one per weekday. A player may guess once per New York day, and a
correct guess scores 5 points on Monday, falling to 1 point on Friday. The
leaderboard on the home page ranks players by the points they have scored.

This project models, in Dafny, the part of the system that decides all of this:

- **`Civil`** (`civil.dfy`): the proleptic Gregorian calendar on day numbers.
  It holds civil-from-days and days-from-civil, proved mutually inverse, the
  weekday of a day, and JavaScript's `Date.UTC`, including its roll-over of an
  out-of-range day.
- **`Text`** (`text.dfy`): the string operations the code relies on: `trim`,
  `toLowerCase`, `split`, `padStart`, integer-to-decimal and `Number` on digit
  strings.
- **`NyTime`** (`time.dfy`, modelling `lib/time.ts`): the New York calendar
  helpers `getNyParts`, `getNyOffsetMs`, `weekdayNameToNumber`,
  `parseISODateOnlyToUTCDate`, `getWeekStart`, `getDayIndex`, `dayRange` and
  `isoDate`.
- **`Game`** (`game.dfy`, modelling `lib/game.ts`): the points table, clue
  unlocking, `isAfterFriday`, `normalizeWord`, `hasGuessedToday`,
  `ensureMonday` and `dayIndexForDate`.
- **`Records`**, **`Seqs`**, **`Wrappers`**: the database rows, `some` and
  `findIndex` on sequences, and `Option`/`Result`.
- **`Store`** (`store.dfy`): the two tables the routes write, as classes whose
  contents change in place.
  - `WeekTable` is a map keyed by the unique `weekStartDate`, with
    `findUnique` and `upsert`.
  - `GuessLog` is the guess table in creation order, with `create`.
- **`GuessRoute`** (`guess_route.dfy`, modelling `app/api/guess/route.ts`):
  `POST /api/guess` as a method on the tables. It is specified by a pure
  decision function, and lemmas say when a guess is recorded, what is
  recorded and which gate answers first.
- **`WeeksRoute`** (`weeks_route.dfy`, modelling
  `app/api/admin/weeks/route.ts`): the admin `POST` that creates or replaces
  one week.
- **`ImportRoute`** (`import_route.dfy`, modelling
  `app/api/admin/import/route.ts`): the admin bulk import.
  - `startOfDayInTimeZone` is modelled with its two-step offset refinement
    loop.
  - The all-or-nothing validation loop is followed by the upsert loop.
- **`Home`** (`home.dfy`, modelling `app/page.tsx`): `buildLeaderboard`,
  meaning the sum-to-standing map, a stable sort by points, the top ten and
  the current player's rank. It also covers the guess form's `disabled` flag.

The time zone is a parameter. A `Zone` maps a UTC instant, in epoch
milliseconds, to the number of seconds New York wall-clock time lies behind
UTC at that instant. The model therefore holds for every offset function, not
only today's rules for America/New_York. Clock readings, the session,
authentication and the profanity filter are parameters too.

## Model

| member | source | states |
|---|---|---|
| Civil.WeekdayOf | lib/time.ts:57 | the weekday of a day number is 1 (Monday) to 7 (Sunday) |
| Civil.CivilFromDaysRoundTrip | lib/time.ts:54-68 | every day number has a valid calendar date, and that date's day number is the day itself |
| Civil.DaysFromCivilRoundTrip | lib/time.ts:72-79 | turning a valid date into its day number and back gives the same date |
| Civil.DaysFromCivilInjective | lib/time.ts:72-79 | two valid dates share a day number exactly when they are the same date |
| Civil.DateUtcOfDate | lib/time.ts:72-79 | for a month 1-12 outside years 0-99, Date.UTC of a date and a time is its day number in milliseconds plus the hours, minutes and seconds |
| Civil.DateUtcMidnight | lib/time.ts:87 | Date.UTC at 00:00:00 is a whole number of days, whatever the month and day |
| Civil.DateUtcMidnightOfDate | lib/time.ts:87 | Date.UTC at the midnight of a date outside years 0-99 is that date's day number times a day |
| Civil.DateUtcRollsOver | lib/time.ts:87 | Date.UTC reads the day after a month's last as the 1st of the next month, and month index 12 as January of the next year |
| Civil.MakeDayRollsOver | lib/time.ts:87 | the same roll-over on day numbers, for every year |
| Text.Trim | lib/game.ts:28 | trim's result neither starts nor ends with whitespace and is no longer than its input; a string without whitespace at either end is unchanged |
| Text.TrimIsSlice | lib/game.ts:28 | trim's result is a contiguous slice of the input with only whitespace before and after it |
| Text.Lower | lib/game.ts:28 | toLowerCase keeps the length, turns each letter A to Z into its lower-case letter 32 code points on, keeps every other character, leaves no upper-case letter and keeps whitespace where it was |
| Text.LowerEqual | lib/game.ts:28 | two strings lower-case alike exactly when they have the same length and agree position by position up to ASCII case |
| Text.LowerIdempotent | lib/time.ts:34 | lower-casing twice is the same as lower-casing once |
| Text.DecimalString | lib/time.ts:30 | a non-negative integer is written as one or more digits, with a leading zero only for 0 |
| Text.DecimalStringRoundTrip | lib/time.ts:85 | Number reads back the integer whose decimal digits were written |
| Text.PadStart | lib/time.ts:30 | padStart fills on the left with the fill character up to the width and ends with the original string |
| Text.Split | lib/time.ts:85 | split gives at least one part, no part holds the separator, and joining the parts with the separator gives back the string |
| Text.SplitAfterPart | lib/time.ts:85 | a separator-free part before the separator is split off as the first part |
| NyTime.WeekdayNameToNumber | lib/time.ts:33-52 | the result is 0 to 7; it is 0 exactly when the lower-cased name is not one of mon to sun, and otherwise the lower-cased name's place in mon to sun |
| NyTime.WeekdayNameToNumberAnyCase | lib/time.ts:34 | the letter case of the name does not matter |
| NyTime.WeekdayNameNumbers | lib/time.ts:57 | the short English name of a day's weekday maps back to that day's weekday number (Monday = 1) |
| NyTime.GetNyParts | lib/time.ts:54-68 | the fields form a valid calendar date, an hour 0-23, a minute and second 0-59 and a weekday 1-7 |
| NyTime.NyPartsDay | lib/time.ts:54-68 | the day number of the date fields is the instant's New York day number |
| NyTime.NyPartsDate | lib/time.ts:54-68 | the date fields name the civil date of the New York day number |
| NyTime.NyPartsClock | lib/time.ts:58-65 | hour, minute and second, with the instant's milliseconds, make up the New York time of day |
| NyTime.NyPartsWeekday | lib/time.ts:57 | the weekday field is the weekday of the instant's New York date |
| NyTime.WallClockAsUtc | lib/time.ts:72-79 | reading the wall-clock fields as UTC gives the local time less its milliseconds |
| NyTime.GetNyOffsetMsIsOffset | lib/time.ts:70-81 | getNyOffsetMs is the zone offset in milliseconds plus the instant's own milliseconds, which the wall-clock fields drop |
| NyTime.Pad | lib/time.ts:29-31 | a value 0-99 is written as two digits that read back as the value |
| NyTime.FormatYmdShape | lib/time.ts:97 | a four-digit year with month and day below 100 is written as YYYY-MM-DD carrying those fields |
| NyTime.ParseIsoDateOnly | lib/time.ts:83-88 | a failure names the whole input in its message |
| NyTime.ParseIsoDateOnlyMidnight | lib/time.ts:87 | every parsed date is a UTC midnight |
| NyTime.ParseIsoDateOnlyOfShape | lib/time.ts:84-87 | a YYYY-MM-DD string fails exactly when its year, month or day is zero, and otherwise parses to Date.UTC(year, month - 1, day) |
| NyTime.IsoDateSplits | lib/time.ts:84-85 | a YYYY-MM-DD string is its own ten-character prefix and splits at '-' into its three fields |
| NyTime.ParseFormatted | lib/time.ts:83-88 | a written four-digit date with month and day 1-99 parses to its Date.UTC midnight |
| NyTime.ParseIsoDateOnlyIgnoresTail | lib/time.ts:84 | characters after the tenth change nothing except the error message |
| NyTime.ParseIsoDateOnlyNeedsHyphens | lib/time.ts:85-86 | without a '-' in the first ten characters the month is missing and the parse fails |
| NyTime.ParseIsoDateOnlyRollsOver | lib/time.ts:87 | the day after a month's last parses as the 1st of the next month, and is not an error |
| NyTime.IsoDateNamesNyDate | lib/time.ts:115-118 | for a four-digit year, isoDate is a YYYY-MM-DD string naming the instant's New York date |
| NyTime.IsoDateRoundTrip | lib/time.ts:115-118 | parsing isoDate gives the UTC midnight of the instant's New York date |
| NyTime.FormattedDateRoundTrip | lib/time.ts:83-88 | a valid four-digit date, written and parsed back, is the UTC midnight of its day number |
| NyTime.IsoDateOfUtcMidnight | lib/time.ts:115-118 | when New York is 0-24 hours behind UTC, the New York date of a UTC midnight is the day before |
| NyTime.MondayOnOrBefore | lib/time.ts:96 | the result is a Monday at most six days before the given day |
| NyTime.GetWeekStart | lib/time.ts:94-99 | whenever it succeeds, the week start is a UTC midnight |
| NyTime.GetWeekStartIsMonday | lib/time.ts:94-99 | for four-digit years it is the UTC midnight of the Monday on or before the instant's New York date |
| NyTime.GetWeekStartOfIsoDate | lib/time.ts:94-99 | it goes back weekday - 1 days from the parsed isoDate |
| NyTime.GetWeekStartSameWeek | lib/time.ts:94-99 | two instants whose New York dates fall in one Monday-to-Sunday week have the same week start |
| NyTime.GetDayIndex | lib/time.ts:101-104 | the result is 0-6 and equals the New York weekday less one, so the clamp never fires |
| NyTime.DayRange | lib/time.ts:106-113 | the range spans exactly one day less a millisecond |
| NyTime.DayRangeContainsIff | lib/time.ts:106-113 | adding getNyOffsetMs to the start gives the UTC midnight of the New York date; the range holds the instant exactly when its New York time of day plus twice the offset stays within one day |
| NyTime.DayRangeMissesAfternoon | lib/time.ts:108-111 | at 15:00 New York time on 2024-01-15 (offset 5 hours), dayRange's range ends before the instant |
| NyTime.DayRangeCorrected | lib/time.ts:106-113 | the corrected range also spans one day less a millisecond |
| NyTime.DayRangeCorrectedContains | lib/time.ts:106-113 | the corrected range opens at the New York midnight (shifted by the instant's milliseconds) and always holds the instant |
| Game.PointsFor | lib/game.ts:5 | points are 0 to 5: 5 - dayIndex on Monday to Friday (dayIndex 0-4), and 0 otherwise |
| Game.PointsDecrease | lib/game.ts:5 | points strictly decrease from Monday to Friday and stay positive |
| Game.AvailableClues | lib/game.ts:18-21 | the visible clues are a prefix of the five, min(dayIndex + 1, 5) long for dayIndex at least -1 |
| Game.AvailableCluesGrow | lib/game.ts:20 | a later day never shows fewer clues, and from Friday on all five are shown |
| Game.WednesdayShowsThree | lib/game.ts:18-21 | on Wednesday the first three clues are shown |
| Game.AvailableCluesNegativeEnd | lib/game.ts:20 | a negative slice end counts from the back, so dayIndex -3 shows three clues and -6 shows none |
| Game.IsAfterFridayIff | lib/game.ts:23-25 | an instant is after Friday exactly when its New York date is a Saturday or Sunday, or it is 23:59 on a Friday |
| Game.NormalizeWord | lib/game.ts:27-29 | the normal form is no longer than the input and has no whitespace at either end |
| Game.NormalizeWordIs | lib/game.ts:27-29 | the normal form has the trimmed input's length and holds, at each position, the lower-case form of the trimmed input's character there |
| Game.NormalizeWordMatches | lib/game.ts:27-29 | two words normalise alike exactly when their trimmed forms have the same length and agree letter by letter up to ASCII case |
| Game.NormalizeWordExample | lib/game.ts:27-29 | " Teamwork " normalises to "teamwork", and "TEAMWORK" normalises as "teamwork" does |
| Game.NormalizeWordLowerCase | lib/game.ts:27-29 | the normal form has no upper-case letter |
| Game.NormalizeWordIdempotent | lib/game.ts:27-29 | normalising twice is the same as normalising once |
| Game.NormalizeTrimmed | lib/game.ts:27-29 | normalising the trimmed guess is the same as normalising the raw guess |
| Game.HasGuessedTodayMonotone | lib/game.ts:31-34 | once a player has guessed today, more guesses keep it so |
| Game.HasGuessedTodayIff | lib/game.ts:31-34 | for four-digit years, hasGuessedToday holds exactly when some guess shares the current New York date |
| Game.IsoDateSameDay | lib/game.ts:33 | two instants have the same isoDate exactly when they share a New York day |
| Game.EnsureMonday | lib/game.ts:11-16 | every rejection carries the Monday error message |
| Game.EnsureMondayIff | lib/game.ts:11-16 | a valid four-digit date written YYYY-MM-DD passes exactly when it is a Monday |
| Game.EnsureMondayParses | lib/game.ts:11-16 | a date that passes parses as the UTC midnight of a Monday |
| Game.DayIndexForDateIsDayIndex | lib/game.ts:36-39 | dayIndexForDate is 0-6, the New York weekday less one, and agrees with getDayIndex |
| Store.WeekTable.FindUnique | app/api/guess/route.ts:33 | a week is found exactly when its key is in the table, and the found row is the stored one |
| Store.WeekTable.Upsert | app/api/admin/weeks/route.ts:73-77 | the row under its weekStartDate is created or replaced, no other row changes, and every row stays under its own key |
| Store.GuessLog.Create | app/api/guess/route.ts:67-75 | the new guess is appended after all earlier ones |
| GuessRoute.PostGuess | app/api/guess/route.ts:14-82 | the reply is the decision for the old log, a guess is appended exactly when one is recorded, and no player gets a second correct guess for a week |
| GuessRoute.GuessForWeek | app/api/guess/route.ts:41-75 | after the earlier gates, the solved and daily checks decide, and the guess is recorded and appended only past both |
| GuessRoute.RecordKeepsOneCorrect | app/api/guess/route.ts:41-47 | appending a guess that is wrong, or right from a player who has not solved the week, keeps one correct guess per player and week |
| GuessRoute.RecordedIff | app/api/guess/route.ts:15-59 | a guess is recorded exactly when the player is signed in, the guess is 1-40 characters and clean after trim, the current week exists and is published, the player has not solved it, and the player has no guess in today's window |
| GuessRoute.SolvedBeforeDaily | app/api/guess/route.ts:41-47 | a player who has solved the week gets "You already solved this week!" whether or not they guessed today |
| GuessRoute.GuessedTodayBlocks | app/api/guess/route.ts:49-59 | an unsolved player with a guess inside today's window gets 400 "You already guessed today" |
| GuessRoute.RecordedEntry | app/api/guess/route.ts:61-81 | the recorded guess belongs to the player and week, holds the trimmed text and the current time, is correct exactly when the normalised words match, scores 6 - weekday on a correct weekday guess and 0 otherwise, and is announced by the matching message |
| GuessRoute.GuessRecords | app/api/guess/route.ts:41-75 | once the solved and daily gates pass, the outcome is the record |
| GuessRoute.RecordGuessFields | app/api/guess/route.ts:61-75 | the record holds the player, the week key, the guess, the time, is correct exactly when the guess and the secret word normalise alike, and follows the points rule |
| GuessRoute.RecordGuessMessage | app/api/guess/route.ts:77-81 | the reply message follows the correctness and the points |
| GuessRoute.CorrectMondayReply | app/api/guess/route.ts:78 | a correct Monday guess is answered "Correct! +5 points" |
| WeeksRoute.PostWeek | app/api/admin/weeks/route.ts:29-80 | the reply is the decision, the table changes only by upserting the saved row, and every row stays under its own key |
| WeeksRoute.NotMondayRefused | app/api/admin/weeks/route.ts:41-45 | a well-formed payload whose date is not a Monday gets 400 with the Monday message |
| WeeksRoute.HyphenBeforeProfanity | app/api/admin/weeks/route.ts:47-53 | a hyphenated secret word is refused for the hyphen, before any profanity check |
| WeeksRoute.SavedRow | app/api/admin/weeks/route.ts:41-71 | a saved week passed every check; its word is normalised, its clues and flag are copied, and its key is the parsed date, which is the UTC midnight of a Monday |
| WeeksRoute.PostTwiceIdempotent | app/api/admin/weeks/route.ts:73-77 | posting the same request twice leaves the table as posting it once |
| WeeksRoute.SavedKeyIsWeekStart | app/api/admin/weeks/route.ts:60 | a saved week's key is what getWeekStart gives for every instant in that Monday-to-Sunday New York week |
| WeeksRoute.MondayOfItsWeek | lib/time.ts:96 | a Monday is the Monday on or before each of the seven days from it |
| ImportRoute.GetOffsetMinutesIsOpposite | app/api/admin/import/route.ts:28-57 | getOffsetMinutes is minus getNyOffsetMs, in minutes |
| ImportRoute.EstimateStep | app/api/admin/import/route.ts:59-64 | each round of the loop refines the previous estimate |
| ImportRoute.StartOfDay | app/api/admin/import/route.ts:15-67 | it fails exactly when the first ten characters are not YYYY-MM-DD, with the message naming the input |
| ImportRoute.StartOfDayInTimeZone | app/api/admin/import/route.ts:15-67 | the looping method computes StartOfDay |
| ImportRoute.RefineStep | app/api/admin/import/route.ts:62-63 | one refinement step computes Refine |
| ImportRoute.StepIsRefine | app/api/admin/import/route.ts:62-63 | the step written with getOffsetMinutes is the same as the one written with getNyOffsetMs |
| ImportRoute.StartOfDayIgnoresTail | app/api/admin/import/route.ts:16-17 | characters after the tenth change nothing |
| ImportRoute.RefinementSettles | app/api/admin/import/route.ts:59-64 | when the offset is the same at the estimate and at the answer, two rounds reach the instant whose New York wall clock reads the local midnight |
| ImportRoute.StartOfDayIsNyMidnight | app/api/admin/import/route.ts:9-66 | for a valid date outside years 0-99, the result is the New York midnight of that date |
| ImportRoute.MidnightParts | app/api/admin/import/route.ts:9-14 | an instant at New York local midnight of a day shows that day's date at 00:00:00 |
| ImportRoute.ImportKeyMissesWeekStart | app/api/admin/import/route.ts:136 | the import key of a date is the weeks route's key shifted by the offset; with an offset between zero and a day, getWeekStart never returns it |
| ImportRoute.PrepareAllSpec | app/api/admin/import/route.ts:106-145 | success gives one row per item, each item's check; failure is the first failing item's response after only successes |
| ImportRoute.PrepareAllStops | app/api/admin/import/route.ts:106-145 | once a prefix of items fails, the whole batch fails with the same response |
| ImportRoute.PostImport | app/api/admin/import/route.ts:82-156 | the reply is the decision, the table changes only by the upserts of a fully valid batch, and every row stays under its own key |
| ImportRoute.PrepareRecords | app/api/admin/import/route.ts:106-145 | the validation loop computes PrepareAll over the checks |
| ImportRoute.UpsertRows | app/api/admin/import/route.ts:147-153 | the upsert loop leaves UpsertAll of the old table |
| ImportRoute.PrepareItem | app/api/admin/import/route.ts:107-144 | one item's checks, in order, give the item's checker result |
| ImportRoute.UpsertAllKeys | app/api/admin/import/route.ts:147-153 | after the upserts, the keys are the old keys together with the keys of the rows |
| ImportRoute.UpsertAllLastWins | app/api/admin/import/route.ts:147-153 | for a key upserted more than once, the last row wins |
| ImportRoute.UpsertAllKeepsOthers | app/api/admin/import/route.ts:147-153 | a row whose key no item names is left alone |
| ImportRoute.UpsertAllKeyed | app/api/admin/import/route.ts:147-153 | every row stays under its own weekStartDate |
| ImportRoute.CheckItemFailsWith400 | app/api/admin/import/route.ts:107-136 | for the `YYYY-MM-DD` dates the model's EnsureMonday accepts, every item failure is a 400: such a date always has a start of day, so the 500 branch is not reached |
| ImportRoute.CheckItemRow | app/api/admin/import/route.ts:135-144 | an accepted item passed every check; its row has the normalised word, the clues, isPublished only when true, and the New York start of its date as key |
| ImportRoute.ImportedCountsItems | app/api/admin/import/route.ts:155 | an import answers "Imported n week(s)" with one row per item |
| ImportRoute.ImportedWeekNeverCurrent | app/api/admin/import/route.ts:136 | with New York behind UTC, an imported week is keyed by an instant getWeekStart never returns |
| Home.DisplayNameOf | app/page.tsx:199 | the name is the first matching user's display name, or "Unknown" when none matches |
| Home.ToStanding | app/page.tsx:196-200 | a standing keeps the user id and counts a missing sum as 0 points |
| Home.ToStandings | app/page.tsx:195-200 | one standing per summed row, in the same order |
| Home.NonIncreasingOrdered | app/page.tsx:201 | in a sorted board, every earlier entry has at least the points of every later one |
| Home.NonIncreasingPrefix | app/page.tsx:205 | a prefix of a sorted board is sorted |
| Home.Insert | app/page.tsx:201 | inserting into a sorted board keeps it sorted and adds one entry |
| Home.InsertPermutes | app/page.tsx:201 | insertion adds exactly the new entry |
| Home.InsertWithPoints | app/page.tsx:201 | insertion puts the new entry before all entries of equal points |
| Home.SortByPoints | app/page.tsx:201 | the sorted board is non-increasing in points and as long as its input |
| Home.SortPermutes | app/page.tsx:201 | sorting is a permutation of its input |
| Home.SortStable | app/page.tsx:201 | entries of equal points keep their input order |
| Home.LeaderboardTopTen | app/page.tsx:195-205 | the board shows the first ten of the sorted standings, or all when fewer; they are sorted and the sorted standings are a permutation of the summed rows |
| Home.LeaderboardRank | app/page.tsx:203-207 | the rank is missing exactly when no one is signed in or the player has no standing, with 0 points then; otherwise it is one plus the player's first position, with that entry's points |
| Home.BoardRank | app/page.tsx:203-207 | the same rank and points statement on any board |
| Home.PlayerIndex | app/page.tsx:203 | findIndex gives -1 exactly when the player is not on the board, and otherwise the player's first position |
| Home.GuessesOf | app/page.tsx:67-70 | the player's guesses for the week are exactly those of the log with that player and week |
| Home.AnyOfGuessesOf | app/page.tsx:72-74 | a property holds for one of the player's guesses exactly when it holds for a log guess of that player and week |
| Game.IsAfterFriday | lib/game.ts:23-25 | isAfterFriday on the New York fields of an instant; its meaning is proved in Game.IsAfterFridayIff |
| Game.HasGuessedToday | lib/game.ts:31-34 | hasGuessedToday: some guess has the New York isoDate of now; proved equivalent to a shared New York day in Game.HasGuessedTodayIff and monotone in Game.HasGuessedTodayMonotone |
| Game.DayIndexForDate | lib/game.ts:36-39 | dayIndexForDate: the New York weekday less one, without a clamp; Game.DayIndexForDateIsDayIndex proves it is 0-6 and equals getDayIndex |
| NyTime.GetNyOffsetMs | lib/time.ts:70-81 | getNyOffsetMs: the instant minus its wall-clock fields read as UTC; NyTime.GetNyOffsetMsIsOffset proves it is the zone offset plus the instant's milliseconds |
| NyTime.IsoDate | lib/time.ts:115-118 | isoDate: the YYYY-MM-DD of the New York fields; NyTime.IsoDateNamesNyDate and NyTime.IsoDateRoundTrip prove it names and parses back to the New York date |
| ImportRoute.GetOffsetMinutes | app/api/admin/import/route.ts:28-57 | getOffsetMinutes: the wall clock read as UTC minus the instant, in minutes; ImportRoute.GetOffsetMinutesIsOpposite relates it to getNyOffsetMs |
| GuessRoute.Decide | app/api/guess/route.ts:14-82 | the handler's gates in source order and the reply each gives; GuessRoute.RecordedIff, SolvedBeforeDaily, GuessedTodayBlocks and RecordedEntry state its behaviour, and GuessRoute.PostGuess is proved to answer as it does |
| WeeksRoute.DecideWeek | app/api/admin/weeks/route.ts:29-38 | the admin and schema gates (401, then 400 "Invalid payload") before CheckWeek; WeeksRoute.PostWeek is proved to answer as it does |
| WeeksRoute.CheckWeek | app/api/admin/weeks/route.ts:41-77 | the Monday, hyphen, secret and clue checks in source order, then the row under the parsed date; WeeksRoute.NotMondayRefused, HyphenBeforeProfanity and SavedRow state its behaviour |
| ImportRoute.CheckItem | app/api/admin/import/route.ts:107-144 | one item's checks in source order and its row under the New York start of its date; ImportRoute.CheckItemFailsWith400 and CheckItemRow state its behaviour |
| ImportRoute.DecideImport | app/api/admin/import/route.ts:82-145 | the admin and schema gates, then all items checked or the first failure's reply; ImportRoute.PostImport is proved to answer as it does, and ImportedCountsItems gives the count |
| Home.BuildLeaderboard | app/page.tsx:182-209 | buildLeaderboard after its queries: the sorted standings' first ten and the player's rank and points; proved in Home.LeaderboardTopTen and Home.LeaderboardRank |
| Home.GuessFormDisabled | app/page.tsx:126 | the form's disabled flag, a guess inside today's window or a correct guess, over the player's guesses; Home.FormDisabledIffGuessRejected proves it agrees with the guess route's refusals |
| Home.FormDisabledIffGuessRejected | app/page.tsx:72-74 | the guess form is disabled exactly when the guess route would refuse for "solved" or "already guessed today" |

## Left out

- The IANA time-zone database and `Intl.DateTimeFormat` are not modelled. The New York offset is the parameter `Zone`, an arbitrary function from instant to seconds behind UTC, so the lemmas hold for every offset rule.
- Luxon is not modelled. `ensureMonday` parses with Luxon in ISO mode; `Game.EnsureMonday` accepts exactly a `YYYY-MM-DD` string naming a real calendar date that is a Monday. Luxon's other ISO forms (week dates, ordinal dates, a time part) are not covered.
- `ImportRoute.CheckItemFailsWith400`: the never-500 statement holds only for `YYYY-MM-DD` dates. Luxon's `fromISO` also accepts a Monday in other ISO forms, such as the basic form `20240101` (8 characters, so the schema's `min(8)` passes) or the week date `2024-W01-1`. `ensureMonday` passes for those, and the regex in `startOfDayInTimeZone` (app/api/admin/import/route.ts:17-19) then throws at line 136, outside the `try` at lines 107-111, so the request ends in an unhandled 500. The model's `CheckItem` reaches its 500 branch only for such input, which its `EnsureMonday` never accepts.
- `Number` is modelled on digit strings only. Signs, decimals, exponents and surrounding whitespace, which `Number` would also accept, are left out.
- `Text.Lower` maps only ASCII `A`-`Z`; `toLowerCase` on other scripts is not modelled.
- `GuessRoute.ValidBody` and the weeks and import schemas' length bounds count characters. zod's `.min`/`.max` count UTF-16 code units (the JavaScript `.length`), so a string of characters outside the Basic Multilingual Plane counts twice as long in the source: 21 such characters pass the guess schema here but are "Invalid input" there.
- `Date.UTC`'s treatment of years 0-99 as 1900-1999 is modelled in `Civil.FullYear`. Lemmas about dates that depend on it require a year outside 0-99 (`TwoDigitYear`).
- TimeClip (the range limit of ±8.64e15 ms) and the hour "24" that some engines print for midnight are not modelled.
- `ImportRoute.GetOffsetMinutesIsOpposite` treats the floating-point arithmetic in `getOffsetMinutes` as exact real arithmetic.
- `ImportRoute.RefinementSettles` requires the offset to be the same at the first estimate and at the answer. Near a daylight-saving change the loop's two rounds are modelled, but no closed form is stated.
- Authentication, the session cookie, the profanity list and the request-body parsers are parameters: `admin`, `session`, `profane` and an `Option` body, where `None` stands for a body the schema rejects.
- Prisma is modelled as the in-memory tables of `Store`. A week's database id is its `weekStartDate` key. Concurrency between requests, and a database failure part-way through the import's upserts, are not modelled.
- `GuessRoute.PostGuess`: app/api/guess/route.ts calls `getSession`, `nowInTz`, `getWeekStart`, `dayRange` and `POINTS_BY_DAY` (lines 15, 31, 32, 39 and 65) without importing them, so as written every request fails at line 15. The model takes the session as a parameter and the clock readings as the `Clock` input (the week key, the New York weekday and today's window), as if those names were imported from lib/auth, lib/time and lib/game.
- `GuessRoute.Decide`: line 32 calls Luxon's `toJSDate` on the plain `Date` that `getWeekStart` returns, which would throw. The model uses `getWeekStart`'s instant itself as the key looked up.
- `GuessRoute.RecordedEntry`: line 64 reads `now.weekday`, a Luxon field, from the plain `Date` that `nowInTz` returns (lib/time.ts:90-92). As written the index is NaN, so `POINTS_BY_DAY[NaN] ?? 0` scores every correct guess 0. The model takes the weekday from `getNyParts` (the `Clock`'s weekday), so a correct guess scores 5 on Monday down to 1 on Friday.
- `Game.IsAfterFriday`: `isAfterFriday` reads Luxon's `weekday`, `hour` and `minute` from its argument, by default the plain `Date` of `nowInTz` (lib/game.ts:23-24). On a `Date` those are undefined, so as written it is always false. The model reads them from `getNyParts`.
- `Game.HasGuessedToday`: `date.toISODate()` (lib/game.ts:32) does not exist on the default `Date` argument and would throw a TypeError. The model compares the New York `isoDate` of each guess with that of `now`.
- `Game.DayIndexForDate`: `date.weekday` (lib/game.ts:38) is undefined on the `Date` that app/page.tsx:13 passes, so as written the index is NaN. The page would then show 0 points today (line 105) and no clues, because `slice(0, NaN)` is empty. The model takes the weekday from `getNyParts`.
- `Home.BuildLeaderboard`: app/page.tsx:14 calls `getWeekStart(now).toJSDate()`, which would throw on the plain `Date` before the page reaches `buildLeaderboard` or the guess form. The model states the leaderboard and `Home.GuessFormDisabled` for the values the page evidently means to compute.
- `groupBy`'s row order is an input to `Home.BuildLeaderboard`. The sort is proved stable with respect to that order.
- `currentWeekStartIso`, the login and logout routes, `GET /api/admin/weeks`, the recent-guesses list and the page markup are not part of this model.

## Findings

| source | as written | input that shows it | evidently intended | confidence | as-written member | corrected member |
|---|---|---|---|---|---|---|
| lib/time.ts:108-109 | `dayRange` subtracts `getNyOffsetMs` from the UTC midnight of the New York date | zone 5 hours behind UTC, t = 2024-01-15 20:00 UTC (15:00 in New York): the range ends at 2024-01-15 18:59:59.999 UTC, before t | add the offset, so the range covers the New York day from local midnight | not executed | NyTime.DayRangeMissesAfternoon | NyTime.DayRangeCorrectedContains |

Consequences of the finding:

- Under the as-written range, `GuessRoute` and `Home` see a "today" window that ends at 14:00 or 15:00 New York time.
- `NyTime.DayRangeContainsIff` states exactly which instants fall inside that window.
- The guess route's daily limit is stated against whatever window the `Clock` input carries.

A related property is proved, but it is not listed as a finding, because the import route's documentation asks for New York midnight on purpose.

- The import route keys a week by the New York midnight of its Monday.
- The weeks route and `getWeekStart` key it by the UTC midnight.
- While New York is behind UTC, `ImportRoute.ImportedWeekNeverCurrent` proves that no instant's `getWeekStart` finds an imported week.
