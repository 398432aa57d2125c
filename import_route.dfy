/**
 * POST /api/admin/import: an administrator imports a batch of weeks. Every
 * item is checked and turned into a row first, each keyed at the New York
 * midnight of its date by startOfDayInTimeZone; only when all of them pass
 * are the rows upserted, in input order.
 */
module ImportRoute {
  import opened Wrappers
  import opened Civil
  import opened Text
  import opened NyTime
  import opened Records
  import opened Seqs
  import opened Game
  import opened Store

  // ---------------------------------------------------------------------------
  // startOfDayInTimeZone

  /**
   * getOffsetMinutes: the New York wall clock at u read back as UTC, minus u,
   * in minutes. Arithmetic is exact here, where the source uses doubles.
   */
  function GetOffsetMinutes(z: Zone, u: int): real {
    var p := GetNyParts(z, u);
    (DateUtc(p.year, p.month - 1, p.day, p.hour, p.minute, p.second) - u) as real / 60000.0
  }

  /** getOffsetMinutes counts local minus UTC: it is getNyOffsetMs with the sign turned, in minutes. */
  lemma GetOffsetMinutesIsOpposite(z: Zone, u: int)
    ensures GetOffsetMinutes(z, u) * 60000.0 == -(GetNyOffsetMs(z, u) as real)
  {
  }

  /**
   * One refinement step from the estimate u: the local midnight read as UTC,
   * less getOffsetMinutes at u in milliseconds, which is plus getNyOffsetMs at u.
   */
  function Refine(z: Zone, localMidnightAsUtc: int, u: int): int {
    localMidnightAsUtc + GetNyOffsetMs(z, u)
  }

  /** The estimate after k refinement steps from the local midnight read as UTC. */
  function Estimate(z: Zone, localMidnightAsUtc: int, k: nat): int {
    if k == 0 then localMidnightAsUtc
    else Refine(z, localMidnightAsUtc, Estimate(z, localMidnightAsUtc, k - 1))
  }

  /** startOfDayInTimeZone refines its estimate twice. */
  const RefinementSteps: nat := 2

  lemma EstimateStep(z: Zone, localMidnightAsUtc: int, k: nat)
    ensures Estimate(z, localMidnightAsUtc, k + 1) == Refine(z, localMidnightAsUtc, Estimate(z, localMidnightAsUtc, k))
  {
  }

  /**
   * startOfDayInTimeZone: the first ten characters must be `YYYY-MM-DD`, or
   * the call fails naming the whole input; otherwise the estimate after two
   * refinement steps from Date.UTC of the date at midnight.
   */
  function StartOfDay(z: Zone, dateStr: string): (r: Result<int, string>)
    ensures r.Err? <==> !IsIsoDateShape(DatePrefix(dateStr))
    ensures r.Err? ==> r.error == "Invalid date format: " + dateStr
  {
    var ymd := DatePrefix(dateStr);
    if !IsIsoDateShape(ymd) then Err("Invalid date format: " + dateStr)
    else Ok(Estimate(z, LocalMidnightAsUtc(ymd), RefinementSteps))
  }

  /** Date.UTC of the year, month and day a `YYYY-MM-DD` names, at midnight: the local midnight read as if it were UTC. */
  function LocalMidnightAsUtc(ymd: string): int
    requires IsIsoDateShape(ymd)
  {
    var f := IsoFields(ymd);
    DateUtc(f.year, f.month - 1, f.day, 0, 0, 0)
  }

  /** The source's loop: two refinement steps through getOffsetMinutes, each replacing the estimate in place. */
  method StartOfDayInTimeZone(z: Zone, dateStr: string) returns (r: Result<int, string>)
    ensures r == StartOfDay(z, dateStr)
  {
    var ymd := DatePrefix(dateStr);
    if !IsIsoDateShape(ymd) {
      return Err("Invalid date format: " + dateStr);
    }
    var localMidnightAsUtc := LocalMidnightAsUtc(ymd);
    var utcMillis := localMidnightAsUtc;
    for i := 0 to RefinementSteps
      invariant utcMillis == Estimate(z, localMidnightAsUtc, i)
    {
      EstimateStep(z, localMidnightAsUtc, i);
      utcMillis := RefineStep(z, localMidnightAsUtc, utcMillis);
    }
    return Ok(utcMillis);
  }

  /** The loop body: the local midnight read as UTC less getOffsetMinutes at the estimate u, in whole milliseconds. */
  method RefineStep(z: Zone, localMidnightAsUtc: int, u: int) returns (next: int)
    ensures next == Refine(z, localMidnightAsUtc, u)
  {
    var offsetMin := GetOffsetMinutes(z, u);
    StepIsRefine(z, localMidnightAsUtc, u);
    next := localMidnightAsUtc - (offsetMin * 60000.0).Floor;
  }

  /** The source's step, through minutes and back, is the step Refine takes. */
  lemma StepIsRefine(z: Zone, localMidnightAsUtc: int, u: int)
    ensures localMidnightAsUtc - (GetOffsetMinutes(z, u) * 60000.0).Floor == Refine(z, localMidnightAsUtc, u)
  {
    var w := -GetNyOffsetMs(z, u);
    GetOffsetMinutesIsOpposite(z, u);
    assert (w as real).Floor == w;
  }

  /** Only the first ten characters count: anything after a ten-character date changes nothing but the error text. */
  lemma StartOfDayIgnoresTail(z: Zone, a: string, b: string)
    requires |a| == 10
    ensures StartOfDay(z, a + b).Ok? == StartOfDay(z, a).Ok?
    ensures StartOfDay(z, a + b).Ok? ==> StartOfDay(z, a + b) == StartOfDay(z, a)
  {
    assert DatePrefix(a + b) == a == DatePrefix(a);
  }

  /**
   * When the zone offset at the first estimate u equals the one at the local
   * midnight l read as UTC, both steps land on u, l shifted by that offset,
   * and there the New York wall clock reads exactly l.
   */
  lemma RefinementSettles(z: Zone, l: int, n: int, u: int)
    requires l == n * MsPerDay && u == l + MsPerSecond * z(l) && z(u) == z(l)
    requires !TwoDigitYear(GetNyParts(z, l).year) && !TwoDigitYear(CivilFromDays(n).year)
    ensures Estimate(z, l, RefinementSteps) == u
    ensures LocalMs(z, u) == l
  {
    SecondEstimate(z, l, u, n);
    FirstEstimate(z, l, n);
    TwoStepsSettle(z, l, u);
  }

  /** If the first step reaches u1 and a step from u1 stays there, the two steps end at u1. */
  lemma TwoStepsSettle(z: Zone, l: int, u1: int)
    requires Refine(z, l, l) == u1 && Refine(z, l, u1) == u1
    ensures Estimate(z, l, RefinementSteps) == u1
  {
    EstimateStep(z, l, 0);
    EstimateStep(z, l, 1);
  }

  /** A midnight is a whole number of seconds. */
  lemma MidnightWholeSeconds(l: int, n: int)
    requires l == n * MsPerDay
    ensures l % MsPerSecond == 0
  {
    assert l == (n * 86400) * 1000;
  }

  /** The first step from a midnight L moves it by the zone offset at L. */
  lemma FirstEstimate(z: Zone, l: int, n: int)
    requires l == n * MsPerDay && !TwoDigitYear(GetNyParts(z, l).year)
    ensures Refine(z, l, l) == l + MsPerSecond * z(l)
  {
    MidnightWholeSeconds(l, n);
    GetNyOffsetMsIsOffset(z, l);
  }

  /** Where the offset has not changed since L, the first estimate shows L on the wall clock and the second step keeps it. */
  lemma SecondEstimate(z: Zone, l: int, u1: int, n: int)
    requires l == n * MsPerDay && !TwoDigitYear(CivilFromDays(n).year)
    requires u1 == l + MsPerSecond * z(l) && z(u1) == z(l)
    ensures LocalMs(z, u1) == l
    ensures Refine(z, l, u1) == u1
  {
    MidnightWholeSeconds(l, n);
    assert u1 % MsPerSecond == 0 by {
      ShiftMillis(l, z(l));
    }
    assert LocalMs(z, u1) == l;
    DayIs(l, n, 0);
    PartsYearOfDay(z, u1, n);
    GetNyOffsetMsIsOffset(z, u1);
  }

  /** The year in t's New York parts is the year of its day number. */
  lemma PartsYearOfDay(z: Zone, t: int, n: int)
    requires NyDay(z, t) == n
    ensures GetNyParts(z, t).year == CivilFromDays(n).year
  {
    NyPartsDate(z, t);
  }

  /** The local midnight of a well-formed date outside the years 0 to 99 is the UTC midnight of its day number. */
  lemma LocalMidnightOfFields(ymd: string, y: int, m: int, d: int)
    requires IsIsoDateShape(ymd) && IsoFields(ymd) == Date(y, m, d)
    requires 1 <= m <= 12 && !TwoDigitYear(y)
    ensures LocalMidnightAsUtc(ymd) == DaysFromCivil(Date(y, m, d)) * MsPerDay
  {
    DateUtcMidnightOfDate(y, m, d);
  }

  /**
   * The promise of startOfDayInTimeZone, where the zone offset does not change
   * between the local midnight read as UTC, l, and the first estimate u, l
   * shifted by the offset at l: the result is u, and the New York wall clock
   * there reads l, the midnight of the requested date, whose day number is n.
   */
  lemma StartOfDayIsNyMidnight(z: Zone, dateStr: string, y: int, m: int, d: int, n: int, l: int, u: int)
    requires IsIsoDateShape(DatePrefix(dateStr)) && IsoFields(DatePrefix(dateStr)) == Date(y, m, d)
    requires IsValidDate(Date(y, m, d)) && !TwoDigitYear(y)
    requires n == DaysFromCivil(Date(y, m, d)) && l == n * MsPerDay
    requires u == l + MsPerSecond * z(l) && z(u) == z(l) && !TwoDigitYear(GetNyParts(z, l).year)
    ensures StartOfDay(z, dateStr) == Ok(u)
    ensures LocalMs(z, u) == l
  {
    DaysFromCivilRoundTrip(Date(y, m, d));
    RefinementSettles(z, l, n, u);
    StartOfDayOfDate(z, dateStr, y, m, d, l, u);
  }

  /** For a well-formed date outside the years 0 to 99, startOfDayInTimeZone ends where the refinement from the UTC midnight l of that date ends. */
  lemma StartOfDayOfDate(z: Zone, dateStr: string, y: int, m: int, d: int, l: int, u: int)
    requires IsIsoDateShape(DatePrefix(dateStr)) && IsoFields(DatePrefix(dateStr)) == Date(y, m, d)
    requires 1 <= m <= 12 && !TwoDigitYear(y)
    requires l == DaysFromCivil(Date(y, m, d)) * MsPerDay && Estimate(z, l, RefinementSteps) == u
    ensures StartOfDay(z, dateStr) == Ok(u)
  {
    LocalMidnightOfFields(DatePrefix(dateStr), y, m, d);
  }

  /** An instant whose New York wall clock reads the midnight of day n shows n's date at 00:00:00. */
  lemma MidnightParts(z: Zone, u: int, n: int)
    requires LocalMs(z, u) == n * MsPerDay
    ensures var p := GetNyParts(z, u);
            Date(p.year, p.month, p.day) == CivilFromDays(n) && p.hour == 0 && p.minute == 0 && p.second == 0
  {
    DayIs(LocalMs(z, u), n, 0);
    NyPartsDate(z, u);
    NyPartsClock(z, u);
  }

  /**
   * For the same `YYYY-MM-DD`, the import route's key u is the weeks route's
   * key l shifted by the New York offset; when that offset is strictly between
   * zero and a day, u is no UTC midnight, so getWeekStart never returns it and
   * the week it keys is never found.
   */
  lemma ImportKeyMissesWeekStart(z: Zone, date: string, y: int, m: int, d: int, l: int, u: int)
    requires IsIsoDateShape(date) && IsoFields(date) == Date(y, m, d)
    requires IsValidDate(Date(y, m, d)) && !TwoDigitYear(y)
    requires l == DaysFromCivil(Date(y, m, d)) * MsPerDay
    requires u == l + MsPerSecond * z(l) && z(u) == z(l) && !TwoDigitYear(GetNyParts(z, l).year)
    ensures ParseIsoDateOnly(date) == Ok(l) && StartOfDay(z, date) == Ok(u)
    ensures 0 < z(l) < 86400 ==> forall t :: GetWeekStart(z, t) != Ok(u)
  {
    assert DatePrefix(date) == date;
    StartOfDayIsNyMidnight(z, date, y, m, d, DaysFromCivil(Date(y, m, d)), l, u);
    ParseIsoDateOnlyOfShape(date, y, m, d);
    DateUtcMidnightOfDate(y, m, d);
    if 0 < z(l) < 86400 {
      OffMidnight(z, DaysFromCivil(Date(y, m, d)), l, u);
    }
  }

  /** An instant a whole number of days plus part of a day after the epoch is never a week start. */
  lemma OffMidnight(z: Zone, n: int, l: int, u: int)
    requires l == n * MsPerDay && u == l + MsPerSecond * z(l) && 0 < z(l) < 86400
    ensures forall t :: GetWeekStart(z, t) != Ok(u)
  {
    MultipleOfDay(n);
    DayIs(u, n, MsPerSecond * z(l));
  }

  // ---------------------------------------------------------------------------
  // The POST handler

  /** One item of the request body, once its fields have the types the schema names; isPublished may be absent. */
  datatype ImportItem = ImportItem(
    weekStartDate: string,
    secretWord: string,
    clue1: string, clue2: string, clue3: string, clue4: string, clue5: string,
    isPublished: Option<bool>)
  {
    /** The clues in unlocking order. */
    function Clues(): seq<string> {
      ClueList(clue1, clue2, clue3, clue4, clue5)
    }
  }

  /** The schema's length bounds on one item: a date of at least 8 characters and a secret of at least 2. */
  predicate ValidItem(item: ImportItem) {
    |item.weekStartDate| >= 8 && |item.secretWord| >= 2
  }

  /** The handler's outcome: an early reply, or the rows it prepared, in input order. */
  datatype ImportOutcome = Refused(reply: Response) | Imported(rows: seq<WeekWord>)

  /**
   * The checks on one item, in the loop's order, and the row it becomes: the
   * Monday rule, a hyphen in the secret, a blocked secret, a blocked clue; then
   * the key startOfDayInTimeZone gives its date, whose failure would escape
   * the loop as a server error.
   */
  function CheckItem(z: Zone, profane: string -> bool, item: ImportItem): Result<WeekWord, Response> {
    match EnsureMonday(item.weekStartDate)
    case Err(message) => Err(Response(400, message))
    case Ok(_) =>
      if '-' in item.secretWord then Err(Response(400, "Secret word for " + item.weekStartDate + " contains hyphen"))
      else if profane(item.secretWord) then Err(Response(400, "Secret word for " + item.weekStartDate + " is not allowed"))
      else if Any(item.Clues(), profane) then Err(Response(400, "Clues for " + item.weekStartDate + " contain profanity"))
      else
        match StartOfDay(z, item.weekStartDate)
        case Err(message) => Err(Response(500, message))
        case Ok(key) => Ok(ItemRow(key, item))
  }

  /** The row prepared for an item under key: the normalised secret, the clues as given, and isPublished or false. */
  function ItemRow(key: int, item: ImportItem): WeekWord {
    WeekWord(key, NormalizeWord(item.secretWord), item.clue1, item.clue2, item.clue3, item.clue4, item.clue5, item.isPublished.GetOr(false))
  }

  /** CheckItem as the function value the first loop applies to each item. */
  function Checker(z: Zone, profane: string -> bool): ImportItem -> Result<WeekWord, Response> {
    item => CheckItem(z, profane, item)
  }

  /**
   * The first loop over the items, for the check it applies: either every
   * item passes and yields its row, in order, or the reply of the first item
   * that fails.
   */
  function PrepareAll(check: ImportItem -> Result<WeekWord, Response>, items: seq<ImportItem>): Result<seq<WeekWord>, Response> {
    if items == [] then Ok([])
    else
      var front := items[..|items| - 1];
      match PrepareAll(check, front)
      case Err(reply) => Err(reply)
      case Ok(rows) =>
        match check(items[|items| - 1])
        case Err(reply) => Err(reply)
        case Ok(row) => Ok(rows + [row])
  }

  /**
   * What the first loop yields: when it succeeds, one row per item, each the
   * row that item's check gives; when it fails, the reply of an item whose
   * check fails while every earlier item's check passes.
   */
  lemma {:induction false} PrepareAllSpec(check: ImportItem -> Result<WeekWord, Response>, items: seq<ImportItem>)
    ensures var r := PrepareAll(check, items);
            r.Ok? ==> |r.value| == |items| && forall i :: 0 <= i < |items| ==> check(items[i]) == Ok(r.value[i])
    ensures var r := PrepareAll(check, items);
            r.Err? ==> exists k :: 0 <= k < |items| && check(items[k]) == Err(r.error)
                                   && forall i :: 0 <= i < k ==> check(items[i]).Ok?
  {
    if items != [] {
      var front := items[..|items| - 1];
      PrepareAllSpec(check, front);
      var last := |items| - 1;
      assert forall i :: 0 <= i < last ==> items[i] == front[i];
      match PrepareAll(check, front)
      case Err(reply) =>
        var k :| 0 <= k < |front| && check(front[k]) == Err(reply) && forall i :: 0 <= i < k ==> check(front[i]).Ok?;
        assert check(items[k]) == Err(reply);
      case Ok(rows) =>
        match check(items[last])
        case Err(reply) =>
          assert check(items[last]) == Err(reply);
        case Ok(row) =>
          assert forall i :: 0 <= i < last ==> (rows + [row])[i] == rows[i];
    }
  }

  /** The second loop: each prepared row upserted under its key, in order. */
  function UpsertAll(rows: map<int, WeekWord>, prepared: seq<WeekWord>): map<int, WeekWord> {
    if prepared == [] then rows
    else
      var last := prepared[|prepared| - 1];
      UpsertAll(rows, prepared[..|prepared| - 1])[last.weekStartDate := last]
  }

  /** The handler's decision, for an admin session or not and a body (None when it is not JSON of the right shape). */
  function DecideImport(z: Zone, profane: string -> bool, admin: bool, body: Option<seq<ImportItem>>): ImportOutcome {
    if !admin then Refused(Response(401, "Unauthorized"))
    else if body.None? || exists i :: 0 <= i < |body.value| && !ValidItem(body.value[i]) then Refused(Response(400, "Invalid payload"))
    else
      match PrepareAll(Checker(z, profane), body.value)
      case Err(reply) => Refused(reply)
      case Ok(rows) => Imported(rows)
  }

  /** The reply: an early one as decided, or the count of imported weeks. */
  function ImportReply(out: ImportOutcome): Response {
    match out
    case Refused(reply) => reply
    case Imported(rows) => Response(200, "Imported " + IntToString(|rows|) + " week(s)")
  }

  /** The week table after an outcome: nothing changes unless every item was prepared. */
  function ApplyImport(rows: map<int, WeekWord>, out: ImportOutcome): map<int, WeekWord> {
    match out
    case Refused(_) => rows
    case Imported(prepared) => UpsertAll(rows, prepared)
  }

  /**
   * The handler: it replies as DecideImport says, and the week table changes
   * only when every item passed, by the upserts of all prepared rows.
   */
  method PostImport(table: WeekTable, z: Zone, profane: string -> bool, admin: bool, body: Option<seq<ImportItem>>)
    returns (reply: Response)
    requires table.Valid()
    modifies table
    ensures table.Valid()
    ensures reply == ImportReply(DecideImport(z, profane, admin, body))
    ensures table.rows == ApplyImport(old(table.rows), DecideImport(z, profane, admin, body))
  {
    if !admin {
      return Response(401, "Unauthorized");
    }
    if body.None? || exists i :: 0 <= i < |body.value| && !ValidItem(body.value[i]) {
      return Response(400, "Invalid payload");
    }
    var prep := PrepareRecords(z, profane, body.value);
    if prep.Err? {
      return prep.error;
    }
    UpsertRows(table, prep.value);
    return Response(200, "Imported " + IntToString(|prep.value|) + " week(s)");
  }

  /** The first loop: each item checked in turn, the first failure returned at once. */
  method PrepareRecords(z: Zone, profane: string -> bool, records: seq<ImportItem>) returns (r: Result<seq<WeekWord>, Response>)
    ensures r == PrepareAll(Checker(z, profane), records)
  {
    var check := Checker(z, profane);
    var prepared: seq<WeekWord> := [];
    for i := 0 to |records|
      invariant PrepareAll(check, records[..i]) == Ok(prepared)
    {
      PrepareStep(check, records, i);
      var checked := PrepareItem(z, profane, records[i]);
      if checked.Err? {
        PrepareAllStops(check, records, i + 1);
        return Err(checked.error);
      }
      prepared := prepared + [checked.value];
    }
    assert records[..|records|] == records;
    return Ok(prepared);
  }

  /** The second loop: each prepared row upserted in turn. */
  method UpsertRows(table: WeekTable, prepared: seq<WeekWord>)
    requires table.Valid()
    modifies table
    ensures table.Valid()
    ensures table.rows == UpsertAll(old(table.rows), prepared)
  {
    for j := 0 to |prepared|
      invariant table.Valid()
      invariant table.rows == UpsertAll(old(table.rows), prepared[..j])
    {
      assert prepared[..j + 1][..j] == prepared[..j];
      table.Upsert(prepared[j]);
    }
    assert prepared[..|prepared|] == prepared;
  }

  /**
   * The body of the first loop on one item: the checks in order, each with
   * its early reply, then the row under the key startOfDayInTimeZone gives.
   */
  method PrepareItem(z: Zone, profane: string -> bool, item: ImportItem) returns (r: Result<WeekWord, Response>)
    ensures r == Checker(z, profane)(item)
  {
    var monday := EnsureMonday(item.weekStartDate);
    if monday.Err? {
      return Err(Response(400, monday.error));
    }
    if '-' in item.secretWord {
      return Err(Response(400, "Secret word for " + item.weekStartDate + " contains hyphen"));
    }
    if profane(item.secretWord) {
      return Err(Response(400, "Secret word for " + item.weekStartDate + " is not allowed"));
    }
    if Any(item.Clues(), profane) {
      return Err(Response(400, "Clues for " + item.weekStartDate + " contain profanity"));
    }
    var key := StartOfDayInTimeZone(z, item.weekStartDate);
    if key.Err? {
      return Err(Response(500, key.error));
    }
    return Ok(ItemRow(key.value, item));
  }

  /** One more item: the prefix through item i is the prefix before it, followed by i's check. */
  lemma PrepareStep(check: ImportItem -> Result<WeekWord, Response>, items: seq<ImportItem>, i: int)
    requires 0 <= i < |items|
    ensures PrepareAll(check, items[..i + 1])
            == match PrepareAll(check, items[..i])
               case Err(reply) => Err(reply)
               case Ok(rows) =>
                 match check(items[i])
                 case Err(reply) => Err(reply)
                 case Ok(row) => Ok(rows + [row])
  {
    assert items[..i + 1][..i] == items[..i];
  }

  /** Once a prefix fails, the whole list fails with the same reply: later items are never looked at. */
  lemma {:induction false} PrepareAllStops(check: ImportItem -> Result<WeekWord, Response>, items: seq<ImportItem>, k: int)
    requires 0 <= k <= |items| && PrepareAll(check, items[..k]).Err?
    ensures PrepareAll(check, items) == PrepareAll(check, items[..k])
    decreases |items|
  {
    if k < |items| {
      var front := items[..|items| - 1];
      assert front[..k] == items[..k];
      PrepareAllStops(check, front, k);
    } else {
      assert items[..k] == items;
    }
  }

  /** The keys after the upserts are the old keys and the keys of the prepared rows. */
  lemma {:induction false} UpsertAllKeys(rows: map<int, WeekWord>, prepared: seq<WeekWord>)
    ensures forall k ::
              k in UpsertAll(rows, prepared) <==> k in rows || exists i :: 0 <= i < |prepared| && prepared[i].weekStartDate == k
  {
    if prepared != [] {
      var front := prepared[..|prepared| - 1];
      var last := prepared[|prepared| - 1];
      UpsertAllKeys(rows, front);
      forall k | k in UpsertAll(rows, prepared)
        ensures k in rows || exists i :: 0 <= i < |prepared| && prepared[i].weekStartDate == k
      {
        if k != last.weekStartDate && k !in rows {
          var i :| 0 <= i < |front| && front[i].weekStartDate == k;
          assert prepared[i] == front[i];
        }
      }
      forall k | k in rows || exists i :: 0 <= i < |prepared| && prepared[i].weekStartDate == k
        ensures k in UpsertAll(rows, prepared)
      {
        if k != last.weekStartDate && k !in rows {
          var i :| 0 <= i < |prepared| && prepared[i].weekStartDate == k;
          assert front[i] == prepared[i];
        }
      }
    }
  }

  /** Under each prepared key sits the last row prepared for it: a later row for the same week replaces an earlier one. */
  lemma {:induction false} UpsertAllLastWins(rows: map<int, WeekWord>, prepared: seq<WeekWord>, i: int)
    requires 0 <= i < |prepared|
    requires forall j :: i < j < |prepared| ==> prepared[j].weekStartDate != prepared[i].weekStartDate
    ensures prepared[i].weekStartDate in UpsertAll(rows, prepared)
    ensures UpsertAll(rows, prepared)[prepared[i].weekStartDate] == prepared[i]
  {
    if i < |prepared| - 1 {
      var front := prepared[..|prepared| - 1];
      assert front[i] == prepared[i];
      forall j | i < j < |front|
        ensures front[j].weekStartDate != front[i].weekStartDate
      {
        assert front[j] == prepared[j];
      }
      UpsertAllLastWins(rows, front, i);
    }
  }

  /** A row under a key no prepared row has is left as it was. */
  lemma {:induction false} UpsertAllKeepsOthers(rows: map<int, WeekWord>, prepared: seq<WeekWord>, k: int)
    requires k in rows && forall i :: 0 <= i < |prepared| ==> prepared[i].weekStartDate != k
    ensures k in UpsertAll(rows, prepared) && UpsertAll(rows, prepared)[k] == rows[k]
  {
    if prepared != [] {
      var front := prepared[..|prepared| - 1];
      forall i | 0 <= i < |front|
        ensures front[i].weekStartDate != k
      {
        assert front[i] == prepared[i];
      }
      UpsertAllKeepsOthers(rows, front, k);
    }
  }

  /** The upserts keep every row under its own weekStartDate. */
  lemma {:induction false} UpsertAllKeyed(rows: map<int, WeekWord>, prepared: seq<WeekWord>)
    requires KeyedByStart(rows)
    ensures KeyedByStart(UpsertAll(rows, prepared))
  {
    if prepared != [] {
      UpsertAllKeyed(rows, prepared[..|prepared| - 1]);
    }
  }

  /** Every reply a check gives is a client error: a date that passes the Monday rule always has a key, so the server-error branch is never taken. */
  lemma CheckItemFailsWith400(z: Zone, profane: string -> bool, item: ImportItem)
    ensures CheckItem(z, profane, item).Err? ==> CheckItem(z, profane, item).error.status == 400
    ensures EnsureMonday(item.weekStartDate).Ok? ==> StartOfDay(z, item.weekStartDate).Ok?
  {
    if EnsureMonday(item.weekStartDate).Ok? {
      assert DatePrefix(item.weekStartDate) == item.weekStartDate;
    }
  }

  /**
   * A prepared row passed every check: its date is a Monday, its secret has no
   * hyphen and is not blocked, and no clue is blocked. It holds the normalised
   * secret, the clues as given and isPublished or false, under the key
   * startOfDayInTimeZone gives for its date.
   */
  lemma CheckItemRow(z: Zone, profane: string -> bool, item: ImportItem)
    requires CheckItem(z, profane, item).Ok?
    ensures var row := CheckItem(z, profane, item).value;
            && EnsureMonday(item.weekStartDate).Ok?
            && '-' !in item.secretWord && !profane(item.secretWord)
            && (forall i :: 0 <= i < 5 ==> !profane(item.Clues()[i]))
            && row.secretWord == NormalizeWord(item.secretWord)
            && row.Clues() == item.Clues()
            && row.isPublished == (item.isPublished == Some(true))
            && StartOfDay(z, item.weekStartDate) == Ok(row.weekStartDate)
  {
  }

  /**
   * The reply to an import that goes through counts every item of the body,
   * and a refused import is answered with its reason; either way the reply
   * is the one the handler sends.
   */
  lemma ImportedCountsItems(z: Zone, profane: string -> bool, body: seq<ImportItem>)
    requires DecideImport(z, profane, true, Some(body)).Imported?
    ensures |DecideImport(z, profane, true, Some(body)).rows| == |body|
    ensures ImportReply(DecideImport(z, profane, true, Some(body))) == Response(200, "Imported " + IntToString(|body|) + " week(s)")
  {
    PrepareAllSpec(Checker(z, profane), body);
  }

  /**
   * An imported week is keyed at the New York midnight of its Monday, so
   * wherever New York is behind UTC by less than a day and the offset holds
   * steady over that midnight, no instant's getWeekStart names its key: the
   * guess route, which looks the current week up by getWeekStart, never
   * finds it.
   */
  lemma ImportedWeekNeverCurrent(z: Zone, profane: string -> bool, item: ImportItem, y: int, m: int, d: int, l: int, u: int)
    requires CheckItem(z, profane, item).Ok?
    requires IsoFields(item.weekStartDate) == Date(y, m, d) && !TwoDigitYear(y)
    requires l == DaysFromCivil(Date(y, m, d)) * MsPerDay
    requires u == l + MsPerSecond * z(l) && z(u) == z(l) && !TwoDigitYear(GetNyParts(z, l).year) && 0 < z(l) < 86400
    ensures CheckItem(z, profane, item).value.weekStartDate == u
    ensures forall t :: GetWeekStart(z, t) != Ok(CheckItem(z, profane, item).value.weekStartDate)
  {
    CheckItemRow(z, profane, item);
    ImportKeyMissesWeekStart(z, item.weekStartDate, y, m, d, l, u);
  }
}
