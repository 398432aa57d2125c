/**
 * POST /api/admin/weeks: an administrator creates or replaces one week. The
 * handler checks, in order, the admin session, the payload, the Monday
 * rule, hyphens in the secret, blocked words in the secret and in the clues,
 * and then upserts the week under the UTC midnight of its date.
 */
module WeeksRoute {
  import opened Wrappers
  import opened Civil
  import opened Text
  import opened NyTime
  import opened Records
  import opened Seqs
  import opened Game
  import opened Store

  /** The request body, once its fields have the types the schema names. */
  datatype WeekPayload = WeekPayload(
    weekStartDate: string,
    secretWord: string,
    clue1: string, clue2: string, clue3: string, clue4: string, clue5: string,
    isPublished: bool)
  {
    /** The clues in unlocking order. */
    function Clues(): seq<string> {
      ClueList(clue1, clue2, clue3, clue4, clue5)
    }
  }

  /** The handler's answer: an early reply, or the row it saves and sends back. */
  datatype WeekOutcome = Refused(status: int, message: string) | Saved(row: WeekWord)

  /** The schema's length bounds: a date of at least 8 characters, a secret of 2 to 40, and no empty clue. */
  predicate ValidPayload(data: WeekPayload) {
    |data.weekStartDate| >= 8 && 2 <= |data.secretWord| <= 40
    && data.clue1 != "" && data.clue2 != "" && data.clue3 != "" && data.clue4 != "" && data.clue5 != ""
  }

  /** The handler's decision, for an admin session or not and a body (None when it is not JSON of the right shape). */
  function DecideWeek(admin: bool, body: Option<WeekPayload>, profane: string -> bool): WeekOutcome {
    if !admin then Refused(401, "Unauthorized")
    else if body.None? || !ValidPayload(body.value) then Refused(400, "Invalid payload")
    else CheckWeek(body.value, profane)
  }

  /** The checks on a payload the schema accepted, and the row it becomes. */
  function CheckWeek(data: WeekPayload, profane: string -> bool): WeekOutcome {
    match EnsureMonday(data.weekStartDate)
    case Err(message) => Refused(400, message)
    case Ok(_) =>
      if '-' in data.secretWord then Refused(400, "Secret words cannot contain hyphens")
      else if profane(data.secretWord) then Refused(400, "Secret word not allowed")
      else if Any(data.Clues(), profane) then Refused(400, "Clues contain blocked language")
      else
        match ParseIsoDateOnly(data.weekStartDate)
        case Err(message) => Refused(500, message)
        case Ok(key) => Saved(RowOf(key, data))
  }

  /** The row saved for a payload under key: the normalised secret, the clues and the flag as given. */
  function RowOf(key: int, data: WeekPayload): WeekWord {
    WeekWord(key, NormalizeWord(data.secretWord), data.clue1, data.clue2, data.clue3, data.clue4, data.clue5, data.isPublished)
  }

  /** The week table after an outcome: a saved row replaces or creates the row under its key. */
  function Apply(rows: map<int, WeekWord>, out: WeekOutcome): map<int, WeekWord> {
    if out.Saved? then rows[out.row.weekStartDate := out.row] else rows
  }

  /** The handler: it answers as DecideWeek says and changes the table only by the upsert of a saved row. */
  method PostWeek(table: WeekTable, admin: bool, body: Option<WeekPayload>, profane: string -> bool) returns (out: WeekOutcome)
    requires table.Valid()
    modifies table
    ensures table.Valid()
    ensures out == DecideWeek(admin, body, profane)
    ensures table.rows == Apply(old(table.rows), out)
  {
    if !admin {
      return Refused(401, "Unauthorized");
    }
    if body.None? || !ValidPayload(body.value) {
      return Refused(400, "Invalid payload");
    }
    var data := body.value;
    var monday := EnsureMonday(data.weekStartDate);
    if monday.Err? {
      return Refused(400, monday.error);
    }
    if '-' in data.secretWord {
      return Refused(400, "Secret words cannot contain hyphens");
    }
    if profane(data.secretWord) {
      return Refused(400, "Secret word not allowed");
    }
    if Any(data.Clues(), profane) {
      return Refused(400, "Clues contain blocked language");
    }
    var weekDate := ParseIsoDateOnly(data.weekStartDate);
    if weekDate.Err? {
      return Refused(500, weekDate.error);
    }
    var row := RowOf(weekDate.value, data);
    table.Upsert(row);
    return Saved(row);
  }

  /** A date that is not a well-formed Monday is refused with the Monday message, before any other check on the payload. */
  lemma NotMondayRefused(data: WeekPayload, profane: string -> bool)
    requires ValidPayload(data) && EnsureMonday(data.weekStartDate).Err?
    ensures DecideWeek(true, Some(data), profane) == Refused(400, MondayMessage)
  {
  }

  /** On a Monday, a hyphen in the secret is refused with its own message, whatever the blocked words say. */
  lemma HyphenBeforeProfanity(data: WeekPayload, profane: string -> bool)
    requires ValidPayload(data) && EnsureMonday(data.weekStartDate).Ok? && '-' in data.secretWord
    ensures DecideWeek(true, Some(data), profane) == Refused(400, "Secret words cannot contain hyphens")
  {
  }

  /**
   * A saved row passed every check: its date is a Monday, its secret has no
   * hyphen and is not blocked, and no clue is blocked. It holds the normalised
   * secret, the clues and the flag as given, under the parsed date, which
   * outside the years 0 to 99 is the UTC midnight of that Monday.
   */
  lemma SavedRow(data: WeekPayload, profane: string -> bool)
    requires CheckWeek(data, profane).Saved?
    ensures var row := CheckWeek(data, profane).row;
            && EnsureMonday(data.weekStartDate).Ok?
            && '-' !in data.secretWord && !profane(data.secretWord)
            && (forall i :: 0 <= i < 5 ==> !profane(data.Clues()[i]))
            && row.secretWord == NormalizeWord(data.secretWord)
            && row.Clues() == data.Clues() && row.isPublished == data.isPublished
            && ParseIsoDateOnly(data.weekStartDate) == Ok(row.weekStartDate)
            && (!TwoDigitYear(IsoFields(data.weekStartDate).year) ==>
                  row.weekStartDate == DaysFromCivil(IsoFields(data.weekStartDate)) * MsPerDay
                  && WeekdayOf(DaysFromCivil(IsoFields(data.weekStartDate))) == 1)
  {
    if !TwoDigitYear(IsoFields(data.weekStartDate).year) {
      EnsureMondayParses(data.weekStartDate);
    }
  }

  /** Posting the same request twice leaves the table as posting it once. */
  lemma PostTwiceIdempotent(rows: map<int, WeekWord>, admin: bool, body: Option<WeekPayload>, profane: string -> bool)
    ensures var out := DecideWeek(admin, body, profane);
            Apply(Apply(rows, out), out) == Apply(rows, out)
  {
  }

  /**
   * The key a week is saved under is the week start getWeekStart computes for
   * every instant whose New York date falls in that Monday-to-Sunday week.
   */
  lemma SavedKeyIsWeekStart(data: WeekPayload, profane: string -> bool, z: Zone, t: int)
    requires CheckWeek(data, profane).Saved? && !TwoDigitYear(IsoFields(data.weekStartDate).year)
    requires 1000 <= GetNyParts(z, t).year <= 9999
    requires DaysFromCivil(IsoFields(data.weekStartDate)) <= NyDay(z, t) < DaysFromCivil(IsoFields(data.weekStartDate)) + 7
    ensures GetWeekStart(z, t) == Ok(CheckWeek(data, profane).row.weekStartDate)
  {
    var monday := DaysFromCivil(IsoFields(data.weekStartDate));
    SavedRow(data, profane);
    GetWeekStartIsMonday(z, t);
    MondayOfItsWeek(monday, NyDay(z, t));
  }

  /** Every day of the week that starts on Monday m has m as its Monday. */
  lemma MondayOfItsWeek(m: int, n: int)
    requires WeekdayOf(m) == 1 && m <= n < m + 7
    ensures MondayOnOrBefore(n) == m
  {
    assert MondayOnOrBefore(m) == m;
    SameMonday(m, n);
  }
}
