/**
 * POST /api/guess: a signed-in player submits one guess for the current
 * week. The handler checks, in order, the session, the body, the blocked
 * words, the week, an earlier correct guess and an earlier guess today, and
 * only then records the guess with its points.
 */
module GuessRoute {
  import opened Wrappers
  import opened Text
  import opened Records
  import opened Seqs
  import opened Game
  import opened Store

  /**
   * What the handler reads off the clock for one request: the instant, its
   * New York weekday (1 = Monday), the key of the current week and the
   * bounds of the current day.
   */
  datatype Clock = Clock(now: int, weekday: int, weekStart: int, dayStart: int, dayEnd: int)

  /** The handler's answer: an early reply, or the guess it records and the message it sends with it. */
  datatype Outcome = Rejected(status: int, message: string) | Recorded(entry: Guess, message: string)

  /** The body schema: a guess string of 1 to 40 characters. */
  predicate ValidBody(body: Option<string>) {
    body.Some? && 1 <= |body.value| <= 40
  }

  /** Whether the player already has a correct guess for the week. */
  predicate Solved(guesses: seq<Guess>, userId: string, weekId: int) {
    Any(guesses, (g: Guess) => g.userId == userId && g.weekWordId == weekId && g.isCorrect)
  }

  /** Whether the player has a guess for the week created within [start, end], both ends included. */
  predicate GuessedInWindow(guesses: seq<Guess>, userId: string, weekId: int, start: int, end: int) {
    Any(guesses, (g: Guess) => g.userId == userId && g.weekWordId == weekId && start <= g.createdAt <= end)
  }

  /** The message of a recorded guess. */
  function RecordedMessage(isCorrect: bool, points: int): string {
    if isCorrect then "Correct! +" + IntToString(points) + " points" else "Wrong guess. Try again tomorrow."
  }

  /**
   * The handler's decision on the current guess log and week table, for the
   * session's user id (None when signed out) and the `guess` field of the
   * body (None when the body is not JSON or the field is not a string).
   */
  function Decide(guesses: seq<Guess>, weeks: map<int, WeekWord>, profane: string -> bool,
                  session: Option<string>, body: Option<string>, clock: Clock): Outcome
  {
    if session.None? then Rejected(401, "Unauthorized")
    else if !ValidBody(body) then Rejected(400, "Invalid input")
    else DecideGuess(guesses, weeks, profane, session.value, Trim(body.value), clock)
  }

  /** The checks on a signed-in player's trimmed guess: blocked words, then the current week. */
  function DecideGuess(guesses: seq<Guess>, weeks: map<int, WeekWord>, profane: string -> bool,
                       userId: string, guess: string, clock: Clock): Outcome
  {
    if profane(guess) then Rejected(400, "Guess contains blocked language")
    else if clock.weekStart !in weeks || !weeks[clock.weekStart].isPublished then Rejected(400, "No active word this week")
    else DecideForWeek(guesses, userId, weeks[clock.weekStart], guess, clock)
  }

  /** The checks against the player's earlier guesses for the published week, solved first. */
  function DecideForWeek(guesses: seq<Guess>, userId: string, week: WeekWord, guess: string, clock: Clock): Outcome {
    if Solved(guesses, userId, week.weekStartDate) then Rejected(200, "You already solved this week!")
    else if GuessedInWindow(guesses, userId, week.weekStartDate, clock.dayStart, clock.dayEnd) then
      Rejected(400, "You already guessed today")
    else RecordGuess(userId, week, guess, clock)
  }

  /** The guess the handler records once every check has passed, and its reply. */
  function RecordGuess(userId: string, week: WeekWord, guess: string, clock: Clock): Outcome {
    var entry := RecordedGuess(userId, week, guess, clock);
    Recorded(entry, RecordedMessage(entry.isCorrect, entry.pointsAwarded))
  }

  /** The row inserted for an accepted guess. */
  function RecordedGuess(userId: string, week: WeekWord, guess: string, clock: Clock): Guess {
    var isCorrect := NormalizeWord(guess) == NormalizeWord(week.secretWord);
    var points := if isCorrect then PointsFor(clock.weekday - 1) else 0;
    Guess(userId, week.weekStartDate, guess, isCorrect, points, clock.now)
  }

  /**
   * The handler: it answers as Decide says, appends the guess to the log
   * exactly when it records one, and keeps at most one correct guess per
   * player and week.
   */
  method PostGuess(log: GuessLog, table: WeekTable, profane: string -> bool,
                   session: Option<string>, body: Option<string>, clock: Clock) returns (out: Outcome)
    requires OneCorrectPerWeek(log.guesses)
    modifies log
    ensures out == Decide(old(log.guesses), table.rows, profane, session, body, clock)
    ensures log.guesses == old(log.guesses) + (if out.Recorded? then [out.entry] else [])
    ensures OneCorrectPerWeek(log.guesses)
  {
    if session.None? {
      return Rejected(401, "Unauthorized");
    }
    if !ValidBody(body) {
      return Rejected(400, "Invalid input");
    }
    var guess := Trim(body.value);
    if profane(guess) {
      return Rejected(400, "Guess contains blocked language");
    }
    var week := table.FindUnique(clock.weekStart);
    if week.None? || !week.value.isPublished {
      return Rejected(400, "No active word this week");
    }
    assert Decide(log.guesses, table.rows, profane, session, body, clock)
        == DecideForWeek(log.guesses, session.value, week.value, guess, clock);
    out := GuessForWeek(log, session.value, week.value, guess, clock);
  }

  /** The handler from the player's earlier guesses on: the solved and daily checks, then the insert. */
  method GuessForWeek(log: GuessLog, userId: string, week: WeekWord, guess: string, clock: Clock) returns (out: Outcome)
    requires OneCorrectPerWeek(log.guesses)
    modifies log
    ensures out == DecideForWeek(old(log.guesses), userId, week, guess, clock)
    ensures log.guesses == old(log.guesses) + (if out.Recorded? then [out.entry] else [])
    ensures OneCorrectPerWeek(log.guesses)
  {
    var weekId := week.weekStartDate;
    if Solved(log.guesses, userId, weekId) {
      return Rejected(200, "You already solved this week!");
    }
    if GuessedInWindow(log.guesses, userId, weekId, clock.dayStart, clock.dayEnd) {
      return Rejected(400, "You already guessed today");
    }
    out := RecordGuess(userId, week, guess, clock);
    RecordKeepsOneCorrect(log.guesses, out.entry);
    log.Create(out.entry);
  }

  /** Appending a guess that is wrong, or whose player has no correct guess for its week yet, keeps one correct guess per player and week. */
  lemma RecordKeepsOneCorrect(guesses: seq<Guess>, entry: Guess)
    requires OneCorrectPerWeek(guesses)
    requires entry.isCorrect ==> !Solved(guesses, entry.userId, entry.weekWordId)
    ensures OneCorrectPerWeek(guesses + [entry])
  {
    var all := guesses + [entry];
    forall i, j | 0 <= i < j < |all| && all[i].isCorrect && all[j].isCorrect
      ensures all[i].userId != all[j].userId || all[i].weekWordId != all[j].weekWordId
    {
      if j == |guesses| {
        assert all[i] == guesses[i];
      } else {
        assert all[i] == guesses[i] && all[j] == guesses[j];
      }
    }
  }

  /**
   * A guess is recorded exactly when the player is signed in, the body is
   * valid, the trimmed guess is not blocked, the week is published, and the
   * player has neither solved the week nor guessed within today's bounds.
   */
  lemma RecordedIff(guesses: seq<Guess>, weeks: map<int, WeekWord>, profane: string -> bool,
                    session: Option<string>, body: Option<string>, clock: Clock)
    ensures Decide(guesses, weeks, profane, session, body, clock).Recorded?
            <==> session.Some? && ValidBody(body) && !profane(Trim(body.value))
                 && clock.weekStart in weeks && weeks[clock.weekStart].isPublished
                 && !Solved(guesses, session.value, weeks[clock.weekStart].weekStartDate)
                 && !GuessedInWindow(guesses, session.value, weeks[clock.weekStart].weekStartDate, clock.dayStart, clock.dayEnd)
  {
  }

  /** An earlier correct guess answers "already solved" whatever the player did today: that gate comes first. */
  lemma SolvedBeforeDaily(guesses: seq<Guess>, weeks: map<int, WeekWord>, profane: string -> bool,
                          userId: string, guess: string, clock: Clock)
    requires 1 <= |guess| <= 40 && !profane(Trim(guess))
    requires clock.weekStart in weeks && weeks[clock.weekStart].isPublished
    requires Solved(guesses, userId, weeks[clock.weekStart].weekStartDate)
    ensures Decide(guesses, weeks, profane, Some(userId), Some(guess), clock) == Rejected(200, "You already solved this week!")
  {
  }

  /**
   * A guess by the player for the week created anywhere in [dayStart, dayEnd],
   * both bounds included, blocks today's guess when the week is not solved.
   */
  lemma GuessedTodayBlocks(guesses: seq<Guess>, weeks: map<int, WeekWord>, profane: string -> bool,
                           userId: string, guess: string, clock: Clock, i: int)
    requires 1 <= |guess| <= 40 && !profane(Trim(guess))
    requires clock.weekStart in weeks && weeks[clock.weekStart].isPublished
    requires !Solved(guesses, userId, weeks[clock.weekStart].weekStartDate)
    requires 0 <= i < |guesses| && guesses[i].userId == userId && guesses[i].weekWordId == weeks[clock.weekStart].weekStartDate
    requires clock.dayStart <= guesses[i].createdAt <= clock.dayEnd
    ensures Decide(guesses, weeks, profane, Some(userId), Some(guess), clock) == Rejected(400, "You already guessed today")
  {
    var weekId := weeks[clock.weekStart].weekStartDate;
    var p := (g: Guess) => g.userId == userId && g.weekWordId == weekId && clock.dayStart <= g.createdAt <= clock.dayEnd;
    assert p(guesses[i]);
  }

  /**
   * A recorded guess belongs to the signed-in player and the current week,
   * holds the trimmed guess and the request instant, is correct exactly when
   * the guess and the secret word normalise alike, and earns 6 - weekday
   * points when correct from Monday to Friday and none otherwise.
   */
  lemma RecordedEntry(guesses: seq<Guess>, weeks: map<int, WeekWord>, profane: string -> bool,
                      session: Option<string>, body: Option<string>, clock: Clock)
    requires KeyedByStart(weeks)
    requires Decide(guesses, weeks, profane, session, body, clock).Recorded?
    ensures var out := Decide(guesses, weeks, profane, session, body, clock);
            var e := out.entry;
            && e.userId == session.value
            && e.weekWordId == clock.weekStart
            && e.guess == Trim(body.value)
            && e.createdAt == clock.now
            && (e.isCorrect <==> NormalizeWord(body.value) == NormalizeWord(weeks[clock.weekStart].secretWord))
            && e.pointsAwarded == (if e.isCorrect && 1 <= clock.weekday <= 5 then 6 - clock.weekday else 0)
            && out.message == RecordedMessage(e.isCorrect, e.pointsAwarded)
  {
    RecordedIff(guesses, weeks, profane, session, body, clock);
    assert Decide(guesses, weeks, profane, session, body, clock) == DecideGuess(guesses, weeks, profane, session.value, Trim(body.value), clock);
    GuessRecords(guesses, weeks, profane, session.value, Trim(body.value), clock);
    RecordGuessFields(session.value, weeks[clock.weekStart], Trim(body.value), clock);
    NormalizeTrimmed(body.value);
    RecordGuessMessage(session.value, weeks[clock.weekStart], Trim(body.value), clock);
  }

  /** Once the later gates pass, the outcome is the one RecordGuess gives for the player, the current week and the guess. */
  lemma GuessRecords(guesses: seq<Guess>, weeks: map<int, WeekWord>, profane: string -> bool,
                     userId: string, guess: string, clock: Clock)
    requires !profane(guess) && clock.weekStart in weeks && weeks[clock.weekStart].isPublished
    requires !Solved(guesses, userId, weeks[clock.weekStart].weekStartDate)
    requires !GuessedInWindow(guesses, userId, weeks[clock.weekStart].weekStartDate, clock.dayStart, clock.dayEnd)
    ensures DecideGuess(guesses, weeks, profane, userId, guess, clock) == RecordGuess(userId, weeks[clock.weekStart], guess, clock)
  {
    var week := weeks[clock.weekStart];
    assert DecideGuess(guesses, weeks, profane, userId, guess, clock) == DecideForWeek(guesses, userId, week, guess, clock);
  }

  /** The fields of the guess recorded for `guess`. */
  lemma RecordGuessFields(userId: string, week: WeekWord, guess: string, clock: Clock)
    ensures var out := RecordGuess(userId, week, guess, clock);
            var e := out.entry;
            && out.Recorded?
            && e.userId == userId
            && e.weekWordId == week.weekStartDate
            && e.guess == guess
            && e.createdAt == clock.now
            && (e.isCorrect <==> NormalizeWord(guess) == NormalizeWord(week.secretWord))
            && e.pointsAwarded == (if e.isCorrect && 1 <= clock.weekday <= 5 then 6 - clock.weekday else 0)
  {
    var e := RecordedGuess(userId, week, guess, clock);
    assert RecordGuess(userId, week, guess, clock).entry == e;
    assert e.pointsAwarded == (if e.isCorrect then PointsFor(clock.weekday - 1) else 0);
  }

  /** The reply to a recorded guess is the message for its correctness and points. */
  lemma RecordGuessMessage(userId: string, week: WeekWord, guess: string, clock: Clock)
    ensures var out := RecordGuess(userId, week, guess, clock);
            out.Recorded? && out.message == RecordedMessage(out.entry.isCorrect, out.entry.pointsAwarded)
  {
  }

  /** A correct Monday guess is answered "Correct! +5 points". */
  lemma CorrectMondayReply()
    ensures RecordedMessage(true, PointsFor(0)) == "Correct! +5 points"
  {
    assert IntToString(5) == "5";
  }
}
