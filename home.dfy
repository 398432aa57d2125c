/**
 * The home page's computed parts: the leaderboard buildLeaderboard makes of
 * the per-player point sums, and whether the guess form is disabled for the
 * signed-in player.
 */
module Home {
  import opened Wrappers
  import NyTime
  import opened Records
  import opened Seqs
  import opened Game
  import opened GuessRoute

  /** One row of the groupBy on userId: the player and the sum of their points, null when every value summed is null. */
  datatype PointSum = PointSum(userId: string, pointsSum: Option<int>)

  /** One leaderboard line. */
  datatype Standing = Standing(userId: string, points: int, displayName: string)

  /** What buildLeaderboard returns: the top entries, and the current player's rank (1-based) and points. */
  datatype Board = Board(entries: seq<Standing>, currentRank: Option<int>, currentPoints: int)

  /** The display name of the first user with the id, or "Unknown" when there is none. */
  function DisplayNameOf(users: seq<User>, id: string): (name: string)
    ensures (forall i :: 0 <= i < |users| ==> users[i].id != id) ==> name == "Unknown"
    ensures forall i :: 0 <= i < |users| && users[i].id == id && (forall j :: 0 <= j < i ==> users[j].id != id)
                        ==> name == users[i].displayName
  {
    var k := FindIndex(users, (u: User) => u.id == id);
    if k >= 0 then users[k].displayName else "Unknown"
  }

  /** The map step: a null sum counts as 0 points, and the name is looked up among the users. */
  function ToStanding(users: seq<User>, row: PointSum): (s: Standing)
    ensures s.userId == row.userId
    ensures s.points == (if row.pointsSum.Some? then row.pointsSum.value else 0)
  {
    Standing(row.userId, row.pointsSum.GetOr(0), DisplayNameOf(users, row.userId))
  }

  /** The map over all rows, in the order the database returned them. */
  function ToStandings(users: seq<User>, rows: seq<PointSum>): (r: seq<Standing>)
    ensures |r| == |rows|
    ensures forall i :: 0 <= i < |rows| ==> r[i] == ToStanding(users, rows[i])
  {
    seq(|rows|, i requires 0 <= i < |rows| => ToStanding(users, rows[i]))
  }

  /** Points never increase from one entry to the next. */
  predicate NonIncreasing(s: seq<Standing>) {
    |s| <= 1 || (s[0].points >= s[1].points && NonIncreasing(s[1..]))
  }

  /** In a non-increasing list every entry has at least the points of every later one. */
  lemma {:induction false} NonIncreasingOrdered(s: seq<Standing>)
    requires NonIncreasing(s)
    ensures forall i, j :: 0 <= i < j < |s| ==> s[i].points >= s[j].points
  {
    if |s| >= 2 {
      var t := s[1..];
      NonIncreasingOrdered(t);
      forall i, j | 0 <= i < j < |s|
        ensures s[i].points >= s[j].points
      {
        assert s[j] == t[j - 1];
        if i == 0 {
          assert s[1] == t[0];
        } else {
          assert s[i] == t[i - 1];
        }
      }
    }
  }

  /** Every prefix of a non-increasing list is non-increasing. */
  lemma {:induction false} NonIncreasingPrefix(s: seq<Standing>, n: nat)
    requires NonIncreasing(s) && n <= |s|
    ensures NonIncreasing(s[..n])
  {
    if n >= 2 {
      NonIncreasingPrefix(s[1..], n - 1);
      assert s[..n][1..] == s[1..][..n - 1];
    }
  }

  /** The entries with exactly p points, in their order in s. */
  function WithPoints(s: seq<Standing>, p: int): seq<Standing> {
    if s == [] then []
    else (if s[0].points == p then [s[0]] else []) + WithPoints(s[1..], p)
  }

  /** The entries with p points of a list that starts with a. */
  lemma WithPointsCons(a: Standing, t: seq<Standing>, p: int)
    ensures WithPoints([a] + t, p) == (if a.points == p then [a] else []) + WithPoints(t, p)
  {
    assert ([a] + t)[1..] == t;
  }

  /** An entry with at least the points of the head of a non-increasing list can go in front of it. */
  lemma ConsNonIncreasing(a: Standing, t: seq<Standing>)
    requires NonIncreasing(t) && (t != [] ==> a.points >= t[0].points)
    ensures NonIncreasing([a] + t)
  {
    assert ([a] + t)[1..] == t;
  }

  /**
   * One step of the sort: e goes before the first entry with no more points
   * than it, keeping the list in non-increasing order.
   */
  function Insert(e: Standing, s: seq<Standing>): (r: seq<Standing>)
    requires NonIncreasing(s)
    ensures NonIncreasing(r)
    ensures |r| == |s| + 1
    ensures r[0] == (if s == [] || s[0].points <= e.points then e else s[0])
  {
    if s == [] || s[0].points <= e.points then
      ConsNonIncreasing(e, s);
      [e] + s
    else
      var rest := Insert(e, s[1..]);
      ConsNonIncreasing(s[0], rest);
      [s[0]] + rest
  }

  /** Inserting adds e and loses nothing. */
  lemma {:induction false} InsertPermutes(e: Standing, s: seq<Standing>)
    requires NonIncreasing(s)
    ensures multiset(Insert(e, s)) == multiset(s) + multiset{e}
  {
    if s != [] && s[0].points > e.points {
      InsertPermutes(e, s[1..]);
      assert s == [s[0]] + s[1..];
    }
  }

  /** Inserting e puts it ahead of every entry already there with the same points, and leaves the other point values alone. */
  lemma {:induction false} InsertWithPoints(e: Standing, s: seq<Standing>, p: int)
    requires NonIncreasing(s)
    ensures WithPoints(Insert(e, s), p) == (if e.points == p then [e] else []) + WithPoints(s, p)
  {
    if s == [] || s[0].points <= e.points {
      WithPointsCons(e, s, p);
    } else {
      var rest := Insert(e, s[1..]);
      InsertWithPoints(e, s[1..], p);
      WithPointsCons(s[0], rest, p);
    }
  }

  /**
   * `.sort((a, b) => b.points - a.points)`: the entries in non-increasing
   * order of points, the same entries as the input.
   */
  function SortByPoints(s: seq<Standing>): (r: seq<Standing>)
    ensures NonIncreasing(r)
    ensures |r| == |s|
  {
    if s == [] then [] else Insert(s[0], SortByPoints(s[1..]))
  }

  /** The sort is a permutation: the same entries, each as often as in the input. */
  lemma {:induction false} SortPermutes(s: seq<Standing>)
    ensures multiset(SortByPoints(s)) == multiset(s)
  {
    if s != [] {
      var rest := SortByPoints(s[1..]);
      SortPermutes(s[1..]);
      InsertPermutes(s[0], rest);
      assert SortByPoints(s) == Insert(s[0], rest);
      assert multiset(s) == multiset(s[1..]) + multiset{s[0]} by {
        assert s == [s[0]] + s[1..];
      }
    }
  }

  /** Array.prototype.sort is stable: the entries with any one point value keep their input order. */
  lemma {:induction false} SortStable(s: seq<Standing>, p: int)
    ensures WithPoints(SortByPoints(s), p) == WithPoints(s, p)
  {
    if s != [] {
      SortStable(s[1..], p);
      InsertWithPoints(s[0], SortByPoints(s[1..]), p);
      WithPointsCons(s[0], s[1..], p);
      assert s == [s[0]] + s[1..];
    }
  }

  /** Whether the entry is the current player's; an absent player matches nothing. */
  function IsPlayer(current: Option<string>): Standing -> bool {
    (l: Standing) => current.Some? && l.userId == current.value
  }

  /**
   * buildLeaderboard after the database calls: the sorted standings' first
   * ten, and the current player's 1-based position in the whole sorted list
   * with their points, or null and 0 when they are not in it.
   */
  function BuildLeaderboard(users: seq<User>, rows: seq<PointSum>, current: Option<string>): Board {
    BoardOf(SortByPoints(ToStandings(users, rows)), current)
  }

  /** The returned object for the sorted standings: their first ten, and the player's rank and points. */
  function BoardOf(board: seq<Standing>, current: Option<string>): Board {
    var k := FindIndex(board, IsPlayer(current));
    Board(board[..NyTime.Min(10, |board|)], if k >= 0 then Some(k + 1) else None, if k >= 0 then board[k].points else 0)
  }

  /**
   * The leaderboard's entries are at most ten, a prefix of the whole sorted
   * list, in non-increasing order of points; the whole list holds one
   * standing per row.
   */
  lemma LeaderboardTopTen(users: seq<User>, rows: seq<PointSum>, current: Option<string>)
    ensures var board := SortByPoints(ToStandings(users, rows));
            var b := BuildLeaderboard(users, rows, current);
            && |b.entries| <= 10
            && b.entries <= board
            && (|rows| >= 10 ==> |b.entries| == 10)
            && (|rows| < 10 ==> b.entries == board)
            && NonIncreasing(b.entries)
            && multiset(board) == multiset(ToStandings(users, rows))
  {
    var board := SortByPoints(ToStandings(users, rows));
    SortPermutes(ToStandings(users, rows));
    NonIncreasingPrefix(board, NyTime.Min(10, |board|));
  }

  /**
   * The current player's rank is one more than the position of their first
   * standing in the whole sorted list and their points are that standing's;
   * when no standing is theirs, or nobody is signed in, the rank is null and
   * the points are 0.
   */
  lemma LeaderboardRank(users: seq<User>, rows: seq<PointSum>, current: Option<string>)
    ensures var board := SortByPoints(ToStandings(users, rows));
            var b := BuildLeaderboard(users, rows, current);
            && (b.currentRank.None? <==> current.None? || forall i :: 0 <= i < |board| ==> board[i].userId != current.value)
            && (b.currentRank.None? ==> b.currentPoints == 0)
            && (b.currentRank.Some? ==>
                  var k := b.currentRank.value - 1;
                  && 0 <= k < |board| && board[k].userId == current.value
                  && (forall j :: 0 <= j < k ==> board[j].userId != current.value)
                  && b.currentPoints == board[k].points)
  {
    BoardRank(SortByPoints(ToStandings(users, rows)), current);
  }

  /** The rank and points of the returned object, for any list of standings. */
  lemma BoardRank(board: seq<Standing>, current: Option<string>)
    ensures var b := BoardOf(board, current);
            && (b.currentRank.None? <==> current.None? || forall i :: 0 <= i < |board| ==> board[i].userId != current.value)
            && (b.currentRank.None? ==> b.currentPoints == 0)
            && (b.currentRank.Some? ==>
                  var k := b.currentRank.value - 1;
                  && 0 <= k < |board| && board[k].userId == current.value
                  && (forall j :: 0 <= j < k ==> board[j].userId != current.value)
                  && b.currentPoints == board[k].points)
  {
    PlayerIndex(board, current);
  }

  /** findIndex of the current player: their first position, or -1 when no entry is theirs or nobody is signed in. */
  lemma PlayerIndex(board: seq<Standing>, current: Option<string>)
    ensures var k := FindIndex(board, IsPlayer(current));
            && (k == -1 <==> current.None? || forall i :: 0 <= i < |board| ==> board[i].userId != current.value)
            && (k >= 0 ==> current.Some? && board[k].userId == current.value
                           && forall j :: 0 <= j < k ==> board[j].userId != current.value)
  {
    var isPlayer := IsPlayer(current);
    var k := FindIndex(board, isPlayer);
    if k >= 0 {
      assert isPlayer(board[k]);
      forall j | 0 <= j < k
        ensures board[j].userId != current.value
      {
        assert !isPlayer(board[j]);
      }
    } else if current.Some? {
      forall i | 0 <= i < |board|
        ensures board[i].userId != current.value
      {
        assert !isPlayer(board[i]);
      }
    }
  }

  /** `!!guessToday || solved` over the player's guesses for the week: some guess inside [start, end], or some correct guess. */
  function GuessFormDisabled(userGuesses: seq<Guess>, start: int, end: int): bool {
    Any(userGuesses, (g: Guess) => g.createdAt >= start && g.createdAt <= end) || Any(userGuesses, (g: Guess) => g.isCorrect)
  }

  /** The player's guesses for the week, as guess.findMany with its where clause selects them, in log order. */
  function GuessesOf(guesses: seq<Guess>, userId: string, weekId: int): (r: seq<Guess>)
    ensures |r| <= |guesses|
    ensures forall i :: 0 <= i < |r| ==> r[i].userId == userId && r[i].weekWordId == weekId
    ensures forall g :: g in r <==> g in guesses && g.userId == userId && g.weekWordId == weekId
  {
    if guesses == [] then []
    else
      var rest := GuessesOf(guesses[1..], userId, weekId);
      assert forall g :: g in guesses <==> g == guesses[0] || g in guesses[1..];
      if guesses[0].userId == userId && guesses[0].weekWordId == weekId then [guesses[0]] + rest else rest
  }

  /** Some guess of the player's for the week satisfies p exactly when some guess in the whole log by that player for that week does. */
  lemma AnyOfGuessesOf(guesses: seq<Guess>, userId: string, weekId: int, p: Guess -> bool)
    ensures Any(GuessesOf(guesses, userId, weekId), p)
            <==> Any(guesses, (g: Guess) => g.userId == userId && g.weekWordId == weekId && p(g))
  {
    var mine := GuessesOf(guesses, userId, weekId);
    var q := (g: Guess) => g.userId == userId && g.weekWordId == weekId && p(g);
    if Any(mine, p) {
      var j :| 0 <= j < |mine| && p(mine[j]);
      assert mine[j] in guesses;
      var i :| 0 <= i < |guesses| && guesses[i] == mine[j];
      assert q(guesses[i]);
    }
    if Any(guesses, q) {
      var i :| 0 <= i < |guesses| && q(guesses[i]);
      assert guesses[i] in mine;
      var j :| 0 <= j < |mine| && mine[j] == guesses[i];
      assert p(mine[j]);
    }
  }

  /**
   * The guess form is disabled exactly when the guess route would turn the
   * player away at its solved gate or its guessed-today gate, for the same
   * week and the same day bounds.
   */
  lemma FormDisabledIffGuessRejected(guesses: seq<Guess>, userId: string, weekId: int, start: int, end: int)
    ensures GuessFormDisabled(GuessesOf(guesses, userId, weekId), start, end)
            <==> Solved(guesses, userId, weekId) || GuessedInWindow(guesses, userId, weekId, start, end)
  {
    var inWindow := (g: Guess) => g.createdAt >= start && g.createdAt <= end;
    var correct := (g: Guess) => g.isCorrect;
    AnyOfGuessesOf(guesses, userId, weekId, inWindow);
    AnyOfGuessesOf(guesses, userId, weekId, correct);
    var a := (g: Guess) => g.userId == userId && g.weekWordId == weekId && inWindow(g);
    var b := (g: Guess) => g.userId == userId && g.weekWordId == weekId && start <= g.createdAt <= end;
    var c := (g: Guess) => g.userId == userId && g.weekWordId == weekId && correct(g);
    var d := (g: Guess) => g.userId == userId && g.weekWordId == weekId && g.isCorrect;
    assert Any(guesses, a) == Any(guesses, b) by {
      assert forall i :: 0 <= i < |guesses| ==> a(guesses[i]) == b(guesses[i]);
    }
    assert Any(guesses, c) == Any(guesses, d) by {
      assert forall i :: 0 <= i < |guesses| ==> c(guesses[i]) == d(guesses[i]);
    }
  }
}
