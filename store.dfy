/**
 * The two tables the routes write, as objects whose contents change in
 * place: the week table, keyed by weekStartDate (a unique column), and the
 * guess log, to which guess.create appends.
 */
module Store {
  import opened Wrappers
  import opened Records

  /** Every row of a week table sits under its own weekStartDate. */
  predicate KeyedByStart(rows: map<int, WeekWord>) {
    forall k :: k in rows ==> rows[k].weekStartDate == k
  }

  /** At most one correct guess per player and week. */
  predicate OneCorrectPerWeek(guesses: seq<Guess>) {
    forall i, j :: 0 <= i < j < |guesses| && guesses[i].isCorrect && guesses[j].isCorrect
      ==> guesses[i].userId != guesses[j].userId || guesses[i].weekWordId != guesses[j].weekWordId
  }

  /** The WeekWord table. */
  class WeekTable {
    var rows: map<int, WeekWord>

    ghost predicate Valid()
      reads this
    {
      KeyedByStart(rows)
    }

    constructor ()
      ensures rows == map[] && Valid()
    {
      rows := map[];
    }

    /** weekWord.findUnique on weekStartDate. */
    function FindUnique(key: int): (r: Option<WeekWord>)
      reads this
      ensures r.Some? <==> key in rows
      ensures r.Some? ==> r.value == rows[key]
    {
      if key in rows then Some(rows[key]) else None
    }

    /** weekWord.upsert on weekStartDate: the row under its key is replaced or created, and no other row changes. */
    method Upsert(row: WeekWord)
      requires Valid()
      modifies this
      ensures Valid()
      ensures rows == old(rows)[row.weekStartDate := row]
    {
      rows := rows[row.weekStartDate := row];
    }
  }

  /** The Guess table, in creation order. */
  class GuessLog {
    var guesses: seq<Guess>

    constructor ()
      ensures guesses == []
    {
      guesses := [];
    }

    /** guess.create: the new guess goes after all earlier ones. */
    method Create(g: Guess)
      modifies this
      ensures guesses == old(guesses) + [g]
    {
      guesses := guesses + [g];
    }
  }
}
