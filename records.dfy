/**
 * The stored rows of the game: a week's word, a player's guess and a player,
 * as the routes read and write them. A week is identified by its
 * weekStartDate, which is unique in the week table, so the weekWordId a
 * guess carries is that key.
 */
module Records {

  /** A week's secret word and its five clues, keyed by the instant the week starts. */
  datatype WeekWord = WeekWord(
    weekStartDate: int,
    secretWord: string,
    clue1: string, clue2: string, clue3: string, clue4: string, clue5: string,
    isPublished: bool)
  {
    /** The clues in unlocking order. */
    function Clues(): seq<string> {
      ClueList(clue1, clue2, clue3, clue4, clue5)
    }
  }

  /** Five clues as the list the code builds from clue1 to clue5, in unlocking order. */
  function ClueList(c1: string, c2: string, c3: string, c4: string, c5: string): (cs: seq<string>)
    ensures |cs| == 5
    ensures cs[0] == c1 && cs[1] == c2 && cs[2] == c3 && cs[3] == c4 && cs[4] == c5
  {
    [c1, c2, c3, c4, c5]
  }

  /** One submitted guess; createdAt is the instant it was recorded. */
  datatype Guess = Guess(
    userId: string,
    weekWordId: int,
    guess: string,
    isCorrect: bool,
    pointsAwarded: int,
    createdAt: int)

  datatype User = User(id: string, displayName: string)
}
