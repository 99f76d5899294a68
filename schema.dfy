/** Row types of the tournament store: the `players` and `matches` tables,
    the (round, slot, p1, p2) tuples the bracket code hands to the store,
    and the error kinds the operations report. */
module Schema {

  datatype Option<+T> = None | Some(value: T)

  /** `Some(x)` if `o` is present, `d` otherwise. */
  function OrElse<T>(o: Option<T>, d: Option<T>): Option<T>
  {
    if o.Some? then o else d
  }

  /** The status column of a match: 'PENDING' or 'DONE'. */
  datatype Status = Pending | Done

  /** A row of the players table. Ids are the AUTOINCREMENT primary key. */
  datatype Player = Player(
    id: nat,
    name: string,
    totalPoints: int,
    matchesWon: nat,
    matchesPlayed: nat)

  /** A row of the matches table. A `None` participant, score or winner is SQL NULL. */
  datatype Match = Match(
    id: nat,
    round: int,
    slot: int,
    p1: Option<nat>,
    p2: Option<nat>,
    p1Score: Option<int>,
    p2Score: Option<int>,
    winner: Option<nat>,
    status: Status)

  /** A (round, slot, p1, p2) tuple as built by the bracket generator. */
  datatype Row = Row(round: int, slot: int, p1: Option<nat>, p2: Option<nat>)

  /** The failures the operations raise. */
  datatype Error =
    | InvalidInput      // fewer than two players at bracket generation
    | NotFound          // no match with the given id
    | AlreadyClosed     // result entry on a DONE match
    | IncompleteMatch   // result entry while a side is unassigned
    | TiedScore         // equal scores

  datatype Outcome = Ok | Fail(error: Error)
}
