# Ping-pong single-elimination tournament: bracket and ledger model

A Dafny model of the core of a small table-tennis tournament manager. It has
two parts.

**The ledger.** Players and matches live in two tables:

- a player has a unique name and three statistics: points scored, matches
  won and matches played;
- a match sits at a unique (round, slot) key and has two optional
  participants, two optional scores, an optional winner and a status,
  PENDING or DONE.

**The bracket engine.** It works on top of those tables:

- it generates a single-elimination bracket from a list of player ids;
- it closes round-1 byes and moves their player into round 2;
- it propagates the winners of every round into the next one;
- it runs a "repechage", a random backfill that puts round-1 losers into
  round-2 matches with one empty side.

The two SQLite tables become the class `Ledger.Store`:

- `matches` is a sequence kept in (round, slot) order. That order is the
  UNIQUE(round, slot) index, so a scan of the table is the result of
  `ORDER BY round, slot`.
- `players` is a sequence in id order.
- The two AUTOINCREMENT counters become `nextMatchId` and `nextPlayerId`.

Each database function is a method or function of the store. Each bracket
function is a method that changes the store through those operations, and
each method is proved against a function that describes the whole resulting
table:

- `ByesResolved` for `auto_advance_byes`;
- `Advanced` for `advance_winners`;
- `FillOpen` for the repechage;
- `BracketRows` for the rows `generate_single_elim` inserts.

Lemmas then state what the source promises about those tables:

- where a bye lands;
- that the pass only rewrites participants, and is idempotent;
- that the draw never uses a loser twice;
- that a freshly generated bracket is already a fixed point of winner
  propagation.

Modules:

- `Schema` (schema.dfy): the row types, status and error outcomes.
- `Text` (text.dfy): Python's `str.strip()` and the BINARY collation order used by `ORDER BY name`.
- `Ledger` (ledger.dfy): table invariants, upsert, and the `Store` class with the operations of `db.py`.
- `BracketBuilder` (generate.dfy): `next_power_of_two` and `generate_single_elim`.
- `ByeResolver` (byes.dfy): `auto_advance_byes`.
- `WinnerPropagator` (advance.dfy): `advance_winners`.
- `BackfillDrawer` (backfill.dfy): `fill_round2_with_random_losers`.
- `BracketStability` (stability.dfy): generation followed by propagation.

A DONE match is not always a played one. `auto_advance_byes`
(bracket.py:65-72) closes a bye as DONE 0-0, with one side empty and the
other side's player as winner. `ByeResolver.Closed` models that row as the
code writes it, and `ByeResolver.ByeClosed` states it for every bye.

A consequence of the code as written is proved as
`BackfillDrawer.BackfillThenAdvance`. `advance_winners` rewrites both sides
of every round-2 match from the round-1 winners list. So a loser placed by
the repechage into a match the pass covers is replaced at the next call,
and filling and then advancing gives the same table as advancing alone.
The docstring at bracket.py:93-95 says the pass rewrites the slots and is
idempotent, so this is recorded as a property rather than a defect.

## Model

| member | source | states |
|---|---|---|
| Ledger.Store.constructor | db.py:11-44 | new tables are empty and both AUTOINCREMENT counters start at 1 |
| Ledger.Store.ResetTournament | db.py:46-55 | every match is deleted; with keep_players each player keeps id and name with the three statistics zeroed, otherwise every player is deleted; the counters are not reset; the table invariants hold |
| Ledger.Store.AddPlayers | db.py:57-68 | the new players table is `Registered` applied to the stripped non-blank names: existing rows unchanged, each new name appended once with the next id and zero statistics, repeats skipped; the counter advances by the number of rows added; names stay unique |
| Ledger.CleanNamesExact | db.py:58 | a name is kept exactly when it is non-empty after `strip()` of some given name |
| Text.StripBlank | db.py:58 | `strip()` yields the empty string exactly for all-whitespace input, and its result is stripped and a fixed point of `strip()` |
| Ledger.RegisteredNames | db.py:61-66 | after the inserts the set of names is the old set plus every name given, since a repeated name is rejected without error |
| Ledger.RegisteredValid | db.py:61-66 | inserting stripped non-blank names keeps names unique, ids strictly increasing and below the advanced counter |
| Ledger.RegisterAll | db.py:61-66 | the insert loop on the table value yields exactly `Registered`, and the counter advances by the number of rows added |
| Ledger.Store.ListPlayers | db.py:70-75 | the result is a permutation of the players table sorted by name |
| Ledger.InsertByNameSorted | db.py:73 | inserting a player into a name-sorted list keeps it sorted |
| Text.NameLeTotal | db.py:73 | any two names are comparable in the BINARY collation order |
| Text.NameLeTransitive | db.py:73 | the collation order is transitive |
| Text.NameLeAntisymmetric | db.py:73 | two names each ordered before the other are equal |
| Ledger.Store.GetPlayer | db.py:77-82 | returns the row whose id is the key, or nothing when no row has that id |
| Ledger.Store.InsertMatches | db.py:84-95 | the table becomes the upsert of each tuple, in order, as a fresh PENDING row with the next id; the counter advances once per tuple; key order and unique ids are kept |
| Ledger.UpsertRows | db.py:90-93 | the `executemany` loop yields exactly the in-order upsert of every tuple, keeps key order and unique ids, and advances the counter once per tuple |
| Ledger.InsertAllLookup | db.py:90-93 | after INSERT OR REPLACE, the row at each written key is the last tuple given for it, with the id of that insert; other keys are untouched |
| Ledger.LookupAfterLast | db.py:90-93 | of all the tuples given for one key, the last one is what the key holds afterwards; a key never given keeps its row |
| Ledger.UpsertLookup | db.py:91 | one INSERT OR REPLACE puts the new row at its key and leaves every other key as it was |
| Ledger.LookupUnique | db.py:36 | in the key-ordered table a row is the only one with its (round, slot) |
| Ledger.Store.ListMatches | db.py:97-106 | the result is ordered by (round, slot) and holds exactly the rows of the table |
| Ledger.Store.ListPendingMatches | db.py:108-118 | the result is ordered by (round, slot) and holds exactly the PENDING matches with both participants set |
| Ledger.Store.SetMatchResult | db.py:120-160 | the errors in the source's order (not found, already DONE, a missing participant, equal scores), each leaving both tables unchanged; on success only that match changes (scores, higher scorer as winner, DONE), each participant gains their own score and one match played, and the winner one match won |
| Ledger.Store.GetMatch | db.py:162-170 | returns the row whose id is the key, or nothing when no row has that id |
| Ledger.Store.UpdateMatchPlayers | db.py:172-180 | only the p1 and p2 of the row at (round, slot) change, and nothing changes when no row has that key |
| BracketBuilder.NextPowerOfTwo | bracket.py:5-6 | the result is a power of two, at least n, 1 for n <= 1 and below 2n for n >= 2 |
| BracketBuilder.NextPowerOfTwoLeast | bracket.py:5-6 | no smaller power of two is at least n |
| BracketBuilder.CeilLog2 | bracket.py:14 | the exponent k is the least one with n <= 2^k |
| BracketBuilder.PairEntrants | bracket.py:17-32 | the round-1 loop yields exactly `Round1Rows(ids)`: consecutive pairs in slots 1, 2, ..., and the all-padding pairs dropped |
| BracketBuilder.Round1Seating | bracket.py:17-32 | reading the round-1 rows side by side gives back the id list; row k is slot k+1 with p1 = ids[2k], and only the last row of an odd list has an empty p2 |
| BracketBuilder.EmptyRounds | bracket.py:35-38 | the later-rounds loop yields exactly `Skeleton(size, rounds)` |
| BracketBuilder.AppendRound | bracket.py:36-38 | the slot loop of round r appends exactly its size / 2^r empty matches, in slot order |
| BracketBuilder.SkeletonShape | bracket.py:35-38 | a row is generated for a later round exactly when 2 <= round <= rounds and 1 <= slot <= size / 2^round, and it has no participant |
| BracketBuilder.BracketRowsOrdered | bracket.py:19-38 | the generated rows are in strictly increasing (round, slot) order |
| BracketBuilder.GenerateSingleElim | bracket.py:8-41 | fewer than 2 entrants fail with nothing changed; otherwise the table becomes the bye resolution of the upsert of `BracketRows(ids)`, and the counter advances by the number of rows |
| BracketBuilder.FreshBracket | bracket.py:40 | on an empty table the inserts produce the generated rows in order with consecutive ids |
| ByeResolver.FeederSlots | bracket.py:76-77 | slot s of round 2 is fed by slot 2s-1 into p1 and slot 2s into p2, and by no other slot |
| ByeResolver.AutoAdvanceByes | bracket.py:44-90 | the table becomes `ByesResolved` of the old one; players and counters unchanged |
| ByeResolver.ResolveAll | bracket.py:60-87 | the scan over the table value yields exactly `ByesResolved` |
| ByeResolver.ResolveAt | bracket.py:60-87 | one step of the scan resolves row i and nothing else: a round-1 bye is closed and its player written into the parent round-2 match |
| ByeResolver.ByeClosed | bracket.py:65-72 | every round-1 bye becomes DONE 0-0 with its only player as winner, whether or not its round-2 match exists |
| ByeResolver.ByePlacement | bracket.py:74-87 | the player of a round-1 bye is written into round 2, slot ceil(slot/2), as p1 for an odd slot and p2 for an even one, when that match exists |
| ByeResolver.ByesResolvedFrame | bracket.py:60-87 | rows outside round 2 other than round-1 byes are untouched; a round-2 row changes only in p1/p2, and a side whose feeding slot holds no bye keeps its value |
| WinnerPropagator.RoundRowsMembers | bracket.py:101-103 | `by_round[r]` holds exactly the rows of round r, in key order |
| WinnerPropagator.MaxRound | bracket.py:105 | no row has a higher round, and an empty table gives 1 |
| WinnerPropagator.MaxRoundAttained | bracket.py:105 | in a non-empty table the highest round is the round of some row |
| WinnerPropagator.CollectWinners | bracket.py:108-115 | the winners list of round r: one entry per row in slot order, the winner of a DONE match and None otherwise |
| WinnerPropagator.WinnersAt | bracket.py:121-122 | reading the table row by row gives entry k of the winners list, and None outside the list |
| WinnerPropagator.FeedRound | bracket.py:117-123 | round r+1 slot s receives entries 2s-2 and 2s-1 of the winners list (None past its end) for every slot counted in round r+1 |
| WinnerPropagator.AdvanceWinners | bracket.py:92-123 | the table becomes `Advanced` of the old one; players and counters unchanged |
| WinnerPropagator.AdvanceKeepsResults | bracket.py:117-123 | the pass changes participants only: ids, keys, scores, winners and statuses are kept |
| WinnerPropagator.AdvanceIdempotent | bracket.py:95 | a second pass right after the first changes nothing |
| WinnerPropagator.AdvanceIgnoresParticipants | bracket.py:108-123 | the result depends only on results: tables differing only in participants the pass rewrites give the same result |
| WinnerPropagator.WinnerPlacement | bracket.py:117-123 | in a round with contiguous slots, the winner of slot t lands in the next round at slot ceil(t/2), as p1 for odd t and p2 for even t |
| BackfillDrawer.LosersExact | bracket.py:143-158 | a player is in the losers list exactly when some round-1 DONE match with both sides reports them as the side that is not the winner |
| BackfillDrawer.PicksDistinct | bracket.py:184-192 | popping from the end and skipping used players draws each distinct player of the pool exactly once |
| BackfillDrawer.DrawSize | bracket.py:158-161 | drawing from any shuffle of the losers list draws exactly the distinct losers |
| BackfillDrawer.PopUnused | bracket.py:186-192 | the inner loop takes the next unused player from the end, or finds none left |
| BackfillDrawer.Draw | bracket.py:177-202 | the draw on the table gives `FillOpen` with the picks, and counts min(open matches, picks) |
| BackfillDrawer.FillRound2WithRandomLosers | bracket.py:128-206 | the table becomes `FillOpen` of the old one with the picks drawn from the shuffle; the count is min(open round-2 matches, distinct losers); players and counters unchanged |
| BackfillDrawer.FillOpenAt | bracket.py:184-200 | the k-th open round-2 match in slot order gets pick k in its empty side when there is one; every other row is unchanged |
| BackfillDrawer.FillOpenCount | bracket.py:134 | the open matches left are those beyond the number of picks |
| BackfillDrawer.FillOpenParticipantsOnly | bracket.py:197-200 | the draw writes participants only |
| BackfillDrawer.BackfillDrawRow | bracket.py:133-200 | any row, the last one included, changes only if it is an open match, and then it gets a round-1 loser in its empty side |
| BackfillDrawer.BackfillDraw | bracket.py:133-200 | two filled matches get different losers; a filled match has every earlier open match filled too |
| BackfillDrawer.BackfillThenAdvance | bracket.py:92-123 | when every open match is one the pass rewrites, filling and then advancing gives the same table as advancing alone |
| BracketStability.GeneratedShape | bracket.py:17-38 | the generated table has round 1 at the front in slots 1..ceil(n/2), all PENDING, then later rounds of empty PENDING matches |
| BracketStability.Round1Winners | bracket.py:108-115 | after bye resolution the round-1 winners list names, at each position, exactly the bye of that slot |
| BracketStability.ResolvedIsStable | bracket.py:41 | resolving the byes of such a table leaves nothing for `advance_winners` to change |
| BracketStability.GenerateThenAdvance | bracket.py:40-41 | a bracket generated on an empty table is a fixed point of `advance_winners`: byes sit where the pass would put them |

## Left out

- The user interface in app.py is not part of this model.
- Connections, transactions, `PRAGMA foreign_keys` and the FOREIGN KEY constraints are not modelled. Participant and winner ids are plain numbers, not checked against the players table.
- The random number generator and its seed are not modelled. `FillRound2WithRandomLosers` takes the shuffled losers list as a parameter. The only thing required of it is that it reorders the losers the query returns, so every outcome of `rng.shuffle` is covered.
- The row order of the losers query has no ORDER BY. The model reads the rows in key order, which the shuffle makes immaterial.
- BracketBuilder.NextPowerOfTwo: computed exactly on integers. The source uses the floating-point `math.log2`, whose rounding for very large n is not modelled. The same applies to `rounds = int(math.log2(size))`.
- Ledger.Store.ListPendingMatches: returns whole match rows. The source selects only id, round, slot and both participants.
- Ledger.Store.SetMatchResult: scores and statistics are unbounded integers. SQLite's 64-bit INTEGER limit is not modelled.
- Exceptions (`ValueError`) become `Fail` outcomes that change nothing. The model does not distinguish their messages.
- Player names are sequences of code points. Python's `strip()` is modelled over the Unicode whitespace set, and SQLite's BINARY collation as code-point order, which agrees with UTF-8 byte order.
