/** Bracket generation (`next_power_of_two`, `generate_single_elim`): the
    entrants are padded with empty places up to the next power of two and
    paired in order; a round-1 match is created only for a pair holding at
    least one entrant. Every later round r up to log2(size) gets
    size / 2^r empty matches. The rows are written with `insert_matches`
    and the byes resolved at once. */
module BracketBuilder {
  import opened Schema
  import opened Ledger
  import ByeResolver

  function Pow2(k: nat): (p: nat)
    ensures p >= 1
  {
    if k == 0 then 1 else 2 * Pow2(k - 1)
  }

  ghost predicate IsPowerOfTwo(p: int)
  {
    exists k: nat :: Pow2(k) == p
  }

  lemma Pow2Monotone(a: nat, b: nat)
    requires a <= b
    ensures Pow2(a) <= Pow2(b)
    decreases b
  {
    if a < b {
      Pow2Monotone(a, b - 1);
    }
  }

  /** The least k with n <= 2^k: ceil(log2 n) for n >= 1, and 0 for n <= 1. */
  function CeilLog2(n: int): (k: nat)
    ensures n <= Pow2(k)
    ensures k > 0 ==> Pow2(k - 1) < n
    decreases if n > 1 then n else 0
  {
    if n <= 1 then 0 else 1 + CeilLog2((n + 1) / 2)
  }

  /** `next_power_of_two`: 1 for n <= 1, otherwise the least power of two
      not below n, which is below 2n. */
  function NextPowerOfTwo(n: int): (p: nat)
    ensures IsPowerOfTwo(p) && n <= p
    ensures n <= 1 ==> p == 1
    ensures n >= 2 ==> p < 2 * n
  {
    if n <= 1 then
      assert Pow2(0) == 1;
      1
    else
      var k := CeilLog2(n);
      assert Pow2(k) == 2 * Pow2(k - 1);
      Pow2(k)
  }

  /** No power of two at or above n lies below `next_power_of_two(n)`. */
  lemma NextPowerOfTwoLeast(n: int, k: nat)
    requires n <= Pow2(k)
    ensures NextPowerOfTwo(n) <= Pow2(k)
  {
    if n >= 2 {
      var c := CeilLog2(n);
      if k < c {
        Pow2Monotone(k, c - 1);
      }
      Pow2Monotone(c, k);
    }
  }

  /** Place `k` of the padded list: entrant `k`, or an empty place. */
  function Entry(ids: seq<nat>, k: int): Option<nat>
  {
    if 0 <= k < |ids| then Some(ids[k]) else None
  }

  /** The round-1 tuples: one per pair of places holding an entrant. */
  function Round1Rows(ids: seq<nat>): (rows: seq<Row>)
    ensures |rows| == (|ids| + 1) / 2
  {
    seq((|ids| + 1) / 2, k requires 0 <= k < (|ids| + 1) / 2 => Row(1, k + 1, Entry(ids, 2 * k), Entry(ids, 2 * k + 1)))
  }

  /** The number of matches of round `r` in a bracket of `size` places: `size // 2**r`. */
  function Slots(size: nat, r: nat): nat
  {
    var d := Pow2(r);
    QuotientNat(size, d);
    size / d
  }

  /** Kept apart so that the solver sees the division with a plain
      divisor rather than a call to `Pow2`. */
  lemma QuotientNat(a: nat, d: int)
    requires d >= 1
    ensures a / d >= 0
  {
  }

  /** The empty matches of round `r` in a bracket of `size` places. */
  function Block(size: nat, r: nat): seq<Row>
  {
    seq(Slots(size, r), s requires 0 <= s < Slots(size, r) => Row(r, s + 1, None, None))
  }

  /** The empty matches of rounds 2 to `last`. */
  function Skeleton(size: nat, last: nat): seq<Row>
  {
    if last < 2 then [] else Skeleton(size, last - 1) + Block(size, last)
  }

  /** Every tuple `generate_single_elim` hands to `insert_matches`, in order. */
  function BracketRows(ids: seq<nat>): seq<Row>
  {
    Round1Rows(ids) + Skeleton(NextPowerOfTwo(|ids|), CeilLog2(|ids|))
  }

  /** The round-1 loop: walks the padded list two places at a time and
      keeps each pair holding at least one entrant, numbering slots from 1. */
  method PairEntrants(ids: seq<nat>, size: nat) returns (rows: seq<Row>)
    requires |ids| <= size && size % 2 == 0
    ensures rows == Round1Rows(ids)
  {
    var n := |ids|;
    var padded := seq(size, k requires 0 <= k < size => if k < n then Some(ids[k]) else None);
    rows := [];
    var slot := 1;
    var i := 0;
    while i < size
      invariant 0 <= i <= size && i % 2 == 0
      invariant slot - 1 == (if i < n then i else n + 1) / 2
      invariant rows == Round1Rows(ids)[..slot - 1]
    {
      var p1, p2 := padded[i], padded[i + 1];
      if !(p1.None? && p2.None?) {
        rows := rows + [Row(1, slot, p1, p2)];
        slot := slot + 1;
      }
      i := i + 2;
    }
  }

  /** The loop over rounds 2 to `rounds`. */
  method EmptyRounds(size: nat, rounds: nat) returns (rows: seq<Row>)
    ensures rows == Skeleton(size, rounds)
  {
    rows := [];
    var r := 2;
    while r <= rounds
      invariant 2 <= r <= rounds + 1 || (r == 2 && rounds < 2)
      invariant rows == Skeleton(size, r - 1)
    {
      rows := AppendRound(rows, size, r);
      r := r + 1;
    }
  }

  /** The loop over the slots of round `r`: appends its empty matches in slot order. */
  method AppendRound(rows: seq<Row>, size: nat, r: nat) returns (out: seq<Row>)
    ensures out == rows + Block(size, r)
  {
    out := rows;
    var slots := Slots(size, r);
    var s := 1;
    while s <= slots
      invariant 1 <= s <= slots + 1
      invariant out == rows + Block(size, r)[..s - 1]
    {
      assert Block(size, r)[..s] == Block(size, r)[..s - 1] + [Row(r, s, None, None)];
      out := out + [Row(r, s, None, None)];
      s := s + 1;
    }
    assert Block(size, r)[..slots] == Block(size, r);
  }

  /** Builds the bracket of `ids`, stores it and resolves the byes; fails
      with nothing written when there are fewer than two entrants. */
  method GenerateSingleElim(db: Store, ids: seq<nat>) returns (res: Outcome)
    requires db.Valid()
    modifies db
    ensures db.Valid()
    ensures res == if |ids| < 2 then Fail(InvalidInput) else Ok
    ensures res.Fail? ==> db.matches == old(db.matches) && db.nextMatchId == old(db.nextMatchId)
    ensures res.Ok? ==> db.matches == ByeResolver.ByesResolved(InsertAll(old(db.matches), BracketRows(ids), old(db.nextMatchId)))
    ensures res.Ok? ==> db.nextMatchId == old(db.nextMatchId) + |BracketRows(ids)|
    ensures db.players == old(db.players) && db.nextPlayerId == old(db.nextPlayerId)
  {
    var n := |ids|;
    if n < 2 {
      return Fail(InvalidInput);
    }
    var size := NextPowerOfTwo(n);
    var rounds := CeilLog2(n);
    assert size == 2 * Pow2(rounds - 1);
    var first := PairEntrants(ids, size);
    var later := EmptyRounds(size, rounds);
    db.InsertMatches(first + later);
    ByeResolver.AutoAdvanceByes(db);
    return Ok;
  }

  // ---------------------------------------------------------------------
  // The shape of the bracket
  // ---------------------------------------------------------------------

  /** The entrants a tuple seats, p1 first. */
  function Sides(row: Row): seq<nat>
  {
    (if row.p1.Some? then [row.p1.value] else []) + (if row.p2.Some? then [row.p2.value] else [])
  }

  /** The entrants seated by a list of tuples, in order. */
  function Seated(rows: seq<Row>): seq<nat>
  {
    if rows == [] then [] else Seated(rows[..|rows| - 1]) + Sides(rows[|rows| - 1])
  }

  lemma {:induction false} SeatedPrefix(ids: seq<nat>, m: nat)
    requires m <= (|ids| + 1) / 2
    ensures Seated(Round1Rows(ids)[..m]) == ids[..if 2 * m <= |ids| then 2 * m else |ids|]
  {
    if m > 0 {
      var rs := Round1Rows(ids);
      SeatedPrefix(ids, m - 1);
      assert rs[..m][..m - 1] == rs[..m - 1] && rs[..m][m - 1] == rs[m - 1];
      var hi := if 2 * m <= |ids| then 2 * m else |ids|;
      Round1Pair(ids, m - 1);
      SliceJoin(ids, 2 * m - 2, hi);
    }
  }

  /** Slot k+1 of round 1 seats entrants 2k and 2k+1, or 2k alone at the end. */
  lemma Round1Pair(ids: seq<nat>, k: nat)
    requires k < (|ids| + 1) / 2
    ensures Sides(Round1Rows(ids)[k]) == ids[2 * k..if 2 * k + 2 <= |ids| then 2 * k + 2 else |ids|]
  {
    assert Round1Rows(ids)[k] == Row(1, k + 1, Entry(ids, 2 * k), Entry(ids, 2 * k + 1));
    if 2 * k + 2 <= |ids| {
      assert ids[2 * k..2 * k + 2] == [ids[2 * k], ids[2 * k + 1]];
    } else {
      assert ids[2 * k..|ids|] == [ids[2 * k]];
    }
  }

  lemma SliceJoin(s: seq<nat>, lo: nat, hi: nat)
    requires lo <= hi <= |s|
    ensures s[..lo] + s[lo..hi] == s[..hi]
  {
  }

  /** Round 1 seats every entrant exactly once, in the order given: entrants
      2k and 2k+1 meet in slot k+1. No round-1 match is empty, and the only
      one with an empty side is the last, when the number of entrants is odd. */
  lemma Round1Seating(ids: seq<nat>)
    ensures Seated(Round1Rows(ids)) == ids
    ensures forall k :: 0 <= k < |Round1Rows(ids)| ==>
      Round1Rows(ids)[k].slot == k + 1 && Round1Rows(ids)[k].p1 == Some(ids[2 * k])
    ensures forall k :: 0 <= k < |Round1Rows(ids)| ==>
      (Round1Rows(ids)[k].p2.None? <==> |ids| % 2 == 1 && k == |ids| / 2)
  {
    var rs := Round1Rows(ids);
    SeatedPrefix(ids, |rs|);
    assert rs[..|rs|] == rs;
    assert ids[..|ids|] == ids;
    forall k | 0 <= k < |rs|
      ensures rs[k].slot == k + 1 && rs[k].p1 == Some(ids[2 * k])
      ensures rs[k].p2.None? <==> |ids| % 2 == 1 && k == |ids| / 2
    {
      Round1Slot(ids, k);
    }
  }

  lemma Round1Slot(ids: seq<nat>, k: nat)
    requires k < (|ids| + 1) / 2
    ensures Round1Rows(ids)[k].slot == k + 1 && Round1Rows(ids)[k].p1 == Some(ids[2 * k])
    ensures Round1Rows(ids)[k].p2.None? <==> |ids| % 2 == 1 && k == |ids| / 2
  {
    assert Round1Rows(ids)[k] == Row(1, k + 1, Entry(ids, 2 * k), Entry(ids, 2 * k + 1));
  }

  /** Rounds 2 to `last` consist of exactly the empty matches (r, s) with
      1 <= s <= size // 2**r. */
  lemma {:induction false} SkeletonShape(size: nat, last: nat, row: Row)
    ensures row in Skeleton(size, last) <==>
      2 <= row.round <= last && 1 <= row.slot <= Slots(size, row.round) && row.p1.None? && row.p2.None?
  {
    if last >= 2 {
      SkeletonShape(size, last - 1, row);
      if row in Block(size, last) {
        var s :| 0 <= s < Slots(size, last) && Block(size, last)[s] == row;
      }
      if row.round == last && 1 <= row.slot <= Slots(size, last) && row.p1.None? && row.p2.None? {
        assert Block(size, last)[row.slot - 1] == row;
      }
    }
  }

  predicate RowLess(a: Row, b: Row)
  {
    a.round < b.round || (a.round == b.round && a.slot < b.slot)
  }

  /** Tuples in strictly increasing (round, slot) order, so no key repeats. */
  predicate RowsOrdered(rows: seq<Row>)
  {
    forall i, j :: 0 <= i < j < |rows| ==> RowLess(rows[i], rows[j])
  }

  lemma RowsOrderedAppend(a: seq<Row>, b: seq<Row>)
    requires RowsOrdered(a) && RowsOrdered(b)
    requires forall x, y :: x in a && y in b ==> RowLess(x, y)
    ensures RowsOrdered(a + b)
  {
    forall i, j | 0 <= i < j < |a + b| ensures RowLess((a + b)[i], (a + b)[j]) {
      if i < |a| && j >= |a| {
        assert (a + b)[i] in a && (a + b)[j] in b;
      }
    }
  }

  lemma {:induction false} SkeletonOrdered(size: nat, last: nat)
    ensures RowsOrdered(Skeleton(size, last))
  {
    if last >= 2 {
      SkeletonOrdered(size, last - 1);
      forall x, y | x in Skeleton(size, last - 1) && y in Block(size, last) ensures RowLess(x, y) {
        SkeletonShape(size, last - 1, x);
      }
      RowsOrderedAppend(Skeleton(size, last - 1), Block(size, last));
    }
  }

  /** The tuples of a bracket come in strictly increasing key order: no
      tuple overwrites another when they are written. */
  lemma BracketRowsOrdered(ids: seq<nat>)
    ensures RowsOrdered(BracketRows(ids))
  {
    var size := NextPowerOfTwo(|ids|);
    var last := CeilLog2(|ids|);
    SkeletonOrdered(size, last);
    forall x, y | x in Round1Rows(ids) && y in Skeleton(size, last) ensures RowLess(x, y) {
      SkeletonShape(size, last, y);
    }
    RowsOrderedAppend(Round1Rows(ids), Skeleton(size, last));
  }

  /** The rows `insert_matches` creates for `rows` when no key is taken:
      consecutive ids from `nextId`, all PENDING. */
  function NewMatches(rows: seq<Row>, nextId: nat): (ms: seq<Match>)
    ensures |ms| == |rows|
  {
    seq(|rows|, k requires 0 <= k < |rows| => NewMatch(rows[k], nextId + k))
  }

  /** Generated tuples in key order make rows in key order. */
  lemma NewMatchesOrdered(rows: seq<Row>, nextId: nat)
    requires RowsOrdered(rows)
    ensures KeyOrdered(NewMatches(rows, nextId))
  {
    var ms := NewMatches(rows, nextId);
    forall i, j | 0 <= i < j < |ms| ensures KeyLess(ms[i], ms[j]) {
      assert RowLess(rows[i], rows[j]);
    }
  }

  /** The front part of a key-ordered table is key-ordered and below its last row. */
  lemma OrderedInit(ms: seq<Match>, m: Match)
    requires KeyOrdered(ms + [m])
    ensures KeyOrdered(ms)
    ensures forall i :: 0 <= i < |ms| ==> KeyLess(ms[i], m)
  {
    var all := ms + [m];
    forall i, j | 0 <= i < j < |ms| ensures KeyLess(ms[i], ms[j]) {
      assert all[i] == ms[i] && all[j] == ms[j];
    }
    forall i | 0 <= i < |ms| ensures KeyLess(ms[i], m) {
      assert all[i] == ms[i] && all[|ms|] == m;
    }
  }

  /** The back part of a key-ordered table is key-ordered. */
  lemma OrderedTail(ms: seq<Match>, k: nat)
    requires KeyOrdered(ms) && k <= |ms|
    ensures KeyOrdered(ms[k..])
  {
    forall i, j | 0 <= i < j < |ms| - k ensures KeyLess(ms[k..][i], ms[k..][j]) {
      assert ms[k..][i] == ms[k + i] && ms[k..][j] == ms[k + j];
    }
  }

  /** The front part of a key-ordered table is key-ordered. */
  lemma OrderedFront(ms: seq<Match>, k: nat)
    requires KeyOrdered(ms) && k <= |ms|
    ensures KeyOrdered(ms[..k])
  {
    forall i, j | 0 <= i < j < k ensures KeyLess(ms[..k][i], ms[..k][j]) {
      assert ms[..k][i] == ms[i] && ms[..k][j] == ms[j];
    }
  }

  /** Upserting a row whose key is beyond every key of the table appends it. */
  lemma {:induction false} UpsertAppend(ms: seq<Match>, m: Match)
    requires KeyOrdered(ms) && KeyOrdered(ms + [m])
    ensures Upsert(ms, m) == ms + [m]
  {
    OrderedInit(ms, m);
    if ms != [] {
      var all := ms + [m];
      OrderedTail(ms, 1);
      OrderedTail(all, 1);
      assert all[1..] == ms[1..] + [m];
      UpsertAppend(ms[1..], m);
      assert KeyLess(ms[0], m);
      assert ms + [m] == [ms[0]] + (ms[1..] + [m]);
    }
  }

  /** Tuples whose rows follow every key of the table, in key order, are
      appended as they come, with consecutive ids. */
  lemma {:induction false} InsertAllAppend(ms: seq<Match>, rows: seq<Row>, nextId: nat)
    requires KeyOrdered(ms) && KeyOrdered(ms + NewMatches(rows, nextId))
    ensures InsertAll(ms, rows, nextId) == ms + NewMatches(rows, nextId)
    decreases |rows|
  {
    if rows != [] {
      var all := ms + NewMatches(rows, nextId);
      var m := NewMatch(rows[0], nextId);
      var ms' := ms + [m];
      assert ms' + NewMatches(rows[1..], nextId + 1) == all;
      OrderedFront(all, |ms'|);
      assert all[..|ms'|] == ms';
      UpsertAppend(ms, m);
      InsertAllAppend(ms', rows[1..], nextId + 1);
    }
  }

  /** On an empty matches table, `generate_single_elim` writes the bracket
      tuples one row each, in order, with consecutive ids. */
  lemma FreshBracket(ids: seq<nat>, nextId: nat)
    ensures InsertAll([], BracketRows(ids), nextId) == NewMatches(BracketRows(ids), nextId)
  {
    BracketRowsOrdered(ids);
    NewMatchesOrdered(BracketRows(ids), nextId);
    assert [] + NewMatches(BracketRows(ids), nextId) == NewMatches(BracketRows(ids), nextId);
    InsertAllAppend([], BracketRows(ids), nextId);
  }
}
