/** How bracket generation, bye resolution and winner propagation fit
    together: a freshly generated bracket is already in the state
    `advance_winners` would produce, because every bye was placed exactly
    where the pass places a winner. */
module BracketStability {
  import opened Schema
  import opened Ledger
  import opened ByeResolver
  import opened WinnerPropagator
  import BracketBuilder

  /** When the first `m` rows are exactly the rows of round `r`, they are that round's rows. */
  lemma {:induction false} RoundRowsPrefix(ms: seq<Match>, r: int, m: nat)
    requires m <= |ms|
    requires forall k :: 0 <= k < m ==> ms[k].round == r
    requires forall k :: m <= k < |ms| ==> ms[k].round != r
    ensures RoundRows(ms, r) == ms[..m]
  {
    if ms != [] {
      if m > 0 {
        RoundRowsPrefix(ms[1..], r, m - 1);
        assert ms[..m] == [ms[0]] + ms[1..][..m - 1];
      } else {
        RoundRowsPrefix(ms[1..], r, 0);
      }
    }
  }

  /** A round none of whose matches is DONE has no winners to hand on. */
  lemma PendingRoundNoWinners(ms: seq<Match>, r: int, j: int)
    requires forall i :: 0 <= i < |ms| && ms[i].round == r ==> ms[i].status == Pending
    ensures WinnerAt(ms, r, j) == None
  {
    var rs := RoundRows(ms, r);
    WinnersAt(ms, r, j);
    RoundRowsMembers(ms, r);
    if 0 <= j < |rs| {
      assert rs[j] in rs;
    }
  }

  /** The shape a generated table has before its byes are resolved: round 1
      in slots 1..m at the front, then later rounds of empty PENDING matches. */
  predicate Unresolved(ms: seq<Match>, m: nat)
  {
    KeyOrdered(ms) && m <= |ms| &&
    (forall k :: 0 <= k < m ==> ms[k].round == 1 && ms[k].slot == k + 1 && ms[k].status == Pending) &&
    (forall k :: m <= k < |ms| ==> ms[k].round >= 2 && ms[k].status == Pending && ms[k].p1.None? && ms[k].p2.None?)
  }

  /** In such a table, the bye list of a round-1 slot is the winner the
      resolved table shows for it. */
  lemma ByeIsWinner(ms: seq<Match>, m: nat, k: nat)
    requires Unresolved(ms, m) && k < m
    ensures WinnerOf(ByesResolved(ms)[k]) == ByeFrom(ms, |ms|, k + 1)
  {
    var b := ByeFrom(ms, |ms|, k + 1);
    if b.Some? {
      var i := ByeFromWitness(ms, |ms|, k + 1);
      assert SameKey(ms[i], ms[k]);
    }
  }

  /** The winners list of round 1 after resolution lists the byes by slot. */
  lemma Round1Winners(ms: seq<Match>, m: nat, j: int)
    requires Unresolved(ms, m)
    ensures WinnerAt(ByesResolved(ms), 1, j) == ByeFrom(ms, |ms|, j + 1)
  {
    var t := ByesResolved(ms);
    WinnersAt(t, 1, j);
    RoundRowsPrefix(t, 1, m);
    if 0 <= j < m {
      ByeIsWinner(ms, m, j);
    } else {
      ByeFromNone(ms, |ms|, j + 1);
    }
  }

  /** Bye resolution leaves every match of round 2 or later PENDING. */
  lemma LaterRoundsPending(ms: seq<Match>, m: nat)
    requires Unresolved(ms, m)
    ensures forall i :: 0 <= i < |ms| && ByesResolved(ms)[i].round >= 2 ==> ByesResolved(ms)[i].status == Pending
  {
    var t := ByesResolved(ms);
    forall i | 0 <= i < |ms| && t[i].round >= 2 ensures t[i].status == Pending {
      assert t[i] == ResolvedRow(ms, |ms|, i);
      assert ms[i].round == t[i].round;
    }
  }

  /** A round-2 match of the resolved table holds, on each side, the
      round-1 winners-list entry the pass would write there. */
  lemma Round2Sides(ms: seq<Match>, m: nat, i: nat)
    requires Unresolved(ms, m) && i < |ms| && ms[i].round == 2
    ensures var t := ByesResolved(ms); var s := ms[i].slot;
      t[i].p1 == WinnerAt(t, 1, 2 * s - 2) && t[i].p2 == WinnerAt(t, 1, 2 * s - 1)
  {
    var s := ms[i].slot;
    Round2Byes(ms, m, i);
    Round1Winners(ms, m, 2 * s - 2);
    Round1Winners(ms, m, 2 * s - 1);
  }

  /** An empty round-2 match takes, on each side, the bye of its feeder slot. */
  lemma Round2Byes(ms: seq<Match>, m: nat, i: nat)
    requires Unresolved(ms, m) && i < |ms| && ms[i].round == 2
    ensures var t := ByesResolved(ms); var s := ms[i].slot;
      t[i].p1 == ByeFrom(ms, |ms|, 2 * s - 1) && t[i].p2 == ByeFrom(ms, |ms|, 2 * s)
  {
    assert ByesResolved(ms)[i] == ResolvedRow(ms, |ms|, i);
    assert i >= m;
  }

  /** A match of round 3 or later is empty, and so is the winners list of
      the round before it. */
  lemma LaterSides(ms: seq<Match>, m: nat, i: nat)
    requires Unresolved(ms, m) && i < |ms| && ms[i].round >= 3
    ensures var t := ByesResolved(ms); var r, s := ms[i].round, ms[i].slot;
      t[i].p1 == WinnerAt(t, r - 1, 2 * s - 2) && t[i].p2 == WinnerAt(t, r - 1, 2 * s - 1)
  {
    var t := ByesResolved(ms);
    var r, s := ms[i].round, ms[i].slot;
    assert t[i] == ResolvedRow(ms, |ms|, i);
    assert i >= m;
    assert t[i] == ms[i];
    LaterRoundsPending(ms, m);
    PendingRoundNoWinners(t, r - 1, 2 * s - 2);
    PendingRoundNoWinners(t, r - 1, 2 * s - 1);
  }

  /** A row whose sides already hold the entries the pass would write is
      left as it is by the pass. */
  lemma PropagatedFixed(t: seq<Match>, x: Match)
    requires x.round >= 2 ==>
      x.p1 == WinnerAt(t, x.round - 1, 2 * x.slot - 2) && x.p2 == WinnerAt(t, x.round - 1, 2 * x.slot - 1)
    ensures Propagated(t, x) == x
  {
  }

  /** Row `i` of a resolved table is already what the pass would write. */
  lemma RowStable(ms: seq<Match>, m: nat, i: nat)
    requires Unresolved(ms, m) && i < |ms|
    ensures Propagated(ByesResolved(ms), ByesResolved(ms)[i]) == ByesResolved(ms)[i]
  {
    var t := ByesResolved(ms);
    assert t[i].round == ms[i].round && t[i].slot == ms[i].slot;
    if ms[i].round == 2 {
      Round2Sides(ms, m, i);
    } else if ms[i].round >= 3 {
      LaterSides(ms, m, i);
    }
    PropagatedFixed(t, t[i]);
  }

  /** Resolving the byes of such a table leaves nothing for
      `advance_winners` to change. */
  lemma ResolvedIsStable(ms: seq<Match>, m: nat)
    requires Unresolved(ms, m)
    ensures Advanced(ByesResolved(ms)) == ByesResolved(ms)
  {
    var t := ByesResolved(ms);
    forall i | 0 <= i < |t| ensures Advanced(t)[i] == t[i] {
      RowStable(ms, m, i);
    }
  }

  /** A freshly generated bracket has the unresolved shape. */
  lemma GeneratedShape(ids: seq<nat>, nextId: nat)
    ensures Unresolved(BracketBuilder.NewMatches(BracketBuilder.BracketRows(ids), nextId), (|ids| + 1) / 2)
  {
    var rows := BracketBuilder.BracketRows(ids);
    var ms := BracketBuilder.NewMatches(rows, nextId);
    var r1 := BracketBuilder.Round1Rows(ids);
    var later := BracketBuilder.Skeleton(BracketBuilder.NextPowerOfTwo(|ids|), BracketBuilder.CeilLog2(|ids|));
    assert rows == r1 + later;
    BracketBuilder.BracketRowsOrdered(ids);
    BracketBuilder.NewMatchesOrdered(rows, nextId);
    Round1Part(r1, ms, ids, nextId);
    SkeletonPart(ids, ms, nextId);
  }

  /** The first rows of a generated table are round 1, slot by slot. */
  lemma Round1Part(r1: seq<Row>, ms: seq<Match>, ids: seq<nat>, nextId: nat)
    requires r1 == BracketBuilder.Round1Rows(ids)
    requires ms == BracketBuilder.NewMatches(BracketBuilder.BracketRows(ids), nextId)
    ensures |r1| == (|ids| + 1) / 2 <= |ms|
    ensures forall k :: 0 <= k < |r1| ==> ms[k].round == 1 && ms[k].slot == k + 1 && ms[k].status == Pending
  {
    var rows := BracketBuilder.BracketRows(ids);
    assert rows == r1 + BracketBuilder.Skeleton(BracketBuilder.NextPowerOfTwo(|ids|), BracketBuilder.CeilLog2(|ids|));
    forall k | 0 <= k < |r1| ensures ms[k].round == 1 && ms[k].slot == k + 1 && ms[k].status == Pending {
      assert rows[k] == r1[k];
      assert ms[k] == NewMatch(rows[k], nextId + k);
    }
  }

  /** The remaining rows of a generated table are empty matches of later rounds. */
  lemma SkeletonPart(ids: seq<nat>, ms: seq<Match>, nextId: nat)
    requires ms == BracketBuilder.NewMatches(BracketBuilder.BracketRows(ids), nextId)
    ensures forall k :: (|ids| + 1) / 2 <= k < |ms| ==>
      ms[k].round >= 2 && ms[k].status == Pending && ms[k].p1.None? && ms[k].p2.None?
  {
    var size := BracketBuilder.NextPowerOfTwo(|ids|);
    var last := BracketBuilder.CeilLog2(|ids|);
    var r1 := BracketBuilder.Round1Rows(ids);
    var later := BracketBuilder.Skeleton(size, last);
    var rows := BracketBuilder.BracketRows(ids);
    assert rows == r1 + later;
    forall k | |r1| <= k < |ms| ensures ms[k].round >= 2 && ms[k].status == Pending && ms[k].p1.None? && ms[k].p2.None? {
      var row := rows[k];
      assert row == later[k - |r1|];
      assert row in later;
      BracketBuilder.SkeletonShape(size, last, row);
      assert ms[k] == NewMatch(row, nextId + k);
    }
  }

  /** After `generate_single_elim` on an empty matches table, a call to
      `advance_winners` changes nothing. */
  lemma GenerateThenAdvance(ids: seq<nat>, nextId: nat)
    ensures var t := ByesResolved(InsertAll([], BracketBuilder.BracketRows(ids), nextId));
      Advanced(t) == t
  {
    BracketBuilder.FreshBracket(ids, nextId);
    GeneratedShape(ids, nextId);
    ResolvedIsStable(BracketBuilder.NewMatches(BracketBuilder.BracketRows(ids), nextId), (|ids| + 1) / 2);
  }
}
