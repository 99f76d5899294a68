/** The round-2 backfill (`fill_round2_with_random_losers`): the losers of
    decided round-1 matches are shuffled, then popped from the end of the
    shuffled list, skipping any already drawn, and written into the empty
    side of each PENDING round-2 match that has exactly one participant, in
    slot order, until the open matches or the losers run out. The shuffle
    is a parameter here: `shuffled` is any ordering of the losers list. */
module BackfillDrawer {
  import opened Schema
  import opened Ledger
  import WinnerPropagator

  function Min(a: int, b: int): int
  {
    if a <= b then a else b
  }

  /** The loser the losers query reports for a row: the other side of a
      DONE round-1 match with both sides and a winner, None when the winner
      is neither side or the row is not selected. */
  function LoserOf(m: Match): Option<nat>
  {
    if m.round == 1 && m.status == Done && m.p1.Some? && m.p2.Some? && m.winner.Some? then
      if m.winner == m.p1 then m.p2
      else if m.winner == m.p2 then m.p1
      else None
    else None
  }

  /** `loser_ids` before the shuffle: the non-NULL losers, one per selected row. */
  function Losers(ms: seq<Match>): seq<nat>
  {
    if ms == [] then []
    else (if LoserOf(ms[0]).Some? then [LoserOf(ms[0]).value] else []) + Losers(ms[1..])
  }

  /** The distinct players of a list. */
  function Elems(s: seq<nat>): set<nat>
  {
    set x | x in s
  }

  /** The distinct losers. */
  function LoserSet(ms: seq<Match>): set<nat>
  {
    Elems(Losers(ms))
  }

  /** A player is a loser exactly when some row reports them as one. */
  lemma {:induction false} LosersExact(ms: seq<Match>, x: nat)
    ensures x in Losers(ms) <==> exists i :: 0 <= i < |ms| && LoserOf(ms[i]) == Some(x)
  {
    if ms != [] {
      LosersExact(ms[1..], x);
      if x in Losers(ms[1..]) {
        var i :| 0 <= i < |ms[1..]| && LoserOf(ms[1..][i]) == Some(x);
        assert LoserOf(ms[i + 1]) == Some(x);
      }
      if exists i :: 0 <= i < |ms| && LoserOf(ms[i]) == Some(x) {
        var i :| 0 <= i < |ms| && LoserOf(ms[i]) == Some(x);
        if i > 0 {
          assert LoserOf(ms[1..][i - 1]) == Some(x);
        }
      }
    }
  }

  /** The sequence of picks made by popping `pool` from its end and
      skipping players already in `used`. */
  function Picks(pool: seq<nat>, used: set<nat>): seq<nat>
    decreases |pool|
  {
    if pool == [] then []
    else
      var c := pool[|pool| - 1];
      if c in used then Picks(pool[..|pool| - 1], used)
      else [c] + Picks(pool[..|pool| - 1], used + {c})
  }

  /** The picks are the players of the pool not yet used, each exactly once. */
  lemma PicksDistinct(pool: seq<nat>, used: set<nat>)
    ensures forall x :: x in Picks(pool, used) <==> x in pool && x !in used
    ensures forall a, b :: 0 <= a < b < |Picks(pool, used)| ==> Picks(pool, used)[a] != Picks(pool, used)[b]
    ensures |Picks(pool, used)| == |Elems(pool) - used|
  {
    PicksMembers(pool, used);
    PicksNoRepeat(pool, used);
    PicksCount(pool, used);
  }

  lemma {:induction false} PicksMembers(pool: seq<nat>, used: set<nat>)
    ensures forall x :: x in Picks(pool, used) <==> x in pool && x !in used
    decreases |pool|
  {
    if pool != [] {
      var c := pool[|pool| - 1];
      var q := pool[..|pool| - 1];
      assert pool == q + [c];
      if c in used {
        PicksMembers(q, used);
      } else {
        PicksMembers(q, used + {c});
      }
    }
  }

  lemma {:induction false} PicksNoRepeat(pool: seq<nat>, used: set<nat>)
    ensures forall a, b :: 0 <= a < b < |Picks(pool, used)| ==> Picks(pool, used)[a] != Picks(pool, used)[b]
    decreases |pool|
  {
    if pool != [] {
      var c := pool[|pool| - 1];
      var q := pool[..|pool| - 1];
      if c in used {
        PicksNoRepeat(q, used);
      } else {
        var rest := Picks(q, used + {c});
        var p := Picks(pool, used);
        assert p == [c] + rest;
        PicksNoRepeat(q, used + {c});
        PicksMembers(q, used + {c});
        forall a, b | 0 <= a < b < |p| ensures p[a] != p[b] {
          assert p[b] == rest[b - 1] && rest[b - 1] in rest;
          if a > 0 {
            assert p[a] == rest[a - 1];
          }
        }
      }
    }
  }

  lemma {:induction false} PicksCount(pool: seq<nat>, used: set<nat>)
    ensures |Picks(pool, used)| == |Elems(pool) - used|
    decreases |pool|
  {
    if pool != [] {
      var c := pool[|pool| - 1];
      var q := pool[..|pool| - 1];
      assert pool == q + [c];
      assert Elems(pool) == Elems(q) + {c};
      if c in used {
        PicksCount(q, used);
        assert Elems(pool) - used == Elems(q) - used;
      } else {
        PicksCount(q, used + {c});
        var rest := Elems(q) - (used + {c});
        assert Elems(pool) - used == rest + {c};
        assert c !in rest;
      }
    }
  }

  /** A PENDING round-2 match with exactly one participant. */
  predicate IsOpen(m: Match)
  {
    m.round == 2 && m.status == Pending && (m.p1.None? != m.p2.None?)
  }

  /** The number of open matches. */
  function OpenCount(ms: seq<Match>): (n: nat)
    ensures n <= |ms|
  {
    if ms == [] then 0 else (if IsOpen(ms[0]) then 1 else 0) + OpenCount(ms[1..])
  }

  /** An open match with `x` written into its empty side. */
  function Fill(m: Match, x: nat): Match
    requires IsOpen(m)
  {
    if m.p1.None? then m.(p1 := Some(x)) else m.(p2 := Some(x))
  }

  /** The table after handing `picks` out, in order, to the open matches in
      slot order; open matches beyond the picks keep their hole. */
  function FillOpen(ms: seq<Match>, picks: seq<nat>): (r: seq<Match>)
    ensures |r| == |ms|
  {
    if ms == [] then []
    else if IsOpen(ms[0]) && picks != [] then [Fill(ms[0], picks[0])] + FillOpen(ms[1..], picks[1..])
    else [ms[0]] + FillOpen(ms[1..], picks)
  }

  /** The draw rewrites participants only: ids, keys, results and status stay. */
  lemma {:induction false} FillOpenParticipantsOnly(ms: seq<Match>, picks: seq<nat>)
    ensures WinnerPropagator.ParticipantsOnly(ms, FillOpen(ms, picks))
    ensures SameKeys(ms, FillOpen(ms, picks))
  {
    var r := FillOpen(ms, picks);
    forall i | 0 <= i < |ms| ensures r[i] == ms[i].(p1 := r[i].p1, p2 := r[i].p2) {
      FillOpenAt(ms, picks, i);
    }
  }

  /** FillOpen on a suffix, unfolded by one row. */
  lemma FillOpenStep(ms: seq<Match>, i: nat, picks: seq<nat>)
    requires i < |ms|
    ensures FillOpen(ms[i..], picks) ==
      if IsOpen(ms[i]) && picks != [] then [Fill(ms[i], picks[0])] + FillOpen(ms[i + 1..], picks[1..])
      else [ms[i]] + FillOpen(ms[i + 1..], picks)
  {
    assert ms[i..][1..] == ms[i + 1..];
  }

  lemma {:induction false} FillOpenNoPicks(ms: seq<Match>)
    ensures FillOpen(ms, []) == ms
  {
    if ms != [] {
      FillOpenNoPicks(ms[1..]);
    }
  }

  lemma {:induction false} OpenCountPrefix(ms: seq<Match>, i: nat)
    requires i <= |ms|
    ensures OpenCount(ms[..i]) <= OpenCount(ms)
    ensures i < |ms| ==> OpenCount(ms[..i + 1]) == OpenCount(ms[..i]) + (if IsOpen(ms[i]) then 1 else 0)
  {
    if i > 0 {
      assert ms[..i][1..] == ms[1..][..i - 1];
      OpenCountPrefix(ms[1..], i - 1);
      if i < |ms| {
        assert ms[..i + 1][1..] == ms[1..][..i];
      }
    } else if i < |ms| {
      assert ms[..1][1..] == [];
    }
  }

  /** The `k`-th open match in slot order receives pick `k` when there is
      one; every other row is left as it was. */
  lemma {:induction false} FillOpenAt(ms: seq<Match>, picks: seq<nat>, i: nat)
    requires i < |ms|
    ensures var k := OpenCount(ms[..i]);
      FillOpen(ms, picks)[i] == if IsOpen(ms[i]) && k < |picks| then Fill(ms[i], picks[k]) else ms[i]
  {
    if i > 0 {
      assert ms[..i][1..] == ms[1..][..i - 1];
      if IsOpen(ms[0]) && picks != [] {
        FillOpenAt(ms[1..], picks[1..], i - 1);
      } else {
        FillOpenAt(ms[1..], picks, i - 1);
      }
    }
  }

  /** Each draw closes one hole: as many open matches remain as there were
      beyond the picks. */
  lemma {:induction false} FillOpenCount(ms: seq<Match>, picks: seq<nat>)
    ensures OpenCount(FillOpen(ms, picks)) == OpenCount(ms) - Min(OpenCount(ms), |picks|)
  {
    if ms != [] {
      var r := FillOpen(ms, picks);
      if IsOpen(ms[0]) && picks != [] {
        FillOpenCount(ms[1..], picks[1..]);
        assert r[1..] == FillOpen(ms[1..], picks[1..]);
      } else {
        FillOpenCount(ms[1..], picks);
        assert r[1..] == FillOpen(ms[1..], picks);
      }
    }
  }

  /** The inner loop of the draw: pops from the end of `pool` until a
      player not in `used` turns up, and takes that player. */
  method PopUnused(pool: seq<nat>, used: set<nat>) returns (pick: Option<nat>, rest: seq<nat>, used': set<nat>)
    ensures pick.None? ==> Picks(pool, used) == [] && rest == [] && used' == used
    ensures pick.Some? ==> pick.value !in used && used' == used + {pick.value}
    ensures pick.Some? ==> Picks(pool, used) == [pick.value] + Picks(rest, used')
  {
    rest, used' := pool, used;
    pick := None;
    while |rest| > 0
      invariant used' == used && Picks(rest, used) == Picks(pool, used)
      decreases |rest|
    {
      var candidate := rest[|rest| - 1];
      rest := rest[..|rest| - 1];
      if candidate !in used' {
        pick := Some(candidate);
        used' := used' + {candidate};
        return;
      }
    }
  }

  lemma Rejoin(s: seq<Match>, i: nat)
    requires i <= |s|
    ensures s[..i] + s[i..] == s
  {
  }

  /** The draw on a snapshot of the table: pops losers from the shuffled
      list into the open round-2 matches in slot order and counts the
      matches it filled. */
  method Draw(ms: seq<Match>, shuffled: seq<nat>) returns (updated: seq<Match>, filled: nat)
    ensures updated == FillOpen(ms, Picks(shuffled, {}))
    ensures filled == Min(OpenCount(ms), |Picks(shuffled, {})|)
  {
    ghost var all := Picks(shuffled, {});
    var loserIds := shuffled;
    if OpenCount(ms) == 0 || |loserIds| == 0 {
      DrawNothing(ms, shuffled);
      return ms, 0;
    }
    filled := 0;
    var used: set<nat> := {};
    updated := ms;
    var i := 0;
    while i < |ms|
      invariant 0 <= i <= |ms|
      invariant |updated| == |ms| && updated[i..] == ms[i..]
      invariant FillOpen(ms, all) == updated[..i] + FillOpen(ms[i..], Picks(loserIds, used))
      invariant filled + |Picks(loserIds, used)| == |all|
      invariant filled == OpenCount(ms[..i])
    {
      ghost var picks := Picks(loserIds, used);
      OpenCountPrefix(ms, i);
      if IsOpen(ms[i]) {
        var pick;
        pick, loserIds, used := PopUnused(loserIds, used);
        if pick.None? {
          DrawExhausted(ms, i, updated, all, filled);
          return;
        }
        var m := ms[i];
        var filledRow := if m.p1.None? then m.(p1 := pick) else m.(p2 := pick);
        DrawAdvance(ms, i, updated, filledRow, Picks(loserIds, used), picks);
        updated := updated[i := filledRow];
        filled := filled + 1;
      } else {
        DrawAdvance(ms, i, updated, ms[i], picks, picks);
      }
      i := i + 1;
    }
    DrawFinished(ms, updated, all, Picks(loserIds, used), filled);
  }

  /** With no open match or no loser the draw writes nothing. */
  lemma DrawNothing(ms: seq<Match>, shuffled: seq<nat>)
    requires OpenCount(ms) == 0 || |shuffled| == 0
    ensures FillOpen(ms, Picks(shuffled, {})) == ms
    ensures Min(OpenCount(ms), |Picks(shuffled, {})|) == 0
  {
    if OpenCount(ms) == 0 {
      FillOpenNoOpen(ms, Picks(shuffled, {}));
    } else {
      FillOpenNoPicks(ms);
    }
  }

  /** The scan reached the end of the table. */
  lemma DrawFinished(ms: seq<Match>, updated: seq<Match>, all: seq<nat>, rest: seq<nat>, filled: nat)
    requires |updated| == |ms|
    requires FillOpen(ms, all) == updated[..|ms|] + FillOpen(ms[|ms|..], rest)
    requires filled + |rest| == |all| && filled == OpenCount(ms[..|ms|])
    ensures updated == FillOpen(ms, all)
    ensures filled == Min(OpenCount(ms), |all|)
  {
    assert updated[..|ms|] == updated;
    assert ms[..|ms|] == ms;
  }

  /** The losers ran out at row `i`: the rest of the table stays as it is. */
  lemma DrawExhausted(ms: seq<Match>, i: nat, updated: seq<Match>, all: seq<nat>, filled: nat)
    requires i <= |ms| && |updated| == |ms| && updated[i..] == ms[i..]
    requires FillOpen(ms, all) == updated[..i] + FillOpen(ms[i..], [])
    requires filled == |all| && filled == OpenCount(ms[..i])
    ensures updated == FillOpen(ms, all)
    ensures filled == Min(OpenCount(ms), |all|)
  {
    FillOpenNoPicks(ms[i..]);
    Rejoin(updated, i);
    OpenCountPrefix(ms, i);
  }

  /** One row of the draw: the row at `i` takes its final value `x` and
      the picks left over move on to the rest of the table. */
  lemma DrawAdvance(ms: seq<Match>, i: nat, updated: seq<Match>, x: Match, rest: seq<nat>, picks: seq<nat>)
    requires i < |ms| && |updated| == |ms| && updated[i..] == ms[i..]
    requires x == if IsOpen(ms[i]) && picks != [] then Fill(ms[i], picks[0]) else ms[i]
    requires rest == if IsOpen(ms[i]) && picks != [] then picks[1..] else picks
    ensures updated[..i] + FillOpen(ms[i..], picks) == updated[i := x][..i + 1] + FillOpen(ms[i + 1..], rest)
    ensures updated[i := x][i + 1..] == ms[i + 1..]
    ensures x == ms[i] ==> updated[i := x] == updated
  {
    RowStep(ms, i, x, rest, picks);
    UpdateJoin(updated, i, x, FillOpen(ms[i + 1..], rest));
    UpdateRest(updated, ms, i, x);
  }

  /** FillOpen on the suffix from row `i` is that row's final value
      followed by the draw on the rest with the picks left over. */
  lemma RowStep(ms: seq<Match>, i: nat, x: Match, rest: seq<nat>, picks: seq<nat>)
    requires i < |ms|
    requires x == if IsOpen(ms[i]) && picks != [] then Fill(ms[i], picks[0]) else ms[i]
    requires rest == if IsOpen(ms[i]) && picks != [] then picks[1..] else picks
    ensures FillOpen(ms[i..], picks) == [x] + FillOpen(ms[i + 1..], rest)
  {
    FillOpenStep(ms, i, picks);
  }

  /** Writing `x` at `i` moves it from the head of the tail to the end of the prefix. */
  lemma UpdateJoin(s: seq<Match>, i: nat, x: Match, tail: seq<Match>)
    requires i < |s|
    ensures s[..i] + ([x] + tail) == s[i := x][..i + 1] + tail
  {
    assert s[i := x][..i + 1] == s[..i] + [x];
  }

  /** Writing at `i` leaves the part after `i` alone, and writing back the
      value already there changes nothing. */
  lemma UpdateRest(s: seq<Match>, ms: seq<Match>, i: nat, x: Match)
    requires i < |ms| && |s| == |ms| && s[i..] == ms[i..]
    ensures s[i := x][i + 1..] == ms[i + 1..]
    ensures x == ms[i] ==> s[i := x] == s
  {
    assert s[i] == s[i..][0];
    assert s[i := x][i + 1..] == s[i..][1..];
  }

  /** Draws on the table and commits the result. */
  method FillRound2WithRandomLosers(db: Store, shuffled: seq<nat>) returns (filled: nat)
    requires db.Valid()
    requires multiset(shuffled) == multiset(Losers(db.matches))
    modifies db
    ensures db.Valid()
    ensures db.matches == FillOpen(old(db.matches), Picks(shuffled, {}))
    ensures filled == Min(OpenCount(old(db.matches)), |LoserSet(old(db.matches))|)
    ensures db.players == old(db.players)
    ensures db.nextPlayerId == old(db.nextPlayerId) && db.nextMatchId == old(db.nextMatchId)
  {
    var ms := db.matches;
    var updated;
    updated, filled := Draw(ms, shuffled);
    DrawSize(ms, shuffled);
    FillOpenParticipantsOnly(ms, Picks(shuffled, {}));
    SameKeysValid(ms, updated, db.nextMatchId);
    db.matches := updated;
  }

  lemma {:induction false} FillOpenNoOpen(ms: seq<Match>, picks: seq<nat>)
    requires OpenCount(ms) == 0
    ensures FillOpen(ms, picks) == ms
  {
    if ms != [] {
      FillOpenNoOpen(ms[1..], picks);
    }
  }

  /** With the shuffled list a reordering of the losers, exactly the
      distinct losers are drawn, each once. */
  lemma DrawSize(ms: seq<Match>, shuffled: seq<nat>)
    requires multiset(shuffled) == multiset(Losers(ms))
    ensures Elems(Picks(shuffled, {})) == LoserSet(ms)
    ensures |Picks(shuffled, {})| == |LoserSet(ms)|
  {
    PicksDistinct(shuffled, {});
    var elems := Elems(shuffled);
    forall x ensures x in elems <==> x in LoserSet(ms) {
      assert x in shuffled <==> x in multiset(shuffled);
      assert x in Losers(ms) <==> x in multiset(Losers(ms));
    }
    assert elems == LoserSet(ms);
    assert elems - {} == elems;
  }

  /** What the draw writes into any one row: the row changes only if it is
      an open match, and then it receives a loser in its empty side. */
  lemma BackfillDrawRow(ms: seq<Match>, shuffled: seq<nat>, i: nat)
    requires multiset(shuffled) == multiset(Losers(ms))
    requires i < |ms|
    ensures var r := FillOpen(ms, Picks(shuffled, {}));
      r[i] != ms[i] ==> IsOpen(ms[i]) && exists x :: x in LoserSet(ms) && r[i] == Fill(ms[i], x)
  {
    var picks := Picks(shuffled, {});
    DrawSize(ms, shuffled);
    FillOpenAt(ms, picks, i);
    var k := OpenCount(ms[..i]);
    if FillOpen(ms, picks)[i] != ms[i] {
      assert picks[k] in Elems(picks);
    }
  }

  /** What the draw writes into two rows: two filled matches never receive
      the same player, and open matches are served in slot order, so a
      filled match has every earlier open match filled too. */
  lemma BackfillDraw(ms: seq<Match>, shuffled: seq<nat>, i: nat, j: nat)
    requires multiset(shuffled) == multiset(Losers(ms))
    requires i < j < |ms|
    ensures var r := FillOpen(ms, Picks(shuffled, {}));
      (IsOpen(ms[i]) && IsOpen(ms[j]) ==>
        forall x, y :: r[i] == Fill(ms[i], x) && r[j] == Fill(ms[j], y) ==> x != y) &&
      (r[j] != ms[j] && IsOpen(ms[i]) ==> r[i] != ms[i])
  {
    var picks := Picks(shuffled, {});
    var r := FillOpen(ms, picks);
    PicksDistinct(shuffled, {});
    DrawSize(ms, shuffled);
    FillOpenAt(ms, picks, i);
    FillOpenAt(ms, picks, j);
    var ki, kj := OpenCount(ms[..i]), OpenCount(ms[..j]);
    OpenCountPrefix(ms, i);
    OpenCountPrefix(ms[..j], i + 1);
    assert ms[..j][..i + 1] == ms[..i + 1];
    if IsOpen(ms[i]) && IsOpen(ms[j]) {
      forall x, y | r[i] == Fill(ms[i], x) && r[j] == Fill(ms[j], y) ensures x != y {
        FillFills(ms[i], x);
        FillFills(ms[j], y);
        assert ki < kj;
        assert x == picks[ki] && y == picks[kj];
      }
    }
    if r[j] != ms[j] && IsOpen(ms[i]) {
      assert ki < kj;
      FillFills(ms[i], picks[ki]);
    }
  }

  /** Filling changes the match. */
  lemma FillFills(m: Match, x: nat)
    requires IsOpen(m)
    ensures Fill(m, x) != m
  {
  }

  /** The backfill does not survive the next `advance_winners`: in a
      bracket where every open round-2 match is in a slot the pass writes,
      advancing after the draw gives exactly the table advancing without
      it, since the pass rewrites both sides of round 2 from round 1. */
  lemma BackfillThenAdvance(ms: seq<Match>, picks: seq<nat>)
    requires forall i :: 0 <= i < |ms| && IsOpen(ms[i]) ==> WinnerPropagator.Rewritten(ms, ms[i])
    ensures WinnerPropagator.Advanced(FillOpen(ms, picks)) == WinnerPropagator.Advanced(ms)
  {
    var f := FillOpen(ms, picks);
    FillOpenParticipantsOnly(ms, picks);
    assert WinnerPropagator.ParticipantsOnly(f, ms);
    forall r ensures |WinnerPropagator.RoundRows(f, r)| == |WinnerPropagator.RoundRows(ms, r)| {
      WinnerPropagator.RoundRowsParticipantsOnly(f, ms, r);
    }
    forall i | 0 <= i < |f| && !WinnerPropagator.Rewritten(f, f[i]) ensures f[i] == ms[i] {
      FillOpenAt(ms, picks, i);
    }
    WinnerPropagator.AdvanceIgnoresParticipants(f, ms);
  }
}
