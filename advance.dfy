/** Winner propagation (`advance_winners`): for every round r below the
    highest round present, the winners of round r in slot order (None for a
    match not DONE or without a winner) are written pairwise into round
    r + 1: slot s receives positions 2s-2 and 2s-1 of that list as p1 and
    p2. Both sides are always rewritten, so an earlier placement in round
    r + 1 is replaced. */
module WinnerPropagator {
  import opened Schema
  import opened Ledger

  /** The rows of round `r` in table order (the `by_round[r]` list). */
  function RoundRows(ms: seq<Match>, r: int): (rs: seq<Match>)
    ensures |rs| <= |ms|
  {
    if ms == [] then []
    else (if ms[0].round == r then [ms[0]] else []) + RoundRows(ms[1..], r)
  }

  /** `by_round[r]` holds exactly the rows of round `r`, in key order. */
  lemma {:induction false} RoundRowsMembers(ms: seq<Match>, r: int)
    ensures forall m :: m in RoundRows(ms, r) <==> m in ms && m.round == r
    ensures KeyOrdered(ms) ==> KeyOrdered(RoundRows(ms, r))
  {
    if ms != [] {
      RoundRowsMembers(ms[1..], r);
      assert KeyOrdered(ms) ==> forall x :: x in ms[1..] ==> KeyLess(ms[0], x);
    }
  }

  /** The entry a match contributes to the winners list. */
  function WinnerOf(m: Match): Option<nat>
  {
    if m.status == Done && m.winner.Some? then m.winner else None
  }

  /** The winners list of round `r`, one entry per row of the round. */
  function Winners(ms: seq<Match>, r: int): (w: seq<Option<nat>>)
    ensures |w| == |RoundRows(ms, r)|
  {
    var rs := RoundRows(ms, r);
    seq(|rs|, k requires 0 <= k < |rs| => WinnerOf(rs[k]))
  }

  /** Position `k` of the winners list of round `r`, None past its end
      (or before its start): read off the table directly, row by row. */
  function WinnerAt(ms: seq<Match>, r: int, k: int): Option<nat>
  {
    if ms == [] || k < 0 then None
    else if ms[0].round != r then WinnerAt(ms[1..], r, k)
    else if k == 0 then WinnerOf(ms[0])
    else WinnerAt(ms[1..], r, k - 1)
  }

  /** `WinnerAt` reads the winners list: entry `k` when there is one, None otherwise. */
  lemma {:induction false} WinnersAt(ms: seq<Match>, r: int, k: int)
    ensures WinnerAt(ms, r, k) == if 0 <= k < |Winners(ms, r)| then Winners(ms, r)[k] else None
  {
    if ms != [] && k >= 0 {
      var rest := RoundRows(ms[1..], r);
      if ms[0].round != r {
        assert RoundRows(ms, r) == rest;
        WinnersAt(ms[1..], r, k);
      } else {
        assert RoundRows(ms, r) == [ms[0]] + rest;
        if k > 0 {
          WinnersAt(ms[1..], r, k - 1);
          if k < |Winners(ms, r)| {
            assert RoundRows(ms, r)[k] == rest[k - 1];
          }
        }
      }
    }
  }

  /** The highest round present, 1 for an empty table. */
  function MaxRound(ms: seq<Match>): (mr: int)
    ensures forall m :: m in ms ==> m.round <= mr
    ensures ms == [] ==> mr == 1
  {
    if ms == [] then 1
    else if |ms| == 1 || ms[0].round >= MaxRound(ms[1..]) then ms[0].round
    else MaxRound(ms[1..])
  }

  /** The highest round is the round of some row. */
  lemma {:induction false} MaxRoundAttained(ms: seq<Match>) returns (i: nat)
    requires ms != []
    ensures i < |ms| && ms[i].round == MaxRound(ms)
  {
    if |ms| == 1 || ms[0].round >= MaxRound(ms[1..]) {
      i := 0;
    } else {
      var j := MaxRoundAttained(ms[1..]);
      i := j + 1;
    }
  }

  /** Whether the pass writes to this row: a row of round 2 or later whose
      slot number lies in 1..(number of rows of its round). */
  predicate Rewritten(ms: seq<Match>, m: Match)
  {
    2 <= m.round && 1 <= m.slot <= |RoundRows(ms, m.round)|
  }

  /** A row after the pass. */
  function Propagated(ms: seq<Match>, m: Match): Match
  {
    if Rewritten(ms, m) then
      m.(p1 := WinnerAt(ms, m.round - 1, 2 * m.slot - 2),
         p2 := WinnerAt(ms, m.round - 1, 2 * m.slot - 1))
    else m
  }

  /** The matches table after `advance_winners`: every row is rewritten
      from the winners of the table as it was before the pass. */
  function Advanced(ms: seq<Match>): (r: seq<Match>)
    ensures SameKeys(ms, r)
  {
    seq(|ms|, i requires 0 <= i < |ms| => Propagated(ms, ms[i]))
  }

  /** `b` differs from `a` at most in the participants p1 and p2. */
  predicate ParticipantsOnly(a: seq<Match>, b: seq<Match>)
  {
    |a| == |b| && forall i :: 0 <= i < |a| ==> b[i] == a[i].(p1 := b[i].p1, p2 := b[i].p2)
  }

  /** A row once rounds up to `r` have been written, and round `r + 1`
      up to slot `s - 1`. */
  function Partial(ms: seq<Match>, r: int, s: int, m: Match): Match
  {
    if m.round <= r || (m.round == r + 1 && m.slot < s) then Propagated(ms, m) else m
  }

  /** The whole table at that point of the pass. */
  function Stage(ms: seq<Match>, r: int, s: int): seq<Match>
  {
    seq(|ms|, i requires 0 <= i < |ms| => Partial(ms, r, s, ms[i]))
  }

  /** Nothing is written before the pass reaches round 2. */
  lemma StageStart(ms: seq<Match>)
    ensures Stage(ms, 1, 1) == ms
  {
  }

  /** Once round `r + 1` is past its last slot, the pass is at round `r + 1`, slot 1. */
  lemma StageNextRound(ms: seq<Match>, r: int)
    ensures Stage(ms, r, |RoundRows(ms, r + 1)| + 1) == Stage(ms, r + 1, 1)
  {
  }

  /** Once `r` reaches the highest round, the pass is complete. */
  lemma StageDone(ms: seq<Match>, r: int)
    requires r >= MaxRound(ms)
    ensures Stage(ms, r, 1) == Advanced(ms)
  {
    forall i | 0 <= i < |ms| ensures Partial(ms, r, 1, ms[i]) == Propagated(ms, ms[i]) {
      assert ms[i] in ms;
    }
  }

  /** One call of `update_match_players` for slot `s` of round `r + 1`
      advances the pass by one slot. */
  lemma SlotStep(ms: seq<Match>, r: int, s: int, w1: Option<nat>, w2: Option<nat>)
    requires 1 <= r && 1 <= s <= |RoundRows(ms, r + 1)|
    requires w1 == WinnerAt(ms, r, 2 * s - 2) && w2 == WinnerAt(ms, r, 2 * s - 1)
    ensures SetPlayers(Stage(ms, r, s), r + 1, s, w1, w2) == Stage(ms, r, s + 1)
  {
    var after := SetPlayers(Stage(ms, r, s), r + 1, s, w1, w2);
    forall i | 0 <= i < |ms| ensures after[i] == Stage(ms, r, s + 1)[i] {
      PartialStep(ms, r, s, w1, w2, ms[i]);
    }
    assert |after| == |Stage(ms, r, s + 1)|;
  }

  /** `SlotStep` for a single row. */
  lemma PartialStep(ms: seq<Match>, r: int, s: int, w1: Option<nat>, w2: Option<nat>, m: Match)
    requires 1 <= r && 1 <= s <= |RoundRows(ms, r + 1)|
    requires w1 == WinnerAt(ms, r, 2 * s - 2) && w2 == WinnerAt(ms, r, 2 * s - 1)
    ensures var p := Partial(ms, r, s, m);
      (if p.round == r + 1 && p.slot == s then p.(p1 := w1, p2 := w2) else p) == Partial(ms, r, s + 1, m)
  {
    if m.round == r + 1 && m.slot == s {
      assert Rewritten(ms, m);
      PropagatedSides(ms, m);
    }
  }

  /** The sides the pass writes into a row it rewrites. */
  lemma PropagatedSides(ms: seq<Match>, x: Match)
    requires Rewritten(ms, x)
    ensures Propagated(ms, x) == x.(p1 := WinnerAt(ms, x.round - 1, 2 * x.slot - 2),
                                    p2 := WinnerAt(ms, x.round - 1, 2 * x.slot - 1))
  {
  }

  /** The winners list of round `r`, built as the pass builds it. */
  method CollectWinners(ms: seq<Match>, r: int) returns (winners: seq<Option<nat>>)
    ensures winners == Winners(ms, r)
  {
    var current := RoundRows(ms, r);
    winners := [];
    var k := 0;
    while k < |current|
      invariant 0 <= k <= |current|
      invariant winners == Winners(ms, r)[..k]
    {
      var m := current[k];
      if m.status == Done && m.winner.Some? {
        winners := winners + [m.winner];
      } else {
        winners := winners + [None];
      }
      k := k + 1;
    }
  }

  /** Feeds the winners of round `r` into every slot of round `r + 1`. */
  method FeedRound(db: Store, ms: seq<Match>, r: int, winners: seq<Option<nat>>)
    requires db.Valid() && 1 <= r
    requires winners == Winners(ms, r)
    requires db.matches == Stage(ms, r, 1)
    modifies db
    ensures db.Valid()
    ensures db.matches == Stage(ms, r + 1, 1)
    ensures db.players == old(db.players)
    ensures db.nextPlayerId == old(db.nextPlayerId) && db.nextMatchId == old(db.nextMatchId)
  {
    var nextRound := r + 1;
    var slots := |RoundRows(ms, nextRound)|;
    var s := 1;
    while s <= slots
      invariant 1 <= s <= slots + 1
      invariant db.Valid()
      invariant db.players == old(db.players)
      invariant db.nextPlayerId == old(db.nextPlayerId) && db.nextMatchId == old(db.nextMatchId)
      invariant db.matches == Stage(ms, r, s)
    {
      var w1 := if 2 * (s - 1) < |winners| then winners[2 * (s - 1)] else None;
      var w2 := if 2 * (s - 1) + 1 < |winners| then winners[2 * (s - 1) + 1] else None;
      WinnersAt(ms, r, 2 * s - 2);
      WinnersAt(ms, r, 2 * s - 1);
      SlotStep(ms, r, s, w1, w2);
      db.UpdateMatchPlayers(nextRound, s, w1, w2);
      s := s + 1;
    }
    StageNextRound(ms, r);
  }

  /** Runs the pass on a snapshot of the table, round by round and slot by
      slot, through `update_match_players`. */
  method AdvanceWinners(db: Store)
    requires db.Valid()
    modifies db
    ensures db.Valid()
    ensures db.matches == Advanced(old(db.matches))
    ensures db.players == old(db.players)
    ensures db.nextPlayerId == old(db.nextPlayerId) && db.nextMatchId == old(db.nextMatchId)
  {
    var ms := db.ListMatches();
    assert ms == db.matches;
    var maxRound := MaxRound(ms);
    var r := 1;
    StageStart(ms);
    while r < maxRound
      invariant 1 <= r && (r <= maxRound || r == 1)
      invariant db.Valid()
      invariant db.players == old(db.players)
      invariant db.nextPlayerId == old(db.nextPlayerId) && db.nextMatchId == old(db.nextMatchId)
      invariant db.matches == Stage(ms, r, 1)
    {
      var winners := CollectWinners(ms, r);
      FeedRound(db, ms, r, winners);
      r := r + 1;
    }
    StageDone(ms, r);
  }

  /** The pass never touches a score, a winner or a status: it rewrites participants only. */
  lemma AdvanceKeepsResults(ms: seq<Match>)
    ensures ParticipantsOnly(ms, Advanced(ms))
    ensures ParticipantsOnly(Advanced(ms), ms)
  {
  }

  /** Rewriting participants changes neither the size nor the winners list of any round. */
  lemma RoundRowsParticipantsOnly(a: seq<Match>, b: seq<Match>, r: int)
    requires ParticipantsOnly(a, b)
    ensures ParticipantsOnly(RoundRows(a, r), RoundRows(b, r))
    ensures Winners(a, r) == Winners(b, r)
  {
    RoundRowsSides(a, b, r);
    var ra, rb := RoundRows(a, r), RoundRows(b, r);
    forall k | 0 <= k < |ra| ensures Winners(a, r)[k] == Winners(b, r)[k] {
      assert rb[k] == ra[k].(p1 := rb[k].p1, p2 := rb[k].p2);
    }
  }

  lemma {:induction false} RoundRowsSides(a: seq<Match>, b: seq<Match>, r: int)
    requires ParticipantsOnly(a, b)
    ensures ParticipantsOnly(RoundRows(a, r), RoundRows(b, r))
  {
    if a != [] {
      assert ParticipantsOnly(a[1..], b[1..]);
      RoundRowsSides(a[1..], b[1..], r);
      var ha := if a[0].round == r then [a[0]] else [];
      var hb := if b[0].round == r then [b[0]] else [];
      SidesAppend(ha, RoundRows(a[1..], r), hb, RoundRows(b[1..], r));
    }
  }

  lemma SidesAppend(a1: seq<Match>, a2: seq<Match>, b1: seq<Match>, b2: seq<Match>)
    requires ParticipantsOnly(a1, b1) && ParticipantsOnly(a2, b2)
    ensures ParticipantsOnly(a1 + a2, b1 + b2)
  {
    forall i | 0 <= i < |a1 + a2| ensures (b1 + b2)[i] == (a1 + a2)[i].(p1 := (b1 + b2)[i].p1, p2 := (b1 + b2)[i].p2) {
      if i < |a1| {
        assert (a1 + a2)[i] == a1[i] && (b1 + b2)[i] == b1[i];
      } else {
        assert (a1 + a2)[i] == a2[i - |a1|] && (b1 + b2)[i] == b2[i - |a1|];
      }
    }
  }

  /** The pass reads nothing but results: two tables that differ only in
      the participants of rows the pass rewrites come out identical. */
  lemma AdvanceIgnoresParticipants(a: seq<Match>, b: seq<Match>)
    requires ParticipantsOnly(a, b)
    requires forall i :: 0 <= i < |a| && !Rewritten(a, a[i]) ==> a[i] == b[i]
    ensures Advanced(a) == Advanced(b)
  {
    forall r ensures Winners(a, r) == Winners(b, r) && |RoundRows(a, r)| == |RoundRows(b, r)| {
      RoundRowsParticipantsOnly(a, b, r);
    }
    forall i | 0 <= i < |a| ensures Advanced(a)[i] == Advanced(b)[i] {
      var x, y := a[i], b[i];
      assert x.round == y.round && x.slot == y.slot;
      WinnerAtAgree(a, b, x.round - 1, 2 * x.slot - 2);
      WinnerAtAgree(a, b, x.round - 1, 2 * x.slot - 1);
      PropagatedAgree(a, b, x, y);
    }
  }

  /** Two rows differing at most in their sides come out of the pass alike
      when the pass rewrites both or neither, and the winners-list entries
      it would write agree. */
  lemma PropagatedAgree(a: seq<Match>, b: seq<Match>, x: Match, y: Match)
    requires y == x.(p1 := y.p1, p2 := y.p2)
    requires Rewritten(a, x) == Rewritten(b, y)
    requires WinnerAt(a, x.round - 1, 2 * x.slot - 2) == WinnerAt(b, x.round - 1, 2 * x.slot - 2)
    requires WinnerAt(a, x.round - 1, 2 * x.slot - 1) == WinnerAt(b, x.round - 1, 2 * x.slot - 1)
    requires !Rewritten(a, x) ==> x == y
    ensures Propagated(a, x) == Propagated(b, y)
  {
    if Rewritten(a, x) {
      RewrittenAgree(a, b, x, y);
    } else {
      PropagatedKept(a, x);
      PropagatedKept(b, y);
    }
  }

  lemma RewrittenAgree(a: seq<Match>, b: seq<Match>, x: Match, y: Match)
    requires y == x.(p1 := y.p1, p2 := y.p2)
    requires Rewritten(a, x) && Rewritten(b, y)
    requires WinnerAt(a, x.round - 1, 2 * x.slot - 2) == WinnerAt(b, x.round - 1, 2 * x.slot - 2)
    requires WinnerAt(a, x.round - 1, 2 * x.slot - 1) == WinnerAt(b, x.round - 1, 2 * x.slot - 1)
    ensures Propagated(a, x) == Propagated(b, y)
  {
    PropagatedSides(a, x);
    PropagatedSides(b, y);
    SidesOnly(x, y, WinnerAt(a, x.round - 1, 2 * x.slot - 2), WinnerAt(a, x.round - 1, 2 * x.slot - 1));
  }

  /** Two rows that differ at most in their sides agree once both sides are overwritten. */
  lemma SidesOnly(x: Match, y: Match, u: Option<nat>, v: Option<nat>)
    requires y == x.(p1 := y.p1, p2 := y.p2)
    ensures x.(p1 := u, p2 := v) == y.(p1 := u, p2 := v)
  {
  }

  /** A row the pass does not rewrite is left as it is. */
  lemma PropagatedKept(ms: seq<Match>, x: Match)
    requires !Rewritten(ms, x)
    ensures Propagated(ms, x) == x
  {
  }

  lemma WinnerAtAgree(a: seq<Match>, b: seq<Match>, r: int, k: int)
    requires Winners(a, r) == Winners(b, r)
    ensures WinnerAt(a, r, k) == WinnerAt(b, r, k)
  {
    WinnersAt(a, r, k);
    WinnersAt(b, r, k);
  }

  /** Running the pass twice is running it once (the pass is idempotent). */
  lemma AdvanceIdempotent(ms: seq<Match>)
    ensures Advanced(Advanced(ms)) == Advanced(ms)
  {
    var adv := Advanced(ms);
    forall r ensures |RoundRows(adv, r)| == |RoundRows(ms, r)| {
      RoundRowsParticipantsOnly(adv, ms, r);
    }
    AdvanceIgnoresParticipants(adv, ms);
  }

  /** Every row of round `r` sits at the position its slot names: the rows
      of the round carry slots 1, 2, 3, ... in order. */
  predicate Contiguous(ms: seq<Match>, r: int)
  {
    var rs := RoundRows(ms, r);
    forall k :: 0 <= k < |rs| ==> rs[k].slot == k + 1
  }

  /** In a contiguous round, the winners list holds a row's entry at the
      position its slot names. */
  lemma WinnerAtSlot(ms: seq<Match>, i: nat)
    requires i < |ms| && Contiguous(ms, ms[i].round)
    ensures WinnerAt(ms, ms[i].round, ms[i].slot - 1) == WinnerOf(ms[i])
  {
    var rs := RoundRows(ms, ms[i].round);
    WinnersAt(ms, ms[i].round, ms[i].slot - 1);
    RoundRowsMembers(ms, ms[i].round);
    assert ms[i] in rs;
    var k :| 0 <= k < |rs| && rs[k] == ms[i];
  }

  /** In a round whose slots are contiguous, the result of the match in
      slot t reaches the next-round match in slot ceil(t / 2): its winner
      when it is DONE with a winner, None otherwise, as p1 for odd t and as
      p2 for even t. */
  lemma WinnerPlacement(ms: seq<Match>, i: nat, j: nat)
    requires i < |ms| && j < |ms| && 1 <= ms[i].round
    requires Contiguous(ms, ms[i].round)
    requires ms[j].round == ms[i].round + 1 && 2 * ms[j].slot - 1 <= ms[i].slot <= 2 * ms[j].slot
    requires 1 <= ms[j].slot <= |RoundRows(ms, ms[j].round)|
    ensures ms[i].slot % 2 == 1 ==> Advanced(ms)[j].p1 == WinnerOf(ms[i])
    ensures ms[i].slot % 2 == 0 ==> Advanced(ms)[j].p2 == WinnerOf(ms[i])
  {
    WinnerAtSlot(ms, i);
    AdvancedSides(ms, j);
    SideArith(ms[i].slot, ms[j].slot);
  }

  lemma SideArith(t: int, s: int)
    requires 2 * s - 1 <= t <= 2 * s
    ensures t % 2 == 1 ==> t - 1 == 2 * s - 2
    ensures t % 2 == 0 ==> t - 1 == 2 * s - 1
  {
  }

  /** The sides the pass leaves in row `j` when it rewrites that row. */
  lemma AdvancedSides(ms: seq<Match>, j: nat)
    requires j < |ms| && Rewritten(ms, ms[j])
    ensures Advanced(ms)[j].p1 == WinnerAt(ms, ms[j].round - 1, 2 * ms[j].slot - 2)
    ensures Advanced(ms)[j].p2 == WinnerAt(ms, ms[j].round - 1, 2 * ms[j].slot - 1)
  {
    var x := ms[j];
    var p := Propagated(ms, x);
    PropagatedSides(ms, x);
    assert Advanced(ms)[j] == p;
  }
}
