/** The bye resolver (`auto_advance_byes`): every round-1 match that is not
    DONE and has exactly one participant is closed 0-0 in that player's
    favour, and the player is written into round 2 at slot ceil(slot / 2),
    as p1 when the slot is odd and as p2 when it is even. Nothing is pushed
    beyond round 2. */
module ByeResolver {
  import opened Schema
  import opened Ledger

  /** A match the resolver closes when it sits in round 1: not DONE, exactly one side set. */
  predicate IsBye(m: Match)
  {
    m.status != Done && (m.p1.None? != m.p2.None?)
  }

  /** The participant of a bye. */
  function Lone(m: Match): nat
    requires IsBye(m)
  {
    if m.p1.Some? then m.p1.value else m.p2.value
  }

  /** A bye after resolution: DONE, 0-0, its participant the winner. */
  function Closed(m: Match): Match
    requires IsBye(m)
  {
    m.(p1Score := Some(0), p2Score := Some(0), winner := Some(Lone(m)), status := Done)
  }

  /** The next-round slot a slot feeds: ceil(slot / 2), i.e. `(slot + 1) // 2`. */
  function ParentSlot(slot: int): int
  {
    (slot + 1) / 2
  }

  /** A slot feeds the p1 side of its parent exactly when it is odd. */
  predicate FeedsP1(slot: int)
  {
    slot % 2 == 1
  }

  /** Slot s of a round is fed by slots 2s-1 (into p1) and 2s (into p2), and by no other. */
  lemma FeederSlots(t: int, s: int)
    ensures (ParentSlot(t) == s && FeedsP1(t)) <==> t == 2 * s - 1
    ensures (ParentSlot(t) == s && !FeedsP1(t)) <==> t == 2 * s
  {
  }

  /** The participant of the bye in round 1, slot `slot`, among the first
      `k` rows, if that row is a bye. */
  function ByeFrom(ms: seq<Match>, k: nat, slot: int): (r: Option<nat>)
    requires k <= |ms|
    ensures r.None? ==> forall i :: 0 <= i < k && ms[i].round == 1 && ms[i].slot == slot ==> !IsBye(ms[i])
  {
    if k == 0 then None
    else if ms[k - 1].round == 1 && ms[k - 1].slot == slot && IsBye(ms[k - 1]) then Some(Lone(ms[k - 1]))
    else ByeFrom(ms, k - 1, slot)
  }

  /** A bye found for a slot is the participant of a round-1 bye at that slot. */
  lemma {:induction false} ByeFromWitness(ms: seq<Match>, k: nat, slot: int) returns (i: nat)
    requires k <= |ms| && ByeFrom(ms, k, slot).Some?
    ensures i < k && ms[i].round == 1 && ms[i].slot == slot && IsBye(ms[i])
    ensures ByeFrom(ms, k, slot).value == Lone(ms[i])
  {
    if ms[k - 1].round == 1 && ms[k - 1].slot == slot && IsBye(ms[k - 1]) {
      i := k - 1;
    } else {
      i := ByeFromWitness(ms, k - 1, slot);
    }
  }

  /** With no round-1 bye at the slot among the first `k` rows there is nothing to hand on. */
  lemma {:induction false} ByeFromNone(ms: seq<Match>, k: nat, slot: int)
    requires k <= |ms|
    requires forall i :: 0 <= i < k && ms[i].round == 1 && ms[i].slot == slot ==> !IsBye(ms[i])
    ensures ByeFrom(ms, k, slot) == None
  {
    if k > 0 {
      ByeFromNone(ms, k - 1, slot);
    }
  }

  /** Row `i` once the byes among the first `k` rows have been resolved. */
  function ResolvedRow(ms: seq<Match>, k: nat, i: nat): Match
    requires k <= |ms| && i < |ms|
  {
    var m := ms[i];
    if i < k && m.round == 1 && IsBye(m) then Closed(m)
    else if m.round == 2 then
      m.(p1 := OrElse(ByeFrom(ms, k, 2 * m.slot - 1), m.p1),
         p2 := OrElse(ByeFrom(ms, k, 2 * m.slot), m.p2))
    else m
  }

  function ResolvedUpTo(ms: seq<Match>, k: nat): (r: seq<Match>)
    requires k <= |ms|
    ensures SameKeys(ms, r)
  {
    seq(|ms|, i requires 0 <= i < |ms| => ResolvedRow(ms, k, i))
  }

  /** The matches table after `auto_advance_byes`. */
  function ByesResolved(ms: seq<Match>): (r: seq<Match>)
    ensures SameKeys(ms, r)
  {
    ResolvedUpTo(ms, |ms|)
  }

  /** Scans round 1 in slot order and resolves each bye, writing its
      participant into round 2 when the parent match exists; the whole scan
      is one transaction, committed at the end. */
  method AutoAdvanceByes(db: Store)
    requires db.Valid()
    modifies db
    ensures db.Valid()
    ensures db.matches == ByesResolved(old(db.matches))
    ensures db.players == old(db.players)
    ensures db.nextPlayerId == old(db.nextPlayerId) && db.nextMatchId == old(db.nextMatchId)
  {
    var ms := db.matches;
    var cur := ResolveAll(ms);
    SameKeysValid(ms, cur, db.nextMatchId);
    db.matches := cur;
  }

  /** The scan on the table value: row by row in key order, so round 1 is
      visited in slot order. */
  method ResolveAll(ms: seq<Match>) returns (cur: seq<Match>)
    requires KeyOrdered(ms)
    ensures cur == ByesResolved(ms)
  {
    cur := ms;
    forall x | 0 <= x < |ms| ensures ResolvedRow(ms, 0, x) == ms[x] {
    }
    assert cur == ResolvedUpTo(ms, 0);
    var i := 0;
    while i < |ms|
      invariant 0 <= i <= |ms|
      invariant cur == ResolvedUpTo(ms, i)
    {
      cur := ResolveAt(ms, i, cur);
      i := i + 1;
    }
  }

  /** One step of the scan: closes row `i` when it is a round-1 bye and
      writes its participant into the parent round-2 match, if any. */
  method ResolveAt(ms: seq<Match>, i: nat, before: seq<Match>) returns (cur: seq<Match>)
    requires KeyOrdered(ms) && i < |ms| && before == ResolvedUpTo(ms, i)
    ensures cur == ResolvedUpTo(ms, i + 1)
  {
    cur := before;
    var m := cur[i];
    assert m.round == 1 ==> m == ms[i];
    if m.round == 1 && m.status != Done && !(m.p1.None? && m.p2.None?) && (m.p1.None? != m.p2.None?) {
      var winner := if m.p1.Some? then m.p1.value else m.p2.value;
      assert m.(p1Score := Some(0), p2Score := Some(0), winner := Some(winner), status := Done) == Closed(ms[i]);
      cur := cur[i := Closed(ms[i])];
      var advSlot := (m.slot + 1) / 2;
      var placeAsP1 := m.slot % 2 == 1;
      var j := IndexOfKey(cur, 2, advSlot);
      assert SameKeys(ms, cur);
      ResolveBye(ms, i, j);
      if j.Some? {
        var m2 := cur[j.value];
        var newP1, newP2 := m2.p1, m2.p2;
        if placeAsP1 {
          newP1 := Some(winner);
        } else {
          newP2 := Some(winner);
        }
        cur := cur[j.value := m2.(p1 := newP1, p2 := newP2)];
      }
    } else {
      ResolveSkip(ms, i);
    }
  }

  /** Resolving a row that is not a round-1 bye changes nothing. */
  lemma ResolveSkip(ms: seq<Match>, i: nat)
    requires i < |ms| && !(ms[i].round == 1 && IsBye(ms[i]))
    ensures ResolvedUpTo(ms, i + 1) == ResolvedUpTo(ms, i)
  {
    forall x | 0 <= x < |ms| ensures ResolvedRow(ms, i + 1, x) == ResolvedRow(ms, i, x) {
    }
  }

  /** Resolving the round-1 bye at position `i` closes it and writes its
      participant into the row `j` holding its parent key, if any. */
  lemma ResolveBye(ms: seq<Match>, i: nat, j: Option<nat>)
    requires KeyOrdered(ms) && i < |ms| && ms[i].round == 1 && IsBye(ms[i])
    requires j.Some? ==> j.value < |ms| && ms[j.value].round == 2 && ms[j.value].slot == ParentSlot(ms[i].slot)
    requires j.None? ==> forall x :: 0 <= x < |ms| ==> !(ms[x].round == 2 && ms[x].slot == ParentSlot(ms[i].slot))
    ensures var c := ResolvedUpTo(ms, i)[i := Closed(ms[i])];
      var w := Some(Lone(ms[i]));
      ResolvedUpTo(ms, i + 1) ==
        if j.None? then c
        else if FeedsP1(ms[i].slot) then c[j.value := c[j.value].(p1 := w)]
        else c[j.value := c[j.value].(p2 := w)]
  {
    var c := ResolvedUpTo(ms, i)[i := Closed(ms[i])];
    var w := Some(Lone(ms[i]));
    var s := ParentSlot(ms[i].slot);
    var next := if j.None? then c
      else if FeedsP1(ms[i].slot) then c[j.value := c[j.value].(p1 := w)]
      else c[j.value := c[j.value].(p2 := w)];
    forall x | 0 <= x < |ms| ensures ResolvedRow(ms, i + 1, x) == next[x] {
      if ms[x].round == 2 {
        FeederSlots(ms[i].slot, ms[x].slot);
        if ms[x].slot == s {
          assert j.Some? && SameKey(ms[x], ms[j.value]);
          assert x == j.value;
        }
      }
    }
  }

  /** Every bye in round 1 is closed 0-0 with its participant as winner,
      whether or not a round-2 match exists for it. */
  lemma ByeClosed(ms: seq<Match>, i: nat)
    requires i < |ms| && ms[i].round == 1 && IsBye(ms[i])
    ensures ByesResolved(ms)[i] == Closed(ms[i])
    ensures ByesResolved(ms)[i].status == Done && ByesResolved(ms)[i].winner == Some(Lone(ms[i]))
  {
  }

  /** The participant of a round-1 bye lands in the parent round-2 match on
      the side its slot's parity selects. */
  lemma ByePlacement(ms: seq<Match>, i: nat, j: nat)
    requires KeyOrdered(ms) && i < |ms| && j < |ms|
    requires ms[i].round == 1 && IsBye(ms[i])
    requires ms[j].round == 2 && ms[j].slot == ParentSlot(ms[i].slot)
    ensures FeedsP1(ms[i].slot) ==> ByesResolved(ms)[j].p1 == Some(Lone(ms[i]))
    ensures !FeedsP1(ms[i].slot) ==> ByesResolved(ms)[j].p2 == Some(Lone(ms[i]))
  {
    var t := ms[i].slot;
    FeederSlots(t, ms[j].slot);
    var b := ByeFrom(ms, |ms|, t);
    if b.Some? {
      var i' := ByeFromWitness(ms, |ms|, t);
      assert ms[i'].round == ms[i].round && ms[i'].slot == ms[i].slot;
      assert i' == i;
    }
  }

  /** What the resolver leaves alone: rows outside round 2 other than the
      round-1 byes, every column of a round-2 row except p1 and p2, and a
      round-2 side whose feeding round-1 slot holds no bye. */
  lemma ByesResolvedFrame(ms: seq<Match>, j: nat)
    requires j < |ms|
    ensures var out := ByesResolved(ms);
      (ms[j].round != 2 && !(ms[j].round == 1 && IsBye(ms[j])) ==> out[j] == ms[j]) &&
      (ms[j].round == 2 ==> out[j] == ms[j].(p1 := out[j].p1, p2 := out[j].p2)) &&
      ((ms[j].round == 2 &&
        (forall i :: 0 <= i < |ms| && ms[i].round == 1 && ms[i].slot == 2 * ms[j].slot - 1 ==> !IsBye(ms[i])))
         ==> out[j].p1 == ms[j].p1) &&
      ((ms[j].round == 2 &&
        (forall i :: 0 <= i < |ms| && ms[i].round == 1 && ms[i].slot == 2 * ms[j].slot ==> !IsBye(ms[i])))
         ==> out[j].p2 == ms[j].p2)
  {
    var out := ByesResolved(ms);
    if ms[j].round == 2 {
      var b1 := ByeFrom(ms, |ms|, 2 * ms[j].slot - 1);
      var b2 := ByeFrom(ms, |ms|, 2 * ms[j].slot);
      assert out[j] == ms[j].(p1 := OrElse(b1, ms[j].p1), p2 := OrElse(b2, ms[j].p2));
      if forall i :: 0 <= i < |ms| && ms[i].round == 1 && ms[i].slot == 2 * ms[j].slot - 1 ==> !IsBye(ms[i]) {
        ByeFromNone(ms, |ms|, 2 * ms[j].slot - 1);
      }
      if forall i :: 0 <= i < |ms| && ms[i].round == 1 && ms[i].slot == 2 * ms[j].slot ==> !IsBye(ms[i]) {
        ByeFromNone(ms, |ms|, 2 * ms[j].slot);
      }
    }
  }
}
