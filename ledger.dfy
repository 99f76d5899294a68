/** The match and player ledger: the two tables of the store, kept in
    memory, with the operations the bracket engine and the dashboard call.
    The matches table is kept in the order of its UNIQUE(round, slot) index,
    the players table in id order; the two AUTOINCREMENT counters are fields. */
module Ledger {
  import opened Schema
  import Text

  // ---------------------------------------------------------------------
  // The matches table as a value
  // ---------------------------------------------------------------------

  predicate KeyLess(a: Match, b: Match)
  {
    a.round < b.round || (a.round == b.round && a.slot < b.slot)
  }

  predicate SameKey(a: Match, b: Match)
  {
    a.round == b.round && a.slot == b.slot
  }

  /** Rows in strictly increasing (round, slot) order: the index order of
      the UNIQUE(round, slot) constraint, so no two rows share a key. */
  predicate KeyOrdered(ms: seq<Match>)
  {
    forall i, j :: 0 <= i < j < |ms| ==> KeyLess(ms[i], ms[j])
  }

  /** The primary key: no two rows share an id. */
  predicate IdsUnique(ms: seq<Match>)
  {
    forall x, y :: x in ms && y in ms && x.id == y.id ==> x == y
  }

  predicate MatchesValid(ms: seq<Match>, nextId: nat)
  {
    KeyOrdered(ms) && IdsUnique(ms) && (forall m :: m in ms ==> m.id < nextId)
  }

  /** `b` has, position by position, the ids and keys of `a`: what every
      bracket pass that only rewrites columns of existing rows keeps. */
  predicate SameKeys(a: seq<Match>, b: seq<Match>)
  {
    |a| == |b| && forall i :: 0 <= i < |a| ==> a[i].id == b[i].id && SameKey(a[i], b[i])
  }

  /** Rewriting columns other than id, round and slot keeps both constraints. */
  lemma SameKeysValid(a: seq<Match>, b: seq<Match>, nextId: nat)
    requires SameKeys(a, b) && MatchesValid(a, nextId)
    ensures MatchesValid(b, nextId)
  {
    SameKeysOrdered(a, b);
    forall y | y in b ensures y.id < nextId {
      var i :| 0 <= i < |b| && b[i] == y;
      assert a[i] in a;
    }
    forall x, y | x in b && y in b && x.id == y.id ensures x == y {
      var i :| 0 <= i < |b| && b[i] == x;
      var j :| 0 <= j < |b| && b[j] == y;
      SameRowSamePlace(a, i, j);
    }
  }

  lemma SameKeysOrdered(a: seq<Match>, b: seq<Match>)
    requires SameKeys(a, b) && KeyOrdered(a)
    ensures KeyOrdered(b)
  {
    forall i, j | 0 <= i < j < |b| ensures KeyLess(b[i], b[j]) {
      assert KeyLess(a[i], a[j]);
    }
  }

  /** In a valid table two positions holding rows with the same id are one position. */
  lemma SameRowSamePlace(a: seq<Match>, i: nat, j: nat)
    requires KeyOrdered(a) && IdsUnique(a) && i < |a| && j < |a| && a[i].id == a[j].id
    ensures i == j
  {
    assert a[i] in a && a[j] in a;
    assert a[i] == a[j];
  }

  /** Position of the row with key (round, slot), if there is one. */
  function IndexOfKey(ms: seq<Match>, round: int, slot: int): (r: Option<nat>)
    ensures r.Some? ==> r.value < |ms| && ms[r.value].round == round && ms[r.value].slot == slot
    ensures r.None? ==> forall i :: 0 <= i < |ms| ==> !(ms[i].round == round && ms[i].slot == slot)
  {
    if ms == [] then None
    else if ms[|ms| - 1].round == round && ms[|ms| - 1].slot == slot then Some(|ms| - 1)
    else IndexOfKey(ms[..|ms| - 1], round, slot)
  }

  /** The row with key (round, slot), if there is one. */
  function Lookup(ms: seq<Match>, round: int, slot: int): (r: Option<Match>)
    ensures r.Some? ==> r.value in ms && r.value.round == round && r.value.slot == slot
    ensures r.None? ==> forall m :: m in ms ==> !(m.round == round && m.slot == slot)
  {
    match IndexOfKey(ms, round, slot)
    case Some(i) => Some(ms[i])
    case None => None
  }

  /** Position of the row with primary key `id`, if there is one. */
  function IndexOfId(ms: seq<Match>, id: nat): (r: Option<nat>)
    ensures r.Some? ==> r.value < |ms| && ms[r.value].id == id
    ensures r.None? ==> forall m :: m in ms ==> m.id != id
  {
    if ms == [] then None
    else if ms[|ms| - 1].id == id then Some(|ms| - 1)
    else IndexOfId(ms[..|ms| - 1], id)
  }

  /** `INSERT OR REPLACE` of one row: the row holding the same (round, slot),
      if any, is deleted and `m` takes its place in key order. */
  function Upsert(ms: seq<Match>, m: Match): (r: seq<Match>)
    requires KeyOrdered(ms)
    ensures KeyOrdered(r)
    ensures forall x :: x in r <==> x == m || (x in ms && !SameKey(x, m))
  {
    if ms == [] then [m]
    else if KeyLess(m, ms[0]) then [m] + ms
    else if SameKey(m, ms[0]) then
      assert forall x :: x in ms[1..] ==> KeyLess(ms[0], x);
      [m] + ms[1..]
    else
      var rest := Upsert(ms[1..], m);
      assert forall x :: x in ms[1..] ==> KeyLess(ms[0], x);
      assert forall x :: x in ms <==> x == ms[0] || x in ms[1..];
      [ms[0]] + rest
  }

  /** Inserting a row with the counter's id keeps key order and unique ids,
      the counter moving past it. */
  lemma UpsertValid(ms: seq<Match>, m: Match, nextId: nat)
    requires MatchesValid(ms, nextId) && m.id == nextId
    ensures MatchesValid(Upsert(ms, m), nextId + 1)
  {
    var r := Upsert(ms, m);
    forall x | x in r ensures x.id < nextId + 1 {
    }
    forall x, y | x in r && y in r && x.id == y.id ensures x == y {
    }
  }

  /** The row `insert_matches` writes for a tuple: PENDING, no scores, no winner. */
  function NewMatch(row: Row, id: nat): Match
  {
    Match(id, row.round, row.slot, row.p1, row.p2, None, None, None, Pending)
  }

  /** `executemany` of the upsert over `rows`, in order, ids drawn from the counter. */
  function InsertAll(ms: seq<Match>, rows: seq<Row>, nextId: nat): (r: seq<Match>)
    requires KeyOrdered(ms)
    ensures KeyOrdered(r)
    decreases |rows|
  {
    if rows == [] then ms
    else InsertAll(Upsert(ms, NewMatch(rows[0], nextId)), rows[1..], nextId + 1)
  }

  /** The `executemany` loop on the table value: each tuple in turn is
      upserted as a fresh PENDING row with the next id. */
  method UpsertRows(ms: seq<Match>, rows: seq<Row>, nextId: nat) returns (r: seq<Match>, next: nat)
    requires MatchesValid(ms, nextId)
    ensures r == InsertAll(ms, rows, nextId)
    ensures MatchesValid(r, next) && next == nextId + |rows|
  {
    r, next := ms, nextId;
    var k := 0;
    while k < |rows|
      invariant 0 <= k <= |rows|
      invariant MatchesValid(r, next) && next == nextId + k
      invariant InsertAll(ms, rows, nextId) == InsertAll(r, rows[k..], next)
    {
      assert rows[k..][1..] == rows[k + 1..];
      var m := NewMatch(rows[k], next);
      UpsertValid(r, m, next);
      r := Upsert(r, m);
      next := next + 1;
      k := k + 1;
    }
    assert rows[k..] == [];
  }

  /** The position in `rows` of the last tuple with key (round, slot). */
  function LastIndex(rows: seq<Row>, round: int, slot: int): (r: Option<nat>)
    ensures r.Some? ==> r.value < |rows| && rows[r.value].round == round && rows[r.value].slot == slot
    ensures r.Some? ==> forall k :: r.value < k < |rows| ==> !(rows[k].round == round && rows[k].slot == slot)
    ensures r.None? ==> forall k :: 0 <= k < |rows| ==> !(rows[k].round == round && rows[k].slot == slot)
  {
    if rows == [] then None
    else
      var tail := LastIndex(rows[1..], round, slot);
      assert forall k :: 1 <= k < |rows| ==> rows[k] == rows[1..][k - 1];
      if tail.Some? then Some(tail.value + 1)
      else if rows[0].round == round && rows[0].slot == slot then Some(0)
      else None
  }

  /** In a key-ordered table the row with a given key is unique. */
  lemma LookupUnique(ms: seq<Match>, x: Match)
    requires KeyOrdered(ms) && x in ms
    ensures Lookup(ms, x.round, x.slot) == Some(x)
  {
    var i :| 0 <= i < |ms| && ms[i] == x;
    var j := IndexOfKey(ms, x.round, x.slot).value;
    assert ms[i].round == ms[j].round && ms[i].slot == ms[j].slot;
  }

  lemma UpsertLookup(ms: seq<Match>, m: Match, round: int, slot: int)
    requires KeyOrdered(ms)
    ensures Lookup(Upsert(ms, m), round, slot)
         == if m.round == round && m.slot == slot then Some(m) else Lookup(ms, round, slot)
  {
    var r := Upsert(ms, m);
    if m.round == round && m.slot == slot {
      LookupUnique(r, m);
    } else {
      match Lookup(ms, round, slot)
      case Some(x) =>
        assert x in r;
        LookupUnique(r, x);
      case None =>
    }
  }

  /** The upsert semantics of `insert_matches`: afterwards the row at each
      key written is the last tuple given for that key, as a fresh PENDING
      row with the id the counter gave it; every other key is untouched. */
  lemma InsertAllLookup(ms: seq<Match>, rows: seq<Row>, nextId: nat, round: int, slot: int)
    requires KeyOrdered(ms)
    ensures Lookup(InsertAll(ms, rows, nextId), round, slot)
         == match LastIndex(rows, round, slot)
            case Some(k) => Some(NewMatch(rows[k], nextId + k))
            case None => Lookup(ms, round, slot)
  {
    InsertAllLookupAfter(ms, rows, nextId, round, slot);
    LookupAfterLast(Lookup(ms, round, slot), rows, nextId, round, slot);
  }

  /** The row at key (round, slot) once the tuples `rows` are upserted in
      order, with ids from `nextId`, onto a table whose row there is `base`. */
  function LookupAfter(base: Option<Match>, rows: seq<Row>, nextId: nat, round: int, slot: int): Option<Match>
    decreases |rows|
  {
    if rows == [] then base
    else
      var here := if rows[0].round == round && rows[0].slot == slot then Some(NewMatch(rows[0], nextId)) else base;
      LookupAfter(here, rows[1..], nextId + 1, round, slot)
  }

  /** `InsertAll` seen at one key is `LookupAfter` of the row there. */
  lemma {:induction false} InsertAllLookupAfter(ms: seq<Match>, rows: seq<Row>, nextId: nat, round: int, slot: int)
    requires KeyOrdered(ms)
    ensures Lookup(InsertAll(ms, rows, nextId), round, slot) == LookupAfter(Lookup(ms, round, slot), rows, nextId, round, slot)
    decreases |rows|
  {
    if rows != [] {
      var m := NewMatch(rows[0], nextId);
      InsertAllLookupAfter(Upsert(ms, m), rows[1..], nextId + 1, round, slot);
      UpsertLookup(ms, m, round, slot);
    }
  }

  /** Of all the tuples given for a key, the last one is what stays there. */
  lemma {:induction false} LookupAfterLast(base: Option<Match>, rows: seq<Row>, nextId: nat, round: int, slot: int)
    ensures LookupAfter(base, rows, nextId, round, slot)
         == match LastIndex(rows, round, slot)
            case Some(k) => Some(NewMatch(rows[k], nextId + k))
            case None => base
    decreases |rows|
  {
    if rows != [] {
      var here := if rows[0].round == round && rows[0].slot == slot then Some(NewMatch(rows[0], nextId)) else base;
      LookupAfterLast(here, rows[1..], nextId + 1, round, slot);
      var tail := LastIndex(rows[1..], round, slot);
      if tail.Some? {
        assert rows[1..][tail.value] == rows[tail.value + 1];
      }
    }
  }

  // ---------------------------------------------------------------------
  // Queries on the matches table
  // ---------------------------------------------------------------------

  /** A match `list_pending_matches` reports: PENDING with both sides set. */
  predicate IsPlayable(m: Match)
  {
    m.status == Pending && m.p1.Some? && m.p2.Some?
  }

  function PlayableRows(ms: seq<Match>): (r: seq<Match>)
    ensures forall m :: m in r <==> m in ms && IsPlayable(m)
    ensures KeyOrdered(ms) ==> KeyOrdered(r)
  {
    if ms == [] then []
    else
      assert forall x :: x in ms <==> x == ms[0] || x in ms[1..];
      assert KeyOrdered(ms) ==> forall x :: x in ms[1..] ==> KeyLess(ms[0], x);
      (if IsPlayable(ms[0]) then [ms[0]] else []) + PlayableRows(ms[1..])
  }

  // ---------------------------------------------------------------------
  // The players table as a value
  // ---------------------------------------------------------------------

  predicate PlayersValid(ps: seq<Player>, nextId: nat)
  {
    (forall i, j :: 0 <= i < j < |ps| ==> ps[i].id < ps[j].id && ps[i].name != ps[j].name) &&
    (forall i :: 0 <= i < |ps| ==> ps[i].id < nextId && ps[i].name != [] && Text.IsStripped(ps[i].name))
  }

  function NameSet(ps: seq<Player>): set<string>
  {
    set p | p in ps :: p.name
  }

  predicate HasName(ps: seq<Player>, name: string)
  {
    exists i :: 0 <= i < |ps| && ps[i].name == name
  }

  /** The names `add_players` keeps: each one stripped, blank ones dropped. */
  function CleanNames(names: seq<string>): (r: seq<string>)
    ensures forall x :: x in r ==> x != [] && Text.IsStripped(x)
  {
    if names == [] then []
    else
      var s := Text.Strip(names[0]);
      Text.StripBlank(names[0]);
      (if s != [] then [s] else []) + CleanNames(names[1..])
  }

  /** Exactly the non-blank names survive, stripped. */
  lemma {:induction false} CleanNamesExact(names: seq<string>, x: string)
    ensures x in CleanNames(names) <==> x != [] && exists i :: 0 <= i < |names| && Text.Strip(names[i]) == x
  {
    if names != [] {
      var s := Text.Strip(names[0]);
      CleanNamesExact(names[1..], x);
      assert CleanNames(names) == (if s != [] then [s] else []) + CleanNames(names[1..]);
      StrippedCons(names, x);
    }
  }

  /** A name strips to `x` when the first one does or one of the rest does. */
  lemma StrippedCons(names: seq<string>, x: string)
    requires names != []
    ensures (exists i :: 0 <= i < |names| && Text.Strip(names[i]) == x)
        <==> Text.Strip(names[0]) == x || exists i :: 0 <= i < |names[1..]| && Text.Strip(names[1..][i]) == x
  {
    if exists i :: 0 <= i < |names[1..]| && Text.Strip(names[1..][i]) == x {
      var i :| 0 <= i < |names[1..]| && Text.Strip(names[1..][i]) == x;
      assert names[1..][i] == names[i + 1];
    }
    if exists i :: 0 <= i < |names| && Text.Strip(names[i]) == x {
      var i :| 0 <= i < |names| && Text.Strip(names[i]) == x;
      if i > 0 { assert names[1..][i - 1] == names[i]; }
    }
  }

  /** The players table after inserting `names` one by one, each insert
      that would repeat a name being skipped; new rows get consecutive ids
      from the counter and zero statistics, and existing rows stay as they were. */
  function Registered(ps: seq<Player>, names: seq<string>, nextId: nat): (r: seq<Player>)
    ensures |ps| <= |r| && r[..|ps|] == ps
    ensures forall k :: |ps| <= k < |r| ==>
      r[k].id == nextId + (k - |ps|) && r[k].totalPoints == 0 && r[k].matchesWon == 0 && r[k].matchesPlayed == 0
    decreases |names|
  {
    if names == [] then ps
    else if HasName(ps, names[0]) then Registered(ps, names[1..], nextId)
    else
      var r := Registered(ps + [Player(nextId, names[0], 0, 0, 0)], names[1..], nextId + 1);
      assert r[..|ps| + 1][..|ps|] == r[..|ps|];
      r
  }

  /** After registration the set of names is the old one plus every name given. */
  lemma {:induction false} RegisteredNames(ps: seq<Player>, names: seq<string>, nextId: nat)
    ensures NameSet(Registered(ps, names, nextId)) == NameSet(ps) + set n | n in names
    decreases |names|
  {
    if names != [] {
      NamesCons(names);
      if HasName(ps, names[0]) {
        RegisteredNames(ps, names[1..], nextId);
        NameSetHas(ps, names[0]);
      } else {
        var p := Player(nextId, names[0], 0, 0, 0);
        RegisteredNames(ps + [p], names[1..], nextId + 1);
        NameSetAppend(ps, p);
      }
    }
  }

  lemma NamesCons(names: seq<string>)
    requires names != []
    ensures (set n | n in names) == {names[0]} + set n | n in names[1..]
  {
    assert forall n :: n in names <==> n == names[0] || n in names[1..];
  }

  lemma NameSetHas(ps: seq<Player>, name: string)
    requires HasName(ps, name)
    ensures name in NameSet(ps)
  {
    var i :| 0 <= i < |ps| && ps[i].name == name;
    assert ps[i] in ps;
  }

  lemma NameSetAppend(ps: seq<Player>, p: Player)
    ensures NameSet(ps + [p]) == NameSet(ps) + {p.name}
  {
    assert forall q :: q in ps + [p] <==> q in ps || q == p;
  }

  /** Registration of stripped, non-blank names keeps names unique and ids
      increasing and below the advanced counter. */
  lemma {:induction false} RegisteredValid(ps: seq<Player>, names: seq<string>, nextId: nat)
    requires PlayersValid(ps, nextId)
    requires forall n :: n in names ==> n != [] && Text.IsStripped(n)
    ensures var r := Registered(ps, names, nextId); PlayersValid(r, nextId + (|r| - |ps|))
    decreases |names|, 1
  {
    if names != [] {
      if HasName(ps, names[0]) {
        SkipValid(ps, names, nextId);
      } else {
        AddValid(ps, names, nextId);
      }
    }
  }

  /** `RegisteredValid` when the first name is already taken. */
  lemma {:induction false} SkipValid(ps: seq<Player>, names: seq<string>, nextId: nat)
    requires PlayersValid(ps, nextId) && names != [] && HasName(ps, names[0])
    requires forall n :: n in names ==> n != [] && Text.IsStripped(n)
    ensures var r := Registered(ps, names, nextId); PlayersValid(r, nextId + (|r| - |ps|))
    decreases |names|, 0
  {
    assert forall n :: n in names[1..] ==> n in names;
    RegisteredValid(ps, names[1..], nextId);
    assert Registered(ps, names, nextId) == Registered(ps, names[1..], nextId);
  }

  /** `RegisteredValid` when the first name is new. */
  lemma {:induction false} AddValid(ps: seq<Player>, names: seq<string>, nextId: nat)
    requires PlayersValid(ps, nextId) && names != [] && !HasName(ps, names[0])
    requires forall n :: n in names ==> n != [] && Text.IsStripped(n)
    ensures var r := Registered(ps, names, nextId); PlayersValid(r, nextId + (|r| - |ps|))
    decreases |names|, 0
  {
    assert forall n :: n in names[1..] ==> n in names;
    var ps' := ps + [Player(nextId, names[0], 0, 0, 0)];
    assert names[0] in names;
    AppendPlayerValid(ps, nextId, names[0]);
    RegisteredValid(ps', names[1..], nextId + 1);
    var r := Registered(ps', names[1..], nextId + 1);
    assert Registered(ps, names, nextId) == r;
    assert nextId + 1 + (|r| - |ps'|) == nextId + (|r| - |ps|);
  }

  /** The insert loop on the table value: each name not yet present is
      appended with the next id and zero statistics, the others skipped. */
  method RegisterAll(ps: seq<Player>, names: seq<string>, nextId: nat) returns (r: seq<Player>, next: nat)
    ensures r == Registered(ps, names, nextId)
    ensures next == nextId + (|r| - |ps|)
  {
    r, next := ps, nextId;
    var k := 0;
    while k < |names|
      invariant 0 <= k <= |names|
      invariant |ps| <= |r| && next == nextId + (|r| - |ps|)
      invariant Registered(ps, names, nextId) == Registered(r, names[k..], next)
    {
      var n := names[k];
      assert names[k..][0] == n && names[k..][1..] == names[k + 1..];
      if !HasName(r, n) {
        r := r + [Player(next, n, 0, 0, 0)];
        next := next + 1;
      }
      k := k + 1;
    }
    assert names[k..] == [];
  }

  /** Appending a new name with the counter's id keeps the players table valid. */
  lemma AppendPlayerValid(ps: seq<Player>, nextId: nat, name: string)
    requires PlayersValid(ps, nextId) && !HasName(ps, name)
    requires name != [] && Text.IsStripped(name)
    ensures PlayersValid(ps + [Player(nextId, name, 0, 0, 0)], nextId + 1)
  {
  }

  /** The position of the player with primary key `id`, if there is one. */
  function IndexOfPlayer(ps: seq<Player>, id: nat): (r: Option<nat>)
    ensures r.Some? ==> r.value < |ps| && ps[r.value].id == id
    ensures r.None? ==> forall p :: p in ps ==> p.id != id
  {
    if ps == [] then None
    else if ps[|ps| - 1].id == id then Some(|ps| - 1)
    else IndexOfPlayer(ps[..|ps| - 1], id)
  }

  predicate SortedByName(ps: seq<Player>)
  {
    forall i, j :: 0 <= i < j < |ps| ==> Text.NameLe(ps[i].name, ps[j].name)
  }

  function InsertByName(p: Player, ps: seq<Player>): (r: seq<Player>)
    ensures multiset(r) == multiset(ps) + multiset{p}
  {
    if ps == [] || Text.NameLe(p.name, ps[0].name) then [p] + ps
    else
      assert ps == [ps[0]] + ps[1..];
      [ps[0]] + InsertByName(p, ps[1..])
  }

  lemma {:induction false} InsertByNameSorted(p: Player, ps: seq<Player>)
    requires SortedByName(ps)
    ensures SortedByName(InsertByName(p, ps))
  {
    if ps == [] {
    } else if Text.NameLe(p.name, ps[0].name) {
      forall j | 0 <= j < |ps| ensures Text.NameLe(p.name, ps[j].name) {
        if j > 0 { Text.NameLeTransitive(p.name, ps[0].name, ps[j].name); }
      }
    } else {
      var rest := InsertByName(p, ps[1..]);
      InsertByNameSorted(p, ps[1..]);
      Text.NameLeTotal(p.name, ps[0].name);
      forall x | x in rest ensures Text.NameLe(ps[0].name, x.name) {
        assert x in multiset(rest);
        if x != p {
          assert x in multiset(ps[1..]);
          var j :| 0 <= j < |ps[1..]| && ps[1..][j] == x;
          assert ps[j + 1] == x;
        }
      }
    }
  }

  /** The players in name order: a permutation of the table, sorted. */
  function SortByName(ps: seq<Player>): (r: seq<Player>)
    ensures multiset(r) == multiset(ps)
    ensures SortedByName(r)
  {
    if ps == [] then []
    else
      assert ps == [ps[0]] + ps[1..];
      var rest := SortByName(ps[1..]);
      InsertByNameSorted(ps[0], rest);
      InsertByName(ps[0], rest)
  }

  /** A player's row after a result: each side gains its own score and one
      match played, the winner one match won; `UPDATE ... WHERE id=?` leaves
      every other row alone. */
  function Credit(p: Player, p1: nat, p2: nat, s1: int, s2: int, w: nat): Player
  {
    p.(totalPoints := p.totalPoints + (if p.id == p1 then s1 else 0) + (if p.id == p2 then s2 else 0),
       matchesPlayed := p.matchesPlayed + (if p.id == p1 then 1 else 0) + (if p.id == p2 then 1 else 0),
       matchesWon := p.matchesWon + (if p.id == w then 1 else 0))
  }

  /** The players table after a result: every row credited. */
  function CreditAll(ps: seq<Player>, p1: nat, p2: nat, s1: int, s2: int, w: nat): seq<Player>
  {
    seq(|ps|, i requires 0 <= i < |ps| => Credit(ps[i], p1, p2, s1, s2, w))
  }

  /** Crediting statistics keeps every id and name, so the players invariants hold. */
  lemma CreditValid(ps: seq<Player>, nextId: nat, p1: nat, p2: nat, s1: int, s2: int, w: nat)
    requires PlayersValid(ps, nextId)
    ensures var r := CreditAll(ps, p1, p2, s1, s2, w);
      PlayersValid(r, nextId) && |r| == |ps| &&
      forall i :: 0 <= i < |ps| ==> r[i] == Credit(ps[i], p1, p2, s1, s2, w)
  {
    var r := CreditAll(ps, p1, p2, s1, s2, w);
    forall i | 0 <= i < |r| ensures r[i].id == ps[i].id && r[i].name == ps[i].name {
    }
  }

  /** Recording a result rewrites the one row with that id (ids are
      unique) and keeps the table invariants. */
  lemma RecordRow(ms: seq<Match>, k: nat, nextId: nat, row: Match)
    requires MatchesValid(ms, nextId) && k < |ms|
    requires row == ms[k].(p1Score := row.p1Score, p2Score := row.p2Score, winner := row.winner, status := row.status)
    ensures MatchesValid(ms[k := row], nextId)
    ensures forall i :: 0 <= i < |ms| ==> ms[k := row][i] == if ms[i].id == ms[k].id then row else ms[i]
  {
    forall i | 0 <= i < |ms| && ms[i].id == ms[k].id ensures i == k {
      assert ms[i] in ms && ms[k] in ms;
      assert ms[i] == ms[k];
    }
    SameKeysValid(ms, ms[k := row], nextId);
  }

  // ---------------------------------------------------------------------
  // The store
  // ---------------------------------------------------------------------

  /** The table after `UPDATE matches SET p1_id, p2_id WHERE round AND slot`. */
  function SetPlayers(ms: seq<Match>, round: int, slot: int, p1: Option<nat>, p2: Option<nat>): (r: seq<Match>)
    ensures SameKeys(ms, r)
  {
    seq(|ms|, i requires 0 <= i < |ms| =>
      if ms[i].round == round && ms[i].slot == slot then ms[i].(p1 := p1, p2 := p2) else ms[i])
  }

  class Store {
    var players: seq<Player>
    var matches: seq<Match>
    var nextPlayerId: nat
    var nextMatchId: nat

    /** UNIQUE(name), UNIQUE(round, slot), the primary keys, and the
        AUTOINCREMENT counters above every id handed out. */
    ghost predicate Valid()
      reads this
    {
      MatchesValid(matches, nextMatchId) && PlayersValid(players, nextPlayerId)
    }

    /** Freshly created tables (`init_db`). */
    constructor ()
      ensures Valid()
      ensures players == [] && matches == [] && nextPlayerId == 1 && nextMatchId == 1
    {
      players, matches := [], [];
      nextPlayerId, nextMatchId := 1, 1;
    }

    /** Deletes every match; with `keepPlayers` zeroes the three statistics of
        every player, otherwise deletes every player. The counters are kept. */
    method ResetTournament(keepPlayers: bool)
      requires Valid()
      modifies this
      ensures Valid()
      ensures matches == []
      ensures keepPlayers ==> |players| == |old(players)|
      ensures keepPlayers ==> forall i :: 0 <= i < |players| ==>
        players[i] == old(players)[i].(totalPoints := 0, matchesWon := 0, matchesPlayed := 0)
      ensures !keepPlayers ==> players == []
      ensures nextPlayerId == old(nextPlayerId) && nextMatchId == old(nextMatchId)
    {
      matches := [];
      if !keepPlayers {
        players := [];
      } else {
        var ps := players;
        players := seq(|ps|, i requires 0 <= i < |ps| =>
          ps[i].(totalPoints := 0, matchesWon := 0, matchesPlayed := 0));
      }
    }

    /** Strips the names, drops blank ones, and inserts each remaining name
        that is not registered yet with zero statistics; a repeated name is
        skipped silently. */
    method AddPlayers(names: seq<string>)
      requires Valid()
      modifies this
      ensures Valid()
      ensures players == Registered(old(players), CleanNames(names), old(nextPlayerId))
      ensures nextPlayerId == old(nextPlayerId) + (|players| - |old(players)|)
      ensures matches == old(matches) && nextMatchId == old(nextMatchId)
    {
      var clean := CleanNames(names);
      RegisteredValid(players, clean, nextPlayerId);
      // The inserts run inside one transaction: the table is stored at the commit.
      players, nextPlayerId := RegisterAll(players, clean, nextPlayerId);
    }

    /** All players, ordered by name. */
    function ListPlayers(): (r: seq<Player>)
      reads this
      ensures multiset(r) == multiset(players)
      ensures SortedByName(r)
    {
      SortByName(players)
    }

    function GetPlayer(id: nat): (r: Option<Player>)
      reads this
      ensures r.Some? ==> r.value in players && r.value.id == id
      ensures r.None? ==> forall p :: p in players ==> p.id != id
    {
      match IndexOfPlayer(players, id)
      case Some(i) => Some(players[i])
      case None => None
    }

    /** Upserts every tuple on its (round, slot) key, in order. */
    method InsertMatches(rows: seq<Row>)
      requires Valid()
      modifies this
      ensures Valid()
      ensures matches == InsertAll(old(matches), rows, old(nextMatchId))
      ensures nextMatchId == old(nextMatchId) + |rows|
      ensures players == old(players) && nextPlayerId == old(nextPlayerId)
    {
      // One `executemany` inside one transaction: the table is stored at the commit.
      matches, nextMatchId := UpsertRows(matches, rows, nextMatchId);
    }

    /** Every match, ordered by (round, slot). */
    function ListMatches(): (r: seq<Match>)
      reads this
      requires Valid()
      ensures KeyOrdered(r)
      ensures forall m :: m in r <==> m in matches
    {
      matches
    }

    /** The PENDING matches with both participants set, ordered by (round, slot). */
    function ListPendingMatches(): (r: seq<Match>)
      reads this
      requires Valid()
      ensures KeyOrdered(r)
      ensures forall m :: m in r <==> m in matches && m.status == Pending && m.p1.Some? && m.p2.Some?
    {
      PlayableRows(matches)
    }

    function GetMatch(id: nat): (r: Option<Match>)
      reads this
      ensures r.Some? ==> r.value in matches && r.value.id == id
      ensures r.None? ==> forall m :: m in matches ==> m.id != id
    {
      match IndexOfId(matches, id)
      case Some(i) => Some(matches[i])
      case None => None
    }

    /** Overwrites p1 and p2 of the match at (round, slot); nothing else
        changes, and nothing at all if there is no such match. */
    method UpdateMatchPlayers(round: int, slot: int, p1: Option<nat>, p2: Option<nat>)
      requires Valid()
      modifies this
      ensures Valid()
      ensures matches == SetPlayers(old(matches), round, slot, p1, p2)
      ensures players == old(players)
      ensures nextPlayerId == old(nextPlayerId) && nextMatchId == old(nextMatchId)
    {
      var ms := matches;
      matches := SetPlayers(ms, round, slot, p1, p2);
      SameKeysValid(ms, matches, nextMatchId);
    }

    /** Records a result. Checks, in this order, that the match exists, is
        not DONE, has both participants and that the scores differ; on
        success the match becomes DONE with the higher scorer as winner and
        the participants' statistics are credited. A failure changes nothing. */
    method SetMatchResult(id: nat, s1: int, s2: int) returns (res: Outcome)
      requires Valid()
      modifies this
      ensures Valid()
      ensures nextPlayerId == old(nextPlayerId) && nextMatchId == old(nextMatchId)
      ensures var found := old(GetMatch(id));
        res == if found.None? then Fail(NotFound)
               else if found.value.status == Done then Fail(AlreadyClosed)
               else if found.value.p1.None? || found.value.p2.None? then Fail(IncompleteMatch)
               else if s1 == s2 then Fail(TiedScore)
               else Ok
      ensures res.Fail? ==> matches == old(matches) && players == old(players)
      ensures res.Ok? ==>
        var m := old(GetMatch(id)).value;
        var w := if s1 > s2 then m.p1.value else m.p2.value;
        |matches| == |old(matches)| &&
        (forall i :: 0 <= i < |matches| ==>
          matches[i] == if old(matches)[i].id == id
                        then old(matches)[i].(p1Score := Some(s1), p2Score := Some(s2), winner := Some(w), status := Done)
                        else old(matches)[i]) &&
        |players| == |old(players)| &&
        (forall i :: 0 <= i < |players| ==>
          players[i] == Credit(old(players)[i], m.p1.value, m.p2.value, s1, s2, w))
    {
      var idx := IndexOfId(matches, id);
      if idx.None? {
        return Fail(NotFound);
      }
      var k := idx.value;
      var m := matches[k];
      if m.status == Done {
        return Fail(AlreadyClosed);
      }
      if m.p1.None? || m.p2.None? {
        return Fail(IncompleteMatch);
      }
      if s1 == s2 {
        return Fail(TiedScore);
      }
      var w := if s1 > s2 then m.p1.value else m.p2.value;
      var ms, ps := matches, players;
      var row := m.(p1Score := Some(s1), p2Score := Some(s2), winner := Some(w), status := Done);
      RecordRow(ms, k, nextMatchId, row);
      CreditValid(ps, nextPlayerId, m.p1.value, m.p2.value, s1, s2, w);
      matches := ms[k := row];
      players := CreditAll(ps, m.p1.value, m.p2.value, s1, s2, w);
      res := Ok;
    }
  }
}
