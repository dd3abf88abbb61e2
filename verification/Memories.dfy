/** Agent memories and grants as rows (memory/store.py), and what each statement of the store
    does to the table. A table is the sequence of its rows in insertion order; times are
    integers; `now` is the clock reading the caller took. */
module Memories {
  import opened Options
  import Utility

  datatype Memory = Memory(
    id: string,
    agent: string,
    workgroup: string,
    kind: string,
    scope: string,
    content: string,
    key: Option<string>,
    importance: real,
    utility: real,
    accessCount: nat,
    lastAccessed: Option<int>,
    parent: Option<string>,
    created: int,
    updated: int,
    expires: Option<int>,
    deleted: Option<int>)
  {
    predicate Live() {
      deleted.None?
    }

    /** Working memory past its expiry date: search no longer shows it. */
    predicate Stale(now: int) {
      kind == "working" && expires.Some? && expires.value <= now
    }

    predicate Holds(wg: string, k: string) {
      Live() && workgroup == wg && key == Some(k)
    }
  }

  type Table = seq<Memory>

  /** The arguments of create_memory. */
  datatype NewMemory = NewMemory(
    agent: string,
    workgroup: string,
    kind: string,
    scope: string,
    content: string,
    key: Option<string>,
    importance: real,
    utility: real,
    parent: Option<string>,
    expires: Option<int>)

  /** A statement the table's PRIMARY KEY or its unique index on (workgroup, key) rejects. */
  datatype StoreError = IntegrityError

  predicate HasId(rows: Table, id: string) {
    exists i :: 0 <= i < |rows| && rows[i].id == id
  }

  predicate HoldsKey(rows: Table, wg: string, key: string) {
    exists i :: 0 <= i < |rows| && rows[i].Holds(wg, key)
  }

  /** The row a (workgroup, key) lookup finds. */
  function Lookup(rows: Table, wg: string, key: string): (r: Option<Memory>)
    ensures r.Some? <==> HoldsKey(rows, wg, key)
    ensures r.Some? ==> r.value in rows && r.value.Holds(wg, key)
  {
    if rows == [] then None
    else if rows[0].Holds(wg, key) then Some(rows[0])
    else
      assert forall i :: 1 <= i < |rows| ==> rows[i] == rows[1..][i - 1];
      Lookup(rows[1..], wg, key)
  }

  /** The live row with an id, if any (get_memory). */
  function LiveRow(rows: Table, id: string): (r: Option<Memory>)
    ensures r.Some? <==> exists i :: 0 <= i < |rows| && rows[i].id == id && rows[i].Live()
    ensures r.Some? ==> r.value in rows && r.value.id == id && r.value.Live()
  {
    if rows == [] then None
    else if rows[0].id == id && rows[0].Live() then Some(rows[0])
    else
      assert forall i :: 1 <= i < |rows| ==> rows[i] == rows[1..][i - 1];
      LiveRow(rows[1..], id)
  }

  /** The row with an id, deleted or not. */
  function AnyRow(rows: Table, id: string): (r: Option<Memory>)
    ensures r.Some? <==> HasId(rows, id)
    ensures r.Some? ==> r.value in rows && r.value.id == id
  {
    if rows == [] then None
    else if rows[0].id == id then Some(rows[0])
    else
      assert forall i :: 1 <= i < |rows| ==> rows[i] == rows[1..][i - 1];
      AnyRow(rows[1..], id)
  }

  /** UPDATE: every row rewritten on its own. */
  function Update(rows: Table, change: Memory -> Memory): (r: Table)
    ensures |r| == |rows|
    ensures forall i :: 0 <= i < |rows| ==> r[i] == change(rows[i])
  {
    seq(|rows|, i requires 0 <= i < |rows| => change(rows[i]))
  }

  /** What the two uniqueness constraints of the table promise. */
  ghost predicate Valid(rows: Table) {
    && (forall i, j :: 0 <= i < j < |rows| ==> rows[i].id != rows[j].id)
    && (forall i, j :: 0 <= i < j < |rows| && rows[i].Live() && rows[j].Live()
          && rows[i].workgroup == rows[j].workgroup && rows[i].key.Some?
          ==> rows[i].key != rows[j].key)
  }

  function Inserted(n: NewMemory, id: string, now: int): Memory {
    Memory(id, n.agent, n.workgroup, n.kind, n.scope, n.content, n.key, n.importance, n.utility,
           0, None, n.parent, now, now, n.expires, None)
  }

  /** A keyed create on a key that is taken rewrites these three fields of the holder. */
  function Rewritten(m: Memory, id: string, n: NewMemory, now: int): Memory {
    if m.id == id then m.(content := n.content, importance := n.importance, updated := now) else m
  }

  /** create_memory: upsert by (workgroup, key) when a non-empty key is given, INSERT otherwise.
      The result names the row that was written. */
  function Create(rows: Table, n: NewMemory, id: string, now: int): (Table, Result<string, StoreError>) {
    if Given(n.key) && HoldsKey(rows, n.workgroup, n.key.value) then
      var holder := Lookup(rows, n.workgroup, n.key.value).value.id;
      (Update(rows, m => Rewritten(m, holder, n, now)), Ok(holder))
    else if HasId(rows, id) || (n.key.Some? && HoldsKey(rows, n.workgroup, n.key.value)) then
      (rows, Err(IntegrityError))
    else
      (rows + [Inserted(n, id, now)], Ok(id))
  }

  function Edited(m: Memory, id: string, content: Option<string>, importance: Option<real>, now: int): Memory {
    if m.id == id && m.Live() && (content.Some? || importance.Some?) then
      m.(content := content.GetOr(m.content), importance := importance.GetOr(m.importance), updated := now)
    else m
  }

  function Removed(m: Memory, id: string, now: int): Memory {
    if m.id == id && m.Live() then m.(deleted := Some(now)) else m
  }

  function Rewarded(m: Memory, id: string, reward: real, now: int): Memory {
    if m.id == id && m.Live() then m.(utility := Utility.Feedback(m.utility, reward), updated := now) else m
  }

  const WEEK := 7 * 24 * 3600

  /** The WHERE clause of the decay statement: live, and not accessed for a week. */
  predicate Unused(m: Memory, now: int) {
    m.Live() && (m.lastAccessed.None? || m.lastAccessed.value < now - WEEK)
  }

  function Decayed(m: Memory, now: int): Memory {
    if Unused(m, now) then
      m.(utility := Utility.Decay(m.utility))
    else m
  }

  /** The WHERE clause of the cleanup statement: expired strictly before now, and live. */
  predicate Sweepable(m: Memory, now: int) {
    m.kind == "working" && m.expires.Some? && m.expires.value < now && m.Live()
  }

  function Swept(m: Memory, now: int): Memory {
    if Sweepable(m, now) then m.(deleted := Some(now)) else m
  }

  function Touched(m: Memory, ids: set<string>, now: int): Memory {
    if m.id in ids then m.(accessCount := m.accessCount + 1, lastAccessed := Some(now)) else m
  }

  function Edit(rows: Table, id: string, content: Option<string>, importance: Option<real>, now: int): Table {
    Update(rows, m => Edited(m, id, content, importance, now))
  }

  function Remove(rows: Table, id: string, now: int): Table {
    Update(rows, m => Removed(m, id, now))
  }

  function Reward(rows: Table, id: string, reward: real, now: int): Table {
    Update(rows, m => Rewarded(m, id, reward, now))
  }

  function DecayAll(rows: Table, now: int): Table {
    Update(rows, m => Decayed(m, now))
  }

  function Sweep(rows: Table, now: int): Table {
    Update(rows, m => Swept(m, now))
  }

  function Touch(rows: Table, ids: set<string>, now: int): Table {
    Update(rows, m => Touched(m, ids, now))
  }

  // ----- The constraints hold for ever, and the keyed rows behave as a map -----

  /** A rewriting that changes no identity and revives nothing. */
  ghost predicate Tame(change: Memory -> Memory) {
    forall m :: change(m).id == m.id && change(m).workgroup == m.workgroup
      && change(m).key == m.key && (change(m).Live() ==> m.Live())
  }

  lemma SameIdentitiesValid(rows: Table, after: Table)
    requires Valid(rows) && |after| == |rows|
    requires forall i :: 0 <= i < |rows| ==> after[i].id == rows[i].id && after[i].workgroup == rows[i].workgroup
    requires forall i :: 0 <= i < |rows| ==> after[i].key == rows[i].key && (after[i].Live() ==> rows[i].Live())
    ensures Valid(after)
  {
  }

  lemma UpdateKeepsValid(rows: Table, change: Memory -> Memory)
    requires Valid(rows) && Tame(change)
    ensures Valid(Update(rows, change))
  {
  }

  lemma {:induction false} CreateKeepsValid(rows: Table, n: NewMemory, id: string, now: int)
    requires Valid(rows)
    ensures Valid(Create(rows, n, id, now).0)
  {
    if Given(n.key) && HoldsKey(rows, n.workgroup, n.key.value) {
      var holder := Lookup(rows, n.workgroup, n.key.value).value.id;
      UpdateKeepsValid(rows, m => Rewritten(m, holder, n, now));
    }
  }

  lemma LookupUnique(rows: Table, wg: string, key: string, i: nat)
    requires Valid(rows) && i < |rows| && rows[i].Holds(wg, key)
    ensures Lookup(rows, wg, key) == Some(rows[i])
  {
  }

  /** A create with a non-empty key is one map update at (workgroup, key): on a taken key the
      holder keeps everything but content, importance and update time, on a free key the new row
      appears under its own id, and every other key keeps its row. */
  lemma {:induction false} CreateIsMapUpdate(rows: Table, n: NewMemory, id: string, now: int, wg: string, key: string)
    requires Valid(rows) && Given(n.key) && !HasId(rows, id)
    ensures var (after, outcome) := Create(rows, n, id, now);
      var before := Lookup(rows, n.workgroup, n.key.value);
      var there := if before.Some?
        then before.value.(content := n.content, importance := n.importance, updated := now)
        else Inserted(n, id, now);
      && outcome == Ok(there.id)
      && Lookup(after, wg, key) ==
         if wg == n.workgroup && key == n.key.value then Some(there) else Lookup(rows, wg, key)
  {
    var (after, outcome) := Create(rows, n, id, now);
    CreateKeepsValid(rows, n, id, now);
    var before := Lookup(rows, n.workgroup, n.key.value);
    if before.Some? {
      var i :| 0 <= i < |rows| && rows[i] == before.value;
      SameLookup(rows, after, i, wg, key);
      if wg == n.workgroup && key == n.key.value {
        LookupUnique(after, wg, key, i);
      }
    } else {
      AppendLookup(rows, Inserted(n, id, now), wg, key);
    }
  }

  /** What a create writes, in full. On a non-empty key that a live row of the workgroup holds, that row
      gets a new content, importance and update time, and keeps all else ... */
  lemma {:induction false} CreateRewrites(rows: Table, n: NewMemory, id: string, now: int, i: nat)
    requires Valid(rows) && i < |rows| && n.key != None && n.key != Some("")
    requires rows[i].deleted == None && rows[i].workgroup == n.workgroup && rows[i].key == n.key
    ensures Create(rows, n, id, now) ==
      (rows[i := rows[i].(content := n.content, importance := n.importance, updated := now)], Ok(rows[i].id))
  {
    LookupUnique(rows, n.workgroup, n.key.value, i);
    var written := rows[i].(content := n.content, importance := n.importance, updated := now);
    assert Create(rows, n, id, now).0 == rows[i := written];
  }

  /** ... on a free key, or without one, a new row with what was asked for appears at the end ... */
  lemma {:induction false} CreateInserts(rows: Table, n: NewMemory, id: string, now: int)
    requires forall i :: 0 <= i < |rows| ==> rows[i].id != id
    requires forall i :: 0 <= i < |rows| && rows[i].deleted == None && rows[i].workgroup == n.workgroup ==>
      rows[i].key != n.key || n.key == None
    ensures var (after, outcome) := Create(rows, n, id, now);
      && outcome == Ok(id) && |after| == |rows| + 1 && after[..|rows|] == rows
      && var m := after[|rows|];
         && m.id == id && m.agent == n.agent && m.workgroup == n.workgroup && m.kind == n.kind
         && m.scope == n.scope && m.content == n.content && m.key == n.key && m.importance == n.importance
         && m.utility == n.utility && m.accessCount == 0 && m.lastAccessed == None && m.parent == n.parent
         && m.created == now && m.updated == now && m.expires == n.expires && m.deleted == None
  {
  }

  /** ... and nothing happens if a row is to be inserted whose id is taken, or whose key is the empty
      one and held. */
  lemma {:induction false} CreateRejects(rows: Table, n: NewMemory, id: string, now: int, i: nat)
    requires i < |rows|
    requires n.key != None && n.key != Some("") ==> forall j :: 0 <= j < |rows| ==>
      !(rows[j].deleted == None && rows[j].workgroup == n.workgroup && rows[j].key == n.key)
    requires rows[i].id == id
      || (n.key == Some("") && rows[i].deleted == None && rows[i].workgroup == n.workgroup && rows[i].key == n.key)
    ensures Create(rows, n, id, now) == (rows, Err(IntegrityError))
  {
    assert rows[i].id == id ==> HasId(rows, id);
    assert n.key == Some("") && rows[i].Holds(n.workgroup, "") ==> HoldsKey(rows, n.workgroup, "");
  }

  lemma {:induction false} SameLookup(rows: Table, after: Table, i: nat, wg: string, key: string)
    requires Valid(rows) && Valid(after) && |after| == |rows| && i < |rows|
    requires forall j :: 0 <= j < |rows| && j != i ==> after[j] == rows[j]
    requires rows[i].Live() && after[i].Live()
    requires after[i].workgroup == rows[i].workgroup && after[i].key == rows[i].key
    ensures !rows[i].Holds(wg, key) ==> Lookup(after, wg, key) == Lookup(rows, wg, key)
  {
    if !rows[i].Holds(wg, key) && HoldsKey(rows, wg, key) {
      var j :| 0 <= j < |rows| && rows[j].Holds(wg, key);
      LookupUnique(rows, wg, key, j);
      LookupUnique(after, wg, key, j);
    }
  }

  lemma {:induction false} AppendLookup(rows: Table, m: Memory, wg: string, key: string)
    ensures Lookup(rows + [m], wg, key) ==
      if HoldsKey(rows, wg, key) then Lookup(rows, wg, key)
      else if m.Holds(wg, key) then Some(m) else None
  {
    if rows != [] {
      assert (rows + [m])[1..] == rows[1..] + [m];
      AppendLookup(rows[1..], m, wg, key);
      assert Lookup(rows, wg, key).Some? <==> HoldsKey(rows, wg, key);
    }
  }

  /** A soft delete is one map removal, of the key its row holds. */
  lemma RemoveIsMapRemoval(rows: Table, id: string, now: int, wg: string, key: string)
    requires Valid(rows)
    ensures var before := Lookup(rows, wg, key);
      Lookup(Remove(rows, id, now), wg, key) ==
      if before.Some? && before.value.id == id then None else before
  {
  }

  /** So a create under a key whose row was soft-deleted inserts a row with the new id. */
  lemma {:induction false} RecreateGetsNewId(rows: Table, n: NewMemory, gone: string, newId: string, t: int, now: int)
    requires Valid(rows) && Given(n.key) && !HasId(rows, newId)
    requires Lookup(rows, n.workgroup, n.key.value).Some?
    requires Lookup(rows, n.workgroup, n.key.value).value.id == gone
    ensures var (after, outcome) := Create(Remove(rows, gone, t), n, newId, now);
      outcome == Ok(newId) && Lookup(after, n.workgroup, n.key.value) == Some(Inserted(n, newId, now))
  {
    RemoveIsMapRemoval(rows, gone, t, n.workgroup, n.key.value);
    UpdateKeepsValid(rows, m => Removed(m, gone, t));
    var freed := Remove(rows, gone, t);
    assert forall i :: 0 <= i < |rows| ==> freed[i].id == rows[i].id;
    CreateIsMapUpdate(freed, n, newId, now, n.workgroup, n.key.value);
  }
}
