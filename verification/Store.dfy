/** MemoryStore (memory/store.py) and the two maintenance tasks that share its table
    (memory/tasks.py). Each method rewrites `rows` as its SQL statement does. */
module Store {
  import opened Options
  import opened Memories
  import CausalChain
  import Utility

  class MemoryStore {
    var rows: Table

    constructor ()
      ensures rows == [] && Valid(rows)
    {
      rows := [];
    }

    /** create_memory: the row that now holds what was asked for, or the constraint it broke. */
    method CreateMemory(n: NewMemory, id: string, now: int) returns (result: Result<Memory, StoreError>)
      requires Valid(rows)
      modifies this
      ensures Valid(rows)
      ensures rows == Create(old(rows), n, id, now).0
      ensures result.Err? <==> Create(old(rows), n, id, now).1.Err?
      ensures result.Ok? ==> (
        && result.value in rows && result.value.Live()
        && Create(old(rows), n, id, now).1 == Ok(result.value.id)
        && result.value.content == n.content && result.value.importance == n.importance)
    {
      CreateKeepsValid(rows, n, id, now);
      if Given(n.key) {
        var existing := Lookup(rows, n.workgroup, n.key.value);
        if existing.Some? {
          ghost var i :| 0 <= i < |rows| && rows[i] == existing.value;
          rows := Update(rows, m => Rewritten(m, existing.value.id, n, now));
          assert rows[i].id == existing.value.id && rows[i].Live();
          var written := GetMemory(existing.value.id);
          return Ok(written.value);
        }
      }
      if HasId(rows, id) || (n.key.Some? && HoldsKey(rows, n.workgroup, n.key.value)) {
        return Err(IntegrityError);
      }
      rows := rows + [Inserted(n, id, now)];
      assert rows[|rows| - 1].id == id;
      var inserted := GetMemory(id);
      return Ok(inserted.value);
    }

    /** get_memory: the row with this id, unless it was deleted. */
    method GetMemory(id: string) returns (result: Option<Memory>)
      requires Valid(rows)
      ensures forall i :: 0 <= i < |rows| && rows[i].id == id ==>
        result == if rows[i].Live() then Some(rows[i]) else None
      ensures !HasId(rows, id) ==> result == None
    {
      result := LiveRow(rows, id);
    }

    /** update_memory: the live row as it is afterwards, if there is one. */
    method UpdateMemory(id: string, content: Option<string>, importance: Option<real>, now: int)
      returns (result: Option<Memory>)
      requires Valid(rows)
      modifies this
      ensures Valid(rows) && rows == Edit(old(rows), id, content, importance, now)
      ensures |rows| == |old(rows)|
      ensures forall i :: 0 <= i < |rows| ==>
        var m := old(rows)[i];
        rows[i] ==
          if m.id != id || m.deleted != None || (content == None && importance == None) then m
          else if importance == None then m.(content := content.value, updated := now)
          else if content == None then m.(importance := importance.value, updated := now)
          else m.(content := content.value, importance := importance.value, updated := now)
      ensures forall i :: 0 <= i < |rows| && rows[i].id == id ==>
        result == if rows[i].Live() then Some(rows[i]) else None
      ensures !HasId(rows, id) ==> result == None
    {
      UpdateKeepsValid(rows, m => Edited(m, id, content, importance, now));
      rows := Edit(rows, id, content, importance, now);
      result := GetMemory(id);
    }

    /** soft_delete_memory: marks the live row, and returns the row with this id, live before or
        deleted long ago, as it is now; None only for an id no row has. */
    method SoftDeleteMemory(id: string, now: int) returns (result: Option<Memory>)
      requires Valid(rows)
      modifies this
      ensures Valid(rows) && rows == Remove(old(rows), id, now)
      ensures result.None? <==> !HasId(old(rows), id)
      ensures forall i :: 0 <= i < |rows| && rows[i].id == id ==> result == Some(rows[i])
      ensures result.Some? ==> result.value in rows && result.value.id == id && !result.value.Live()
      ensures forall m :: m in old(rows) && m.id == id && !m.Live() ==> result == Some(m)
    {
      UpdateKeepsValid(rows, m => Removed(m, id, now));
      rows := Remove(rows, id, now);
      result := AnyRow(rows, id);
      assert forall i :: 0 <= i < |rows| ==> rows[i].id == old(rows)[i].id;
    }

    /** update_utility: None when no live row has the id, else the utility before and after. */
    method UpdateUtility(id: string, reward: real, now: int) returns (change: Option<(real, real)>)
      requires Valid(rows)
      modifies this
      ensures Valid(rows) && rows == Reward(old(rows), id, reward, now)
      ensures change.None? <==> forall i :: 0 <= i < |rows| && rows[i].id == id ==> !rows[i].Live()
      ensures change.Some? ==> exists i :: (0 <= i < |rows| && rows[i].id == id
        && old(rows[i].utility) == change.value.0 && rows[i].utility == change.value.1)
      ensures |rows| == |old(rows)|
      ensures forall i :: 0 <= i < |rows| ==>
        var m := old(rows)[i];
        rows[i] == if m.id == id && m.deleted == None
                   then m.(utility := Utility.Feedback(m.utility, reward), updated := now) else m
    {
      UpdateKeepsValid(rows, m => Rewarded(m, id, reward, now));
      var row := LiveRow(rows, id);
      if row.None? {
        assert Reward(rows, id, reward, now) == rows;
        return None;
      }
      var before := row.value.utility;
      var after := Utility.Feedback(before, reward);
      ghost var i :| 0 <= i < |rows| && rows[i] == row.value;
      rows := Reward(rows, id, reward, now);
      assert rows[i].utility == after;
      change := Some((before, after));
    }

    /** check_causal_cycle: a walk of at most fifty steps that remembers what it met. */
    method CheckCausalCycle(parentId: string, newId: Option<string>) returns (cyclic: bool)
      ensures cyclic <==> CausalChain.Flags(CausalChain.ParentIn(rows), parentId, newId)
    {
      ghost var parent := CausalChain.ParentIn(rows);
      var visited: set<string> := {};
      ghost var path: seq<string> := [];
      var current: Option<string> := Some(parentId);
      var depth := 0;
      while Given(current) && depth < CausalChain.DEPTH
        invariant 0 <= depth <= CausalChain.DEPTH
        invariant CausalChain.Node(parent, parentId, depth) == if Given(current) then current else None
        invariant |path| == depth && visited == set v | v in path
        invariant CausalChain.CleanSoFar(parent, parentId, newId, path)
        decreases CausalChain.DEPTH - depth
      {
        CausalChain.CleanStep(parent, parentId, newId, path, current.value);
        if current == newId {
          return true;
        }
        if current.value in visited {
          return true;
        }
        visited := visited + {current.value};
        path := path + [current.value];
        current := CausalChain.ParentOf(rows, current.value);
        depth := depth + 1;
      }
      CausalChain.CleanEnd(parent, parentId, newId, path);
      return false;
    }
  }

  /** MemoryCleanupTask: soft-deletes expired working memories. */
  class CleanupTask {
    const store: MemoryStore
    var lastRun: Option<int>
    var lastCount: nat

    constructor (store: MemoryStore)
      ensures this.store == store && lastRun == None && lastCount == 0
    {
      this.store := store;
      lastRun, lastCount := None, 0;
    }

    method RunOnce(now: int) returns (count: nat)
      requires Valid(store.rows)
      modifies this, store
      ensures Valid(store.rows) && store.rows == Sweep(old(store.rows), now)
      ensures count == |set i | 0 <= i < |old(store.rows)| &&
        old(store.rows)[i].kind == "working" && old(store.rows)[i].deleted == None
        && old(store.rows)[i].expires.Some? && old(store.rows)[i].expires.value < now|
      ensures lastRun == Some(now) && lastCount == count
      ensures Sweepables(store.rows, now) == 0
      ensures |store.rows| == |old(store.rows)|
      ensures forall i :: 0 <= i < |store.rows| ==>
        var m := old(store.rows)[i];
        var expired := m.kind == "working" && m.expires.Some? && m.expires.value < now && m.deleted == None;
        store.rows[i] == if expired then m.(deleted := Some(now)) else m
    {
      UpdateKeepsValid(store.rows, m => Swept(m, now));
      SweptClean(store.rows, now);
      ExpiredCount(store.rows, now);
      count := Sweepables(store.rows, now);
      store.rows := Sweep(store.rows, now);
      lastRun, lastCount := Some(now), count;
    }
  }

  /** The row count of a statement that changes the rows of a certain kind. */
  function CountRows(rows: Table, changes: Memory -> bool): nat {
    if rows == [] then 0
    else
      var last := |rows| - 1;
      CountRows(rows[..last], changes) + if changes(rows[last]) then 1 else 0
  }

  ghost function Changed(rows: Table, changes: Memory -> bool): set<int> {
    set i | 0 <= i < |rows| && changes(rows[i])
  }

  lemma ChangedAppend(rows: Table, m: Memory, changes: Memory -> bool)
    ensures Changed(rows + [m], changes) == Changed(rows, changes) + if changes(m) then {|rows|} else {}
  {
  }

  /** It is the number of those rows. */
  lemma {:induction false} CountIsSize(rows: Table, changes: Memory -> bool)
    ensures CountRows(rows, changes) == |Changed(rows, changes)|
  {
    if rows != [] {
      var init, last := rows[..|rows| - 1], rows[|rows| - 1];
      CountIsSize(init, changes);
      ChangedAppend(init, last, changes);
      assert rows == init + [last];
    }
  }

  function Sweepables(rows: Table, now: int): nat {
    CountRows(rows, m => Sweepable(m, now))
  }

  lemma ExpiredCount(rows: Table, now: int)
    ensures Sweepables(rows, now) == |set i | 0 <= i < |rows| && rows[i].kind == "working"
      && rows[i].deleted == None && rows[i].expires.Some? && rows[i].expires.value < now|
  {
    CountIsSize(rows, m => Sweepable(m, now));
    assert Changed(rows, m => Sweepable(m, now)) == set i | 0 <= i < |rows| && rows[i].kind == "working"
      && rows[i].deleted == None && rows[i].expires.Some? && rows[i].expires.value < now;
  }

  /** A second sweep at the same moment finds nothing. */
  lemma {:induction false} SweptClean(rows: Table, now: int)
    ensures Sweepables(Sweep(rows, now), now) == 0
    ensures Sweep(Sweep(rows, now), now) == Sweep(rows, now)
  {
    CountIsSize(Sweep(rows, now), m => Sweepable(m, now));
    assert Changed(Sweep(rows, now), m => Sweepable(m, now)) == {};
  }

  /** UtilityDecayTask: the number of the rows it decayed. */
  method DecayOnce(store: MemoryStore, now: int) returns (count: nat)
    requires Valid(store.rows)
    modifies store
    ensures Valid(store.rows) && store.rows == DecayAll(old(store.rows), now)
    ensures |store.rows| == |old(store.rows)|
    ensures forall i :: 0 <= i < |store.rows| ==>
      var m := old(store.rows)[i];
      var unused := m.lastAccessed == None || now - m.lastAccessed.value > 604800;
      store.rows[i] == if m.deleted == None && unused then m.(utility := Utility.Decay(m.utility)) else m
    ensures count == |set i | 0 <= i < |old(store.rows)| && old(store.rows)[i].deleted == None
      && (old(store.rows)[i].lastAccessed == None || now - old(store.rows)[i].lastAccessed.value > 604800)|
  {
    UpdateKeepsValid(store.rows, m => Decayed(m, now));
    CountIsSize(store.rows, m => Unused(m, now));
    assert Changed(store.rows, m => Unused(m, now)) == set i | 0 <= i < |store.rows| && store.rows[i].deleted == None
      && (store.rows[i].lastAccessed == None || now - store.rows[i].lastAccessed.value > 604800);
    count := CountRows(store.rows, m => Unused(m, now));
    store.rows := DecayAll(store.rows, now);
  }
}
