/** The bounded walk up the causal parents of a memory (memory/store.py, check_causal_cycle). */
module CausalChain {
  import opened Options
  import opened Memories

  const DEPTH := 50

  /** The i-th id met on the way up from `start`; None once the chain has ended. An empty id
      ends it, as it does in the source. */
  function Node(parent: string -> Option<string>, start: string, i: nat): (n: Option<string>)
    ensures n.Some? ==> n.value != ""
  {
    if i == 0 then
      if start != "" then Some(start) else None
    else
      var below := Node(parent, start, i - 1);
      if below.Some? && Given(parent(below.value)) then parent(below.value) else None
  }

  /** The ids among the first n of the chain. */
  ghost predicate SeenBefore(parent: string -> Option<string>, start: string, i: nat) {
    exists j :: 0 <= j < i && Node(parent, start, j) == Node(parent, start, i)
  }

  /** What check_causal_cycle answers: the new id, or an id for the second time, among the
      first fifty of the chain. */
  ghost predicate Flags(parent: string -> Option<string>, start: string, newId: Option<string>) {
    exists i :: 0 <= i < DEPTH && Node(parent, start, i).Some?
      && (Node(parent, start, i) == newId || SeenBefore(parent, start, i))
  }

  /** `path` is the beginning of the chain, and nothing on it raises a flag. */
  ghost predicate CleanSoFar(parent: string -> Option<string>, start: string, newId: Option<string>,
                             path: seq<string>)
  {
    && (forall i {:trigger path[i]} :: 0 <= i < |path| ==> Node(parent, start, i) == Some(path[i]))
    && (forall i, j :: 0 <= j < i < |path| ==> path[j] != path[i])
    && (newId.Some? ==> newId.value !in path)
  }

  lemma CleanStep(parent: string -> Option<string>, start: string, newId: Option<string>,
                  path: seq<string>, v: string)
    requires CleanSoFar(parent, start, newId, path) && |path| < DEPTH
    requires Node(parent, start, |path|) == Some(v)
    ensures newId == Some(v) || v in path ==> Flags(parent, start, newId)
    ensures newId != Some(v) && v !in path ==> CleanSoFar(parent, start, newId, path + [v])
  {
  }

  lemma CleanEnd(parent: string -> Option<string>, start: string, newId: Option<string>, path: seq<string>)
    requires CleanSoFar(parent, start, newId, path) && |path| <= DEPTH
    requires |path| == DEPTH || Node(parent, start, |path|).None?
    ensures !Flags(parent, start, newId)
  {
    forall i | 0 <= i < DEPTH && Node(parent, start, i).Some?
      ensures Node(parent, start, i) != newId && !SeenBefore(parent, start, i)
    {
      if i >= |path| {
        EndedStaysEnded(parent, start, |path|, i);
      }
      assert Node(parent, start, i) == Some(path[i]);
      forall j | 0 <= j < i
        ensures Node(parent, start, j) != Node(parent, start, i)
      {
        assert path[j] != path[i];
      }
    }
  }

  ghost predicate Endless(parent: string -> Option<string>, start: string) {
    forall i: nat :: Node(parent, start, i).Some?
  }

  ghost predicate Reaches(parent: string -> Option<string>, start: string, newId: Option<string>) {
    exists i: nat :: Node(parent, start, i).Some? && Node(parent, start, i) == newId
  }

  /** Linking newId below start closes a loop, or start already sits below one. */
  ghost predicate Cyclic(parent: string -> Option<string>, start: string, newId: Option<string>) {
    Endless(parent, start) || Reaches(parent, start, newId)
  }

  ghost predicate Confined(parent: string -> Option<string>, start: string, ids: set<string>) {
    forall i: nat :: Node(parent, start, i).Some? ==> Node(parent, start, i).value in ids
  }

  lemma {:induction false} EndedStaysEnded(parent: string -> Option<string>, start: string, i: nat, j: nat)
    requires i <= j && Node(parent, start, j).Some?
    ensures Node(parent, start, i).Some?
    decreases j - i
  {
    if i < j {
      EndedStaysEnded(parent, start, i, j - 1);
    }
  }

  /** From a repetition on, the chain goes round. */
  lemma {:induction false} GoesRound(parent: string -> Option<string>, start: string, j: nat, i: nat, k: nat)
    requires Node(parent, start, j) == Node(parent, start, i)
    ensures Node(parent, start, j + k) == Node(parent, start, i + k)
  {
    if k > 0 {
      GoesRound(parent, start, j, i, k - 1);
    }
  }

  lemma {:induction false} RepeatIsEndless(parent: string -> Option<string>, start: string, j: nat, i: nat, n: nat)
    requires j < i && Node(parent, start, i).Some? && Node(parent, start, j) == Node(parent, start, i)
    ensures Node(parent, start, n).Some?
  {
    if n <= i {
      EndedStaysEnded(parent, start, n, i);
    } else {
      RepeatIsEndless(parent, start, j, i, n - (i - j));
      GoesRound(parent, start, j, i, n - i);
    }
  }

  /** Fifty ids drawn from fewer than fifty repeat one. */
  lemma {:induction false} Pigeonhole(parent: string -> Option<string>, start: string, n: nat, ids: set<string>)
    requires forall i :: 0 <= i < n ==> Node(parent, start, i).Some? && Node(parent, start, i).value in ids
    requires |ids| < n
    ensures exists i :: 0 <= i < n && SeenBefore(parent, start, i)
  {
    var last := n - 1;
    if !SeenBefore(parent, start, last) {
      var v := Node(parent, start, last).value;
      forall i | 0 <= i < last
        ensures Node(parent, start, i).value in ids - {v}
      {
        assert Node(parent, start, i) != Node(parent, start, last);
      }
      Pigeonhole(parent, start, last, ids - {v});
    }
  }

  lemma FlagsFullWalk(parent: string -> Option<string>, start: string, newId: Option<string>, ids: set<string>)
    requires Confined(parent, start, ids) && |ids| < DEPTH
    requires Node(parent, start, DEPTH - 1).Some?
    ensures Flags(parent, start, newId)
  {
    forall i | 0 <= i < DEPTH
      ensures Node(parent, start, i).Some?
    {
      EndedStaysEnded(parent, start, i, DEPTH - 1);
    }
    Pigeonhole(parent, start, DEPTH, ids);
  }

  /** A flag is never raised without a cycle; and if fewer than fifty ids are reachable, no
      cycle goes without a flag. */
  lemma ExactBelowDepth(parent: string -> Option<string>, start: string, newId: Option<string>, ids: set<string>)
    ensures Flags(parent, start, newId) ==> Cyclic(parent, start, newId)
    ensures Confined(parent, start, ids) && |ids| < 50 ==>
      (Flags(parent, start, newId) <==> Cyclic(parent, start, newId))
  {
    if Flags(parent, start, newId) {
      var i :| 0 <= i < DEPTH && Node(parent, start, i).Some?
        && (Node(parent, start, i) == newId || SeenBefore(parent, start, i));
      if SeenBefore(parent, start, i) {
        var j :| 0 <= j < i && Node(parent, start, j) == Node(parent, start, i);
        forall n: nat
          ensures Node(parent, start, n).Some?
        {
          RepeatIsEndless(parent, start, j, i, n);
        }
      }
    }
    if Confined(parent, start, ids) && |ids| < DEPTH && Cyclic(parent, start, newId) {
      if Node(parent, start, DEPTH - 1).Some? {
        FlagsFullWalk(parent, start, newId, ids);
      } else {
        var i: nat :| Node(parent, start, i).Some? && Node(parent, start, i) == newId;
        if i >= DEPTH {
          EndedStaysEnded(parent, start, DEPTH - 1, i);
          assert false;
        }
      }
    }
  }

  /** Once an id is met again, the chain stays among the ids met before. */
  lemma {:induction false} RoundIsConfined(parent: string -> Option<string>, start: string, j: nat, i: nat, n: nat)
      returns (k: nat)
    requires j < i && Node(parent, start, i).Some? && Node(parent, start, j) == Node(parent, start, i)
    ensures k < i && Node(parent, start, k) == Node(parent, start, n)
  {
    if n < i {
      k := n;
    } else {
      GoesRound(parent, start, j, i, n - i);
      k := RoundIsConfined(parent, start, j, i, n - (i - j));
    }
  }

  /** The first n ids of a chain that gets that far. */
  ghost function Ids(parent: string -> Option<string>, start: string, n: nat): (ids: set<string>)
    requires forall i: nat :: i < n ==> Node(parent, start, i).Some?
    ensures forall i: nat :: i < n ==> Node(parent, start, i).value in ids
    ensures |ids| <= n
  {
    if n == 0 then {} else Ids(parent, start, n - 1) + {Node(parent, start, n - 1).value}
  }

  /** The chain passes through fewer than fifty ids in all. */
  ghost predicate Short(parent: string -> Option<string>, start: string) {
    exists ids :: Confined(parent, start, ids) && |ids| < 50
  }

  lemma {:induction false} RepeatIsShort(parent: string -> Option<string>, start: string, i: nat)
    requires i < DEPTH && Node(parent, start, i).Some? && SeenBefore(parent, start, i)
    ensures Endless(parent, start) && Short(parent, start)
  {
    var j: nat :| j < i && Node(parent, start, j) == Node(parent, start, i);
    forall n: nat
      ensures Node(parent, start, n).Some?
    {
      RepeatIsEndless(parent, start, j, i, n);
    }
    var ids := Ids(parent, start, i);
    forall n: nat
      ensures Node(parent, start, n).value in ids
    {
      var k := RoundIsConfined(parent, start, j, i, n);
    }
    assert Confined(parent, start, ids);
  }

  /** Exactly what the check answers: whether the chain meets the new id within fifty steps, or
      goes round without end through fewer than fifty ids. */
  lemma {:induction false} FlagsIff(parent: string -> Option<string>, start: string, newId: Option<string>)
    ensures Flags(parent, start, newId) <==>
      || (Endless(parent, start) && Short(parent, start))
      || (newId.Some? && exists i: nat :: i < 50 && Node(parent, start, i) == newId)
  {
    if Flags(parent, start, newId) {
      var i :| 0 <= i < DEPTH && Node(parent, start, i).Some?
        && (Node(parent, start, i) == newId || SeenBefore(parent, start, i));
      if SeenBefore(parent, start, i) {
        RepeatIsShort(parent, start, i);
      }
    }
    if Endless(parent, start) && Short(parent, start) {
      var ids :| Confined(parent, start, ids) && |ids| < DEPTH;
      assert Node(parent, start, DEPTH - 1).Some?;
      FlagsFullWalk(parent, start, newId, ids);
    }
    if i: nat :| i < DEPTH && newId.Some? && Node(parent, start, i) == newId {
      MetIsFlagged(parent, start, newId, i);
    }
  }

  lemma MetIsFlagged(parent: string -> Option<string>, start: string, newId: Option<string>, i: nat)
    requires i < DEPTH && newId.Some? && Node(parent, start, i) == newId
    ensures Flags(parent, start, newId)
  {
    assert Node(parent, start, i).Some?;
  }

  /** Without a new id to look for, the check is exact on the endless chains through fewer than
      fifty ids, and on no other endless chain. */
  lemma {:induction false} ExactIff(parent: string -> Option<string>, start: string)
    ensures (Flags(parent, start, None) <==> Cyclic(parent, start, None))
      <==> (Endless(parent, start) ==> Short(parent, start))
  {
    FlagsIff(parent, start, None);
  }

  // ----- The bound is sharp: a ring of fifty goes unnoticed -----

  function RingId(k: nat): string {
    seq(k + 1, _ => 'a')
  }

  function RingParent(id: string): Option<string> {
    if |id| >= 50 then Some(RingId(0)) else Some(id + "a")
  }

  lemma {:induction false} RingNode(i: nat)
    ensures Node(RingParent, RingId(0), i) == Some(RingId(i % DEPTH))
  {
    if i > 0 {
      RingNode(i - 1);
      var below := (i - 1) % DEPTH;
      if below + 1 < DEPTH {
        assert RingId(below) + "a" == RingId(below + 1);
        assert i % DEPTH == below + 1;
      } else {
        assert i % DEPTH == 0;
      }
    }
  }

  lemma RingOfFiftyUnnoticed()
    ensures Endless(RingParent, RingId(0))
    ensures forall i: nat :: Node(RingParent, RingId(0), i).Some? ==> |Node(RingParent, RingId(0), i).value| <= DEPTH
    ensures !Flags(RingParent, RingId(0), None)
  {
    forall i: nat
      ensures Node(RingParent, RingId(0), i) == Some(RingId(i % DEPTH))
    {
      RingNode(i);
    }
    forall i, j | 0 <= j < i < DEPTH
      ensures Node(RingParent, RingId(0), j) != Node(RingParent, RingId(0), i)
    {
      assert |RingId(j)| != |RingId(i)|;
    }
  }

  // ----- Tables grown by creates with fresh ids have no cycle at all -----

  /** SELECT causal_parent_id ... WHERE id = ?, deleted rows included. */
  function ParentOf(rows: Table, id: string): Option<string> {
    if rows == [] then None
    else if rows[0].id == id then rows[0].parent
    else ParentOf(rows[1..], id)
  }

  function ParentIn(rows: Table): string -> Option<string> {
    id => ParentOf(rows, id)
  }

  /** An id no row has and no row names as its parent. */
  ghost predicate Fresh(rows: Table, id: string) {
    forall i :: 0 <= i < |rows| ==> rows[i].id != id && rows[i].parent != Some(id)
  }

  /** Parents come before their children, or are no rows at all. */
  ghost predicate ParentsFirst(rows: Table) {
    && (forall i, j :: 0 <= i < j < |rows| ==> rows[i].id != rows[j].id)
    && forall i, j :: 0 <= i <= j < |rows| ==> rows[i].parent != Some(rows[j].id)
  }

  lemma {:induction false} CreateKeepsParentsFirst(rows: Table, n: NewMemory, id: string, now: int)
    requires ParentsFirst(rows) && Fresh(rows, id) && n.parent != Some(id)
    ensures ParentsFirst(Create(rows, n, id, now).0)
  {
    var after := Create(rows, n, id, now).0;
    if |after| == |rows| {
      assert forall i :: 0 <= i < |rows| ==> after[i].id == rows[i].id && after[i].parent == rows[i].parent;
    } else {
      assert after == rows + [Inserted(n, id, now)];
    }
  }

  lemma {:induction false} ParentOfRow(rows: Table, k: nat)
    requires ParentsFirst(rows) && k < |rows|
    ensures ParentOf(rows, rows[k].id) == rows[k].parent
  {
    if k > 0 {
      assert forall i :: 0 <= i < |rows| - 1 ==> rows[1..][i] == rows[i + 1];
      assert rows[0].id != rows[k].id;
      ParentOfRow(rows[1..], k - 1);
    }
  }

  lemma {:induction false} ParentOfNone(rows: Table, id: string)
    requires forall k :: 0 <= k < |rows| ==> rows[k].id != id
    ensures ParentOf(rows, id) == None
  {
    if rows != [] {
      ParentOfNone(rows[1..], id);
    }
  }

  /** The place of an id in the table; past the end for an id that is no row. */
  ghost function Place(rows: Table, id: string): (k: nat)
    ensures k <= |rows|
    ensures k < |rows| ==> rows[k].id == id
    ensures k == |rows| ==> forall i :: 0 <= i < |rows| ==> rows[i].id != id
  {
    if i :| 0 <= i < |rows| && rows[i].id == id then i else |rows|
  }

  /** Going up, the place in the table falls; from an id that is no row there is no way up. */
  lemma StepUp(rows: Table, start: string, i: nat)
    requires ParentsFirst(rows)
    requires Node(ParentIn(rows), start, i + 1).Some?
    ensures Place(rows, Node(ParentIn(rows), start, i).value) < |rows|
    ensures var above := Place(rows, Node(ParentIn(rows), start, i + 1).value);
      above == |rows| || above < Place(rows, Node(ParentIn(rows), start, i).value)
  {
    var parent := ParentIn(rows);
    var c := Node(parent, start, i).value;
    var k := Place(rows, c);
    if k == |rows| {
      ParentOfNone(rows, c);
      assert false;
    } else {
      ParentOfRow(rows, k);
      var p := Node(parent, start, i + 1).value;
      assert rows[k].parent == Some(p);
    }
  }

  lemma {:induction false} PlacesFall(rows: Table, start: string, j: nat, i: nat)
    requires ParentsFirst(rows) && j < i
    requires Node(ParentIn(rows), start, i).Some?
    ensures Node(ParentIn(rows), start, j).Some?
    ensures Place(rows, Node(ParentIn(rows), start, j).value) < |rows|
    ensures var above := Place(rows, Node(ParentIn(rows), start, i).value);
      above == |rows| || above < Place(rows, Node(ParentIn(rows), start, j).value)
    decreases i
  {
    var parent := ParentIn(rows);
    EndedStaysEnded(parent, start, j, i);
    EndedStaysEnded(parent, start, i - 1, i);
    StepUp(rows, start, i - 1);
    if j < i - 1 {
      PlacesFall(rows, start, j, i - 1);
    }
  }

  /** So no id repeats, every chain ends, and the check lets every parent through. */
  lemma CheckNeverRejects(rows: Table, start: string)
    requires ParentsFirst(rows)
    ensures !Cyclic(ParentIn(rows), start, None)
    ensures !Flags(ParentIn(rows), start, None)
  {
    var parent := ParentIn(rows);
    if Endless(parent, start) {
      var n := |rows| + 1;
      assert Node(parent, start, n).Some?;
      ChainIsShort(rows, start, n);
      assert false;
    }
    ExactBelowDepth(parent, start, None, {});
  }

  lemma {:induction false} ChainIsShort(rows: Table, start: string, i: nat)
    requires ParentsFirst(rows)
    requires Node(ParentIn(rows), start, i).Some?
    ensures i <= |rows|
    ensures var place := Place(rows, Node(ParentIn(rows), start, i).value);
      place == |rows| || place + i < |rows|
  {
    var parent := ParentIn(rows);
    if i > 0 {
      EndedStaysEnded(parent, start, i - 1, i);
      StepUp(rows, start, i - 1);
      ChainIsShort(rows, start, i - 1);
    }
  }

  /** With ids chosen by hand a table can hold a cycle, and then the check sees it. */
  lemma HandmadeIdsCanCycle(n: NewMemory, now: int)
    requires n.key.None?
    ensures var one := Create([], n.(parent := Some("b")), "a", now).0;
      var two := Create(one, n.(parent := Some("a")), "b", now).0;
      |two| == 2 && !ParentsFirst(two) && Flags(ParentIn(two), "a", None)
  {
    var one := Create([], n.(parent := Some("b")), "a", now).0;
    var two := Create(one, n.(parent := Some("a")), "b", now).0;
    assert one == [Inserted(n.(parent := Some("b")), "a", now)];
    assert ParentOf(two, "b") == ParentOf(two[1..], "b") == Some("a");
    var parent := ParentIn(two);
    assert Node(parent, "a", 0) == Some("a");
    assert Node(parent, "a", 1) == Some("b");
    assert Node(parent, "a", 2) == Some("a");
    assert SeenBefore(parent, "a", 2);
  }
}
