/** Whole runs of the memory service: what every reachable table satisfies, and that the
    cleanup task (memory/tasks.py) cannot be observed by search. */
module MemoryRuns {
  import opened Clocks
  import opened Options
  import opened Memories
  import opened Search
  import opened StableSort
  import CausalChain
  import Utility

  datatype Op =
    | Make(n: NewMemory, id: string)
    | Change(id: string, content: Option<string>, importance: Option<real>)
    | Drop(id: string)
    | Rate(id: string, reward: real)
    | DecayTick
    | Find(request: Request, granted: seq<Entry>)
    | CleanupTick

  function Asked(e: Event<Op>): Request
    requires e.op.Find?
  {
    e.op.request.(now := e.now)
  }

  function Answer(rows: Table, e: Event<Op>): seq<Hit>
    requires e.op.Find?
  {
    Found(rows, Asked(e), e.op.granted)
  }

  function Step(rows: Table, e: Event<Op>): Table {
    match e.op
    case Make(n, id) => Create(rows, n, id, e.now).0
    case Change(id, content, importance) => Edit(rows, id, content, importance, e.now)
    case Drop(id) => Remove(rows, id, e.now)
    case Rate(id, reward) => Reward(rows, id, reward, e.now)
    case DecayTick => DecayAll(rows, e.now)
    case Find(_, _) => Touch(rows, Ids(Answer(rows, e)), e.now)
    case CleanupTick => Sweep(rows, e.now)
  }

  function Run(rows: Table, events: seq<Event<Op>>): Table
    decreases |events|
  {
    if events == [] then rows else Run(Step(rows, events[0]), events[1..])
  }

  /** The results of the searches of a run, in order. */
  function Answers(rows: Table, events: seq<Event<Op>>): seq<seq<Hit>>
    decreases |events|
  {
    if events == [] then []
    else
      (if events[0].op.Find? then [Answer(rows, events[0])] else [])
      + Answers(Step(rows, events[0]), events[1..])
  }

  // ----- Every reachable table -----

  /** What a step other than a create does to a single row; `shown` are the ids a search returned. */
  function Rewrite(m: Memory, e: Event<Op>, shown: set<string>): Memory
    requires !e.op.Make?
  {
    match e.op
    case Change(id, content, importance) => Edited(m, id, content, importance, e.now)
    case Drop(id) => Removed(m, id, e.now)
    case Rate(id, reward) => Rewarded(m, id, reward, e.now)
    case DecayTick => Decayed(m, e.now)
    case Find(_, _) => Touched(m, shown, e.now)
    case CleanupTick => Swept(m, e.now)
  }

  function Shown(rows: Table, e: Event<Op>): set<string> {
    if e.op.Find? then Ids(Answer(rows, e)) else {}
  }

  lemma StepIsUpdate(rows: Table, e: Event<Op>)
    requires !e.op.Make?
    ensures Step(rows, e) == Update(rows, m => Rewrite(m, e, Shown(rows, e)))
  {
    match e.op
    case Change(id, content, importance) => assert Step(rows, e) == Edit(rows, id, content, importance, e.now);
    case Drop(id) => assert Step(rows, e) == Remove(rows, id, e.now);
    case Rate(id, reward) => assert Step(rows, e) == Reward(rows, id, reward, e.now);
    case DecayTick => assert Step(rows, e) == DecayAll(rows, e.now);
    case Find(_, _) => assert Step(rows, e) == Touch(rows, Shown(rows, e), e.now);
    case CleanupTick => assert Step(rows, e) == Sweep(rows, e.now);
  }

  lemma StepIsRewrite(rows: Table, e: Event<Op>)
    requires !e.op.Make?
    ensures |Step(rows, e)| == |rows|
    ensures forall i :: 0 <= i < |rows| ==> Step(rows, e)[i] == Rewrite(rows[i], e, Shown(rows, e))
  {
    StepIsUpdate(rows, e);
  }

  lemma {:induction false} StepKeepsValid(rows: Table, e: Event<Op>)
    requires Valid(rows)
    ensures Valid(Step(rows, e))
  {
    if e.op.Make? {
      CreateKeepsValid(rows, e.op.n, e.op.id, e.now);
    } else {
      StepIsRewrite(rows, e);
      forall i | 0 <= i < |rows|
        ensures SameIdentity(rows[i], Step(rows, e)[i])
      {
        RewriteKeepsIdentity(rows[i], e, Shown(rows, e));
      }
      SameIdentitiesValid(rows, Step(rows, e));
    }
  }

  predicate SameIdentity(m: Memory, after: Memory) {
    after.id == m.id && after.workgroup == m.workgroup && after.key == m.key && after.parent == m.parent
    && (after.Live() ==> m.Live())
  }

  lemma RewriteKeepsIdentity(m: Memory, e: Event<Op>, shown: set<string>)
    requires !e.op.Make?
    ensures SameIdentity(m, Rewrite(m, e, shown))
  {
  }

  /** Ids stay unique and at most one live row has a given (workgroup, key), in any run. */
  lemma {:induction false} RunKeepsValid(rows: Table, events: seq<Event<Op>>)
    requires Valid(rows)
    ensures Valid(Run(rows, events))
    decreases |events|
  {
    if events != [] {
      StepKeepsValid(rows, events[0]);
      RunKeepsValid(Step(rows, events[0]), events[1..]);
    }
  }

  ghost predicate AllInBand(rows: Table) {
    forall i :: 0 <= i < |rows| ==> 0.1 <= rows[i].utility <= 0.9
  }

  predicate MakesInBand(events: seq<Event<Op>>) {
    forall i :: 0 <= i < |events| && events[i].op.Make? ==>
      0.1 <= events[i].op.n.utility <= 0.9
  }

  lemma {:induction false} StepKeepsBand(rows: Table, e: Event<Op>)
    requires AllInBand(rows) && MakesInBand([e])
    ensures AllInBand(Step(rows, e))
  {
    assert e.op.Make? ==> [e][0].op.Make?;
    if !e.op.Make? {
      StepIsRewrite(rows, e);
      forall i | 0 <= i < |rows|
        ensures Utility.InBand(Step(rows, e)[i].utility)
      {
        RewriteKeepsBand(rows[i], e, Shown(rows, e));
      }
    }
  }

  lemma RewriteKeepsBand(m: Memory, e: Event<Op>, shown: set<string>)
    requires !e.op.Make? && Utility.InBand(m.utility)
    ensures Utility.InBand(Rewrite(m, e, shown).utility)
  {
  }

  /** Created in the band, a utility never leaves it. */
  lemma {:induction false} RunKeepsBand(rows: Table, events: seq<Event<Op>>)
    requires AllInBand(rows) && MakesInBand(events)
    ensures AllInBand(Run(rows, events))
    decreases |events|
  {
    if events != [] {
      assert events[0] == [events[0]][0];
      StepKeepsBand(rows, events[0]);
      assert forall i :: 0 <= i < |events| - 1 ==> events[1..][i] == events[i + 1];
      RunKeepsBand(Step(rows, events[0]), events[1..]);
    }
  }

  /** Every create of the run gets an id nobody has used or mentioned before. */
  ghost predicate FreshIds(rows: Table, events: seq<Event<Op>>)
    decreases |events|
  {
    if events == [] then true
    else
      var e := events[0];
      && (e.op.Make? ==> CausalChain.Fresh(rows, e.op.id) && e.op.n.parent != Some(e.op.id))
      && FreshIds(Step(rows, e), events[1..])
  }

  lemma {:induction false} StepKeepsParentsFirst(rows: Table, e: Event<Op>)
    requires CausalChain.ParentsFirst(rows)
    requires e.op.Make? ==> CausalChain.Fresh(rows, e.op.id) && e.op.n.parent != Some(e.op.id)
    ensures CausalChain.ParentsFirst(Step(rows, e))
  {
    if e.op.Make? {
      CausalChain.CreateKeepsParentsFirst(rows, e.op.n, e.op.id, e.now);
    } else {
      var after := Step(rows, e);
      StepIsRewrite(rows, e);
      forall i | 0 <= i < |rows|
        ensures after[i].id == rows[i].id && after[i].parent == rows[i].parent
      {
        RewriteKeepsIdentity(rows[i], e, Shown(rows, e));
      }
    }
  }

  lemma {:induction false} RunKeepsParentsFirst(rows: Table, events: seq<Event<Op>>)
    requires CausalChain.ParentsFirst(rows) && FreshIds(rows, events)
    ensures CausalChain.ParentsFirst(Run(rows, events))
    decreases |events|
  {
    if events != [] {
      StepKeepsParentsFirst(rows, events[0]);
      RunKeepsParentsFirst(Step(rows, events[0]), events[1..]);
    }
  }

  /** In every store built with fresh ids, the cycle check of the create route lets any
      causal parent through: there is no cycle to find. */
  lemma NoCycleInAnyRun(events: seq<Event<Op>>, start: string)
    requires FreshIds([], events)
    ensures !CausalChain.Cyclic(CausalChain.ParentIn(Run([], events)), start, None)
    ensures !CausalChain.Flags(CausalChain.ParentIn(Run([], events)), start, None)
  {
    RunKeepsParentsFirst([], events);
    CausalChain.CheckNeverRejects(Run([], events), start);
  }

  // ----- Cleanup is unobservable by search -----

  /** Equal, or both past their expiry and the same to every lookup; x may be deleted where
      y is not yet. */
  ghost predicate RowSimilar(x: Memory, y: Memory, now: int) {
    || x == y
    || (&& x.Stale(now) && y.Stale(now)
        && x.id == y.id && x.workgroup == y.workgroup && x.kind == y.kind
        && x.key == y.key && x.expires == y.expires
        && (x.Live() ==> y.Live()))
  }

  ghost predicate Similar(a: Table, b: Table, now: int) {
    |a| == |b| && forall i :: 0 <= i < |a| ==> RowSimilar(a[i], b[i], now)
  }

  predicate Kept(e: Event<Op>) {
    !e.op.CleanupTick?
  }

  /** The run without its cleanups. */
  function Erase(events: seq<Event<Op>>): seq<Event<Op>> {
    if events == [] then []
    else (if Kept(events[0]) then [events[0]] else []) + Erase(events[1..])
  }

  /** The key of a create is held in the table without cleanups, and free in the one with them. */
  ghost predicate Freed(a: Table, b: Table, n: NewMemory) {
    n.key.Some? && HoldsKey(b, n.workgroup, n.key.value) && !HoldsKey(a, n.workgroup, n.key.value)
  }

  /** Side by side from table a with cleanups and from table b without them, no create of the run
      takes a key that a cleanup has freed. */
  ghost predicate NoFreedReuse(a: Table, b: Table, events: seq<Event<Op>>)
    decreases |events|
  {
    if events == [] then true
    else
      var e := events[0];
      && (e.op.Make? ==> !Freed(a, b, e.op.n))
      && NoFreedReuse(Step(a, e), if Kept(e) then Step(b, e) else b, events[1..])
  }

  lemma LaterSimilar(a: Table, b: Table, t: int, now: int)
    requires Similar(a, b, t) && t <= now
    ensures Similar(a, b, now)
  {
  }

  lemma UpdateSimilar(a: Table, b: Table, change: Memory -> Memory, now: int)
    requires Similar(a, b, now)
    requires forall x, y :: RowSimilar(x, y, now) ==> RowSimilar(change(x), change(y), now)
    ensures Similar(Update(a, change), Update(b, change), now)
  {
  }

  lemma {:induction false} SameMatches(a: Table, b: Table, s: Source, r: Request)
    requires Similar(a, b, r.now)
    ensures Matching(a, s, r) == Matching(b, s, r)
    decreases |a|
  {
    if a != [] {
      assert RowSimilar(a[0], b[0], r.now);
      assert forall i :: 0 <= i < |a| - 1 ==> a[1..][i] == a[i + 1] && b[1..][i] == b[i + 1];
      SameMatches(a[1..], b[1..], s, r);
    }
  }

  lemma {:induction false} SameFetched(a: Table, b: Table, sources: seq<Source>, r: Request)
    requires Similar(a, b, r.now)
    ensures Fetched(a, sources, r) == Fetched(b, sources, r)
    decreases |sources|
  {
    if sources != [] {
      var last := |sources| - 1;
      SameFetched(a, b, sources[..last], r);
      SameMatches(a, b, sources[last], r);
    }
  }

  /** A key held in both tables is held by the same row. */
  lemma {:induction false} SameHolder(a: Table, b: Table, wg: string, key: string, now: int)
    requires Similar(a, b, now) && Valid(a) && Valid(b) && HoldsKey(a, wg, key)
    ensures HoldsKey(b, wg, key) && Lookup(a, wg, key).value.id == Lookup(b, wg, key).value.id
  {
    var i :| 0 <= i < |a| && a[i].Holds(wg, key);
    assert RowSimilar(a[i], b[i], now);
    LookupUnique(a, wg, key, i);
    LookupUnique(b, wg, key, i);
  }

  lemma {:induction false} CreateSimilar(a: Table, b: Table, n: NewMemory, id: string, now: int)
    requires Similar(a, b, now) && Valid(a) && Valid(b) && !Freed(a, b, n)
    ensures Similar(Create(a, n, id, now).0, Create(b, n, id, now).0, now)
  {
    assert forall i :: 0 <= i < |a| ==> a[i].id == b[i].id;
    assert HasId(a, id) <==> HasId(b, id);
    if n.key.Some? && HoldsKey(a, n.workgroup, n.key.value) {
      SameHolder(a, b, n.workgroup, n.key.value, now);
      if Given(n.key) {
        var holder := Lookup(b, n.workgroup, n.key.value).value.id;
        UpdateSimilar(a, b, m => Rewritten(m, holder, n, now), now);
      }
    }
  }

  lemma SweepSimilar(a: Table, b: Table, now: int)
    requires Similar(a, b, now)
    ensures Similar(Sweep(a, now), b, now)
  {
  }

  lemma StepSimilar(a: Table, b: Table, e: Event<Op>)
    requires Similar(a, b, e.now) && Valid(a) && Valid(b) && Kept(e)
    requires e.op.Make? ==> !Freed(a, b, e.op.n)
    ensures Similar(Step(a, e), Step(b, e), e.now)
    ensures e.op.Find? ==> Answer(a, e) == Answer(b, e)
  {
    if e.op.Make? {
      CreateSimilar(a, b, e.op.n, e.op.id, e.now);
    } else {
      if e.op.Find? {
        SameFetched(a, b, Sources(Asked(e), e.op.granted), Asked(e));
      }
      StepIsRewrite(a, e);
      StepIsRewrite(b, e);
      forall i | 0 <= i < |a|
        ensures RowSimilar(Step(a, e)[i], Step(b, e)[i], e.now)
      {
        RewriteSimilar(a[i], b[i], e, Shown(b, e));
      }
    }
  }

  lemma RewriteSimilar(x: Memory, y: Memory, e: Event<Op>, shown: set<string>)
    requires !e.op.Make? && RowSimilar(x, y, e.now)
    ensures RowSimilar(Rewrite(x, e, shown), Rewrite(y, e, shown), e.now)
  {
  }

  lemma {:induction false} SimilarRuns(a: Table, b: Table, events: seq<Event<Op>>, t: int)
    requires Similar(a, b, t) && Valid(a) && Valid(b) && Timely(events, t) && NoFreedReuse(a, b, events)
    ensures Answers(a, events) == Answers(b, Erase(events))
    decreases |events|
  {
    if events != [] {
      var e := events[0];
      LaterSimilar(a, b, t, e.now);
      StepKeepsValid(a, e);
      StepKeepsValid(b, e);
      if Kept(e) {
        StepSimilar(a, b, e);
        SimilarRuns(Step(a, e), Step(b, e), events[1..], e.now);
        assert Erase(events)[0] == e && Erase(events)[1..] == Erase(events[1..]);
      } else {
        SweepSimilar(a, b, e.now);
        SimilarRuns(Step(a, e), b, events[1..], e.now);
        assert Erase(events) == Erase(events[1..]);
      }
    }
  }

  /** Erasing every cleanup from a run leaves every search result as it was, if no create takes a
      key that a cleanup has freed. */
  lemma CleanupUnobservable(rows: Table, events: seq<Event<Op>>, t: int)
    requires Valid(rows) && Timely(events, t) && NoFreedReuse(rows, rows, events)
    ensures Answers(rows, events) == Answers(rows, Erase(events))
  {
    SimilarRuns(rows, rows, events, t);
  }

  // ----- That condition is exact -----

  /** No search, made at `from` or later, tells the tables apart. */
  ghost predicate Alike(a: Table, b: Table, from: int) {
    forall r: Request, granted: seq<Entry> :: r.now >= from ==> Found(a, r, granted) == Found(b, r, granted)
  }

  /** At no moment of the run would any search tell the table with cleanups, a, from b, the one
      without. */
  ghost predicate NeverObserved(a: Table, b: Table, events: seq<Event<Op>>)
    decreases |events|
  {
    if events == [] then true
    else
      var e := events[0];
      var a', b' := Step(a, e), if Kept(e) then Step(b, e) else b;
      Alike(a', b', e.now) && NeverObserved(a', b', events[1..])
  }

  /** Every create brings an id of its own, and a row that has not expired already. */
  ghost predicate FreshMakes(rows: Table, events: seq<Event<Op>>)
    decreases |events|
  {
    if events == [] then true
    else
      var e := events[0];
      && (e.op.Make? ==> !HasId(rows, e.op.id) && !Inserted(e.op.n, e.op.id, e.now).Stale(e.now))
      && FreshMakes(if Kept(e) then Step(rows, e) else rows, events[1..])
  }

  lemma {:induction false} SimilarIsAlike(a: Table, b: Table, from: int)
    requires Similar(a, b, from)
    ensures Alike(a, b, from)
  {
    forall r: Request, granted: seq<Entry> | r.now >= from
      ensures Found(a, r, granted) == Found(b, r, granted)
    {
      LaterSimilar(a, b, from, r.now);
      SameFetched(a, b, Sources(r, granted), r);
    }
  }

  /** Everything its author can see in the workgroup. */
  function ShowAll(n: NewMemory, limit: nat, now: int): Request {
    Request(n.workgroup, Some(n.agent), Filters(None, None, None, None, None, None, None, _ => true), limit, now)
  }

  /** A create on a freed key inserts a row of its own where the key is free; where it is held, the
      expired row is rewritten, or the create rejected, and nothing new can be seen. */
  lemma {:induction false} FreedShows(a: Table, b: Table, n: NewMemory, id: string, now: int)
    requires Similar(a, b, now) && Freed(a, b, n)
    requires !HasId(b, id) && !Inserted(n, id, now).Stale(now)
    ensures !Alike(Create(a, n, id, now).0, Create(b, n, id, now).0, now)
  {
    var with, without := Create(a, n, id, now).0, Create(b, n, id, now).0;
    var r, h := ShowAll(n, |a| + 1, now), Hit(Inserted(n, id, now), None, false);
    FreedInserts(a, b, n, id, now);
    NewRowIsShown(with, n, id, now, r);
    HeldAddsNoId(b, n, id, now);
    UnknownIdIsNotShown(without, r, h);
    assert r.now >= now;
  }

  lemma FreedInserts(a: Table, b: Table, n: NewMemory, id: string, now: int)
    requires Similar(a, b, now) && Freed(a, b, n) && !HasId(b, id)
    ensures Create(a, n, id, now).0 == a + [Inserted(n, id, now)]
  {
    assert forall i :: 0 <= i < |a| ==> a[i].id == b[i].id;
  }

  lemma HeldAddsNoId(b: Table, n: NewMemory, id: string, now: int)
    requires n.key.Some? && HoldsKey(b, n.workgroup, n.key.value) && !HasId(b, id)
    ensures |Create(b, n, id, now).0| == |b| && !HasId(Create(b, n, id, now).0, id)
  {
    var without := Create(b, n, id, now).0;
    assert forall i :: 0 <= i < |b| ==> without[i].id == b[i].id;
  }

  lemma NewRowIsShown(rows: Table, n: NewMemory, id: string, now: int, r: Request)
    requires rows != [] && rows[|rows| - 1] == Inserted(n, id, now) && !Inserted(n, id, now).Stale(now)
    requires r == ShowAll(n, |rows|, now)
    ensures Hit(Inserted(n, id, now), None, false) in Found(rows, r, [])
  {
    var m := Inserted(n, id, now);
    assert Matches(m, OwnSource(r), r);
    assert m in rows;
    MatchingFinds(rows, OwnSource(r), r, m);
    FoundIsMatching(rows, r);
  }

  lemma UnknownIdIsNotShown(rows: Table, r: Request, h: Hit)
    requires !HasId(rows, h.memory.id) && r.limit >= |rows|
    ensures h !in Found(rows, r, [])
  {
    FoundIsMatching(rows, r);
    if h in Matching(rows, OwnSource(r), r) {
      MatchingRows(rows, OwnSource(r), r, h);
      assert false;
    }
  }

  /** With no grants and room for every row, a search finds exactly what its source matches. */
  lemma FoundIsMatching(rows: Table, r: Request)
    requires r.limit >= |rows|
    ensures forall h :: h in Found(rows, r, []) <==> h in Matching(rows, OwnSource(r), r)
  {
    var hits := Matching(rows, OwnSource(r), r);
    MatchingSize(rows, OwnSource(r), r);
    assert Sources(r, [])[..1] == Sources(r, []);
    FetchedOwn(rows, r, []);
    CutKeepsAll(hits, NewestFirst, r.limit);
    CutKeepsAll(QueryWorkgroup(rows, OwnSource(r), r), OldestFirst, r.limit);
  }

  lemma CutKeepsAll(hits: seq<Hit>, before: (Hit, Hit) -> bool, limit: nat)
    requires limit >= |hits|
    ensures |Cut(Sort(hits, before), limit)| == |hits|
    ensures forall h :: h in Cut(Sort(hits, before), limit) <==> h in hits
  {
    var sorted := Sort(hits, before);
    assert |multiset(sorted)| == |sorted| && |multiset(hits)| == |hits|;
    assert Cut(sorted, limit) == sorted;
    forall h
      ensures h in sorted <==> h in hits
    {
      assert h in sorted <==> h in multiset(sorted);
    }
  }

  lemma {:induction false} MatchingSize(rows: Table, s: Source, r: Request)
    ensures |Matching(rows, s, r)| <= |rows|
  {
    if rows != [] {
      MatchingSize(rows[1..], s, r);
    }
  }

  lemma {:induction false} ObservedIff(a: Table, b: Table, events: seq<Event<Op>>, t: int)
    requires Similar(a, b, t) && Valid(a) && Valid(b) && Timely(events, t) && FreshMakes(b, events)
    ensures NeverObserved(a, b, events) <==> NoFreedReuse(a, b, events)
    decreases |events|
  {
    if events != [] {
      var e := events[0];
      LaterSimilar(a, b, t, e.now);
      if e.op.Make? && Freed(a, b, e.op.n) {
        FreedShows(a, b, e.op.n, e.op.id, e.now);
      } else {
        var a', b' := Step(a, e), if Kept(e) then Step(b, e) else b;
        StepKeepsValid(a, e);
        StepKeepsValid(b, e);
        if Kept(e) {
          StepSimilar(a, b, e);
        } else {
          SweepSimilar(a, b, e.now);
        }
        SimilarIsAlike(a', b', e.now);
        ObservedIff(a', b', events[1..], e.now);
      }
    }
  }

  /** Over whole runs: the cleanups of a run can never be observed by any search if and only if no
      create of the run takes a key that a cleanup has freed. */
  lemma {:induction false} CleanupObservableIff(rows: Table, events: seq<Event<Op>>, t: int)
    requires Valid(rows) && Timely(events, t) && FreshMakes(rows, events)
    ensures NeverObserved(rows, rows, events) <==> NoFreedReuse(rows, rows, events)
  {
    ObservedIff(rows, rows, events, t);
  }

  /** The key of a create is held by a row the cleanup would delete. */
  ghost predicate ReusesSweptKey(rows: Table, n: NewMemory, now: int)
    requires n.key.Some?
  {
    exists i :: 0 <= i < |rows| && rows[i].Holds(n.workgroup, n.key.value) && Sweepable(rows[i], now)
  }

  /** One cleanup frees exactly the keys of the rows it deletes. */
  lemma {:induction false} SweepFreesIff(rows: Table, n: NewMemory, now: int)
    requires Valid(rows) && n.key.Some?
    ensures Freed(Sweep(rows, now), rows, n) <==> ReusesSweptKey(rows, n, now)
  {
    var swept := Sweep(rows, now);
    assert forall i :: 0 <= i < |rows| ==> swept[i] == Swept(rows[i], now);
    if i :| 0 <= i < |rows| && rows[i].Holds(n.workgroup, n.key.value) && !Sweepable(rows[i], now) {
      assert swept[i].Holds(n.workgroup, n.key.value);
    }
  }

  /** In particular, a cleanup right before a create can be observed if and only if the create
      reuses the key of a row the cleanup deletes. */
  lemma {:induction false} OneCleanupObservableIff(rows: Table, n: NewMemory, id: string, now: int)
    requires Valid(rows) && n.key.Some? && !HasId(rows, id) && !Inserted(n, id, now).Stale(now)
    ensures !Alike(Create(Sweep(rows, now), n, id, now).0, Create(rows, n, id, now).0, now)
      <==> ReusesSweptKey(rows, n, now)
  {
    var swept := Sweep(rows, now);
    SweepFreesIff(rows, n, now);
    SweepSimilar(rows, rows, now);
    if Freed(swept, rows, n) {
      FreedShows(swept, rows, n, id, now);
    } else {
      UpdateKeepsValid(rows, m => Swept(m, now));
      CreateSimilar(swept, rows, n, id, now);
      SimilarIsAlike(Create(swept, n, id, now).0, Create(rows, n, id, now).0, now);
    }
  }

  // ----- A condition on the run without cleanups -----

  /** The key of a create is held by a live row that has expired. */
  ghost predicate ReusesStaleKey(rows: Table, n: NewMemory, now: int) {
    n.key.Some? && exists i :: 0 <= i < |rows| && rows[i].Holds(n.workgroup, n.key.value) && rows[i].Stale(now)
  }

  /** No create of the run without cleanups reuses the key of an expired row. */
  ghost predicate NoStaleReuse(rows: Table, events: seq<Event<Op>>)
    decreases |events|
  {
    if events == [] then true
    else
      var e := events[0];
      && (e.op.Make? ==> !ReusesStaleKey(rows, e.op.n, e.now))
      && NoStaleReuse(if Kept(e) then Step(rows, e) else rows, events[1..])
  }

  /** Only keys of expired rows are ever freed, so it is enough that no create reuses one. */
  lemma {:induction false} StaleReuseSuffices(a: Table, b: Table, events: seq<Event<Op>>, t: int)
    requires Similar(a, b, t) && Valid(a) && Valid(b) && Timely(events, t) && NoStaleReuse(b, events)
    ensures NoFreedReuse(a, b, events)
    decreases |events|
  {
    if events != [] {
      var e := events[0];
      LaterSimilar(a, b, t, e.now);
      StepKeepsValid(a, e);
      StepKeepsValid(b, e);
      if e.op.Make? && Freed(a, b, e.op.n) {
        OnlyStaleIsFreed(a, b, e.op.n, e.now);
      }
      if Kept(e) {
        StepSimilar(a, b, e);
        StaleReuseSuffices(Step(a, e), Step(b, e), events[1..], e.now);
      } else {
        SweepSimilar(a, b, e.now);
        StaleReuseSuffices(Step(a, e), b, events[1..], e.now);
      }
    }
  }

  lemma OnlyStaleIsFreed(a: Table, b: Table, n: NewMemory, now: int)
    requires Similar(a, b, now) && Freed(a, b, n)
    ensures ReusesStaleKey(b, n, now)
  {
    var i :| 0 <= i < |b| && b[i].Holds(n.workgroup, n.key.value);
    assert RowSimilar(a[i], b[i], now);
    assert !a[i].Holds(n.workgroup, n.key.value);
  }
}
