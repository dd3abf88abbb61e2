/** Grant-aware memory search (memory/search.py): every workgroup the caller may read is
    queried for its own best `limit` rows, and the global best `limit` is taken from those. */
module Search {
  import opened Options
  import opened Memories
  import opened StableSort
  import opened Store
  import opened TopK

  /** The optional filters of a search. `like` is the compiled LIKE pattern, constantly true
      when no content filter was asked for. */
  datatype Filters = Filters(
    agent: Option<string>,
    kind: Option<string>,
    scope: Option<string>,
    minImportance: Option<real>,
    minUtility: Option<real>,
    since: Option<int>,
    until: Option<int>,
    like: string -> bool)

  /** One workgroup the caller may read; `grantId` is None for the caller's own. */
  datatype Entry = Entry(workgroup: string, grantId: Option<string>, kind: Option<string>, minImportance: real)

  datatype Request = Request(
    workgroup: string,
    caller: Option<string>,
    filters: Filters,
    limit: nat,
    now: int)

  /** One workgroup query: the filters a grant may override, and whether it is a grant. */
  datatype Source = Source(
    workgroup: string,
    kind: Option<string>,
    minImportance: Option<real>,
    granted: bool,
    grantId: Option<string>)

  datatype Hit = Hit(memory: Memory, grantId: Option<string>, granted: bool)

  function OwnSource(r: Request): Source {
    Source(r.workgroup, r.filters.kind, r.filters.minImportance, false, None)
  }

  /** A grant's type filter replaces the requested type; its importance floor is combined. */
  function GrantSource(r: Request, e: Entry): Source {
    var floor := r.filters.minImportance.GetOr(0.0);
    Source(e.workgroup,
           if Given(e.kind) then e.kind else r.filters.kind,
           Some(if e.minImportance > floor then e.minImportance else floor),
           true,
           e.grantId)
  }

  function Sources(r: Request, granted: seq<Entry>): seq<Source> {
    [OwnSource(r)] + seq(|granted|, i requires 0 <= i < |granted| => GrantSource(r, granted[i]))
  }

  /** The WHERE clause of a workgroup query. */
  predicate Matches(m: Memory, s: Source, r: Request) {
    && m.workgroup == s.workgroup
    && m.Live()
    && !m.Stale(r.now)
    && (if s.granted then m.scope != "private"
        else Given(r.caller) ==> m.scope != "private" || m.agent == r.caller.value)
    && (Given(r.filters.agent) ==> m.agent == r.filters.agent.value)
    && (Given(s.kind) ==> m.kind == s.kind.value)
    && (Given(r.filters.scope) ==> m.scope == r.filters.scope.value)
    && (s.minImportance.Some? ==> m.importance >= s.minImportance.value)
    && (r.filters.minUtility.Some? ==> m.utility >= r.filters.minUtility.value)
    && (r.filters.since.Some? ==> m.created >= r.filters.since.value)
    && (r.filters.until.Some? ==> m.created <= r.filters.until.value)
    && r.filters.like(m.content)
  }

  function Matching(rows: Table, s: Source, r: Request): seq<Hit> {
    if rows == [] then []
    else
      (if Matches(rows[0], s, r) then [Hit(rows[0], s.grantId, s.granted)] else [])
      + Matching(rows[1..], s, r)
  }

  /** ORDER BY utility DESC, created_at DESC. */
  predicate NewestFirst(a: Hit, b: Hit) {
    a.memory.utility > b.memory.utility
    || (a.memory.utility == b.memory.utility && a.memory.created > b.memory.created)
  }

  /** The first Python sort key, (-utility, created_at). */
  predicate OldestFirst(a: Hit, b: Hit) {
    a.memory.utility > b.memory.utility
    || (a.memory.utility == b.memory.utility && a.memory.created < b.memory.created)
  }

  /** The second Python sort key, (-utility,). */
  predicate HigherUtility(a: Hit, b: Hit) {
    a.memory.utility > b.memory.utility
  }

  function Score(h: Hit): real {
    h.memory.utility
  }

  function Cut(hits: seq<Hit>, limit: nat): seq<Hit> {
    hits[..Smaller(limit, |hits|)]
  }

  /** SELECT ... ORDER BY ... LIMIT for one workgroup; ties come in table order. */
  function QueryWorkgroup(rows: Table, s: Source, r: Request): seq<Hit> {
    Cut(Sort(Matching(rows, s, r), NewestFirst), r.limit)
  }

  /** results.extend, source by source. */
  function Gathered(sources: seq<Source>, query: Source -> seq<Hit>): seq<Hit> {
    if sources == [] then []
    else
      var last := |sources| - 1;
      Gathered(sources[..last], query) + query(sources[last])
  }

  function Fetched(rows: Table, sources: seq<Source>, r: Request): seq<Hit> {
    Gathered(sources, s => QueryWorkgroup(rows, s, r))
  }

  /** What the search looks for: everything any source matches, without any limit. */
  function Pool(rows: Table, sources: seq<Source>, r: Request): seq<Hit> {
    Gathered(sources, s => Matching(rows, s, r))
  }

  function Found(rows: Table, r: Request, granted: seq<Entry>): seq<Hit> {
    Cut(Sort(Fetched(rows, Sources(r, granted), r), OldestFirst), r.limit)
  }

  function Ids(hits: seq<Hit>): set<string> {
    set h | h in hits :: h.memory.id
  }

  // ----- The search as it runs on the store -----

  /** search_memories: extend, sort twice, truncate, then count the accesses. */
  method SearchMemories(db: MemoryStore, r: Request, granted: seq<Entry>) returns (results: seq<Hit>)
    modifies db
    ensures results == Found(old(db.rows), r, granted)
    ensures db.rows == Touch(old(db.rows), Ids(results), r.now)
    ensures |db.rows| == |old(db.rows)|
    ensures forall i :: 0 <= i < |db.rows| ==>
      var m := old(db.rows)[i];
      var returned := exists h :: h in results && h.memory.id == m.id;
      db.rows[i] == if returned then m.(accessCount := m.accessCount + 1, lastAccessed := Some(r.now)) else m
  {
    results := QueryWorkgroup(db.rows, OwnSource(r), r);
    FetchedOwn(db.rows, r, granted);
    for i := 0 to |granted|
      invariant db.rows == old(db.rows)
      invariant results == Fetched(db.rows, Sources(r, granted)[..i + 1], r)
    {
      FetchedGrant(db.rows, r, granted, i);
      results := results + QueryWorkgroup(db.rows, GrantSource(r, granted[i]), r);
    }
    assert Sources(r, granted)[..|granted| + 1] == Sources(r, granted);
    SecondSortIsIdle(results);
    results := Sort(results, OldestFirst);
    results := Sort(results, HigherUtility);
    results := Cut(results, r.limit);
    if results != [] {
      db.rows := Touch(db.rows, Ids(results), r.now);
    } else {
      TouchNothing(db.rows, r.now);
    }
  }

  lemma {:induction false} GatherAppend(sources: seq<Source>, s: Source, query: Source -> seq<Hit>)
    ensures Gathered(sources + [s], query) == Gathered(sources, query) + query(s)
  {
  }

  lemma {:induction false} FetchedOwn(rows: Table, r: Request, granted: seq<Entry>)
    ensures Fetched(rows, Sources(r, granted)[..1], r) == QueryWorkgroup(rows, OwnSource(r), r)
  {
    var own := OwnSource(r);
    assert Sources(r, granted)[..1] == [] + [own];
    GatherAppend([], own, s => QueryWorkgroup(rows, s, r));
  }

  lemma {:induction false} FetchedGrant(rows: Table, r: Request, granted: seq<Entry>, i: nat)
    requires i < |granted|
    ensures Fetched(rows, Sources(r, granted)[..i + 2], r) ==
      Fetched(rows, Sources(r, granted)[..i + 1], r) + QueryWorkgroup(rows, GrantSource(r, granted[i]), r)
  {
    assert Sources(r, granted)[..i + 2] == Sources(r, granted)[..i + 1] + [GrantSource(r, granted[i])];
    GatherAppend(Sources(r, granted)[..i + 1], GrantSource(r, granted[i]), s => QueryWorkgroup(rows, s, r));
  }

  /** The stable sort by utility alone finds its input in order already. */
  lemma {:induction false} SecondSortIsIdle(hits: seq<Hit>)
    ensures Sort(Sort(hits, OldestFirst), HigherUtility) == Sort(hits, OldestFirst)
  {
    OldestFirstIsWeak();
    SortOrders(hits, OldestFirst);
    SortKeepsOrdered(Sort(hits, OldestFirst), HigherUtility);
  }

  lemma TouchNothing(rows: Table, now: int)
    ensures Touch(rows, Ids([]), now) == rows
  {
  }

  // ----- Global top-k from local top-k -----

  lemma NewestFirstIsWeak()
    ensures WeakOrder(NewestFirst)
  {
  }

  lemma OldestFirstIsWeak()
    ensures WeakOrder(OldestFirst)
  {
  }

  /** A prefix of an ordered list is the best of it, if the order never contradicts utility. */
  lemma {:induction false} PrefixIsBest(sorted: seq<Hit>, before: (Hit, Hit) -> bool, limit: nat)
    requires Ordered(sorted, before)
    requires forall a, b :: Score(a) > Score(b) ==> before(a, b)
    ensures Best(multiset(Cut(sorted, limit)), multiset(sorted), limit, Score)
  {
    var n := Smaller(limit, |sorted|);
    var head, tail := sorted[..n], sorted[n..];
    assert sorted == head + tail;
    assert multiset(sorted) - multiset(head) == multiset(tail);
    assert |multiset(head)| == n && |multiset(sorted)| == |sorted|;
    forall x, y | x in multiset(tail) && y in multiset(head)
      ensures Score(x) <= Score(y)
    {
      HeadBeatsTail(sorted, before, n, x, y);
    }
  }

  lemma {:induction false} HeadBeatsTail(sorted: seq<Hit>, before: (Hit, Hit) -> bool, n: nat, x: Hit, y: Hit)
    requires Ordered(sorted, before) && n <= |sorted|
    requires x in sorted[n..] && y in sorted[..n]
    ensures !before(x, y)
  {
  }

  lemma {:induction false} CutIsBest(hits: seq<Hit>, before: (Hit, Hit) -> bool, limit: nat)
    requires WeakOrder(before)
    requires forall a, b :: Score(a) > Score(b) ==> before(a, b)
    ensures Best(multiset(Cut(Sort(hits, before), limit)), multiset(hits), limit, Score)
    ensures Ordered(Cut(Sort(hits, before), limit), before)
  {
    SortOrders(hits, before);
    PrefixIsBest(Sort(hits, before), before, limit);
  }

  lemma {:induction false} CutEverySource(rows: Table, sources: seq<Source>, r: Request,
                                          rest: multiset<Hit>, best: multiset<Hit>)
    requires Best(best, multiset(Fetched(rows, sources, r)) + rest, r.limit, Score)
    ensures Best(best, multiset(Pool(rows, sources, r)) + rest, r.limit, Score)
    decreases |sources|
  {
    if sources != [] {
      var last := |sources| - 1;
      var cut := multiset(QueryWorkgroup(rows, sources[last], r));
      var part := multiset(Matching(rows, sources[last], r));
      var earlier := multiset(Pool(rows, sources[..last], r));
      assert multiset(Fetched(rows, sources, r)) + rest
          == multiset(Fetched(rows, sources[..last], r)) + (cut + rest);
      CutEverySource(rows, sources[..last], r, cut + rest, best);
      NewestFirstIsWeak();
      CutIsBest(Matching(rows, sources[last], r), NewestFirst, r.limit);
      assert earlier + (cut + rest) == cut + (earlier + rest);
      CutFirst(cut, part, earlier + rest, best, r.limit, Score);
      assert part + (earlier + rest) == multiset(Pool(rows, sources, r)) + rest;
    }
  }

  /** For any grants and any limit: the search returns min(limit, |pool|) of everything any
      source matches, nothing it leaves out has a higher utility than anything it returns, and
      fewer than `limit` rows mean that every matching row came back. The list runs by utility
      downwards, and by age, oldest first, among equals. */
  lemma GlobalTopK(rows: Table, r: Request, granted: seq<Entry>)
    ensures var pool := Pool(rows, Sources(r, granted), r);
      var found := Found(rows, r, granted);
      && Best(multiset(found), multiset(pool), r.limit, Score)
      && Ordered(found, OldestFirst)
      && (|found| < r.limit ==> multiset(found) == multiset(pool))
  {
    var sources := Sources(r, granted);
    var fetched := Fetched(rows, sources, r);
    var pool := multiset(Pool(rows, sources, r));
    var found := Found(rows, r, granted);
    OldestFirstIsWeak();
    CutIsBest(fetched, OldestFirst, r.limit);
    assert multiset(fetched) + multiset{} == multiset(fetched);
    CutEverySource(rows, sources, r, multiset{}, multiset(found));
    assert pool + multiset{} == pool;
    if |found| < r.limit {
      assert |multiset(found)| == |found|;
      SameSizeSubset(multiset(found), pool);
    }
  }

  // ----- Ties -----

  /** What a cut drops does not belong before anything it keeps. */
  lemma {:induction false} CutRespectsOrder(hits: seq<Hit>, before: (Hit, Hit) -> bool, limit: nat,
                                            dropped: Hit, kept: Hit)
    requires WeakOrder(before)
    requires var cut := Cut(Sort(hits, before), limit); dropped in multiset(hits) - multiset(cut) && kept in cut
    ensures !before(dropped, kept)
  {
    var sorted := Sort(hits, before);
    var n := Smaller(limit, |sorted|);
    SortOrders(hits, before);
    TailIsRest(sorted, n, dropped);
    HeadBeatsTail(sorted, before, n, dropped, kept);
  }

  lemma TailIsRest(hits: seq<Hit>, n: nat, h: Hit)
    requires n <= |hits| && h in multiset(hits) - multiset(hits[..n])
    ensures h in hits[n..]
  {
    assert hits == hits[..n] + hits[n..];
    assert multiset(hits) - multiset(hits[..n]) == multiset(hits[n..]);
  }

  /** Inside one workgroup the newest of equals survive: no row the query cuts off is newer than
      a row of the same utility that it keeps ... */
  lemma {:induction false} NewestSurviveWithin(rows: Table, s: Source, r: Request, dropped: Hit, kept: Hit)
    ensures var cut := QueryWorkgroup(rows, s, r);
      dropped in multiset(Matching(rows, s, r)) - multiset(cut) && kept in cut && Score(dropped) == Score(kept)
      ==> dropped.memory.created <= kept.memory.created
  {
    var cut := QueryWorkgroup(rows, s, r);
    if dropped in multiset(Matching(rows, s, r)) - multiset(cut) && kept in cut {
      NewestFirstIsWeak();
      CutRespectsOrder(Matching(rows, s, r), NewestFirst, r.limit, dropped, kept);
    }
  }

  /** ... but in the merged list the oldest do: no fetched row that the final cut drops is older
      than a row of the same utility that comes back. */
  lemma {:induction false} OldestSurviveBetween(rows: Table, r: Request, granted: seq<Entry>, dropped: Hit, kept: Hit)
    ensures var fetched, found := Fetched(rows, Sources(r, granted), r), Found(rows, r, granted);
      dropped in multiset(fetched) - multiset(found) && kept in found && Score(dropped) == Score(kept)
      ==> dropped.memory.created >= kept.memory.created
  {
    var fetched, found := Fetched(rows, Sources(r, granted), r), Found(rows, r, granted);
    if dropped in multiset(fetched) - multiset(found) && kept in found {
      OldestFirstIsWeak();
      CutRespectsOrder(fetched, OldestFirst, r.limit, dropped, kept);
    }
  }

  lemma {:induction false} MatchingIgnoresLimit(rows: Table, s: Source, r: Request, limit: nat)
    ensures Matching(rows, s, r.(limit := limit)) == Matching(rows, s, r)
  {
    if rows != [] {
      MatchingIgnoresLimit(rows[1..], s, r, limit);
    }
  }

  lemma {:induction false} PoolIgnoresLimit(rows: Table, sources: seq<Source>, r: Request, limit: nat)
    ensures Pool(rows, sources, r.(limit := limit)) == Pool(rows, sources, r)
    decreases |sources|
  {
    if sources != [] {
      var last := |sources| - 1;
      PoolIgnoresLimit(rows, sources[..last], r, limit);
      MatchingIgnoresLimit(rows, sources[last], r, limit);
    }
  }

  /** At any limit a search returns a part of one and the same pool, and at a limit that has room
      for it, all of the pool. */
  lemma {:induction false} FoundIsFromPool(rows: Table, r: Request, granted: seq<Entry>, limit: nat)
    ensures var pool := Pool(rows, Sources(r, granted), r);
      var found := Found(rows, r.(limit := limit), granted);
      && multiset(found) <= multiset(pool)
      && Ordered(found, OldestFirst)
      && (limit >= |pool| ==> multiset(found) == multiset(pool))
  {
    var r' := r.(limit := limit);
    assert Sources(r', granted) == Sources(r, granted);
    PoolIgnoresLimit(rows, Sources(r, granted), r, limit);
    GlobalTopK(rows, r', granted);
    BestIsWhole(Found(rows, r', granted), Pool(rows, Sources(r, granted), r), limit);
  }

  lemma BestIsWhole(best: seq<Hit>, pool: seq<Hit>, limit: nat)
    requires Best(multiset(best), multiset(pool), limit, Score)
    ensures limit >= |pool| ==> multiset(best) == multiset(pool)
  {
    if limit >= |pool| {
      assert |multiset(pool)| == |pool|;
      SameSizeSubset(multiset(best), multiset(pool));
    }
  }

  /** Two hits of one utility, created at different moments. */
  ghost predicate Tied(hits: seq<Hit>) {
    exists a, b :: a in hits && b in hits && Score(a) == Score(b) && a.memory.created != b.memory.created
  }

  lemma {:induction false} UntiedIsNewestFirst(found: seq<Hit>)
    requires Ordered(found, OldestFirst)
    ensures Ordered(found, NewestFirst) <==> !Tied(found)
  {
    forall i, j | 0 <= i < j < |found|
      ensures NewestFirst(found[j], found[i]) <==>
        Score(found[i]) == Score(found[j]) && found[i].memory.created != found[j].memory.created
    {
      assert !OldestFirst(found[j], found[i]);
    }
    if Tied(found) {
      var a, b :| a in found && b in found && Score(a) == Score(b) && a.memory.created != b.memory.created;
      var i :| 0 <= i < |found| && found[i] == a;
      var j :| 0 <= j < |found| && found[j] == b;
      var k, l := if i < j then i else j, if i < j then j else i;
      assert NewestFirst(found[l], found[k]);
    }
  }

  lemma {:induction false} SameTies(a: seq<Hit>, b: seq<Hit>)
    requires multiset(a) <= multiset(b)
    ensures Tied(a) ==> Tied(b)
  {
    forall h | h in a
      ensures h in b
    {
      assert h in multiset(a);
    }
  }

  lemma {:induction false} TiesOfPool(rows: Table, r: Request, granted: seq<Entry>, limit: nat)
    ensures var pool := Pool(rows, Sources(r, granted), r);
      var found := Found(rows, r.(limit := limit), granted);
      && (!Tied(pool) ==> Ordered(found, NewestFirst))
      && (limit >= |pool| && Ordered(found, NewestFirst) ==> !Tied(pool))
  {
    var pool := Pool(rows, Sources(r, granted), r);
    var found := Found(rows, r.(limit := limit), granted);
    FoundIsFromPool(rows, r, granted, limit);
    UntiedIsNewestFirst(found);
    SameTies(found, pool);
    if limit >= |pool| {
      SameTies(pool, found);
    }
  }

  /** The source's comment promises newest first among equals. A search keeps that promise, at
      every limit, exactly when no two of the rows it matches have one utility and different
      creation times. */
  lemma {:induction false} NewestFirstIffNoTies(rows: Table, r: Request, granted: seq<Entry>)
    ensures (forall limit: nat :: Ordered(Found(rows, r.(limit := limit), granted), NewestFirst))
      <==> !Tied(Pool(rows, Sources(r, granted), r))
  {
    var pool := Pool(rows, Sources(r, granted), r);
    TiesOfPool(rows, r, granted, |pool|);
    if !Tied(pool) {
      forall limit: nat
        ensures Ordered(Found(rows, r.(limit := limit), granted), NewestFirst)
      {
        TiesOfPool(rows, r, granted, limit);
      }
    }
  }

  // ----- Duplicates -----

  lemma {:induction false} MatchingRows(rows: Table, s: Source, r: Request, h: Hit)
    requires h in Matching(rows, s, r)
    ensures h.memory in rows && Matches(h.memory, s, r)
    ensures h.grantId == s.grantId && h.granted == s.granted
  {
    if h in Matching(rows[1..], s, r) {
      MatchingRows(rows[1..], s, r, h);
    }
  }

  lemma {:induction false} MatchingFinds(rows: Table, s: Source, r: Request, m: Memory)
    requires m in rows && Matches(m, s, r)
    ensures Hit(m, s.grantId, s.granted) in Matching(rows, s, r)
  {
    if rows[0] != m {
      assert m in rows[1..];
      MatchingFinds(rows[1..], s, r, m);
    }
  }

  ghost predicate DistinctIds(hits: seq<Hit>) {
    forall i, j :: 0 <= i < j < |hits| ==> hits[i].memory.id != hits[j].memory.id
  }

  /** Some row is matched by two of the sources. */
  ghost predicate MatchedTwice(rows: Table, sources: seq<Source>, r: Request) {
    exists m, i, j :: m in rows && 0 <= i < j < |sources| && Matches(m, sources[i], r) && Matches(m, sources[j], r)
  }

  lemma {:induction false} MatchingDistinct(rows: Table, s: Source, r: Request)
    requires Valid(rows)
    ensures DistinctIds(Matching(rows, s, r))
  {
    if rows != [] {
      var rest := rows[1..];
      assert forall i :: 0 <= i < |rest| ==> rest[i] == rows[i + 1];
      MatchingDistinct(rest, s, r);
      forall h | h in Matching(rest, s, r)
        ensures h.memory.id != rows[0].id
      {
        MatchingRows(rest, s, r, h);
      }
    }
  }

  lemma {:induction false} PoolRows(rows: Table, sources: seq<Source>, r: Request, h: Hit)
    requires h in Pool(rows, sources, r)
    ensures h.memory in rows && exists i :: 0 <= i < |sources| && Matches(h.memory, sources[i], r)
    decreases |sources|
  {
    var last := |sources| - 1;
    if h in Pool(rows, sources[..last], r) {
      PoolRows(rows, sources[..last], r, h);
      var i :| 0 <= i < last && Matches(h.memory, sources[..last][i], r);
      assert Matches(h.memory, sources[i], r);
    } else {
      MatchingRows(rows, sources[last], r, h);
    }
  }

  lemma {:induction false} PoolFinds(rows: Table, sources: seq<Source>, r: Request, m: Memory, i: nat) returns (h: Hit)
    requires m in rows && i < |sources| && Matches(m, sources[i], r)
    ensures h in Pool(rows, sources, r) && h.memory == m
    decreases |sources|
  {
    var last := |sources| - 1;
    if i == last {
      MatchingFinds(rows, sources[i], r, m);
      h := Hit(m, sources[i].grantId, sources[i].granted);
    } else {
      h := PoolFinds(rows, sources[..last], r, m, i);
    }
  }

  lemma {:induction false} PoolDistinct(rows: Table, sources: seq<Source>, r: Request)
    requires Valid(rows) && !MatchedTwice(rows, sources, r)
    ensures DistinctIds(Pool(rows, sources, r))
    decreases |sources|
  {
    if sources != [] {
      var last := |sources| - 1;
      var earlier, part := Pool(rows, sources[..last], r), Matching(rows, sources[last], r);
      assert !MatchedTwice(rows, sources[..last], r);
      PoolDistinct(rows, sources[..last], r);
      MatchingDistinct(rows, sources[last], r);
      forall a, b | a in earlier && b in part
        ensures a.memory.id != b.memory.id
      {
        PoolRows(rows, sources[..last], r, a);
        MatchingRows(rows, sources[last], r, b);
        var i :| 0 <= i < last && Matches(a.memory, sources[..last][i], r);
        assert Matches(a.memory, sources[i], r);
        assert a.memory != b.memory;
      }
    }
  }

  lemma {:induction false} PoolRepeats(rows: Table, sources: seq<Source>, r: Request, m: Memory, i: nat, j: nat)
    requires m in rows && i < j < |sources| && Matches(m, sources[i], r) && Matches(m, sources[j], r)
    ensures !DistinctIds(Pool(rows, sources, r))
    decreases |sources|
  {
    var last := |sources| - 1;
    var pool, earlier, part := Pool(rows, sources, r), Pool(rows, sources[..last], r), Matching(rows, sources[last], r);
    assert pool == earlier + part;
    if j == last {
      var h := PoolFinds(rows, sources[..last], r, m, i);
      MatchingFinds(rows, sources[j], r, m);
      var k :| 0 <= k < |earlier| && earlier[k] == h;
      var l :| 0 <= l < |part| && part[l].memory == m;
      assert pool[k].memory.id == pool[|earlier| + l].memory.id;
    } else {
      PoolRepeats(rows, sources[..last], r, m, i, j);
      var k, l :| 0 <= k < l < |earlier| && earlier[k].memory.id == earlier[l].memory.id;
      assert pool[k].memory.id == pool[l].memory.id;
    }
  }

  lemma TwiceInSequence(hits: seq<Hit>, i: nat, j: nat)
    requires i < j < |hits| && hits[i] == hits[j]
    ensures multiset(hits)[hits[i]] >= 2
  {
    assert hits == hits[..j] + hits[j..];
    assert hits[i] in hits[..j] && hits[i] in hits[j..];
  }

  lemma {:induction false} OncePerId(hits: seq<Hit>, h: Hit)
    requires DistinctIds(hits)
    ensures multiset(hits)[h] <= 1
  {
    if hits != [] {
      var rest := hits[1..];
      assert hits == [hits[0]] + rest;
      OncePerId(rest, h);
      if hits[0] == h {
        assert h !in rest;
      }
    }
  }

  lemma {:induction false} PartsAreDistinct(part: seq<Hit>, whole: seq<Hit>)
    requires multiset(part) <= multiset(whole) && DistinctIds(whole)
    ensures DistinctIds(part)
  {
    forall i, j | 0 <= i < j < |part|
      ensures part[i].memory.id != part[j].memory.id
    {
      assert part[i] in multiset(part) && part[j] in multiset(part);
      assert part[i] in whole && part[j] in whole;
      if part[i] == part[j] {
        TwiceInSequence(part, i, j);
        OncePerId(whole, part[i]);
        assert false;
      }
    }
  }

  /** A search returns no memory twice, at any limit, if and only if no row is matched both by two
      of its sources: the own workgroup, or the grants it was given. */
  lemma {:induction false} NoDuplicatesIff(rows: Table, r: Request, granted: seq<Entry>)
    requires Valid(rows)
    ensures (forall limit: nat :: DistinctIds(Found(rows, r.(limit := limit), granted)))
      <==> !MatchedTwice(rows, Sources(r, granted), r)
  {
    var sources := Sources(r, granted);
    var pool := Pool(rows, sources, r);
    if MatchedTwice(rows, sources, r) {
      var m, i, j :| m in rows && 0 <= i < j < |sources| && Matches(m, sources[i], r) && Matches(m, sources[j], r);
      PoolRepeats(rows, sources, r, m, i, j);
      var found := Found(rows, r.(limit := |pool|), granted);
      FoundIsFromPool(rows, r, granted, |pool|);
      if DistinctIds(found) {
        PartsAreDistinct(pool, found);
      }
    } else {
      PoolDistinct(rows, sources, r);
      forall limit: nat
        ensures DistinctIds(Found(rows, r.(limit := limit), granted))
      {
        FoundIsFromPool(rows, r, granted, limit);
        PartsAreDistinct(Found(rows, r.(limit := limit), granted), pool);
      }
    }
  }

  /** So it never does if every workgroup is read through one source. */
  lemma {:induction false} OneSourceEach(rows: Table, r: Request, granted: seq<Entry>)
    requires Valid(rows)
    requires var sources := Sources(r, granted);
      forall i, j :: 0 <= i < j < |sources| ==> sources[i].workgroup != sources[j].workgroup
    ensures DistinctIds(Found(rows, r, granted))
  {
    NoDuplicatesIff(rows, r, granted);
    assert r.(limit := r.limit) == r;
  }
}
