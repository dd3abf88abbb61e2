/** What the filters of a search (memory/search.py) let through: every condition written out, what a
    filter takes away from the unfiltered search, and what comes back at any limit. */
module Filtering {
  import opened Options
  import opened Memories
  import opened Search
  import opened Store

  /** The same request without its filters. */
  function Cleared(r: Request): Request {
    r.(filters := Filters(None, None, None, None, None, None, None, _ => true))
  }

  lemma {:induction false} MatchingIff(rows: Table, s: Source, r: Request, h: Hit)
    ensures h in Matching(rows, s, r) <==>
      h.memory in rows && Matches(h.memory, s, r) && h.grantId == s.grantId && h.granted == s.granted
  {
    if h in Matching(rows, s, r) {
      MatchingRows(rows, s, r, h);
    }
    if h.memory in rows && Matches(h.memory, s, r) {
      MatchingFinds(rows, s, r, h.memory);
    }
  }

  lemma {:induction false} PoolOfSources(rows: Table, sources: seq<Source>, r: Request, h: Hit)
    ensures h in Pool(rows, sources, r) <==> exists i :: 0 <= i < |sources| && h in Matching(rows, sources[i], r)
    decreases |sources|
  {
    if sources != [] {
      var last := |sources| - 1;
      PoolOfSources(rows, sources[..last], r, h);
      assert forall i :: 0 <= i < last ==> sources[..last][i] == sources[i];
      assert h in Pool(rows, sources, r) <==>
        h in Pool(rows, sources[..last], r) || h in Matching(rows, sources[last], r);
    }
  }

  lemma {:induction false} PoolOfGrants(rows: Table, r: Request, granted: seq<Entry>, h: Hit)
    ensures h in Pool(rows, Sources(r, granted), r) <==>
      || h in Matching(rows, OwnSource(r), r)
      || exists e :: e in granted && h in Matching(rows, GrantSource(r, e), r)
  {
    var sources := Sources(r, granted);
    PoolOfSources(rows, sources, r, h);
    assert sources[0] == OwnSource(r);
    if e :| e in granted && h in Matching(rows, GrantSource(r, e), r) {
      var i :| 0 <= i < |granted| && granted[i] == e;
      assert sources[i + 1] == GrantSource(r, e);
    }
    if i :| 1 <= i < |sources| && h in Matching(rows, sources[i], r) {
      assert sources[i] == GrantSource(r, granted[i - 1]) && granted[i - 1] in granted;
    }
  }

  /** What an unfiltered search shows of the own workgroup: every row that is neither deleted nor past
      its expiry, a private one only to its author or to a caller without a name. */
  lemma {:induction false} OwnHitsUnfiltered(rows: Table, r: Request, m: Memory)
    ensures Hit(m, None, false) in Matching(rows, OwnSource(Cleared(r)), Cleared(r)) <==>
      && m in rows && m.workgroup == r.workgroup && m.deleted == None
      && (m.kind == "working" && m.expires.Some? ==> r.now < m.expires.value)
      && (m.scope == "private" ==> r.caller == None || r.caller == Some("") || r.caller == Some(m.agent))
  {
    MatchingIff(rows, OwnSource(Cleared(r)), Cleared(r), Hit(m, None, false));
  }

  /** What one shows through a grant: the same, but nothing private, only the grant's type if it has
      one, and nothing below the grant's importance. */
  lemma {:induction false} GrantHitsUnfiltered(rows: Table, r: Request, e: Entry, m: Memory)
    requires e.minImportance >= 0.0
    ensures Hit(m, e.grantId, true) in Matching(rows, GrantSource(Cleared(r), e), Cleared(r)) <==>
      && m in rows && m.workgroup == e.workgroup && m.deleted == None
      && (m.kind == "working" && m.expires.Some? ==> r.now < m.expires.value)
      && m.scope != "private"
      && (e.kind == None || e.kind == Some("") || e.kind == Some(m.kind))
      && e.minImportance <= m.importance
  {
    MatchingIff(rows, GrantSource(Cleared(r), e), Cleared(r), Hit(m, e.grantId, true));
  }

  /** Filters only take away from that: a row of the own workgroup stays if and only if it has the
      requested author, scope, type, utility, importance, creation time and content. */
  lemma {:induction false} OwnFiltersNarrow(rows: Table, r: Request, m: Memory)
    ensures Hit(m, None, false) in Matching(rows, OwnSource(r), r) <==>
      && Hit(m, None, false) in Matching(rows, OwnSource(Cleared(r)), Cleared(r))
      && (r.filters.agent == None || r.filters.agent == Some("") || r.filters.agent == Some(m.agent))
      && (r.filters.kind == None || r.filters.kind == Some("") || r.filters.kind == Some(m.kind))
      && (r.filters.scope == None || r.filters.scope == Some("") || r.filters.scope == Some(m.scope))
      && (r.filters.minImportance.None? || r.filters.minImportance.value <= m.importance)
      && (r.filters.minUtility.None? || r.filters.minUtility.value <= m.utility)
      && (r.filters.since.None? || r.filters.since.value <= m.created)
      && (r.filters.until.None? || m.created <= r.filters.until.value)
      && r.filters.like(m.content)
  {
    MatchingIff(rows, OwnSource(r), r, Hit(m, None, false));
    MatchingIff(rows, OwnSource(Cleared(r)), Cleared(r), Hit(m, None, false));
  }

  /** So it is through a grant, except that a grant's own type replaces the requested one, whatever
      that is; the larger of the two importances counts. */
  lemma {:induction false} GrantFiltersNarrow(rows: Table, r: Request, e: Entry, m: Memory)
    requires e.minImportance >= 0.0
    ensures Hit(m, e.grantId, true) in Matching(rows, GrantSource(r, e), r) <==>
      && Hit(m, e.grantId, true) in Matching(rows, GrantSource(Cleared(r), e), Cleared(r))
      && (r.filters.agent == None || r.filters.agent == Some("") || r.filters.agent == Some(m.agent))
      && ((e.kind == None || e.kind == Some("")) ==>
            r.filters.kind == None || r.filters.kind == Some("") || r.filters.kind == Some(m.kind))
      && (r.filters.scope == None || r.filters.scope == Some("") || r.filters.scope == Some(m.scope))
      && (r.filters.minImportance.None? || r.filters.minImportance.value <= m.importance)
      && (r.filters.minUtility.None? || r.filters.minUtility.value <= m.utility)
      && (r.filters.since.None? || r.filters.since.value <= m.created)
      && (r.filters.until.None? || m.created <= r.filters.until.value)
      && r.filters.like(m.content)
  {
    MatchingIff(rows, GrantSource(r, e), r, Hit(m, e.grantId, true));
    MatchingIff(rows, GrantSource(Cleared(r), e), Cleared(r), Hit(m, e.grantId, true));
  }

  /** What a search may return is what its sources match, and it returns all of that where the limit
      has room. */
  lemma {:induction false} FoundHits(rows: Table, r: Request, granted: seq<Entry>, limit: nat, h: Hit)
    ensures var found := Found(rows, r.(limit := limit), granted);
      var matched := h in Matching(rows, OwnSource(r), r)
        || exists e :: e in granted && h in Matching(rows, GrantSource(r, e), r);
      && (h in found ==> matched)
      && (limit >= |Pool(rows, Sources(r, granted), r)| && matched ==> h in found)
  {
    var found, pool := Found(rows, r.(limit := limit), granted), Pool(rows, Sources(r, granted), r);
    FoundIsFromPool(rows, r, granted, limit);
    PoolOfGrants(rows, r, granted, h);
    assert h in found ==> h in multiset(found) && h in multiset(pool);
    assert h in pool ==> h in multiset(pool);
    assert h in multiset(found) ==> h in found;
  }

  /** The creation times, types and contents a filtered search returns, whoever it searches through. */
  lemma {:induction false} ResultsObeyFilters(rows: Table, r: Request, granted: seq<Entry>, h: Hit)
    requires h in Found(rows, r, granted)
    ensures h.memory in rows && h.memory.deleted == None
    ensures h.memory.kind == "working" && h.memory.expires.Some? ==> r.now < h.memory.expires.value
    ensures r.filters.since.Some? ==> r.filters.since.value <= h.memory.created
    ensures r.filters.until.Some? ==> h.memory.created <= r.filters.until.value
    ensures r.filters.minImportance.Some? ==> r.filters.minImportance.value <= h.memory.importance
    ensures r.filters.minUtility.Some? ==> r.filters.minUtility.value <= h.memory.utility
    ensures r.filters.like(h.memory.content)
    ensures h.granted ==> h.memory.scope != "private"
  {
    FoundHits(rows, r, granted, r.limit, h);
    assert r.(limit := r.limit) == r;
    if h in Matching(rows, OwnSource(r), r) {
      MatchingIff(rows, OwnSource(r), r, h);
    } else {
      var e :| e in granted && h in Matching(rows, GrantSource(r, e), r);
      MatchingIff(rows, GrantSource(r, e), r, h);
    }
  }
}
