/** Grants and point access (memory/access.py), and how the access check compares with what a
    search shows. The two are written independently in the source. */
module Access {
  import opened Options
  import opened Memories
  import opened Search

  datatype Grant = Grant(
    id: string,
    grantor: string,
    granteeAgent: Option<string>,
    granteeWorkgroup: Option<string>,
    kind: Option<string>,
    minImportance: real,
    permission: string,
    validFrom: Option<int>,
    validUntil: Option<int>)

  /** The WHERE clause of the grant query. */
  predicate Applies(g: Grant, wg: string, agent: Option<string>, permission: string, now: int) {
    && (g.validFrom.Some? ==> g.validFrom.value <= now)
    && (g.validUntil.Some? ==> g.validUntil.value > now)
    && (if permission == "read" then g.permission == "read" || g.permission == "read_write"
        else if permission == "write" then g.permission == "write" || g.permission == "read_write"
        else g.permission == permission)
    && (g.granteeWorkgroup == Some(wg) || (Given(agent) && g.granteeAgent == agent))
  }

  function EntryOf(g: Grant): Entry {
    Entry(g.grantor, Some(g.id), g.kind, g.minImportance)
  }

  function OwnEntry(wg: string): Entry {
    Entry(wg, None, None, 0.0)
  }

  function GrantEntries(grants: seq<Grant>, wg: string, agent: Option<string>,
                        permission: string, now: int): seq<Entry>
  {
    if grants == [] then []
    else
      var last := |grants| - 1;
      GrantEntries(grants[..last], wg, agent, permission, now)
      + if Applies(grants[last], wg, agent, permission, now) then [EntryOf(grants[last])] else []
  }

  ghost predicate DistinctGrants(grants: seq<Grant>) {
    forall i, j :: 0 <= i < j < |grants| ==> grants[i].id != grants[j].id
  }

  lemma {:induction false} EntriesAreGrants(grants: seq<Grant>, wg: string, agent: Option<string>,
                                            permission: string, now: int, e: Entry)
    ensures e in GrantEntries(grants, wg, agent, permission, now) <==>
      exists g :: g in grants && Applies(g, wg, agent, permission, now) && EntryOf(g) == e
  {
    if grants != [] {
      var init, last := grants[..|grants| - 1], grants[|grants| - 1];
      EntriesAreGrants(init, wg, agent, permission, now, e);
      assert grants == init + [last];
    }
  }

  lemma {:induction false} ListedIff(grants: seq<Grant>, wg: string, agent: Option<string>,
                                     permission: string, now: int, g: Grant)
    requires g in grants && DistinctGrants(grants)
    ensures (exists e :: e in GrantEntries(grants, wg, agent, permission, now) && e.grantId == Some(g.id))
      <==> Applies(g, wg, agent, permission, now)
  {
    EntriesAreGrants(grants, wg, agent, permission, now, EntryOf(g));
    if e :| e in GrantEntries(grants, wg, agent, permission, now) && e.grantId == Some(g.id) {
      EntriesAreGrants(grants, wg, agent, permission, now, e);
    }
  }

  /** get_accessible_workgroups: the own workgroup, and every grant that is in force now, allows what
      is asked, and is made to the workgroup or to the agent. */
  method GetAccessibleWorkgroups(grants: seq<Grant>, wg: string, agent: Option<string>,
                                 includeGrants: bool, permission: string, now: int)
    returns (result: seq<Entry>)
    ensures result == [OwnEntry(wg)]
      + if includeGrants then GrantEntries(grants, wg, agent, permission, now) else []
    ensures forall e :: e in result[1..] ==> e.grantId.Some?
    ensures result[0] == Entry(wg, None, None, 0.0)
    ensures forall e :: e in result[1..] ==>
      exists g :: g in grants && e == Entry(g.grantor, Some(g.id), g.kind, g.minImportance)
    ensures includeGrants && DistinctGrants(grants) ==>
      forall g :: g in grants ==>
        ((exists e :: e in result && e.grantId == Some(g.id)) <==>
          && (g.validFrom == None || g.validFrom.value <= now)
          && (g.validUntil == None || now < g.validUntil.value)
          && (g.permission == permission
              || (g.permission == "read_write" && (permission == "read" || permission == "write")))
          && (g.granteeWorkgroup == Some(wg)
              || (agent.Some? && agent.value != "" && g.granteeAgent == agent)))
  {
    result := [OwnEntry(wg)];
    if !includeGrants {
      return;
    }
    for i := 0 to |grants|
      invariant result == [OwnEntry(wg)] + GrantEntries(grants[..i], wg, agent, permission, now)
    {
      assert grants[..i + 1][..i] == grants[..i];
      if Applies(grants[i], wg, agent, permission, now) {
        result := result + [EntryOf(grants[i])];
      }
    }
    assert grants[..|grants|] == grants;
    assert result[1..] == GrantEntries(grants, wg, agent, permission, now);
    forall e | e in result[1..]
      ensures exists g :: g in grants && e == Entry(g.grantor, Some(g.id), g.kind, g.minImportance)
    {
      EntriesAreGrants(grants, wg, agent, permission, now, e);
    }
    if DistinctGrants(grants) {
      forall g | g in grants
        ensures (exists e :: e in result && e.grantId == Some(g.id)) <==> Applies(g, wg, agent, permission, now)
      {
        ListedIff(grants, wg, agent, permission, now, g);
      }
    }
  }

  predicate Admits(e: Entry, m: Memory) {
    && m.scope != "private"
    && (Given(e.kind) ==> e.kind.value == m.kind)
    && m.importance >= e.minImportance
  }

  /** Entry i is the first one for its workgroup. */
  predicate IsFirst(entries: seq<Entry>, i: nat)
    requires i < |entries|
  {
    forall j :: 0 <= j < i ==> entries[j].workgroup != entries[i].workgroup
  }

  /** The access rule: the own workgroup by scope and author, any other by the first entry
      the caller has for it, and by that one alone. */
  ghost predicate MayAccess(entries: seq<Entry>, m: Memory, wg: string, agent: Option<string>) {
    if m.workgroup == wg then
      m.scope == "private" ==> agent == Some(m.agent)
    else
      exists i :: 0 <= i < |entries| && entries[i].workgroup == m.workgroup
        && IsFirst(entries, i) && Admits(entries[i], m)
  }

  /** can_access_memory: an early-return loop over the accessible workgroups. */
  method CanAccessMemory(grants: seq<Grant>, m: Memory, wg: string, agent: Option<string>,
                         permission: string, now: int)
    returns (allowed: bool)
    ensures allowed <==>
      MayAccess([OwnEntry(wg)] + GrantEntries(grants, wg, agent, permission, now), m, wg, agent)
    ensures m.workgroup == wg ==> (allowed <==> m.scope != "private" || agent == Some(m.agent))
  {
    if m.workgroup == wg {
      if m.scope == "private" {
        return agent.Some? && m.agent == agent.value;
      }
      return true;
    }
    var accessible := GetAccessibleWorkgroups(grants, wg, agent, true, permission, now);
    for i := 0 to |accessible|
      invariant forall j :: 0 <= j < i ==> accessible[j].workgroup != m.workgroup
    {
      var entry := accessible[i];
      if entry.workgroup == m.workgroup {
        assert IsFirst(accessible, i);
        assert forall j :: (0 <= j < |accessible| && accessible[j].workgroup == m.workgroup
                            && IsFirst(accessible, j)) ==> j == i;
        if m.scope == "private" {
          return false;
        }
        if Given(entry.kind) && entry.kind.value != m.kind {
          return false;
        }
        if m.importance < entry.minImportance {
          return false;
        }
        return true;
      }
    }
    return false;
  }

  /** Point access through grants: those that have ended or not begun, for the other permission or for
      somebody else, allow nothing ... */
  lemma {:induction false} NoGrantNoAccess(grants: seq<Grant>, m: Memory, wg: string, agent: Option<string>,
                                           permission: string, now: int)
    requires m.workgroup != wg
    requires forall g :: g in grants && g.grantor == m.workgroup ==>
      || (g.validUntil.Some? && g.validUntil.value <= now)
      || (g.validFrom.Some? && now < g.validFrom.value)
      || (g.permission != permission
          && !(g.permission == "read_write" && (permission == "read" || permission == "write")))
      || (g.granteeWorkgroup != Some(wg) && (agent == None || agent == Some("") || g.granteeAgent != agent))
    ensures !MayAccess([OwnEntry(wg)] + GrantEntries(grants, wg, agent, permission, now), m, wg, agent)
  {
    var entries := GrantEntries(grants, wg, agent, permission, now);
    AccessByFirstGrant(entries, m, wg, agent);
    if i :| 0 <= i < |entries| && entries[i].workgroup == m.workgroup {
      EntriesAreGrants(grants, wg, agent, permission, now, entries[i]);
    }
  }

  /** ... and one that is in force lets through what is not private, if none of the workgroup's grants
      has a type or a floor against it. */
  lemma {:induction false} GrantGivesAccess(grants: seq<Grant>, m: Memory, wg: string, agent: Option<string>,
                                            permission: string, now: int, g: Grant)
    requires g in grants && g.grantor == m.workgroup != wg && m.scope != "private"
    requires g.validFrom == None || g.validFrom.value <= now
    requires g.validUntil == None || now < g.validUntil.value
    requires g.permission == permission
      || (g.permission == "read_write" && (permission == "read" || permission == "write"))
    requires g.granteeWorkgroup == Some(wg) || (agent.Some? && agent.value != "" && g.granteeAgent == agent)
    requires forall other :: other in grants && other.grantor == m.workgroup ==>
      && (other.kind == None || other.kind == Some("") || other.kind == Some(m.kind))
      && other.minImportance <= m.importance
    ensures MayAccess([OwnEntry(wg)] + GrantEntries(grants, wg, agent, permission, now), m, wg, agent)
  {
    var entries := GrantEntries(grants, wg, agent, permission, now);
    AccessByFirstGrant(entries, m, wg, agent);
    EntriesAreGrants(grants, wg, agent, permission, now, EntryOf(g));
    var k :| 0 <= k < |entries| && entries[k] == EntryOf(g);
    var i := FirstFor(entries, k);
    EntriesAreGrants(grants, wg, agent, permission, now, entries[i]);
    assert Admits(entries[i], m);
  }

  // ----- Search and point access agree, exactly when -----

  /** A search that asks for everything. */
  ghost predicate Unfiltered(r: Request) {
    var f := r.filters;
    && !Given(f.agent) && !Given(f.kind) && !Given(f.scope)
    && f.minImportance.None? && f.minUtility.None? && f.since.None? && f.until.None?
    && forall c :: f.like(c)
  }

  ghost predicate Candidate(m: Memory, r: Request, granted: seq<Entry>) {
    exists i :: 0 <= i < |Sources(r, granted)| && Matches(m, Sources(r, granted)[i], r)
  }

  /** Candidates are the rows of the pool the search takes its best from. */
  lemma {:induction false} PoolHoldsCandidates(rows: Table, sources: seq<Source>, r: Request, m: Memory)
    requires m in rows
    ensures (exists h :: h in Pool(rows, sources, r) && h.memory == m)
      <==> exists i :: 0 <= i < |sources| && Matches(m, sources[i], r)
    decreases |sources|
  {
    if sources != [] {
      var last := |sources| - 1;
      PoolHoldsCandidates(rows, sources[..last], r, m);
      if Matches(m, sources[last], r) {
        MatchingFinds(rows, sources[last], r, m);
      }
      forall h | h in Matching(rows, sources[last], r) && h.memory == m
        ensures Matches(m, sources[last], r)
      {
        MatchingRows(rows, sources[last], r, h);
      }
      assert forall h :: h in Pool(rows, sources, r) <==>
        h in Pool(rows, sources[..last], r) || h in Matching(rows, sources[last], r);
    }
  }

  /** Grant e lets through everything grant f lets through. */
  predicate Subsumes(e: Entry, f: Entry) {
    && (Given(e.kind) ==> f.kind == e.kind)
    && e.minImportance <= f.minImportance
  }

  /** For every foreign workgroup, the first grant the access check meets is its widest. */
  predicate WidestFirst(granted: seq<Entry>, wg: string) {
    forall i, j :: (0 <= i < j < |granted| && granted[i].workgroup == granted[j].workgroup != wg
                    && IsFirst(granted, i)) ==> Subsumes(granted[i], granted[j])
  }

  lemma FirstFor(granted: seq<Entry>, j: nat) returns (i: nat)
    requires j < |granted|
    ensures i <= j && granted[i].workgroup == granted[j].workgroup && IsFirst(granted, i)
  {
    i := 0;
    while granted[i].workgroup != granted[j].workgroup
      invariant i <= j
      invariant forall k :: 0 <= k < i ==> granted[k].workgroup != granted[j].workgroup
      decreases j - i
    {
      i := i + 1;
    }
  }

  /** In a foreign workgroup, the entries' positions shift by the caller's own entry. */
  lemma FirstShifts(granted: seq<Entry>, wg: string, i: nat)
    requires i < |granted| && granted[i].workgroup != wg
    ensures IsFirst([OwnEntry(wg)] + granted, i + 1) <==> IsFirst(granted, i)
  {
    var entries := [OwnEntry(wg)] + granted;
    assert forall j :: 0 <= j < i ==> entries[j + 1] == granted[j];
  }

  lemma FirstGrantAdmits(granted: seq<Entry>, m: Memory, wg: string, agent: Option<string>, i: nat)
    requires m.workgroup != wg && i < |granted| && granted[i].workgroup == m.workgroup
    requires IsFirst(granted, i) && Admits(granted[i], m)
    ensures MayAccess([OwnEntry(wg)] + granted, m, wg, agent)
  {
    FirstShifts(granted, wg, i);
    assert ([OwnEntry(wg)] + granted)[i + 1] == granted[i];
  }

  lemma AdmittingGrant(granted: seq<Entry>, m: Memory, wg: string, agent: Option<string>) returns (i: nat)
    requires m.workgroup != wg && MayAccess([OwnEntry(wg)] + granted, m, wg, agent)
    ensures i < |granted| && granted[i].workgroup == m.workgroup && IsFirst(granted, i) && Admits(granted[i], m)
  {
    var entries := [OwnEntry(wg)] + granted;
    var k :| 0 <= k < |entries| && entries[k].workgroup == m.workgroup && IsFirst(entries, k) && Admits(entries[k], m);
    i := k - 1;
    assert entries[k] == granted[i];
    FirstShifts(granted, wg, i);
  }

  lemma AccessByFirstGrant(granted: seq<Entry>, m: Memory, wg: string, agent: Option<string>)
    requires m.workgroup != wg
    ensures MayAccess([OwnEntry(wg)] + granted, m, wg, agent) <==>
      exists i :: 0 <= i < |granted| && granted[i].workgroup == m.workgroup
        && IsFirst(granted, i) && Admits(granted[i], m)
  {
    if i :| 0 <= i < |granted| && granted[i].workgroup == m.workgroup && IsFirst(granted, i) && Admits(granted[i], m) {
      FirstGrantAdmits(granted, m, wg, agent, i);
    } else if MayAccess([OwnEntry(wg)] + granted, m, wg, agent) {
      var i := AdmittingGrant(granted, m, wg, agent);
    }
  }

  /** In a foreign workgroup, a candidate is what some grant admits. */
  lemma CandidateByAnyGrant(granted: seq<Entry>, m: Memory, r: Request)
    requires Unfiltered(r) && m.workgroup != r.workgroup && m.Live() && !m.Stale(r.now)
    requires forall e :: e in granted ==> e.minImportance >= 0.0
    ensures Candidate(m, r, granted) <==>
      exists i :: 0 <= i < |granted| && granted[i].workgroup == m.workgroup && Admits(granted[i], m)
  {
    var sources := Sources(r, granted);
    forall i | 0 <= i < |granted|
      ensures Matches(m, sources[i + 1], r) <==> granted[i].workgroup == m.workgroup && Admits(granted[i], m)
    {
      assert sources[i + 1] == GrantSource(r, granted[i]);
      assert granted[i] in granted;
    }
    if i :| 0 <= i < |sources| && Matches(m, sources[i], r) {
      assert i > 0 && sources[i] == sources[(i - 1) + 1];
    }
  }

  /** Whatever point access allows, an unfiltered search has among its candidates. */
  lemma AccessImpliesCandidate(granted: seq<Entry>, m: Memory, r: Request)
    requires Unfiltered(r) && Given(r.caller) && m.Live() && !m.Stale(r.now)
    requires forall e :: e in granted ==> e.minImportance >= 0.0
    requires MayAccess([OwnEntry(r.workgroup)] + granted, m, r.workgroup, r.caller)
    ensures Candidate(m, r, granted)
  {
    if m.workgroup == r.workgroup {
      assert Matches(m, Sources(r, granted)[0], r);
    } else {
      AccessByFirstGrant(granted, m, r.workgroup, r.caller);
      CandidateByAnyGrant(granted, m, r);
    }
  }

  lemma WidestFirstAgrees(granted: seq<Entry>, m: Memory, r: Request)
    requires Unfiltered(r) && Given(r.caller) && m.Live() && !m.Stale(r.now)
    requires forall e :: e in granted ==> e.minImportance >= 0.0
    requires WidestFirst(granted, r.workgroup) && Candidate(m, r, granted)
    ensures MayAccess([OwnEntry(r.workgroup)] + granted, m, r.workgroup, r.caller)
  {
    if m.workgroup != r.workgroup {
      AccessByFirstGrant(granted, m, r.workgroup, r.caller);
      CandidateByAnyGrant(granted, m, r);
      var j :| 0 <= j < |granted| && granted[j].workgroup == m.workgroup && Admits(granted[j], m);
      var i := FirstFor(granted, j);
      assert i == j || Subsumes(granted[i], granted[j]);
    }
  }

  /** A memory that grant f admits and grant e, which does not subsume it, rejects. */
  function Gap(e: Entry, f: Entry): Memory {
    var kind := if Given(f.kind) then f.kind.value else if Given(e.kind) then e.kind.value + "+" else "";
    Memory("", "", f.workgroup, kind, "workgroup", "", None, f.minImportance, 0.5, 0, None, None, 0, 0, None, None)
  }

  /** With no caller, or an empty caller id, the search drops its privacy filter, so a private row
      of the own workgroup is a candidate that point access refuses to everyone but its author. */
  lemma NamelessSeesPrivate(granted: seq<Entry>, m: Memory, r: Request)
    requires Unfiltered(r) && !Given(r.caller) && m.Live() && !m.Stale(r.now)
    requires m.workgroup == r.workgroup && m.scope == "private" && m.agent != ""
    ensures Candidate(m, r, granted)
    ensures !MayAccess([OwnEntry(r.workgroup)] + granted, m, r.workgroup, r.caller)
  {
    assert Matches(m, Sources(r, granted)[0], r);
  }

  /** Search and point access agree on every live, unexpired memory if and only if the caller has
      a name and the first grant met for each foreign workgroup is the widest one. */
  lemma AgreementIff(granted: seq<Entry>, r: Request)
    requires Unfiltered(r)
    requires forall e :: e in granted ==> e.minImportance >= 0.0
    ensures (forall m: Memory :: m.Live() && !m.Stale(r.now) ==>
              (MayAccess([OwnEntry(r.workgroup)] + granted, m, r.workgroup, r.caller)
               <==> Candidate(m, r, granted)))
      <==> WidestFirst(granted, r.workgroup) && Given(r.caller)
  {
    if !Given(r.caller) {
      var secret := Memory("", "x", r.workgroup, "", "private", "", None, 0.0, 0.5, 0, None, None, 0, 0, None, None);
      NamelessSeesPrivate(granted, secret, r);
    } else if WidestFirst(granted, r.workgroup) {
      forall m: Memory | m.Live() && !m.Stale(r.now)
        ensures MayAccess([OwnEntry(r.workgroup)] + granted, m, r.workgroup, r.caller)
          <==> Candidate(m, r, granted)
      {
        if Candidate(m, r, granted) {
          WidestFirstAgrees(granted, m, r);
        } else if MayAccess([OwnEntry(r.workgroup)] + granted, m, r.workgroup, r.caller) {
          AccessImpliesCandidate(granted, m, r);
        }
      }
    } else {
      var i, j :| 0 <= i < j < |granted| && granted[i].workgroup == granted[j].workgroup != r.workgroup
        && IsFirst(granted, i) && !Subsumes(granted[i], granted[j]);
      GapDisagrees(granted, r, i, j);
    }
  }

  lemma GapDisagrees(granted: seq<Entry>, r: Request, i: nat, j: nat)
    requires Unfiltered(r) && forall e :: e in granted ==> e.minImportance >= 0.0
    requires i < j < |granted| && granted[i].workgroup == granted[j].workgroup != r.workgroup
    requires IsFirst(granted, i) && !Subsumes(granted[i], granted[j])
    ensures var m := Gap(granted[i], granted[j]);
      && m.Live() && !m.Stale(r.now)
      && !MayAccess([OwnEntry(r.workgroup)] + granted, m, r.workgroup, r.caller)
      && Candidate(m, r, granted)
  {
    var m := Gap(granted[i], granted[j]);
    assert Admits(granted[j], m) && !Admits(granted[i], m);
    AccessByFirstGrant(granted, m, r.workgroup, r.caller);
    CandidateByAnyGrant(granted, m, r);
    forall k | 0 <= k < |granted| && granted[k].workgroup == m.workgroup && IsFirst(granted, k)
      ensures k == i
    {
    }
  }
}
