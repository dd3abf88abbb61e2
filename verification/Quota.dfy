/** The session quota of a workgroup: the counter the session endpoints keep (app.py), the
    record of which session belongs to which workgroup, and the administrator's repairs
    (api/namespace_routes.py). Sessions can also end behind the ledger's back, by the dashboard's
    terminate button (api/htmx_partials.py) or the reaper (engine/session_manager.py). */
module Quota {
  import opened Options
  import opened Sets

  datatype Workgroup = Workgroup(namespace: string, maxSessions: Option<int>, active: int)

  /** `mapped` is _session_workgroups; `live` are the sessions the manager has. */
  datatype Ledger = Ledger(
    workgroups: map<string, Workgroup>,
    mapped: map<string, string>,
    live: set<string>)

  datatype Op =
    | CreateSession(workgroup: Option<string>, sid: string)
    | DestroySession(sid: string)
    | Vanish(sids: set<string>)
    | CreateWorkgroup(id: string, namespace: string, maxSessions: Option<int>)
    | UpdateQuota(id: string, maxSessions: Option<int>)
    | DeleteWorkgroup(id: string)
    | DeleteNamespace(namespace: string)
    | Reconcile(id: string)

  function Members(mapped: map<string, string>, wg: string): set<string> {
    set sid | sid in mapped && mapped[sid] == wg
  }

  /** check_and_reserve_session_slot. */
  predicate HasSlot(w: Workgroup) {
    w.maxSessions.Some? ==> w.active < w.maxSessions.value
  }

  predicate Admits(g: Ledger, workgroup: Option<string>) {
    workgroup.Some? ==> workgroup.value in g.workgroups && HasSlot(g.workgroups[workgroup.value])
  }

  function Counted(g: Ledger, wg: string, active: int): Ledger
    requires wg in g.workgroups
  {
    g.(workgroups := g.workgroups[wg := g.workgroups[wg].(active := active)])
  }

  function Released(g: Ledger, wg: string): Ledger {
    if wg !in g.workgroups then g
    else Counted(g, wg, if g.workgroups[wg].active - 1 < 0 then 0 else g.workgroups[wg].active - 1)
  }

  function Step(g: Ledger, op: Op): Ledger {
    match op
    case CreateSession(workgroup, sid) =>
      if !Admits(g, workgroup) then g
      else if workgroup.None? then g.(live := g.live + {sid})
      else Counted(g, workgroup.value, g.workgroups[workgroup.value].active + 1)
           .(mapped := g.mapped[sid := workgroup.value], live := g.live + {sid})
    case DestroySession(sid) =>
      if sid !in g.live then g
      else
        var gone := g.(live := g.live - {sid});
        if sid in g.mapped then Released(gone, g.mapped[sid]).(mapped := g.mapped - {sid}) else gone
    case Vanish(sids) => g.(live := g.live - sids)
    case CreateWorkgroup(id, namespace, maxSessions) =>
      g.(workgroups := g.workgroups[id := Workgroup(namespace, maxSessions, 0)])
    case UpdateQuota(id, maxSessions) =>
      if id in g.workgroups
      then g.(workgroups := g.workgroups[id := g.workgroups[id].(maxSessions := maxSessions)]) else g
    case DeleteWorkgroup(id) => g.(workgroups := g.workgroups - {id})
    case DeleteNamespace(namespace) =>
      g.(workgroups := map id | id in g.workgroups && g.workgroups[id].namespace != namespace :: g.workgroups[id])
    case Reconcile(id) =>
      if id in g.workgroups then Counted(g, id, |Members(g.mapped, id)|) else g
  }

  // ----- The endpoints -----

  datatype Error = NotFound | QuotaExceeded

  class SessionLedger {
    var workgroups: map<string, Workgroup>
    var mapped: map<string, string>
    var live: set<string>
    var namespaces: set<string>

    constructor (namespaces: set<string>)
      ensures Snapshot() == Ledger(map[], map[], {}) && this.namespaces == namespaces
    {
      workgroups, mapped, live := map[], map[], {};
      this.namespaces := namespaces;
    }

    function Snapshot(): Ledger
      reads this
    {
      Ledger(workgroups, mapped, live)
    }

    /** POST /session: reserve, count, create, then note the workgroup. */
    method CreateSession(workgroup: Option<string>, sid: string) returns (error: Option<Error>)
      modifies this`workgroups, this`mapped, this`live
      ensures Snapshot() == Step(old(Snapshot()), Op.CreateSession(workgroup, sid))
      ensures error.None? <==> Admits(old(Snapshot()), workgroup)
      ensures error == Some(NotFound) <==> workgroup.Some? && workgroup.value !in old(workgroups)
      ensures error == Some(QuotaExceeded) <==> (
        && workgroup.Some? && workgroup.value in old(workgroups)
        && old(workgroups)[workgroup.value].maxSessions.Some?
        && old(workgroups)[workgroup.value].active >= old(workgroups)[workgroup.value].maxSessions.value)
    {
      if workgroup.Some? {
        if workgroup.value !in workgroups {
          return Some(NotFound);
        }
        var wg := workgroups[workgroup.value];
        if wg.maxSessions.Some? && wg.active >= wg.maxSessions.value {
          return Some(QuotaExceeded);
        }
        workgroups := workgroups[workgroup.value := wg.(active := wg.active + 1)];
      }
      live := live + {sid};
      if workgroup.Some? {
        mapped := mapped[sid := workgroup.value];
      }
      return None;
    }

    /** DELETE /session/{id}. */
    method DestroySession(sid: string) returns (error: Option<Error>)
      modifies this`workgroups, this`mapped, this`live
      ensures Snapshot() == Step(old(Snapshot()), Op.DestroySession(sid))
      ensures error == if sid in old(live) then None else Some(NotFound)
      ensures live == old(live) - {sid}
      ensures error == None && sid in old(mapped) && old(mapped)[sid] in old(workgroups) ==>
        var wg := old(mapped)[sid];
        var before := old(workgroups)[wg].active;
        wg in workgroups && workgroups[wg].active == if before >= 1 then before - 1 else 0
    {
      if sid !in live {
        return Some(NotFound);
      }
      live := live - {sid};
      if sid in mapped {
        var id := mapped[sid];
        mapped := mapped - {sid};
        if id in workgroups {
          var wg := workgroups[id];
          var left := wg.active - 1;
          workgroups := workgroups[id := wg.(active := if left < 0 then 0 else left)];
        }
      }
      return None;
    }

    /** DELETE /workgroups/{id}: its sessions stay mapped. */
    method DeleteWorkgroup(id: string) returns (error: Option<Error>)
      modifies this`workgroups, this`mapped, this`live
      ensures Snapshot() == Step(old(Snapshot()), Op.DeleteWorkgroup(id))
      ensures error == if id in old(workgroups) then None else Some(NotFound)
    {
      if id !in workgroups {
        return Some(NotFound);
      }
      workgroups := workgroups - {id};
      return None;
    }

    /** DELETE /namespaces/{id}: the record goes, and then its workgroups one by one. */
    method DeleteNamespace(namespace: string) returns (error: Option<Error>)
      modifies this`workgroups, this`namespaces
      ensures Snapshot() ==
        if error.None? then Step(old(Snapshot()), Op.DeleteNamespace(namespace)) else old(Snapshot())
      ensures error == if namespace in old(namespaces) then None else Some(NotFound)
      ensures namespaces == old(namespaces) - {namespace}
    {
      if namespace !in namespaces {
        return Some(NotFound);
      }
      namespaces := namespaces - {namespace};
      var toRemove := set id | id in workgroups && workgroups[id].namespace == namespace;
      var left := toRemove;
      while left != {}
        invariant left <= toRemove && namespaces == old(namespaces) - {namespace}
        invariant workgroups == old(workgroups) - (toRemove - left)
        decreases left
      {
        var id :| id in left;
        workgroups := workgroups - {id};
        left := left - {id};
      }
      return None;
    }

    /** reconcile_workgroup_usage: counts the mapped sessions one by one. */
    method ReconcileUsage(id: string) returns (error: Option<Error>)
      modifies this`workgroups
      ensures Snapshot() == Step(old(Snapshot()), Op.Reconcile(id))
      ensures error == if id in old(workgroups) then None else Some(NotFound)
    {
      if id !in workgroups {
        return Some(NotFound);
      }
      var count := 0;
      var left := mapped.Keys;
      while left != {}
        invariant left <= mapped.Keys
        invariant Snapshot() == old(Snapshot())
        invariant count == |Members(mapped, id) - left|
        decreases left
      {
        var sid :| sid in left;
        CountOne(mapped, id, left, sid);
        if mapped[sid] == id {
          count := count + 1;
        }
        left := left - {sid};
      }
      assert Members(mapped, id) - {} == Members(mapped, id);
      workgroups := workgroups[id := workgroups[id].(active := count)];
      return None;
    }
  }

  lemma CountOne(mapped: map<string, string>, id: string, left: set<string>, sid: string)
    requires sid in left && left <= mapped.Keys
    ensures |Members(mapped, id) - (left - {sid})| == |Members(mapped, id) - left| + if mapped[sid] == id then 1 else 0
  {
    var before := Members(mapped, id) - left;
    assert Members(mapped, id) - (left - {sid}) == if mapped[sid] == id then before + {sid} else before;
  }

  // ----- The ledger over runs -----

  /** Ids are drawn fresh: no session or workgroup ever had them. */
  ghost predicate Fresh(g: Ledger, op: Op) {
    match op
    case CreateSession(_, sid) => sid !in g.mapped && sid !in g.live
    case CreateWorkgroup(id, _, maxSessions) =>
      id !in g.workgroups && Members(g.mapped, id) == {} && (maxSessions.Some? ==> maxSessions.value > 0)
    case _ => true
  }

  /** Every counter is the number of sessions mapped to its workgroup. */
  ghost predicate Balanced(g: Ledger) {
    forall id :: id in g.workgroups ==> g.workgroups[id].active == |Members(g.mapped, id)|
  }

  /** Mapped to the workgroup, but no longer there: ended without the ledger noticing. */
  ghost function Leaked(g: Ledger, wg: string): set<string> {
    Members(g.mapped, wg) - g.live
  }

  ghost function Present(g: Ledger, wg: string): set<string> {
    Members(g.mapped, wg) * g.live
  }

  lemma MapSession(mapped: map<string, string>, sid: string, to: string, wg: string)
    requires sid !in mapped
    ensures |Members(mapped[sid := to], wg)| == |Members(mapped, wg)| + if wg == to then 1 else 0
  {
    var after := Members(mapped[sid := to], wg);
    assert after == if wg == to then Members(mapped, wg) + {sid} else Members(mapped, wg);
  }

  lemma UnmapSession(mapped: map<string, string>, sid: string, wg: string)
    requires sid in mapped
    ensures |Members(mapped - {sid}, wg)| == |Members(mapped, wg)| - if wg == mapped[sid] then 1 else 0
  {
    var after := Members(mapped - {sid}, wg);
    if wg == mapped[sid] {
      assert sid in Members(mapped, wg);
      assert after == Members(mapped, wg) - {sid};
    } else {
      assert after == Members(mapped, wg);
    }
  }

  lemma StepKeepsBalance(g: Ledger, op: Op)
    requires Balanced(g) && Fresh(g, op)
    ensures Balanced(Step(g, op))
  {
    match op
    case CreateSession(workgroup, sid) =>
      if workgroup.Some? {
        forall id
          ensures |Members(g.mapped[sid := workgroup.value], id)|
               == |Members(g.mapped, id)| + if id == workgroup.value then 1 else 0
        {
          MapSession(g.mapped, sid, workgroup.value, id);
        }
      }
    case DestroySession(sid) =>
      if sid in g.mapped {
        forall id
          ensures |Members(g.mapped - {sid}, id)|
               == |Members(g.mapped, id)| - if id == g.mapped[sid] then 1 else 0
        {
          UnmapSession(g.mapped, sid, id);
        }
      }
    case _ =>
  }

  /** The max(0, ...) of the destroy endpoint never acts on a balanced ledger. */
  lemma ClampIsIdle(g: Ledger, sid: string)
    requires Balanced(g) && sid in g.mapped && g.mapped[sid] in g.workgroups
    ensures g.workgroups[g.mapped[sid]].active - 1 >= 0
  {
    UnmapSession(g.mapped, sid, g.mapped[sid]);
  }

  function Run(g: Ledger, ops: seq<Op>): Ledger
    decreases |ops|
  {
    if ops == [] then g else Run(Step(g, ops[0]), ops[1..])
  }

  ghost predicate AllFresh(g: Ledger, ops: seq<Op>)
    decreases |ops|
  {
    if ops == [] then true else Fresh(g, ops[0]) && AllFresh(Step(g, ops[0]), ops[1..])
  }

  lemma {:induction false} RunKeepsBalance(g: Ledger, ops: seq<Op>)
    requires Balanced(g) && AllFresh(g, ops)
    ensures Balanced(Run(g, ops))
    decreases |ops|
  {
    if ops != [] {
      StepKeepsBalance(g, ops[0]);
      RunKeepsBalance(Step(g, ops[0]), ops[1..]);
    }
  }

  /** A leaked session is leaked for good: no later operation of any run gives its slot back,
      neither destroying it again nor reconciling. */
  lemma {:induction false} LeaksAreForever(g: Ledger, ops: seq<Op>, sid: string)
    requires AllFresh(g, ops) && sid in g.mapped && sid !in g.live
    ensures var h := Run(g, ops); sid in h.mapped && h.mapped[sid] == g.mapped[sid] && sid !in h.live
    decreases |ops|
  {
    if ops != [] {
      var h := Step(g, ops[0]);
      assert sid in h.mapped && h.mapped[sid] == g.mapped[sid] && sid !in h.live;
      LeaksAreForever(h, ops[1..], sid);
    }
  }

  /** No session of the workgroup that is there ever ends by the dashboard or the reaper. */
  ghost predicate NeverVanish(g: Ledger, ops: seq<Op>, wg: string)
    decreases |ops|
  {
    if ops == [] then true
    else
      && (ops[0].Vanish? ==> ops[0].sids !! Present(g, wg))
      && NeverVanish(Step(g, ops[0]), ops[1..], wg)
  }

  lemma {:induction false} StepLeaks(g: Ledger, op: Op, wg: string)
    requires Fresh(g, op) && Leaked(g, wg) == {}
    ensures Leaked(Step(g, op), wg) == if op.Vanish? then op.sids * Present(g, wg) else {}
  {
    var h := Step(g, op);
    forall sid
      ensures sid in Leaked(h, wg) <==> op.Vanish? && sid in op.sids && sid in Present(g, wg)
    {
      assert sid !in Leaked(g, wg);
    }
  }

  /** A run leaks exactly where a session that is there vanishes. */
  lemma {:induction false} LeaksIff(g: Ledger, ops: seq<Op>, wg: string)
    requires AllFresh(g, ops) && Leaked(g, wg) == {}
    ensures Leaked(Run(g, ops), wg) == {} <==> NeverVanish(g, ops, wg)
    decreases |ops|
  {
    if ops != [] {
      var h := Step(g, ops[0]);
      StepLeaks(g, ops[0], wg);
      if Leaked(h, wg) == {} {
        LeaksIff(h, ops[1..], wg);
      } else {
        var sid := Any(Leaked(h, wg));
        LeaksAreForever(h, ops[1..], sid);
        assert sid in Leaked(Run(h, ops[1..]), wg);
      }
    }
  }

  const EMPTY := Ledger(map[], map[], {})

  /** Conservation: in every run a counter is the sessions that are there plus those that leaked,
      so it never falls below the live ones; and it equals them if and only if none of the
      workgroup's sessions ever ended by the dashboard or the reaper. */
  lemma {:induction false} Conservation(ops: seq<Op>, wg: string)
    requires AllFresh(EMPTY, ops)
    ensures var g := Run(EMPTY, ops);
      wg in g.workgroups ==>
        && g.workgroups[wg].active == |Present(g, wg)| + |Leaked(g, wg)|
        && (g.workgroups[wg].active == |Present(g, wg)| <==> NeverVanish(EMPTY, ops, wg))
  {
    var g := Run(EMPTY, ops);
    RunKeepsBalance(EMPTY, ops);
    assert Members(g.mapped, wg) == Present(g, wg) + Leaked(g, wg);
    LeaksIff(EMPTY, ops, wg);
  }

  lemma {:induction false} AdmittedIsCounted(g: Ledger, wg: string, sid: string)
    requires Fresh(g, Op.CreateSession(Some(wg), sid)) && Admits(g, Some(wg))
    ensures var h := Step(g, Op.CreateSession(Some(wg), sid));
      && wg in h.workgroups && h.workgroups[wg].active == g.workgroups[wg].active + 1
      && Present(h, wg) == Present(g, wg) + {sid} && Leaked(h, wg) == Leaked(g, wg)
  {
    var h := Step(g, Op.CreateSession(Some(wg), sid));
    assert Members(h.mapped, wg) == Members(g.mapped, wg) + {sid};
  }

  /** In every run, a workgroup gets another session if and only if it exists and has no maximum, or
      the sessions there and those that leaked are fewer than it; the session is then there, and
      counted. */
  lemma {:induction false} AdmittedIff(ops: seq<Op>, wg: string, sid: string)
    requires AllFresh(EMPTY, ops) && Fresh(Run(EMPTY, ops), Op.CreateSession(Some(wg), sid))
    ensures var g := Run(EMPTY, ops);
      var h := Step(g, Op.CreateSession(Some(wg), sid));
      if wg in g.workgroups
        && (g.workgroups[wg].maxSessions == None
            || |Present(g, wg)| + |Leaked(g, wg)| < g.workgroups[wg].maxSessions.value)
      then wg in h.workgroups && h.workgroups[wg].active == g.workgroups[wg].active + 1
        && Present(h, wg) == Present(g, wg) + {sid} && Leaked(h, wg) == Leaked(g, wg)
      else h == g
  {
    var g := Run(EMPTY, ops);
    Conservation(ops, wg);
    if Admits(g, Some(wg)) {
      AdmittedIsCounted(g, wg, sid);
    }
  }

  ghost predicate WithinQuota(g: Ledger) {
    forall id :: id in g.workgroups && g.workgroups[id].maxSessions.Some? ==>
      g.workgroups[id].active <= g.workgroups[id].maxSessions.value
  }

  /** The administrator sets a maximum below what is already counted. */
  predicate LowersQuota(g: Ledger, op: Op) {
    op.UpdateQuota? && op.id in g.workgroups && op.maxSessions.Some?
    && op.maxSessions.value < g.workgroups[op.id].active
  }

  lemma StepKeepsQuota(g: Ledger, op: Op)
    requires Balanced(g) && WithinQuota(g) && Fresh(g, op)
    ensures WithinQuota(Step(g, op)) <==> !LowersQuota(g, op)
  {
    StepKeepsBalance(g, op);
    match op
    case DestroySession(sid) =>
      if sid in g.mapped && g.mapped[sid] in g.workgroups {
        ClampIsIdle(g, sid);
      }
    case UpdateQuota(id, maxSessions) =>
      if LowersQuota(g, op) {
        assert id in Step(g, op).workgroups;
      }
    case _ =>
  }

  /** Every ledger a run passes through is within quota. */
  ghost predicate AlwaysWithinQuota(g: Ledger, ops: seq<Op>)
    decreases |ops|
  {
    WithinQuota(g) && (ops != [] ==> AlwaysWithinQuota(Step(g, ops[0]), ops[1..]))
  }

  predicate NeverLowered(g: Ledger, ops: seq<Op>)
    decreases |ops|
  {
    if ops == [] then true else !LowersQuota(g, ops[0]) && NeverLowered(Step(g, ops[0]), ops[1..])
  }

  /** Through a whole run the counters stay within their maxima if and only if no maximum is ever
      lowered below its counter. */
  lemma {:induction false} QuotaHoldsUnlessLowered(g: Ledger, ops: seq<Op>)
    requires Balanced(g) && WithinQuota(g) && AllFresh(g, ops)
    ensures AlwaysWithinQuota(g, ops) <==> NeverLowered(g, ops)
    ensures NeverLowered(g, ops) ==> WithinQuota(Run(g, ops))
    decreases |ops|
  {
    if ops != [] {
      var h := Step(g, ops[0]);
      StepKeepsQuota(g, ops[0]);
      StepKeepsBalance(g, ops[0]);
      if WithinQuota(h) {
        QuotaHoldsUnlessLowered(h, ops[1..]);
      }
    }
  }

  /** An admitted session is there until it is destroyed, and destroying it undoes its creation: the
      counter, the mapping and the set of live sessions are as before. */
  lemma {:induction false} DestroyUndoesCreate(g: Ledger, workgroup: Option<string>, sid: string)
    requires Balanced(g) && Fresh(g, Op.CreateSession(workgroup, sid)) && Admits(g, workgroup)
    ensures var h := Step(g, Op.CreateSession(workgroup, sid));
      && h.live == g.live + {sid}
      && h.mapped == (if workgroup == None then g.mapped else g.mapped[sid := workgroup.value])
      && Step(h, Op.DestroySession(sid)) == g
  {
    var h := Step(g, Op.CreateSession(workgroup, sid));
    assert h.live - {sid} == g.live;
    if workgroup.Some? {
      var wg := workgroup.value;
      assert g.workgroups[wg].active == |Members(g.mapped, wg)| >= 0;
      assert h.mapped - {sid} == g.mapped;
      var back := Step(h, Op.DestroySession(sid));
      assert back.workgroups == g.workgroups[wg := g.workgroups[wg]];
    }
  }

  /** A new workgroup starts empty and admits sessions, and deleting it undoes its creation; a new
      maximum replaces the old one and nothing else. */
  lemma {:induction false} DeleteUndoesCreate(g: Ledger, id: string, namespace: string, maxSessions: Option<int>)
    requires Fresh(g, Op.CreateWorkgroup(id, namespace, maxSessions))
    ensures var h := Step(g, Op.CreateWorkgroup(id, namespace, maxSessions));
      && id in h.workgroups && h.workgroups[id].active == 0 && h.workgroups[id].maxSessions == maxSessions
      && h.workgroups[id].namespace == namespace && Admits(h, Some(id))
      && Step(h, Op.DeleteWorkgroup(id)) == g
    ensures forall wg :: wg in g.workgroups ==>
      var w := g.workgroups[wg];
      Step(g, Op.UpdateQuota(wg, maxSessions)) ==
        g.(workgroups := g.workgroups[wg := Workgroup(w.namespace, maxSessions, w.active)])
  {
    var h := Step(g, Op.CreateWorkgroup(id, namespace, maxSessions));
    assert h.workgroups - {id} == g.workgroups;
  }

  /** Deleting a namespace takes exactly its workgroups, deleting a workgroup that one; no session
      ends, and none loses its mapping. */
  lemma DeletionsTakeWorkgroups(g: Ledger, namespace: string, id: string, wg: string)
    ensures var h := Step(g, Op.DeleteNamespace(namespace));
      && h.mapped == g.mapped && h.live == g.live
      && (wg in h.workgroups <==> wg in g.workgroups && g.workgroups[wg].namespace != namespace)
      && (wg in h.workgroups ==> h.workgroups[wg] == g.workgroups[wg])
    ensures var h := Step(g, Op.DeleteWorkgroup(id));
      && h.mapped == g.mapped && h.live == g.live
      && (wg in h.workgroups <==> wg in g.workgroups && wg != id)
      && (wg in h.workgroups ==> h.workgroups[wg] == g.workgroups[wg])
  {
  }

  /** Reconciling repairs a counter from any value, and touches nothing else. */
  lemma ReconcileRepairs(g: Ledger, id: string, active: int)
    requires Balanced(g) && id in g.workgroups
    ensures Step(Counted(g, id, active), Reconcile(id)) == g
  {
  }

  /** An operation that leaves the workgroup and its maximum alone. */
  predicate KeepsLimit(g: Ledger, op: Op, wg: string) {
    match op
    case UpdateQuota(id, _) => id != wg
    case DeleteWorkgroup(id) => id != wg
    case DeleteNamespace(namespace) => wg in g.workgroups ==> g.workgroups[wg].namespace != namespace
    case _ => true
  }

  ghost predicate AllKeepLimit(g: Ledger, ops: seq<Op>, wg: string)
    decreases |ops|
  {
    if ops == [] then true else KeepsLimit(g, ops[0], wg) && AllKeepLimit(Step(g, ops[0]), ops[1..], wg)
  }

  lemma {:induction false} LimitKept(g: Ledger, ops: seq<Op>, wg: string)
    requires AllFresh(g, ops) && AllKeepLimit(g, ops, wg) && wg in g.workgroups
    ensures wg in Run(g, ops).workgroups
    ensures Run(g, ops).workgroups[wg].maxSessions == g.workgroups[wg].maxSessions
    decreases |ops|
  {
    if ops != [] {
      LimitKept(Step(g, ops[0]), ops[1..], wg);
    }
  }

  function Larger(a: int, b: int): int {
    if a > b then a else b
  }

  /** A counter above its maximum, after a lowering say, only falls until it is back within it;
      from then on it stays there, until the maximum is set again or the workgroup deleted. */
  lemma {:induction false} OverQuotaOnlyShrinks(g: Ledger, ops: seq<Op>, wg: string)
    requires Balanced(g) && AllFresh(g, ops) && AllKeepLimit(g, ops, wg)
    requires wg in g.workgroups && g.workgroups[wg].maxSessions.Some?
    ensures wg in Run(g, ops).workgroups
    ensures Run(g, ops).workgroups[wg].active <= Larger(g.workgroups[wg].active, g.workgroups[wg].maxSessions.value)
    decreases |ops|
  {
    if ops != [] {
      var h := Step(g, ops[0]);
      StepKeepsBalance(g, ops[0]);
      assert wg in h.workgroups && h.workgroups[wg].maxSessions == g.workgroups[wg].maxSessions;
      StepWithinLarger(g, ops[0], wg);
      OverQuotaOnlyShrinks(h, ops[1..], wg);
    }
  }

  lemma {:induction false} StepWithinLarger(g: Ledger, op: Op, wg: string)
    requires Balanced(g) && Fresh(g, op) && KeepsLimit(g, op, wg)
    requires wg in g.workgroups && g.workgroups[wg].maxSessions.Some?
    ensures wg in Step(g, op).workgroups
    ensures Step(g, op).workgroups[wg].active <= Larger(g.workgroups[wg].active, g.workgroups[wg].maxSessions.value)
  {
    if op.DestroySession? && op.sid in g.mapped && g.mapped[op.sid] in g.workgroups {
      ClampIsIdle(g, op.sid);
    }
  }

  /** Once as many sessions have leaked as the maximum allows, the workgroup never gets another
      session, whatever else happens, until its maximum changes or it is deleted. */
  lemma LeaksLockOut(g: Ledger, ops: seq<Op>, wg: string)
    requires Balanced(g) && AllFresh(g, ops) && AllKeepLimit(g, ops, wg)
    requires wg in g.workgroups && g.workgroups[wg].maxSessions.Some?
    requires |Leaked(g, wg)| >= g.workgroups[wg].maxSessions.value
    ensures !Admits(Run(g, ops), Some(wg))
  {
    var h := Run(g, ops);
    RunKeepsBalance(g, ops);
    LimitKept(g, ops, wg);
    forall sid | sid in Leaked(g, wg)
      ensures sid in Members(h.mapped, wg)
    {
      LeaksAreForever(g, ops, sid);
    }
    SubsetSize(Leaked(g, wg), Members(h.mapped, wg));
  }
}
