/** The session manager (engine/session_manager.py) and the session rows it mirrors into the
    metadata store (store/metadata_store.py). Times are integers; a DuckDB connection is a flag. */
module Sessions {
  import opened Clocks
  import opened Options

  datatype Status = Active | Suspended

  datatype Session = Session(
    status: Status,
    created: int,
    lastActive: int,
    namespace: string,
    connected: bool,
    workgroup: string,
    suspendedAt: Option<int>)

  datatype Row = Row(namespace: string, state: Status, created: int, lastActive: int)

  datatype State = State(sessions: map<string, Session>, rows: map<string, Row>)

  datatype Error = UnknownSession | AlreadySuspended | AlreadyActive | EmptySql | Blocked | Rejected | QuotaExceeded

  // ----- What each operation does to one session -----

  function Opened(namespace: string, workgroup: string, now: int): Session {
    Session(Active, now, now, namespace, true, workgroup, None)
  }

  function Asleep(s: Session, now: int): Session {
    s.(status := Suspended, connected := false, suspendedAt := Some(now))
  }

  function Awake(s: Session, now: int): Session {
    s.(status := Active, connected := true, suspendedAt := None, lastActive := now)
  }

  function RowOf(s: Session): Row {
    Row(s.namespace, s.status, s.created, s.lastActive)
  }

  /** save_session: upsert of the row. */
  function Saved(st: State, sid: string, s: Session): State {
    State(st.sessions[sid := s], st.rows[sid := RowOf(s)])
  }

  // ----- Operations on the state -----

  function Create(st: State, sid: string, namespace: string, workgroup: string, now: int): State {
    Saved(st, sid, Opened(namespace, workgroup, now))
  }

  function Destroy(st: State, sid: string): State {
    if sid in st.sessions then State(st.sessions - {sid}, st.rows - {sid}) else st
  }

  function Suspend(st: State, sid: string, now: int): State {
    if sid in st.sessions && st.sessions[sid].status == Active
    then Saved(st, sid, Asleep(st.sessions[sid], now)) else st
  }

  function Resume(st: State, sid: string, now: int): State {
    if sid in st.sessions && st.sessions[sid].status == Suspended
    then Saved(st, sid, Awake(st.sessions[sid], now)) else st
  }

  /** A statement on a session: wakes it if needed, and notes the activity, in memory only, if the
      statement runs, whether or not its rows can then be fetched. */
  function Execute(st: State, sid: string, runs: bool, now: int, later: int): State {
    var awake := Resume(st, sid, now);
    if sid in awake.sessions && runs then
      awake.(sessions := awake.sessions[sid := awake.sessions[sid].(lastActive := later)])
    else awake
  }

  predicate Idle(s: Session, now: int, timeout: int) {
    s.status == Active && now - s.lastActive > timeout
  }

  predicate Stale(s: Session, now: int, maxAge: int) {
    s.status == Suspended && s.suspendedAt.Some? && now - s.suspendedAt.value > maxAge
  }

  /** The state once the given sessions have been suspended, at the clock readings `stamp`. */
  function PutToSleep(st: State, sids: set<string>, stamp: string -> int): State {
    State(
      map sid | sid in st.sessions ::
        if sid in sids then Asleep(st.sessions[sid], stamp(sid)) else st.sessions[sid],
      st.rows + map sid | sid in sids && sid in st.sessions :: RowOf(Asleep(st.sessions[sid], stamp(sid))))
  }

  function IdleOnes(st: State, now: int, timeout: int): set<string> {
    set sid | sid in st.sessions && Idle(st.sessions[sid], now, timeout)
  }

  /** One watchdog pass. */
  function Watch(st: State, now: int, stamp: string -> int, timeout: int): State {
    PutToSleep(st, IdleOnes(st, now, timeout), stamp)
  }

  function Reap(st: State, now: int, maxAge: int): State {
    var gone := set sid | sid in st.sessions && Stale(st.sessions[sid], now, maxAge);
    State(st.sessions - gone, st.rows - gone)
  }

  // ----- The manager -----

  class SessionManager {
    const idleTimeout: int
    var sessions: map<string, Session>
    var rows: map<string, Row>

    constructor (idleTimeout: int, rows: map<string, Row>)
      ensures this.idleTimeout == idleTimeout && Snapshot() == State(map[], rows)
    {
      this.idleTimeout := idleTimeout;
      sessions, this.rows := map[], rows;
    }

    function Snapshot(): State
      reads this
    {
      State(sessions, rows)
    }

    method SaveSession(sid: string, s: Session)
      modifies this
      ensures Snapshot() == Saved(old(Snapshot()), sid, s)
    {
      sessions, rows := sessions[sid := s], rows[sid := RowOf(s)];
    }

    /** create_session without the workgroup quota, which the server never passes. */
    method CreateSession(sid: string, namespace: string, workgroup: string, now: int)
      modifies this
      ensures Snapshot() == Create(old(Snapshot()), sid, namespace, workgroup, now)
      ensures sid in sessions && sessions[sid].status == Active && sessions[sid].connected
      ensures sessions[sid].created == now && sessions[sid].lastActive == now && sessions[sid].suspendedAt == None
      ensures sessions[sid].namespace == namespace && sessions[sid].workgroup == workgroup
      ensures sid in rows && rows[sid] == Row(namespace, Active, now, now)
    {
      SaveSession(sid, Opened(namespace, workgroup, now));
    }

    method DestroySession(sid: string) returns (error: Option<Error>)
      modifies this
      ensures Snapshot() == Destroy(old(Snapshot()), sid)
      ensures error == if sid in old(sessions) then None else Some(UnknownSession)
    {
      if sid !in sessions {
        return Some(UnknownSession);
      }
      sessions, rows := sessions - {sid}, rows - {sid};
      return None;
    }

    method SuspendSession(sid: string, now: int) returns (error: Option<Error>)
      modifies this
      ensures Snapshot() == Suspend(old(Snapshot()), sid, now)
      ensures error == if sid !in old(sessions) then Some(UnknownSession)
        else if old(sessions)[sid].status == Suspended then Some(AlreadySuspended) else None
      ensures error.None? ==> (
        && sid in sessions && sessions[sid].status == Suspended && !sessions[sid].connected
        && sessions[sid].suspendedAt == Some(now) && sessions[sid].lastActive == old(sessions)[sid].lastActive
        && sid in rows && rows[sid].state == Suspended && rows[sid].lastActive == sessions[sid].lastActive)
    {
      if sid !in sessions {
        return Some(UnknownSession);
      }
      if sessions[sid].status == Suspended {
        return Some(AlreadySuspended);
      }
      SaveSession(sid, Asleep(sessions[sid], now));
      return None;
    }

    method ResumeSession(sid: string, now: int) returns (error: Option<Error>)
      modifies this
      ensures Snapshot() == Resume(old(Snapshot()), sid, now)
      ensures error == if sid !in old(sessions) then Some(UnknownSession)
        else if old(sessions)[sid].status == Active then Some(AlreadyActive) else None
      ensures error.None? ==> (
        && sid in sessions && sessions[sid].status == Active && sessions[sid].connected
        && sessions[sid].suspendedAt == None && sessions[sid].lastActive == now
        && sid in rows && rows[sid].state == Active && rows[sid].lastActive == now)
    {
      if sid !in sessions {
        return Some(UnknownSession);
      }
      if sessions[sid].status == Active {
        return Some(AlreadyActive);
      }
      SaveSession(sid, Awake(sessions[sid], now));
      return None;
    }

    /** execute_query: `empty` and `blocked` are the two checks on the text of the statement; a
        statement can fail when it runs, or later when its rows are fetched. */
    method ExecuteQuery(sid: string, empty: bool, blocked: bool, runs: bool, fetches: bool, now: int, later: int)
      returns (error: Option<Error>)
      modifies this
      ensures Snapshot() ==
        if empty || blocked then old(Snapshot()) else Execute(old(Snapshot()), sid, runs, now, later)
      ensures error == if sid !in old(sessions) then Some(UnknownSession)
        else if empty then Some(EmptySql) else if blocked then Some(Blocked)
        else if runs && fetches then None else Some(Rejected)
    {
      if sid !in sessions {
        return Some(UnknownSession);
      }
      if empty {
        return Some(EmptySql);
      }
      if blocked {
        return Some(Blocked);
      }
      if sessions[sid].status == Suspended {
        var _ := ResumeSession(sid, now);
      }
      if !runs {
        return Some(Rejected);
      }
      sessions := sessions[sid := sessions[sid].(lastActive := later)];
      return if fetches then None else Some(Rejected);
    }

    /** run_watchdog_once: collect the idle sessions, then suspend them one by one. */
    method RunWatchdogOnce(now: int, stamp: string -> int) returns (suspended: set<string>)
      modifies this
      ensures Snapshot() == Watch(old(Snapshot()), now, stamp, idleTimeout)
      ensures suspended == IdleOnes(old(Snapshot()), now, idleTimeout)
    {
      ghost var before := Snapshot();
      var toSuspend := set sid | sid in sessions && Idle(sessions[sid], now, idleTimeout);
      var left := toSuspend;
      suspended := {};
      while left != {}
        invariant left <= toSuspend && suspended == toSuspend - left
        invariant Snapshot() == PutToSleep(before, suspended, stamp)
        decreases left
      {
        var sid :| sid in left;
        PutOneToSleep(before, suspended, sid, stamp);
        var error := SuspendSession(sid, stamp(sid));
        suspended, left := suspended + {sid}, left - {sid};
      }
      assert suspended == toSuspend;
    }

    /** run_reaper_once. */
    method RunReaperOnce(now: int, maxAge: int) returns (destroyed: set<string>)
      modifies this
      ensures Snapshot() == Reap(old(Snapshot()), now, maxAge)
      ensures destroyed == set sid | sid in old(sessions) && Stale(old(sessions)[sid], now, maxAge)
    {
      var toDestroy := set sid | sid in sessions && Stale(sessions[sid], now, maxAge);
      var left := toDestroy;
      destroyed := {};
      while left != {}
        invariant left <= toDestroy && destroyed == toDestroy - left
        invariant sessions == old(sessions) - destroyed && rows == old(rows) - destroyed
        decreases left
      {
        var sid :| sid in left;
        var error := DestroySession(sid);
        destroyed, left := destroyed + {sid}, left - {sid};
      }
    }

    /** load_from_store: one session per row, row by row. */
    method LoadFromStore()
      modifies this
      ensures rows == old(rows) && sessions == old(sessions) + Loaded(rows)
    {
      var left := rows.Keys;
      while left != {}
        invariant left <= rows.Keys && rows == old(rows)
        invariant sessions.Keys == old(sessions).Keys + (rows.Keys - left)
        invariant forall sid :: sid in sessions ==>
          sessions[sid] == if sid in rows && sid !in left then Restored(rows[sid]) else old(sessions)[sid]
        decreases left
      {
        var sid :| sid in left;
        sessions := sessions[sid := Restored(rows[sid])];
        left := left - {sid};
      }
    }
  }

  lemma PutOneToSleep(st: State, sids: set<string>, sid: string, stamp: string -> int)
    requires sid in st.sessions && sid !in sids && sids <= st.sessions.Keys
    requires st.sessions[sid].status == Active
    ensures Suspend(PutToSleep(st, sids, stamp), sid, stamp(sid)) == PutToSleep(st, sids + {sid}, stamp)
  {
  }

  /** A session as it comes back from its row: no workgroup, no suspension time. */
  function Restored(row: Row): Session {
    Session(row.state, row.created, row.lastActive, row.namespace, row.state == Active, "default", None)
  }

  function Loaded(rows: map<string, Row>): map<string, Session> {
    map sid | sid in rows :: Restored(rows[sid])
  }

  // ----- Waking up -----

  ghost predicate OthersKept(st: State, st': State, sid: string) {
    && (forall other :: other != sid ==> (other in st'.sessions <==> other in st.sessions))
    && (forall other :: other != sid ==> (other in st'.rows <==> other in st.rows))
    && (forall other :: other != sid && other in st.sessions ==> st'.sessions[other] == st.sessions[other])
    && (forall other :: other != sid && other in st.rows ==> st'.rows[other] == st.rows[other])
  }

  /** Resuming wakes a suspended session, and so does any statement sent to it, which also counts as
      activity once it runs; nobody else's session or row is touched. */
  lemma ResumeWakes(st: State, sid: string, runs: bool, now: int, later: int)
    requires sid in st.sessions && st.sessions[sid].status == Suspended
    ensures var st' := Resume(st, sid, now);
      && sid in st'.sessions && st'.sessions[sid].status == Active && st'.sessions[sid].connected
      && st'.sessions[sid].suspendedAt == None && st'.sessions[sid].lastActive == now
      && sid in st'.rows && st'.rows[sid].state == Active && st'.rows[sid].lastActive == now
      && OthersKept(st, st', sid)
    ensures var st' := Execute(st, sid, runs, now, later);
      && sid in st'.sessions && st'.sessions[sid].status == Active && st'.sessions[sid].connected
      && st'.sessions[sid].suspendedAt == None && st'.sessions[sid].lastActive == (if runs then later else now)
      && sid in st'.rows && st'.rows[sid].state == Active && st'.rows[sid].lastActive == now
      && OthersKept(st, st', sid)
  {
  }

  // ----- Runs -----

  datatype Op =
    | OpCreate(sid: string, namespace: string, workgroup: string)
    | OpDestroy(sid: string)
    | OpSuspend(sid: string)
    | OpResume(sid: string)
    | OpExecute(sid: string, runs: bool)
    | OpTick(stamp: string -> int, reap: int)

  datatype Limits = Limits(idle: int, maxAge: int)

  function Step(st: State, e: Event<Op>, l: Limits): State {
    match e.op
    case OpCreate(sid, namespace, workgroup) =>
      if sid in st.sessions then st else Create(st, sid, namespace, workgroup, e.now)
    case OpDestroy(sid) => Destroy(st, sid)
    case OpSuspend(sid) => Suspend(st, sid, e.now)
    case OpResume(sid) => Resume(st, sid, e.now)
    case OpExecute(sid, runs) => Execute(st, sid, runs, e.now, e.now)
    case OpTick(stamp, reap) => Reap(Watch(st, e.now, stamp, l.idle), reap, l.maxAge)
  }

  function Run(st: State, events: seq<Event<Op>>, l: Limits): State
    decreases |events|
  {
    if events == [] then st else Run(Step(st, events[0], l), events[1..], l)
  }

  // ----- The persistent mirror -----

  /** A connection exactly while active, and the rows tell the same story, except that their
      activity time may lag behind. */
  ghost predicate Mirrored(st: State, now: int) {
    && st.rows.Keys == st.sessions.Keys
    && forall sid :: sid in st.sessions ==> Twins(st.sessions[sid], st.rows[sid], now)
  }

  predicate Twins(s: Session, row: Row, now: int) {
    && (s.connected <==> s.status == Active)
    && (s.suspendedAt.Some? ==> s.status == Suspended)
    && row.state == s.status && row.namespace == s.namespace && row.created == s.created
    && row.lastActive <= s.lastActive <= now
  }

  lemma {:induction false} StepMirrored(st: State, e: Event<Op>, l: Limits, from: int)
    requires Mirrored(st, from) && from <= e.now
    ensures Mirrored(Step(st, e, l), e.now)
  {
    match e.op
    case OpCreate(_, _, _) =>
    case OpDestroy(_) =>
    case OpSuspend(_) =>
    case OpResume(_) =>
    case OpExecute(_, _) =>
    case OpTick(stamp, _) => WatchMirrored(st, e.now, stamp, l.idle, from);
  }

  lemma WatchMirrored(st: State, now: int, stamp: string -> int, timeout: int, from: int)
    requires Mirrored(st, from) && from <= now
    ensures Mirrored(Watch(st, now, stamp, timeout), now)
  {
  }

  lemma {:induction false} RunMirrored(st: State, events: seq<Event<Op>>, l: Limits, from: int, now: int)
    requires Mirrored(st, from) && Timely(events, from)
    requires now >= if events == [] then from else events[|events| - 1].now
    ensures Mirrored(Run(st, events, l), now)
    decreases |events|
  {
    if events != [] {
      StepMirrored(st, events[0], l, from);
      RunMirrored(Step(st, events[0], l), events[1..], l, events[0].now, now);
    }
  }

  /** Restart: from any state a run can reach, an empty manager loads exactly the live sessions,
      in the same state; it forgets workgroup and suspension time, and the mirror holds again. */
  lemma RestartRestores(events: seq<Event<Op>>, l: Limits, from: int, now: int)
    requires Timely(events, from) && now >= if events == [] then from else events[|events| - 1].now
    ensures var st := Run(State(map[], map[]), events, l);
      var loaded := Loaded(st.rows);
      && loaded.Keys == st.sessions.Keys
      && (forall sid :: sid in loaded ==>
            && loaded[sid].status == st.sessions[sid].status
            && loaded[sid].connected == st.sessions[sid].connected
            && loaded[sid].namespace == st.sessions[sid].namespace
            && loaded[sid].created == st.sessions[sid].created
            && loaded[sid].lastActive <= st.sessions[sid].lastActive
            && loaded[sid].workgroup == "default"
            && loaded[sid].suspendedAt == None)
      && Mirrored(State(loaded, st.rows), now)
  {
    RunMirrored(State(map[], map[]), events, l, from, now);
  }
}
