/** When the watchdog suspends a session nobody touches, and when the reaper destroys it
    (engine/session_manager.py, run_watchdog_once and run_reaper_once). */
module SessionTiming {
  import opened Clocks
  import opened Options
  import opened Sessions

  /** What one tick is for one session: the watchdog's reading of the clock, the reading taken
      if it suspends the session, and the reaper's reading. */
  datatype Tick = Tick(watch: int, stamp: int, reap: int)

  function TickOne(s: Option<Session>, t: Tick, l: Limits): Option<Session> {
    match s
    case None => None
    case Some(x) =>
      var watched := if Idle(x, t.watch, l.idle) then Asleep(x, t.stamp) else x;
      if Stale(watched, t.reap, l.maxAge) then None else Some(watched)
  }

  function TickRun(s: Option<Session>, ticks: seq<Tick>, l: Limits): Option<Session> {
    if ticks == [] then s
    else TickOne(TickRun(s, ticks[..|ticks| - 1], l), ticks[|ticks| - 1], l)
  }

  /** Ticks at most `period` apart, the first one within a period of `from`; within a tick the
      clock is read in order, and a tick is over before the next one starts. */
  ghost predicate Regular(ticks: seq<Tick>, from: int, period: int) {
    && (forall i :: 0 <= i < |ticks| ==> ticks[i].watch <= ticks[i].stamp <= ticks[i].reap <= ticks[i].watch + period)
    && (ticks != [] ==> ticks[0].watch <= from + period)
    && (forall i :: 1 <= i < |ticks| ==> Follows(ticks[i - 1], ticks[i], period))
  }

  predicate Follows(t: Tick, u: Tick, period: int) {
    t.reap <= u.watch <= t.watch + period && u.reap <= t.reap + period
  }

  lemma TickRunStep(s: Option<Session>, ticks: seq<Tick>, n: nat, l: Limits)
    requires n < |ticks|
    ensures TickRun(s, ticks[..n + 1], l) == TickOne(TickRun(s, ticks[..n], l), ticks[n], l)
  {
    assert ticks[..n + 1][..n] == ticks[..n];
  }

  lemma {:induction false} StaysActive(s: Session, ticks: seq<Tick>, n: nat, l: Limits)
    requires s.status == Active && n <= |ticks|
    requires forall i :: 0 <= i < n ==> ticks[i].watch <= s.lastActive + l.idle
    ensures TickRun(Some(s), ticks[..n], l) == Some(s)
  {
    if n > 0 {
      StaysActive(s, ticks, n - 1, l);
      TickRunStep(Some(s), ticks, n - 1, l);
    }
  }

  lemma {:induction false} StaysSuspended(s: Session, ticks: seq<Tick>, i: nat, n: nat, l: Limits)
    requires s.status == Active && i < n <= |ticks|
    requires forall k :: 0 <= k < i ==> ticks[k].watch <= s.lastActive + l.idle
    requires ticks[i].watch > s.lastActive + l.idle
    requires forall k :: i <= k < n ==> ticks[k].reap <= ticks[i].stamp + l.maxAge
    ensures TickRun(Some(s), ticks[..n], l) == Some(Asleep(s, ticks[i].stamp))
  {
    TickRunStep(Some(s), ticks, n - 1, l);
    if n - 1 == i {
      StaysActive(s, ticks, i, l);
    } else {
      StaysSuspended(s, ticks, i, n - 1, l);
    }
  }

  lemma {:induction false} StaysGone(s: Option<Session>, ticks: seq<Tick>, m: nat, n: nat, l: Limits)
    requires m <= n <= |ticks| && TickRun(s, ticks[..m], l).None?
    ensures TickRun(s, ticks[..n], l).None?
  {
    if m < n {
      StaysGone(s, ticks, m, n - 1, l);
      TickRunStep(s, ticks, n - 1, l);
    }
  }

  lemma {:induction false} FirstIdleTick(ticks: seq<Tick>, deadline: int) returns (i: nat)
    ensures i <= |ticks|
    ensures forall k :: 0 <= k < i ==> ticks[k].watch <= deadline
    ensures i < |ticks| ==> ticks[i].watch > deadline
  {
    i := 0;
    while i < |ticks| && ticks[i].watch <= deadline
      invariant i <= |ticks|
      invariant forall k :: 0 <= k < i ==> ticks[k].watch <= deadline
    {
      i := i + 1;
    }
  }

  lemma {:induction false} FirstStaleTick(ticks: seq<Tick>, from: nat, deadline: int) returns (j: nat)
    requires from <= |ticks|
    ensures from <= j <= |ticks|
    ensures forall k :: from <= k < j ==> ticks[k].reap <= deadline
    ensures j < |ticks| ==> ticks[j].reap > deadline
  {
    j := from;
    while j < |ticks| && ticks[j].reap <= deadline
      invariant from <= j <= |ticks|
      invariant forall k :: from <= k < j ==> ticks[k].reap <= deadline
    {
      j := j + 1;
    }
  }

  /** The life of an active session nobody touches, tick by tick: active through the first i
      ticks, none of them later than its idle deadline, and suspended by tick i, at most a period
      after the deadline; suspended through tick j - 1, and destroyed by tick j, after its time is
      up and at most a period after that. Where i or j is |ticks|, that tick has not come yet. */
  lemma Lifecycle(s: Session, ticks: seq<Tick>, l: Limits, period: int) returns (i: nat, j: nat)
    requires s.status == Active && l.idle >= 0 && l.maxAge >= 0
    requires Regular(ticks, s.lastActive, period)
    ensures i <= j <= |ticks|
    ensures forall n :: 0 <= n <= i ==> TickRun(Some(s), ticks[..n], l) == Some(s)
    ensures forall n :: i < n <= j ==> TickRun(Some(s), ticks[..n], l) == Some(Asleep(s, ticks[i].stamp))
    ensures forall n :: j < n <= |ticks| ==> TickRun(Some(s), ticks[..n], l) == None
    ensures forall k :: 0 <= k < i ==> ticks[k].watch <= s.lastActive + l.idle
    ensures i < |ticks| ==> s.lastActive + l.idle < ticks[i].watch <= s.lastActive + l.idle + period
    ensures forall k :: i <= k < j ==> ticks[k].reap <= ticks[i].stamp + l.maxAge
    ensures j < |ticks| ==> ticks[i].stamp + l.maxAge < ticks[j].reap <= ticks[i].stamp + l.maxAge + period
  {
    i := FirstIdleTick(ticks, s.lastActive + l.idle);
    ActiveUntil(s, ticks, i, l);
    j := |ticks|;
    if i < |ticks| {
      assert i > 0 ==> Follows(ticks[i - 1], ticks[i], period);
      j := FirstStaleTick(ticks, i, ticks[i].stamp + l.maxAge);
      SuspendedUntil(s, ticks, i, j, l);
      if j < |ticks| {
        assert j > i ==> Follows(ticks[j - 1], ticks[j], period);
        GoneAfter(s, ticks, i, j, l);
      }
    }
  }

  lemma ActiveUntil(s: Session, ticks: seq<Tick>, i: nat, l: Limits)
    requires s.status == Active && i <= |ticks|
    requires forall k :: 0 <= k < i ==> ticks[k].watch <= s.lastActive + l.idle
    ensures forall n :: 0 <= n <= i ==> TickRun(Some(s), ticks[..n], l) == Some(s)
  {
    forall n | 0 <= n <= i
      ensures TickRun(Some(s), ticks[..n], l) == Some(s)
    {
      StaysActive(s, ticks, n, l);
    }
  }

  lemma SuspendedUntil(s: Session, ticks: seq<Tick>, i: nat, j: nat, l: Limits)
    requires s.status == Active && i < |ticks| && j <= |ticks|
    requires forall k :: 0 <= k < i ==> ticks[k].watch <= s.lastActive + l.idle
    requires ticks[i].watch > s.lastActive + l.idle
    requires forall k :: i <= k < j ==> ticks[k].reap <= ticks[i].stamp + l.maxAge
    ensures forall n :: i < n <= j ==> TickRun(Some(s), ticks[..n], l) == Some(Asleep(s, ticks[i].stamp))
  {
    forall n | i < n <= j
      ensures TickRun(Some(s), ticks[..n], l) == Some(Asleep(s, ticks[i].stamp))
    {
      StaysSuspended(s, ticks, i, n, l);
    }
  }

  lemma GoneAfter(s: Session, ticks: seq<Tick>, i: nat, j: nat, l: Limits)
    requires s.status == Active && i <= j < |ticks|
    requires if i == j then TickRun(Some(s), ticks[..j], l) == Some(s)
             else TickRun(Some(s), ticks[..j], l) == Some(Asleep(s, ticks[i].stamp))
    requires ticks[i].watch > s.lastActive + l.idle && ticks[j].reap > ticks[i].stamp + l.maxAge
    ensures forall n :: j < n <= |ticks| ==> TickRun(Some(s), ticks[..n], l) == None
  {
    TickRunStep(Some(s), ticks, j, l);
    forall n | j < n <= |ticks|
      ensures TickRun(Some(s), ticks[..n], l) == None
    {
      StaysGone(Some(s), ticks, j + 1, n, l);
    }
  }

  /** Ticks destroy a suspended session if and only if it knows when it was suspended and the reaper
      once reads the clock more than the allowed age after that. */
  lemma {:induction false} SuspendedGoesIff(s: Session, ticks: seq<Tick>, l: Limits)
    requires s.status == Suspended
    ensures TickRun(Some(s), ticks, l).None? <==>
      s.suspendedAt.Some? && exists t :: t in ticks && t.reap - s.suspendedAt.value > l.maxAge
    ensures TickRun(Some(s), ticks, l).Some? ==> TickRun(Some(s), ticks, l) == Some(s)
  {
    if ticks != [] {
      var earlier, last := ticks[..|ticks| - 1], ticks[|ticks| - 1];
      SuspendedGoesIff(s, earlier, l);
      assert ticks == earlier + [last];
    }
  }

  // ----- From one session to all of them -----

  function Entry(st: State, sid: string): Option<Session> {
    if sid in st.sessions then Some(st.sessions[sid]) else None
  }

  predicate Touches(e: Event<Op>, sid: string) {
    match e.op
    case OpTick(_, _) => false
    case OpCreate(id, _, _) => id == sid
    case OpDestroy(id) => id == sid
    case OpSuspend(id) => id == sid
    case OpResume(id) => id == sid
    case OpExecute(id, _) => id == sid
  }

  /** The ticks of a run, as one session sees them. */
  function TicksFor(events: seq<Event<Op>>, sid: string): seq<Tick> {
    if events == [] then []
    else
      (if events[0].op.OpTick? then [Tick(events[0].now, events[0].op.stamp(sid), events[0].op.reap)] else [])
      + TicksFor(events[1..], sid)
  }

  lemma StepEntry(st: State, e: Event<Op>, l: Limits, sid: string)
    requires !Touches(e, sid)
    ensures Entry(Step(st, e, l), sid) ==
      if e.op.OpTick? then TickOne(Entry(st, sid), Tick(e.now, e.op.stamp(sid), e.op.reap), l) else Entry(st, sid)
  {
  }

  lemma {:induction false} TickRunFront(s: Option<Session>, t: Tick, ticks: seq<Tick>, l: Limits)
    ensures TickRun(s, [t] + ticks, l) == TickRun(TickOne(s, t, l), ticks, l)
    decreases |ticks|
  {
    if ticks == [] {
      assert [t] + ticks == [t] && [t][..0] == [];
      assert TickRun(s, [], l) == s;
    } else {
      var last := |ticks| - 1;
      TickRunFront(s, t, ticks[..last], l);
      assert ([t] + ticks)[..|[t] + ticks| - 1] == [t] + ticks[..last];
    }
  }

  /** In any run that does not touch it, a session sees the ticks and nothing else: whatever
      happens to other sessions in between, and whatever a tick does to them. */
  lemma {:induction false} UntouchedSeesTicks(st: State, events: seq<Event<Op>>, l: Limits, sid: string)
    requires forall i :: 0 <= i < |events| ==> !Touches(events[i], sid)
    ensures Entry(Run(st, events, l), sid) == TickRun(Entry(st, sid), TicksFor(events, sid), l)
    decreases |events|
  {
    if events != [] {
      var e := events[0];
      StepEntry(st, e, l, sid);
      forall i | 0 <= i < |events| - 1
        ensures !Touches(events[1..][i], sid)
      {
        assert events[1..][i] == events[i + 1];
      }
      UntouchedSeesTicks(Step(st, e, l), events[1..], l, sid);
      if e.op.OpTick? {
        TickRunFront(Entry(st, sid), Tick(e.now, e.op.stamp(sid), e.op.reap), TicksFor(events[1..], sid), l);
      } else {
        assert TicksFor(events, sid) == TicksFor(events[1..], sid);
      }
    }
  }

  lemma {:induction false} TicksOfPrefix(events: seq<Event<Op>>, sid: string, n: nat)
    requires n <= |events|
    ensures var seen := |TicksFor(events[..n], sid)|;
      seen <= |TicksFor(events, sid)| && TicksFor(events[..n], sid) == TicksFor(events, sid)[..seen]
    decreases n
  {
    if n > 0 {
      assert events[..n][1..] == events[1..][..n - 1];
      TicksOfPrefix(events[1..], sid, n - 1);
    }
  }

  /** The life of an active session in a run of the manager that does not touch it, whatever else
      happens: after any part of the run it is as the ticks seen so far leave it, active through
      the first i, suspended through the first j, and gone after that, with the ticks i and j in
      time as `Lifecycle` has them. */
  lemma {:induction false} LifecycleInRun(st: State, events: seq<Event<Op>>, l: Limits, sid: string, period: int)
      returns (i: nat, j: nat)
    requires sid in st.sessions && st.sessions[sid].status == Active && l.idle >= 0 && l.maxAge >= 0
    requires forall k :: 0 <= k < |events| ==> !Touches(events[k], sid)
    requires Regular(TicksFor(events, sid), st.sessions[sid].lastActive, period)
    ensures var s, ticks := st.sessions[sid], TicksFor(events, sid);
      && i <= j <= |ticks|
      && (forall n :: 0 <= n <= |events| ==>
            var seen := |TicksFor(events[..n], sid)|;
            Entry(Run(st, events[..n], l), sid) ==
              if seen <= i then Some(s) else if seen <= j then Some(Asleep(s, ticks[i].stamp)) else None)
      && (forall k :: 0 <= k < i ==> ticks[k].watch <= s.lastActive + l.idle)
      && (i < |ticks| ==> s.lastActive + l.idle < ticks[i].watch <= s.lastActive + l.idle + period)
      && (forall k :: i <= k < j ==> ticks[k].reap <= ticks[i].stamp + l.maxAge)
      && (j < |ticks| ==> ticks[i].stamp + l.maxAge < ticks[j].reap <= ticks[i].stamp + l.maxAge + period)
  {
    var s, ticks := st.sessions[sid], TicksFor(events, sid);
    i, j := Lifecycle(s, ticks, l, period);
    forall n | 0 <= n <= |events|
      ensures var seen := |TicksFor(events[..n], sid)|;
        seen <= |ticks| && Entry(Run(st, events[..n], l), sid) == TickRun(Some(s), ticks[..seen], l)
    {
      TicksOfPrefix(events, sid, n);
      UntouchedSeesTicks(st, events[..n], l, sid);
    }
  }

  /** In a run that does not touch it, a suspended session is destroyed if and only if it knows when
      it was suspended and some tick reaps later than the allowed age after that. */
  lemma {:induction false} SuspendedGoesInRunIff(st: State, events: seq<Event<Op>>, l: Limits, sid: string)
    requires sid in st.sessions && st.sessions[sid].status == Suspended
    requires forall i :: 0 <= i < |events| ==> !Touches(events[i], sid)
    ensures sid !in Run(st, events, l).sessions <==>
      st.sessions[sid].suspendedAt.Some?
      && exists t :: t in TicksFor(events, sid) && t.reap - st.sessions[sid].suspendedAt.value > l.maxAge
  {
    UntouchedSeesTicks(st, events, l, sid);
    SuspendedGoesIff(st.sessions[sid], TicksFor(events, sid), l);
  }

  /** After a crash and a restart, a suspended session survives any run that does not touch it. */
  lemma RestartStopsReaping(rows: map<string, Row>, events: seq<Event<Op>>, l: Limits, sid: string)
    requires sid in rows && rows[sid].state == Suspended
    requires forall i :: 0 <= i < |events| ==> !Touches(events[i], sid)
    ensures Entry(Run(State(Loaded(rows), rows), events, l), sid) == Some(Restored(rows[sid]))
  {
    UntouchedSeesTicks(State(Loaded(rows), rows), events, l, sid);
    SuspendedGoesIff(Restored(rows[sid]), TicksFor(events, sid), l);
  }

  /** Whoever resumes a session, or sends it a statement, at time t, and then leaves it alone, has it
      for its whole idle time: it is active and connected after any part of the run whose watchdog
      readings are not past t + idle, whatever state it was in before. */
  lemma {:induction false} AwakeForIdleTime(st: State, e: Event<Op>, events: seq<Event<Op>>, l: Limits, sid: string)
    requires sid in st.sessions && st.sessions[sid].status == Suspended
    requires e.op == OpResume(sid) || e.op == OpExecute(sid, true) || e.op == OpExecute(sid, false)
    requires forall i :: 0 <= i < |events| ==> !Touches(events[i], sid)
    requires forall i :: 0 <= i < |events| && events[i].op.OpTick? ==> events[i].now <= e.now + l.idle
    ensures var st' := Run(st, [e] + events, l);
      && sid in st'.sessions && st'.sessions[sid].status == Active && st'.sessions[sid].connected
      && st'.sessions[sid].suspendedAt == None && st'.sessions[sid].lastActive == e.now
  {
    var awake := Step(st, e, l);
    ResumeWakes(st, sid, e.op == OpExecute(sid, true), e.now, e.now);
    assert ([e] + events)[0] == e && ([e] + events)[1..] == events;
    UntouchedSeesTicks(awake, events, l, sid);
    var ticks := TicksFor(events, sid);
    TicksAreEvents(events, sid, e.now + l.idle);
    StaysActive(awake.sessions[sid], ticks, |ticks|, l);
    assert ticks[..|ticks|] == ticks;
  }

  lemma {:induction false} TicksAreEvents(events: seq<Event<Op>>, sid: string, deadline: int)
    requires forall i :: 0 <= i < |events| && events[i].op.OpTick? ==> events[i].now <= deadline
    ensures forall k :: 0 <= k < |TicksFor(events, sid)| ==> TicksFor(events, sid)[k].watch <= deadline
  {
    if events != [] {
      assert forall i :: 0 <= i < |events| - 1 ==> events[1..][i] == events[i + 1];
      TicksAreEvents(events[1..], sid, deadline);
    }
  }

  /** And from then on it lives as any active session does. */
  lemma {:induction false} LifecycleAfterResume(st: State, e: Event<Op>, events: seq<Event<Op>>, l: Limits, sid: string,
                                                period: int) returns (i: nat, j: nat)
    requires sid in st.sessions && st.sessions[sid].status == Suspended && l.idle >= 0 && l.maxAge >= 0
    requires e.op == OpResume(sid)
    requires forall k :: 0 <= k < |events| ==> !Touches(events[k], sid)
    requires Regular(TicksFor(events, sid), e.now, period)
    ensures var ticks := TicksFor(events, sid);
      && i <= j <= |ticks|
      && (forall n :: 0 <= n <= |events| ==>
            var seen, entry := |TicksFor(events[..n], sid)|, Entry(Run(Step(st, e, l), events[..n], l), sid);
            && (seen <= i ==> entry.Some? && entry.value.status == Active && entry.value.connected)
            && (i < seen <= j ==> entry.Some? && entry.value.status == Suspended && !entry.value.connected)
            && (j < seen ==> entry == None))
      && (i < |ticks| ==> e.now + l.idle < ticks[i].watch <= e.now + l.idle + period)
      && (j < |ticks| ==> ticks[i].stamp + l.maxAge < ticks[j].reap <= ticks[i].stamp + l.maxAge + period)
  {
    ResumeWakes(st, sid, true, e.now, e.now);
    i, j := LifecycleInRun(Step(st, e, l), events, l, sid, period);
  }
}
