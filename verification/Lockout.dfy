/** The failed-login counter with lockout (auth/brute_force.py). The source resets an expired
    lockout lazily, whenever some call happens to notice it; the history below resets it
    eagerly, and nobody can tell the difference. */
module Lockout {
  import opened Options

  /** One address: failures so far, and when the threshold was reached. */
  datatype IpState = IpState(count: nat, lockedAt: Option<int>)

  const CLEAR := IpState(0, None)

  /** lockout_threshold and lockout_ttl_seconds; without a ttl a lockout is for ever. */
  datatype Policy = Policy(threshold: int, ttl: Option<nat>)

  predicate Expired(s: IpState, p: Policy, now: int) {
    p.ttl.Some? && s.lockedAt.Some? && now - s.lockedAt.value >= p.ttl.value
  }

  /** The state as an eager clock would leave it at `now`. */
  function Settled(s: IpState, p: Policy, now: int): IpState {
    if Expired(s, p, now) then CLEAR else s
  }

  function Failed(s: IpState, p: Policy, now: int): IpState {
    var count := s.count + 1;
    IpState(count, if count >= p.threshold && s.lockedAt.None? then Some(now) else s.lockedAt)
  }

  datatype Event =
    | Failure
    | Success
    | AskLocked
    | AskCount

  datatype Call = Call(now: int, event: Event)

  datatype Reply = Silent | Locked(locked: bool) | Count(failures: nat)

  // ----- The source: lazy resets -----

  /** One call on one address's state, branch by branch as the source has it. */
  function LazyStep(s: IpState, p: Policy, c: Call): (IpState, Reply) {
    match c.event
    case Failure => (Failed(Settled(s, p, c.now), p, c.now), Silent)
    case Success => (CLEAR, Silent)
    case AskLocked =>
      if s.count < p.threshold then (s, Locked(false))
      else if Expired(s, p, c.now) then (CLEAR, Locked(false))
      else (s, Locked(true))
    case AskCount =>
      if Expired(s, p, c.now) then (CLEAR, Count(0)) else (s, Count(s.count))
  }

  class BruteForceGuard {
    const policy: Policy
    var states: map<string, IpState>

    constructor (policy: Policy)
      ensures this.policy == policy && states == map[]
    {
      this.policy := policy;
      states := map[];
    }

    /** What _get returns: a missing address starts clear. */
    function State(ip: string): IpState
      reads this
    {
      if ip in states then states[ip] else CLEAR
    }

    twostate predicate OthersKept(ip: string)
      reads this
    {
      forall other :: other != ip ==> State(other) == old(State(other))
    }

    method IsLocked(ip: string, now: int) returns (locked: bool)
      modifies this
      ensures (State(ip), Locked(locked)) == LazyStep(old(State(ip)), policy, Call(now, AskLocked))
      ensures OthersKept(ip)
    {
      var state := State(ip);
      states := states[ip := state];
      if state.count < policy.threshold {
        return false;
      }
      if Expired(state, policy, now) {
        states := states[ip := CLEAR];
        return false;
      }
      return true;
    }

    method RecordFailure(ip: string, now: int)
      modifies this
      ensures (State(ip), Silent) == LazyStep(old(State(ip)), policy, Call(now, Failure))
      ensures OthersKept(ip)
    {
      var state := State(ip);
      if Expired(state, policy, now) {
        state := CLEAR;
      }
      state := state.(count := state.count + 1);
      if state.count >= policy.threshold && state.lockedAt.None? {
        state := state.(lockedAt := Some(now));
      }
      states := states[ip := state];
    }

    method RecordSuccess(ip: string, now: int)
      modifies this
      ensures (State(ip), Silent) == LazyStep(old(State(ip)), policy, Call(now, Success))
      ensures OthersKept(ip)
    {
      states := states[ip := CLEAR];
    }

    method GetFailureCount(ip: string, now: int) returns (failures: nat)
      modifies this
      ensures (State(ip), Count(failures)) == LazyStep(old(State(ip)), policy, Call(now, AskCount))
      ensures OthersKept(ip)
    {
      var state := State(ip);
      states := states[ip := state];
      if Expired(state, policy, now) {
        states := states[ip := CLEAR];
        return 0;
      }
      return state.count;
    }
  }

  // ----- The reference: a pure function of the failures and successes -----

  predicate Recorded(c: Call) {
    c.event.Failure? || c.event.Success?
  }

  function History(calls: seq<Call>): seq<Call> {
    if calls == [] then []
    else
      var last := |calls| - 1;
      History(calls[..last]) + if Recorded(calls[last]) then [calls[last]] else []
  }

  /** The state after a history of failures and successes, every lockout lifted on time. */
  function Eager(history: seq<Call>, p: Policy): IpState {
    if history == [] then CLEAR
    else
      var last := |history| - 1;
      var c := history[last];
      if c.event.Failure? then Failed(Settled(Eager(history[..last], p), p, c.now), p, c.now) else CLEAR
  }

  /** What a question should be answered after that history. */
  function RightReply(history: seq<Call>, p: Policy, c: Call): Reply {
    var s := Settled(Eager(history, p), p, c.now);
    match c.event
    case AskLocked => Locked(s.count >= p.threshold)
    case AskCount => Count(s.count)
    case _ => Silent
  }

  function LazyRun(calls: seq<Call>, p: Policy): IpState {
    if calls == [] then CLEAR
    else
      var last := |calls| - 1;
      LazyStep(LazyRun(calls[..last], p), p, calls[last]).0
  }

  /** Calls in order, none of them after now. */
  ghost predicate MadeBy(calls: seq<Call>, now: int) {
    && (forall i, j :: 0 <= i < j < |calls| ==> calls[i].now <= calls[j].now)
    && (forall i :: 0 <= i < |calls| ==> calls[i].now <= now)
  }

  /** A lock is set exactly while the threshold is reached. */
  predicate LockedMeansFull(s: IpState, p: Policy) {
    s.lockedAt.Some? <==> s.count >= p.threshold
  }

  /** A positive threshold, or lockouts that never end. */
  predicate Sensible(p: Policy) {
    p.threshold >= 1 || p.ttl.None?
  }

  /** Lazy and eager state differ at most by a lockout that has expired. */
  lemma {:induction false} LazyIsEager(calls: seq<Call>, p: Policy, now: int)
    requires Sensible(p) && MadeBy(calls, now)
    ensures Settled(LazyRun(calls, p), p, now) == Settled(Eager(History(calls), p), p, now)
    ensures p.threshold >= 1 ==> LockedMeansFull(LazyRun(calls, p), p)
    decreases |calls|
  {
    if calls != [] {
      var before, c := calls[..|calls| - 1], calls[|calls| - 1];
      LazyIsEager(before, p, c.now);
      if Recorded(c) {
        assert (History(before) + [c])[..|History(before)|] == History(before);
      } else {
        assert History(calls) == History(before);
      }
    }
  }

  /** Lockout refinement: over any sequence of calls, every answer is the one the history of
      failures and successes alone determines. */
  lemma AnswersAreRight(calls: seq<Call>, p: Policy, question: Call)
    requires Sensible(p) && MadeBy(calls, question.now)
    ensures LazyStep(LazyRun(calls, p), p, question).1 == RightReply(History(calls), p, question)
  {
    LazyIsEager(calls, p, question.now);
  }

  /** So questions never change later answers. */
  lemma QuestionsAreIdle(calls: seq<Call>, others: seq<Call>, p: Policy, question: Call)
    requires Sensible(p) && MadeBy(calls, question.now) && MadeBy(others, question.now)
    requires History(calls) == History(others)
    ensures LazyStep(LazyRun(calls, p), p, question).1 == LazyStep(LazyRun(others, p), p, question).1
  {
    AnswersAreRight(calls, p, question);
    AnswersAreRight(others, p, question);
  }

  /** A lockout lasts exactly its ttl from the failure that reached the threshold, however many
      failures follow while it lasts. */
  lemma {:induction false} FailuresNeverExtend(history: seq<Call>, more: seq<Call>, p: Policy, since: int, now: int)
    requires p.threshold >= 1
    requires Eager(history, p).lockedAt == Some(since) && Eager(history, p).count >= p.threshold
    requires forall i :: 0 <= i < |more| ==>
      more[i].event.Failure? && since <= more[i].now <= now && (p.ttl.Some? ==> more[i].now < since + p.ttl.value)
    ensures Eager(history + more, p).lockedAt == Some(since) && Eager(history + more, p).count >= p.threshold
    ensures RightReply(history + more, p, Call(now, AskLocked))
      == Locked(p.ttl.None? || now < since + p.ttl.value)
    decreases |more|
  {
    if more == [] {
      assert history + more == history;
    } else {
      var last := |more| - 1;
      FailuresNeverExtend(history, more[..last], p, since, now);
      assert (history + more)[..|history| + last] == history + more[..last];
    }
  }

  // ----- In terms of the failures themselves -----

  /** When the failures happened that count now: those since the last success, or since the last
      lockout that had run out when the next failure came. */
  function Streak(history: seq<Call>, p: Policy): seq<int> {
    if history == [] then []
    else
      var earlier, c := Streak(history[..|history| - 1], p), history[|history| - 1];
      if c.event != Failure then []
      else if |earlier| >= p.threshold >= 1
        && p.ttl.Some? && c.now - earlier[p.threshold - 1] >= p.ttl.value then [c.now]
      else earlier + [c.now]
  }

  lemma {:induction false} EagerIsStreak(history: seq<Call>, p: Policy)
    requires p.threshold >= 1
    ensures var s, streak := Eager(history, p), Streak(history, p);
      && s.count == |streak|
      && s.lockedAt == if |streak| >= p.threshold then Some(streak[p.threshold - 1]) else None
  {
    if history != [] {
      EagerIsStreak(history[..|history| - 1], p);
    }
  }

  /** Over any sequence of calls: an address is locked if and only if the failures that count have
      reached the threshold and the one that reached it is less than the ttl ago; and the count told
      is the number of those failures, or zero if their lockout has run out. */
  lemma {:induction false} AnswersByFailures(calls: seq<Call>, p: Policy, now: int)
    requires p.threshold >= 1 && MadeBy(calls, now)
    ensures var streak := Streak(History(calls), p);
      var reached := |streak| >= p.threshold;
      var over := reached && p.ttl.Some? && now - streak[p.threshold - 1] >= p.ttl.value;
      && LazyStep(LazyRun(calls, p), p, Call(now, AskLocked)).1 == Locked(reached && !over)
      && LazyStep(LazyRun(calls, p), p, Call(now, AskCount)).1 == Count(if over then 0 else |streak|)
  {
    EagerIsStreak(History(calls), p);
    AnswersAreRight(calls, p, Call(now, AskLocked));
    AnswersAreRight(calls, p, Call(now, AskCount));
  }

  /** The refinement is exact: it holds for all runs if and only if the policy is sensible. With a
      threshold of zero or less, an address counts as locked without any failure, until a lockout
      that expires lets it in. */
  lemma RefinementIff(p: Policy)
    ensures (forall calls: seq<Call>, question: Call :: MadeBy(calls, question.now) ==>
              LazyStep(LazyRun(calls, p), p, question).1 == RightReply(History(calls), p, question))
      <==> Sensible(p)
  {
    if Sensible(p) {
      forall calls: seq<Call>, question: Call | MadeBy(calls, question.now)
        ensures LazyStep(LazyRun(calls, p), p, question).1 == RightReply(History(calls), p, question)
      {
        AnswersAreRight(calls, p, question);
      }
    } else {
      FirstExpiryUnlocks(p);
    }
  }

  /** With a threshold of zero or less, one failure and a lockout that expires make the difference. */
  lemma FirstExpiryUnlocks(p: Policy)
    requires !Sensible(p)
    ensures var calls := [Call(0, Failure)];
      var question := Call(p.ttl.value, AskLocked);
      && MadeBy(calls, question.now)
      && LazyStep(LazyRun(calls, p), p, question).1 != RightReply(History(calls), p, question)
  {
    var calls := [Call(0, Failure)];
    var question := Call(p.ttl.value, AskLocked);
    assert calls[..0] == [];
    assert LazyRun(calls, p) == IpState(1, Some(0));
    assert History(calls) == [] + calls;
    assert LazyStep(LazyRun(calls, p), p, question).1 == Locked(false);
    assert RightReply(History(calls), p, question) == Locked(true);
  }
}
