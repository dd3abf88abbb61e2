/** Three sliding-window rate limiters: a filtered list per address (api/share_routes.py), a
    head-pruned deque per tenant (pondapi/executor.py) and a Redis sorted set per key
    (security/rate_limit.py). Times are integers and never run backwards. */
module Limiters {
  import opened Windows

  // ----- The list limiter, one key -----

  /** What a limiter remembers of one key, and the times it has let through. */
  datatype Log = Log(kept: seq<int>, passed: seq<int>)

  function ListStep(log: Log, now: int, limit: nat, window: nat): Log {
    var recent := After(log.kept, now - window);
    if |recent| >= limit then log.(kept := recent)
    else Log(recent + [now], log.passed + [now])
  }

  /** The log after the given arrivals. */
  function ListRun(arrivals: seq<int>, limit: nat, window: nat): Log {
    if arrivals == [] then Log([], [])
    else
      var last := |arrivals| - 1;
      ListStep(ListRun(arrivals[..last], limit, window), arrivals[last], limit, window)
  }

  function Admitted(arrivals: seq<int>, limit: nat, window: nat): seq<int> {
    ListRun(arrivals, limit, window).passed
  }

  /** Would the next arrival, at `now`, get through? */
  predicate ListAdmits(arrivals: seq<int>, now: int, limit: nat, window: nat) {
    |After(ListRun(arrivals, limit, window).kept, now - window)| < limit
  }

  lemma ListRunStep(before: seq<int>, now: int, limit: nat, window: nat)
    ensures ListRun(before + [now], limit, window) == ListStep(ListRun(before, limit, window), now, limit, window)
  {
  }

  /** The log keeps what was let through in the window, as seen from `now` on. */
  ghost predicate Faithful(log: Log, window: nat, now: int) {
    After(log.kept, now - window) == After(log.passed, now - window)
  }

  /** Evicting up to c, and then recording t or not, keeps what a log shows from d on. */
  lemma {:induction false} Recorded(log: Log, log': Log, t: int, c: int, d: int)
    requires After(log.kept, c) == After(log.passed, c) && c <= d
    requires log' == Log(After(log.kept, c), log.passed) || log' == Log(After(log.kept, c) + [t], log.passed + [t])
    ensures After(log'.kept, d) == After(log'.passed, d)
  {
    EvictThenRecord(log.kept, log.passed, t, c, d);
  }

  lemma {:induction false} StepFaithful(log: Log, last: int, limit: nat, window: nat, now: int)
    requires Faithful(log, window, last) && last <= now
    ensures Faithful(ListStep(log, last, limit, window), window, now)
  {
    Recorded(log, ListStep(log, last, limit, window), last, last - window, now - window);
  }

  /** The bucket is a function of the admission history: what was admitted in the window. */
  lemma {:induction false} BucketIsHistory(arrivals: seq<int>, limit: nat, window: nat, now: int)
    requires Ascending(arrivals) && UpTo(arrivals, now)
    ensures Faithful(ListRun(arrivals, limit, window), window, now)
    decreases |arrivals|
  {
    if arrivals != [] {
      var before, last := arrivals[..|arrivals| - 1], arrivals[|arrivals| - 1];
      Unappend(arrivals);
      BucketIsHistory(before, limit, window, last);
      StepFaithful(ListRun(before, limit, window), last, limit, window, now);
    }
  }

  lemma {:induction false} AdmittedArrived(arrivals: seq<int>, limit: nat, window: nat)
    ensures forall t :: t in Admitted(arrivals, limit, window) ==> t in arrivals
    decreases |arrivals|
  {
    if arrivals != [] {
      Unappend(arrivals);
      AdmittedArrived(arrivals[..|arrivals| - 1], limit, window);
    }
  }

  lemma {:induction false} AdmittedUpTo(arrivals: seq<int>, limit: nat, window: nat, now: int)
    ensures UpTo(arrivals, now) ==> UpTo(Admitted(arrivals, limit, window), now)
    ensures Before(arrivals, now) ==> Before(Admitted(arrivals, limit, window), now)
    decreases |arrivals|
  {
    if arrivals != [] {
      AdmittedUpTo(arrivals[..|arrivals| - 1], limit, window, now);
    }
  }

  lemma {:induction false} AdmittedAscends(arrivals: seq<int>, limit: nat, window: nat)
    ensures Ascending(arrivals) ==> Ascending(Admitted(arrivals, limit, window))
    ensures StrictlyAscending(arrivals) ==> StrictlyAscending(Admitted(arrivals, limit, window))
    decreases |arrivals|
  {
    if arrivals != [] {
      var before, last := arrivals[..|arrivals| - 1], arrivals[|arrivals| - 1];
      Unappend(arrivals);
      AdmittedAscends(before, limit, window);
      AdmittedUpTo(before, limit, window, last);
      AppendAscends(Admitted(before, limit, window), last);
    }
  }

  lemma StepSpaced(log: Log, now: int, limit: nat, window: nat)
    requires Ascending(log.passed) && Spaced(log.passed, limit, window) && limit >= 1
    requires Faithful(log, window, now)
    ensures Spaced(ListStep(log, now, limit, window).passed, limit, window)
  {
    AfterCount(log.passed, now - window, limit);
    if |After(log.kept, now - window)| < limit {
      AppendSpaced(log.passed, now, limit, window);
    }
  }

  lemma {:induction false} AdmittedSpaced(arrivals: seq<int>, limit: nat, window: nat)
    requires Ascending(arrivals) && limit >= 1
    ensures Spaced(Admitted(arrivals, limit, window), limit, window)
    decreases |arrivals|
  {
    if arrivals != [] {
      var before, last := arrivals[..|arrivals| - 1], arrivals[|arrivals| - 1];
      Unappend(arrivals);
      AdmittedSpaced(before, limit, window);
      AdmittedAscends(before, limit, window);
      BucketIsHistory(before, limit, window, last);
      StepSpaced(ListRun(before, limit, window), last, limit, window);
    }
  }

  /** Sliding-window theorem, list filtering: any half-open stretch of time as long as the window
      holds at most `limit` admissions, wherever it starts ... */
  lemma {:induction false} ListWindow(arrivals: seq<int>, limit: nat, window: nat, from: int)
    requires Ascending(arrivals) && limit >= 1
    ensures |Within(Admitted(arrivals, limit, window), from, from + window)| <= limit
  {
    AdmittedSpaced(arrivals, limit, window);
    AdmittedAscends(arrivals, limit, window);
    SpacedWindow(Admitted(arrivals, limit, window), limit, window, from);
  }

  /** ... and an arrival is refused exactly when the window behind it already holds that many. */
  lemma {:induction false} ListRefusesWhenFull(arrivals: seq<int>, now: int, limit: nat, window: nat)
    requires Ascending(arrivals) && UpTo(arrivals, now) && limit >= 1
    ensures !ListAdmits(arrivals, now, limit, window) <==>
      |Within(Admitted(arrivals, limit, window), now - window + 1, now + 1)| >= limit
  {
    ListAdmitsByHistory(arrivals, now, limit, window);
    AdmittedAscends(arrivals, limit, window);
    AdmittedUpTo(arrivals, limit, window, now);
    FullWindow(Admitted(arrivals, limit, window), now - window, now, limit);
  }

  lemma {:induction false} ListAdmitsByHistory(arrivals: seq<int>, now: int, limit: nat, window: nat)
    requires Ascending(arrivals) && UpTo(arrivals, now)
    ensures ListAdmits(arrivals, now, limit, window)
      <==> |After(Admitted(arrivals, limit, window), now - window)| < limit
  {
    BucketIsHistory(arrivals, limit, window, now);
  }

  lemma {:induction false} FullWindow(s: seq<int>, cutoff: int, now: int, limit: nat)
    requires Ascending(s) && UpTo(s, now) && limit >= 1
    ensures |After(s, cutoff)| >= limit <==> |Within(s, cutoff + 1, now + 1)| >= limit
  {
    AfterCount(s, cutoff, limit);
    WindowCount(s, cutoff, now, limit);
  }

  /** A key silent for a full window gets through. */
  lemma ListAfterSilence(arrivals: seq<int>, now: int, limit: nat, window: nat)
    requires Ascending(arrivals) && UpTo(arrivals, now - window) && limit >= 1
    ensures ListAdmits(arrivals, now, limit, window)
  {
    assert UpTo(arrivals, now);
    BucketIsHistory(arrivals, limit, window, now);
    AdmittedUpTo(arrivals, limit, window, now - window);
    AfterNone(Admitted(arrivals, limit, window), now - window);
  }

  // ----- The list limiter, all keys -----

  /** What a limiter keeps for one of its keys, nothing for a key it does not know. */
  function Kept(logs: map<string, seq<int>>, key: string): seq<int> {
    if key in logs then logs[key] else []
  }

  class ShareLimiter {
    const limit: nat
    const window: nat
    var buckets: map<string, seq<int>>

    constructor (limit: nat, window: nat)
      ensures this.limit == limit && this.window == window && buckets == map[]
    {
      this.limit, this.window := limit, window;
      buckets := map[];
    }

    /** _check_rate_limit: evict by filtering, then admit or refuse. */
    method Check(ip: string, now: int) returns (allowed: bool)
      modifies this
      ensures forall admitted ::
                ShareStep(ShareLog(old(buckets), admitted), Request(ip, now), limit, window)
                == ShareLog(buckets, if allowed then admitted + [Request(ip, now)] else admitted)
    {
      var timestamps := Kept(buckets, ip);
      var kept: seq<int> := [];
      for i := 0 to |timestamps|
        invariant kept == After(timestamps[..i], now - window)
      {
        assert timestamps[..i + 1][..i] == timestamps[..i];
        if timestamps[i] > now - window {
          kept := kept + [timestamps[i]];
        }
      }
      assert timestamps[..|timestamps|] == timestamps;
      if |kept| >= limit {
        buckets := buckets[ip := kept];
        return false;
      }
      buckets := buckets[ip := kept + [now]];
      return true;
    }
  }

  datatype Request = Request(key: string, now: int)

  /** All buckets after a run of requests, and the requests admitted. */
  datatype ShareLog = ShareLog(buckets: map<string, seq<int>>, admitted: seq<Request>)

  function ShareStep(log: ShareLog, q: Request, limit: nat, window: nat): ShareLog {
    var recent := After(Kept(log.buckets, q.key), q.now - window);
    if |recent| >= limit then log.(buckets := log.buckets[q.key := recent])
    else ShareLog(log.buckets[q.key := recent + [q.now]], log.admitted + [q])
  }

  function ShareRun(requests: seq<Request>, limit: nat, window: nat): ShareLog {
    if requests == [] then ShareLog(map[], [])
    else
      var last := |requests| - 1;
      ShareStep(ShareRun(requests[..last], limit, window), requests[last], limit, window)
  }

  ghost predicate InOrder(requests: seq<Request>) {
    forall i, j :: 0 <= i < j < |requests| ==> requests[i].now <= requests[j].now
  }

  /** When the requests of a key arrive. */
  function Times(requests: seq<Request>, key: string): seq<int> {
    if requests == [] then []
    else
      var last := |requests| - 1;
      Times(requests[..last], key) + if requests[last].key == key then [requests[last].now] else []
  }

  lemma TimesAppend(requests: seq<Request>, q: Request, key: string)
    ensures Times(requests + [q], key) == Times(requests, key) + if q.key == key then [q.now] else []
  {
  }

  /** What one address sees of a log. */
  function View(log: ShareLog, ip: string): Log {
    Log(Kept(log.buckets, ip), Times(log.admitted, ip))
  }

  lemma StepView(log: ShareLog, q: Request, limit: nat, window: nat, ip: string)
    ensures View(ShareStep(log, q, limit, window), ip) ==
      if q.key == ip then ListStep(View(log, ip), q.now, limit, window) else View(log, ip)
  {
  }

  /** No address notices the others. */
  lemma {:induction false} KeysAreIndependent(requests: seq<Request>, limit: nat, window: nat, ip: string)
    ensures View(ShareRun(requests, limit, window), ip) == ListRun(Times(requests, ip), limit, window)
    decreases |requests|
  {
    if requests != [] {
      var earlier, q := requests[..|requests| - 1], requests[|requests| - 1];
      KeysAreIndependent(earlier, limit, window, ip);
      TimesAppend(earlier, q, ip);
      assert requests == earlier + [q];
      assert ShareRun(requests, limit, window) == ShareStep(ShareRun(earlier, limit, window), q, limit, window);
      StepView(ShareRun(earlier, limit, window), q, limit, window, ip);
      if q.key == ip {
        assert Times(requests, ip) == Times(earlier, ip) + [q.now];
        ListRunStep(Times(earlier, ip), q.now, limit, window);
      } else {
        assert Times(requests, ip) == Times(earlier, ip);
      }
    }
  }

  /** So at most `limit` requests of any one address get through in any window. */
  lemma ShareWindow(requests: seq<Request>, limit: nat, window: nat, ip: string, from: int)
    requires InOrder(requests)
    requires limit >= 1
    ensures |Within(Times(ShareRun(requests, limit, window).admitted, ip), from, from + window)| <= limit
  {
    KeysAreIndependent(requests, limit, window, ip);
    TimesAscend(requests, ip);
    AdmittedSpaced(Times(requests, ip), limit, window);
    AdmittedAscends(Times(requests, ip), limit, window);
    SpacedWindow(Admitted(Times(requests, ip), limit, window), limit, window, from);
  }

  lemma {:induction false} TimesAscend(requests: seq<Request>, key: string)
    requires InOrder(requests)
    ensures Ascending(Times(requests, key))
    ensures requests != [] ==> UpTo(Times(requests, key), requests[|requests| - 1].now)
    decreases |requests|
  {
    if requests != [] {
      var earlier, q := requests[..|requests| - 1], requests[|requests| - 1];
      TimesAscend(earlier, key);
      AppendAscends(Times(earlier, key), q.now);
    }
  }

  // ----- The deque limiter -----

  /** A submission is counted at one reading of the clock and recorded at a later one. */
  datatype Submission = Submission(counted: int, recorded: int)

  ghost predicate Clocked(subs: seq<Submission>) {
    && (forall i :: 0 <= i < |subs| ==> subs[i].counted <= subs[i].recorded)
    && (forall i, j :: 0 <= i < j < |subs| ==> subs[i].recorded <= subs[j].counted)
  }

  class SubmissionWindow {
    var submissions: map<string, seq<int>>

    constructor ()
      ensures submissions == map[]
    {
      submissions := map[];
    }

    /** _count_window: pops expired heads; what is left is counted. */
    method CountWindow(tenant: string, window: nat, now: int) returns (count: nat)
      modifies this
      ensures submissions == old(submissions)[tenant := Pruned(old(Kept(submissions, tenant)), now - window)]
      ensures count == |Pruned(old(Kept(submissions, tenant)), now - window)|
    {
      var q := Kept(submissions, tenant);
      while q != [] && q[0] < now - window
        invariant Pruned(q, now - window) == Pruned(old(Kept(submissions, tenant)), now - window)
      {
        q := q[1..];
      }
      submissions := submissions[tenant := q];
      return |q|;
    }

    /** _record_submission. */
    method RecordSubmission(tenant: string, now: int)
      modifies this
      ensures submissions == old(submissions)[tenant := old(Kept(submissions, tenant)) + [now]]
    {
      submissions := submissions[tenant := Kept(submissions, tenant) + [now]];
    }

    /** The admission test of submit_execution. */
    method Submit(tenant: string, limit: nat, window: nat, s: Submission) returns (accepted: bool)
      modifies this
      ensures forall recorded ::
                SubmitStep(SubmissionLog(old(submissions), recorded), Arrival(tenant, s), limit, window)
                == SubmissionLog(submissions, if accepted then recorded + [Request(tenant, s.recorded)] else recorded)
    {
      var current := CountWindow(tenant, window, s.counted);
      if current >= limit {
        return false;
      }
      RecordSubmission(tenant, s.recorded);
      return true;
    }
  }

  function Pruned(q: seq<int>, cutoff: int): seq<int> {
    if q != [] && q[0] < cutoff then Pruned(q[1..], cutoff) else q
  }

  /** On an ascending queue, popping heads and filtering are the same. */
  lemma {:induction false} PrunedIsAfter(q: seq<int>, cutoff: int)
    requires Ascending(q)
    ensures Pruned(q, cutoff) == After(q, cutoff - 1)
    decreases |q|
  {
    if q != [] {
      if q[0] < cutoff {
        PrunedIsAfter(q[1..], cutoff);
        AfterTail(q, cutoff - 1);
      } else {
        AfterAll(q, cutoff - 1);
      }
    }
  }

  lemma {:induction false} AfterTail(q: seq<int>, cutoff: int)
    requires q != [] && q[0] <= cutoff
    ensures After(q, cutoff) == After(q[1..], cutoff)
    decreases |q|
  {
    if |q| > 1 {
      var last := |q| - 1;
      AfterTail(q[..last], cutoff);
      assert q[1..][..last - 1] == q[..last][1..];
    } else {
      assert q[..0] == [] && q[1..] == [];
    }
  }

  lemma {:induction false} AfterAll(q: seq<int>, cutoff: int)
    requires forall i :: 0 <= i < |q| ==> q[i] > cutoff
    ensures After(q, cutoff) == q
  {
    if q != [] {
      AfterAll(q[..|q| - 1], cutoff);
    }
  }

  function DequeStep(log: Log, s: Submission, limit: nat, window: nat): Log {
    var recent := Pruned(log.kept, s.counted - window);
    if |recent| >= limit then log.(kept := recent)
    else Log(recent + [s.recorded], log.passed + [s.recorded])
  }

  /** The log of one tenant after the given submissions. */
  function DequeRun(subs: seq<Submission>, limit: nat, window: nat): Log {
    if subs == [] then Log([], [])
    else
      var last := |subs| - 1;
      DequeStep(DequeRun(subs[..last], limit, window), subs[last], limit, window)
  }

  /** Everything recorded is past, and the deque is what was recorded in the window. */
  ghost predicate DequeFaithful(log: Log, window: nat, now: int) {
    && Ascending(log.kept) && UpTo(log.kept, now)
    && Ascending(log.passed) && UpTo(log.passed, now)
    && Faithful(log, window + 1, now)
  }

  lemma DequeStepOrdered(log: Log, s: Submission, limit: nat, window: nat, now: int)
    requires DequeFaithful(log, window, s.counted) && s.counted <= s.recorded <= now
    ensures var log' := DequeStep(log, s, limit, window);
      Ascending(log'.kept) && UpTo(log'.kept, now) && Ascending(log'.passed) && UpTo(log'.passed, now)
  {
    var recent := Pruned(log.kept, s.counted - window);
    var log' := DequeStep(log, s, limit, window);
    assert log' == Log(recent, log.passed) || log' == Log(recent + [s.recorded], log.passed + [s.recorded]);
    assert Ascending(recent) && UpTo(recent, s.counted) by {
      PrunedIsAfter(log.kept, s.counted - window);
      AfterAscends(log.kept, s.counted - window - 1);
      AfterUpTo(log.kept, s.counted - window - 1, s.counted);
    }
    AppendAscends(recent, s.recorded);
    AppendAscends(log.passed, s.recorded);
  }

  lemma {:induction false} DequeStepFaithful(log: Log, s: Submission, limit: nat, window: nat, now: int)
    requires DequeFaithful(log, window, s.counted) && s.counted <= s.recorded <= now
    ensures Faithful(DequeStep(log, s, limit, window), window + 1, now)
  {
    PrunedIsAfter(log.kept, s.counted - window);
    FilteredStepFaithful(log, s, limit, window, now);
  }

  lemma {:induction false} FilteredStepFaithful(log: Log, s: Submission, limit: nat, window: nat, now: int)
    requires Faithful(log, window + 1, s.counted) && s.counted <= now
    requires Pruned(log.kept, s.counted - window) == After(log.kept, s.counted - window - 1)
    ensures Faithful(DequeStep(log, s, limit, window), window + 1, now)
  {
    Recorded(log, DequeStep(log, s, limit, window), s.recorded, s.counted - window - 1, now - window - 1);
  }

  lemma {:induction false} DequeHistory(subs: seq<Submission>, limit: nat, window: nat, now: int)
    requires Clocked(subs)
    requires forall i :: 0 <= i < |subs| ==> subs[i].recorded <= now
    ensures DequeFaithful(DequeRun(subs, limit, window), window, now)
    decreases |subs|
  {
    if subs != [] {
      var before, s := subs[..|subs| - 1], subs[|subs| - 1];
      DequeHistory(before, limit, window, s.counted);
      DequeStepOrdered(DequeRun(before, limit, window), s, limit, window, now);
      DequeStepFaithful(DequeRun(before, limit, window), s, limit, window, now);
    }
  }

  lemma DequeStepSpaced(log: Log, s: Submission, limit: nat, window: nat)
    requires DequeFaithful(log, window, s.counted) && s.counted <= s.recorded
    requires Spaced(log.passed, limit, window + 1) && limit >= 1
    ensures Spaced(DequeStep(log, s, limit, window).passed, limit, window + 1)
  {
    PrunedIsAfter(log.kept, s.counted - window);
    AfterCount(log.passed, s.counted - window - 1, limit);
    if |Pruned(log.kept, s.counted - window)| < limit {
      AppendSpaced(log.passed, s.recorded, limit, window + 1);
    }
  }

  /** Recorded times are further apart than the window. */
  lemma {:induction false} DequeSpaced(subs: seq<Submission>, limit: nat, window: nat)
    requires Clocked(subs) && limit >= 1
    ensures Spaced(DequeRun(subs, limit, window).passed, limit, window + 1)
    decreases |subs|
  {
    if subs != [] {
      var before, s := subs[..|subs| - 1], subs[|subs| - 1];
      DequeSpaced(before, limit, window);
      DequeHistory(before, limit, window, s.counted);
      DequeStepSpaced(DequeRun(before, limit, window), s, limit, window);
    }
  }

  /** Sliding-window theorem, deque: even the closed stretch [from, from + window] holds at most
      `limit` recorded submissions ... */
  lemma DequeWindow(subs: seq<Submission>, limit: nat, window: nat, now: int, from: int)
    requires Clocked(subs) && limit >= 1
    requires forall i :: 0 <= i < |subs| ==> subs[i].recorded <= now
    ensures |Within(DequeRun(subs, limit, window).passed, from, from + window + 1)| <= limit
  {
    DequeHistory(subs, limit, window, now);
    DequeSpaced(subs, limit, window);
    SpacedWindow(DequeRun(subs, limit, window).passed, limit, window + 1, from);
  }

  /** ... and a submission is refused exactly when that many were recorded from `window` before
      the moment it is counted. */
  lemma DequeRefusesWhenFull(subs: seq<Submission>, limit: nat, window: nat, now: int)
    requires Clocked(subs) && limit >= 1
    requires forall i :: 0 <= i < |subs| ==> subs[i].recorded <= now
    ensures var log := DequeRun(subs, limit, window);
      |Pruned(log.kept, now - window)| >= limit <==> |Within(log.passed, now - window, now + 1)| >= limit
  {
    DequeHistory(subs, limit, window, now);
    LogRefusesWhenFull(DequeRun(subs, limit, window), limit, window, now);
  }

  lemma LogRefusesWhenFull(log: Log, limit: nat, window: nat, now: int)
    requires DequeFaithful(log, window, now) && limit >= 1
    ensures |Pruned(log.kept, now - window)| >= limit <==> |Within(log.passed, now - window, now + 1)| >= limit
  {
    PrunedIsAfter(log.kept, now - window);
    FullWindow(log.passed, now - window - 1, now, limit);
  }

  // ----- The deque limiter, all tenants -----

  datatype Arrival = Arrival(tenant: string, s: Submission)

  /** All deques after a run of submissions, and the submissions recorded. */
  datatype SubmissionLog = SubmissionLog(queues: map<string, seq<int>>, recorded: seq<Request>)

  function SubmitStep(log: SubmissionLog, a: Arrival, limit: nat, window: nat): SubmissionLog {
    var recent := Pruned(Kept(log.queues, a.tenant), a.s.counted - window);
    if |recent| >= limit then log.(queues := log.queues[a.tenant := recent])
    else SubmissionLog(log.queues[a.tenant := recent + [a.s.recorded]],
                       log.recorded + [Request(a.tenant, a.s.recorded)])
  }

  function SubmitRun(arrivals: seq<Arrival>, limit: nat, window: nat): SubmissionLog {
    if arrivals == [] then SubmissionLog(map[], [])
    else
      var last := |arrivals| - 1;
      SubmitStep(SubmitRun(arrivals[..last], limit, window), arrivals[last], limit, window)
  }

  /** The submissions of one tenant. */
  function SubsOf(arrivals: seq<Arrival>, tenant: string): seq<Submission> {
    if arrivals == [] then []
    else
      var last := |arrivals| - 1;
      SubsOf(arrivals[..last], tenant) + if arrivals[last].tenant == tenant then [arrivals[last].s] else []
  }

  /** What one tenant sees of the log. */
  function TenantView(log: SubmissionLog, tenant: string): Log {
    Log(Kept(log.queues, tenant), Times(log.recorded, tenant))
  }

  lemma SubmitStepView(log: SubmissionLog, a: Arrival, limit: nat, window: nat, tenant: string)
    ensures TenantView(SubmitStep(log, a, limit, window), tenant) ==
      if a.tenant == tenant then DequeStep(TenantView(log, tenant), a.s, limit, window) else TenantView(log, tenant)
  {
    TimesAppend(log.recorded, Request(a.tenant, a.s.recorded), tenant);
  }

  lemma DequeRunStep(before: seq<Submission>, s: Submission, limit: nat, window: nat)
    ensures DequeRun(before + [s], limit, window) == DequeStep(DequeRun(before, limit, window), s, limit, window)
  {
  }

  /** No tenant notices the others. */
  lemma {:induction false} TenantsAreIndependent(arrivals: seq<Arrival>, limit: nat, window: nat, tenant: string)
    ensures TenantView(SubmitRun(arrivals, limit, window), tenant) == DequeRun(SubsOf(arrivals, tenant), limit, window)
    decreases |arrivals|
  {
    if arrivals != [] {
      var earlier, a := arrivals[..|arrivals| - 1], arrivals[|arrivals| - 1];
      TenantsAreIndependent(earlier, limit, window, tenant);
      SubmitStepView(SubmitRun(earlier, limit, window), a, limit, window, tenant);
      if a.tenant == tenant {
        assert SubsOf(arrivals, tenant) == SubsOf(earlier, tenant) + [a.s];
        DequeRunStep(SubsOf(earlier, tenant), a.s, limit, window);
      } else {
        assert SubsOf(arrivals, tenant) == SubsOf(earlier, tenant);
      }
    }
  }

  /** Each submission is recorded after it is counted, and before the next one is counted. */
  ghost predicate ArrivalsClocked(arrivals: seq<Arrival>) {
    && (forall i :: 0 <= i < |arrivals| ==> arrivals[i].s.counted <= arrivals[i].s.recorded)
    && (forall i, j :: 0 <= i < j < |arrivals| ==> arrivals[i].s.recorded <= arrivals[j].s.counted)
  }

  lemma {:induction false} SubsClocked(arrivals: seq<Arrival>, tenant: string, now: int)
    requires ArrivalsClocked(arrivals)
    requires forall i :: 0 <= i < |arrivals| ==> arrivals[i].s.recorded <= now
    ensures Clocked(SubsOf(arrivals, tenant))
    ensures forall i :: 0 <= i < |SubsOf(arrivals, tenant)| ==> SubsOf(arrivals, tenant)[i].recorded <= now
    decreases |arrivals|
  {
    if arrivals != [] {
      var earlier, a := arrivals[..|arrivals| - 1], arrivals[|arrivals| - 1];
      SubsClocked(earlier, tenant, a.s.counted);
    }
  }

  /** So of each tenant at most `limit` submissions are recorded in any closed window. */
  lemma {:induction false} SubmitWindow(arrivals: seq<Arrival>, limit: nat, window: nat, tenant: string,
                                        now: int, from: int)
    requires ArrivalsClocked(arrivals) && limit >= 1
    requires forall i :: 0 <= i < |arrivals| ==> arrivals[i].s.recorded <= now
    ensures |Within(Times(SubmitRun(arrivals, limit, window).recorded, tenant), from, from + window + 1)| <= limit
  {
    TenantsAreIndependent(arrivals, limit, window, tenant);
    SubsClocked(arrivals, tenant, now);
    DequeWindow(SubsOf(arrivals, tenant), limit, window, now, from);
  }

  // ----- The sorted-set limiter -----

  /** The set holds a member per arrival time, admitted or not. */
  class RateLimiter {
    const limit: nat
    const window: nat
    var sets: map<string, set<int>>
    var touched: map<string, int>

    constructor (limit: nat, window: nat)
      ensures this.limit == limit && this.window == window && sets == map[] && touched == map[]
    {
      this.limit, this.window := limit, window;
      sets, touched := map[], map[];
    }

    function Snapshot(): Server
      reads this
    {
      Server(sets, touched)
    }

    /** The pipeline of check: zremrangebyscore, zadd, zcard, expire. */
    method Check(key: string, now: int) returns (allowed: bool, retryAfter: nat)
      modifies this
      ensures Snapshot() == ServerStep(old(Snapshot()), Request(key, now), window)
      ensures allowed <==> ServerAdmits(old(Snapshot()), Request(key, now), limit, window)
      ensures retryAfter == if allowed then 0 else window
    {
      var held := Held(Snapshot(), key, now, window);
      var members := (set t | t in held && t > now - window);
      members := members + {now};
      assert members == Arrived(held, now, window);
      var count := |members|;
      sets, touched := sets[key := members], touched[key := now];
      if count > limit {
        return false, window;
      }
      return true, 0;
    }
  }

  /** The sorted sets of all keys, and when each key was last touched. */
  datatype Server = Server(sets: map<string, set<int>>, touched: map<string, int>)

  /** What the server still holds: a key expires a window after it was last touched. */
  function Held(server: Server, key: string, now: int, window: nat): set<int> {
    if key in server.sets && key in server.touched && now < server.touched[key] + window then server.sets[key] else {}
  }

  function ServerStep(server: Server, q: Request, window: nat): Server {
    Server(server.sets[q.key := Arrived(Held(server, q.key, q.now, window), q.now, window)],
           server.touched[q.key := q.now])
  }

  predicate ServerAdmits(server: Server, q: Request, limit: nat, window: nat) {
    |Arrived(Held(server, q.key, q.now, window), q.now, window)| <= limit
  }

  function Arrived(members: set<int>, now: int, window: nat): set<int> {
    (set t | t in members && t > now - window) + {now}
  }

  /** The set after the given arrivals of one key, without any expiry. */
  function SetRun(arrivals: seq<int>, window: nat): set<int> {
    if arrivals == [] then {}
    else
      var last := |arrivals| - 1;
      Arrived(SetRun(arrivals[..last], window), arrivals[last], window)
  }

  predicate SetAdmits(arrivals: seq<int>, now: int, limit: nat, window: nat) {
    |Arrived(SetRun(arrivals, window), now, window)| <= limit
  }

  /** The set holds exactly the arrivals of the window, whether they were admitted or not. */
  lemma {:induction false} SetIsHistory(arrivals: seq<int>, now: int, window: nat)
    requires Ascending(arrivals) && UpTo(arrivals, now)
    ensures Arrived(SetRun(arrivals, window), now, window) == (set t | t in arrivals && t > now - window) + {now}
    decreases |arrivals|
  {
    if arrivals != [] {
      var before, last := arrivals[..|arrivals| - 1], arrivals[|arrivals| - 1];
      Unappend(arrivals);
      SetIsHistory(before, last, window);
    }
  }

  lemma ExpiredIsEvicted(arrivals: seq<int>, now: int, window: nat)
    requires Ascending(arrivals) && UpTo(arrivals, now - window)
    ensures Arrived({}, now, window) == Arrived(SetRun(arrivals, window), now, window)
  {
  }

  /** The set as the server holds it: a key not touched for a window is gone. */
  function KeyRun(arrivals: seq<int>, window: nat): set<int> {
    if arrivals == [] then {}
    else
      var last := |arrivals| - 1;
      var holds := last > 0 && arrivals[last] < arrivals[last - 1] + window;
      var held := if holds then KeyRun(arrivals[..last], window) else {};
      Arrived(held, arrivals[last], window)
  }

  /** The expiry the limiter sets on its keys changes nothing: whatever it drops, the next check
      would have evicted. */
  lemma {:induction false} ExpiryIsIdle(arrivals: seq<int>, window: nat)
    requires Ascending(arrivals)
    ensures KeyRun(arrivals, window) == SetRun(arrivals, window)
    decreases |arrivals|
  {
    if arrivals != [] {
      var before, now := arrivals[..|arrivals| - 1], arrivals[|arrivals| - 1];
      Unappend(arrivals);
      ExpiryIsIdle(before, window);
      if before != [] && now >= before[|before| - 1] + window {
        ExpiredIsEvicted(before, now, window);
      }
    }
  }

  /** The server after a run of requests of all keys. */
  function ServerRun(requests: seq<Request>, window: nat): Server {
    if requests == [] then Server(map[], map[])
    else
      var last := |requests| - 1;
      ServerStep(ServerRun(requests[..last], window), requests[last], window)
  }

  /** The server holds of each key what that key's own arrivals leave. */
  lemma {:induction false} ServerKeepsKeysApart(requests: seq<Request>, window: nat, key: string)
    ensures var server, times := ServerRun(requests, window), Times(requests, key);
      if times == [] then key !in server.sets
      else
        && key in server.sets && server.sets[key] == KeyRun(times, window)
        && key in server.touched && server.touched[key] == times[|times| - 1]
    decreases |requests|
  {
    if requests != [] {
      var earlier, q := requests[..|requests| - 1], requests[|requests| - 1];
      ServerKeepsKeysApart(earlier, window, key);
      var server := ServerRun(earlier, window);
      assert ServerRun(requests, window) == ServerStep(server, q, window);
      if q.key == key {
        assert Times(requests, key) == Times(earlier, key) + [q.now];
        KeyRunStep(Times(earlier, key), q.now, window);
      } else {
        assert Times(requests, key) == Times(earlier, key);
      }
    }
  }

  lemma KeyRunStep(before: seq<int>, now: int, window: nat)
    ensures KeyRun(before + [now], window) ==
      Arrived(if before != [] && now < before[|before| - 1] + window then KeyRun(before, window) else {}, now, window)
  {
  }

  /** Whatever other keys do, and whatever expires, the limiter decides on a request by the arrivals
      of its own key alone. */
  lemma {:induction false} ServerDecidesByKey(requests: seq<Request>, q: Request, limit: nat, window: nat)
    requires InOrder(requests + [q])
    ensures ServerAdmits(ServerRun(requests, window), q, limit, window)
      <==> SetAdmits(Times(requests, q.key), q.now, limit, window)
  {
    var times := Times(requests, q.key);
    ServerKeepsKeysApart(requests, window, q.key);
    TimesAscend(requests + [q], q.key);
    TimesAppend(requests, q, q.key);
    Unappend(Times(requests + [q], q.key));
    ExpiryIsIdle(times, window);
    if times == [] || q.now >= times[|times| - 1] + window {
      ExpiredIsEvicted(times, q.now, window);
    }
  }

  /** With strictly increasing arrivals, the set limiter admits exactly the arrivals that have
      fewer than `limit` others, admitted or not, in the window behind them. */
  lemma {:induction false} SetAdmitsIff(arrivals: seq<int>, now: int, limit: nat, window: nat)
    requires StrictlyAscending(arrivals) && Before(arrivals, now) && limit >= 1
    ensures SetAdmits(arrivals, now, limit, window) <==>
      |arrivals| < limit || arrivals[|arrivals| - limit] <= now - window
  {
    var members := set t | t in arrivals && t > now - window;
    assert SetAdmits(arrivals, now, limit, window) <==> |members| < limit by {
      SetIsHistory(arrivals, now, window);
      assert |members + {now}| == |members| + 1;
    }
    DistinctSize(arrivals, now - window);
    AfterCount(arrivals, now - window, limit);
  }

  lemma {:induction false} DistinctSize(arrivals: seq<int>, cutoff: int)
    requires StrictlyAscending(arrivals)
    ensures |After(arrivals, cutoff)| == |set t | t in arrivals && t > cutoff|
  {
    var recent := After(arrivals, cutoff);
    var members := set t | t in arrivals && t > cutoff;
    forall t
      ensures t in recent <==> t in members
    {
      AfterMembers(arrivals, cutoff, t);
    }
    AfterAscends(arrivals, cutoff);
    DistinctFit(recent, members);
    ListCovers(recent, members);
  }

  /** Limiter refinement: what the sorted set admits, the list admits too. */
  lemma SetRefinesList(arrivals: seq<int>, now: int, limit: nat, window: nat)
    requires StrictlyAscending(arrivals) && Before(arrivals, now)
    requires SetAdmits(arrivals, now, limit, window)
    ensures ListAdmits(arrivals, now, limit, window)
  {
    var members := set t | t in arrivals && t > now - window;
    var admitted := Admitted(arrivals, limit, window);
    assert |members| < limit by {
      SetIsHistory(arrivals, now, window);
      assert |members + {now}| == |members| + 1;
    }
    assert After(ListRun(arrivals, limit, window).kept, now - window) == After(admitted, now - window) by {
      BucketIsHistory(arrivals, limit, window, now);
    }
    AdmittedInWindow(arrivals, now, limit, window);
  }

  /** The same for runs of all keys at once. */
  lemma {:induction false} ServerRefinesShare(requests: seq<Request>, q: Request, limit: nat, window: nat)
    requires InOrder(requests + [q]) && StrictlyAscending(Times(requests + [q], q.key))
    requires ServerAdmits(ServerRun(requests, window), q, limit, window)
    ensures |After(Kept(ShareRun(requests, limit, window).buckets, q.key), q.now - window)| < limit
  {
    ServerDecidesByKey(requests, q, limit, window);
    TimesAppend(requests, q, q.key);
    Unappend(Times(requests + [q], q.key));
    SetRefinesList(Times(requests, q.key), q.now, limit, window);
    KeysAreIndependent(requests, limit, window, q.key);
  }

  /** What the list keeps is among the arrivals of the window, each once. */
  lemma AdmittedInWindow(arrivals: seq<int>, now: int, limit: nat, window: nat)
    requires StrictlyAscending(arrivals)
    ensures |After(Admitted(arrivals, limit, window), now - window)| <= |set t | t in arrivals && t > now - window|
  {
    var kept := After(Admitted(arrivals, limit, window), now - window);
    AdmittedAscends(arrivals, limit, window);
    AdmittedArrived(arrivals, limit, window);
    AfterAscends(Admitted(arrivals, limit, window), now - window);
    forall t | t in kept
      ensures t in arrivals && t > now - window
    {
      AfterMembers(Admitted(arrivals, limit, window), now - window, t);
    }
    DistinctFit(kept, set t | t in arrivals && t > now - window);
  }

  lemma {:induction false} AdmittedGrows(arrivals: seq<int>, n: nat, limit: nat, window: nat, t: int)
    requires n <= |arrivals| && t in Admitted(arrivals[..n], limit, window)
    ensures t in Admitted(arrivals, limit, window)
    decreases |arrivals|
  {
    if n < |arrivals| {
      var before := arrivals[..|arrivals| - 1];
      assert before[..n] == arrivals[..n];
      AdmittedGrows(before, n, limit, window, t);
    } else {
      assert arrivals[..n] == arrivals;
    }
  }

  lemma {:induction false} EarlierOne(before: seq<int>, t: int)
    requires UpTo(before, t) && After(Admitted(before, 1, 1), t - 1) != []
    ensures t in Admitted(before, 1, 1)
  {
    var u := After(Admitted(before, 1, 1), t - 1)[0];
    AfterMembers(Admitted(before, 1, 1), t - 1, u);
    AdmittedUpTo(before, 1, 1, t);
  }

  /** With room for one in a window of one, the list lets somebody through at every moment at which
      anybody arrives. */
  lemma {:induction false} SomeoneAdmitted(before: seq<int>, t: int)
    requires Ascending(before) && UpTo(before, t)
    ensures t in Admitted(before + [t], 1, 1)
  {
    BucketIsHistory(before, 1, 1, t);
    ListRunStep(before, t, 1, 1);
    if After(Admitted(before, 1, 1), t - 1) != [] {
      EarlierOne(before, t);
    }
  }

  lemma {:induction false} ListRefusesSecond(before: seq<int>, t: int)
    requires Ascending(before) && UpTo(before, t) && t in Admitted(before, 1, 1)
    ensures !ListAdmits(before, t, 1, 1)
  {
    BucketIsHistory(before, 1, 1, t);
    AfterMembers(Admitted(before, 1, 1), t - 1, t);
  }

  lemma {:induction false} SetAdmitsAtOnce(before: seq<int>, t: int)
    requires Ascending(before) && UpTo(before, t)
    ensures SetAdmits(before, t, 1, 1)
  {
    SetIsHistory(before, t, 1);
    assert (set u | u in before && u > t - 1) + {t} == {t};
  }

  /** Two arrivals at one moment share a member of the set, so it lets both through, and the list
      only one. */
  lemma {:induction false} TiedArrivals(arrivals: seq<int>, i: nat, j: nat)
    requires Ascending(arrivals) && i < j < |arrivals| && arrivals[i] == arrivals[j]
    ensures SetAdmits(arrivals[..j], arrivals[j], 1, 1) && !ListAdmits(arrivals[..j], arrivals[j], 1, 1)
  {
    var before, t := arrivals[..j], arrivals[j];
    SetAdmitsAtOnce(before, t);
    SomeoneAdmitted(arrivals[..i], t);
    assert before[..i + 1] == arrivals[..i] + [t];
    AdmittedGrows(before, i + 1, 1, 1, t);
    ListRefusesSecond(before, t);
  }

  /** So the sorted set is the stricter limiter, for every limit and window, if and only if no two
      arrivals share a moment. */
  lemma {:induction false} SetRefinesListIff(arrivals: seq<int>)
    requires Ascending(arrivals)
    ensures (forall n, limit: nat, window: nat ::
              0 <= n < |arrivals| && SetAdmits(arrivals[..n], arrivals[n], limit, window)
              ==> ListAdmits(arrivals[..n], arrivals[n], limit, window))
      <==> StrictlyAscending(arrivals)
  {
    if StrictlyAscending(arrivals) {
      forall n, limit: nat, window: nat
        | 0 <= n < |arrivals| && SetAdmits(arrivals[..n], arrivals[n], limit, window)
        ensures ListAdmits(arrivals[..n], arrivals[n], limit, window)
      {
        SetRefinesList(arrivals[..n], arrivals[n], limit, window);
      }
    } else {
      var i, j :| 0 <= i < j < |arrivals| && arrivals[i] >= arrivals[j];
      TiedArrivals(arrivals, i, j);
    }
  }

  /** A key silent for a full window gets through here as well. */
  lemma SetAfterSilence(arrivals: seq<int>, now: int, limit: nat, window: nat)
    requires Ascending(arrivals) && UpTo(arrivals, now - window) && limit >= 1
    ensures SetAdmits(arrivals, now, limit, window)
  {
    ExpiredIsEvicted(arrivals, now, window);
    assert Arrived({}, now, window) == {now};
  }

  /** But a client that keeps retrying within the window is never admitted again, however long
      it goes on, because refused attempts count. */
  lemma RetryingStarves(arrivals: seq<int>, limit: nat, window: nat, n: nat)
    requires StrictlyAscending(arrivals) && limit >= 1
    requires forall i {:trigger arrivals[i]} :: limit <= i < |arrivals| ==> arrivals[i] - arrivals[i - limit] < window
    requires limit <= n < |arrivals|
    ensures !SetAdmits(arrivals[..n], arrivals[n], limit, window)
  {
    SetAdmitsIff(arrivals[..n], arrivals[n], limit, window);
    assert arrivals[n] - arrivals[n - limit] < window;
  }
}
