/** The asynchronous execution protocol (pondapi/executor.py): a submission inserts a pending row
    and hands the statement to a worker; pollers read the row, look at the worker's future, and
    read the row once more if it is done. Workers and pollers interleave at every step. */
module Executions {
  import opened Options

  datatype Status = Pending | Complete | Error

  /** A row of pondapi_executions; columns and rows are one text here. */
  datatype Row = Row(
    tenant: string,
    status: Status,
    result: Option<string>,
    error: Option<string>,
    elapsed: Option<int>)

  /** A worker: waiting, with an outcome it has yet to write, and done. `wrote` says whether its
      UPDATE went through; a failed UPDATE is swallowed. */
  datatype Worker =
    | Queued
    | HasOutcome(outcome: Outcome)
    | Finished(outcome: Outcome, wrote: bool)

  datatype Outcome = Rows(text: string) | Failure(message: string)

  /** A poll between its steps. */
  datatype Poll =
    | Fetched(id: string, tenant: string, row: Row)
    | SawFuture(id: string, tenant: string, row: Row, done: bool)
    | Replied(id: string, tenant: string, reply: Reply)

  datatype Reply =
    | NotFound
    | Denied
    | Result(status: Status, rows: Option<string>, error: Option<string>, elapsed: Option<int>)

  datatype System = System(
    rows: map<string, Row>,
    workers: map<string, Worker>,
    polls: map<nat, Poll>)

  datatype Step =
    | Submit(id: string, tenant: string)
    | Execute(id: string, outcome: Outcome)
    | WriteRow(id: string, elapsed: int, succeeds: bool)
    | Fetch(poll: nat, id: string, tenant: string)
    | LookAtFuture(poll: nat)
    | Refetch(poll: nat)

  // ----- The SQL of the source, row by row -----

  function Inserted(tenant: string): Row {
    Row(tenant, Pending, None, None, None)
  }

  function Updated(row: Row, outcome: Outcome, elapsed: int): Row {
    match outcome
    case Rows(text) => row.(status := Complete, result := Some(text), elapsed := Some(elapsed))
    case Failure(message) => row.(status := Error, error := Some(message), elapsed := Some(elapsed))
  }

  /** _row_to_result: columns and rows only of complete rows, the error only of failed ones. */
  function RowToResult(row: Row): Reply {
    match row.status
    case Pending => Result(Pending, None, None, None)
    case Complete => Result(Complete, Some(row.result.GetOr("[]")), None, Some(row.elapsed.GetOr(0)))
    case Error => Result(Error, None, Some(row.error.GetOr("")), Some(row.elapsed.GetOr(0)))
  }

  /** Two tenants that are both explicit and differ. */
  predicate Foreign(row: Row, tenant: string) {
    row.tenant != tenant && row.tenant != "default" && tenant != "default"
  }

  function Take(s: System, step: Step): System {
    match step
    case Submit(id, tenant) =>
      if id in s.rows then s
      else s.(rows := s.rows[id := Inserted(tenant)], workers := s.workers[id := Queued])
    case Execute(id, outcome) =>
      if id in s.workers && s.workers[id].Queued? then s.(workers := s.workers[id := HasOutcome(outcome)]) else s
    case WriteRow(id, elapsed, succeeds) =>
      if id in s.workers && s.workers[id].HasOutcome? && id in s.rows then
        var outcome := s.workers[id].outcome;
        s.(workers := s.workers[id := Finished(outcome, succeeds)],
           rows := if succeeds then s.rows[id := Updated(s.rows[id], outcome, elapsed)] else s.rows)
      else s
    case Fetch(poll, id, tenant) =>
      if poll in s.polls then s
      else if id !in s.rows then s.(polls := s.polls[poll := Replied(id, tenant, NotFound)])
      else if Foreign(s.rows[id], tenant) then s.(polls := s.polls[poll := Replied(id, tenant, Denied)])
      else s.(polls := s.polls[poll := Fetched(id, tenant, s.rows[id])])
    case LookAtFuture(poll) =>
      if poll in s.polls && s.polls[poll].Fetched? then
        var p := s.polls[poll];
        var done := p.row.status == Pending && p.id in s.workers && s.workers[p.id].Finished?;
        s.(polls := s.polls[poll := SawFuture(p.id, p.tenant, p.row, done)])
      else s
    case Refetch(poll) =>
      if poll in s.polls && s.polls[poll].SawFuture? then
        var p := s.polls[poll];
        var reply :=
          if !p.done then RowToResult(p.row)
          else if p.id in s.rows then RowToResult(s.rows[p.id]) else NotFound;
        s.(polls := s.polls[poll := Replied(p.id, p.tenant, reply)])
      else s
  }

  function Run(s: System, steps: seq<Step>): System
    decreases |steps|
  {
    if steps == [] then s else Run(Take(s, steps[0]), steps[1..])
  }

  const START := System(map[], map[], map[])

  // ----- What every step keeps -----

  /** The row a worker's progress accounts for. */
  ghost predicate RowAgrees(row: Row, worker: Worker) {
    match worker
    case Finished(outcome, true) => exists elapsed :: row == Updated(Inserted(row.tenant), outcome, elapsed)
    case _ => row == Inserted(row.tenant)
  }

  ghost predicate PollAgrees(s: System, p: Poll) {
    match p
    case Fetched(id, tenant, row) =>
      && id in s.rows && row.tenant == s.rows[id].tenant && !Foreign(row, tenant)
      && (row.status == Pending || row == s.rows[id])
      && (row.status == Pending ==> row == Inserted(row.tenant))
    case SawFuture(id, tenant, row, done) =>
      && id in s.rows && row.tenant == s.rows[id].tenant && !Foreign(row, tenant)
      && (row.status == Pending || row == s.rows[id])
      && (row.status == Pending ==> row == Inserted(row.tenant))
      && (done ==> id in s.workers && s.workers[id].Finished?)
    case Replied(id, tenant, reply) =>
      reply.Result? ==>
        (id in s.rows && !Foreign(s.rows[id], tenant)
         && (reply == RowToResult(s.rows[id]) || reply == RowToResult(Inserted(s.rows[id].tenant))))
  }

  ghost predicate Consistent(s: System) {
    && s.rows.Keys == s.workers.Keys
    && (forall id :: id in s.rows ==> RowAgrees(s.rows[id], s.workers[id]))
    && (forall poll :: poll in s.polls ==> PollAgrees(s, s.polls[poll]))
  }

  /** A row is kept as it is once terminal, and keeps its tenant before. */
  predicate RowsForward(s: System, s': System) {
    forall id :: id in s.rows ==>
      && id in s'.rows && s'.rows[id].tenant == s.rows[id].tenant
      && (s.rows[id].status == Pending || s'.rows[id] == s.rows[id])
  }

  predicate WorkersForward(s: System, s': System) {
    forall id :: id in s.workers && s.workers[id].Finished? ==>
      id in s'.workers && s'.workers[id] == s.workers[id]
  }

  /** Rows and workers never go back. */
  predicate Forward(s: System, s': System) {
    RowsForward(s, s') && WorkersForward(s, s')
  }

  lemma {:induction false} StepRowsForward(s: System, step: Step)
    requires Consistent(s)
    ensures RowsForward(s, Take(s, step))
  {
    if step.WriteRow? && step.id in s.rows && s.workers[step.id].HasOutcome? {
      assert RowAgrees(s.rows[step.id], s.workers[step.id]);
    }
  }

  lemma {:induction false} StepForward(s: System, step: Step)
    requires Consistent(s)
    ensures Forward(s, Take(s, step))
  {
    StepRowsForward(s, step);
    StepWorkersForward(s, step);
  }

  lemma {:induction false} StepWorkersForward(s: System, step: Step)
    requires Consistent(s)
    ensures WorkersForward(s, Take(s, step))
  {
  }

  lemma {:induction false} RowsKeepAgreeing(s: System, step: Step)
    requires Consistent(s)
    ensures var s' := Take(s, step);
      && s'.rows.Keys == s'.workers.Keys
      && forall id :: id in s'.rows ==> RowAgrees(s'.rows[id], s'.workers[id])
  {
  }

  lemma PollKeepsAgreeing(s: System, s': System, p: Poll)
    requires Consistent(s) && Forward(s, s') && PollAgrees(s, p)
    requires s'.rows.Keys == s'.workers.Keys
    requires forall id :: id in s'.rows ==> RowAgrees(s'.rows[id], s'.workers[id])
    ensures PollAgrees(s', p)
  {
  }

  lemma {:induction false} NewPollAgrees(s: System, step: Step, poll: nat)
    requires Consistent(s) && poll in Take(s, step).polls
    requires poll !in s.polls || Take(s, step).polls[poll] != s.polls[poll]
    ensures PollAgrees(s, Take(s, step).polls[poll])
  {
  }

  lemma {:induction false} StepKeepsConsistent(s: System, step: Step)
    requires Consistent(s)
    ensures Consistent(Take(s, step))
  {
    var s' := Take(s, step);
    StepForward(s, step);
    RowsKeepAgreeing(s, step);
    forall poll | poll in s'.polls
      ensures PollAgrees(s', s'.polls[poll])
    {
      if poll !in s.polls || s'.polls[poll] != s.polls[poll] {
        NewPollAgrees(s, step, poll);
      }
      PollKeepsAgreeing(s, s', s'.polls[poll]);
    }
  }

  lemma {:induction false} RunConsistent(s: System, steps: seq<Step>)
    requires Consistent(s)
    ensures Consistent(Run(s, steps)) && Forward(s, Run(s, steps))
    decreases |steps|
  {
    if steps != [] {
      StepKeepsConsistent(s, steps[0]);
      StepForward(s, steps[0]);
      RunConsistent(Take(s, steps[0]), steps[1..]);
    }
  }

  // ----- The protocol's promises, under any interleaving -----

  predicate Terminal(s: System, id: string) {
    id in s.rows && s.rows[id].status != Pending
  }

  /** How often the row of `id` turns terminal in a run. */
  function Departures(s: System, steps: seq<Step>, id: string): nat
    decreases |steps|
  {
    if steps == [] then 0
    else
      var s' := Take(s, steps[0]);
      (if Terminal(s', id) && !Terminal(s, id) then 1 else 0) + Departures(s', steps[1..], id)
  }

  /** A row turns terminal at most once. */
  lemma {:induction false} LeavesPendingOnce(s: System, steps: seq<Step>, id: string)
    requires Consistent(s)
    ensures Departures(s, steps, id) == if Terminal(Run(s, steps), id) && !Terminal(s, id) then 1 else 0
    ensures Terminal(s, id) ==> Terminal(Run(s, steps), id)
    decreases |steps|
  {
    if steps != [] {
      StepKeepsConsistent(s, steps[0]);
      StepForward(s, steps[0]);
      LeavesPendingOnce(Take(s, steps[0]), steps[1..], id);
    }
  }

  /** A terminal row never changes again. */
  lemma TerminalIsFinal(before: seq<Step>, after: seq<Step>, id: string)
    requires Terminal(Run(START, before), id)
    ensures var s := Run(START, before);
      id in Run(s, after).rows && Run(s, after).rows[id] == s.rows[id]
  {
    RunConsistent(START, before);
    RunConsistent(Run(START, before), after);
  }

  /** What a poll finds done, it reports: from the moment it sees the future done, whatever happens
      before it replies, it replies with the terminal row if the worker's update went through, and
      with `pending` if and only if it did not. */
  lemma {:induction false} DonePollReportsOutcome(before: seq<Step>, between: seq<Step>, poll: nat)
    requires var s := Run(START, before); poll in s.polls && s.polls[poll].SawFuture? && s.polls[poll].done
    requires var s := Run(Run(START, before), between);
      poll in s.polls && s.polls[poll] == Run(START, before).polls[poll]
    ensures var s := Run(Run(START, before), between);
      var p := s.polls[poll];
      var reply := Take(s, Refetch(poll)).polls[poll].reply;
      && p.id in s.workers && s.workers[p.id].Finished?
      && reply.Result?
      && (if s.workers[p.id].wrote then
            match s.workers[p.id].outcome
            case Rows(text) => reply.status == Complete && reply.rows == Some(text) && reply.error == None
            case Failure(message) => reply.status == Error && reply.rows == None && reply.error == Some(message)
          else reply == Result(Pending, None, None, None))
  {
    RunConsistent(START, before);
    var s := Run(Run(START, before), between);
    RunConsistent(Run(START, before), between);
    var p := s.polls[poll];
    assert PollAgrees(s, p);
    assert RowAgrees(s.rows[p.id], s.workers[p.id]);
  }

  /** Results never go back: after a poll has reported a terminal status, every later poll that
      reports at all reports the very same thing. */
  lemma RepliesAreStable(before: seq<Step>, between: seq<Step>, first: nat, second: nat, id: string)
    requires var s := Run(START, before);
      first in s.polls && s.polls[first].Replied? && s.polls[first].id == id
      && s.polls[first].reply.Result? && s.polls[first].reply.status != Pending
      && second !in s.polls
    requires var s := Run(Run(START, before), between);
      second in s.polls && s.polls[second].Replied? && s.polls[second].id == id && s.polls[second].reply.Result?
    ensures Run(Run(START, before), between).polls[second].reply == Run(START, before).polls[first].reply
  {
    var s := Run(START, before);
    RunConsistent(START, before);
    assert PollAgrees(s, s.polls[first]);
    assert s.rows[id].status != Pending;
    LatePollSeesFinal(s, between, second, id);
  }

  /** A poll that starts once the row is final carries the final row. */
  ghost predicate CarriesFinal(s: System, poll: nat, id: string)
    requires id in s.rows
  {
    poll in s.polls && s.polls[poll].id == id ==>
      match s.polls[poll]
      case Fetched(_, _, row) => row == s.rows[id]
      case SawFuture(_, _, row, _) => row == s.rows[id]
      case Replied(_, _, reply) => reply.Result? ==> reply == RowToResult(s.rows[id])
  }

  /** No step but its own touches a poll. */
  predicate Moves(step: Step, poll: nat) {
    match step
    case Fetch(p, _, _) => p == poll
    case LookAtFuture(p) => p == poll
    case Refetch(p) => p == poll
    case _ => false
  }

  lemma OthersPolls(s: System, step: Step, poll: nat)
    requires !Moves(step, poll)
    ensures poll in Take(s, step).polls <==> poll in s.polls
    ensures poll in s.polls ==> Take(s, step).polls[poll] == s.polls[poll]
  {
  }

  lemma {:induction false} OwnStepCarriesFinal(s: System, step: Step, poll: nat, id: string)
    requires Moves(step, poll) && id in s.rows && CarriesFinal(s, poll, id)
    ensures Take(s, step).rows == s.rows && CarriesFinal(Take(s, step), poll, id)
  {
    match step
    case Fetch(_, _, _) =>
    case LookAtFuture(_) =>
    case Refetch(_) =>
  }

  lemma {:induction false} StepCarriesFinal(s: System, step: Step, poll: nat, id: string)
    requires Consistent(s) && id in s.rows && s.rows[id].status != Pending && CarriesFinal(s, poll, id)
    ensures id in Take(s, step).rows && Take(s, step).rows[id] == s.rows[id]
    ensures CarriesFinal(Take(s, step), poll, id)
  {
    if Moves(step, poll) {
      OwnStepCarriesFinal(s, step, poll, id);
    } else {
      StepRowsForward(s, step);
      OthersPolls(s, step, poll);
    }
  }

  lemma {:induction false} LatePollSeesFinal(s: System, steps: seq<Step>, poll: nat, id: string)
    requires Consistent(s) && id in s.rows && s.rows[id].status != Pending && CarriesFinal(s, poll, id)
    ensures id in Run(s, steps).rows && Run(s, steps).rows[id] == s.rows[id]
    ensures CarriesFinal(Run(s, steps), poll, id)
    decreases |steps|
  {
    if steps != [] {
      StepKeepsConsistent(s, steps[0]);
      StepCarriesFinal(s, steps[0], poll, id);
      LatePollSeesFinal(Take(s, steps[0]), steps[1..], poll, id);
    }
  }

  /** Results and errors are reported only with the status they belong to, and to no foreign tenant. */
  lemma ReportsMatchStatus(steps: seq<Step>, poll: nat)
    requires var s := Run(START, steps); poll in s.polls && s.polls[poll].Replied? && s.polls[poll].reply.Result?
    ensures var Replied(id, tenant, reply) := Run(START, steps).polls[poll];
      && id in Run(START, steps).rows && !Foreign(Run(START, steps).rows[id], tenant)
      && (reply.rows.Some? <==> reply.status == Complete)
      && (reply.error.Some? <==> reply.status == Error)
      && (reply.elapsed.Some? <==> reply.status != Pending)
  {
    RunConsistent(START, steps);
    assert PollAgrees(Run(START, steps), Run(START, steps).polls[poll]);
  }

  // ----- Who submitted, and who may read -----

  /** Whose submission, the first one under the id, inserted the row. */
  function Submitter(steps: seq<Step>, id: string): Option<string> {
    if steps == [] then None
    else if steps[0].Submit? && steps[0].id == id then Some(steps[0].tenant)
    else Submitter(steps[1..], id)
  }

  lemma {:induction false} RowsBelongToSubmitter(s: System, steps: seq<Step>, id: string)
    ensures var s' := Run(s, steps);
      var owner := if id in s.rows then Some(s.rows[id].tenant) else Submitter(steps, id);
      && (id in s'.rows <==> owner.Some?)
      && (id in s'.rows ==> owner == Some(s'.rows[id].tenant))
    decreases |steps|
  {
    if steps != [] {
      StepKeepsOwner(s, steps[0], id);
      RowsBelongToSubmitter(Take(s, steps[0]), steps[1..], id);
    }
  }

  lemma StepKeepsOwner(s: System, step: Step, id: string)
    ensures var s' := Take(s, step);
      if id in s.rows then id in s'.rows && s'.rows[id].tenant == s.rows[id].tenant
      else if step.Submit? && step.id == id then id in s'.rows && s'.rows[id].tenant == step.tenant
      else id !in s'.rows
  {
  }

  /** Whose poll it is, and for what: the first fetch under its number. */
  function Fetcher(steps: seq<Step>, poll: nat): Option<(string, string)> {
    if steps == [] then None
    else if steps[0].Fetch? && steps[0].poll == poll then Some((steps[0].id, steps[0].tenant))
    else Fetcher(steps[1..], poll)
  }

  lemma {:induction false} PollsBelongToFetcher(s: System, steps: seq<Step>, poll: nat)
    ensures var s' := Run(s, steps);
      var asked := if poll in s.polls then Some((s.polls[poll].id, s.polls[poll].tenant)) else Fetcher(steps, poll);
      && (poll in s'.polls <==> asked.Some?)
      && (poll in s'.polls ==> asked == Some((s'.polls[poll].id, s'.polls[poll].tenant)))
    decreases |steps|
  {
    if steps != [] {
      StepKeepsFetcher(s, steps[0], poll);
      PollsBelongToFetcher(Take(s, steps[0]), steps[1..], poll);
    }
  }

  lemma StepKeepsFetcher(s: System, step: Step, poll: nat)
    ensures var s' := Take(s, step);
      if poll in s.polls then
        poll in s'.polls && s'.polls[poll].id == s.polls[poll].id && s'.polls[poll].tenant == s.polls[poll].tenant
      else if step.Fetch? && step.poll == poll then
        poll in s'.polls && s'.polls[poll].id == step.id && s'.polls[poll].tenant == step.tenant
      else poll !in s'.polls
  {
  }

  /** Tenant isolation, over whole runs: whoever gets a result submitted it, or is nobody in
      particular, or reads what nobody in particular submitted. */
  lemma {:induction false} ResultsStayWithTenant(steps: seq<Step>, poll: nat, id: string, tenant: string)
    requires var s := Run(START, steps);
      poll in s.polls && s.polls[poll].Replied? && s.polls[poll].reply.Result?
    requires Fetcher(steps, poll) == Some((id, tenant))
    ensures var owner := Submitter(steps, id);
      owner == Some(tenant) || owner == Some("default") || (owner.Some? && tenant == "default")
  {
    ReportsMatchStatus(steps, poll);
    RowsBelongToSubmitter(START, steps, id);
    PollsBelongToFetcher(START, steps, poll);
  }

  /** And nobody else is turned away: a poll is denied if and only if an explicit tenant asks for what
      another explicit tenant submitted, and finds nothing if and only if nobody submitted it. */
  lemma {:induction false} DeniedIff(steps: seq<Step>, poll: nat, id: string, tenant: string)
    requires poll !in Run(START, steps).polls
    ensures var p := Take(Run(START, steps), Fetch(poll, id, tenant)).polls[poll];
      var owner := Submitter(steps, id);
      && (p == Replied(id, tenant, Denied) <==>
            owner.Some? && owner.value != tenant && owner.value != "default" && tenant != "default")
      && (p == Replied(id, tenant, NotFound) <==> owner == None)
  {
    RowsBelongToSubmitter(START, steps, id);
  }

  // ----- Getting there -----

  /** A submission that is executed and written ends as a row with exactly its outcome. */
  lemma {:induction false} SubmissionCompletes(steps: seq<Step>, id: string, tenant: string, outcome: Outcome,
                                               elapsed: int)
    requires id !in Run(START, steps).rows
    ensures var submitted := Take(Run(START, steps), Submit(id, tenant));
      var done := Take(Take(submitted, Execute(id, outcome)), WriteRow(id, elapsed, true));
      && id in submitted.rows && submitted.rows[id] == Row(tenant, Pending, None, None, None)
      && id in done.rows && done.rows[id] == (
           match outcome
           case Rows(text) => Row(tenant, Complete, Some(text), None, Some(elapsed))
           case Failure(message) => Row(tenant, Error, None, Some(message), Some(elapsed)))
  {
    RunConsistent(START, steps);
  }

  /** Steps that leave a poll alone. */
  predicate LeaveAlone(steps: seq<Step>, poll: nat) {
    forall i :: 0 <= i < |steps| ==> !Moves(steps[i], poll)
  }

  lemma {:induction false} PollLeftAlone(s: System, steps: seq<Step>, poll: nat)
    requires poll in s.polls && LeaveAlone(steps, poll)
    ensures poll in Run(s, steps).polls && Run(s, steps).polls[poll] == s.polls[poll]
    decreases |steps|
  {
    if steps != [] {
      assert !Moves(steps[0], poll);
      OthersPolls(s, steps[0], poll);
      assert forall i :: 0 <= i < |steps| - 1 ==> steps[1..][i] == steps[i + 1];
      PollLeftAlone(Take(s, steps[0]), steps[1..], poll);
    }
  }

  /** A poll that looks at a future whose worker has finished gets that worker's outcome if its update
      went through, whatever it had read before and whatever happens in between; and it gets it at
      its own third step. */
  lemma {:induction false} FinishedIsReported(before: seq<Step>, between: seq<Step>, poll: nat)
    requires var s := Run(START, before);
      poll in s.polls && s.polls[poll].Fetched?
      && s.polls[poll].id in s.workers && s.workers[s.polls[poll].id].Finished?
    requires LeaveAlone(between, poll)
    ensures var s := Run(START, before);
      var id := s.polls[poll].id;
      var end := Take(Run(Take(s, LookAtFuture(poll)), between), Refetch(poll));
      && id in s.rows && poll in end.polls && end.polls[poll].Replied?
      && end.polls[poll].reply ==
         if !s.workers[id].wrote then Result(Pending, None, None, None)
         else
           match s.workers[id].outcome
           case Rows(text) => Result(Complete, Some(text), None, s.rows[id].elapsed)
           case Failure(message) => Result(Error, None, Some(message), s.rows[id].elapsed)
  {
    var s := Run(START, before);
    var looked := Take(s, LookAtFuture(poll));
    var later := Run(looked, between);
    RunConsistent(START, before);
    StepKeepsConsistent(s, LookAtFuture(poll));
    StepForward(s, LookAtFuture(poll));
    RunConsistent(looked, between);
    PollLeftAlone(looked, between, poll);
    FinishedRow(s, poll);
    var id := s.polls[poll].id;
    assert later.workers[id] == s.workers[id];
    assert RowAgrees(later.rows[id], later.workers[id]);
  }

  lemma {:induction false} FinishedRow(s: System, poll: nat)
    requires Consistent(s) && poll in s.polls && s.polls[poll].Fetched?
    requires s.polls[poll].id in s.workers && s.workers[s.polls[poll].id].Finished?
    ensures var id := s.polls[poll].id;
      && id in s.rows && RowAgrees(s.rows[id], s.workers[id]) && PollAgrees(s, s.polls[poll])
      && (s.workers[id].wrote <==> s.rows[id].status != Pending)
  {
    var id := s.polls[poll].id;
    assert PollAgrees(s, s.polls[poll]) && RowAgrees(s.rows[id], s.workers[id]);
  }

  /** While the worker has not finished, a poll that started says `pending`. */
  lemma {:induction false} UnfinishedIsPending(before: seq<Step>, between: seq<Step>, poll: nat)
    requires var s := Run(START, before);
      poll in s.polls && s.polls[poll].Fetched?
      && s.polls[poll].id in s.workers && !s.workers[s.polls[poll].id].Finished?
    requires LeaveAlone(between, poll)
    ensures var end := Take(Run(Take(Run(START, before), LookAtFuture(poll)), between), Refetch(poll));
      poll in end.polls && end.polls[poll].Replied? && end.polls[poll].reply == Result(Pending, None, None, None)
  {
    var s := Run(START, before);
    RunConsistent(START, before);
    PollLeftAlone(Take(s, LookAtFuture(poll)), between, poll);
    assert PollAgrees(s, s.polls[poll]);
    assert RowAgrees(s.rows[s.polls[poll].id], s.workers[s.polls[poll].id]);
  }
}
