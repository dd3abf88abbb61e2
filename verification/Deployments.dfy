/** Which deployments of the /query endpoint (app.py) the result cache serves right in every run, and
    the runs in which it goes wrong otherwise. */
module Deployments {
  import opened Options
  import opened CacheKeys
  import opened QueryCache
  import opened ResultCaches

  /** How a deployment uses the service: which tenants query which sessions, whether a session may be
      suspended and come back, and whether statements also reach sessions in the background, past
      the endpoint: the asynchronous executor runs them on the same manager and bumps no version. */
  datatype Deployment = Deployment(uses: (string, string) -> bool, suspends: bool, background: bool)

  predicate Allowed<Db, Res>(e: Engine<Db, Res>, d: Deployment, step: Step<Db>) {
    match step
    case Ask(_, tenant, session, sql, _) => d.uses(tenant, session) && !e.isWrite(sql)
    case Resume(_, _) => d.suspends
    case _ => true
  }

  /** Every hit in every run of the deployment is right. A write of the endpoint bumps first. */
  ghost predicate AlwaysRight<Db(!new), Res(!new)>(e: Engine<Db, Res>, d: Deployment) {
    forall steps: seq<Step<Db>>, step: Step<Db> ::
      (d.background || BumpsFirst(steps)) && AllAllowed(e, d, steps) && Allowed(e, d, step)
      ==> HitIsRight(e, RunAll(e, steps), step)
  }

  ghost predicate AllAllowed<Db(!new), Res(!new)>(e: Engine<Db, Res>, d: Deployment, steps: seq<Step<Db>>) {
    forall step :: step in steps ==> Allowed(e, d, step)
  }

  // ----- The conditions -----

  /** No tenant queries two sessions. */
  ghost predicate OneSessionEach(d: Deployment) {
    forall tenant, a, b :: d.uses(tenant, a) && d.uses(tenant, b) ==> a == b
  }

  ghost predicate Serves(d: Deployment, tenant: string) {
    exists session :: d.uses(tenant, session)
  }

  /** No tenant ends in another one after a NUL. */
  ghost predicate TenantsApart(d: Deployment) {
    forall t, u :: Serves(d, t) && Serves(d, u) ==> !EndsIn(t, u)
  }

  /** The same for tenants that query one and the same session. */
  ghost predicate SharersApart(d: Deployment) {
    forall t, u, session :: d.uses(t, session) && d.uses(u, session) ==> !EndsIn(t, u)
  }

  /** What follows a NUL does not make a statement a write, nor keep it from being one. */
  ghost predicate WriteEndsAtNul<Db, Res>(e: Engine<Db, Res>) {
    forall sql, rest :: e.isWrite(sql + ['\0'] + rest) == e.isWrite(sql)
  }

  /** Some read tells two states of the data apart. */
  predicate Discerns<Db, Res(==)>(e: Engine<Db, Res>, sql: string, db: Db, other: Db) {
    !e.isWrite(sql) && e.run(sql, db).1.Some? && e.run(sql, other).1 != e.run(sql, db).1
  }

  /** The data after a read and then another statement. */
  function After<Db, Res>(e: Engine<Db, Res>, sql: string, write: string, db: Db): Db {
    e.run(write, e.run(sql, db).0).0
  }

  // ----- Exactly these conditions -----

  ghost function HomeOf(d: Deployment, tenant: string): (home: Option<string>)
    ensures home.Some? <==> Serves(d, tenant)
    ensures OneSessionEach(d) ==> forall a :: d.uses(tenant, a) ==> home == Some(a)
  {
    if Serves(d, tenant) then var a :| d.uses(tenant, a); Some(a) else None
  }

  lemma {:induction false} GoodDeployment<Db(!new), Res(!new)>(e: Engine<Db, Res>, d: Deployment)
    requires OneSessionEach(d) && TenantsApart(d) && !d.suspends && !d.background && Steady(e)
    ensures AlwaysRight(e, d)
  {
    var home := t => HomeOf(d, t);
    forall steps: seq<Step<Db>>, step: Step<Db> | BumpsFirst(steps) && AllAllowed(e, d, steps) && Allowed(e, d, step)
      ensures HitIsRight(e, RunAll(e, steps), step)
    {
      forall i | 0 <= i < |steps|
        ensures Orderly(e, home, steps[i])
      {
        assert steps[i] in steps;
      }
      EveryHitIsRight(e, home, steps, step);
    }
  }

  lemma {:induction false} WrongHit<Db(!new), Res(!new)>(e: Engine<Db, Res>, d: Deployment,
                                                         steps: seq<Step<Db>>, step: Step<Db>)
    requires AllAllowed(e, d, steps) && Allowed(e, d, step)
    requires d.background || forall step :: step in steps ==> !step.RunWrite?
    requires !HitIsRight(e, RunAll(e, steps), step)
    ensures !AlwaysRight(e, d)
  {
    assert d.background || BumpsFirst(steps);
  }

  lemma {:induction false} TwoSessionsGoWrong<Db(!new), Res(!new)>(e: Engine<Db, Res>, d: Deployment,
                                                                   sql: string, db: Db, other: Db)
    requires !OneSessionEach(d) && Discerns(e, sql, db, other)
    ensures !AlwaysRight(e, d)
  {
    var t, a, b :| d.uses(t, a) && d.uses(t, b) && a != b;
    SharedKeyGoesWrong(e, d, t, a, sql, db, t, b, sql, other);
  }

  lemma {:induction false} SharedKeyGoesWrong<Db(!new), Res(!new)>(e: Engine<Db, Res>, d: Deployment,
                                                                   t: string, a: string, sql: string, db: Db,
                                                                   u: string, b: string, sql': string, other: Db)
    requires d.uses(t, a) && d.uses(u, b) && !e.isWrite(sql) && !e.isWrite(sql')
    requires a != b && Raw(Key(sql, t, 0)) == Raw(Key(sql', u, 0))
    requires e.run(sql, db).1.Some? && e.run(sql', other).1 != e.run(sql, db).1
    ensures !AlwaysRight(e, d)
  {
    SharedKey(e, t, a, sql, db, u, b, sql', other);
    WrongHit(e, d, ReadOnce(t, a, sql, db) + [Open(b, other)], Ask(1, u, b, sql', 1));
  }

  lemma {:induction false} ClashGoesWrong<Db(!new), Res(!new)>(e: Engine<Db, Res>, d: Deployment,
                                                               sql: string, db: Db, other: Db)
    requires !TenantsApart(d) && SharersApart(d) && WriteEndsAtNul(e) && Discerns(e, sql, db, other)
    ensures !AlwaysRight(e, d)
  {
    var t, u :| Serves(d, t) && Serves(d, u) && EndsIn(t, u);
    var a :| d.uses(t, a);
    var b :| d.uses(u, b);
    var start :| t == start + ['\0'] + u;
    ClashingKey(start, u, sql, 0);
    var long := sql + ['\0'] + start;
    // Whichever of the two statements the engine tells apart, one reads the other's result.
    if e.run(long, db).1 != e.run(sql, db).1 {
      SharedKeyGoesWrong(e, d, t, a, sql, db, u, b, long, db);
    } else {
      SharedKeyGoesWrong(e, d, u, b, long, db, t, a, sql, other);
    }
  }

  lemma {:induction false} SuspensionGoesWrong<Db(!new), Res(!new)>(e: Engine<Db, Res>, d: Deployment, tenant: string,
                                                                    session: string, sql: string, db: Db, other: Db)
    requires d.suspends && d.uses(tenant, session) && Discerns(e, sql, db, other)
    ensures !AlwaysRight(e, d)
  {
    ResumedSession(e, tenant, session, sql, db, other);
    WrongHit(e, d, ReadOnce(tenant, session, sql, db) + [Resume(session, other)], Ask(1, tenant, session, sql, 1));
  }

  lemma {:induction false} BackgroundGoesWrong<Db(!new), Res(!new)>(e: Engine<Db, Res>, d: Deployment, tenant: string,
                                                                    session: string, sql: string, write: string, db: Db)
    requires d.background && d.uses(tenant, session) && Discerns(e, sql, db, After(e, sql, write, db))
    ensures !AlwaysRight(e, d)
  {
    BackgroundWrite(e, tenant, session, sql, write, db);
    WrongHit(e, d, ReadOnce(tenant, session, sql, db) + [RunWrite(session, write)], Ask(1, tenant, session, sql, 1));
  }

  lemma {:induction false} UnsteadyGoesWrong<Db(!new), Res(!new)>(e: Engine<Db, Res>, d: Deployment,
                                                                  tenant: string, session: string)
    requires !Steady(e) && d.uses(tenant, session)
    ensures !AlwaysRight(e, d)
  {
    var q, start :| !e.isWrite(q) && e.run(q, start).1.Some?
      && !Lasts(e, e.run(q, start).0, q, e.run(q, start).1.value);
    var sqls :| Reads(e, sqls)
      && e.run(q, Follow(e, e.run(q, start).0, sqls)).1 != Some(e.run(q, start).1.value);
    UnrecognisedWrites(e, tenant, session, q, start, sqls);
    AskAndRunAllowed(e, d, tenant, session, sqls);
    WrongHit(e, d, MissedWrites(tenant, session, q, start, sqls), Ask(0, tenant, session, q, 1));
  }

  /** Where some tenant queries some session, and some statement changes what some read returns, every
      hit of every run is right if and only if each tenant keeps to one session, no tenant ends in
      another one after a NUL, sessions are never suspended, nothing reaches them in the background,
      and no statement the write pattern misses changes what reads return. */
  lemma {:induction false} AlwaysRightIff<Db(!new), Res(!new)>(e: Engine<Db, Res>, d: Deployment, tenant: string,
                                                               session: string, sql: string, write: string, db: Db)
    requires d.uses(tenant, session) && Discerns(e, sql, db, After(e, sql, write, db))
    requires SharersApart(d) && WriteEndsAtNul(e)
    ensures AlwaysRight(e, d) <==>
      OneSessionEach(d) && TenantsApart(d) && !d.suspends && !d.background && Steady(e)
  {
    var other := After(e, sql, write, db);
    if !OneSessionEach(d) {
      TwoSessionsGoWrong(e, d, sql, db, other);
    } else if !TenantsApart(d) {
      ClashGoesWrong(e, d, sql, db, other);
    } else if d.suspends {
      SuspensionGoesWrong(e, d, tenant, session, sql, db, other);
    } else if d.background {
      BackgroundGoesWrong(e, d, tenant, session, sql, write, db);
    } else if !Steady(e) {
      UnsteadyGoesWrong(e, d, tenant, session);
    } else {
      GoodDeployment(e, d);
    }
  }

  // ----- The runs that go wrong -----

  lemma RunAllStep<Db, Res>(e: Engine<Db, Res>, steps: seq<Step<Db>>, step: Step<Db>)
    ensures RunAll(e, steps + [step]) == Take(e, RunAll(e, steps), step)
  {
  }

  function ReadOnce<Db>(tenant: string, session: string, sql: string, db: Db): seq<Step<Db>> {
    [Open(session, db)] + [Ask(0, tenant, session, sql, 0)] + [RunRead(0)] + [Keep(0, 0, 300)]
  }

  function Read<Db, Res>(e: Engine<Db, Res>, tenant: string, session: string, sql: string, db: Db): Pending<Res>
    requires e.run(sql, db).1.Some?
  {
    Ran(Key(sql, tenant, 0), session, e.run(sql, db).1.value)
  }

  function FirstRead<Db, Res>(e: Engine<Db, Res>, tenant: string, sql: string, db: Db): Store<Res>
    requires e.run(sql, db).1.Some?
  {
    map[Raw(Key(sql, tenant, 0)) := Entry(e.run(sql, db).1.value, 300)]
  }

  function ReadStart<Db>(tenant: string, session: string, sql: string, db: Db): seq<Step<Db>> {
    [Open(session, db)] + [Ask(0, tenant, session, sql, 0)] + [RunRead(0)]
  }

  lemma {:induction false} ReadStarts<Db, Res>(e: Engine<Db, Res>, tenant: string, session: string, sql: string, db: Db)
    requires e.run(sql, db).1.Some?
    ensures RunAll(e, ReadStart(tenant, session, sql, db)) ==
      Service(map[session := e.run(sql, db).0], map[], map[], map[0 := Read(e, tenant, session, sql, db)])
  {
    var one: seq<Step<Db>> := [Open(session, db)];
    var two: seq<Step<Db>> := one + [Ask(0, tenant, session, sql, 0)];
    assert [] + one == one;
    RunAllStep(e, [], Open(session, db));
    RunAllStep(e, one, Ask(0, tenant, session, sql, 0));
    RunAllStep(e, two, RunRead(0));
    assert RunAll(e, one) == Service(map[session := db], map[], map[], map[]);
    assert RunAll(e, two) == Service(map[session := db], map[], map[], map[0 := Keyed(Key(sql, tenant, 0), session)]);
  }

  /** After the first read, its result is cached under version 0. */
  lemma {:induction false} ReadOnceCaches<Db, Res>(e: Engine<Db, Res>, tenant: string, session: string,
                                                   sql: string, db: Db)
    requires e.run(sql, db).1.Some?
    ensures RunAll(e, ReadOnce(tenant, session, sql, db)) ==
      Service(map[session := e.run(sql, db).0], map[], FirstRead(e, tenant, sql, db), map[])
  {
    ReadStarts(e, tenant, session, sql, db);
    RunAllStep(e, ReadStart(tenant, session, sql, db), Keep(0, 0, 300));
  }

  /** A statement that shares its key with another one is served that one's result. */
  lemma {:induction false} SharedKey<Db(!new), Res(!new)>(e: Engine<Db, Res>,
                                                          t: string, a: string, sql: string, db: Db,
                                                          u: string, b: string, sql': string, other: Db)
    requires a != b && Raw(Key(sql, t, 0)) == Raw(Key(sql', u, 0))
    requires e.run(sql, db).1.Some? && e.run(sql', other).1 != e.run(sql, db).1
    ensures !HitIsRight(e, RunAll(e, ReadOnce(t, a, sql, db) + [Open(b, other)]), Ask(1, u, b, sql', 1))
  {
    ReadOnceCaches(e, t, a, sql, db);
    RunAllStep(e, ReadOnce(t, a, sql, db), Open(b, other));
  }

  /** Two sessions of one tenant share keys: the second reads the first one's data. */
  lemma {:induction false} TwoSessionsOfOneTenant<Db(!new), Res(!new)>(e: Engine<Db, Res>,
                                                                       tenant: string, a: string, b: string,
                                                                       sql: string, db: Db, other: Db)
    requires a != b && Discerns(e, sql, db, other)
    ensures !HitIsRight(e, RunAll(e, ReadOnce(tenant, a, sql, db) + [Open(b, other)]), Ask(1, tenant, b, sql, 1))
  {
    SharedKey(e, tenant, a, sql, db, tenant, b, sql, other);
  }

  /** A session that was suspended and resumed has lost its data, not its version. */
  lemma {:induction false} ResumedSession<Db(!new), Res(!new)>(e: Engine<Db, Res>, tenant: string, session: string,
                                                               sql: string, db: Db, other: Db)
    requires Discerns(e, sql, db, other)
    ensures var steps := ReadOnce(tenant, session, sql, db) + [Resume(session, other)];
      !HitIsRight(e, RunAll(e, steps), Ask(1, tenant, session, sql, 1))
  {
    ReadOnceCaches(e, tenant, session, sql, db);
    RunAllStep(e, ReadOnce(tenant, session, sql, db), Resume(session, other));
  }

  /** A write submitted to the executor changes the data under the version of before. */
  lemma {:induction false} BackgroundWrite<Db(!new), Res(!new)>(e: Engine<Db, Res>, tenant: string, session: string,
                                                                sql: string, write: string, db: Db)
    requires Discerns(e, sql, db, After(e, sql, write, db))
    ensures var steps := ReadOnce(tenant, session, sql, db) + [RunWrite(session, write)];
      !HitIsRight(e, RunAll(e, steps), Ask(1, tenant, session, sql, 1))
  {
    ReadOnceCaches(e, tenant, session, sql, db);
    RunAllStep(e, ReadOnce(tenant, session, sql, db), RunWrite(session, write));
  }

  /** The statements one after the other, each looked up and run at once. */
  function AskAndRun<Db>(tenant: string, session: string, sqls: seq<string>): seq<Step<Db>> {
    if sqls == [] then []
    else
      var last := |sqls| - 1;
      AskAndRun(tenant, session, sqls[..last]) + [Ask(|sqls|, tenant, session, sqls[last], 0)] + [RunRead(|sqls|)]
  }

  /** A read whose result is stored only when all the statements have run. */
  function MissedWrites<Db>(tenant: string, session: string, sql: string, db: Db, sqls: seq<string>): seq<Step<Db>> {
    ReadStart(tenant, session, sql, db) + AskAndRun(tenant, session, sqls) + [Keep(0, 0, 300)]
  }

  /** The first read waits to be stored, and the statements have run. */
  ghost predicate Waiting<Db, Res>(s: Service<Db, Res>, session: string, db: Db, read: Pending<Res>, n: nat) {
    && s.dbs == map[session := db] && s.versions == map[] && s.store == map[]
    && 0 in s.pending && s.pending[0] == read
    && forall id :: id in s.pending ==> id <= n
  }

  lemma {:induction false} OneMoreRuns<Db, Res>(e: Engine<Db, Res>, s: Service<Db, Res>, tenant: string,
                                                session: string, db: Db, read: Pending<Res>, sql: string, n: nat)
    requires Waiting(s, session, db, read, n)
    ensures var asked := Take(e, s, Ask(n + 1, tenant, session, sql, 0));
      Waiting(Take(e, asked, RunRead(n + 1)), session, e.run(sql, db).0, read, n + 1)
  {
    var asked := Take(e, s, Ask(n + 1, tenant, session, sql, 0));
    assert asked == s.(pending := s.pending[n + 1 := Keyed(Key(sql, tenant, 0), session)]) by {
      assert s.store - {Raw(Key(sql, tenant, 0))} == map[];
    }
  }

  lemma {:induction false} AllRun<Db, Res>(e: Engine<Db, Res>, steps: seq<Step<Db>>, tenant: string, session: string,
                                           db: Db, read: Pending<Res>, sqls: seq<string>)
    requires Waiting(RunAll(e, steps), session, db, read, 0)
    ensures Waiting(RunAll(e, steps + AskAndRun(tenant, session, sqls)), session, Follow(e, db, sqls), read, |sqls|)
    decreases |sqls|
  {
    if sqls == [] {
      assert steps + AskAndRun(tenant, session, []) == steps;
    } else {
      var last := |sqls| - 1;
      var before := steps + AskAndRun(tenant, session, sqls[..last]);
      var ask := Ask(|sqls|, tenant, session, sqls[last], 0);
      AllRun(e, steps, tenant, session, db, read, sqls[..last]);
      RunAllStep(e, before, ask);
      RunAllStep(e, before + [ask], RunRead(|sqls|));
      assert steps + AskAndRun(tenant, session, sqls) == before + [ask] + [RunRead(|sqls|)];
      OneMoreRuns(e, RunAll(e, before), tenant, session, Follow(e, db, sqls[..last]), read, sqls[last], last);
    }
  }

  /** Statements the pattern misses that change what a read returns leave its old result behind. */
  lemma {:induction false} UnrecognisedWrites<Db(!new), Res(!new)>(e: Engine<Db, Res>, tenant: string, session: string,
                                                                   sql: string, db: Db, sqls: seq<string>)
    requires e.run(sql, db).1.Some?
    requires e.run(sql, Follow(e, e.run(sql, db).0, sqls)).1 != e.run(sql, db).1
    ensures !HitIsRight(e, RunAll(e, MissedWrites(tenant, session, sql, db, sqls)), Ask(0, tenant, session, sql, 1))
  {
    var start, read := ReadStart(tenant, session, sql, db), Read(e, tenant, session, sql, db);
    ReadStarts(e, tenant, session, sql, db);
    AllRun(e, start, tenant, session, e.run(sql, db).0, read, sqls);
    RunAllStep(e, start + AskAndRun(tenant, session, sqls), Keep(0, 0, 300));
  }

  lemma {:induction false} AskAndRunAllowed<Db(!new), Res(!new)>(e: Engine<Db, Res>, d: Deployment,
                                                                 tenant: string, session: string, sqls: seq<string>)
    requires d.uses(tenant, session) && Reads(e, sqls)
    ensures var steps := AskAndRun(tenant, session, sqls);
      AllAllowed(e, d, steps) && forall step :: step in steps ==> !step.RunWrite?
    decreases |sqls|
  {
    if sqls != [] {
      AskAndRunAllowed(e, d, tenant, session, sqls[..|sqls| - 1]);
    }
  }

  // ----- Why a write must run right after its bump -----

  /** A counter: "w" adds one, anything else reads it. */
  const Counter: Engine<int, int> := Engine(
    (sql: string, db: int) => if sql == "w" then (db + 1, Some(0)) else (db, Some(db)),
    (sql: string) => sql == "w",
    (sql: string) => false)

  function BumpedThenRead(): seq<Step<int>> {
    [Open("a", 7)] + [Bump("a")] + [Ask(0, "t", "a", "q", 0)] + [RunRead(0)] + [Keep(0, 0, 300)]
  }

  lemma BumpedReadCaches()
    ensures RunAll(Counter, BumpedThenRead()) ==
      Service(map["a" := 7], map["a" := 1], map[Raw(Key("q", "t", 1)) := Entry(7, 300)], map[])
  {
    var open: seq<Step<int>> := [Open("a", 7)];
    var bump: seq<Step<int>> := open + [Bump("a")];
    var asked: seq<Step<int>> := bump + [Ask(0, "t", "a", "q", 0)];
    assert [] + open == open;
    RunAllStep(Counter, [], Open("a", 7));
    RunAllStep(Counter, open, Bump("a"));
    RunAllStep(Counter, bump, Ask(0, "t", "a", "q", 0));
    assert RunAll(Counter, bump) == Service(map["a" := 7], map["a" := 1], map[], map[]);
    BumpedReadRuns(asked);
  }

  lemma BumpedReadRuns(asked: seq<Step<int>>)
    requires RunAll(Counter, asked) ==
      Service(map["a" := 7], map["a" := 1], map[], map[0 := Keyed(Key("q", "t", 1), "a")])
    ensures RunAll(Counter, asked + [RunRead(0)] + [Keep(0, 0, 300)]) ==
      Service(map["a" := 7], map["a" := 1], map[Raw(Key("q", "t", 1)) := Entry(7, 300)], map[])
  {
    RunAllStep(Counter, asked, RunRead(0));
    RunAllStep(Counter, asked + [RunRead(0)], Keep(0, 0, 300));
    assert RunAll(Counter, asked + [RunRead(0)]) ==
      Service(map["a" := 7], map["a" := 1], map[], map[0 := Ran(Key("q", "t", 1), "a", 7)]);
  }

  /** What the handler avoids by not yielding there: a read that got in between the bump of a write
      and its run would be cached, before the write, under the version meant for after it. */
  lemma ReadInsideWrite()
    ensures ReadsKeepData(Counter)
    ensures var s := RunAll(Counter, BumpedThenRead() + [RunWrite("a", "w")]);
      Hit(s, Ask(1, "t", "a", "q", 1)) == Some(7) && Counter.run("q", s.dbs["a"]).1 == Some(8)
  {
    BumpedReadCaches();
    RunAllStep(Counter, BumpedThenRead(), RunWrite("a", "w"));
  }
}
