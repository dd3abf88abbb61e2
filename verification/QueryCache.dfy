/** The versioned use the /query endpoint (app.py) makes of the result cache. Requests interleave: a
    read fixes its key, runs and stores its result in three separate steps, and a write bumps the
    version and runs in two. */
module QueryCache {
  import opened Options
  import opened CacheKeys
  import opened ResultCaches

  // ----- The endpoint as interleaved steps -----

  /** Deterministic execution of a statement against a session's data, None for a statement that
      fails; the test the endpoint uses to recognise writes; and the sandbox's test, which refuses
      a statement before it runs. */
  datatype Engine<!Db, Res> = Engine(
    execute: (string, Db) -> (Db, Option<Res>),
    isWrite: string -> bool,
    isBlocked: string -> bool)
  {
    function run(sql: string, db: Db): (Db, Option<Res>) {
      if isBlocked(sql) then (db, None) else execute(sql, db)
    }
  }

  /** A read on its way: its key fixed, then its result known. */
  datatype Pending<Res> =
    | Keyed(key: Key, session: string)
    | Ran(key: Key, session: string, data: Res)

  datatype Service<Db, Res> = Service(
    dbs: map<string, Db>,
    versions: map<string, nat>,
    store: Store<Res>,
    pending: map<nat, Pending<Res>>)
  {
    function Version(session: string): nat {
      if session in versions then versions[session] else 0
    }
  }

  datatype Step<Db> =
    | Open(session: string, db: Db)
    | Bump(session: string)
    | RunWrite(session: string, sql: string)
    | Ask(id: nat, tenant: string, session: string, sql: string, now: int)
    | RunRead(id: nat)
    | Keep(id: nat, now: int, ttl: int)
    | Resume(session: string, db: Db)

  function KeyOf<Db, Res>(s: Service<Db, Res>, tenant: string, session: string, sql: string): Key {
    Key(sql, tenant, s.Version(session))
  }

  /** What a request step answers from the cache. */
  function Hit<Db, Res>(s: Service<Db, Res>, step: Step<Db>): Option<Res> {
    if step.Ask? && step.session in s.dbs then
      Cached(s.store, Raw(KeyOf(s, step.tenant, step.session, step.sql)), step.now)
    else None
  }

  function Take<Db, Res>(e: Engine<Db, Res>, s: Service<Db, Res>, step: Step<Db>): Service<Db, Res> {
    match step
    case Open(session, db) =>
      if session in s.dbs then s else s.(dbs := s.dbs[session := db])
    case Bump(session) =>
      if session !in s.dbs then s
      else s.(versions := s.versions[session := s.Version(session) + 1])
    case RunWrite(session, sql) =>
      if session !in s.dbs then s
      else s.(dbs := s.dbs[session := e.run(sql, s.dbs[session]).0])
    case Ask(id, tenant, session, sql, now) =>
      if session !in s.dbs || id in s.pending then s
      else
        var key := KeyOf(s, tenant, session, sql);
        if Cached(s.store, Raw(key), now).Some? then s
        else s.(store := s.store - {Raw(key)}, pending := s.pending[id := Keyed(key, session)])
    case RunRead(id) =>
      if id !in s.pending || !s.pending[id].Keyed? || s.pending[id].session !in s.dbs then s
      else
        var p := s.pending[id];
        var (db, result) := e.run(p.key.sql, s.dbs[p.session]);
        s.(dbs := s.dbs[p.session := db],
           pending := if result.Some? then s.pending[id := Ran(p.key, p.session, result.value)]
                      else s.pending - {id})
    case Keep(id, now, ttl) =>
      if id !in s.pending || !s.pending[id].Ran? then s
      else s.(store := s.store[Raw(s.pending[id].key) := Entry(s.pending[id].data, now + ttl)],
              pending := s.pending - {id})
    // A suspended session comes back on a fresh connection, its data gone.
    case Resume(session, db) =>
      if session !in s.dbs then s else s.(dbs := s.dbs[session := db])
  }

  /** The data after the given statements. */
  function Follow<Db, Res>(e: Engine<Db, Res>, db: Db, sqls: seq<string>): Db {
    if sqls == [] then db
    else
      var last := |sqls| - 1;
      e.run(sqls[last], Follow(e, db, sqls[..last])).0
  }

  predicate Reads<Db, Res>(e: Engine<Db, Res>, sqls: seq<string>) {
    forall i :: 0 <= i < |sqls| ==> !e.isWrite(sqls[i])
  }

  /** `data` is what the statement returns now, and after any statements not recognised as writes. */
  ghost predicate Lasts<Db, Res>(e: Engine<Db, Res>, db: Db, sql: string, data: Res) {
    forall sqls :: Reads(e, sqls) ==> e.run(sql, Follow(e, db, sqls)).1 == Some(data)
  }

  /** What a read returned, it would return again until the next recognised write: no statement
      the pattern misses changes what reads return. */
  ghost predicate Steady<Db(!new), Res(!new)>(e: Engine<Db, Res>) {
    forall sql, db :: !e.isWrite(sql) && e.run(sql, db).1.Some? ==>
      Lasts(e, e.run(sql, db).0, sql, e.run(sql, db).1.value)
  }

  /** Every statement that changes data is recognised as a write. */
  ghost predicate ReadsKeepData<Db(!new), Res(!new)>(e: Engine<Db, Res>) {
    forall sql, db :: !e.isWrite(sql) ==> e.run(sql, db).0 == db
  }

  lemma {:induction false} FollowFront<Db, Res>(e: Engine<Db, Res>, db: Db, sql: string, sqls: seq<string>)
    ensures Follow(e, db, [sql] + sqls) == Follow(e, e.run(sql, db).0, sqls)
    decreases |sqls|
  {
    if sqls == [] {
      assert [sql] + sqls == [sql] && [sql][..0] == [];
      assert Follow(e, db, []) == db;
    } else {
      var last := |sqls| - 1;
      assert ([sql] + sqls)[..last + 1] == [sql] + sqls[..last];
      FollowFront(e, db, sql, sqls[..last]);
    }
  }

  lemma {:induction false} LastsOn<Db, Res>(e: Engine<Db, Res>, db: Db, sql: string, data: Res, next: string)
    requires Lasts(e, db, sql, data) && !e.isWrite(next)
    ensures Lasts(e, e.run(next, db).0, sql, data)
  {
    forall sqls | Reads(e, sqls)
      ensures e.run(sql, Follow(e, e.run(next, db).0, sqls)).1 == Some(data)
    {
      FollowFront(e, db, next, sqls);
      assert Reads(e, [next] + sqls);
    }
  }

  lemma LastsNow<Db, Res>(e: Engine<Db, Res>, db: Db, sql: string, data: Res)
    requires Lasts(e, db, sql, data)
    ensures e.run(sql, db).1 == Some(data)
  {
    assert Reads(e, []) && Follow(e, db, []) == db;
  }

  lemma {:induction false} KeptByReads<Db(!new), Res(!new)>(e: Engine<Db, Res>, db: Db, sqls: seq<string>)
    requires ReadsKeepData(e) && Reads(e, sqls)
    ensures Follow(e, db, sqls) == db
    decreases |sqls|
  {
    if sqls != [] {
      KeptByReads(e, db, sqls[..|sqls| - 1]);
    }
  }

  /** In particular when those statements change no data at all. */
  lemma {:induction false} KeepingIsSteady<Db(!new), Res(!new)>(e: Engine<Db, Res>)
    requires ReadsKeepData(e)
    ensures Steady(e)
  {
    forall sql, db | !e.isWrite(sql) && e.run(sql, db).1.Some?
      ensures Lasts(e, e.run(sql, db).0, sql, e.run(sql, db).1.value)
    {
      var data := e.run(sql, db).1.value;
      forall sqls | Reads(e, sqls)
        ensures e.run(sql, Follow(e, e.run(sql, db).0, sqls)).1 == Some(data)
      {
        KeptByReads(e, e.run(sql, db).0, sqls);
      }
    }
  }

  /** No tenant served ends in another one after a NUL, so keys tell them apart. */
  ghost predicate KeysApart(home: string -> Option<string>) {
    forall t, u :: home(t).Some? && home(u).Some? ==> !EndsIn(t, u)
  }

  lemma ApartRaws(home: string -> Option<string>, key: Key, key': Key)
    requires KeysApart(home) && home(key.tenant).Some? && home(key'.tenant).Some? && Raw(key) == Raw(key')
    ensures key == key'
  {
    SameRaw(key, key');
  }

  /** What the coherence theorem asks of a step: a tenant has one session, its `home`, writes and
      reads are told apart, and no session loses its data. */
  predicate Orderly<Db, Res>(e: Engine<Db, Res>, home: string -> Option<string>, step: Step<Db>) {
    match step
    case Ask(_, tenant, session, sql, _) => home(tenant) == Some(session) && !e.isWrite(sql)
    case Resume(_, _) => false
    case _ => true
  }

  /** `data` is what running the keyed statement returns, now and until the next write. */
  ghost predicate Right<Db, Res>(e: Engine<Db, Res>, home: string -> Option<string>, dbs: map<string, Db>,
                                 key: Key, data: Res)
  {
    && home(key.tenant).Some? && home(key.tenant).value in dbs
    && Lasts(e, dbs[home(key.tenant).value], key.sql, data)
  }

  /** Reads wait on their tenant's own session. */
  ghost predicate Placed<Db(!new), Res(!new)>(e: Engine<Db, Res>, home: string -> Option<string>, s: Service<Db, Res>) {
    forall id :: id in s.pending ==>
      var p := s.pending[id];
      home(p.key.tenant) == Some(p.session) && p.session in s.dbs && !e.isWrite(p.key.sql)
  }

  ghost predicate StoreRight<Db(!new), Res(!new)>(e: Engine<Db, Res>, home: string -> Option<string>,
                                                  s: Service<Db, Res>)
  {
    forall key: Key :: home(key.tenant).Some? && Raw(key) in s.store ==>
      && key.version <= s.Version(home(key.tenant).value)
      && (key.version == s.Version(home(key.tenant).value) ==> Right(e, home, s.dbs, key, s.store[Raw(key)].data))
  }

  ghost predicate PendingRight<Db(!new), Res(!new)>(e: Engine<Db, Res>, home: string -> Option<string>,
                                                    s: Service<Db, Res>)
  {
    forall id :: id in s.pending ==>
      var p := s.pending[id];
      && p.key.version <= s.Version(p.session)
      && (p.Ran? && p.key.version == s.Version(p.session) ==> Right(e, home, s.dbs, p.key, p.data))
  }

  /** Whatever carries the current version is right; older versions are never asked for again. */
  ghost predicate Coherent<Db(!new), Res(!new)>(e: Engine<Db, Res>, home: string -> Option<string>,
                                                s: Service<Db, Res>)
  {
    Placed(e, home, s) && StoreRight(e, home, s) && PendingRight(e, home, s)
  }

  /** Nothing carries the current version of the session, so nothing depends on its data. */
  ghost predicate Unread<Db(!new), Res(!new)>(home: string -> Option<string>, s: Service<Db, Res>, session: string) {
    && (forall key: Key :: home(key.tenant) == Some(session) && Raw(key) in s.store ==>
          key.version < s.Version(session))
    && (forall id :: id in s.pending && s.pending[id].session == session ==>
          s.pending[id].key.version < s.Version(session))
  }

  /** Since the session's version was last bumped, no read of it has fixed its key. */
  predicate Bumped<Db>(steps: seq<Step<Db>>, session: string) {
    steps != [] &&
    var last := |steps| - 1;
    match steps[last]
    case Bump(bumped) => bumped == session || Bumped(steps[..last], session)
    case Ask(_, _, asked, _, _) => asked != session && Bumped(steps[..last], session)
    case _ => Bumped(steps[..last], session)
  }

  /** Every write bumps the version of its session before it runs, with no read keyed in between. */
  predicate BumpsFirst<Db>(steps: seq<Step<Db>>) {
    forall i :: 0 <= i < |steps| && steps[i].RunWrite? ==> Bumped(steps[..i], steps[i].session)
  }

  lemma BumpKeepsCoherent<Db(!new), Res(!new)>(e: Engine<Db, Res>, home: string -> Option<string>,
                                               s: Service<Db, Res>, step: Step<Db>)
    requires Coherent(e, home, s) && step.Bump?
    ensures Coherent(e, home, Take(e, s, step))
    ensures Unread(home, Take(e, s, step), step.session)
  {
  }

  lemma WriteKeepsCoherent<Db(!new), Res(!new)>(e: Engine<Db, Res>, home: string -> Option<string>,
                                                s: Service<Db, Res>, step: Step<Db>)
    requires Coherent(e, home, s) && step.RunWrite? && Unread(home, s, step.session)
    ensures Coherent(e, home, Take(e, s, step))
  {
  }

  lemma {:induction false} KeepKeepsUnread<Db(!new), Res(!new)>(e: Engine<Db, Res>, home: string -> Option<string>,
                                                                s: Service<Db, Res>, step: Step<Db>, session: string)
    requires KeysApart(home) && Placed(e, home, s) && step.Keep? && Unread(home, s, session)
    ensures Unread(home, Take(e, s, step), session)
  {
    if step.id in s.pending && s.pending[step.id].Ran? {
      var stored := s.pending[step.id].key;
      forall key: Key | home(key.tenant) == Some(session) && Raw(key) == Raw(stored)
        ensures key == stored
      {
        ApartRaws(home, key, stored);
      }
    }
  }

  /** Only a read that fixes its key can end a session's being unread. */
  lemma {:induction false} StepKeepsUnread<Db(!new), Res(!new)>(e: Engine<Db, Res>, home: string -> Option<string>,
                                                                s: Service<Db, Res>, step: Step<Db>, session: string)
    requires KeysApart(home) && Placed(e, home, s) && Orderly(e, home, step) && Unread(home, s, session)
    requires step.Ask? ==> step.session != session
    ensures Unread(home, Take(e, s, step), session)
  {
    if step.Keep? {
      KeepKeepsUnread(e, home, s, step, session);
    }
  }

  lemma AskKeepsCoherent<Db(!new), Res(!new)>(e: Engine<Db, Res>, home: string -> Option<string>,
                                              s: Service<Db, Res>, step: Step<Db>)
    requires Coherent(e, home, s) && Orderly(e, home, step) && step.Ask?
    ensures Coherent(e, home, Take(e, s, step))
  {
  }

  lemma {:induction false} RunKeepsCoherent<Db(!new), Res(!new)>(e: Engine<Db, Res>, home: string -> Option<string>,
                                              s: Service<Db, Res>, step: Step<Db>)
    requires Steady(e) && Coherent(e, home, s) && step.RunRead?
    ensures Coherent(e, home, Take(e, s, step))
  {
    var id := step.id;
    if id in s.pending && s.pending[id].Keyed? && s.pending[id].session in s.dbs {
      var p := s.pending[id];
      var (db, result) := e.run(p.key.sql, s.dbs[p.session]);
      var s' := Take(e, s, step);
      assert s'.dbs == s.dbs[p.session := db] && s'.versions == s.versions && s'.store == s.store;
      forall key: Key, data: Res | Right(e, home, s.dbs, key, data)
        ensures Right(e, home, s'.dbs, key, data)
      {
        ReadKeepsRight(e, home, s.dbs, p.session, p.key.sql, key, data);
      }
      if result.Some? {
        assert Right(e, home, s'.dbs, p.key, result.value);
      }
      RanKeepsCoherent(e, home, s, s', id);
    }
  }

  lemma {:induction false} ReadKeepsRight<Db(!new), Res(!new)>(e: Engine<Db, Res>, home: string -> Option<string>,
                                                               dbs: map<string, Db>, session: string, sql: string,
                                                               key: Key, data: Res)
    requires Right(e, home, dbs, key, data) && !e.isWrite(sql) && session in dbs
    ensures Right(e, home, dbs[session := e.run(sql, dbs[session]).0], key, data)
  {
    if home(key.tenant) == Some(session) {
      LastsOn(e, dbs[session], key.sql, data, sql);
    }
  }

  /** Where everything right stays right, a result that is right can take its read's place. */
  lemma {:induction false} RanKeepsCoherent<Db(!new), Res(!new)>(e: Engine<Db, Res>, home: string -> Option<string>,
                                                                 s: Service<Db, Res>, s': Service<Db, Res>, id: nat)
    requires Coherent(e, home, s) && id in s.pending
    requires s'.versions == s.versions && s'.store == s.store && s.dbs.Keys <= s'.dbs.Keys
    requires forall key, data :: Right(e, home, s.dbs, key, data) ==> Right(e, home, s'.dbs, key, data)
    requires var p := s.pending[id];
      || s'.pending == s.pending - {id}
      || exists data :: s'.pending == s.pending[id := Ran(p.key, p.session, data)]
           && Right(e, home, s'.dbs, p.key, data)
    ensures Coherent(e, home, s')
  {
  }

  /** Storing what is right, under the key of a tenant served, keeps every entry right. */
  lemma {:induction false} StoreKeepsRight<Db(!new), Res(!new)>(e: Engine<Db, Res>, home: string -> Option<string>,
                                                                s: Service<Db, Res>, key: Key, data: Res, expires: int)
    requires KeysApart(home) && StoreRight(e, home, s) && home(key.tenant).Some?
    requires key.version <= s.Version(home(key.tenant).value)
    requires key.version == s.Version(home(key.tenant).value) ==> Right(e, home, s.dbs, key, data)
    ensures StoreRight(e, home, s.(store := s.store[Raw(key) := Entry(data, expires)]))
  {
    forall k: Key | home(k.tenant).Some? && Raw(k) == Raw(key)
      ensures k == key
    {
      ApartRaws(home, k, key);
    }
  }

  lemma {:induction false} KeepKeepsCoherent<Db(!new), Res(!new)>(e: Engine<Db, Res>, home: string -> Option<string>,
                                                                  s: Service<Db, Res>, step: Step<Db>)
    requires KeysApart(home) && Coherent(e, home, s) && step.Keep?
    ensures Coherent(e, home, Take(e, s, step))
  {
    if step.id in s.pending && s.pending[step.id].Ran? {
      var p := s.pending[step.id];
      StoreKeepsRight(e, home, s, p.key, p.data, step.now + step.ttl);
      assert StoreRight(e, home, Take(e, s, step));
    }
  }

  lemma OpenKeepsCoherent<Db(!new), Res(!new)>(e: Engine<Db, Res>, home: string -> Option<string>,
                                               s: Service<Db, Res>, step: Step<Db>)
    requires Coherent(e, home, s) && step.Open?
    ensures Coherent(e, home, Take(e, s, step))
  {
  }

  lemma {:induction false} StepKeepsCoherent<Db(!new), Res(!new)>(e: Engine<Db, Res>, home: string -> Option<string>,
                                               s: Service<Db, Res>, step: Step<Db>)
    requires Steady(e) && KeysApart(home) && Coherent(e, home, s) && Orderly(e, home, step)
    requires step.RunWrite? ==> Unread(home, s, step.session)
    ensures Coherent(e, home, Take(e, s, step))
  {
    match step
    case Open(_, _) => OpenKeepsCoherent(e, home, s, step);
    case Bump(_) => BumpKeepsCoherent(e, home, s, step);
    case RunWrite(_, _) => WriteKeepsCoherent(e, home, s, step);
    case Ask(_, _, _, _, _) => AskKeepsCoherent(e, home, s, step);
    case RunRead(_) => RunKeepsCoherent(e, home, s, step);
    case Keep(_, _, _) => KeepKeepsCoherent(e, home, s, step);
  }

  /** If the step is answered from the cache, then as running the statement now would answer it. */
  ghost predicate HitIsRight<Db, Res>(e: Engine<Db, Res>, s: Service<Db, Res>, step: Step<Db>) {
    Hit(s, step).Some? ==> e.run(step.sql, s.dbs[step.session]).1 == Hit(s, step)
  }

  lemma {:induction false} CoherentHits<Db(!new), Res(!new)>(e: Engine<Db, Res>, home: string -> Option<string>,
                                        s: Service<Db, Res>, step: Step<Db>)
    requires Coherent(e, home, s) && Orderly(e, home, step)
    ensures HitIsRight(e, s, step)
  {
    if Hit(s, step).Some? {
      LastsNow(e, s.dbs[step.session], step.sql, Hit(s, step).value);
    }
  }

  function Start<Db, Res>(): Service<Db, Res> {
    Service(map[], map[], map[], map[])
  }

  function RunAll<Db, Res>(e: Engine<Db, Res>, steps: seq<Step<Db>>): Service<Db, Res> {
    if steps == [] then Start()
    else
      var last := |steps| - 1;
      Take(e, RunAll(e, steps[..last]), steps[last])
  }

  lemma {:induction false} RunsAreCoherent<Db(!new), Res(!new)>(e: Engine<Db, Res>, home: string -> Option<string>,
                                                               steps: seq<Step<Db>>)
    requires Steady(e) && KeysApart(home) && BumpsFirst(steps)
    requires forall i :: 0 <= i < |steps| ==> Orderly(e, home, steps[i])
    ensures Coherent(e, home, RunAll(e, steps))
    ensures forall session :: Bumped(steps, session) ==> Unread(home, RunAll(e, steps), session)
  {
    if steps != [] {
      var last := |steps| - 1;
      var before := RunAll(e, steps[..last]);
      assert forall i :: 0 <= i < last ==> steps[..last][..i] == steps[..i];
      RunsAreCoherent(e, home, steps[..last]);
      StepKeepsCoherent(e, home, before, steps[last]);
      forall session | Bumped(steps, session)
        ensures Unread(home, RunAll(e, steps), session)
      {
        if steps[last] == Bump(session) {
          BumpKeepsCoherent(e, home, before, steps[last]);
        } else {
          StepKeepsUnread(e, home, before, steps[last], session);
        }
      }
    }
  }

  /** Cache coherence: in every interleaving of orderly steps in which writes bump first, also one
      where a read's result is stored after later writes, every hit equals re-execution, for
      tenants whose keys do not clash. */
  lemma {:induction false} EveryHitIsRight<Db(!new), Res(!new)>(e: Engine<Db, Res>, home: string -> Option<string>,
                                            steps: seq<Step<Db>>, step: Step<Db>)
    requires Steady(e) && KeysApart(home) && BumpsFirst(steps)
    requires forall i :: 0 <= i < |steps| ==> Orderly(e, home, steps[i])
    requires Orderly(e, home, step)
    ensures HitIsRight(e, RunAll(e, steps), step)
  {
    RunsAreCoherent(e, home, steps);
    CoherentHits(e, home, RunAll(e, steps), step);
  }

  // ----- When there is a hit -----

  /** The step stores a result under the key. */
  predicate Stores<Db, Res>(s: Service<Db, Res>, step: Step<Db>, raw: string) {
    step.Keep? && step.id in s.pending && s.pending[step.id].Ran? && Raw(s.pending[step.id].key) == raw
  }

  predicate Timed<Db>(step: Step<Db>) {
    step.Ask? || step.Keep?
  }

  /** Lookups and stores in the order of the clock, none after now, with one time to live. */
  ghost predicate InTime<Db>(steps: seq<Step<Db>>, now: int, ttl: int) {
    && (forall i, j :: 0 <= i < j < |steps| && Timed(steps[i]) && Timed(steps[j]) ==> steps[i].now <= steps[j].now)
    && (forall i :: 0 <= i < |steps| && Timed(steps[i]) ==> steps[i].now <= now)
    && (forall i :: 0 <= i < |steps| && steps[i].Keep? ==> steps[i].ttl == ttl)
  }

  /** Some step of the run stored a result under the key, at most the time to live ago. */
  ghost predicate StoredRecently<Db, Res>(e: Engine<Db, Res>, steps: seq<Step<Db>>, ttl: int, raw: string, now: int) {
    exists i :: 0 <= i < |steps| && Stores(RunAll(e, steps[..i]), steps[i], raw) && now <= steps[i].now + ttl
  }

  lemma {:induction false} OneMoreStored<Db, Res>(e: Engine<Db, Res>, steps: seq<Step<Db>>, ttl: int,
                                                  raw: string, now: int)
    requires steps != []
    ensures var last := |steps| - 1;
      StoredRecently(e, steps, ttl, raw, now) <==>
        StoredRecently(e, steps[..last], ttl, raw, now)
        || (Stores(RunAll(e, steps[..last]), steps[last], raw) && now <= steps[last].now + ttl)
  {
    var last := |steps| - 1;
    assert forall i :: 0 <= i < last ==> steps[..last][..i] == steps[..i];
    if i :| 0 <= i < last && Stores(RunAll(e, steps[..last][..i]), steps[..last][i], raw)
            && now <= steps[..last][i].now + ttl {
      assert Stores(RunAll(e, steps[..i]), steps[i], raw);
    }
    if i :| 0 <= i < |steps| && i != last && Stores(RunAll(e, steps[..i]), steps[i], raw) && now <= steps[i].now + ttl {
      assert Stores(RunAll(e, steps[..last][..i]), steps[..last][i], raw);
    }
  }

  /** A step stores an entry, or leaves whatever a lookup from then on can still find. */
  lemma {:induction false} StepCaches<Db, Res>(e: Engine<Db, Res>, s: Service<Db, Res>, step: Step<Db>, ttl: int,
                                               raw: string, now: int)
    requires Timed(step) ==> step.now <= now
    requires step.Keep? ==> step.ttl == ttl
    ensures Cached(Take(e, s, step).store, raw, now).Some? <==>
      if Stores(s, step, raw) then now <= step.now + ttl else Cached(s.store, raw, now).Some?
  {
    match step
    case Ask(_, _, _, _, _) =>
    case Keep(_, _, _) =>
    case _ => assert Take(e, s, step).store == s.store;
  }

  lemma {:induction false} CachedIffStored<Db, Res>(e: Engine<Db, Res>, steps: seq<Step<Db>>, ttl: int,
                                                    raw: string, now: int)
    requires InTime(steps, now, ttl)
    ensures Cached(RunAll(e, steps).store, raw, now).Some? <==> StoredRecently(e, steps, ttl, raw, now)
    decreases |steps|
  {
    if steps != [] {
      var before, step := steps[..|steps| - 1], steps[|steps| - 1];
      OneMoreStored(e, steps, ttl, raw, now);
      CachedIffStored(e, before, ttl, raw, now);
      StepCaches(e, RunAll(e, before), step, ttl, raw, now);
      if Stores(RunAll(e, before), step, raw) && StoredRecently(e, before, ttl, raw, now) {
        var i :| 0 <= i < |before| && Stores(RunAll(e, before[..i]), before[i], raw) && now <= before[i].now + ttl;
        assert before[i] == steps[i] && steps[i].now <= step.now;
      }
    }
  }

  /** In every interleaving, a request is answered from the cache if and only if a result was stored
      under its key at most the time to live ago. */
  lemma {:induction false} HitIff<Db, Res>(e: Engine<Db, Res>, steps: seq<Step<Db>>, ttl: int, step: Step<Db>)
    requires step.Ask? && InTime(steps, step.now, ttl) && step.session in RunAll(e, steps).dbs
    ensures var s := RunAll(e, steps);
      Hit(s, step).Some? <==>
      StoredRecently(e, steps, ttl, Raw(KeyOf(s, step.tenant, step.session, step.sql)), step.now)
  {
    var s := RunAll(e, steps);
    CachedIffStored(e, steps, ttl, Raw(KeyOf(s, step.tenant, step.session, step.sql)), step.now);
  }

  // ----- The endpoint as the handler runs it -----

  datatype Reply<Res> = BadRequest | NotFound | Forbidden | Rejected | Answer(data: Res, hit: bool)

  class QueryEndpoint<Db(!new), Res(!new)> {
    const engine: Engine<Db, Res>
    const cache: ResultCache<Res>
    const isBlank: string -> bool
    var dbs: map<string, Db>
    var workgroups: map<string, string>
    var versions: map<string, nat>

    constructor (engine: Engine<Db, Res>, cache: ResultCache<Res>, isBlank: string -> bool)
      ensures this.engine == engine && this.cache == cache && this.isBlank == isBlank
      ensures dbs == map[] && workgroups == map[] && versions == map[]
    {
      this.engine, this.cache, this.isBlank := engine, cache, isBlank;
      dbs, workgroups, versions := map[], map[], map[];
    }

    function Snapshot(): Service<Db, Res>
      reads this, cache
    {
      Service(dbs, versions, cache.store, map[])
    }

    function WorkgroupOf(session: string): string
      reads this
    {
      if session in workgroups then workgroups[session] else "default"
    }

    /** What the handler refuses before it looks at cache or version, None if nothing. */
    function Refusal(callerWorkgroup: Option<string>, session: string, sql: string, format: string): Option<Reply<Res>>
      reads this
    {
      if format != "json" || isBlank(sql) then Some(BadRequest)
      else if session !in dbs then Some(NotFound)
      else if callerWorkgroup.Some? && callerWorkgroup.value != WorkgroupOf(session) then Some(Forbidden)
      else None
    }

    /** 400 for another format or a blank statement, 404 for a session that is not there, 403 for a
        caller who names another workgroup than the session's, checked in that order. */
    lemma RefusedIff(callerWorkgroup: Option<string>, session: string, sql: string, format: string)
      ensures var refusal := Refusal(callerWorkgroup, session, sql, format);
        var malformed := format != "json" || isBlank(sql);
        var home := if session in workgroups then workgroups[session] else "default";
        && (refusal == Some(BadRequest) <==> malformed)
        && (refusal == Some(NotFound) <==> !malformed && session !in dbs)
        && (refusal == Some(Forbidden) <==>
              !malformed && session in dbs && callerWorkgroup != None && callerWorkgroup != Some(home))
        && (refusal == None <==>
              !malformed && session in dbs && (callerWorkgroup == None || callerWorkgroup == Some(home)))
    {
    }

    /** execute_query: a refusal, the cached data on a hit, else the result of running the
        statement, kept under the key fixed before it ran. */
    method ExecuteQuery(tenant: string, callerWorkgroup: Option<string>, session: string, sql: string, format: string,
                        now: int, later: int)
      returns (reply: Reply<Res>)
      modifies this`dbs, this`versions, cache
      ensures var refusal := old(Refusal(callerWorkgroup, session, sql, format));
        if refusal.Some? then Snapshot() == old(Snapshot()) && reply == refusal.value
        else (Snapshot(), reply) == Serve(engine, old(Snapshot()), tenant, session, sql, now, later + cache.ttl)
    {
      if format != "json" {
        return BadRequest;
      }
      if isBlank(sql) {
        return BadRequest;
      }
      if session !in dbs {
        return NotFound;
      }
      if callerWorkgroup.Some? && WorkgroupOf(session) != callerWorkgroup.value {
        return Forbidden;
      }
      var isWrite := engine.isWrite(sql);
      if isWrite {
        versions := versions[session := (if session in versions then versions[session] else 0) + 1];
      }
      var version := if session in versions then versions[session] else 0;
      var key := RawKey(sql, tenant, version);
      if !isWrite {
        var cached := cache.Get(key, now);
        assert cached == Cached(old(cache.store), key, now);
        if cached.Some? {
          return Answer(cached.value, true);
        }
        assert cache.store == old(cache.store) - {key};
      }
      var (db, result) := engine.run(sql, dbs[session]);
      dbs := dbs[session := db];
      if result.None? {
        return if engine.isBlocked(sql) then Forbidden else Rejected;
      }
      if !isWrite {
        cache.Set(key, result.value, later);
      }
      return Answer(result.value, false);
    }
  }

  /** One request served without interruption. */
  function Serve<Db, Res>(e: Engine<Db, Res>, s: Service<Db, Res>, tenant: string, session: string, sql: string,
                          now: int, expires: int): (Service<Db, Res>, Reply<Res>)
  {
    if session !in s.dbs then (s, NotFound)
    else
      var (db, result) := e.run(sql, s.dbs[session]);
      var reply :=
        if result.Some? then Answer(result.value, false) else if e.isBlocked(sql) then Forbidden else Rejected;
      var key := Raw(KeyOf(s, tenant, session, sql));
      if e.isWrite(sql) then (Take(e, Take(e, s, Bump(session)), RunWrite(session, sql)), reply)
      else if Cached(s.store, key, now).Some? then (s, Answer(Cached(s.store, key, now).value, true))
      else
        (s.(dbs := s.dbs[session := db],
            store := if result.Some? then (s.store - {key})[key := Entry(result.value, expires)] else s.store - {key}),
         reply)
  }

  /** Dropping a key keeps coherence. */
  lemma EvictKeepsCoherent<Db(!new), Res(!new)>(e: Engine<Db, Res>, home: string -> Option<string>,
                                                s: Service<Db, Res>, raw: string)
    requires Coherent(e, home, s)
    ensures Coherent(e, home, s.(store := s.store - {raw}))
  {
    var s' := s.(store := s.store - {raw});
  }

  /** For an orderly request to a coherent service, hit or miss, the data and the answer are what
      running the statement now gives, and the service stays coherent. */
  lemma {:induction false} ServedRight<Db(!new), Res(!new)>(e: Engine<Db, Res>, home: string -> Option<string>,
                                                            s: Service<Db, Res>, tenant: string, session: string,
                                                            sql: string, now: int, expires: int)
    requires ReadsKeepData(e) && KeysApart(home) && Coherent(e, home, s)
    requires session in s.dbs && home(tenant) == Some(session)
    ensures var (s', reply) := Serve(e, s, tenant, session, sql, now, expires);
      var (db, result) := e.run(sql, s.dbs[session]);
      && s'.dbs == s.dbs[session := db]
      && (match result
          case Some(data) => reply.Answer? && reply.data == data
          case None => reply == if e.isBlocked(sql) then Forbidden else Rejected)
      && Coherent(e, home, s')
  {
    if e.isWrite(sql) {
      BumpKeepsCoherent(e, home, s, Bump(session));
      WriteKeepsCoherent(e, home, Take(e, s, Bump(session)), RunWrite(session, sql));
    } else {
      var key := KeyOf(s, tenant, session, sql);
      assert s.dbs[session := s.dbs[session]] == s.dbs;
      if Cached(s.store, Raw(key), now).Some? {
        assert Right(e, home, s.dbs, key, s.store[Raw(key)].data);
        LastsNow(e, s.dbs[session], sql, s.store[Raw(key)].data);
      } else {
        var result := e.run(sql, s.dbs[session]).1;
        var evicted := s.(store := s.store - {Raw(key)});
        EvictKeepsCoherent(e, home, s, Raw(key));
        if result.Some? {
          KeepingIsSteady(e);
          assert Right(e, home, evicted.dbs, key, result.value);
          StoreKeepsRight(e, home, evicted, key, result.value, expires);
        }
      }
    }
  }

  // ----- When the handler answers from the cache -----

  datatype Query = Query(tenant: string, session: string, sql: string, now: int, later: int)

  function Handle<Db, Res>(e: Engine<Db, Res>, s: Service<Db, Res>, q: Query, ttl: int): (Service<Db, Res>, Reply<Res>)
  {
    Serve(e, s, q.tenant, q.session, q.sql, q.now, q.later + ttl)
  }

  /** The service after a run of admitted requests, one after the other. */
  function HandleAll<Db, Res>(e: Engine<Db, Res>, s: Service<Db, Res>, queries: seq<Query>, ttl: int): Service<Db, Res>
  {
    if queries == [] then s
    else
      var last := |queries| - 1;
      Handle(e, HandleAll(e, s, queries[..last], ttl), queries[last], ttl).0
  }

  function RawOf<Db, Res>(s: Service<Db, Res>, q: Query): string {
    Raw(KeyOf(s, q.tenant, q.session, q.sql))
  }

  /** The request is a read under that key, and is answered by running it. */
  predicate RunsRead<Db, Res>(e: Engine<Db, Res>, s: Service<Db, Res>, q: Query, ttl: int, raw: string) {
    var reply := Handle(e, s, q, ttl).1;
    !e.isWrite(q.sql) && RawOf(s, q) == raw && reply.Answer? && !reply.hit
  }

  ghost predicate QueriesInTime(queries: seq<Query>, now: int) {
    && (forall i :: 0 <= i < |queries| ==> queries[i].now <= queries[i].later <= now)
    && (forall i, j :: 0 <= i < j < |queries| ==> queries[i].later <= queries[j].now)
  }

  ghost predicate RanRecently<Db, Res>(e: Engine<Db, Res>, s: Service<Db, Res>, queries: seq<Query>, ttl: int,
                                       raw: string, now: int)
  {
    exists i :: 0 <= i < |queries| && RunsRead(e, HandleAll(e, s, queries[..i], ttl), queries[i], ttl, raw)
      && now <= queries[i].later + ttl
  }

  lemma {:induction false} OneMoreRan<Db, Res>(e: Engine<Db, Res>, s: Service<Db, Res>, queries: seq<Query>, ttl: int,
                                               raw: string, now: int)
    requires queries != []
    ensures var last := |queries| - 1;
      RanRecently(e, s, queries, ttl, raw, now) <==>
        RanRecently(e, s, queries[..last], ttl, raw, now)
        || (RunsRead(e, HandleAll(e, s, queries[..last], ttl), queries[last], ttl, raw)
            && now <= queries[last].later + ttl)
  {
    var last := |queries| - 1;
    assert forall i :: 0 <= i < last ==> queries[..last][..i] == queries[..i];
    if i :| 0 <= i < last && RunsRead(e, HandleAll(e, s, queries[..last][..i], ttl), queries[..last][i], ttl, raw)
            && now <= queries[..last][i].later + ttl {
      assert RunsRead(e, HandleAll(e, s, queries[..i], ttl), queries[i], ttl, raw);
    }
    if i :| 0 <= i < |queries| && i != last && RunsRead(e, HandleAll(e, s, queries[..i], ttl), queries[i], ttl, raw)
            && now <= queries[i].later + ttl {
      assert RunsRead(e, HandleAll(e, s, queries[..last][..i], ttl), queries[..last][i], ttl, raw);
    }
  }

  lemma {:induction false} HandleCaches<Db, Res>(e: Engine<Db, Res>, s: Service<Db, Res>, q: Query, ttl: int,
                                                 raw: string, now: int)
    requires q.now <= q.later <= now
    ensures Cached(Handle(e, s, q, ttl).0.store, raw, now).Some? <==>
      if RunsRead(e, s, q, ttl, raw) then now <= q.later + ttl else Cached(s.store, raw, now).Some?
  {
  }

  lemma {:induction false} CachedIffRan<Db, Res>(e: Engine<Db, Res>, s: Service<Db, Res>, queries: seq<Query>, ttl: int,
                                                 raw: string, now: int)
    requires s.store == map[] && QueriesInTime(queries, now)
    ensures Cached(HandleAll(e, s, queries, ttl).store, raw, now).Some? <==> RanRecently(e, s, queries, ttl, raw, now)
    decreases |queries|
  {
    if queries != [] {
      var before, q := queries[..|queries| - 1], queries[|queries| - 1];
      var st := HandleAll(e, s, before, ttl);
      OneMoreRan(e, s, queries, ttl, raw, now);
      CachedIffRan(e, s, before, ttl, raw, now);
      HandleCaches(e, st, q, ttl, raw, now);
    }
  }

  /** In any run of requests, an admitted read is answered from the cache if and only if a read under
      the same key ran and was stored at most the time to live ago. */
  lemma {:induction false} ServedFromCacheIff<Db, Res>(e: Engine<Db, Res>, s: Service<Db, Res>, queries: seq<Query>,
                                                       ttl: int, q: Query)
    requires s.store == map[] && QueriesInTime(queries, q.now)
    requires q.session in HandleAll(e, s, queries, ttl).dbs && !e.isWrite(q.sql)
    ensures var st := HandleAll(e, s, queries, ttl);
      var reply := Handle(e, st, q, ttl).1;
      (reply.Answer? && reply.hit) <==> RanRecently(e, s, queries, ttl, RawOf(st, q), q.now)
  {
    CachedIffRan(e, s, queries, ttl, RawOf(HandleAll(e, s, queries, ttl), q), q.now);
  }
}
