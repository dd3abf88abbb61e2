/** The timed result cache (pondapi/result_cache.py). */
module ResultCaches {
  import opened Clocks
  import opened Options

  datatype Entry<Res> = Entry(data: Res, expires: int)

  type Store<Res> = map<string, Entry<Res>>

  function Cached<Res>(store: Store<Res>, key: string, now: int): Option<Res> {
    if key in store && now <= store[key].expires then Some(store[key].data) else None
  }

  /** get, set, invalidate and clear. */
  datatype CacheOp<Res> = Look(key: string) | Put(key: string, data: Res) | Forget(key: string) | ForgetAll

  /** The store after an operation, and what a lookup answers. */
  function CacheStep<Res>(store: Store<Res>, e: Event<CacheOp<Res>>, ttl: int): (Store<Res>, Option<Res>) {
    match e.op
    case Look(key) =>
      var data := Cached(store, key, e.now);
      (if key in store && data.None? then store - {key} else store, data)
    case Put(key, data) => (store[key := Entry(data, e.now + ttl)], None)
    case Forget(key) => (store - {key}, None)
    case ForgetAll => (map[], None)
  }

  class ResultCache<Res> {
    const ttl: int
    var store: Store<Res>

    constructor (ttl: int)
      ensures this.ttl == ttl && store == map[]
    {
      this.ttl := ttl;
      store := map[];
    }

    /** An expired entry is deleted when it is looked up. */
    method Get(key: string, now: int) returns (data: Option<Res>)
      modifies this
      ensures store == CacheStep(old(store), Event(now, Look(key)), ttl).0
      ensures data == CacheStep(old(store), Event(now, Look(key)), ttl).1
    {
      if key !in store {
        return None;
      }
      var entry := store[key];
      if now > entry.expires {
        store := store - {key};
        return None;
      }
      return Some(entry.data);
    }

    method Set(key: string, data: Res, now: int)
      modifies this
      ensures store == CacheStep(old(store), Event(now, Put(key, data)), ttl).0
    {
      store := store[key := Entry(data, now + ttl)];
    }

    method Invalidate(key: string, now: int)
      modifies this
      ensures store == CacheStep(old(store), Event(now, Forget(key)), ttl).0
    {
      store := store - {key};
    }

    method Clear(now: int)
      modifies this
      ensures store == CacheStep(old(store), Event(now, ForgetAll), ttl).0
    {
      store := map[];
    }
  }

  // ----- The cache as a function of its history -----

  function CacheRun<Res>(events: seq<Event<CacheOp<Res>>>, ttl: int): Store<Res> {
    if events == [] then map[]
    else
      var last := |events| - 1;
      CacheStep(CacheRun(events[..last], ttl), events[last], ttl).0
  }

  datatype Stored<Res> = Stored(data: Res, at: int)

  /** What was last stored under a key and not forgotten since, and when. */
  function LastStored<Res>(events: seq<Event<CacheOp<Res>>>, key: string): Option<Stored<Res>> {
    if events == [] then None
    else
      var last := |events| - 1;
      match events[last].op
      case Put(k, data) => if k == key then Some(Stored(data, events[last].now)) else LastStored(events[..last], key)
      case Forget(k) => if k == key then None else LastStored(events[..last], key)
      case ForgetAll => None
      case Look(_) => LastStored(events[..last], key)
  }

  /** Events in order, none of them after now. */
  ghost predicate UpTo<Op>(events: seq<Event<Op>>, now: int) {
    && (forall i, j :: 0 <= i < j < |events| ==> events[i].now <= events[j].now)
    && (forall i :: 0 <= i < |events| ==> events[i].now <= now)
  }

  /** An entry in the store is the one last stored; and one that is missing was forgotten, or has
      outlived its time. */
  lemma {:induction false} StoreIsHistory<Res>(events: seq<Event<CacheOp<Res>>>, ttl: int, key: string, now: int)
    requires UpTo(events, now)
    ensures var store, last := CacheRun(events, ttl), LastStored(events, key);
      && (key in store ==> last.Some? && store[key] == Entry(last.value.data, last.value.at + ttl))
      && (key !in store && last.Some? ==> now > last.value.at + ttl)
    decreases |events|
  {
    if events != [] {
      var e := events[|events| - 1];
      StoreIsHistory(events[..|events| - 1], ttl, key, e.now);
    }
  }

  /** After any operations a lookup answers what was last stored under its key, if that was not
      forgotten since and is at most the time to live ago, and nothing otherwise. */
  lemma {:induction false} LookIff<Res>(events: seq<Event<CacheOp<Res>>>, ttl: int, key: string, now: int, data: Res)
    requires UpTo(events, now)
    ensures CacheStep(CacheRun(events, ttl), Event(now, Look(key)), ttl).1 == Some(data) <==>
      exists at :: LastStored(events, key) == Some(Stored(data, at)) && now <= at + ttl
  {
    StoreIsHistory(events, ttl, key, now);
  }
}
