# PondDB, modelled and proved

PondDB is a server that gives agents SQL sessions and a shared memory. This project models the
parts of it whose behaviour spans many calls: the agent memory and its search, the versioned result
cache, the session life cycle and its quota ledger, three rate limiters and a login lockout, the
asynchronous execution protocol, and two small codecs. Each part is given as a function of its
state or its history; the classes and methods that work by changing things step by step are proved
to compute that function, and the lemmas say what holds over all inputs, all runs and all
interleavings.

SQL tables are sequences or maps of records, clocks are integers that never run backwards, floating
point is real arithmetic, and ids handed out by the server are fresh. `dafny verify dfyconfig.toml`
checks the whole project.

| file | contents |
|---|---|
| `Memories.dfy`, `Store.dfy` | the memory table, what each statement does to it, and the store as a class |
| `StableSort.dfy`, `TopK.dfy`, `Search.dfy`, `Filtering.dfy` | search: local top-k, two stable sorts, truncation; what filters let through |
| `Access.dfy` | grants, point access, and its agreement with search |
| `MemoryRuns.dfy` | whole runs of the memory service; cleanup cannot be observed by search |
| `CausalChain.dfy`, `Utility.dfy` | the bounded cycle check; feedback and decay |
| `CacheKeys.dfy`, `ResultCaches.dfy`, `QueryCache.dfy`, `Deployments.dfy` | cache keys; the timed cache; its use by the endpoint and its coherence under interleaving; which deployments it serves right |
| `Sessions.dfy`, `SessionTiming.dfy`, `Quota.dfy` | sessions and their stored mirror, watchdog and reaper in time, the quota ledger |
| `Windows.dfy`, `Limiters.dfy`, `Lockout.dfy` | sliding windows and the login lockout |
| `Executions.dfy` | submissions, workers and pollers as a step system |
| `StateToken.dfy`, `Names.dfy` | base64 and state tokens; slugs and table names |
| `Options.dfy`, `Sets.dfy`, `Clocks.dfy` | shared helpers |

Some expectations one would have of the code turn out not to hold, or only under a condition. The
model keeps the code as it is, shows an input where the expectation fails, and proves when it holds:

- The comment above the final sort of a search promises newest first among equals
  (`src/ponddb/memory/search.py:85`); the code gives oldest first, so the promise holds exactly
  for pools without ties (`Search.NewestFirstIffNoTies`). A row comes back twice exactly when two
  sources match it (`Search.NoDuplicatesIff`).
- Point access and search agree exactly when the caller has a name and the first grant met for
  each workgroup is its widest (`Access.AgreementIff`).
- The cycle check sees a cycle exactly when its chain passes through fewer than fifty ids
  (`CausalChain.FlagsIff`); it misses a ring of fifty (`CausalChain.RingOfFiftyUnnoticed`).
- The cleanups of a run can be observed exactly if some create takes a key one of them has freed
  (`MemoryRuns.CleanupObservableIff`).
- The result cache is right in all runs exactly when each tenant keeps to one session, no two
  tenants' keys clash, sessions are not suspended, no statement reaches them through the asynchronous
  executor, which bumps no version, and the write pattern catches every change that reads can see
  (`Deployments.AlwaysRightIff`). Each condition has its counterexample beside it. Two tenants' keys
  clash exactly when one ends in the other after a NUL (`CacheKeys.KeysCollideIff`).
- A suspended session is reaped exactly when it knows since when it is suspended
  (`SessionTiming.SuspendedGoesInRunIff`), which one restored from the store does not
  (`SessionTiming.RestartStopsReaping`).
- The quota ledger is exact exactly as long as no session ends by the dashboard or the reaper
  (`Quota.Conservation`); one that does keeps its slot for ever (`Quota.LeaksAreForever`,
  `Quota.LeaksLockOut`).
- The sorted-set limiter is the stricter one exactly for distinct arrival times
  (`Limiters.SetRefinesListIff`).
- The lazy lockout agrees with its history exactly when the threshold is positive or lockouts never
  end (`Lockout.RefinementIff`).

## Model

| member | source | states |
|---|---|---|
| Search.SearchMemories | src/ponddb/memory/search.py:39-104 | the search returns the specified list, counts one access for each row it returned and notes the time, and changes nothing else |
| Search.GlobalTopK | src/ponddb/memory/search.py:42-88 | for any grants and limit the result is the best `limit` of everything any source matches, although every source was cut to `limit` first; short results are complete; order is utility down, then creation time up |
| Search.CutEverySource | src/ponddb/memory/search.py:165-170 | cutting every workgroup query to its own top rows loses nothing for the merged top |
| TopK.CutFirst | src/ponddb/memory/search.py:165-170 | taking the best k of one part of a pool first does not change what the best k of the whole are |
| Search.SecondSortIsIdle | src/ponddb/memory/search.py:86-87 | the second stable sort leaves the order of the first |
| Search.NewestFirstIffNoTies | src/ponddb/memory/search.py:85-88 | the promised newest-first order among equals holds at every limit exactly when no two matching rows have one utility and different creation times |
| Search.NewestSurviveWithin | src/ponddb/memory/search.py:166-169 | inside one workgroup no row cut off is newer than a kept row of the same utility |
| Search.OldestSurviveBetween | src/ponddb/memory/search.py:86-88 | in the merged list no row cut off is older than a returned row of the same utility |
| Search.NoDuplicatesIff | src/ponddb/memory/search.py:61-88 | no memory comes back twice, at any limit, iff no row is matched by two of the sources |
| Search.OneSourceEach | src/ponddb/memory/search.py:61-83 | so none does if every workgroup is read through one entry |
| Filtering.OwnHitsUnfiltered | src/ponddb/memory/search.py:126-138 | without filters the own workgroup shows what is neither deleted nor expired, a private row only to its author or a nameless caller |
| Filtering.GrantHitsUnfiltered | src/ponddb/memory/search.py:60-83 | a grant shows the same, but nothing private, only its type if it has one, and nothing below its importance |
| Filtering.OwnFiltersNarrow | src/ponddb/memory/search.py:140-163 | a filtered search of the own workgroup keeps exactly the rows with the requested author, type, scope, importance, utility, creation time and content |
| Filtering.GrantFiltersNarrow | src/ponddb/memory/search.py:60-83 | so it is through a grant, whose own type replaces the requested one; the larger importance floor counts |
| Filtering.FoundHits | src/ponddb/memory/search.py:42-88 | at any limit only such rows come back, and all of them where the limit has room |
| Filtering.ResultsObeyFilters | src/ponddb/memory/search.py:126-163 | every result is live, unexpired and within the requested bounds |
| Access.GetAccessibleWorkgroups | src/ponddb/memory/access.py:18-89 | the own workgroup first, then one entry per grant, in table order; a grant is listed iff it has begun and not ended, permits what is asked, and is made to the workgroup or the named agent |
| Access.CanAccessMemory | src/ponddb/memory/access.py:92-126 | the early-return loop decides by the first entry for the workgroup, and the own workgroup by scope and author |
| Access.NoGrantNoAccess | src/ponddb/memory/access.py:46-72 | a foreign memory is refused when every grant of its workgroup has ended, has not begun, is for the other permission or for somebody else |
| Access.GrantGivesAccess | src/ponddb/memory/access.py:111-126 | a grant in force lets through what is not private, if none of the workgroup's grants has a type or floor against it |
| Access.AccessImpliesCandidate | src/ponddb/memory/access.py:100-126 | what point access allows is a candidate of an unfiltered search |
| Access.AgreementIff | src/ponddb/memory/access.py:92-126 | point access and unfiltered search agree on every live, unexpired memory iff the caller has a name and the first grant met for each foreign workgroup subsumes its others |
| Access.PoolHoldsCandidates | src/ponddb/memory/search.py:126-163 | the candidates are exactly the rows of the pool the search takes its best from |
| Access.NamelessSeesPrivate | src/ponddb/memory/search.py:133-138 | without a caller, or with an empty id, the search offers private rows that point access refuses |
| Store.MemoryStore.CreateMemory | src/ponddb/memory/store.py:145-195 | keyed upsert or insert, returning the row written or the broken constraint |
| Store.MemoryStore.SoftDeleteMemory | src/ponddb/memory/store.py:235-246 | marks the live row deleted, once, and returns the row with that id whether it was live or deleted before |
| Store.MemoryStore.UpdateMemory | src/ponddb/memory/store.py:213-233 | sets the given fields of the live row and its update time, no other row, and returns it |
| Store.MemoryStore.UpdateUtility | src/ponddb/memory/store.py:248-264 | rewards the live row and reports the utility before and after, or nothing |
| Store.MemoryStore.CheckCausalCycle | src/ponddb/memory/store.py:266-282 | the walk returns true iff the new id or a repeated id is among the first fifty of the chain |
| Store.CleanupTask.RunOnce | src/ponddb/memory/tasks.py:48-77 | deletes exactly the live working rows that have expired, and reports their number |
| Store.DecayOnce | src/ponddb/memory/tasks.py:112-125 | decays exactly the live rows not accessed for more than a week |
| Store.SweptClean | src/ponddb/memory/tasks.py:52-60 | sweeping is idempotent |
| Memories.CreateIsMapUpdate | src/ponddb/memory/store.py:155-195 | a keyed create is one map update: a holder keeps all but content, importance and update time; every other key keeps its row |
| Memories.CreateRewrites | src/ponddb/memory/store.py:155-170 | a create on a held key sets content, importance and update time of the holder, and nothing else |
| Memories.CreateInserts | src/ponddb/memory/store.py:171-195 | a create on a free key, or without one, appends a row with every field as asked |
| Memories.CreateRejects | src/ponddb/memory/store.py:81-83 | an insertion that would break a constraint changes nothing |
| Memories.RemoveIsMapRemoval | src/ponddb/memory/store.py:235-246 | a soft delete is one map removal |
| Memories.RecreateGetsNewId | src/ponddb/memory/store.py:155-195 | after a soft delete the same key gets the new id |
| MemoryRuns.RunKeepsValid | src/ponddb/memory/store.py:81-83 | in every run ids are unique and at most one live row holds a workgroup's key |
| MemoryRuns.RunKeepsBand | src/ponddb/memory/tasks.py:112-125 | in every run each utility stays in [0.1, 0.9] |
| MemoryRuns.NoCycleInAnyRun | src/ponddb/memory/routes.py:62-77 | in every store built with fresh ids there is no causal cycle, and the create route never rejects a parent |
| MemoryRuns.CleanupUnobservable | src/ponddb/memory/tasks.py:48-60 | erasing all cleanups from a run leaves every search result as it was, if no create takes a key that a cleanup has freed |
| MemoryRuns.CleanupObservableIff | src/ponddb/memory/tasks.py:48-60 | over whole runs no search at any moment can tell that cleanups ran iff no create takes a key that a cleanup has freed |
| MemoryRuns.OneCleanupObservableIff | src/ponddb/memory/tasks.py:52-58 | in particular a cleanup right before a create can be observed iff the create reuses the key of a row the cleanup deletes |
| MemoryRuns.StaleReuseSuffices | src/ponddb/memory/tasks.py:52-58 | only keys of expired rows are ever freed, so no create takes one where none reuses an expired row's key |
| CausalChain.FlagsIff | src/ponddb/memory/store.py:266-282 | a flag is raised iff the chain meets the new id within fifty steps, or goes round without end through fewer than fifty ids |
| CausalChain.ExactIff | src/ponddb/memory/store.py:266-282 | without a new id the flag is an exact cycle test iff the chain ends or goes round through fewer than fifty ids |
| CausalChain.ExactBelowDepth | src/ponddb/memory/store.py:266-282 | a flag always means a cycle; with fewer than fifty reachable ids the flag is exact, with or without a new id |
| CausalChain.Pigeonhole | src/ponddb/memory/store.py:271-282 | a walk longer than its set of ids repeats one |
| CausalChain.RingOfFiftyUnnoticed | src/ponddb/memory/store.py:271-282 | a ring of fifty ids is endless and not flagged |
| CausalChain.CheckNeverRejects | src/ponddb/memory/store.py:171-195 | where parents precede children every chain ends and nothing is flagged |
| CausalChain.HandmadeIdsCanCycle | src/ponddb/memory/store.py:146-195 | with chosen ids a table can hold a cycle, which is flagged |
| Utility.CommonHistory | src/ponddb/memory/store.py:248-264 | any common sequence of rewards and decays keeps band and order of two memories and forgets their difference geometrically |
| Utility.ConstantReward | src/ponddb/memory/store.py:258 | n equal rewards bring the utility within 0.9^n of the clamped reward, from its own side |
| Utility.ConstantRewardExact | src/ponddb/memory/store.py:258 | exactly 0.9^n for a reward inside the band |
| Utility.DecayClosedForm | src/ponddb/memory/tasks.py:118-124 | n decays are max(0.1, u * 0.99^n) |
| ResultCaches.ResultCache.Get | src/ponddb/pondapi/result_cache.py:25-34 | a lookup, which deletes an expired entry |
| ResultCaches.LookIff | src/ponddb/pondapi/result_cache.py:25-46 | after any operations a lookup answers what was last stored under the key, if not forgotten since and at most the time to live ago, and nothing otherwise |
| ResultCaches.ResultCache.Set | src/ponddb/pondapi/result_cache.py:36-39 | stores the data until its time to live is over |
| CacheKeys.RawKeyInjective | src/ponddb/pondapi/result_cache.py:20-23 | the hashed text determines statement, tenant and version, for tenants without a NUL |
| CacheKeys.KeysCollideIff | src/ponddb/pondapi/result_cache.py:20-23 | two tenants can share a key for different requests iff one is the end of the other after a NUL |
| QueryCache.QueryEndpoint.ExecuteQuery | src/ponddb/app.py:502-598 | the handler refines one uninterrupted request: a refusal (400, 404, 403) that changes nothing, hit, miss, blocked, failed or write |
| QueryCache.QueryEndpoint.RefusedIff | src/ponddb/app.py:502-521 | which requests get 400, 404 and 403 before cache and version are looked at |
| QueryCache.ServedRight | src/ponddb/app.py:522-598 | hit or miss, an orderly request to a coherent service is answered as execution would answer it |
| QueryCache.ServedFromCacheIff | src/ponddb/app.py:522-598 | in any run of requests an admitted read is answered from the cache iff a read under the same key ran and was stored at most the time to live ago |
| QueryCache.HitIff | src/ponddb/app.py:522-598 | in any interleaving a request hits iff a result was stored under its key at most the time to live ago |
| QueryCache.EveryHitIsRight | src/ponddb/app.py:522-598 | for tenants whose keys do not clash: in every interleaving of orderly steps in which writes bump before they run, every hit equals re-execution, also when a read is stored after later writes |
| Deployments.AlwaysRightIff | src/ponddb/app.py:522-598 | over all runs of a deployment every hit equals re-execution iff no tenant queries two sessions, no tenant ends in another after a NUL, no session is suspended, no statement reaches a session past the endpoint, and no statement the write pattern misses changes what reads return |
| Deployments.BackgroundWrite | src/ponddb/pondapi/executor.py:177-187 | any statement the asynchronous executor runs that changes what a read returns leaves its stale hit behind, as no version is bumped |
| Deployments.ClashGoesWrong | src/ponddb/app.py:528-530 | two tenants with sessions of their own, one ending in the other after a NUL, get each other's results in some run |
| QueryCache.RunsAreCoherent | src/ponddb/app.py:523-595 | in such runs every entry and pending result of a current version is right, and between the bump and the run of a write nothing carries its version |
| QueryCache.StepKeepsCoherent | src/ponddb/app.py:524-595 | each step keeps every entry of the current version right, a write if no read took its version first |
| Deployments.ReadInsideWrite | src/ponddb/app.py:523-547 | what-if: a read between the bump and the run of a write, where the handler does not yield, would leave stale hits |
| Deployments.TwoSessionsOfOneTenant | src/ponddb/app.py:528-530 | any two sessions of one tenant share keys: wherever their data differ to a read, one is served the other's result |
| Deployments.ResumedSession | src/ponddb/engine/session_manager.py:314-316 | any session resumed with other data still hits its old results |
| Deployments.UnrecognisedWrites | src/ponddb/app.py:64-67 | any statements the pattern misses that change what a read returns leave its stale hit behind |
| Sessions.SessionManager.CreateSession | src/ponddb/engine/session_manager.py:162-176 | a connected active session and its row |
| Sessions.SessionManager.DestroySession | src/ponddb/engine/session_manager.py:178-188 | removes session and row, or reports an unknown id |
| Sessions.SessionManager.SuspendSession | src/ponddb/engine/session_manager.py:231-254 | disconnects, stamps and saves, or reports why not |
| Sessions.SessionManager.ResumeSession | src/ponddb/engine/session_manager.py:256-276 | the session is active and connected since now, without suspension time, and saved so; or an error says why not |
| Sessions.ResumeWakes | src/ponddb/engine/session_manager.py:256-331 | resuming a suspended session, or sending it a statement, wakes it and touches no other |
| Sessions.SessionManager.ExecuteQuery | src/ponddb/engine/session_manager.py:303-338 | wakes a suspended session; notes activity, in memory only, once the statement has run, even if fetching its rows fails |
| Sessions.SessionManager.RunWatchdogOnce | src/ponddb/engine/session_manager.py:340-358 | suspends exactly the idle sessions |
| Sessions.SessionManager.RunReaperOnce | src/ponddb/engine/session_manager.py:360-383 | destroys exactly the sessions suspended too long |
| Sessions.SessionManager.LoadFromStore | src/ponddb/engine/session_manager.py:278-301 | one session per row |
| Sessions.RunMirrored | src/ponddb/store/metadata_store.py:134-168 | in every run: connected iff active, and the rows are the live sessions with equal state, namespace and creation time and an activity time no later |
| Sessions.RestartRestores | src/ponddb/engine/session_manager.py:278-301 | an empty manager loads exactly the live sessions, without workgroup and suspension time |
| SessionTiming.Lifecycle | src/ponddb/engine/session_manager.py:340-394 | an untouched session is active up to its deadline, suspended within a period after it, kept until its suspension is too old, and gone within a period after that |
| SessionTiming.LifecycleInRun | src/ponddb/engine/session_manager.py:340-394 | the same for a run of the whole manager that leaves the session alone, at every moment of it |
| SessionTiming.AwakeForIdleTime | src/ponddb/engine/session_manager.py:256-358 | a session woken at t and then left alone stays active and connected until t + idle, whatever else happens |
| SessionTiming.LifecycleAfterResume | src/ponddb/engine/session_manager.py:256-394 | and is suspended and destroyed in time after that |
| SessionTiming.SuspendedGoesInRunIff | src/ponddb/engine/session_manager.py:360-383 | in such a run a suspended session is destroyed iff it has a suspension time and some tick reaps later than the allowed age after it |
| SessionTiming.UntouchedSeesTicks | src/ponddb/engine/session_manager.py:340-383 | in any run a session nobody touches is changed by ticks alone |
| SessionTiming.RestartStopsReaping | src/ponddb/engine/session_manager.py:367-373 | a suspended session loaded from the store survives any run that does not touch it |
| Quota.SessionLedger.CreateSession | src/ponddb/app.py:421-436 | counts and maps an admitted session, or reports 404 or a full quota and changes nothing |
| Quota.SessionLedger.DestroySession | src/ponddb/app.py:452-464 | unmaps and counts down, or reports 404 and changes nothing |
| Quota.SessionLedger.ReconcileUsage | src/ponddb/api/namespace_routes.py:103-113 | the counting loop sets the counter to the number of mapped sessions |
| Quota.SessionLedger.DeleteNamespace | src/ponddb/api/namespace_routes.py:196-206 | removes the namespace and, in a loop, exactly its workgroups, or reports 404 |
| Quota.Conservation | src/ponddb/app.py:421-464 | in every run a counter is the sessions present plus those that leaked, and equals those present iff none of the workgroup's sessions ever ended by dashboard or reaper |
| Quota.LeaksIff | src/ponddb/api/htmx_partials.py:68-77 | a run leaks exactly where a session that is there ends by dashboard or reaper |
| Quota.QuotaHoldsUnlessLowered | src/ponddb/api/namespace_routes.py:80-100 | through whole runs counters stay within their maximum iff no maximum is lowered under its counter |
| Quota.OverQuotaOnlyShrinks | src/ponddb/api/namespace_routes.py:92-100 | a counter above its maximum never grows, and once back within it stays there |
| Quota.AdmittedIff | src/ponddb/app.py:421-436 | in every run a workgroup gets another session iff it exists and has no maximum, or fewer than it are there or leaked |
| Quota.DestroyUndoesCreate | src/ponddb/app.py:421-464 | destroying a session undoes its creation: counter, mapping and live sessions are as before |
| Quota.DeleteUndoesCreate | src/ponddb/api/namespace_routes.py:212-311 | a new workgroup starts empty and admits, and deleting it undoes its creation; a new maximum changes nothing else |
| Quota.DeletionsTakeWorkgroups | src/ponddb/api/namespace_routes.py:196-206 | deletions take exactly the workgroups meant, and no session or mapping |
| Quota.ClampIsIdle | src/ponddb/app.py:463 | the max(0, ...) never acts |
| Quota.ReconcileRepairs | src/ponddb/api/namespace_routes.py:103-113 | reconciling restores the ledger from any counter value |
| Quota.LeaksAreForever | src/ponddb/api/htmx_partials.py:68-77 | no later operation gives back the slot of a session that ended unnoticed |
| Quota.LeaksLockOut | src/ponddb/app.py:422-429 | once the leaks reach the maximum, the workgroup never gets another session |
| Limiters.ShareLimiter.Check | src/ponddb/api/share_routes.py:41-53 | one step of the list limiter |
| Limiters.ShareWindow | src/ponddb/api/share_routes.py:41-53 | over a run of all addresses, at most the limit of each gets through in any window |
| Limiters.ListWindow | src/ponddb/api/share_routes.py:41-53 | at most the limit in any window, wherever it starts |
| Limiters.ListRefusesWhenFull | src/ponddb/api/share_routes.py:47-50 | refused iff the window behind already holds the limit |
| Limiters.KeysAreIndependent | src/ponddb/api/share_routes.py:33-53 | what one address sees depends on its own requests alone |
| Limiters.SubmissionWindow.CountWindow | src/ponddb/pondapi/executor.py:236-247 | pops the expired heads and counts the rest |
| Limiters.SubmissionWindow.Submit | src/ponddb/pondapi/executor.py:286-296 | one step of the deque limiter |
| Limiters.PrunedIsAfter | src/ponddb/pondapi/executor.py:244-246 | on an ascending queue, popping heads is filtering |
| Limiters.DequeWindow | src/ponddb/pondapi/executor.py:236-253 | at most the limit recorded in any closed window, though recorded later than counted |
| Limiters.SubmitWindow | src/ponddb/pondapi/executor.py:236-296 | the same for runs of all tenants together |
| Limiters.DequeRefusesWhenFull | src/ponddb/pondapi/executor.py:289-294 | refused iff that many were recorded in the window before |
| Limiters.RateLimiter.Check | src/ponddb/security/rate_limit.py:37-56 | evict, add, count and touch is one step of the server |
| Limiters.ServerDecidesByKey | src/ponddb/security/rate_limit.py:37-56 | over a run of all keys, expiry included, a request is decided by the arrivals of its own key alone |
| Limiters.SetAdmitsIff | src/ponddb/security/rate_limit.py:41-56 | admits iff fewer than the limit arrived before it in the window, admitted or not |
| Limiters.SetRefinesList | src/ponddb/security/rate_limit.py:37-56 | what the sorted set admits the list admits, for strictly increasing arrivals |
| Limiters.SetRefinesListIff | src/ponddb/security/rate_limit.py:37-56 | for every limit and window the sorted set is the stricter one iff no two arrivals share a moment |
| Limiters.ServerRefinesShare | src/ponddb/security/rate_limit.py:37-56 | what the server admits the list admits, over runs of all keys |
| Limiters.TiedArrivals | src/ponddb/security/rate_limit.py:39-44 | of any two arrivals at one moment the sorted set lets both through and the list one |
| Limiters.ListAfterSilence | src/ponddb/api/share_routes.py:47-53 | a key silent for a window gets through the list |
| Limiters.SetAfterSilence | src/ponddb/security/rate_limit.py:42-56 | and through the sorted set |
| Limiters.RetryingStarves | src/ponddb/security/rate_limit.py:42-54 | a client that keeps retrying is never admitted by the sorted set |
| Limiters.ExpiryIsIdle | src/ponddb/security/rate_limit.py:46 | the key expiry drops nothing the next check would keep |
| Lockout.BruteForceGuard.IsLocked | src/ponddb/auth/brute_force.py:46-54 | one lazy step, for one address alone |
| Lockout.BruteForceGuard.RecordFailure | src/ponddb/auth/brute_force.py:56-64 | one lazy step, for one address alone |
| Lockout.BruteForceGuard.GetFailureCount | src/ponddb/auth/brute_force.py:69-74 | one lazy step, for one address alone |
| Lockout.AnswersAreRight | src/ponddb/auth/brute_force.py:36-74 | every answer is a function of the failures and successes alone, with lockouts lifted on time |
| Lockout.AnswersByFailures | src/ponddb/auth/brute_force.py:36-74 | locked iff the failures since the last success or finished lockout reached the threshold, less than the ttl ago; the count is their number |
| Lockout.QuestionsAreIdle | src/ponddb/auth/brute_force.py:46-74 | questions never change later answers |
| Lockout.FailuresNeverExtend | src/ponddb/auth/brute_force.py:56-64 | a lockout lasts exactly its time, whatever failures follow |
| Lockout.RefinementIff | src/ponddb/auth/brute_force.py:46-74 | that refinement holds for all runs iff the threshold is positive or lockouts never end |
| Executions.StepKeepsConsistent | src/ponddb/pondapi/executor.py:154-198 | every step keeps rows, workers and polls in agreement |
| Executions.LeavesPendingOnce | src/ponddb/pondapi/executor.py:84-111 | a row turns terminal at most once in any run |
| Executions.TerminalIsFinal | src/ponddb/pondapi/executor.py:84-111 | a terminal row never changes |
| Executions.DonePollReportsOutcome | src/ponddb/pondapi/executor.py:339-349 | a poll that saw the future done reports the worker's outcome, or `pending` iff the update failed |
| Executions.SubmissionCompletes | src/ponddb/pondapi/executor.py:67-111 | a submission that is executed and written ends as a row with its outcome and nothing else |
| Executions.FinishedIsReported | src/ponddb/pondapi/executor.py:328-349 | a poll that looks after the worker has finished replies with its outcome, whatever it had read before and whatever happens in between |
| Executions.UnfinishedIsPending | src/ponddb/pondapi/executor.py:328-349 | a poll that looks earlier replies `pending` |
| Executions.RepliesAreStable | src/ponddb/pondapi/executor.py:328-349 | after a terminal reply every later poll replies the same |
| Executions.ReportsMatchStatus | src/ponddb/pondapi/executor.py:119-134 | rows only when complete, an error only when failed, and never to a foreign tenant |
| Executions.ResultsStayWithTenant | src/ponddb/pondapi/executor.py:328-349 | over whole runs whoever gets a result submitted it, or one of the two is the default tenant |
| Executions.DeniedIff | src/ponddb/pondapi/executor.py:328-337 | a poll is denied iff two explicit tenants differ, and finds nothing iff nobody submitted |
| StateToken.B64RoundTrip | src/ponddb/auth/oauth_state.py:33-41 | decoding undoes encoding for all byte strings; no pad and no dot in between |
| StateToken.SymbolsInOrder | src/ponddb/auth/oauth_state.py:33-41 | the URL-safe alphabet in its order |
| StateToken.ThreeBytes | src/ponddb/auth/oauth_state.py:33-35 | three bytes and their four symbols are one number in base 256 and base 64 |
| StateToken.LastBytes | src/ponddb/auth/oauth_state.py:33-35 | one or two bytes left over are filled up with zero bits |
| StateToken.GroupByGroup | src/ponddb/auth/oauth_state.py:33-35 | longer data is encoded group by group |
| StateToken.TokenRoundTrip | src/ponddb/auth/oauth_state.py:59-108 | one dot, and the payload back iff its age is within the limit |
| StateToken.SignatureDecides | src/ponddb/auth/oauth_state.py:87-100 | a signature outside ASCII raises, any other but the right one is refused, and only then is the payload read |
| StateToken.OneDotNeeded | src/ponddb/auth/oauth_state.py:80-90 | an empty token and one without exactly one dot are refused as such |
| StateToken.AcceptedMeansSigned | src/ponddb/auth/oauth_state.py:80-108 | only correctly signed payloads of the right age are accepted |
| Names.BothJoinWords | src/ponddb/store/query_store.py:21-26 | both regular-expression pipelines join the alphanumeric words of their input |
| Names.SlugsAreFixedPoints | src/ponddb/store/query_store.py:21-26 | slugs are accepted by the route, and are exactly the non-empty texts of a-z, 0-9 and single inner hyphens, which are their own slug |
| Names.SlugKeepsWords | src/ponddb/store/query_store.py:21-26 | a slug has the words of its title |
| Names.NamesAreFixedPoints | src/ponddb/store/dataset_manager.py:17-23 | table names are exactly the texts of a-z, 0-9 and single inner underscores, which are their own table name |

## Left out

- SQL, DuckDB, SQLite, JSON and ISO dates: statements are a deterministic function of text and data, tables are sequences and maps, times are integers, LIKE is a predicate on the content.
- Access.GetAccessibleWorkgroups: takes grants in table order; the grant query has no ORDER BY, so the database may return them in another one. `Access.AgreementIff` holds for any order.
- Ties inside one workgroup query come in table order; SQL leaves that open. `TopK.CutFirst` holds for any choice.
- Rounding of floating point: utilities and importances are reals.
- Mutable `_Session`, `_IpState` and workgroup records are values that their owner's map is updated with, so aliasing of those objects is not modelled.
- Sessions.SessionManager.CreateSession: does not model the optional workgroup quota of the manager, which the server never passes; subprocess isolation and a missing store are left out as well.
- StateToken.B64RoundTrip: says nothing of input outside the alphabet, where the decoder of the standard library skips characters and the model rejects.
- Deployments.AlwaysRightIff: says nothing of two tenants that query one session and whose keys clash, where the answer depends on whether the engine reads past a NUL; it takes the write pattern to ignore what follows a NUL, as an anchored pattern does.
- Data a statement reads from outside its session, such as a file replaced under it: an engine is a function of the statement and the session's data.
- QueryCache.EveryHitIsRight: takes SHA-256 as injective, and asks that no read fixes its key between the version bump of a write and its execution; the handler never yields there.
- Limiters.RateLimiter.Check: does not model the fail-open path on Redis errors.
- Names.SlugsAreFixedPoints: takes lower-casing as any function that leaves finished slugs alone, and leaves out the route's length limit.
- Failures of best-effort table updates in search, cleanup and decay are not modelled; a failed row update of a worker is.
- A `limit` below zero, which the search route refuses.
- Dashboard pages that overwrite the session counter by workgroup name: they are no operations of the ledger.
- Routing, HTML, CLI, SMTP, audit log, OAuth exchange, metrics, clients, examples and benchmarks.
