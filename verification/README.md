# Models of the backend's stateful mechanisms

The backend is a Django application. Most of it is HTTP, ORM and schema plumbing; this project models the
mechanisms in it that carry invariants over unbounded runs, and proves what they guarantee.

- **Snowflake IDs** (`BitOps`, `SnowflakePacking`, `Snowflake`, `SnowflakeIssued`, `SnowflakeShared`): the 64-bit
  layout; the generator of one context and its local sequence; which IDs contexts issue under arbitrary clocks and
  caches; many contexts sharing one counter per millisecond, as an interleaving of single cache calls.
- **Rate limiter** (`TtlCache`, `RateLimiter`): a pruned and expiring list per key against a complete log of
  admissions, and the bound on every window.
- **Circuit breakers** (`BreakerCore`, `DbCircuitBreaker`, `CacheCircuitBreaker`): one state machine whose calls begin
  and finish as separate events, and the two classes that implement it.
- **Signing keys** (`KeyRotation`, `Base64`, `JwksInteger`): the window of stored keys over any number of rotations and
  its snapshot in the cache, through restarts; the integers of the published key set.
- **Retry and bulk loops** (`Retry`, `BulkOperations`).
- **Dictionaries, keys, contexts, pages, PEM text** (`DeepUpdate`, `CacheKeys`, `CacheManager`, `ValidationContext`,
  `Pagination`, `Utf8`, `EnvKeys`).

Objects whose methods update their fields are classes; each method is specified by a function on values, and the
results are proved about runs of those functions. The clock, jitter draws and newly generated key material are
parameters. A cache is a map from keys to values with an expiry time; an entry is dropped only after that time.

## Where the code differs from what is said about it

Each of these is stated as an exact condition or as a counterexample in the table below.

- After the wait for the next millisecond gives up, the local sequence is already back at 0, and a call that resumes
  in that same millisecond issues number 1 again. That breaks the order of the IDs (`LocalIdsIncrease`); it repeats an
  ID exactly when the millisecond issued number 1 before (`ResumingRepeatsExactly`, `StoppedClockRepeats`,
  `ResumingNeedNotRepeat`). On the fallback the IDs of a context are unique exactly while no millisecond goes 4096
  numbers beyond the first that it issues (`LocalIdsDistinct`).
- A cache that answers some calls of a millisecond and fails others lets one context repeat its own ID
  (`MixedRunRepeats`). Under any clock and cache the IDs are unique exactly when no two calls issue one number in one
  millisecond (`IdsDistinctUnlessMeeting`), and keep increasing exactly when no call regresses: the counter does not
  move on, the wait gave up, or cache and fallback follow one another in the wrong order (`MixedIdsIncrease`).
- Two contexts of a node share an ID exactly when two of their calls issue one number in one millisecond, although the
  generator is described as distributed; on the fallback nothing prevents that (`ContextsShareExactlyWhenMeeting`,
  `ContextsCollide`).
- A counter that passes 4095 is deleted and restarted at 1, which repeats an ID whenever it happens (`ExcessRepeats`,
  `ExcessHappens`). A counter that the store loses within its millisecond repeats an ID if it is drawn from again
  (`EvictionRepeats`).
- The rate limiter's `reset_time` may come before a denied caller is allowed again (`ResetTimeCanBeEarly`, `EarlyReset`).
- The cache breaker logs "consecutive failures", but successes while it is closed do not clear the count: it is the
  number of failures in a row exactly when no success has followed a failure since the last restart
  (`CountsConsecutiveExactly`, `OpensWithoutFailuresInARow`).
- The opening and trip counters also count failures that arrive while the breaker is open; they say how often it
  opened exactly when there are none (`OpeningsExactUnlessLate`, `OneOpeningCountedTwice`).
- The first rotation leaves cached metadata in which the replaced key is still active (`CachedEqualsMemory`). A manager
  restarted before the second rotation has two active keys, and in no other case (`RestartsKeepTheWindow`,
  `RestartRevivesReplacedKey`).
- Helper keys of two different versions can coincide exactly when one version is empty or ends with the version suffix
  of the other (`InjectiveExactlyForApartVersions`).
- Zero is encoded as an empty string where RFC 7518 wants `AA` (`ConformsExactlyWhenPositive`).
- Invalidating "all caches for a user" leaves the entry stored by email address (`InvalidationReaches`).
- The `.env` form printed as recommended, base64, is never decoded by the settings (`Base64FormIsNotDecoded`).
- Bulk handling with a negative batch size runs nothing and reports success (`BulkOperationHandler`).

## Model

| member | source | states |
|---|---|---|
| SnowflakePacking.PackIsPositionalSum | apps/tcc/utils/snowflake.py:165-170 | shifting and or-ing the four fields is their positional sum, also for timestamps before the epoch |
| SnowflakePacking.DecomposeUndoesPack | apps/tcc/utils/snowflake.py:181-202 | decomposing an ID gives back its four fields |
| SnowflakePacking.PackUndoesDecompose | apps/tcc/utils/snowflake.py:181-202 | every integer is the packing of its parts, which are in range |
| SnowflakePacking.PackInjective | apps/tcc/utils/snowflake.py:165-170 | two IDs coincide exactly when all fields do; two nodes never share one |
| SnowflakePacking.PackOrder | apps/tcc/utils/snowflake.py:165-170 | an earlier timestamp gives a smaller ID across nodes; on one node ID order is (timestamp, sequence) order |
| SnowflakePacking.FitsSigned64 | apps/tcc/utils/snowflake.py:30-51 | an ID fits a signed 64-bit column exactly when its timestamp fits 41 bits |
| Snowflake.Generator.Create | apps/tcc/utils/snowflake.py:53-63 | exactly the nodes of five-bit fields are accepted; which error the others get |
| Snowflake.Generator.WaitForNextMillis | apps/tcc/utils/snowflake.py:90-104 | the bounded polling loop: at most 101 readings, none but the last one later than the given time; it returns that one or raises |
| Snowflake.WaitStopsInTime | apps/tcc/utils/snowflake.py:90-104 | the wait stops at the first later reading, after at most 100 sleeps, and gives up only then |
| Snowflake.Generator.GetDistributedSequence | apps/tcc/utils/snowflake.py:115-135 | the number drawn is the count of the last incr, or the local sequence plus one modulo 4096 if any of the cache calls raised, expire included |
| Snowflake.DrawFallsBack | apps/tcc/utils/snowflake.py:132-135 | the masked local sequence counts modulo 4096 and touches nothing else |
| Snowflake.DrawCalls | apps/tcc/utils/snowflake.py:115-135 | whatever the cache replies: incr and expire, or incr, delete, incr and expire after a count past 4095, up to the first raise, which alone decides whether the count or the local sequence is taken |
| Snowflake.Generator.GenerateId | apps/tcc/utils/snowflake.py:137-172 | one call's ID or error and the whole thread-local state; the ID decomposes to the clock reading that the call ended with, the generator's node, and the answered count or new local sequence; a clock moved backwards changes no state, and no failure moves the last timestamp |
| Snowflake.GeneratedFields | apps/tcc/utils/snowflake.py:137-172 | a generated ID decomposes to the last clock reading, the node, and the number that the last cache calls came to |
| Snowflake.IdsDecompose | apps/tcc/utils/snowflake.py:165-170 | every ID of any selection of stamps decomposes to its stamp and the node |
| SnowflakeIssued.IssuedIdDecomposes | apps/tcc/utils/snowflake.py:137-172 | the ID of every call of every run decomposes to the last reading of the clock, the node, and the answered count or the fallback draws so far modulo 4096 |
| Snowflake.LocalStep | apps/tcc/utils/snowflake.py:137-172 | one call on the fallback, in terms of the clock alone: new millisecond, next sequence, or the wait at exhaustion |
| Snowflake.LocalIdsIncrease | apps/tcc/utils/snowflake.py:90-172 | for a run in which every call falls back to the local sequence, and any clock, the IDs increase strictly exactly when no call resumes in a millisecond in which the wait gave up |
| SnowflakeIssued.LocalIdsDistinct | apps/tcc/utils/snowflake.py:90-172 | on the fallback and for any clock, the IDs are pairwise distinct exactly when no two calls issue one number in one millisecond, which is exactly when no two calls of a millisecond are 4096 or more numbers apart |
| SnowflakeIssued.ResumingRepeatsExactly | apps/tcc/utils/snowflake.py:90-172 | a call that resumes after the wait gave up issues number 1, and repeats an ID exactly when its millisecond issued number 1 before |
| SnowflakeIssued.ResumingNeedNotRepeat | apps/tcc/utils/snowflake.py:90-172 | a run in which a call resumes, the order breaks and all IDs are distinct: the millisecond began at 4095 |
| Snowflake.StoppedClockRepeats | apps/tcc/utils/snowflake.py:90-172 | on the fallback with a clock that stands still, the call after the one that gives up repeats the first ID |
| SnowflakeIssued.ServedIdsIncrease | apps/tcc/utils/snowflake.py:137-179 | on the fallback, while no call resumes in a millisecond in which the wait gave up, any mix of single and batch calls hands out strictly increasing IDs |
| SnowflakeIssued.MixedIdsIncrease | apps/tcc/utils/snowflake.py:115-172 | whatever clock and cache do, while sequences fit their 12 bits, IDs increase strictly exactly when no call finds the millisecond of the newest ID and regresses: between two fallbacks after a wait that gave up, else with a next number, not 0, that is not beyond the newest one |
| SnowflakeIssued.IdsDistinctUnlessMeeting | apps/tcc/utils/snowflake.py:115-172 | whatever clock and cache do, while sequences fit their 12 bits, the IDs of a context are pairwise distinct exactly when no two calls issue one number in one millisecond |
| SnowflakeIssued.ServedMixedIdsIncrease | apps/tcc/utils/snowflake.py:115-179 | in a run in which no call regresses any mix of single and batch calls hands out strictly increasing IDs |
| SnowflakeIssued.ServedIdsExactly | apps/tcc/utils/snowflake.py:115-179 | the IDs handed out for any mix of single and batch calls are distinct exactly when no two of their calls issue one number in one millisecond, and increase strictly exactly when no later one issues a number in the same millisecond that is not beyond an earlier one's |
| SnowflakeIssued.BatchIsServed | apps/tcc/utils/snowflake.py:174-179 | a batch at any point of a run makes the calls and hands out the IDs that its contract says |
| SnowflakeIssued.MixedRunRepeats | apps/tcc/utils/snowflake.py:115-135 | a cache that serves the first call of a millisecond and raises on the second makes the context repeat its ID |
| SnowflakeIssued.SequenceCountsDraws | apps/tcc/utils/snowflake.py:132-135 | whatever the cache does, the local sequence is the number of draws that fell back, modulo 4096 |
| SnowflakeIssued.SequenceIsNumber | apps/tcc/utils/snowflake.py:115-135 | the sequence in an ID is the answered count, or the fallback draws so far modulo 4096 |
| SnowflakeIssued.LocalDrawsByClock | apps/tcc/utils/snowflake.py:137-172 | on the fallback the clock alone decides how many numbers a call draws: two if it waits, none if it is behind, else one |
| SnowflakeIssued.ContextsShareExactlyWhenMeeting | apps/tcc/utils/snowflake.py:79-172 | two contexts under any clocks and caches, on the counter, the fallback or both, share an ID exactly when their nodes agree and two of their calls issue one number in one millisecond |
| SnowflakeIssued.ServedAreGenerated | apps/tcc/utils/snowflake.py:174-179 | what callers receive was generated, and comes in order, though failed batches drop theirs |
| Snowflake.Generator.BatchGenerateIds | apps/tcc/utils/snowflake.py:174-179 | counts outside 1 to 1000 raise without effect; else exactly the IDs of that many calls, each of which decomposes to the stamp and the node of its call, or a raise at the first failing one |
| SnowflakeIssued.ContextsCollide | apps/tcc/utils/snowflake.py:132-135 | two contexts of a node on the fallback whose first calls read the same millisecond start with the same ID |
| Snowflake.SharedCall | apps/tcc/utils/snowflake.py:115-130 | with an answering cache a call never waits, and its sequence is the first count, or the one after the restart |
| SnowflakeShared.RunInvariant | apps/tcc/utils/snowflake.py:115-172 | in every reachable state of every interleaving: draws are owned once, none is lost, counters count up, excess is restarted |
| SnowflakeShared.EmittedIdsDecompose | apps/tcc/utils/snowflake.py:165-170 | every ID that is emitted in any interleaving decomposes to the timestamp and the count of its draw, and the node |
| SnowflakeShared.ContextsMoveForward | apps/tcc/utils/snowflake.py:137-147 | the timestamps of a context never decrease; a call is refused, without effect, exactly when its reading is behind the context's last timestamp |
| SnowflakeShared.TimestampWasRead | apps/tcc/utils/snowflake.py:137-172 | the timestamp of a call under way is one that its own context has read |
| SnowflakeShared.EmitsOwnDraw | apps/tcc/utils/snowflake.py:160-172 | a context emits its own draw, with the timestamp of its call |
| SnowflakeShared.BornOnceIsDistinct | apps/tcc/utils/snowflake.py:115-172 | while no counter was created twice, all emitted IDs are pairwise distinct in every state of every interleaving |
| SnowflakeShared.DistinctExactlyWhenBornOnce | apps/tcc/utils/snowflake.py:115-172 | once all calls have returned, IDs are distinct exactly when no counter was created twice |
| SnowflakeShared.ExcessRepeats | apps/tcc/utils/snowflake.py:122-130 | a counter that passes 4095 always leads to a repeated ID |
| SnowflakeShared.ExcessHappens | apps/tcc/utils/snowflake.py:122-130 | such a run exists, with its repeated ID: one context and 4096 calls in a millisecond, with a store that loses nothing |
| SnowflakeShared.EvictionRepeats | apps/tcc/utils/snowflake.py:118-129 | a run of two calls in one millisecond with the counter lost between them, which creates it twice and repeats an ID |
| SnowflakeShared.WithoutEvictionsOnlyExcessRepeats | apps/tcc/utils/snowflake.py:115-172 | for any clock readings, while the store loses no counter, IDs are distinct if no counter passed 4095, and once all calls have returned exactly then |
| SnowflakeShared.TimelyIdsAreDistinct | apps/tcc/utils/snowflake.py:115-172 | a common clock, draws within a counter's lifetime and at most 4095 of them make all IDs unique |
| TtlCache.AsyncCache.Get | apps/core/cache/async_cache.py:190-203 | the value under the key until its expiry time, or nothing |
| TtlCache.AsyncCache.Set | apps/core/cache/async_cache.py:205-222 | the whole new store: the key reads as the value up to its time to live, always if that is zero, and every other key as before |
| TtlCache.AsyncCache.Delete | apps/core/cache/async_cache.py:224-235 | removes that key alone and reports whether it was live |
| TtlCache.AsyncCache.GetMany | apps/core/cache/async_cache.py:237-255 | exactly the live keys asked for, each with the value a single read gives |
| TtlCache.AsyncCache.FlushPattern | apps/core/cache/async_cache.py:257-268 | removes exactly the live selected keys and returns their number |
| RateLimiter.RateLimiter.CheckRateLimit | apps/core/jwt/rate_limiter.py:72-94 | verdict, new store and metrics of one check, and every reported field: the limit, the counted requests with its own if admitted, what is left of the limit, the whole second of the reset |
| RateLimiter.RateLimiter.SlidingWindowCheck | apps/core/jwt/rate_limiter.py:96-139 | an admission is recorded exactly when the count is below the limit; a denial changes no data |
| RateLimiter.RateLimiter.GetCurrentRequests | apps/core/jwt/rate_limiter.py:141-152 | the number of stored stamps at or after the window's start |
| RateLimiter.RateLimiter.AddRequest | apps/core/jwt/rate_limiter.py:154-163 | the list with the new stamp, pruned, which can be read for one window; other keys read as before |
| RateLimiter.RateLimiter.GetRateLimitInfo | apps/core/jwt/rate_limiter.py:165-189 | the report that a check would give, field by field, without counting |
| RateLimiter.RateLimiter.ResetRateLimit | apps/core/jwt/rate_limiter.py:191-204 | forgets that key alone |
| RateLimiter.CountsAgree | apps/core/jwt/rate_limiter.py:141-163 | pruning and expiry never change a count of the complete log |
| RateLimiter.StoreRefinesLog | apps/core/jwt/rate_limiter.py:96-204 | on every run of checks, reports and resets under a non-decreasing clock the cached list answers as the complete log |
| RateLimiter.WindowBound | apps/core/jwt/rate_limiter.py:96-163 | no closed window of the configured length holds more than max_requests admissions since the last reset |
| RateLimiter.LastAnswerReports | apps/core/jwt/rate_limiter.py:96-189 | on every run on a fresh key under a non-decreasing clock the last answer reports, field by field, the admissions since the last reset in the closed window ending now, its own included; it is allowed exactly when there were fewer than max_requests before it |
| RateLimiter.EveryAnswerReports | apps/core/jwt/rate_limiter.py:96-189 | so does every answer of the run |
| RateLimiter.ReportsAddUp | apps/core/jwt/rate_limiter.py:117-131 | remaining and current add up to the limit, and a report at the same instant says the same |
| RateLimiter.DeniedByLog | apps/core/jwt/rate_limiter.py:106-119 | a check is denied exactly when the last max_requests admissions all lie in the window, and it counts just these |
| RateLimiter.AllowedAgain | apps/core/jwt/rate_limiter.py:106-119 | after a denial, checks are allowed exactly at times later than the oldest counted admission plus the window |
| RateLimiter.ResetTimeCanBeEarly | apps/core/jwt/rate_limiter.py:121-122 | when the reported reset time is good enough, exactly; one second later always is |
| RateLimiter.EarlyReset | apps/core/jwt/rate_limiter.py:121-122 | a concrete caller denied at 0.6 is told to come back at 1 and is denied then |
| RateLimiter.KeysAreIndependent | apps/core/jwt/rate_limiter.py:68-70 | operations on other keys, in any interleaving and with a configuration per call, change no answer |
| RateLimiter.EachKeyHasItsOwnLimit | apps/core/jwt/rate_limiter.py:69-204 | a key whose callers pass one configuration is answered as a run on that key alone, whatever the other keys do with other configurations |
| RateLimiter.LimitsHaveOwnKeys | apps/core/jwt/rate_limiter.py:68-70 | with colon-free actions two limits share a key exactly when identifier and action agree |
| RateLimiter.LimiterKeysCleared | apps/core/jwt/rate_limiter.py:68-70 | the pattern of the rate limit namespace matches a key of the limiter exactly when action and identifier happen to end with the version's suffix |
| BreakerCore.QuietPeriod | apps/core/db/decorators.py:353-403 | after a failure at f that leaves the breaker open no call is admitted up to and including f plus the timeout, whatever finishes in between, short of a reset |
| BreakerCore.RefusedExactly | apps/core/db/decorators.py:378-386 | for every threshold, history and clock: a call is refused exactly when the failures since the last restart have reached the threshold and no call since the last failure, itself included, begins more than the timeout after it |
| BreakerCore.SuccessCloses | apps/core/db/decorators.py:388-393 | a success closes the breaker with a count of zero exactly when it was tripped and a call began more than the timeout after the last failure; otherwise it changes nothing |
| BreakerCore.Recovers | apps/core/db/decorators.py:378-393 | the first call more than the timeout after the last failure is admitted, and its success closes the breaker with a count of zero |
| BreakerCore.FailuresSinceRestart | apps/core/db/decorators.py:388-403 | the failure count is the number of failures since the last closing or reset |
| BreakerCore.CountsConsecutiveExactly | apps/core/cache/async_cache.py:36-47 | the count is at least the failures in a row, and equal to them exactly when no success has followed a failure since the last closing or reset |
| BreakerCore.OpensWithoutFailuresInARow | apps/core/cache/async_cache.py:36-47 | with a threshold of two, failure, success, failure opens the breaker |
| BreakerCore.ModeByHistory | apps/core/db/decorators.py:378-403 | in every reachable state the count and the admitted probe decide the mode |
| BreakerCore.ClosedBelowThreshold | apps/core/db/decorators.py:378-403 | that CLOSED means fewer failures than the threshold is true of all histories exactly for thresholds of at least one |
| BreakerCore.RequestsAccountedFor | apps/core/db/decorators.py:353-403 | total requests are the calls begun, and these are successes, failures, blocked, aborted and in-flight calls since the last reset; openings are the failures at or above the threshold |
| BreakerCore.OpeningsAreTransitionsAndLateFailures | apps/core/db/decorators.py:395-403 | the opening counter is the number of transitions to OPEN and of failures recorded while OPEN, since the last reset |
| BreakerCore.OpeningsExactUnlessLate | apps/core/db/decorators.py:395-403 | the opening counter equals the number of transitions since the last reset exactly when no failure since was recorded while OPEN |
| BreakerCore.OneOpeningCountedTwice | apps/core/db/decorators.py:395-403 | two calls under way that both fail at threshold one: one transition, counted twice |
| DbCircuitBreaker.CircuitBreaker.constructor | apps/core/db/decorators.py:288-307 | the initial state and metrics |
| DbCircuitBreaker.CircuitBreaker.CanExecute | apps/core/db/decorators.py:378-386 | the admission test and the move to HALF_OPEN, in terms of the fields |
| DbCircuitBreaker.CircuitBreaker.BeginCall | apps/core/db/decorators.py:353-365 | the first locked section of a call: one Begin event, admitted exactly when the events so far do not refuse it |
| DbCircuitBreaker.CircuitBreaker.RecordSuccess | apps/core/db/decorators.py:388-393 | one Succeed event on state and metrics |
| DbCircuitBreaker.CircuitBreaker.RecordFailure | apps/core/db/decorators.py:395-403 | one Fail event on state and metrics |
| DbCircuitBreaker.CircuitBreaker.ResetBreaker | apps/core/db/decorators.py:421-431 | back to the initial state, metrics included |
| DbCircuitBreaker.CircuitBreaker.Execute | apps/core/db/decorators.py:353-376 | an uninterrupted call extends whatever history led here by its events; an unexpected exception records nothing |
| CacheCircuitBreaker.CircuitBreaker.CanExecute | apps/core/cache/async_cache.py:28-34 | refines the same machine, an absent failure time included; admitted exactly when the events so far do not refuse it |
| CacheCircuitBreaker.CircuitBreaker.RecordSuccess | apps/core/cache/async_cache.py:36-39 | one success of the same machine |
| CacheCircuitBreaker.CircuitBreaker.RecordFailure | apps/core/cache/async_cache.py:41-47 | one failure of the same machine |
| CacheCircuitBreaker.Executor.BeginOperation | apps/core/cache/async_cache.py:156-161 | a refused operation counts as failed without touching the breaker |
| CacheCircuitBreaker.Executor.OperationSucceeded | apps/core/cache/async_cache.py:167-171 | breaker and counters after a success |
| CacheCircuitBreaker.Executor.OperationFailed | apps/core/cache/async_cache.py:173-187 | breaker and counters after a failure, the trip counter included |
| CacheCircuitBreaker.CountersAddUp | apps/core/cache/async_cache.py:156-187 | for every threshold and history failed operations are failures plus refusals, and trips are the failures at or above the threshold, that is the transitions to OPEN and the failures recorded while OPEN |
| KeyRotation.KeyRotationManager.Initialize | apps/core/jwt/key_rotation.py:28-60 | the cached snapshot if it has a current key, else a first generated key saved to the cache; a second call does nothing |
| KeyRotation.KeyRotationManager.SaveKeysToCache | apps/core/jwt/key_rotation.py:62-78 | the snapshot is stored for two rotation intervals |
| KeyRotation.KeyRotationManager.GenerateNewKeyPair | apps/core/jwt/key_rotation.py:101-118 | the new key is stored, active and current, and saved |
| KeyRotation.KeyRotationManager.RotateKeys | apps/core/jwt/key_rotation.py:120-139 | raises before initialization without effect; otherwise keys and snapshot move on by one rotation |
| KeyRotation.KeyRotationManager.DemotePreviousKeys | apps/core/jwt/key_rotation.py:130-133 | every key but the new one is marked previous |
| KeyRotation.KeyRotationManager.CleanupOldKeys | apps/core/jwt/key_rotation.py:141-164 | the keys beyond the newest two go, the current one excepted; the snapshot is saved only if there were more than two |
| KeyRotation.KeyRotationManager.GetPublicKey | apps/core/jwt/key_rotation.py:172-177 | the public key of the id, or of the current key |
| KeyRotation.SortDescends | apps/core/jwt/key_rotation.py:149-154 | the sort puts no key before a newer one |
| KeyRotation.SortKeepsDistinct | apps/core/jwt/key_rotation.py:149-154 | the sort repeats no key |
| KeyRotation.VictimsFacts | apps/core/jwt/key_rotation.py:148-156 | the keys chosen for removal are all but the first two of the sort, and none is newer than a key that is spared |
| KeyRotation.RotationKeeps | apps/core/jwt/key_rotation.py:120-164 | for any stamps the new key survives as the only active one with the newest others; three keys stay exactly when two others are not older than it |
| KeyRotation.AnyStamps | apps/core/jwt/key_rotation.py:28-164 | after any number of rotations with tied or decreasing stamps: same domains, current key alone active, two or three generated keys |
| KeyRotation.LastTwo | apps/core/jwt/key_rotation.py:28-164 | with increasing stamps exactly the last two generated keys are stored, with their material |
| KeyRotation.VerifiableWhileAmongLastTwo | apps/core/jwt/key_rotation.py:120-177 | looking up the i-th key by id gives its own public key while it is one of the last two and nothing afterwards; without an id the newest is found |
| KeyRotation.CachedEqualsMemory | apps/core/jwt/key_rotation.py:62-164 | cached pairs and current id always equal those in memory; the metadata does except after exactly one rotation |
| KeyRotation.RestartsKeepTheWindow | apps/core/jwt/key_rotation.py:28-164 | through any creations, initializations, rotations, expiries and losses of the snapshot, the manager holds the window that the rotations since the last start from nothing give; only the current key is active exactly unless the manager was restarted between the first rotation and the second |
| KeyRotation.RestartRevivesReplacedKey | apps/core/jwt/key_rotation.py:52-127 | such a restart leaves the replaced key active |
| KeyRotation.SnapshotLives | apps/core/jwt/key_rotation.py:52-82 | a restart finds the snapshot exactly until two rotation intervals after it was last written, unless the store lost it |
| JwksInteger.BytesAreMinimal | apps/core/jwt/key_rotation.py:215-217 | the computed byte length is exactly that of the shortest big-endian octet string, so conversion never overflows |
| JwksInteger.MinimalOctetsFacts | apps/core/jwt/key_rotation.py:215-217 | those octets denote the integer and have no leading zero |
| JwksInteger.IntRoundTrip | apps/core/jwt/key_rotation.py:210-221 | encoding never raises and decoding gives the integer back |
| JwksInteger.IntEncodingInjective | apps/core/jwt/key_rotation.py:210-221 | two integers share a text exactly when they are equal |
| JwksInteger.IntTextShape | apps/core/jwt/key_rotation.py:219-221 | the text is in the URL-safe alphabet, unpadded, of the exact length |
| JwksInteger.ConformsExactlyWhenPositive | apps/core/jwt/key_rotation.py:210-221 | the text is Base64urlUInt of section 2 of RFC 7518 exactly for positive integers |
| JwksInteger.PublicExponent | apps/core/jwt/key_rotation.py:210-221 | 65537 is written AQAB, zero as the empty text |
| Base64.DecodeUndoesEncode | apps/core/jwt/key_rotation.py:219-221 | for both alphabets of RFC 4648 decoding the stripped text gives the octets |
| Base64.SymbolsOfTheTables | apps/core/jwt/key_rotation.py:219-221 | the 64 symbols of both alphabets are those of tables 1 and 2 of RFC 4648 |
| Base64.GroupsArePositional | apps/core/jwt/key_rotation.py:219-221 | each group of three octets is one number, written as four digits to the base of 64; shorter ends with zero bits and padding |
| Base64.TestVectors | jwt_scripts/format_keys.py:11 | the test vectors of section 10 of RFC 4648 |
| Retry.WithRetry | apps/core/db/decorators.py:113-143 | the store ends unchanged or with the effect of exactly one attempt; sleeps only between attempts, of geometric length; None exactly without a positive limit |
| Retry.ExecuteWithRetry | apps/core/db/db_handler.py:149-220 | the same contract, errors not worth retrying stopping at once; each sleep is the capped jittered delay; a positive limit of the caller's bounds the attempts and is reached by every Exhausted, none and zero mean the configured number, a negative one means no attempt |
| Retry.RetriedDetermined | apps/core/db/db_handler.py:149-214 | the shared contract determines result, store and number of attempts, so the two loops agree |
| Retry.RetriedStops | apps/core/db/decorators.py:113-143 | all attempts before the last were retryable failures, and the last one's ending decides the result |
| Retry.TotalBackoff | apps/core/db/decorators.py:127-133 | the geometric sum of the sleeps for every backoff, as a product |
| Retry.TotalBackoffClosedForm | apps/core/db/decorators.py:127-133 | k sleeps total delay*(backoff^k - 1)/(backoff - 1) for backoff above one |
| Retry.DelaysNeverDecrease | apps/core/db/db_handler.py:216-220 | for all draws the delays never decrease exactly when jitter is within the base delay or the cap within twice it |
| Retry.DefaultDelays | apps/core/db/db_handler.py:33-38 | the shipped configuration: three attempts; delays between 0.1 and 2 seconds, never decreasing, two seconds from the sixth attempt on |
| BulkOperations.BulkOperationHandler | apps/core/db/db_handler.py:393-437 | each operation runs once in order, error indices are exactly the failing positions with their batch coordinates, batches are the rounded-up quotient; zero and negative batch sizes |
| BulkOperations.ProcessBatch | apps/core/db/db_handler.py:410-432 | one batch extends a correct report of the operations before it to one that covers it too |
| BulkOperations.Failing | apps/core/db/db_handler.py:418-432 | the failing positions: all of them, only them, in increasing order |
| BulkOperations.EveryEffectOnce | apps/core/db/db_handler.py:410-432 | on a store that records them, every operation's effect, a failing one's too, appears once and in list order |
| BulkOperations.RecordedReport | apps/core/db/db_handler.py:410-437 | a report on such operations names exactly the positions that raise, each with its own error |
| DeepUpdate.MergeAtEveryPath | apps/core/core_exceptions/logging/config.py:172-184 | the value at every path after the update: the update's leaf, a merged dictionary, the original's value, or nothing below an overriding leaf |
| DeepUpdate.CutsOffMeansLeafAbove | apps/core/core_exceptions/logging/config.py:180-184 | a path is cut off exactly when the update has a leaf on a proper prefix of it |
| DeepUpdate.MergeIdempotent | apps/core/core_exceptions/logging/config.py:172-184 | on values, applying an update twice is applying it once |
| DeepUpdate.DeepUpdate | apps/core/core_exceptions/logging/config.py:172-184 | in place on dictionaries of any depth it ends with the merged contents and writes only to the original's dictionaries; applied again, with whatever the two share after the first time, it changes no dictionary at all |
| DeepUpdate.AppliedIsMerged | apps/core/core_exceptions/logging/config.py:172-184 | dictionaries to which an update has been applied already hold what merging it again would give |
| CacheKeys.KeyShape | apps/core/cache/cache_keys.py:16-58 | every helper's key is namespace, body and version set off by colons |
| CacheKeys.KeyTexts | apps/core/cache/cache_keys.py:16-58 | the text of every helper's key, in full |
| CacheKeys.AbsentPartsAreSkipped | apps/core/cache/cache_keys.py:16-24 | an absent part leaves no trace in a key |
| CacheKeys.HelpersJointlyInjective | apps/core/cache/cache_keys.py:27-58 | with non-empty colon-free versions and colon-free actions two helper keys are equal exactly when helper, arguments and version are |
| CacheKeys.ActionColonCollides | apps/core/cache/cache_keys.py:46-48 | a colon in an action lets two rate limit keys collide |
| CacheKeys.VersionColonCollides | apps/core/cache/cache_keys.py:22-23 | a colon in a version lets two profiles collide |
| CacheKeys.EmptyVersionCollides | apps/core/cache/cache_keys.py:22-23 | an empty version lets two profiles collide |
| CacheKeys.InjectiveExactlyForApartVersions | apps/core/cache/cache_keys.py:16-58 | for any two versions, whatever characters they have, no two helper keys with colon-free actions coincide exactly when the versions are equal, or both are non-empty and neither ends with the version suffix of the other |
| CacheKeys.PatternSelectsExactly | apps/core/cache/cache_manager.py:94-98 | the pattern matches exactly the helper keys of the namespace and version, or of all versions |
| CacheKeys.LimiterKeysSurvive | apps/core/cache/cache_manager.py:94-98 | clearing the rate limit namespace reaches the limiter's own keys exactly when they happen to end like a version |
| CacheManager.CacheManager.GetUser | apps/core/cache/cache_manager.py:23-26 | the live profile entry of that user and version |
| CacheManager.CacheManager.SetUser | apps/core/cache/cache_manager.py:28-31 | one write; a missing or zero time to live expires the profile after the default, any other after itself |
| CacheManager.CacheManager.DeleteUser | apps/core/cache/cache_manager.py:33-36 | one deletion, reporting whether the profile was live |
| CacheManager.CacheManager.InvalidateUserCaches | apps/core/cache/cache_manager.py:65-79 | profile and sessions are dropped |
| CacheManager.CacheManager.GetManyUsers | apps/core/cache/cache_manager.py:81-92 | exactly the users that single reads would find, with the same values |
| CacheManager.CacheManager.ClearNamespace | apps/core/cache/cache_manager.py:94-103 | the new store and the number of removed keys |
| CacheManager.ClearRemovesExactly | apps/core/cache/cache_manager.py:94-103 | a helper key leaves the store exactly when it is live, in the namespace and of the version; the others keep their entries |
| CacheManager.LastChangeDecides | apps/core/cache/cache_manager.py:22-103 | after any run of writes, deletions and clearings each entry answers by the last change that concerned it: the string store is one independent entry per helper, identifier and version |
| CacheManager.ChangeIsLocal | apps/core/cache/cache_manager.py:22-103 | one change shows at the entries it concerns and at no other |
| CacheManager.InvalidationReaches | apps/core/cache/cache_manager.py:65-79 | invalidation reaches the user's profile and sessions of that version and no other helper's entry |
| ValidationContext.ValidationContext.AddError | apps/core/core_validators/valdiaiton_context.py:15-24 | the whole new context; empty fields and messages and repetitions change nothing |
| ValidationContext.ValidationContext.AddWarning | apps/core/core_validators/valdiaiton_context.py:26-29 | the same for warnings |
| ValidationContext.ValidationContext.SetContext | apps/core/core_validators/valdiaiton_context.py:47-49 | one context entry is set |
| ValidationContext.ValidationContext.Clear | apps/core/core_validators/valdiaiton_context.py:55-59 | nothing is left |
| ValidationContext.ValidationContext.Merge | apps/core/core_validators/valdiaiton_context.py:61-73 | the merged context, also when a context is merged into itself; a key has the other's entry if the other has one, else its own; the other one is unchanged |
| ValidationContext.ValidationContext.MergeErrors | apps/core/core_validators/valdiaiton_context.py:63-68 | the loop over the other's fields adds to each list what it lacks, testing against the growing list |
| ValidationContext.ValidationContext.MergeWarnings | apps/core/core_validators/valdiaiton_context.py:70-71 | the other's warnings go through add_warning one by one |
| ValidationContext.BuiltIsWellFormed | apps/core/core_validators/valdiaiton_context.py:15-73 | however a context was built its lists have no repetition, no empty message, and no field is empty |
| ValidationContext.MergeKeepsWellFormed | apps/core/core_validators/valdiaiton_context.py:61-73 | merging keeps that, and keeps the earlier messages in front |
| ValidationContext.MergingIsReplaying | apps/core/core_validators/valdiaiton_context.py:61-73 | any nesting of merges equals adding every error and warning to one context in order |
| ValidationContext.LastSettingWins | apps/core/core_validators/valdiaiton_context.py:47-73 | however a context was built, a key has an entry exactly when it was set somewhere, with the value last set in replay order |
| ValidationContext.FirstReportsInOrder | apps/core/core_validators/valdiaiton_context.py:23-24 | a context keeps exactly the reported messages, each once, in the order of their first reports |
| ValidationContext.MergeAssociative | apps/core/core_validators/valdiaiton_context.py:61-73 | merging is associative on errors, warnings and context |
| ValidationContext.MergeIdempotent | apps/core/core_validators/valdiaiton_context.py:61-73 | merging again, or with itself, changes nothing |
| Pagination.PageCountsAgree | apps/tcc/api/views/user_view.py:147 | the floor formula agrees with the schema's ceiling formula on all totals and page sizes |
| Pagination.CeilIsLeast | apps/core/schemas/common/pagination.py:58 | the rounded-up quotient is the least number of pages with room for everything |
| Pagination.GetPaginated | apps/tcc/usecase/repo/domain_repo/user_repo.py:215-241 | the entities of the slice and the total; a negative bound is answered by nothing |
| Pagination.PageHolds | apps/tcc/usecase/repo/domain_repo/user_repo.py:228-237 | a page holds the items from its offset on, as many as fit |
| Pagination.ServedFields | apps/tcc/api/views/user_view.py:139-160 | every field of the response: total, page and size, the least number of pages with room for everything, and whether items lie before and after the page |
| Pagination.NegativeBounds | apps/tcc/usecase/repo/domain_repo/user_repo.py:228-241 | a page that begins or ends before the first item is answered by nothing and a total of zero |
| Pagination.SchemaServesTheSame | apps/core/schemas/common/pagination.py:30-71 | the schema's response over the records from skip on equals the response of the views |
| Pagination.EachItemOnOnePage | apps/tcc/usecase/repo/domain_repo/user_repo.py:228-237 | every item is on exactly one page, at one place |
| Pagination.HasNextExactly | apps/tcc/api/views/user_view.py:149-158 | has_next says exactly whether items are left after the page |
| Pagination.WalkCollects | apps/tcc/api/views/user_view.py:139-160 | following has_next from any page collects the items from its offset on, in order, and ends with the last page |
| Pagination.WalkCollectsEverything | apps/tcc/api/views/user_view.py:139-160 | from page 1 the walk visits total_pages pages and collects the whole result exactly when per_page is positive or the result empty |
| Utf8.DecodeUndoesEncode | jwt_scripts/format_keys.py:11 | decoding the UTF-8 octets of a text gives the text |
| Utf8.OctetsOfTheTable | jwt_scripts/format_keys.py:11 | the number, ranges and bits of the octets of every character are those of section 3 of RFC 3629 |
| EnvKeys.StripTakesOnlySpace | jwt_scripts/format_keys.py:8 | stripping takes away white space at the two ends and nothing else |
| EnvKeys.SpaceIsListed | jwt_scripts/format_keys.py:8 | the characters that count as white space, listed |
| EnvKeys.SurroundingSpaceGoes | jwt_scripts/format_keys.py:5-16 | the third result is the text between the surrounding white space, a newline at the end included, and all results are those of that text |
| EnvKeys.EscapedFormByParts | jwt_scripts/format_keys.py:14 | the escaped form goes character by character: a newline becomes backslash-n, a double quote is preceded by a backslash, any other character stays |
| EnvKeys.EscapedFormRoundTrip | jwt_scripts/format_keys.py:5-16 | the escaped form is one line, and reading it gives the key back exactly when the key is not blank and has no double quote and no backslash-n |
| EnvKeys.DecodingTwice | config/settings/base.py:191-207 | a value is missing exactly when it is empty, and decoding a decoded value changes nothing |
| EnvKeys.ReadsLines | config/settings/base.py:191-207 | a value with newlines is used as it is; lines separated by backslash-n are read as the same lines separated by newlines |
| EnvKeys.IsLines | config/settings/base.py:203-205 | every one-line value is a list of lines separated by backslash-n |
| EnvKeys.Base64FormIsNotDecoded | config/settings/base.py:191-207 | the base64 form is returned as it is, never equal to the key, though base64 and UTF-8 decoding would give the key |

## Left out

- Threads inside one generator: the lock makes calls run one after the other, and each execution context has its own sequence and last timestamp.
- SnowflakeShared.TimelyIdsAreDistinct: no call of the interleaved machine falls back to the local sequence; any two contexts, on the counter, the fallback or both, are compared in `ContextsShareExactlyWhenMeeting`.
- SnowflakeIssued.ServedIdsIncrease: states the sufficient direction, because calls may be answered without the IDs that break the order; the equivalence is in `ServedIdsExactly`.
- SnowflakeIssued.ServedMixedIdsIncrease: as for ServedIdsIncrease.
- SnowflakeIssued.IdsDistinctUnlessMeeting: a second increment that again exceeds 4095, whose ID overlaps the machine field, is excluded by the condition that sequences fit; so in MixedIdsIncrease, ServedIdsExactly and ContextsShareExactlyWhenMeeting.
- SnowflakeShared.RunInvariant: assumes a store whose increment creates a missing counter at 1 and is atomic, as Redis does; the configured local-memory cache raises on a missing key instead, which is the fallback.
- RateLimiter.WindowBound: checks are sequential, take no time between reading and storing, and the cache is healthy; the path that admits every caller when the cache raises is not modelled.
- RateLimiter.RateLimiter.CheckRateLimit: the cache does not raise; the admission on an error and the error counter are left out.
- RateLimiter.RateLimiter.GetRateLimitInfo: the error dictionary returned when the cache raises is left out.
- RateLimiter.RateLimiter.ResetRateLimit: the False returned when the cache raises is left out.
- RateLimiter.ReportsAddUp: needs a limit of at least zero and a non-negative window; the strategies besides the sliding window are not implemented in the source either.
- TtlCache.AsyncCache.Set: the value is stored as it is; JSON serialization, the connection, the breaker around each call and the hit and miss counters are not part of this model, expiry is at the full precision of the clock, and every caller here passes a time to live, so the cache's own default does not arise.
- TtlCache.AsyncCache.Get: hit, miss and operation counters and the breaker around the read are left out, here and in the other operations.
- TtlCache.AsyncCache.GetMany: as for Get; the values are read at one instant.
- TtlCache.AsyncCache.Delete: as for Get.
- TtlCache.AsyncCache.FlushPattern: keys and values do not change between listing and deleting.
- DbCircuitBreaker.CircuitBreaker.Execute: the asynchronous twin has the same locked sections; decorating and the exception's details are left out.
- CacheCircuitBreaker.Executor.OperationFailed: the connection error counter and the connected flag belong to the connection handling, which is left out.
- KeyRotation.KeyRotationManager.SaveKeysToCache: the update stamp in the snapshot and the swallowed cache error are left out.
- KeyRotation.KeyRotationManager.Initialize: the manager has a cache and the cache does not raise; key identifiers are opaque numbers, key material opaque text, and fresh identifiers are assumed only where a lemma says so.
- KeyRotation.RestartsKeepTheWindow: one process at a time writes the snapshot; processes that run side by side overwrite one another's.
- Retry.WithRetry: the asynchronous wrapper, logging and exception mapping; a rolled-back attempt leaves no trace in the store.
- Retry.TotalBackoff: delays are real numbers, floating-point rounding is not modelled.
- BulkOperations.BulkOperationHandler: the execution time, names of operations, and exceptions outside Exception, which end the loop.
- DeepUpdate.DeepUpdate: before the first call the two dictionaries share no nested dictionary, and neither contains one of its own twice; keys are strings, leaves are integers, insertion order is not kept.
- CacheKeys.PatternSelectsExactly: versions with glob characters and the character classes of the pattern language.
- CacheManager.CacheManager.InvalidateUserCaches: the False returned when the cache raises is left out.
- CacheManager.CacheManager.ClearNamespace: the zero returned when the cache raises is left out.
- CacheManager.CacheManager.GetUser: the wrappers for email addresses and sessions have the same shape and are covered by the helper-level lemmas; errors that the manager catches are not modelled.
- ValidationContext.ValidationContext.Merge: fields are visited in arbitrary order and the order of fields is not kept; the copies that share their inner lists with the context, and the context manager that raises on exit, are left out.
- Pagination.GetPaginated: the ordered result is the same for every page; rows with equal creation times that change places between queries, filters, and the caching decorator are left out.
- EnvKeys.EscapedFormRoundTrip: the line passes unchanged through the environment file; its reader is not part of this model.
- Utf8.DecodeUndoesEncode: characters are Unicode scalar values, so lone surrogates do not occur.
- Models, views, signals, permissions, JWT signing and verification, token storage, exception mapping by message text, and the caching decorators whose keys do not match: thin wrappers, foreign calls, or code without a property to keep.
