# AppGate: a verified model of its stateful cores

AppGate is a security gateway between applications and LLM providers: a Go control plane, a Rust gateway and a
set of Go services. Most of it is I/O. This project models the parts that keep state or transform text, and
proves what they keep over whole runs.

| file | models |
|---|---|
| `LeaderElection.dfy` | any number of electors and etcd, as one step system: sessions, campaigns, expiry, late notices, resignation |
| `SlidingWindow.dfy` | the gateway's sorted-set limiter, once with atomic checks against a keep-everything reference, once with its Redis commands interleaved |
| `SlidingWindowTimed.dfy` | the interleaved limiter with time passing between commands |
| `FixedWindow.dfy` | the per-project counter limiter, with Redis failures |
| `ActiveSeconds.dfy` | the control plane's sorted-set limiter, which stores seconds |
| `CircuitBreaker.dfy` | the timed three-state breaker |
| `AuditBatcher.dfy` | the audit queue, its batching worker and Close |
| `ConnectionDrain.dfy` | connection permits, the active counter, the accept loop and the drain loop, interleaved |
| `Redaction.dfy`, `Detection.dfy`, `Text.dfy` | PII redaction over an arbitrary map order, the detection patterns, and the string operations under both |
| `PromptInspection.dfy` | injection scoring and the order of checks |
| `PolicyEvaluation.dfy` | policy evaluation in Go and in Rust |
| `RouteTable.dfy` | the route-table parser and route selection |
| `Common.dfy` | options, and a Redis key with its deadline |

Concurrent parts are total step functions: an action that is not enabled leaves the state unchanged, so a theorem
about every action sequence is a theorem about every interleaving. Objects with mutable fields are classes whose
methods are proved against the value-level functions that the run theorems use. Clocks, Redis and etcd answers,
insert outcomes on an open pool and lower-casing are inputs.

Verify with `dafny verify dfyconfig.toml`.

## What the proofs show about the code

- `isLeader` alone is not exclusive: two flags are set at once exactly from the moment one elector takes office while
  another still has its flag. "Flag set and own key still live" is exclusive, and its revisions only grow. `Run` leaves
  the flag set behind it exactly when its Resign call fails with the flag set.
- An elector blocked on its session with its key live loses its flag exactly when a Resign call from outside `Run`
  clears it, and that call is of an earlier term or has deleted nothing. Nobody is in office then until the key goes.
- Nothing that befalls another elector, its lease or its calls can end a term; an elector is unhealthy exactly when it
  has failed to open a session or to campaign since it last took office.
- With atomic checks, and as long as no deadline overflows, the gateway's sliding window gives the answers of a
  keep-everything reference exactly when the limit is below 2^63; from there on the signed comparison denies everyone.
- A window of 2^64 - 9223372036854775 seconds or more becomes a small negative lifetime and every entry is forgotten.
  With atomic checks, and somebody able to pass, the service keeps every window within the limit exactly below that.
- Checks are not atomic. With `c` in flight the bound on stored entries is `limit + c - 1`. Over time the most that a
  window admits is `limit + 3c - 1`, or `2c` for a limit of 1, and both are reached for every `c`. Over all 64-bit
  settings the strict limit survives interleaving exactly when the window is zero, nobody can pass, Redis refuses the
  lifetime from the start, or checks come one at a time and the first deadline lies beyond the clock.
- Every check of the interleaved limiter gets exactly one answer, and commands sent back to back are the atomic check.
- The control plane's limiter never denies anyone: it counts at most 60 active seconds against a limit of 100.
- The project limiter is documented as a token bucket; it is a fixed window and can pass twice its burst within
  one window length.
- Redaction leaves no listed match exactly when none of them is a piece of the word REDACTED, or none occurred; no
  match of a detection pattern is such a piece.
- The injection marker "DAN mode" can never match, because the prompt is lower-cased first.
- In mask mode, a prompt with PII is let through whatever its length.
- In the release build a panicking handler aborts the process, so the counter never exceeds 10000 and always agrees
  with the permits. In an unwinding build it releases its permit but not its count, and the drain can then only time
  out. Either way the drain ends.
- `Log` panics in the caller exactly after `Close`, and drops exactly at a full queue before it. When `Close` reaches
  the pool, what is still queued or batched is never stored.
- A trial count of zero, the derived default, denies every call of a half-open breaker after the one that opened it
  half, and one success closes it.
- A policy that selects subjects by groups only passes validation and can never grant a request.

## Model

| member | source | states |
|---|---|---|
| `LeaderElection.AtMostOneInOffice` | control-plane/internal/leader/leader.go:48-106 | in every reachable state at most one elector has its flag set while its own key is live, and it holds the smallest live create-revision |
| `LeaderElection.OfficeMovesForward` | control-plane/internal/leader/leader.go:71-85 | over any run, an elector in office later never has a smaller revision than one in office earlier |
| `LeaderElection.StepKeepsInv` | control-plane/internal/leader/leader.go:48-106 | every step keeps the election invariant, and keys that appear are newer than all seen before |
| `LeaderElection.VacancyLocksTheOffice` | control-plane/internal/leader/leader.go:74-102 | while an elector without its flag holds a live key it campaigned with, no elector is in office |
| `LeaderElection.FlagLostExactly` | control-plane/internal/leader/leader.go:164-187 | an elector blocked on its session loses its flag exactly when a returned Resign call of its own clears it |
| `LeaderElection.VacancyExactly` | control-plane/internal/leader/leader.go:164-187 | its office becomes vacant exactly when that happens with its key live; the call is then of an earlier term or has deleted nothing |
| `LeaderElection.VacancyNeedsResign` | control-plane/internal/leader/leader.go:164-187 | in every run that ends in a vacant office, some action was such a step of that elector, enabled in the state before it |
| `LeaderElection.StepKeepsCalls` | control-plane/internal/leader/leader.go:164-183 | a Resign call in flight is of its elector's term or an earlier one, and a key it has deleted is gone |
| `LeaderElection.LateResignVacatesOffice` | control-plane/internal/leader/leader.go:165-183 | a run in which a Resign call begun in one term clears the flag of the next |
| `LeaderElection.SecondResignVacatesOffice` | control-plane/internal/leader/leader.go:177-183 | a run in which a second Resign of one term, after a failed one, deletes nothing and clears the flag |
| `LeaderElection.InvFrom` | control-plane/internal/leader/leader.go:48-106 | from any state that meets the invariant, every run keeps it and only newer keys appear |
| `LeaderElection.InvAlways` | control-plane/internal/leader/leader.go:48-106 | the invariant holds after every action sequence, for any number of electors |
| `LeaderElection.ReadinessIsHealth` | control-plane/cmd/server/main.go:88-99 | in every reachable state, "leader or healthy" is the same as "healthy" |
| `LeaderElection.HealthExactly` | control-plane/internal/leader/leader.go:59-85 | an elector is unhealthy after a step exactly when a session or campaign failed there, or it was unhealthy and did not take office |
| `LeaderElection.UnhealthyExactly` | control-plane/internal/leader/leader.go:59-85 | in every run an elector is unhealthy exactly when it has failed since it last took office |
| `LeaderElection.FlagExactly` | control-plane/internal/leader/leader.go:82-187 | the flag is set exactly by taking office, and cleared exactly by stepping down, by the Resign of `Run` or by a returned call of its own |
| `LeaderElection.ReturnsExactly` | control-plane/internal/leader/leader.go:48-106 | `Run` returns exactly at the top of its loop, without a flag to resign, or when its Resign has ended |
| `LeaderElection.KeysExactly` | control-plane/internal/leader/leader.go:71-80 | which step adds a key and which remove it: its lease going, a failed campaign, or a delete of its own term |
| `LeaderElection.LeasesExactly` | control-plane/internal/leader/leader.go:59-80 | which step adds a lease and which end it |
| `LeaderElection.OwnedAlways` | control-plane/internal/leader/leader.go:48-187 | in every reachable state leases are distinct, live keys hang on live leases, an elector in its term on its own, and no call resigns another elector's term |
| `LeaderElection.OfficeLostExactly` | control-plane/internal/leader/leader.go:82-187 | an elector in office leaves it exactly when its flag is cleared, its own lease expires or its own Resign deletes its key; nothing that befalls others can end its term |
| `LeaderElection.ElectableExactly` | control-plane/internal/leader/leader.go:48-106 | from any state an elector can come to lead exactly when `Run` is not on its way out |
| `LeaderElection.DroppedExactly` | control-plane/internal/leader/leader.go:177-179 | a term loses its session exactly when the reply to its delete arrives, or request or reply is lost |
| `LeaderElection.CallEndsExactly` | control-plane/internal/leader/leader.go:177-187 | a Resign call ends exactly by clearing the flag after its return, or by an error |
| `LeaderElection.NoRequestAfterDrop` | control-plane/internal/leader/leader.go:177-179 | no delete is requested for a term that has lost its session |
| `LeaderElection.SkipNeedsEarlierResign` | control-plane/internal/leader/leader.go:177-179 | in every run, a call that returned without deleting came after another Resign of its term had ended |
| `LeaderElection.StaleExitExactly` | control-plane/internal/leader/leader.go:92-97 | a flag left set after `Run` arises exactly at the failure of its Resign call with the flag set |
| `LeaderElection.FlagAfterExitMeansResignFailed` | control-plane/internal/leader/leader.go:92-97 | in every run that ends so, some action was such a failure, enabled in the state before it |
| `LeaderElection.StaleFlagAfterFailedResign` | control-plane/internal/leader/leader.go:177-183 | a run in which the flag stays set after exit although no key is live |
| `LeaderElection.TwoFlagsExactly` | control-plane/internal/leader/leader.go:82-102 | two flags come to be set at once exactly when one elector takes office while the other has its flag, and then not both are in office |
| `LeaderElection.TwoFlagsNeedTakeOffice` | control-plane/internal/leader/leader.go:82-102 | in every run that ends with two flags, some action was such a step, enabled in the state before it |
| `LeaderElection.TwoFlagsCanCoexist` | control-plane/internal/leader/leader.go:89-102 | a run in which two flags are set at once, one of them without a live key |
| `LeaderElection.ElectionSucceeds` | control-plane/internal/leader/leader.go:59-85 | with no live key, an idle elector reaches office by its own four actions |
| `SlidingWindow.RateLimiterService.CheckRedis` | rust-gateway/src/rate_limit.rs:53-96 | for every 64-bit limit and window the command sequence computes the check with its wrapped product, signed casts and refused EXPIRE; in range it is the plain check |
| `SlidingWindow.WideIsPlain` | rust-gateway/src/rate_limit.rs:53-96 | in range, whole runs of the two agree in key and answers |
| `SlidingWindow.ForgetfulWindow` | rust-gateway/src/rate_limit.rs:89-93 | a window of zero, or one whose cast is a small negative lifetime, admits every check of every run |
| `SlidingWindow.RefusedWindow` | rust-gateway/src/rate_limit.rs:89-93 | a window that EXPIRE refuses never gets a yes |
| `SlidingWindow.PositiveLifetimeKeeps` | rust-gateway/src/rate_limit.rs:53-96 | with a window that EXPIRE can accept, also past the clock value from which it refuses, every window holds at most `limit` yes answers |
| `SlidingWindow.ServiceKeepsLimitExactly` | rust-gateway/src/rate_limit.rs:53-96 | for every 64-bit limit and window, the service keeps every window within the limit on every clock exactly when the limit is 0 or 2^63 and more, or the window is below 2^64 - 9223372036854775 |
| `SlidingWindow.AnswersAsReference` | rust-gateway/src/rate_limit.rs:60-95 | the answers of a run are those of a reference that never prunes, expires or casts, exactly when the limit is below 2^63 or there was no check |
| `SlidingWindow.ServiceAnswersAsReference` | rust-gateway/src/rate_limit.rs:53-96 | the same of the service with its wrapping product and signed casts, on every clock in range |
| `SlidingWindow.HugeLimitDenies` | rust-gateway/src/rate_limit.rs:77-80 | for a limit of 2^63 or more every answer of every run is no |
| `SlidingWindow.AdmittedAsReference` | rust-gateway/src/rate_limit.rs:60-95 | the same of the admissions |
| `SlidingWindow.HoldsAlways` | rust-gateway/src/rate_limit.rs:62-93 | the stored set is exactly the admissions of the last window, and its deadline lies a window after all admissions |
| `SlidingWindow.CheckKeeps` | rust-gateway/src/rate_limit.rs:60-95 | one check never admits without room in the last window, decides by it exactly for a limit below 2^63, and restores the invariant |
| `SlidingWindow.HasRoomExactly` | rust-gateway/src/rate_limit.rs:72-77 | there is room exactly when fewer than `limit` admissions are less than a window old, counted as a set |
| `SlidingWindow.WithinExactly` | rust-gateway/src/rate_limit.rs:60-95 | the admissions of an interval, counted as a set |
| `SlidingWindow.PruneShowsTheWindow` | rust-gateway/src/rate_limit.rs:62-70 | pruning at the saturated window start, expired key or not, leaves exactly the last window |
| `SlidingWindow.WindowBound` | rust-gateway/src/rate_limit.rs:60-95 | every half-open interval of `window` seconds holds at most `limit` admissions |
| `SlidingWindowRace.StepKeepsBound` | rust-gateway/src/rate_limit.rs:65-93 | every single Redis command keeps entries plus passed checks below limit plus checks in flight |
| `SlidingWindowRace.AnsweredOnce` | rust-gateway/src/rate_limit.rs:53-96 | in every interleaving each check is answered at most once, with its own time and before the next of its slot begins, and is in flight exactly as long as it has no answer |
| `SlidingWindowRace.DeniedExactly` | rust-gateway/src/rate_limit.rs:72-80 | a check is answered no exactly when its count finds the promised limit reached, or the limit is 2^63 or more |
| `SlidingWindowRace.BackToBack` | rust-gateway/src/rate_limit.rs:53-96 | the five commands of one check back to back leave the key and give the answer of the atomic check |
| `SlidingWindowRace.SequentialIsAtomic` | rust-gateway/src/rate_limit.rs:53-96 | whole runs of such checks are the runs of the atomic service |
| `SlidingWindowRace.EntriesAreChecks` | rust-gateway/src/rate_limit.rs:82-87 | in every interleaving each stored score is the time at which some check began |
| `SlidingWindowRace.ExpiredIsGone` | rust-gateway/src/rate_limit.rs:65-93 | no command finds anything in a key whose deadline has passed |
| `SlidingWindowRace.UnexpiredIsSeen` | rust-gateway/src/rate_limit.rs:82-87 | up to its deadline ZADD finds and keeps everything, and the deadline |
| `SlidingWindowRace.RaceBound` | rust-gateway/src/rate_limit.rs:65-93 | in every interleaving of at most `c` checks, entries plus passed checks never exceed limit + c - 1 |
| `SlidingWindowRace.RaceBoundIsReached` | rust-gateway/src/rate_limit.rs:72-93 | for every limit from 1 to below 2^63, every `c` and every 64-bit window whose lifetime does not delete the key and whose product does not wrap to zero, some interleaving stores limit + c - 1 entries of one instant |
| `SlidingWindowRace.ForgetfulRaceBound` | rust-gateway/src/rate_limit.rs:82-93 | where every EXPIRE deletes the key, entries plus passed checks never exceed the checks in flight |
| `SlidingWindowRace.ForgetfulRaceBoundIsReached` | rust-gateway/src/rate_limit.rs:72-87 | and that many are stored by some interleaving |
| `SlidingWindowRace.RaceDeniesAll` | rust-gateway/src/rate_limit.rs:77-80 | for a limit of zero, or of 2^63 and more, nothing is ever stored |
| `SlidingWindowTimed.TimedWindowBound` | rust-gateway/src/rate_limit.rs:60-95 | in every timed interleaving of at most `c` checks and for every window below 2^64 - 9223372036854775, every half-open window has at most limit + 3c - 1 yes answers, at most 2c for a limit of 1, and none where nobody can pass or EXPIRE is refused from the start |
| `SlidingWindowTimed.TimedWindowBoundIsReached` | rust-gateway/src/rate_limit.rs:60-95 | for every limit, window and `c`, some run has exactly that many in some window, provided the clock has room for two windows (one for a limit of 1) below 2^53 |
| `SlidingWindowTimed.ForgetfulHasNoBound` | rust-gateway/src/rate_limit.rs:89-93 | for the windows above, any number of checks is admitted in one window |
| `SlidingWindowTimed.StrictLimitExactly` | rust-gateway/src/rate_limit.rs:53-96 | for every 64-bit limit and window, every `c` and every start, all timed runs keep every window within the limit exactly when the window or the limit is zero, the limit is 2^63 or more, EXPIRE is refused from the start, or one check at a time never lives to see a deadline |
| `SlidingWindowTimed.LoneFrom` | rust-gateway/src/rate_limit.rs:60-95 | until the first deadline has passed, checks that come one at a time keep the strict limit in every window |
| `SlidingWindowTimed.UnsafeExceeds` | rust-gateway/src/rate_limit.rs:60-95 | in every other setting, a run that exceeds the limit in one window |
| `SlidingWindowTimed.FreshEntriesAreLost` | rust-gateway/src/rate_limit.rs:82-93 | for every positive window with clock room, a run in which one expiry loses the entries of all `c` checks in flight |
| `SlidingWindowTimed.BurstAndLateStores` | rust-gateway/src/rate_limit.rs:65-93 | from an empty key and for every positive window with clock room, a run that puts limit - 1 + 2c more yes answers into one window |
| `SlidingWindowTimed.TimedStepKeeps` | rust-gateway/src/rate_limit.rs:65-93 | every command and every passing of time keeps the invariant of a window: few of its entries have left the key, and late checks use up their places |
| `SlidingWindowTimed.AnsweredIsSeen` | rust-gateway/src/rate_limit.rs:89-95 | the counted answers are exactly the yes answers that callers see |
| `SlidingWindowTimed.EarlyKeeps` | rust-gateway/src/rate_limit.rs:65-93 | before a window ends, at most `c` of its entries leave the key, and only by one expiry |
| `SlidingWindowTimed.LateKeeps` | rust-gateway/src/rate_limit.rs:82-87 | after a window has ended, only checks already in flight can add to it, once each |
| `SlidingWindowTimed.ExpiryBetweenCommands` | rust-gateway/src/rate_limit.rs:82-93 | for every limit from 2 to below 2^63 and every positive window with clock room, a run with one check in flight and no late store that admits one more than the limit |
| `FixedWindow.Limiter.CheckLimit` | internal/ratelimit/limiter.go:68-91 | one check increments and refreshes the window's counter and answers from it; an error lets the request through |
| `FixedWindow.CounterIsIncrements` | internal/ratelimit/limiter.go:69-73 | in every run each counter is the number of increments sent to its window, so it never expires inside it |
| `FixedWindow.BucketExactly` | internal/ratelimit/limiter.go:69 | the windows are the stretches of one window length from time zero on |
| `FixedWindow.CounterDeadline` | internal/ratelimit/limiter.go:71-73 | a counter exists exactly once its window has an increment, and is to be deleted a window and a second after the latest EXPIRE |
| `FixedWindow.ExpiredStartsAnew` | internal/ratelimit/limiter.go:71-73 | an increment of a counter whose deadline has passed starts at one |
| `FixedWindow.AnswerByIncrements` | internal/ratelimit/limiter.go:75-90 | a check is allowed exactly when Redis failed or fewer than `burst` increments came before it in the window, `remaining` is what is left of `rps`, the announced reset lies one window ahead and never before the window's end, and a failed check answers with zeros |
| `FixedWindow.WindowAdmitsExactly` | internal/ratelimit/limiter.go:68-91 | an aligned window admits exactly min(checks, burst) without failures, and each failure adds at most one |
| `FixedWindow.SpanBound` | internal/ratelimit/limiter.go:68-91 | any span of one window length admits at most twice the burst |
| `FixedWindow.SpanBoundIsReached` | internal/ratelimit/limiter.go:68-91 | a run that admits exactly twice the burst in one such span |
| `ActiveSeconds.RedisRateLimiter.CheckKey` | control-plane/internal/ratelimit/ratelimit.go:74-100 | the pipeline counts, prunes, adds the second and renews the deadline, in that order |
| `ActiveSeconds.StoreIsActive` | control-plane/internal/ratelimit/ratelimit.go:79-84 | after every check the set is exactly the distinct seconds of the last 60 with a check |
| `ActiveSeconds.NeverDenies` | control-plane/internal/ratelimit/ratelimit.go:89-99 | every check reads the size left by the previous one or zero after a silent minute; remaining is 40 to 100 and no check is denied |
| `ActiveSeconds.AnswerByCount` | control-plane/internal/ratelimit/ratelimit.go:89-97 | for any stored set the answer is by its size against 100 |
| `ActiveSeconds.BurstPasses` | control-plane/internal/ratelimit/ratelimit.go:90-92 | any number of checks in one instant are all allowed |
| `CircuitBreaker.Circuit.constructor` | rust-gateway/src/circuit_breaker.rs:23-31 | a new breaker is closed with empty counters |
| `CircuitBreaker.Circuit.Allow` | rust-gateway/src/circuit_breaker.rs:33-52 | the in-place method computes the value-level transition and answer |
| `CircuitBreaker.Circuit.RecordSuccess` | rust-gateway/src/circuit_breaker.rs:54-70 | the in-place method computes the value-level transition |
| `CircuitBreaker.Circuit.RecordFailure` | rust-gateway/src/circuit_breaker.rs:72-79 | the in-place method computes the value-level transition |
| `CircuitBreaker.SpellBeginsEmpty` | rust-gateway/src/circuit_breaker.rs:54-64 | a closed spell, first or later, begins with the counter at zero |
| `CircuitBreaker.CounterIsWorstSuffix` | rust-gateway/src/circuit_breaker.rs:54-79 | in every closed spell, while no stretch of it reaches the threshold, the counter is the largest failures-minus-successes over all suffixes of the spell |
| `CircuitBreaker.TripsAtFirstBadStretch` | rust-gateway/src/circuit_breaker.rs:72-79 | the first stretch of a closed spell to reach the threshold ends in a failure that opens the breaker |
| `CircuitBreaker.TripsExactlyOnBadStretch` | rust-gateway/src/circuit_breaker.rs:54-79 | since the start of any closed spell the breaker has stayed closed exactly when no stretch of the spell reached the threshold |
| `CircuitBreaker.StepKeepsState` | rust-gateway/src/circuit_breaker.rs:33-79 | each state bounds the counters; failures outside Closed open it and late successes change nothing |
| `CircuitBreaker.FailureOpensExactly` | rust-gateway/src/circuit_breaker.rs:72-79 | a failure opens a breaker that is not open exactly when it reaches the threshold and the 32-bit counter does not wrap |
| `CircuitBreaker.GrantsExactly` | rust-gateway/src/circuit_breaker.rs:33-52 | in every run a call is let through exactly when the breaker is closed, open for longer than the timeout since the latest failure, or half-open with trial calls configured |
| `CircuitBreaker.HalfOpenExactly` | rust-gateway/src/circuit_breaker.rs:36-60 | it is half-open exactly after a call let through while open, until it closes or fails |
| `CircuitBreaker.OpenExactly` | rust-gateway/src/circuit_breaker.rs:33-79 | it is open exactly after a failure it does not absorb, until a call is let through |
| `CircuitBreaker.HealthyUpstreamIsServed` | rust-gateway/src/circuit_breaker.rs:33-70 | without failures it stays closed and lets every call through |
| `CircuitBreaker.TripsArePaidFor` | rust-gateway/src/circuit_breaker.rs:54-79 | in every run, threshold times trips plus the pending counter is at most the failures recorded |
| `CircuitBreaker.StaysOpenUntilGranted` | rust-gateway/src/circuit_breaker.rs:33-79 | after a failure that leaves it open, it stays open until an allow succeeds |
| `CircuitBreaker.NoGrantBeforeTimeout` | rust-gateway/src/circuit_breaker.rs:36-48 | the next granted allow comes more than the timeout after every failure so far |
| `CircuitBreaker.TrialCount` | rust-gateway/src/circuit_breaker.rs:40-60 | in a half-open spell the success counter is the successes since its entry, with no failure between |
| `CircuitBreaker.HalfOpenGrantsExactly` | rust-gateway/src/circuit_breaker.rs:50 | in every reachable half-open state a call is let through exactly when the configured trial count is not zero |
| `CircuitBreaker.ClosesExactlyAfterTrials` | rust-gateway/src/circuit_breaker.rs:54-70 | a breaker that is not closed closes exactly at the configured success of a half-open spell |
| `AuditBatcher.Logger.LogEvent` | internal/audit/logger.go:163-172 | stamps and enqueues, drops only at a full queue, panics once closed |
| `AuditBatcher.Logger.FlushBatch` | internal/audit/logger.go:91-103 | hands over the filled part of the reused buffer and empties it |
| `AuditBatcher.Logger.ReceiveEvent` | internal/audit/logger.go:108-119 | appends to the buffer, flushes at 100, and on the closed empty queue flushes and is done |
| `AuditBatcher.Logger.TickerFires` | internal/audit/logger.go:120-122 | flushes the current batch |
| `AuditBatcher.Logger.CloseQueue` | internal/audit/logger.go:201-206 | closes the queue, once or again, and changes nothing else |
| `AuditBatcher.Logger.ClosePoolAfter` | internal/audit/logger.go:207-215 | closes the pool once the queue is closed, whether or not the worker is done |
| `AuditBatcher.NothingIsLost` | internal/audit/logger.go:89-124 | for every interleaving, handed batches, current batch and queue are the accepted events in order; batches have 1 to 100 events; once done everything accepted was handed over |
| `AuditBatcher.LogOutcomeExactly` | internal/audit/logger.go:163-172 | in every run the Log call at a position panics exactly if Close came before it, and is otherwise dropped exactly if the queue then holds 10000 events |
| `AuditBatcher.RecordsAreOutcomes` | internal/audit/logger.go:163-172 | accepted and dropped events are exactly the calls with that outcome, in order, each with the record it was given and its own time, or that of the call if it had none |
| `AuditBatcher.HandsOverExactly` | internal/audit/logger.go:91-123 | a batch is handed over exactly at a tick, at 100 events or at the end of the worker, never empty, and leaves an empty batch |
| `AuditBatcher.HandsOverWholeBatch` | internal/audit/logger.go:91-103 | it is the whole batch, and committed exactly when its insert went through on an open pool |
| `AuditBatcher.PoolClosesExactly` | internal/audit/logger.go:201-215 | the pool closes exactly in Close, after the queue |
| `AuditBatcher.DoneAfterDraining` | internal/audit/logger.go:108-115 | after Close the worker is done exactly when it has received once more than the queue was long |
| `AuditBatcher.StoredExactly` | internal/audit/logger.go:126-161 | once done, the table holds exactly the accepted events in order, each with the record and time of its call, if and only if every insert committed |
| `AuditBatcher.NothingStoredAfterPool` | internal/audit/logger.go:126-134 | after the pool is closed the table and the accepted events never change again |
| `AuditBatcher.CloseSettlesTheTable` | internal/audit/logger.go:201-215 | when Close reaches the pool, the table will ever hold all accepted events exactly if batch and queue are empty and every insert committed |
| `ConnectionDrain.PermitsMatchCounter` | rust-gateway/src/server.rs:79-113 | in every interleaving of either build permits out and the counter agree up to the two gaps and the counts leaked by unwound handlers, and a decrement never underflows |
| `ConnectionDrain.ShippedCounterIsExact` | rust-gateway/Cargo.toml:160-166 | in every run of the release build, panics included, the counter never exceeds 10000, and while the process lives permits out are the counter and the two gaps |
| `ConnectionDrain.RefusedExactly` | rust-gateway/src/server.rs:95-101 | while the loop accepts, a connection is refused exactly when all 10000 permits are out |
| `ConnectionDrain.CanHold` | rust-gateway/src/server.rs:79-113 | any number of connections up to 10000 can be open at once |
| `ConnectionDrain.EveryPermitReturns` | rust-gateway/src/server.rs:106-110 | from any state of a living process every permit can come back |
| `ConnectionDrain.LoopLeftExactly` | rust-gateway/src/server.rs:79-101 | the accept loop is left exactly for a connection with a permit, for the signal, or by an abort |
| `ConnectionDrain.HandlerExactly` | rust-gateway/src/server.rs:106-110 | which step moves which handler, in both builds |
| `ConnectionDrain.RankFalls` | rust-gateway/src/server.rs:115-130 | every move of the draining task lowers a rank that nothing raises and that is zero exactly when it has ended |
| `ConnectionDrain.TaskCanMove` | rust-gateway/src/server.rs:120-130 | until it has ended, the task can move after at most 100 ms |
| `ConnectionDrain.DrainEnds` | rust-gateway/src/server.rs:115-130 | from any reachable state of the drain the task makes at most 906 more moves, whatever else happens, and has none left exactly when it has ended; then every accepted handler is past its decrement or more than 30 s have passed; at most 301 sleeps |
| `ConnectionDrain.StopsExactly` | rust-gateway/src/server.rs:120-129 | the drain stops exactly when it finds the counter at zero, or looks at the clock past the limit |
| `ConnectionDrain.DrainTiming` | rust-gateway/src/server.rs:117-130 | its sleeps took 100 ms each since the signal was seen, and it gives up only more than 30 s after it |
| `ConnectionDrain.CleanDrainExactly` | rust-gateway/src/server.rs:106-130 | from a reachable state a clean end is still possible exactly when no handler has panicked and the drain has neither given up nor found itself over the limit |
| `ConnectionDrain.NoneAcceptedAfterShutdown` | rust-gateway/src/server.rs:82-85 | no connection is added after the accept loop has stopped |
| `ConnectionDrain.PanicLeaksWhenUnwinding` | rust-gateway/src/server.rs:106-110 | in a build that unwinds, a run that reaches a panicked handler whose permit is back and whose count is not |
| `ConnectionDrain.PanicForcesTimeout` | rust-gateway/src/server.rs:106-110 | there, one panicked handler keeps the counter positive for ever, so the drain cannot finish clean |
| `Redaction.RedactPII` | internal/policy/engine.go:174-182 | whatever order the map gives, the result is one replace-all per match, and is free of every listed match that is safe to list |
| `Redaction.RedactCategory` | internal/policy/engine.go:177-179 | the inner loop replaces the matches of one category in order |
| `Redaction.RedactedIsClean` | internal/policy/engine.go:174-182 | for bracket-free matches in any order, the result is clean exactly when no match is inside REDACTED or none occurred |
| `Redaction.TheRestIsKept` | internal/policy/engine.go:174-182 | disjoint stretches of the prompt, each a listed match, become one placeholder each; everything between them stays in place and holds no listed match |
| `Redaction.RedactIsIdempotent` | internal/policy/engine.go:174-182 | redacting again, in any order and with any of the matches, changes nothing |
| `Redaction.RedactTwiceExactly` | internal/policy/engine.go:174-182 | for bracket-free matches, redacting again in any order changes nothing exactly when no match is inside REDACTED or none occurred |
| `Redaction.AcrossPlaceholder` | internal/policy/engine.go:178 | bracket-free text around a placeholder was on one side of it or is a piece of its word |
| `Redaction.ReplaceBringsInNothing` | internal/policy/engine.go:178 | one replacement brings in no new bracket-free text and leaves nothing of what it replaces |
| `Redaction.DetectedIsOutsideCore` | internal/policy/engine.go:156-162 | every match of a detection pattern is free of brackets and no piece of REDACTED |
| `Redaction.DetectedIsRedacted` | internal/policy/engine.go:152-182 | whatever detection found, redaction in any order leaves none of it |
| `Detection.SsnExactly` | internal/policy/engine.go:157 | a match is eleven characters, digits but for dashes at the fourth and seventh |
| `Detection.EmailShape` | internal/policy/engine.go:158 | a match has an at-sign, a dot behind it and two or more top-level letters |
| `Detection.PhoneLength` | internal/policy/engine.go:159 | a match has 10 to 18 characters |
| `Detection.CardLength` | internal/policy/engine.go:160 | a match has 16 to 19 characters |
| `Detection.ExcludesAll` | internal/policy/engine.go:156-162 | a class that an expression excludes occurs in none of its matches |
| `Detection.ForcesOne` | internal/policy/engine.go:156-162 | a class that an expression forces occurs in each of its matches |
| `Detection.ChainMatches` | internal/policy/engine.go:156-162 | a pattern matches every text put together from matches of its parts |
| `Detection.ChainParts` | internal/policy/engine.go:156-162 | and no other |
| `Redaction.BracketsCanBeRebuilt` | internal/policy/engine.go:178 | a bracketed match that survives its own redaction |
| `Text.ReplaceAllJoins` | internal/policy/engine.go:178 | replace-all keeps the parts between the leftmost occurrences and changes only what joins them |
| `Text.WeaveJoins` | internal/policy/engine.go:178 | replacing the empty string puts the fill before every character and at the end |
| `Text.ReplaceConcat` | internal/policy/engine.go:178 | where no occurrence straddles the seam, replacing works on each side by itself |
| `Text.SplitJoin` | rust-gateway/src/router.rs:43 | joining the parts with the separator gives the text back |
| `Text.SplitPartsFree` | rust-gateway/src/router.rs:43 | no part contains the separator |
| `PromptInspection.DetectPromptInjection` | internal/policy/engine.go:94-132 | the accumulating loop computes the capped score, between 0 and 10 tenths |
| `PromptInspection.HitsIsCardinality` | internal/policy/engine.go:112-116 | each marker that occurs counts once |
| `PromptInspection.CountOfIsCardinality` | internal/policy/engine.go:119-124 | the counted characters are the positions that hold the character |
| `PromptInspection.ScoreExactly` | internal/policy/engine.go:94-132 | three tenths for each marker found, two if either quote occurs more than 20 times, one if there are more than 10 newlines; ten exactly from a sum of ten on |
| `PromptInspection.ByteLengthExactly` | internal/policy/engine.go:86 | one byte a character, and one more for each of three bounds its code reaches |
| `PromptInspection.ScoreGrows` | internal/policy/engine.go:94-132 | text added before or after never lowers the score |
| `PromptInspection.RejectionSpreads` | internal/policy/engine.go:52-63 | a prompt that contains a prompt rejected for injection is rejected for injection |
| `PromptInspection.InspectPrompt` | internal/policy/engine.go:48-91 | each reason is given exactly under its condition; over-long prompts, measured in UTF-8 bytes, pass exactly when masked |
| `PromptInspection.TooLongSpreads` | internal/policy/engine.go:86 | a prompt is over the length limit whenever a part of it is, or when it has more characters than the limit |
| `PromptInspection.MarkerIsLive` | internal/policy/engine.go:96-116 | a marker can match some prompt exactly when lower-casing can produce all its characters |
| `PromptInspection.DanModeIsNeverMatched` | internal/policy/engine.go:108 | the marker with capitals never matches |
| `PolicyEvaluation.EvaluatePolicy` | control-plane/internal/policy/policy.go:95-148 | allows exactly when subject, provider and model are listed, with the right reason otherwise |
| `PolicyEvaluation.ValidateExactly` | control-plane/internal/policy/policy.go:75-92 | a policy is accepted exactly when five things hold; otherwise the complaint is about the first that does not |
| `PolicyEvaluation.Evaluate` | gateway/src/policy.rs:125-170 | answers with the first matching policy, and fails closed on an empty list |
| `PolicyEvaluation.FirstMatch` | gateway/src/policy.rs:142-163 | the first position whose policy matches, or none |
| `PolicyEvaluation.WhereTheyDiffer` | gateway/src/policy.rs:148-156 | Go-granted implies Rust-matched; they differ exactly on empty provider or model lists |
| `PolicyEvaluation.EnginesAgree` | gateway/src/policy.rs:125-186 | on validated policies the gateway allows exactly when some policy grants, and picks the first |
| `PolicyEvaluation.GatewayAllowsAtLeast` | gateway/src/policy.rs:142-163 | without validation, a granting policy still makes the gateway allow |
| `PolicyEvaluation.GroupsReachNobody` | control-plane/internal/policy/policy.go:75-92 | a validated policy can grant some request exactly when it lists a role or a user |
| `RouteTable.NewRouter` | rust-gateway/src/router.rs:41-69 | the routes are the parsed entries, or the one default route if there are none |
| `RouteTable.Select` | rust-gateway/src/router.rs:80-87 | the upstream of the first prefix match, else the default |
| `RouteTable.ParseConcat` | rust-gateway/src/router.rs:43-52 | parsing distributes over a comma between any two texts |
| `RouteTable.EntryExactly` | rust-gateway/src/router.rs:44-51 | an entry is a route exactly when it is the three fields with equal signs between them, none in the first two; it vanishes exactly when it has fewer than two equal signs |
| `RouteTable.RoundTripExactly` | rust-gateway/src/router.rs:43-52 | parsing a rendered route list gives it back exactly when every route is well formed |
| `RouteTable.ParsedWellFormed` | rust-gateway/src/router.rs:44-51 | every parsed route is well formed |
| `RouteTable.EntryRoundTrip` | rust-gateway/src/router.rs:44-51 | one rendered entry parses back to its route, with `=` allowed in the upstream |

## Left out

- HTTP serving, proxy forwarding, TLS, telemetry, metrics, configuration loading, JWT, Firebase and SSRF guards: I/O and library calls.
- The `governor` and `moka` based limiter and cache: their algorithms live in those crates.
- `CircuitBreakerRegistry`, the Rust audit loops and `get_provider_url`: they would only add easy members.
- The elector is modelled on values, one step per locked section or etcd transaction: update in place and the unlocked write of `e.election` are not captured. Backoff, TTL jitter and `LeaderID` are left out. That the etcd client drops its session after a Resign, and skips the next one of the same term, is taken from that client, which is not part of this repository.
- LeaderElection.ReadinessIsHealth: is about one state; the probe takes the lock twice and could see two states.
- SlidingWindow.RateLimiterService.CheckRedis: is for one identity and for clock values exact in a 64-bit float; of Redis errors only a refused EXPIRE is modelled.
- SlidingWindow.WindowBound: needs a positive clock that never goes back and atomic checks; SlidingWindowTimed gives the bound without atomicity. It and SlidingWindow.AnswersAsReference are about the check without overflow; the lemmas named Service carry them to the 64-bit range.
- SlidingWindowTimed.TimedWindowBound: has one clock for gateway and Redis. Where that clock has no room for two windows below 2^53, that is for windows of some 140000 years, the bound holds but is not claimed to be reached.
- SlidingWindowRace.RaceBoundIsReached: leaves out the seven windows that are positive multiples of 2^61 seconds, whose product wraps to zero.
- ActiveSeconds.StoreIsActive: takes the pipeline as atomic, on a clock that never goes back.
- CircuitBreaker.TripsArePaidFor: is for runs with fewer than 2^32 failures; beyond that the 32-bit counter wraps.
- The half-open state does not cap trial calls in flight, so no such bound is stated.
- ConnectionDrain.DrainEnds: does not claim that the accept loop always sees the shutdown signal, which is not stored for a loop that is busy.
- Redaction.RedactedIsClean: is for nonempty matches without square brackets, which `Redaction.DetectedIsOutsideCore` proves of every detected match. Word boundaries and the search for matches are not modelled.
- AuditBatcher.Logger.CloseQueue: does not time the five-second wait; the pool may close at any moment after the queue, which includes every timed run.
- PromptInspection.DetectPromptInjection: counts in integer tenths, without floating-point rounding.
- PromptInspection.InspectPrompt: takes the detected PII as an input and prompts as valid UTF-8; the informational pattern names, metrics and log lines are left out.
- Policy refresh over HTTP, the etcd store, API handlers and database migrations: wrappers. How the gateway decodes a policy list from JSON is not modelled: the endpoint answers with an object instead of a list, absent lists encode as null, and rate limits must fit 32 bits there.
