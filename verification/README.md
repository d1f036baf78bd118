# ShardLeak's rate limiter, verified

ShardLeak decides whether a request may pass by running one Lua script inside Redis. The API
processes keep no state of their own: each reads its own clock, hands the script a limit, a window
and the time, and reports what it answers. There are two scripts, a token bucket and a fixed
window, and a TypeScript simulator that repeats both in the browser.

This project models the store, the scripts, the Go code around them and the simulator, and proves
what they promise over whole runs: any number of requests, any interleaving, clocks that disagree
or go back, replies that get lost.

## How the model is laid out

| file | contents |
|---|---|
| `Redis.dfy` | `Server`: the keyspace, Redis's clock, the commands, and both scripts as atomic methods |
| `Scripts.dfy` | the scripts' arithmetic on reals, and its equality with the integer bucket |
| `Keys.dfy` | how keys are spelled, and that they can be told apart |
| `TokenBucketLevels.dfy`, `TokenBucketRuns.dfy` | the token bucket in units of 1/(1000 * window) token; every run of it |
| `FixedWindowRuns.dfy` | the counters per window; every run of them |
| `StoreRuns.dfy` | logs of script executions over the whole store, and one identifier's part of them |
| `MixedConfigs.dfy` | keys shared by requests that disagree about limit or window |
| `Deletions.dfy` | logs without some of their rejected requests |
| `Simulator.dfy`, `SimulatorRuns.dfy` | the class with its two maps; its agreement with the backend |
| `Service.dfy` | service, handler, counters, validation and response |
| `Clients.dfy` | many equal requests through the handler |
| `Protocol.dfy` | any number of handlers interleaved: clock read, script, reply, counters |
| `Types.dfy`, `Arithmetic.dfy`, `Counting.dfy` | shared values, rounding, counting |

The classes are proved against functions of the old state, and the run theorems are about those
functions. One chain leads from the source to a client: the handler's code is a schedule of the
protocol (`HandlerIsSchedule`), the protocol's store is the run of its log (`AlwaysLogged`), an
identifier's part of a log is a run of its own (`NonInterference`), that run is the integer
bucket's or the window counters' (`TokenBucketReply`, `FixedWindowReply`), and about those the
bounds are proved; clients are told what their own scripts answered (`AlwaysTraced`) and are never
let through more often than scripts admit (`LetThroughOnlyIfAdmitted`).

The bucket's expiry is part of its runs: a run has timestamps and a flag for each request before
which the key was dropped. Results that hold whatever the flags are need no assumption on clocks;
the others say what a drop changes.

## What is taken as given

- Arithmetic is exact: `real` in the scripts and the simulator, unbounded `int` elsewhere.
- A script is atomic. A key is gone from its expiry instant on, where Redis still serves it at that
  very millisecond; an `EXPIREAT` that is not in the future deletes the key. Redis's own clock does
  not go back. API clocks may do anything.
- Clock readings, the passing of Redis's time and the fate of a call to Redis are parameters.
- A limit and a window are at least 1, as the handler demands
  (`backend/internal/handlers/check.go:50-57`).
- The bounds on runs need one configuration per identifier, because the Redis keys do not hold it
  (`SharesKeyIff`). Non-interference, the shape of replies and what becomes of a
  shared key (`BucketHistory`, `CounterHistory`) hold for any mix.

## Where the code and its documentation part

- `README.md:325` promises status 429 for a rejection; `backend/internal/handlers/check.go:106`
  writes 200 always.
- `frontend-demo/lib/simulator.ts:20-25` claims the backend's mathematics. For the token bucket this
  holds exactly if the backend's TTL drops only full buckets (`TokenBucketAgreesIff`);
  `TokenBucketDiverges` is a run where it does not. For the fixed
  window the simulator has one slot where Redis has a counter per window: `FixedWindowAgreesIff`
  says of each request of any run whether it is answered alike, and `SlotFallsBehind` gives two
  that are not.
- `frontend-demo/lib/simulator.ts:76` says that a reset is for the given identifier. It also wipes
  identifiers that continue it after a colon, and some that it continues itself (`ResetFramed`,
  `ResetReachesOthers`).
- `README.md:132` bounds a burst by 2 * limit. A script that runs after its window's end on
  Redis's clock is always admitted and leaves no counter: `LateBurst` admits any number,
  `WindowAdmissionsExact` and `WindowLimitIff` say exactly how many and when the limit holds.
- `README.md:474-478` expects exactly 100 of 1000 concurrent requests, of both algorithms.
  `LimitExactIff` gives the exact condition for each: less than one token refilled in all; one window
  and no late script. `LimitExceeded`, `BoundaryBurstReached` and `LateBurst` are runs with more.
- `README.md:333-337` documents the remaining requests, the reset and Retry-After as headers. For the
  token bucket they are right while the key survives; a key that expires early, on Redis's
  clock, comes back full (`RetryAfterSoundAndTight`, `RemainingExact`, `ResetAtAccurate`;
  `WaitCutShort` is a run).
- `README.md:132` speaks of one window. Requests of one identifier that ask for windows of different
  length share a counter when these start together, and it goes with the window of the request that
  created it (`CounterHistory`, `ShortWindowEndsLongOne`).
- A rejected request looks free, and is when the clocks agree within a window. But it renews the
  key's TTL (`backend/internal/ratelimit/token_bucket.go:54`), which can decide about a later
  request (`RejectionCounts`); `RejectionsAreFreeIff` says when it does. It also stores its time,
  which matters when clocks go back (`BackwardRejectionCounts`).

## Model

| member | source | states |
|---|---|---|
| `Redis.Server.EvalTokenBucket` | backend/internal/ratelimit/token_bucket.go:20-63 | The script, statement by statement on the store; the new store and the array of four numbers are those of `KeysAfterBucket` and `BucketAnswer`, allowed, remaining, reset_at and retry_after in that order. A key holding a counter is an error that changes nothing |
| `Redis.Server.EvalFixedWindow` | backend/internal/ratelimit/fixed_window.go:19-47 | The script, statement by statement; the new store and the array of four numbers are those of `KeysAfterWindow` and `WindowAnswer`. A counter that was there keeps its expiry; a key holding a hash is an error that changes nothing |
| `Redis.Server.HMGet` | backend/internal/ratelimit/token_bucket.go:27-34 | An absent or expired key reads as nothing, a counter is a type error |
| `Redis.Server.HSet` | backend/internal/ratelimit/token_bucket.go:53 | Overwrites the two fields, drops an expired predecessor together with its expiry |
| `Redis.Server.Expire` | backend/internal/ratelimit/token_bucket.go:54 | The key lives for ttl seconds from Redis's present time |
| `Redis.Server.Get` | backend/internal/ratelimit/fixed_window.go:29 | An absent or expired counter reads as nothing, a hash is a type error |
| `Redis.Server.Incr` | backend/internal/ratelimit/fixed_window.go:35 | One more than what is there, 1 on an absent or expired key; keeps a live expiry |
| `Redis.Server.ExpireAt` | backend/internal/ratelimit/fixed_window.go:36-38 | Sets an absolute expiry; an instant that has passed deletes the key |
| `Scripts.RealBucketIsUnitBucket` | backend/internal/ratelimit/token_bucket.go:36-60 | The script's rational tokens are, at every step, whole units of 1/(1000 * window) token: same tokens, same decision, same remaining, reset_at and retry_after as a bucket that only ever adds, subtracts and compares integers |
| `Scripts.BucketReplyWellFormed` | backend/internal/ratelimit/token_bucket.go:36-62 | From any non-negative stored tokens, whatever configuration left them, the reply is well formed: rejected means remaining 0 and 1 <= retry_after <= window, allowed means retry_after 0 and 0 <= remaining <= limit - 1, and 1 <= reset_at - now <= window; the stored tokens stay non-negative |
| `Scripts.SecondsFor` | backend/internal/ratelimit/token_bucket.go:56-60 | Refilling any positive part of a bucket takes, rounded up, at least 1 and at most window seconds |
| `Scripts.WindowReplyWellFormed` | backend/internal/ratelimit/fixed_window.go:31-46 | The same shape for the fixed window, from any count |
| `Scripts.ResetAt` | backend/internal/ratelimit/fixed_window.go:25-26 | The window's end lies 1 to window seconds ahead of the request |
| `Scripts.ResetIsWindowEnd` | backend/internal/ratelimit/fixed_window.go:25-26 | reset_at is the window's length times one more than the floored quotient of the time by it: the least multiple of the length that lies ahead |
| `Arithmetic.RoundDownIsFloor` | backend/internal/ratelimit/fixed_window.go:25 | The window start, a floored quotient times the window, is the greatest multiple of the window that is not ahead of the clock, for negative clocks too |
| `Keys.DecimalRead` | backend/internal/ratelimit/fixed_window.go:27 | A printed window start reads back as the number, digit by digit, with a minus sign exactly if it is negative and no leading zero |
| `Keys.KeysSpelled` | backend/internal/ratelimit/fixed_window.go:27 | The two kinds of keys, prefix, identifier, colon and window start |
| `Keys.WindowKeyInjective` | backend/internal/ratelimit/fixed_window.go:25-27 | Prefix, identifier, colon, decimal window start: equal keys mean equal identifier and window start, although identifiers may hold colons and digits |
| `Keys.TokenBucketKeyInjective` | backend/internal/ratelimit/token_bucket.go:71 | Equal token bucket keys mean equal identifiers |
| `Keys.KeySpacesDisjoint` | backend/internal/ratelimit/fixed_window.go:53 | No token bucket key is ever a window counter's key |
| `StoreRuns.SharesKeyIff` | backend/internal/ratelimit/fixed_window.go:25-27 | Two requests meet in one Redis key exactly when identifier and algorithm (and window start) agree: limit and window length are not part of it |
| `StoreRuns.OwnerIsUnique` | backend/internal/ratelimit/token_bucket.go:71 | A key in use belongs to one identifier and algorithm |
| `StoreRuns.NonInterference` | backend/internal/ratelimit/token_bucket.go:71-75 | In any log over any identifiers, algorithms and mixed configurations, from any store, each reply equals the reply in the log restricted to that identifier and algorithm |
| `StoreRuns.EveryReplyWellFormed` | backend/internal/ratelimit/fixed_window.go:29-46 | From an empty store, under any mix of configurations, no script meets a value of the wrong type and every reply is well formed, its reset_at included |
| `StoreRuns.EveryWindowReset` | backend/internal/ratelimit/fixed_window.go:25-26 | On every run and under any mix of configurations, a fixed window reply names the end of the window its request falls into |
| `StoreRuns.BucketRepliesAre` | backend/internal/ratelimit/token_bucket.go:27-62 | On the store with expiring keys and real tokens, every reply of an identifier is that of the integer bucket dropped after every idle gap of twice the window |
| `StoreRuns.TokenBucketReply` | backend/internal/ratelimit/token_bucket.go:67-80 | Inside any log, an identifier with one configuration gets the replies of the integer bucket of its own timestamps, dropped after every idle gap of twice the window; no assumption on clocks |
| `StoreRuns.NeverExpiringReply` | backend/internal/ratelimit/token_bucket.go:67-80 | ... and those of a bucket that never expires, when every dropped bucket would have been full |
| `StoreRuns.CountersMatch` | backend/internal/ratelimit/fixed_window.go:29-40 | After any run, Redis holds for every window either exactly the run's counter with the window's end as expiry, or nothing because the count is 0 or the window is over |
| `StoreRuns.FixedWindowReply` | backend/internal/ratelimit/fixed_window.go:51-62 | Inside any log, an identifier with one configuration gets the replies of the per-window counters of its own timestamps, whatever their order |
| `MixedConfigs.SetsExpiryOnce` | backend/internal/ratelimit/fixed_window.go:34-40 | A visit to a live counter adds one, up to the visitor's limit, and leaves the expiry as it is, whatever the visitor's own window |
| `MixedConfigs.CreatesCounter` | backend/internal/ratelimit/fixed_window.go:34-40 | A visit that finds no counter is admitted and creates one until the end of its own window, or none if that has passed |
| `MixedConfigs.CounterHistory` | backend/internal/ratelimit/fixed_window.go:29-40 | In any log, under any mix of limits and windows: a counter in the store was created by a visit that found none, has been found by every visit since, expires at the end of its creator's window, and counts exactly the visits admitted since |
| `MixedConfigs.ShortWindowEndsLongOne` | backend/internal/ratelimit/fixed_window.go:36-38 | Two requests in two minutes become three: a counter created under a window of one minute is gone when the longer window still needs it |
| `MixedConfigs.BucketVisit` | backend/internal/ratelimit/token_bucket.go:27-54 | A visit to a bucket, whoever visited it before: refilled at the visitor's own rate, cut down to its own limit, stored with its own time for twice its own window, and admitted exactly if a whole token was there |
| `MixedConfigs.BucketHistory` | backend/internal/ratelimit/token_bucket.go:53-54 | In any log, under any mix of configurations, a bucket in the store is as its last visit has left it, expiry included |
| `TokenBucketRuns.AdmissionCharacterised` | backend/internal/ratelimit/token_bucket.go:31-53 | Request n is admitted if and only if, for every earlier request k since the key was last dropped, the admissions in k..n-1 and this one cost no more than a full bucket plus the refill of the clock's forward movement from k to n; for any timestamps, also backward ones, and any drops |
| `TokenBucketRuns.ScriptConforms` | backend/internal/ratelimit/token_bucket.go:36-53 | Every stretch j..n during which the key survives admits at most limit plus the refill of the forward clock movement; on every run, with any clocks and any drops |
| `TokenBucketRuns.NoShortDropsConforms` | backend/internal/ratelimit/token_bucket.go:36-54 | So does every stretch at all, unless a key was dropped before the clock had moved a window |
| `TokenBucketRuns.StretchBound` | backend/internal/ratelimit/token_bucket.go:36-54 | On every run, with any clocks and any drops, a stretch admits at most limit * (1 + short drops in it) plus the whole tokens refilled by the forward movement |
| `TokenBucketRuns.ExchangeStep` | backend/internal/ratelimit/token_bucket.go:42-44 | One step of the exchange: a rival's extra tokens never exceed the cost of the requests it has given up, and it is never ahead |
| `TokenBucketRuns.GreedyIsOptimal` | backend/internal/ratelimit/token_bucket.go:36-51 | For any clocks and any drops, the script's decisions keep that promise, and no other sequence of decisions that keeps it has admitted more after any number of requests |
| `TokenBucketRuns.Conservation` | backend/internal/ratelimit/token_bucket.go:36-54 | On every run, with any clocks and any drops: what is left + admitted * cost + spilled = capacity + refill of the forward movement + what drops have restored; what is left is never negative and at most max(limit - 1 tokens, just under 1 token) |
| `TokenBucketRuns.FirstLimitAdmitted` | backend/internal/ratelimit/token_bucket.go:31-44 | The first limit requests of a fresh identifier are all admitted, whatever the clocks and the expiry do |
| `TokenBucketRuns.AtLeastLimit` | backend/internal/ratelimit/ratelimit_test.go:281-325 | At least min(N, limit) of N requests on a fresh identifier are admitted, whatever the clocks and the expiry do |
| `TokenBucketRuns.LimitExactIff` | README.md:466-478 | The documented "exactly the limit": N requests see exactly min(N, limit) admissions if and only if N <= limit, or the clocks moved forward by less than the time of a token in all and the key was not dropped in between; for any clocks |
| `TokenBucketRuns.LimitExceeded` | backend/internal/ratelimit/ratelimit_test.go:281-325 | For every configuration a run that admits limit + 1: the last request comes when a token has been refilled, after 36 s for 100 requests an hour |
| `TokenBucketRuns.SkewBound` | backend/internal/ratelimit/token_bucket.go:68-69 | When scripts run at nondecreasing times, each at most `late` ms after and `early` ms before its timestamp, every stretch k..n spanning T ms admits at most limit + floor(rate * (T + (n - k) * (late + early))), on the store that expires idle keys and for any size of skew |
| `TokenBucketRuns.RetryAfterSoundAndTight` | backend/internal/ratelimit/token_bucket.go:42-54 | For any clocks and any drops, after a rejection with value R: while the clock has moved forward by at most 1000 * (R - 1) ms, nothing is admitted if and only if the key survives; the first request after 1000 * R ms or more is admitted, unless another was in between |
| `Deletions.WaitCutShort` | backend/internal/ratelimit/token_bucket.go:54 | Three requests stamped alike: the second is told to wait 10 s, and the third is admitted because the key was dropped in between |
| `TokenBucketRuns.ForwardIsElapsed` | backend/internal/ratelimit/token_bucket.go:36 | The forward movement of a clock that does not go back is the time elapsed |
| `TokenBucketRuns.RemainingExact` | backend/internal/ratelimit/token_bucket.go:42-62 | After a reply with remaining m, and while the clock does not go forward: the next requests are admitted with m-1, ..., 0 left and all further ones rejected, if and only if the key survives |
| `TokenBucketRuns.ResetAtAccurate` | backend/internal/ratelimit/token_bucket.go:54-60 | With no admission in between, a request finds the bucket full when the clock has moved to 1000 * reset_at + 999 ms, and, up to 1000 * (reset_at - 1) ms, if and only if its key was dropped; 1 <= reset_at - floor(now) <= window |
| `TokenBucketLevels.RefillComposes` | backend/internal/ratelimit/token_bucket.go:36-37 | Refilling over two intervals is refilling over their sum, also through the cap |
| `TokenBucketRuns.ExpiryUnobservableIff` | backend/internal/ratelimit/token_bucket.go:31-37 | A store that drops the key before some requests gives the same replies as one that never does if and only if each dropped bucket would have been full |
| `TokenBucketRuns.TtlUnobservable` | backend/internal/ratelimit/token_bucket.go:54 | EXPIRE with twice the window changes no reply, if an idle gap of twice the window on Redis's clock is at least one window on the API clocks |
| `TokenBucketRuns.BoundedSkewMeansGapsAgree` | backend/internal/ratelimit/token_bucket.go:68-70 | Clocks whose errors add up to at most one window meet that condition |
| `TokenBucketRuns.DeletionIff` | backend/internal/ratelimit/token_bucket.go:36-54 | For any drops, and clocks that do not go back and forth between kept requests: deleting rejected requests leaves every other reply the same if and only if the keys dropped without them held full buckets with them |
| `Deletions.RejectionsAreFreeIff` | backend/internal/ratelimit/token_bucket.go:36-54 | The same in any log, with any TTL effects in it: deleting some of an identifier's rejected requests leaves every reply to everybody the same if and only if a request that then finds its key dropped had found a full bucket |
| `Deletions.RejectionsAreFree` | backend/internal/ratelimit/token_bucket.go:36-54 | So rejections are free when the clock errors add up to at most one window and clocks do not go back and forth between kept requests |
| `Deletions.RejectionCounts` | backend/internal/ratelimit/token_bucket.go:54 | They are not free in general: a rejection renews the TTL, and three requests are given of which the last is rejected only because the second, also rejected, was made |
| `TokenBucketRuns.BackwardRejectionCounts` | backend/internal/ratelimit/token_bucket.go:36-53 | Nor when the clock goes back and forth, even without expiry: a rejection stores the earlier time, and the third of three requests is admitted only because the second, rejected, was made |
| `FixedWindowRuns.WindowAdmissionsExact` | backend/internal/ratelimit/fixed_window.go:29-43 | On every run, the requests of one window that get through number exactly min(requests whose script ran before its end, limit) plus all whose script ran later: the limit fails exactly by the late ones |
| `FixedWindowRuns.WindowLimitIff` | backend/internal/ratelimit/fixed_window.go:29-43 | At most limit requests of a window get through if and only if none is late, or those on time and the late ones together are at most limit |
| `FixedWindowRuns.LateBurst` | backend/internal/ratelimit/fixed_window.go:34-40 | For every k a run of k requests of one window that are all admitted: stamped in its last second, their scripts running one second later, when it has just ended |
| `FixedWindowRuns.OneWindowBound` | backend/internal/ratelimit/fixed_window.go:29-43 | In each window exactly min(n, limit) of the n requests whose script ran before its end are admitted, for timestamps in any order |
| `FixedWindowRuns.IntervalBound` | backend/internal/ratelimit/fixed_window.go:25-43 | Admissions stamped first..last number at most limit for each window the interval touches |
| `FixedWindowRuns.BoundaryBurstBound` | README.md:132 | An interval no longer than the window sees at most 2 * limit, and the late ones |
| `FixedWindowRuns.BoundaryBurstReached` | README.md:132 | For every configuration with a window of 2 s or more a run reaches 2 * limit within two adjacent seconds |
| `FixedWindowRuns.LimitExactIff` | backend/internal/ratelimit/ratelimit_test.go:327-371 | The documented "exactly the limit": N requests see exactly min(N, limit) admissions if and only if N <= limit, or all are stamped in one window and their scripts run before its end |
| `FixedWindowRuns.RemainingExact` | backend/internal/ratelimit/fixed_window.go:34-46 | After a reply with remaining m, the next requests of that window are admitted with m-1, ..., 0 left and all further ones rejected, if and only if the last of their scripts runs before the window's end |
| `FixedWindowRuns.RetryAfterSound` | backend/internal/ratelimit/fixed_window.go:41-43 | After a rejection with value R, a request stamped before now + R in that window, also before now, is rejected if and only if its script runs before the window's end |
| `FixedWindowRuns.RetryAfterTight` | backend/internal/ratelimit/fixed_window.go:41-43 | The first request stamped now + R or later is admitted |
| `Deletions.WindowRejectionsAreFree` | backend/internal/ratelimit/fixed_window.go:34-43 | In any log and for any API clocks, deleting any set of an identifier's rejected requests leaves every reply to everybody the same |
| `Simulator.Simulator.Check` | frontend-demo/lib/simulator.ts:30-45 | The reply and both maps after a check, for either algorithm; the other algorithm's map is untouched |
| `Simulator.Simulator.CheckTokenBucket` | frontend-demo/lib/simulator.ts:86-114 | The bucket's reply and the one key it writes |
| `Simulator.Simulator.CheckFixedWindow` | frontend-demo/lib/simulator.ts:116-141 | The slot's reply and the one key it writes; a stale slot is replaced, a later one keeps its window start |
| `Simulator.Simulator.PeekTokens` | frontend-demo/lib/simulator.ts:48-55 | The tokens a check at that instant would find |
| `Simulator.Simulator.PeekWindow` | frontend-demo/lib/simulator.ts:58-74 | The count a check at that instant would find, and the time left in the slot's window |
| `Simulator.Simulator.Reset` | frontend-demo/lib/simulator.ts:77-84 | Exactly the keys that start with the identifier and a colon are gone from both maps |
| `Simulator.TbKeyInjective` | frontend-demo/lib/simulator.ts:143-145 | The key of (identifier, limit, window) determines the triple, whatever the identifier contains |
| `Simulator.FwKeyInjective` | frontend-demo/lib/simulator.ts:146-148 | The same for window slots |
| `Simulator.ResetFramed` | frontend-demo/lib/simulator.ts:77-84 | After reset(id) a triple is fresh if and only if it belongs to id, to an identifier that continues id after a colon, or to one that id continues by a colon and the triple's limit; every other triple keeps its state |
| `Simulator.ResetReachesOthers` | frontend-demo/lib/simulator.ts:76-84 | Two concrete identifiers other than the given one that a reset wipes |
| `SimulatorRuns.TokenBucketAgreesIff` | frontend-demo/lib/simulator.ts:86-114 | For any clock readings, and other identifiers in between: the simulator gives the backend's answer (null for 0) to all of an identifier's requests if and only if the backend's TTL only drops full buckets |
| `SimulatorRuns.TokenBucketDiverges` | frontend-demo/lib/simulator.ts:20-25 | Two requests stamped alike with 20 s between their scripts: the backend, which has dropped the key, admits the second, and the simulator rejects it |
| `SimulatorRuns.FixedWindowAgreesIff` | frontend-demo/lib/simulator.ts:116-141 | On every run with any API clocks, request n is answered alike if and only if it opens a window later than all before; or its script is on time and, up to the limit, as many requests came since the latest window was entered as there were on time in its own window |
| `SimulatorRuns.SimulatorRefinesFixedWindow` | frontend-demo/lib/simulator.ts:116-141 | So the answers agree while each request's window is later than the one before, or the same and not yet over in Redis |
| `SimulatorRuns.ForwardClocksSuffice` | frontend-demo/lib/simulator.ts:121-127 | Nondecreasing clocks and scripts that run before their window's end meet that condition |
| `SimulatorRuns.SlotFallsBehind` | frontend-demo/lib/simulator.ts:126-134 | For every configuration, two requests on time of which the second is stamped in the earlier window: they are not answered alike |
| `SimulatorRuns.PeekTokensPredicts` | frontend-demo/lib/simulator.ts:48-55 | A check at that instant admits if and only if the peeked tokens are at least 1, and reports their floor, less the one taken |
| `SimulatorRuns.PeekWindowPredicts` | frontend-demo/lib/simulator.ts:58-74 | A check admits if and only if the peeked count is below the limit and reports what is left; both name the same window end if and only if the slot is not a later window's |
| `Service.ParseResult` | backend/internal/ratelimit/service.go:40-57 | A result comes exactly from an array of at least four values; it is allowed if and only if the first is the number 1, and remaining, reset_at and retry_after are the second, third and fourth, or 0 where no number stands |
| `Service.RateLimitService.CheckTokenBucket` | backend/internal/ratelimit/token_bucket.go:67-80 | Arguments, key, script, conversion: the store and result of the call, for each fate of the network |
| `Service.RateLimitService.CheckFixedWindow` | backend/internal/ratelimit/fixed_window.go:51-62 | The same for the fixed window |
| `Service.RateLimitService.Check` | backend/internal/ratelimit/service.go:21-36 | `token_bucket` runs the token bucket and `fixed_window` the fixed window, with the caller's identifier, limit, window and time; an error of either is counted once. Any other name is an error that is not counted and touches nothing |
| `Service.CheckHandler.Check` | backend/internal/handlers/check.go:37-107 | The first complaint in the order of the checks, with no effect at all; otherwise the script the request names is run with the request's own identifier, limit and window and the time read, each counter moves under the request's own label, and the response is made from the script's answer |
| `Service.ResponsesWellFormed` | backend/internal/handlers/check.go:89-104 | From every reachable store: the headers and the body carry the script's own remaining and reset and the request's limit; Retry-After is sent, with the script's value, if and only if the request was rejected; wait and reset lie within 1..window and remaining within 0..limit-1; 503 if and only if the call was not answered |
| `Clients.BurstReply` | backend/internal/ratelimit/ratelimit_test.go:281-371 | N equal executions at one instant on an identifier that has made no such request, whoever else has used the store: the k-th from 0 is admitted exactly if k < limit and reports max(0, limit - 1 - k) left |
| `Clients.Burst` | backend/internal/ratelimit/ratelimit_test.go:281-371 | N equal requests through the handler at one instant: each response carries the request's limit and says allowed and remaining as above, and exactly min(N, limit) are allowed |
| `Protocol.AccountingBalances` | backend/internal/handlers/check.go:66-87 | Under every schedule of any number of handlers, lost calls and lost replies included: requests = allowed + rejected + redis errors + handlers in flight |
| `Protocol.AlwaysLogged` | backend/internal/ratelimit/token_bucket.go:67-75 | Under every schedule the store is the run of the executed scripts in Redis's order |
| `Protocol.AlwaysTraced` | backend/internal/handlers/check.go:70-104 | Under every schedule, whatever a client is told is what its own request's script execution answered, at its place in the log |
| `Protocol.ToldTheAnswer` | backend/internal/ratelimit/token_bucket.go:67-79 | Under every schedule, the execution behind a client's reply was handed the client's own identifier, limit and window and the time its own process had read |
| `Protocol.LetThroughOnlyIfAdmitted` | backend/internal/handlers/check.go:78-87 | Under every schedule, and for every choice among the script executions (all, one, a stretch, an interval), no more clients of an identifier are let through than those executions admitted |
| `Protocol.BucketAdmissions` | backend/internal/ratelimit/token_bucket.go:20-63 | The admissions the store made for an identifier, among everybody's scripts, number those of the expiring bucket on its own timestamps, with any clocks |
| `Protocol.StretchAdmissions` | backend/internal/ratelimit/token_bucket.go:20-63 | ... and so do those of any stretch k..n of its executions |
| `Protocol.TokenBucketAtLeast` | backend/internal/ratelimit/ratelimit_test.go:281-325 | Under every schedule and with any clocks: at least min(N, limit) admissions |
| `Protocol.WindowAdmissions` | backend/internal/ratelimit/fixed_window.go:19-47 | The same for the fixed window, for the requests stamped in any interval |
| `Protocol.TokenBucketBound` | backend/internal/ratelimit/token_bucket.go:20-63 | Under every schedule and with any clocks: the clients of any stretch k..n of an identifier's executions that are let through number at most limit * (1 + short drops) plus the whole tokens refilled |
| `Protocol.TokenBucketExactIff` | README.md:464-478 | Under every schedule and with any clocks: N requests see exactly min(N, limit) admissions, which bound the clients let through, if and only if N <= limit, or no whole token was refilled and the key was not dropped |
| `Protocol.TokenBucketSkewBound` | backend/internal/ratelimit/token_bucket.go:67-75 | Under every schedule with bounded clock errors of any size: the clients of any stretch k..n that are let through number at most limit plus the whole tokens of the time it spans and n - k times the skew |
| `Protocol.FixedWindowExact` | backend/internal/ratelimit/ratelimit_test.go:327-371 | Under every schedule: of the requests of one window, among any others of the identifier, exactly min(on time, limit) and all late ones are admitted, and no more clients are let through |
| `Protocol.FixedWindowExactIff` | README.md:464-478 | Under every schedule and with any API clocks: at least min(N, limit) admissions, which bound the clients let through; exactly that many if and only if N <= limit or all are of one window and on time |
| `Protocol.FixedWindowIntervalBound` | backend/internal/ratelimit/fixed_window.go:25-43 | Under every schedule: of the clients stamped first..last at most limit are let through for each window touched, and as many as had late scripts in that interval |
| `Protocol.FixedWindowBurstBound` | README.md:132 | So at most 2 * limit, and the late ones, in any interval no longer than the window |
| `Protocol.EveryAnswerShaped` | backend/internal/handlers/check.go:89-104 | Under every schedule and any mix of configurations, every handler's answer is well formed for the time its script was given, and none is a type error |
| `Protocol.HandlerIsSchedule` | backend/internal/handlers/check.go:66-107 | A handler that runs uninterrupted, in each fate of its call, is one schedule of the protocol: same store, same counters, one execution with the time it read at Redis's time, or none, and the client is told the reply the handler responds with, or an error |
| `Protocol.EveryLogHappens` | backend/internal/ratelimit/token_bucket.go:67-75 | Every sequence of executions in the order of Redis's clock, with any API times and any of the calls given up on before their scripts ran, is the log of a schedule, and leaves each handler with its own answer or refused |
| `Protocol.ClockIsTicks` | backend/internal/ratelimit/token_bucket.go:54 | Redis's clock is its start and what the schedule has let pass |

## Left out

- IEEE doubles, and the rounding of `tokens` when Lua prints it into the hash: the model keeps exact rationals.
- Overflow of Go's `int` (`window_seconds * 2`, `limit`) and of JavaScript numbers.
- The client library: EVALSHA fallback, connection pools, time-outs, and resending a script whose answer was lost. A call runs its script at most once.
- Redis's eviction, persistence and replication; a store that loses keys other than by expiry. Other programs writing to the same keys.
- Field-wise HMGET and HSET: the hash always holds both fields, since only the script writes it.
- The fixed window script's `tostring(window_start)` beyond 14 digits, where Lua changes to an exponent.
- HTTP: routing, the JSON decoder, the 4096-byte limit on the body, CORS, status codes other than the choice between bad request, unavailable and answered. The time zone and format of `reset_at`.
- Health, logging, configuration, and the duration histogram; the limit copied into `Result` is left to the request.
- JWT, bcrypt, API keys and the middleware around them.
- PostgreSQL and the handlers for stored limits: the check path does not read them.
- Sliding window: not implemented (`README.md:124`).
- The web pages, the load script, dashboards and container files.
- Service.RateLimitService.Check: takes limits and windows of at least 1, although the Go method alone would accept others; its one caller validates first. With a window of 0 the rate is an IEEE infinity or NaN.
- Service.RateLimitService.CheckTokenBucket: takes limits and windows of at least 1, as above.
- Service.RateLimitService.CheckFixedWindow: takes limits and windows of at least 1, as above.
- Simulator.Simulator.Check: leaves out `latencyMs`, which is drawn at random, and takes limits and windows of at least 1; with 0 for either, the divisions in TypeScript yield infinities or NaN.
- Simulator.Simulator.CheckTokenBucket: takes limits and windows of at least 1, as above.
- Simulator.Simulator.CheckFixedWindow: takes limits and windows of at least 1, as above.
- Simulator.Simulator.PeekTokens: takes limits and windows of at least 1, as above.
- Simulator.Simulator.PeekWindow: takes limits and windows of at least 1, as above.
