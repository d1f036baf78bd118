/** Runs of the whole store: any identifiers, both algorithms, any mix of configurations. A log
    lists the script executions in the order Redis ran them. */
module StoreRuns {
  import opened Types
  import opened Arithmetic
  import opened Counting
  import opened Keys
  import opened Scripts
  import opened Redis
  import Levels = TokenBucketLevels
  import BucketRuns = TokenBucketRuns
  import WindowRuns = FixedWindowRuns

  /** A call whose script has run, and Redis's own time when it did. */
  datatype Exec = Exec(call: Call, redisMs: int)

  function NextKeys(ks: Keyspace, e: Exec): Keyspace {
    match e.call.algorithm
    case TokenBucket =>
      KeysAfterBucket(ks, e.redisMs, TokenBucketKey(e.call.id), GoBucketArgs(e.call.config, e.call.nowMs))
    case FixedWindow =>
      KeysAfterWindow(ks, e.redisMs, FixedWindowKey(e.call.id), GoWindowArgs(e.call.config, e.call.nowMs))
  }

  function AnswerTo(ks: Keyspace, e: Exec): Result<Reply> {
    match e.call.algorithm
    case TokenBucket =>
      BucketAnswer(ks, e.redisMs, TokenBucketKey(e.call.id), GoBucketArgs(e.call.config, e.call.nowMs))
    case FixedWindow =>
      WindowAnswer(ks, e.redisMs, FixedWindowKey(e.call.id), GoWindowArgs(e.call.config, e.call.nowMs))
  }

  /** The keyspace after the first n executions. */
  function KeysAt(ks: Keyspace, log: seq<Exec>, n: nat): Keyspace
    requires n <= |log|
  {
    if n == 0 then ks else NextKeys(KeysAt(ks, log, n - 1), log[n - 1])
  }

  function ReplyAt(ks: Keyspace, log: seq<Exec>, n: nat): Result<Reply>
    requires n < |log|
  {
    AnswerTo(KeysAt(ks, log, n), log[n])
  }

  lemma {:induction false} KeysSnoc(ks: Keyspace, log: seq<Exec>, e: Exec, n: nat)
    requires n <= |log|
    ensures KeysAt(ks, log + [e], n) == KeysAt(ks, log, n)
  {
    if n == 0 {
    } else {
      var m := n - 1;
      KeysSnoc(ks, log, e, m);
      assert (log + [e])[m] == log[m];
    }
  }

  // ---- non-interference ----

  predicate Mine(e: Exec, id: string, algorithm: Algorithm) {
    e.call.id == id && e.call.algorithm == algorithm
  }

  function MineFlags(log: seq<Exec>, id: string, algorithm: Algorithm): (ds: seq<bool>)
    ensures |ds| == |log|
    ensures forall i :: 0 <= i < |log| ==> ds[i] == Mine(log[i], id, algorithm)
  {
    seq(|log|, i requires 0 <= i < |log| => Mine(log[i], id, algorithm))
  }

  /** The executions of one identifier and algorithm. */
  function Restrict(log: seq<Exec>, id: string, algorithm: Algorithm): seq<Exec> {
    Pick(log, MineFlags(log, id, algorithm), |log|)
  }

  predicate SameEntry(ks: Keyspace, ks': Keyspace, key: string) {
    (key in ks <==> key in ks') && (key in ks ==> ks[key] == ks'[key])
  }

  /** A key that only this identifier's requests under this algorithm use. */
  ghost predicate Owned(key: string, id: string, algorithm: Algorithm) {
    match algorithm
    case TokenBucket => key == TokenBucketKey(id)
    case FixedWindow => exists start :: key == WindowKey(FixedWindowKey(id), start)
  }

  /** The part of the keyspace that this identifier's requests under this algorithm can see. */
  ghost function View(ks: Keyspace, id: string, algorithm: Algorithm): Keyspace {
    map key | key in ks && Owned(key, id, algorithm) :: ks[key]
  }

  function WrittenKey(e: Exec): string {
    match e.call.algorithm
    case TokenBucket => TokenBucketKey(e.call.id)
    case FixedWindow =>
      WindowKey(FixedWindowKey(e.call.id), WindowStart(GoWindowArgs(e.call.config, e.call.nowMs)))
  }

  lemma OnlyOneKeyWritten(ks: Keyspace, e: Exec, key: string)
    requires key != WrittenKey(e)
    ensures SameEntry(NextKeys(ks, e), ks, key)
  {
  }

  /** Keys are injective, and the two algorithms' keys are disjoint. */
  lemma OwnerIsUnique(key: string, e: Exec, id: string, algorithm: Algorithm)
    requires Owned(key, id, algorithm) && key == WrittenKey(e)
    ensures Mine(e, id, algorithm)
  {
    var theirs := WindowStart(GoWindowArgs(e.call.config, e.call.nowMs));
    match (algorithm, e.call.algorithm)
    case (TokenBucket, TokenBucket) => TokenBucketKeyInjective(e.call.id, id);
    case (TokenBucket, FixedWindow) => KeySpacesDisjoint(id, e.call.id, theirs);
    case (FixedWindow, TokenBucket) =>
      var start :| key == WindowKey(FixedWindowKey(id), start);
      KeySpacesDisjoint(e.call.id, id, start);
    case (FixedWindow, FixedWindow) =>
      var start :| key == WindowKey(FixedWindowKey(id), start);
      WindowKeyInjective(e.call.id, theirs, id, start);
  }

  /** Two executions meet in one key exactly when identifier and algorithm are the same and, for
      the fixed window, the window starts too. The key holds neither the limit nor the window's
      length, so requests that disagree about those do share a bucket or a counter. */
  lemma SharesKeyIff(e: Exec, e': Exec)
    ensures WrittenKey(e) == WrittenKey(e')
       <==> && Mine(e', e.call.id, e.call.algorithm)
            && (e.call.algorithm == FixedWindow ==>
                  WindowStart(GoWindowArgs(e.call.config, e.call.nowMs))
                  == WindowStart(GoWindowArgs(e'.call.config, e'.call.nowMs)))
  {
    WritesOwnKey(e);
    if WrittenKey(e) == WrittenKey(e') {
      OwnerIsUnique(WrittenKey(e), e', e.call.id, e.call.algorithm);
      if e.call.algorithm == FixedWindow {
        WindowKeyInjective(e.call.id, WindowStart(GoWindowArgs(e.call.config, e.call.nowMs)),
                           e.call.id, WindowStart(GoWindowArgs(e'.call.config, e'.call.nowMs)));
      }
    }
  }

  lemma WritesOwnKey(e: Exec)
    ensures Owned(WrittenKey(e), e.call.id, e.call.algorithm)
  {
  }

  lemma ReadsOneKey(ks: Keyspace, ks': Keyspace, e: Exec)
    requires SameEntry(ks, ks', WrittenKey(e))
    ensures AnswerTo(ks, e) == AnswerTo(ks', e)
    ensures SameEntry(NextKeys(ks, e), NextKeys(ks', e), WrittenKey(e))
  {
  }

  lemma SameView(ks: Keyspace, ks': Keyspace, id: string, algorithm: Algorithm)
    requires forall key | Owned(key, id, algorithm) :: SameEntry(ks, ks', key)
    ensures View(ks, id, algorithm) == View(ks', id, algorithm)
  {
    forall key
      ensures SameEntry(View(ks, id, algorithm), View(ks', id, algorithm), key)
    {
      if Owned(key, id, algorithm) {
        assert SameEntry(ks, ks', key);
      }
    }
  }

  lemma SeenEntry(ks: Keyspace, ks': Keyspace, id: string, algorithm: Algorithm, key: string)
    requires View(ks, id, algorithm) == View(ks', id, algorithm) && Owned(key, id, algorithm)
    ensures SameEntry(ks, ks', key)
  {
    assert key in View(ks, id, algorithm) <==> key in ks;
    assert key in View(ks', id, algorithm) <==> key in ks';
  }

  lemma MineSeesOnlyMine(ks: Keyspace, ks': Keyspace, e: Exec, id: string, algorithm: Algorithm)
    requires View(ks, id, algorithm) == View(ks', id, algorithm) && Mine(e, id, algorithm)
    ensures AnswerTo(ks, e) == AnswerTo(ks', e)
    ensures View(NextKeys(ks, e), id, algorithm) == View(NextKeys(ks', e), id, algorithm)
  {
    WritesOwnKey(e);
    SeenEntry(ks, ks', id, algorithm, WrittenKey(e));
    ReadsOneKey(ks, ks', e);
    forall key | Owned(key, id, algorithm)
      ensures SameEntry(NextKeys(ks, e), NextKeys(ks', e), key)
    {
      SeenEntry(ks, ks', id, algorithm, key);
      if key != WrittenKey(e) {
        OnlyOneKeyWritten(ks, e, key);
        OnlyOneKeyWritten(ks', e, key);
      }
    }
    SameView(NextKeys(ks, e), NextKeys(ks', e), id, algorithm);
  }

  lemma OthersLeaveMine(ks: Keyspace, e: Exec, id: string, algorithm: Algorithm)
    requires !Mine(e, id, algorithm)
    ensures View(NextKeys(ks, e), id, algorithm) == View(ks, id, algorithm)
  {
    forall key | Owned(key, id, algorithm)
      ensures SameEntry(NextKeys(ks, e), ks, key)
    {
      if key == WrittenKey(e) {
        OwnerIsUnique(key, e, id, algorithm);
      }
      OnlyOneKeyWritten(ks, e, key);
    }
    SameView(NextKeys(ks, e), ks, id, algorithm);
  }

  /** How many of the first n executions are the identifier's own. */
  function Rank(log: seq<Exec>, id: string, algorithm: Algorithm, n: nat): (r: nat)
    requires n <= |log|
    ensures r <= |Restrict(log, id, algorithm)|
  {
    CountMonotone(MineFlags(log, id, algorithm), 0, n, |log|);
    Count(MineFlags(log, id, algorithm), 0, n)
  }

  lemma RankStep(log: seq<Exec>, id: string, algorithm: Algorithm, n: nat)
    requires n < |log|
    ensures Rank(log, id, algorithm, n + 1) == Rank(log, id, algorithm, n)
            + (if Mine(log[n], id, algorithm) then 1 else 0)
    ensures Mine(log[n], id, algorithm) ==>
      && Rank(log, id, algorithm, n) < |Restrict(log, id, algorithm)|
      && Restrict(log, id, algorithm)[Rank(log, id, algorithm, n)] == log[n]
  {
    if Mine(log[n], id, algorithm) {
      PickedAt(log, MineFlags(log, id, algorithm), n, |log|);
    }
  }

  /** The view of the restricted run when the whole run has executed n scripts. */
  ghost function RestrictedView(ks: Keyspace, log: seq<Exec>, id: string, algorithm: Algorithm, n: nat): Keyspace
    requires n <= |log|
  {
    View(KeysAt(ks, Restrict(log, id, algorithm), Rank(log, id, algorithm, n)), id, algorithm)
  }

  lemma RestrictedViewNext(ks: Keyspace, log: seq<Exec>, id: string, algorithm: Algorithm, m: nat, n: nat)
    requires n == m + 1 <= |log|
    ensures RestrictedView(ks, log, id, algorithm, n)
         == if Mine(log[m], id, algorithm)
            then View(NextKeys(KeysAt(ks, Restrict(log, id, algorithm), Rank(log, id, algorithm, m)), log[m]), id,
               algorithm)
            else RestrictedView(ks, log, id, algorithm, m)
  {
    RankStep(log, id, algorithm, m);
  }

  lemma RestrictionStep(ks: Keyspace, log: seq<Exec>, id: string, algorithm: Algorithm, m: nat, n: nat)
    requires n == m + 1 <= |log|
    requires View(KeysAt(ks, log, m), id, algorithm) == RestrictedView(ks, log, id, algorithm, m)
    ensures View(KeysAt(ks, log, n), id, algorithm) == RestrictedView(ks, log, id, algorithm, n)
  {
    RestrictedViewNext(ks, log, id, algorithm, m, n);
    if Mine(log[m], id, algorithm) {
      var other := KeysAt(ks, Restrict(log, id, algorithm), Rank(log, id, algorithm, m));
      MineSeesOnlyMine(KeysAt(ks, log, m), other, log[m], id, algorithm);
    } else {
      OthersLeaveMine(KeysAt(ks, log, m), log[m], id, algorithm);
    }
  }

  lemma {:induction false} RestrictionAgrees(ks: Keyspace, log: seq<Exec>, id: string, algorithm: Algorithm, n: nat)
    requires n <= |log|
    ensures View(KeysAt(ks, log, n), id, algorithm) == RestrictedView(ks, log, id, algorithm, n)
  {
    if n == 0 {
    } else {
      var m := n - 1;
      RestrictionAgrees(ks, log, id, algorithm, m);
      RestrictionStep(ks, log, id, algorithm, m, n);
    }
  }

  /** What an identifier is told under one algorithm depends on nobody else, whatever the
      identifiers contain, whatever configurations are mixed and whatever the store held before:
      its replies are those of the log restricted to it. */
  lemma NonInterference(ks: Keyspace, log: seq<Exec>, n: nat)
    requires n < |log|
    ensures var Call(id, algorithm, _, _) := log[n].call;
            && Rank(log, id, algorithm, n) < |Restrict(log, id, algorithm)|
            && Restrict(log, id, algorithm)[Rank(log, id, algorithm, n)] == log[n]
            && ReplyAt(ks, log, n) == ReplyAt(ks, Restrict(log, id, algorithm), Rank(log, id, algorithm, n))
  {
    var Call(id, algorithm, _, _) := log[n].call;
    RestrictionAgrees(ks, log, id, algorithm, n);
    RankStep(log, id, algorithm, n);
    var other := KeysAt(ks, Restrict(log, id, algorithm), Rank(log, id, algorithm, n));
    MineSeesOnlyMine(KeysAt(ks, log, n), other, log[n], id, algorithm);
  }

  // ---- every reply is well formed ----

  /** Every key the limiter owns holds the kind of value its script expects. */
  ghost predicate Sane(ks: Keyspace) {
    && (forall id :: TokenBucketKey(id) in ks ==>
          ks[TokenBucketKey(id)].value.Hash? && ks[TokenBucketKey(id)].value.tokens >= 0.0)
    && (forall id, start :: WindowKey(FixedWindowKey(id), start) in ks ==>
          var v := ks[WindowKey(FixedWindowKey(id), start)].value; v.Counter? && v.count >= 1)
  }

  lemma StepStaysSane(ks: Keyspace, e: Exec)
    requires Sane(ks)
    ensures Sane(NextKeys(ks, e))
    ensures AnswerTo(ks, e).Ok? && WellFormed(e.call.config, AnswerTo(ks, e).value, e.call.nowMs)
  {
    var c := e.call.config;
    if e.call.algorithm == TokenBucket {
      assert TokenBucketKey(e.call.id) == WrittenKey(e);
      BucketReplyWellFormed(c, Find(ks, WrittenKey(e), e.redisMs), e.call.nowMs);
      forall id, start
        ensures WindowKey(FixedWindowKey(id), start) != WrittenKey(e)
      {
        KeySpacesDisjoint(e.call.id, id, start);
      }
    } else {
      var start := WindowStart(GoWindowArgs(c, e.call.nowMs));
      assert WindowKey(FixedWindowKey(e.call.id), start) == WrittenKey(e);
      WindowReplyWellFormed(c, CountIn(Find(ks, WrittenKey(e), e.redisMs)), e.call.nowMs);
      forall id
        ensures TokenBucketKey(id) != WrittenKey(e)
      {
        KeySpacesDisjoint(id, e.call.id, start);
      }
    }
  }

  lemma {:induction false} ReachableIsSane(log: seq<Exec>, n: nat)
    requires n <= |log|
    ensures Sane(KeysAt(map[], log, n))
  {
    if n == 0 {
    } else {
      ReachableIsSane(log, n - 1);
      StepStaysSane(KeysAt(map[], log, n - 1), log[n - 1]);
    }
  }

  /** No script ever fails on a value of the wrong kind, and every reply has the documented
      shape, however the configurations of an identifier change. */
  lemma EveryReplyWellFormed(log: seq<Exec>, n: nat)
    requires n < |log|
    ensures ReplyAt(map[], log, n).Ok?
            && WellFormed(log[n].call.config, ReplyAt(map[], log, n).value, log[n].call.nowMs)
  {
    ReachableIsSane(log, n);
    StepStaysSane(KeysAt(map[], log, n), log[n]);
  }

  /** ... and the fixed window names the end of the window that the request falls into. */
  lemma EveryWindowReset(log: seq<Exec>, n: nat)
    requires n < |log| && log[n].call.algorithm == FixedWindow
    ensures var now, window := FloorDiv(log[n].call.nowMs, 1000), log[n].call.config.window;
            ReplyAt(map[], log, n).Ok? && ReplyAt(map[], log, n).value.resetAt == window * (FloorDiv(now, window) + 1)
  {
    EveryReplyWellFormed(log, n);
    ResetIsWindowEnd(CountIn(Find(KeysAt(map[], log, n), WrittenKey(log[n]), log[n].redisMs)),
                     GoWindowArgs(log[n].call.config, log[n].call.nowMs), 0);
  }

  // ---- the store of one identifier is the run of its timestamps ----

  /** Every execution belongs to the identifier and algorithm and uses one configuration. */
  predicate Uniform(log: seq<Exec>, id: string, algorithm: Algorithm, c: Config) {
    forall i :: 0 <= i < |log| ==> Mine(log[i], id, algorithm) && log[i].call.config == c
  }

  function Millis(log: seq<Exec>): (ts: seq<int>)
    ensures |ts| == |log|
    ensures forall i :: 0 <= i < |log| ==> ts[i] == log[i].call.nowMs
  {
    seq(|log|, i requires 0 <= i < |log| => log[i].call.nowMs)
  }

  function Seconds(log: seq<Exec>): (ts: seq<int>)
    ensures |ts| == |log|
    ensures forall i :: 0 <= i < |log| ==> ts[i] == FloorDiv(log[i].call.nowMs, 1000)
  {
    seq(|log|, i requires 0 <= i < |log| => FloorDiv(log[i].call.nowMs, 1000))
  }

  function RedisMillis(log: seq<Exec>): (rs: seq<int>)
    ensures |rs| == |log|
    ensures forall i :: 0 <= i < |log| ==> rs[i] == log[i].redisMs
  {
    seq(|log|, i requires 0 <= i < |log| => log[i].redisMs)
  }

  /** The readings of picked executions are the picked readings. */
  lemma {:induction false} PickedReadings(log: seq<Exec>, keep: seq<bool>, n: nat)
    requires n <= |log| == |keep|
    ensures Millis(Pick(log, keep, n)) == Pick(Millis(log), keep, n)
    ensures Seconds(Pick(log, keep, n)) == Pick(Seconds(log), keep, n)
    ensures RedisMillis(Pick(log, keep, n)) == Pick(RedisMillis(log), keep, n)
  {
    if n == 0 {
    } else {
      PickedReadings(log, keep, n - 1);
    }
  }

  /** The bucket request n finds, expiry included. */
  function BucketFoundAt(c: CheckedConfig, log: seq<Exec>, n: nat): (found: Option<Levels.Level>)
    requires n < |log|
    ensures Levels.NonNegative(found)
  {
    BucketRuns.ExpiringNonNegative(c, Millis(log), BucketRuns.IdleDrops(c, RedisMillis(log)), n);
    BucketRuns.ExpiringAt(c, Millis(log), BucketRuns.IdleDrops(c, RedisMillis(log)), n)
  }

  /** One script execution: its reply, and what a later execution finds. */
  lemma BucketStep(c: CheckedConfig, ks: Keyspace, e: Exec, found: Option<Levels.Level>, laterMs: int)
    requires e.call.algorithm == TokenBucket && e.call.config == c && Levels.NonNegative(found)
    requires Find(ks, TokenBucketKey(e.call.id), e.redisMs) == Stored(c, found)
    ensures AnswerTo(ks, e) == Ok(Levels.ReplyFor(c, Levels.Avail(c, found, e.call.nowMs), e.call.nowMs))
    ensures Find(NextKeys(ks, e), TokenBucketKey(e.call.id), laterMs)
         == Stored(c, if laterMs >= e.redisMs + 2000 * c.window then None
                      else Some(Levels.Next(c, found, e.call.nowMs)))
  {
    RealBucketIsUnitBucket(c, found, e.call.nowMs);
  }

  lemma BucketFoundNext(c: CheckedConfig, log: seq<Exec>, n: nat)
    requires n + 1 < |log|
    ensures BucketFoundAt(c, log, n + 1)
         == if log[n + 1].redisMs >= log[n].redisMs + 2000 * c.window then None
            else Some(Levels.Next(c, BucketFoundAt(c, log, n), log[n].call.nowMs))
  {
  }

  lemma BucketFoundStep(log: seq<Exec>, id: string, c: CheckedConfig, m: nat, n: nat)
    requires Uniform(log, id, TokenBucket, c) && n == m + 1 < |log|
    requires Find(KeysAt(map[], log, m), TokenBucketKey(id), log[m].redisMs) == Stored(c, BucketFoundAt(c, log, m))
    ensures Find(KeysAt(map[], log, n), TokenBucketKey(id), log[n].redisMs) == Stored(c, BucketFoundAt(c, log, n))
  {
    BucketFoundNext(c, log, m);
    assert Mine(log[m], id, TokenBucket);
    BucketStep(c, KeysAt(map[], log, m), log[m], BucketFoundAt(c, log, m), log[n].redisMs);
  }

  lemma {:induction false} BucketFound(log: seq<Exec>, id: string, c: CheckedConfig, n: nat)
    requires Uniform(log, id, TokenBucket, c) && n < |log|
    ensures Find(KeysAt(map[], log, n), TokenBucketKey(id), log[n].redisMs) == Stored(c, BucketFoundAt(c, log, n))
  {
    if n == 0 {
    } else {
      var m := n - 1;
      BucketFound(log, id, c, m);
      BucketFoundStep(log, id, c, m, n);
    }
  }

  /** The script's replies, computed in real arithmetic on a store that expires idle keys, are
      those of the unit bucket that is dropped before every request idle for twice the window. */
  lemma BucketRepliesAre(log: seq<Exec>, id: string, c: CheckedConfig, n: nat)
    requires Uniform(log, id, TokenBucket, c) && n < |log|
    ensures ReplyAt(map[], log, n)
         == Ok(BucketRuns.ExpiringReplyAt(c, Millis(log), BucketRuns.IdleDrops(c, RedisMillis(log)), n))
  {
    BucketFound(log, id, c, n);
    BucketStep(c, KeysAt(map[], log, n), log[n], BucketFoundAt(c, log, n), log[n].redisMs);
  }

  /** Redis holds the run's counter for the window starting at `start`, unless it has forgotten
      it because the window was no longer open at `lastMs`. */
  predicate CounterMatches(c: CheckedConfig, ks: Keyspace, id: string, start: int, counted: nat, lastMs: int) {
    var key := WindowKey(FixedWindowKey(id), start);
    if key in ks
    then counted >= 1 && ks[key] == Entry(Counter(counted), Some(1000 * (start + c.window)))
    else counted == 0 || !WindowRuns.Open(c, start, lastMs)
  }

  lemma CounterStep(c: CheckedConfig, ks: Keyspace, e: Exec, start: int, counted: nat, lastMs: int)
    requires e.call.algorithm == FixedWindow && e.call.config == c && lastMs <= e.redisMs
    requires CounterMatches(c, ks, e.call.id, start, counted, lastMs)
    ensures var now := FloorDiv(e.call.nowMs, 1000);
            var seen := if WindowRuns.Open(c, start, e.redisMs) then counted else 0;
            var mine := WindowRuns.Start(c, now) == start;
            && (mine ==> AnswerTo(ks, e) == Ok(WindowReply(seen, WindowRuns.Args(c, now))))
            && CounterMatches(c, NextKeys(ks, e), e.call.id, start,
                              if mine && seen < c.limit then seen + 1 else counted, e.redisMs)
  {
    var key := WindowKey(FixedWindowKey(e.call.id), start);
    if WrittenKey(e) == key {
      WindowKeyInjective(e.call.id, WindowStart(GoWindowArgs(c, e.call.nowMs)), e.call.id, start);
    } else {
      OnlyOneKeyWritten(ks, e, key);
    }
  }

  /** Redis's time at the latest of the first n executions. */
  function LastMs(log: seq<Exec>, n: nat): int
    requires n <= |log|
  {
    if n > 0 then log[n - 1].redisMs else if |log| > 0 then log[0].redisMs else 0
  }

  lemma {:induction false} CountersMatch(log: seq<Exec>, id: string, c: CheckedConfig, start: int, n: nat)
    requires Uniform(log, id, FixedWindow, c) && Nondecreasing(RedisMillis(log)) && n <= |log|
    ensures CounterMatches(c, KeysAt(map[], log, n), id, start,
                           WindowRuns.Counted(c, Seconds(log), RedisMillis(log), start, n), LastMs(log, n))
  {
    if n == 0 {
    } else {
      CountersMatch(log, id, c, start, n - 1);
      assert n > 1 ==> RedisMillis(log)[n - 2] <= RedisMillis(log)[n - 1];
      CounterStep(c, KeysAt(map[], log, n - 1), log[n - 1], start,
                  WindowRuns.Counted(c, Seconds(log), RedisMillis(log), start, n - 1), LastMs(log, n - 1));
    }
  }

  /** The script's replies are those of the counters of the run. */
  lemma WindowRepliesAre(log: seq<Exec>, id: string, c: CheckedConfig, n: nat)
    requires Uniform(log, id, FixedWindow, c) && Nondecreasing(RedisMillis(log)) && n < |log|
    ensures ReplyAt(map[], log, n) == Ok(WindowRuns.ReplyAt(c, Seconds(log), RedisMillis(log), n))
  {
    var start := WindowRuns.Start(c, Seconds(log)[n]);
    CountersMatch(log, id, c, start, n);
    assert n > 0 ==> RedisMillis(log)[n - 1] <= RedisMillis(log)[n];
    CounterStep(c, KeysAt(map[], log, n), log[n], start,
                WindowRuns.Counted(c, Seconds(log), RedisMillis(log), start, n), LastMs(log, n));
  }

  // ---- ... and so it is inside any log ----

  /** One identifier uses one configuration for this algorithm. */
  predicate OneConfig(log: seq<Exec>, id: string, algorithm: Algorithm, c: Config) {
    forall i :: 0 <= i < |log| && Mine(log[i], id, algorithm) ==> log[i].call.config == c
  }

  lemma RestrictUniform(log: seq<Exec>, id: string, algorithm: Algorithm, c: Config)
    requires OneConfig(log, id, algorithm, c)
    ensures Uniform(Restrict(log, id, algorithm), id, algorithm, c)
  {
    PickUniform(log, id, algorithm, c, |log|);
  }

  lemma {:induction false} PickUniform(log: seq<Exec>, id: string, algorithm: Algorithm, c: Config, n: nat)
    requires OneConfig(log, id, algorithm, c) && n <= |log|
    ensures Uniform(Pick(log, MineFlags(log, id, algorithm), n), id, algorithm, c)
  {
    if n == 0 {
    } else {
      PickUniform(log, id, algorithm, c, n - 1);
    }
  }

  /** An identifier's run of the token bucket: its timestamps, and where its idle key is dropped. */
  function BucketStamps(log: seq<Exec>, id: string): seq<int> {
    Millis(Restrict(log, id, TokenBucket))
  }

  function BucketDrops(log: seq<Exec>, id: string, c: Config): (drops: seq<bool>)
    ensures |drops| == |BucketStamps(log, id)|
  {
    BucketRuns.IdleDrops(c, RedisMillis(Restrict(log, id, TokenBucket)))
  }

  /** The identifier's idle key is only ever dropped when its bucket is full. */
  predicate TtlUnnoticed(log: seq<Exec>, id: string, c: Config) {
    BucketRuns.DropsOnlyFull(c, BucketStamps(log, id), BucketDrops(log, id, c))
  }

  /** Inside any log, an identifier with one configuration gets the token bucket replies of its
      own timestamps, from a bucket that is dropped after every idle gap of twice the window. */
  lemma TokenBucketReply(log: seq<Exec>, id: string, c: CheckedConfig, n: nat)
    requires OneConfig(log, id, TokenBucket, c) && n < |log| && Mine(log[n], id, TokenBucket)
    ensures Rank(log, id, TokenBucket, n) < |BucketStamps(log, id)|
    ensures log[n].call.nowMs == BucketStamps(log, id)[Rank(log, id, TokenBucket, n)]
    ensures ReplyAt(map[], log, n)
         == Ok(BucketRuns.ExpiringReplyAt(c, BucketStamps(log, id), BucketDrops(log, id, c),
            Rank(log, id, TokenBucket, n)))
  {
    NonInterference(map[], log, n);
    RestrictUniform(log, id, TokenBucket, c);
    BucketRepliesAre(Restrict(log, id, TokenBucket), id, c, Rank(log, id, TokenBucket, n));
  }

  /** Long idle gaps that show on both clocks are enough for the TTL to go unnoticed ... */
  lemma AgreeingGapsUnnoticed(log: seq<Exec>, id: string, c: CheckedConfig)
    requires var own := Restrict(log, id, TokenBucket); BucketRuns.GapsAgree(c, Millis(own), RedisMillis(own))
    ensures TtlUnnoticed(log, id, c)
  {
    BucketRuns.TtlUnobservable(c, BucketStamps(log, id), RedisMillis(Restrict(log, id, TokenBucket)));
  }

  /** ... and then the replies are those of a bucket that never expires. */
  lemma NeverExpiringReply(log: seq<Exec>, id: string, c: CheckedConfig, n: nat)
    requires OneConfig(log, id, TokenBucket, c) && n < |log| && Mine(log[n], id, TokenBucket)
    requires TtlUnnoticed(log, id, c)
    ensures Rank(log, id, TokenBucket, n) < |BucketStamps(log, id)|
    ensures ReplyAt(map[], log, n) == Ok(Levels.ReplyAt(c, None, BucketStamps(log, id), Rank(log, id, TokenBucket, n)))
  {
    TokenBucketReply(log, id, c, n);
    BucketRuns.ExpiryUnobservableIff(c, BucketStamps(log, id), BucketDrops(log, id, c));
  }

  /** Inside any log, an identifier with one configuration gets the fixed window replies of its
      own timestamps. */
  lemma FixedWindowReply(log: seq<Exec>, id: string, c: CheckedConfig, n: nat)
    requires OneConfig(log, id, FixedWindow, c) && n < |log| && Mine(log[n], id, FixedWindow)
    requires Nondecreasing(RedisMillis(Restrict(log, id, FixedWindow)))
    ensures Rank(log, id, FixedWindow, n) < |Restrict(log, id, FixedWindow)|
    ensures var own := Restrict(log, id, FixedWindow);
            && FloorDiv(log[n].call.nowMs, 1000) == Seconds(own)[Rank(log, id, FixedWindow, n)]
            && ReplyAt(map[], log, n)
               == Ok(WindowRuns.ReplyAt(c, Seconds(own), RedisMillis(own), Rank(log, id, FixedWindow, n)))
  {
    NonInterference(map[], log, n);
    RestrictUniform(log, id, FixedWindow, c);
    WindowRepliesAre(Restrict(log, id, FixedWindow), id, c, Rank(log, id, FixedWindow, n));
  }
}
