/** What becomes of a key when requests of one identifier disagree about the limit or the window: a
    bucket is the last visitor's, a window counter lives as long as the window of the request that
    created it. */
module MixedConfigs {
  import opened Types
  import opened Arithmetic
  import opened Keys
  import opened Scripts
  import opened Redis
  import opened StoreRuns

  // ---- token bucket ----

  /** What a configuration refills each millisecond. */
  function RatePerMs(c: CheckedConfig): real {
    c.limit as real / c.window as real / 1000.0
  }

  /** The tokens a visit finds: what the last one left, refilled at the visitor's own rate and cut
      down to its own limit, or as many as that limit if the key is not there. */
  function TokensFound(ks: Keyspace, e: Exec): real {
    match Find(ks, TokenBucketKey(e.call.id), e.redisMs)
    case Some(Hash(tokens, lastMs)) =>
      MinReal(e.call.config.limit as real, tokens + Max(0, e.call.nowMs - lastMs) as real * RatePerMs(e.call.config))
    case _ => e.call.config.limit as real
  }

  /** The key as a visit leaves it: for twice the visitor's own window. */
  function LeftByVisit(ks: Keyspace, e: Exec): Entry {
    var tokens := TokensFound(ks, e);
    Entry(Hash(if tokens >= 1.0 then tokens - 1.0 else tokens, e.call.nowMs),
          Some(e.redisMs + 2000 * e.call.config.window))
  }

  lemma FoundIsRefilled(ks: Keyspace, e: Exec)
    requires var found := Find(ks, TokenBucketKey(e.call.id), e.redisMs); found.Some? ==> found.value.Hash?
    ensures TokensFound(ks, e)
         == Refilled(Find(ks, TokenBucketKey(e.call.id), e.redisMs), GoBucketArgs(e.call.config, e.call.nowMs))
  {
  }

  lemma BucketVisit(ks: Keyspace, e: Exec)
    requires e.call.algorithm == TokenBucket
    requires var found := Find(ks, TokenBucketKey(e.call.id), e.redisMs); found.Some? ==> found.value.Hash?
    ensures NextKeys(ks, e) == ks[TokenBucketKey(e.call.id) := LeftByVisit(ks, e)]
    ensures AnswerTo(ks, e).Ok? && AnswerTo(ks, e).value.allowed == (TokensFound(ks, e) >= 1.0)
  {
    FoundIsRefilled(ks, e);
  }

  /** Execution m was the last of the first n to visit the identifier's bucket. */
  ghost predicate LastVisit(log: seq<Exec>, id: string, m: nat, n: nat)
    requires n <= |log|
  {
    m < n && Mine(log[m], id, TokenBucket) && forall i :: m < i < n ==> !Mine(log[i], id, TokenBucket)
  }

  lemma OthersLeaveBucket(ks: Keyspace, e: Exec, id: string)
    requires !Mine(e, id, TokenBucket)
    ensures SameEntry(NextKeys(ks, e), ks, TokenBucketKey(id))
  {
    if WrittenKey(e) == TokenBucketKey(id) {
      OwnerIsUnique(TokenBucketKey(id), e, id, TokenBucket);
    }
    OnlyOneKeyWritten(ks, e, TokenBucketKey(id));
  }

  lemma VisitLeaves(log: seq<Exec>, id: string, m: nat, n: nat)
    requires m + 1 == n <= |log| && Mine(log[m], id, TokenBucket)
    ensures TokenBucketKey(id) in KeysAt(map[], log, n)
    ensures KeysAt(map[], log, n)[TokenBucketKey(id)] == LeftByVisit(KeysAt(map[], log, m), log[m])
  {
    ReachableIsSane(log, m);
    BucketVisit(KeysAt(map[], log, m), log[m]);
  }

  /** In any log, under any mix of configurations: a bucket that is in the store is as the last visit
      has left it, in its own terms, and lives as long as that one asked for, be it longer or shorter
      than what earlier visits did. */
  lemma {:induction false} BucketHistory(log: seq<Exec>, id: string, n: nat) returns (m: nat)
    requires n <= |log| && TokenBucketKey(id) in KeysAt(map[], log, n)
    ensures LastVisit(log, id, m, n)
    ensures KeysAt(map[], log, n)[TokenBucketKey(id)] == LeftByVisit(KeysAt(map[], log, m), log[m])
  {
    var last := n - 1;
    if Mine(log[last], id, TokenBucket) {
      m := last;
      VisitLeaves(log, id, last, n);
    } else {
      OthersLeaveBucket(KeysAt(map[], log, last), log[last], id);
      m := BucketHistory(log, id, last);
    }
  }

  // ---- fixed window ----

  function CounterKey(id: string, start: int): string {
    WindowKey(FixedWindowKey(id), start)
  }

  /** The execution is a fixed window's, for the counter of the identifier that starts at `start`. */
  predicate Visits(e: Exec, id: string, start: int) {
    Mine(e, id, FixedWindow) && WindowStart(GoWindowArgs(e.call.config, e.call.nowMs)) == start
  }

  lemma OnlyVisitsWrite(ks: Keyspace, e: Exec, id: string, start: int)
    requires !Visits(e, id, start)
    ensures SameEntry(NextKeys(ks, e), ks, CounterKey(id, start))
  {
    if WrittenKey(e) == CounterKey(id, start) {
      OwnerIsUnique(CounterKey(id, start), e, id, FixedWindow);
      WindowKeyInjective(id, WindowStart(GoWindowArgs(e.call.config, e.call.nowMs)), id, start);
    } else {
      OnlyOneKeyWritten(ks, e, CounterKey(id, start));
    }
  }

  /** A visit to a live counter adds one, up to the visitor's own limit, and leaves the expiry as it
      is, whatever the visitor's own window. */
  lemma SetsExpiryOnce(ks: Keyspace, e: Exec, id: string, start: int, count: nat)
    requires Visits(e, id, start) && count >= 1
    requires Find(ks, CounterKey(id, start), e.redisMs) == Some(Counter(count))
    ensures var admitted := count < e.call.config.limit;
            && NextKeys(ks, e)
               == ks[CounterKey(id, start) := Entry(Counter(if admitted then count + 1 else count),
                                                    ks[CounterKey(id, start)].expireAt)]
            && AnswerTo(ks, e).Ok? && AnswerTo(ks, e).value.allowed == admitted
  {
  }

  /** A visit that finds none is admitted and creates one, until the end of the visitor's window; if
      that has passed already, none is left. */
  lemma CreatesCounter(ks: Keyspace, e: Exec, id: string, start: int)
    requires Visits(e, id, start) && Find(ks, CounterKey(id, start), e.redisMs) == None
    ensures var endMs := 1000 * (start + e.call.config.window);
            && NextKeys(ks, e)
               == (if endMs <= e.redisMs then ks - {CounterKey(id, start)}
                   else ks[CounterKey(id, start) := Entry(Counter(1), Some(endMs))])
            && AnswerTo(ks, e).Ok? && AnswerTo(ks, e).value.allowed
  {
  }

  // ---- the history of a counter ----

  function FoundAt(log: seq<Exec>, id: string, start: int, n: nat): Option<Value>
    requires n < |log|
  {
    Find(KeysAt(map[], log, n), CounterKey(id, start), log[n].redisMs)
  }

  /** How many visits from execution m to execution n - 1 were admitted. */
  function AdmittedVisits(log: seq<Exec>, id: string, start: int, m: nat, n: nat): nat
    requires m <= n <= |log|
  {
    if m == n then 0
    else AdmittedVisits(log, id, start, m, n - 1)
         + (if Visits(log[n - 1], id, start) && ReplyAt(map[], log, n - 1).Ok?
               && ReplyAt(map[], log, n - 1).value.allowed then 1 else 0)
  }

  /** After n executions the counter holds the visits admitted since execution m, and expires at the
      end of that one's window. */
  predicate CountsSince(log: seq<Exec>, id: string, start: int, m: nat, n: nat)
    requires m < n <= |log|
  {
    && CounterKey(id, start) in KeysAt(map[], log, n)
    && KeysAt(map[], log, n)[CounterKey(id, start)]
       == Entry(Counter(AdmittedVisits(log, id, start, m, n)), Some(1000 * (start + log[m].call.config.window)))
  }

  /** Execution m created that counter: it found none, and every visit since has found one. */
  ghost predicate Created(log: seq<Exec>, id: string, start: int, m: nat, n: nat)
    requires n <= |log|
  {
    && m < n
    && Visits(log[m], id, start)
    && FoundAt(log, id, start, m) == None
    && (forall i | m < i < n && Visits(log[i], id, start) :: FoundAt(log, id, start, i).Some?)
  }

  lemma CountsFromCreation(log: seq<Exec>, id: string, start: int, m: nat, n: nat)
    requires m + 1 == n <= |log| && Visits(log[m], id, start) && FoundAt(log, id, start, m) == None
    requires CounterKey(id, start) in KeysAt(map[], log, n)
    ensures CountsSince(log, id, start, m, n)
  {
    CreatesCounter(KeysAt(map[], log, m), log[m], id, start);
    assert AdmittedVisits(log, id, start, m, m) == 0;
  }

  lemma CountsOn(log: seq<Exec>, id: string, start: int, i: nat, m: nat, n: nat)
    requires i < m && m + 1 == n <= |log| && CountsSince(log, id, start, i, m)
    requires Visits(log[m], id, start) ==> FoundAt(log, id, start, m).Some?
    ensures CountsSince(log, id, start, i, n)
  {
    var ks := KeysAt(map[], log, m);
    if Visits(log[m], id, start) {
      ReachableIsSane(log, m);
      assert ks[CounterKey(id, start)].value == Counter(AdmittedVisits(log, id, start, i, m));
      SetsExpiryOnce(ks, log[m], id, start, AdmittedVisits(log, id, start, i, m));
    } else {
      OnlyVisitsWrite(ks, log[m], id, start);
    }
  }

  /** In any log, under any mix of configurations: a counter that is in the store was created by a
      visit that found none, has been found by every visit since, expires at the end of its
      creator's window, and counts the visits admitted since then. */
  lemma {:induction false} CounterHistory(log: seq<Exec>, id: string, start: int, n: nat) returns (m: nat)
    requires n <= |log| && CounterKey(id, start) in KeysAt(map[], log, n)
    ensures Created(log, id, start, m, n) && CountsSince(log, id, start, m, n)
  {
    var last := n - 1;
    if Visits(log[last], id, start) && FoundAt(log, id, start, last) == None {
      m := last;
      CountsFromCreation(log, id, start, last, n);
    } else {
      if !Visits(log[last], id, start) {
        OnlyVisitsWrite(KeysAt(map[], log, last), log[last], id, start);
      }
      m := CounterHistory(log, id, start, last);
      CountsOn(log, id, start, m, last, n);
    }
  }

  // ---- one limit, two windows ----

  /** Two requests a minute, then two in two minutes: the three windows all start at 0. */
  function MinuteThenTwo(): (log: seq<Exec>)
    ensures |log| == 3
  {
    [Exec(Call("id", FixedWindow, Config(2, 60), 0), 0),
     Exec(Call("id", FixedWindow, Config(2, 120), 30000), 30000),
     Exec(Call("id", FixedWindow, Config(2, 120), 70000), 70000)]
  }

  lemma MinuteThenTwoKeys()
    ensures var log := MinuteThenTwo();
            && (forall i :: 0 <= i < 3 ==> Visits(log[i], "id", 0))
            && KeysAt(map[], log, 1) == map[CounterKey("id", 0) := Entry(Counter(1), Some(60000))]
            && KeysAt(map[], log, 2) == map[CounterKey("id", 0) := Entry(Counter(2), Some(60000))]
  {
    var log := MinuteThenTwo();
    forall i | 0 <= i < 3
      ensures Visits(log[i], "id", 0)
    {
      assert RoundDown(0, 60) == 0 && RoundDown(30, 120) == 0 && RoundDown(70, 120) == 0;
    }
    assert KeysAt(map[], log, 0) == map[];
    CreatesCounter(map[], log[0], "id", 0);
    SetsExpiryOnce(KeysAt(map[], log, 1), log[1], "id", 0, 1);
  }

  /** So a limit of two in two minutes is passed by a third request in 70 s: the counter it would
      have been stopped by has gone with the minute of the request that created it. */
  lemma ShortWindowEndsLongOne()
    ensures var log := MinuteThenTwo();
            ReplyAt(map[], log, 2) == Ok(Reply(true, 1, 120, 0))
  {
    var log := MinuteThenTwo();
    MinuteThenTwoKeys();
    assert RoundDown(70, 120) == 0;
    CreatesCounter(KeysAt(map[], log, 2), log[2], "id", 0);
  }
}
