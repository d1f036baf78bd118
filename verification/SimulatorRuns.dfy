/** The simulator claims the same mathematics as the backend. Both are run on one log: the
    simulator reads the clock readings the backend's API processes read. */
module SimulatorRuns {
  import opened Types
  import opened Arithmetic
  import opened Counting
  import opened Simulator
  import opened StoreRuns
  import Scripts
  import Deletions
  import Levels = TokenBucketLevels
  import BucketRuns = TokenBucketRuns
  import WindowRuns = FixedWindowRuns

  /** The maps after the first n calls of the log. */
  function MapsAt(log: seq<Exec>, n: nat): Maps
    requires n <= |log|
  {
    if n == 0 then Maps(map[], map[]) else NextMaps(MapsAt(log, n - 1), log[n - 1].call)
  }

  function ResultAt(log: seq<Exec>, n: nat): CheckResult
    requires n < |log|
  {
    ResultOf(MapsAt(log, n), log[n].call)
  }

  /** The same answer: the backend's 0 for "no need to wait" is the simulator's null. */
  predicate SameAnswer(r: CheckResult, reply: Result<Reply>) {
    && reply.Ok?
    && r.allowed == reply.value.allowed
    && r.remaining == reply.value.remaining
    && r.resetAt == reply.value.resetAt
    && r.retryAfter == if reply.value.allowed then None else Some(reply.value.retryAfter)
  }

  // ---- token bucket ----

  function Held(c: CheckedConfig, s: Option<Levels.Level>): Option<BucketState> {
    if s.None? then None else Some(BucketState(Scripts.Tokens(c, s.value.units), s.value.lastMs))
  }

  /** The simulator's arithmetic is the script's. */
  lemma SameArithmetic(c: CheckedConfig, found: Option<BucketState>, nowMs: int)
    ensures var a := Scripts.GoBucketArgs(c, nowMs);
            var tokens := Available(found, c, nowMs);
            && tokens == Scripts.Refilled(if found.None? then None
               else Some(Scripts.Hash(found.value.tokens, found.value.lastMs)), a)
            && Left(tokens) == Scripts.TokensKept(tokens)
            && SameAnswer(BucketResult(tokens, c, nowMs), Ok(Scripts.BucketReply(tokens, a)))
  {
    Scripts.RatePositive(c);
  }

  lemma BucketMatchesScript(c: CheckedConfig, s: Option<Levels.Level>, nowMs: int)
    requires Levels.NonNegative(s)
    ensures var tokens := Available(Held(c, s), c, nowMs);
            && BucketState(Left(tokens), nowMs) == Held(c, Some(Levels.Next(c, s, nowMs))).value
            && SameAnswer(BucketResult(tokens, c, nowMs), Ok(Levels.ReplyFor(c, Levels.Avail(c, s, nowMs), nowMs)))
  {
    SameArithmetic(c, Held(c, s), nowMs);
    Scripts.RealBucketIsUnitBucket(c, s, nowMs);
  }

  /** The level the run of the identifier's own requests has reached before execution n. */
  function OwnLevel(log: seq<Exec>, id: string, c: CheckedConfig, n: nat): (s: Option<Levels.Level>)
    requires n <= |log|
    ensures Levels.NonNegative(s)
  {
    var ts := Millis(Restrict(log, id, TokenBucket));
    Levels.LevelAtNonNegative(c, None, ts, Rank(log, id, TokenBucket, n));
    Levels.LevelAt(c, None, ts, Rank(log, id, TokenBucket, n))
  }

  lemma OwnLevelStep(log: seq<Exec>, id: string, c: CheckedConfig, n: nat)
    requires n < |log|
    ensures OwnLevel(log, id, c, n + 1)
         == if Mine(log[n], id, TokenBucket) then Some(Levels.Next(c, OwnLevel(log, id, c, n), log[n].call.nowMs))
            else OwnLevel(log, id, c, n)
  {
    RankStep(log, id, TokenBucket, n);
  }

  lemma HoldsNextLevel(m: Maps, call: Call, id: string, c: CheckedConfig, s: Option<Levels.Level>)
    requires Levels.NonNegative(s) && Get(m.tb, TbKey(id, c)) == Held(c, s)
    requires call.id == id && call.algorithm == TokenBucket ==> call.config == c
    ensures Get(NextMaps(m, call).tb, TbKey(id, c))
         == Held(c, if call.id == id && call.algorithm == TokenBucket then Some(Levels.Next(c, s, call.nowMs)) else s)
  {
    if call.id == id && call.algorithm == TokenBucket {
      BucketMatchesScript(c, s, call.nowMs);
    } else if TbKey(call.id, call.config) == TbKey(id, c) {
      TbKeyInjective(call.id, call.config, id, c);
    }
  }

  lemma LevelHeldNext(log: seq<Exec>, id: string, c: CheckedConfig, m: nat, n: nat)
    requires OneConfig(log, id, TokenBucket, c) && n == m + 1 <= |log|
    requires Get(MapsAt(log, m).tb, TbKey(id, c)) == Held(c, OwnLevel(log, id, c, m))
    ensures Get(MapsAt(log, n).tb, TbKey(id, c)) == Held(c, OwnLevel(log, id, c, n))
  {
    OwnLevelStep(log, id, c, m);
    HoldsNextLevel(MapsAt(log, m), log[m].call, id, c, OwnLevel(log, id, c, m));
  }

  lemma {:induction false} SimulatorHoldsLevel(log: seq<Exec>, id: string, c: CheckedConfig, n: nat)
    requires OneConfig(log, id, TokenBucket, c) && n <= |log|
    ensures Get(MapsAt(log, n).tb, TbKey(id, c)) == Held(c, OwnLevel(log, id, c, n))
  {
    if n == 0 {
    } else {
      var m := n - 1;
      SimulatorHoldsLevel(log, id, c, m);
      LevelHeldNext(log, id, c, m, n);
    }
  }

  /** The simulator's answers are those of a bucket that never expires. */
  lemma SimulatorNeverExpires(log: seq<Exec>, id: string, c: CheckedConfig, n: nat)
    requires OneConfig(log, id, TokenBucket, c) && n < |log| && Mine(log[n], id, TokenBucket)
    ensures Rank(log, id, TokenBucket, n) < |BucketStamps(log, id)|
    ensures SameAnswer(ResultAt(log, n),
            Ok(Levels.ReplyAt(c, None, BucketStamps(log, id), Rank(log, id, TokenBucket, n))))
  {
    RankStep(log, id, TokenBucket, n);
    SimulatorHoldsLevel(log, id, c, n);
    BucketMatchesScript(c, OwnLevel(log, id, c, n), log[n].call.nowMs);
  }

  /** Token bucket: for any clock readings, the simulator gives the backend's answer to every
      request of an identifier with one configuration, as long as the backend's TTL goes unnoticed. */
  lemma SimulatorRefinesTokenBucket(log: seq<Exec>, id: string, c: CheckedConfig, n: nat)
    requires OneConfig(log, id, TokenBucket, c) && n < |log| && Mine(log[n], id, TokenBucket)
    requires TtlUnnoticed(log, id, c)
    ensures SameAnswer(ResultAt(log, n), ReplyAt(map[], log, n))
  {
    SimulatorNeverExpires(log, id, c, n);
    NeverExpiringReply(log, id, c, n);
  }

  lemma RunsDiffer(c: CheckedConfig, ts: seq<int>, drops: seq<bool>) returns (i: nat)
    requires |ts| == |drops| && !BucketRuns.DropsOnlyFull(c, ts, drops)
    ensures i < |ts| && BucketRuns.ExpiringReplyAt(c, ts, drops, i) != Levels.ReplyAt(c, None, ts, i)
  {
    BucketRuns.ExpiryUnobservableIff(c, ts, drops);
    i :| 0 <= i < |ts| && BucketRuns.ExpiringReplyAt(c, ts, drops, i) != Levels.ReplyAt(c, None, ts, i);
  }

  /** ... and only then: some answer differs if the TTL ever drops a bucket that is not full. */
  lemma TokenBucketAgreesIff(log: seq<Exec>, id: string, c: CheckedConfig)
    requires OneConfig(log, id, TokenBucket, c)
    ensures (forall n: nat | n < |log| && Mine(log[n], id, TokenBucket) ::
               SameAnswer(ResultAt(log, n), ReplyAt(map[], log, n)))
       <==> TtlUnnoticed(log, id, c)
  {
    if TtlUnnoticed(log, id, c) {
      forall n: nat | n < |log| && Mine(log[n], id, TokenBucket)
        ensures SameAnswer(ResultAt(log, n), ReplyAt(map[], log, n))
      {
        SimulatorRefinesTokenBucket(log, id, c, n);
      }
    } else {
      var i := RunsDiffer(c, BucketStamps(log, id), BucketDrops(log, id, c));
      var n := PickedFrom(MineFlags(log, id, TokenBucket), i, |log|);
      TokenBucketReply(log, id, c, n);
      SimulatorNeverExpires(log, id, c, n);
      assert !SameAnswer(ResultAt(log, n), ReplyAt(map[], log, n));
    }
  }

  /** And the TTL can drop one that is not: of two requests stamped alike whose scripts run 20 s
      apart, one allowed in 10 s, the backend admits the second and the simulator rejects it. */
  lemma TokenBucketDiverges()
    ensures var log := Deletions.Stalled([0, 20000]);
            && ReplyAt(map[], log, 1).Ok? && ReplyAt(map[], log, 1).value.allowed
            && !ResultAt(log, 1).allowed
  {
    var log, c := Deletions.Stalled([0, 20000]), Deletions.ONE_IN_TEN;
    Deletions.StalledReply([0, 20000], 1);
    Deletions.OwnIsAll(log, "id", TokenBucket);
    assert Count(MineFlags(log, "id", TokenBucket), 0, 1) == 1;
    SimulatorNeverExpires(log, "id", c, 1);
    assert Levels.LevelAt(c, None, BucketStamps(log, "id"), 1) == Some(Levels.Level(0, 0));
  }

  // ---- fixed window ----

  /** The one slot an identifier has, after its first n requests stamped ts. */
  function SlotAt(c: CheckedConfig, ts: seq<int>, n: nat): Option<WindowState>
    requires n <= |ts|
  {
    if n == 0 then None else Some(SlotAfter(SlotAt(c, ts, n - 1), c, ts[n - 1]))
  }

  function SlotResultAt(c: CheckedConfig, ts: seq<int>, n: nat): CheckResult
    requires n < |ts|
  {
    WindowResult(CountNow(SlotAt(c, ts, n), c, ts[n]), c, ts[n])
  }

  lemma StartMonotone(c: CheckedConfig, t: int, u: int)
    requires t <= u
    ensures WindowRuns.Start(c, t) <= WindowRuns.Start(c, u)
  {
    WindowRuns.FloorMonotone(t, u, c.window);
    WindowRuns.StartBounds(c, t);
    WindowRuns.StartBounds(c, u);
    MulMonotone(c.window, FloorDiv(t, c.window), FloorDiv(u, c.window));
  }

  /** The request that entered the latest window any of the first n is stamped in. */
  function Entered(c: CheckedConfig, ts: seq<int>, n: nat): (e: nat)
    requires 0 < n <= |ts|
    ensures e < n
  {
    if n == 1 then 0
    else
      var e := Entered(c, ts, n - 1);
      if WindowRuns.Start(c, ts[e]) < WindowRuns.Start(c, ts[n - 1]) then n - 1 else e
  }

  lemma {:induction false} EnteredIsLatest(c: CheckedConfig, ts: seq<int>, m: nat, n: nat)
    requires m < n <= |ts|
    ensures WindowRuns.Start(c, ts[m]) <= WindowRuns.Start(c, ts[Entered(c, ts, n)])
  {
    if m + 1 == n {
    } else {
      EnteredIsLatest(c, ts, m, n - 1);
    }
  }

  /** The slot counts everything since the latest window was entered, whatever its window. */
  lemma {:induction false} SlotCountsSinceEntered(c: CheckedConfig, ts: seq<int>, n: nat)
    requires 0 < n <= |ts|
    ensures var e := Entered(c, ts, n);
            SlotAt(c, ts, n) == Some(WindowState(Min(n - e, c.limit), WindowRuns.Start(c, ts[e])))
  {
    if n == 1 {
    } else {
      SlotCountsSinceEntered(c, ts, n - 1);
    }
  }

  lemma SeenInLaterWindow(c: CheckedConfig, ts: seq<int>, rs: seq<int>, n: nat)
    requires |rs| == |ts| && 0 < n < |ts|
    requires WindowRuns.Start(c, ts[Entered(c, ts, n)]) < WindowRuns.Start(c, ts[n])
    ensures WindowRuns.SeenAt(c, ts, rs, n) == 0
  {
    forall m: nat | m < n
      ensures WindowRuns.Start(c, ts[m]) != WindowRuns.Start(c, ts[n])
    {
      EnteredIsLatest(c, ts, m, n);
    }
    WindowRuns.Untouched(c, ts, rs, WindowRuns.Start(c, ts[n]), n);
  }

  /** What request n finds in Redis: the earlier requests of its own window that were on time. */
  function OnTimeBefore(c: CheckedConfig, ts: seq<int>, rs: seq<int>, n: nat): nat
    requires n < |ts| == |rs|
  {
    WindowRuns.InWindow(c, ts, WindowRuns.OnTime(c, ts, rs), WindowRuns.Start(c, ts[n]), n)
  }

  lemma SeenIsOnTime(c: CheckedConfig, ts: seq<int>, rs: seq<int>, n: nat)
    requires n < |ts| == |rs| && Nondecreasing(rs)
    ensures WindowRuns.SeenAt(c, ts, rs, n)
         == if WindowRuns.Open(c, WindowRuns.Start(c, ts[n]), rs[n]) then Min(OnTimeBefore(c, ts, rs, n), c.limit)
            else 0
  {
    var start := WindowRuns.Start(c, ts[n]);
    if WindowRuns.Open(c, start, rs[n]) {
      assert n > 0 ==> rs[n - 1] <= rs[n];
      WindowRuns.OnTimeAreCounted(c, ts, rs, start, n);
    }
  }

  /** Request n is the first of a window later than any before it; or its script runs before its
      window's end and, up to the limit, as many requests have come since the latest window was
      entered as there were, in its own window, on time. */
  predicate SlotKeepsUp(c: CheckedConfig, ts: seq<int>, rs: seq<int>, n: nat)
    requires n < |ts| == |rs|
  {
    n == 0 ||
    var latest, start := WindowRuns.Start(c, ts[Entered(c, ts, n)]), WindowRuns.Start(c, ts[n]);
    || latest < start
    || (WindowRuns.Open(c, start, rs[n])
        && Min(n - Entered(c, ts, n), c.limit) == Min(OnTimeBefore(c, ts, rs, n), c.limit))
  }

  lemma SameCountSameAnswer(c: CheckedConfig, count: int, seen: int, now: int)
    requires 0 <= count <= c.limit && 0 <= seen <= c.limit
    ensures SameAnswer(WindowResult(count, c, now), Ok(Scripts.WindowReply(seen, WindowRuns.Args(c, now))))
       <==> count == seen
  {
  }

  lemma SeenWithinLimit(c: CheckedConfig, ts: seq<int>, rs: seq<int>, n: nat)
    requires n < |ts| == |rs| && Nondecreasing(rs)
    ensures WindowRuns.SeenAt(c, ts, rs, n) <= c.limit
  {
    SeenIsOnTime(c, ts, rs, n);
  }

  /** One slot against all of Redis's counters, for any run of any length. */
  lemma SlotAnswersIff(c: CheckedConfig, ts: seq<int>, rs: seq<int>, n: nat)
    requires n < |ts| == |rs| && Nondecreasing(rs)
    ensures SameAnswer(SlotResultAt(c, ts, n), Ok(WindowRuns.ReplyAt(c, ts, rs, n))) <==> SlotKeepsUp(c, ts, rs, n)
  {
    SeenWithinLimit(c, ts, rs, n);
    var count := CountNow(SlotAt(c, ts, n), c, ts[n]);
    if n > 0 {
      SlotCountsSinceEntered(c, ts, n);
      if WindowRuns.Start(c, ts[Entered(c, ts, n)]) < WindowRuns.Start(c, ts[n]) {
        SeenInLaterWindow(c, ts, rs, n);
      } else {
        SeenIsOnTime(c, ts, rs, n);
      }
    }
    SameCountSameAnswer(c, count, WindowRuns.SeenAt(c, ts, rs, n), ts[n]);
  }

  /** Enough for that: each request's window is later than the one before it, or the same one and
      not yet over when the script ran. */
  predicate SlotSuffices(c: CheckedConfig, ts: seq<int>, rs: seq<int>) {
    && |rs| == |ts|
    && forall i :: 0 < i < |ts| ==>
         var before, start := WindowRuns.Start(c, ts[i - 1]), WindowRuns.Start(c, ts[i]);
         before < start || (before == start && WindowRuns.Open(c, start, rs[i]))
  }

  /** It is when the clock does not go back and no script runs after its window has ended. */
  lemma ForwardClocksSuffice(c: CheckedConfig, ts: seq<int>, rs: seq<int>)
    requires Nondecreasing(ts) && WindowRuns.NeverLate(c, ts, rs)
    ensures SlotSuffices(c, ts, rs)
  {
    forall i | 0 < i < |ts|
      ensures WindowRuns.Start(c, ts[i - 1]) <= WindowRuns.Start(c, ts[i])
    {
      StartMonotone(c, ts[i - 1], ts[i]);
    }
  }

  lemma {:induction false} NoneBefore(c: CheckedConfig, ts: seq<int>, flags: seq<bool>, start: int, n: nat)
    requires n <= |ts| == |flags| && forall m :: 0 <= m < n ==> WindowRuns.Start(c, ts[m]) < start
    ensures WindowRuns.InWindow(c, ts, flags, start, n) == 0
  {
    if n == 0 {
    } else {
      NoneBefore(c, ts, flags, start, n - 1);
    }
  }

  lemma EntersEmpty(c: CheckedConfig, ts: seq<int>, rs: seq<int>, n: nat)
    requires 0 < n < |ts| == |rs| && WindowRuns.Start(c, ts[Entered(c, ts, n)]) < WindowRuns.Start(c, ts[n])
    ensures OnTimeBefore(c, ts, rs, n) == 0
  {
    forall m: nat | m < n
      ensures WindowRuns.Start(c, ts[m]) < WindowRuns.Start(c, ts[n])
    {
      EnteredIsLatest(c, ts, m, n);
    }
    NoneBefore(c, ts, WindowRuns.OnTime(c, ts, rs), WindowRuns.Start(c, ts[n]), n);
  }

  /** Then the latest window is always the last request's, and it holds all since it was entered. */
  lemma {:induction false} SinceEnteredOnTime(c: CheckedConfig, ts: seq<int>, rs: seq<int>, m: nat)
    requires SlotSuffices(c, ts, rs) && Nondecreasing(rs) && m < |ts|
    ensures WindowRuns.Start(c, ts[Entered(c, ts, m + 1)]) == WindowRuns.Start(c, ts[m])
    ensures WindowRuns.Open(c, WindowRuns.Start(c, ts[m]), rs[m]) ==>
      WindowRuns.InWindow(c, ts, WindowRuns.OnTime(c, ts, rs), WindowRuns.Start(c, ts[m]), m + 1)
      == m + 1 - Entered(c, ts, m + 1)
  {
    if m == 0 {
    } else {
      SinceEnteredOnTime(c, ts, rs, m - 1);
      assert rs[m - 1] <= rs[m];
      var before, start := WindowRuns.Start(c, ts[m - 1]), WindowRuns.Start(c, ts[m]);
      assert before < start || before == start;
      if before < start {
        EntersEmpty(c, ts, rs, m);
      }
    }
  }

  lemma SufficesKeepsUp(c: CheckedConfig, ts: seq<int>, rs: seq<int>, n: nat)
    requires SlotSuffices(c, ts, rs) && Nondecreasing(rs) && n < |ts|
    ensures SlotKeepsUp(c, ts, rs, n)
  {
    if n > 0 {
      SinceEnteredOnTime(c, ts, rs, n - 1);
      assert rs[n - 1] <= rs[n];
      var before, start := WindowRuns.Start(c, ts[n - 1]), WindowRuns.Start(c, ts[n]);
      assert before < start || before == start;
    }
  }

  function OwnSlot(log: seq<Exec>, id: string, c: CheckedConfig, n: nat): Option<WindowState>
    requires n <= |log|
  {
    SlotAt(c, Seconds(Restrict(log, id, FixedWindow)), Rank(log, id, FixedWindow, n))
  }

  lemma OwnSlotStep(log: seq<Exec>, id: string, c: CheckedConfig, n: nat)
    requires n < |log|
    ensures OwnSlot(log, id, c, n + 1)
         == if Mine(log[n], id, FixedWindow)
            then Some(SlotAfter(OwnSlot(log, id, c, n), c, FloorDiv(log[n].call.nowMs, 1000)))
            else OwnSlot(log, id, c, n)
  {
    RankStep(log, id, FixedWindow, n);
  }

  lemma HoldsNextSlot(m: Maps, call: Call, id: string, c: CheckedConfig)
    requires call.id == id && call.algorithm == FixedWindow ==> call.config == c
    ensures Get(NextMaps(m, call).fw, FwKey(id, c))
         == if call.id == id && call.algorithm == FixedWindow
            then Some(SlotAfter(Get(m.fw, FwKey(id, c)), c, FloorDiv(call.nowMs, 1000)))
            else Get(m.fw, FwKey(id, c))
  {
    if call.id != id && FwKey(call.id, call.config) == FwKey(id, c) {
      FwKeyInjective(call.id, call.config, id, c);
    }
  }

  lemma SlotHeldNext(log: seq<Exec>, id: string, c: CheckedConfig, m: nat, n: nat)
    requires OneConfig(log, id, FixedWindow, c) && n == m + 1 <= |log|
    requires Get(MapsAt(log, m).fw, FwKey(id, c)) == OwnSlot(log, id, c, m)
    ensures Get(MapsAt(log, n).fw, FwKey(id, c)) == OwnSlot(log, id, c, n)
  {
    OwnSlotStep(log, id, c, m);
    HoldsNextSlot(MapsAt(log, m), log[m].call, id, c);
  }

  lemma {:induction false} SimulatorHoldsSlot(log: seq<Exec>, id: string, c: CheckedConfig, n: nat)
    requires OneConfig(log, id, FixedWindow, c) && n <= |log|
    ensures Get(MapsAt(log, n).fw, FwKey(id, c)) == OwnSlot(log, id, c, n)
  {
    if n == 0 {
    } else {
      var m := n - 1;
      SimulatorHoldsSlot(log, id, c, m);
      SlotHeldNext(log, id, c, m, n);
    }
  }

  /** Fixed window: on any run of an identifier with one configuration, with any clocks, the
      simulator gives the backend's answer to a request exactly when its slot keeps up. */
  lemma FixedWindowAgreesIff(log: seq<Exec>, id: string, c: CheckedConfig, n: nat)
    requires OneConfig(log, id, FixedWindow, c) && n < |log| && Mine(log[n], id, FixedWindow)
    requires Nondecreasing(RedisMillis(Restrict(log, id, FixedWindow)))
    ensures Rank(log, id, FixedWindow, n) < |Restrict(log, id, FixedWindow)|
    ensures var own := Restrict(log, id, FixedWindow);
            SameAnswer(ResultAt(log, n), ReplyAt(map[], log, n))
            <==> SlotKeepsUp(c, Seconds(own), RedisMillis(own), Rank(log, id, FixedWindow, n))
  {
    var own := Restrict(log, id, FixedWindow);
    SimulatorHoldsSlot(log, id, c, n);
    FixedWindowReply(log, id, c, n);
    SlotAnswersIff(c, Seconds(own), RedisMillis(own), Rank(log, id, FixedWindow, n));
  }

  /** So it does while its windows do not go back and no counter expires early. */
  lemma SimulatorRefinesFixedWindow(log: seq<Exec>, id: string, c: CheckedConfig, n: nat)
    requires OneConfig(log, id, FixedWindow, c) && n < |log| && Mine(log[n], id, FixedWindow)
    requires var own := Restrict(log, id, FixedWindow);
             && Nondecreasing(RedisMillis(own))
             && SlotSuffices(c, Seconds(own), RedisMillis(own))
    ensures SameAnswer(ResultAt(log, n), ReplyAt(map[], log, n))
  {
    var own := Restrict(log, id, FixedWindow);
    FixedWindowAgreesIff(log, id, c, n);
    SufficesKeepsUp(c, Seconds(own), RedisMillis(own), Rank(log, id, FixedWindow, n));
  }

  /** And it does not when a second request, on time, is stamped in an earlier window. */
  lemma SlotFallsBehind(c: CheckedConfig)
    ensures !SameAnswer(SlotResultAt(c, [c.window, 0], 1), Ok(WindowRuns.ReplyAt(c, [c.window, 0], [0, 0], 1)))
  {
    var ts, rs := [c.window, 0], [0, 0];
    StartMonotone(c, 0, c.window);
    WindowRuns.StartBounds(c, 0);
    WindowRuns.StartBounds(c, c.window);
    assert Entered(c, ts, 1) == 0;
    var flags: seq<bool>, start := WindowRuns.OnTime(c, ts, rs), WindowRuns.Start(c, 0);
    assert WindowRuns.InWindow(c, ts, flags, start, 0) == 0;
    assert WindowRuns.Start(c, ts[0]) != start;
    assert OnTimeBefore(c, ts, rs, 1) == WindowRuns.InWindow(c, ts, flags, start, 1) == 0;
    SlotAnswersIff(c, ts, rs, 1);
  }

  // ---- peeking ----

  /** Peeking at the bucket and checking at the same instant agree. */
  lemma PeekTokensPredicts(m: Maps, id: string, c: CheckedConfig, nowMs: int)
    ensures var tokens := Available(Get(m.tb, TbKey(id, c)), c, nowMs);
            var r := ResultOf(m, Call(id, TokenBucket, c, nowMs));
            && r.allowed == (tokens >= 1.0)
            && r.remaining == if r.allowed then tokens.Floor - 1 else tokens.Floor
  {
  }

  /** Peeking at the window and checking at the same instant agree on the decision and on what
      remains; on when the window ends they agree exactly if the slot is not a later window's. */
  lemma PeekWindowPredicts(m: Maps, id: string, c: CheckedConfig, nowMs: int)
    ensures var found, nowSecs := Get(m.fw, FwKey(id, c)), FloorDiv(nowMs, 1000);
            var r := ResultOf(m, Call(id, FixedWindow, c, nowMs));
            && r.allowed == (CountNow(found, c, nowSecs) < c.limit)
            && r.remaining == (if r.allowed then c.limit - CountNow(found, c, nowSecs) - 1 else 0)
            && (r.resetAt == nowSecs + SecondsLeft(found, c, nowSecs)
                <==> (found.None? || found.value.windowStart <= WindowStart(c, nowSecs)))
  {
  }
}
