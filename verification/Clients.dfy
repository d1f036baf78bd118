/** A client that sends the same request many times: what the repository's concurrency test does,
    through the handler. */
module Clients {
  import opened Types
  import opened Arithmetic
  import opened Counting
  import opened Redis
  import opened StoreRuns
  import opened Service
  import Deletions
  import BucketRuns = TokenBucketRuns
  import WindowRuns = FixedWindowRuns

  /** The log, and then the same execution n times. */
  function WithBurst(log: seq<Exec>, e: Exec, n: nat): (r: seq<Exec>)
    ensures |r| == |log| + n
  {
    if n == 0 then log else WithBurst(log, e, n - 1) + [e]
  }

  lemma RestrictSnoc(log: seq<Exec>, e: Exec, id: string, a: Algorithm)
    ensures Restrict(log + [e], id, a) == Restrict(log, id, a) + (if Mine(e, id, a) then [e] else [])
  {
    assert MineFlags(log + [e], id, a) == MineFlags(log, id, a) + [Mine(e, id, a)];
    Deletions.PickSnoc(log, e, MineFlags(log, id, a), Mine(e, id, a), |log|);
  }

  lemma {:induction false} RestrictFresh(log: seq<Exec>, id: string, a: Algorithm, n: nat)
    requires n <= |log| && forall i :: 0 <= i < |log| ==> !Mine(log[i], id, a)
    ensures Pick(log, MineFlags(log, id, a), n) == []
  {
    if n == 0 {
    } else {
      RestrictFresh(log, id, a, n - 1);
    }
  }

  /** The identifier has made no request under this algorithm. */
  predicate Fresh(log: seq<Exec>, id: string, a: Algorithm) {
    forall i :: 0 <= i < |log| ==> !Mine(log[i], id, a)
  }

  lemma {:induction false} BurstIsOwn(log: seq<Exec>, e: Exec, n: nat)
    requires Fresh(log, e.call.id, e.call.algorithm)
    ensures Restrict(WithBurst(log, e, n), e.call.id, e.call.algorithm) == seq(n, _ => e)
    ensures OneConfig(WithBurst(log, e, n), e.call.id, e.call.algorithm, e.call.config)
  {
    if n == 0 {
      RestrictFresh(log, e.call.id, e.call.algorithm, |log|);
    } else {
      BurstIsOwn(log, e, n - 1);
      RestrictSnoc(WithBurst(log, e, n - 1), e, e.call.id, e.call.algorithm);
    }
  }

  lemma RankInBurst(log: seq<Exec>, e: Exec, last: nat, k: nat, n: nat)
    requires Fresh(log, e.call.id, e.call.algorithm) && k + 1 == n && last == |log| + k
    ensures Rank(WithBurst(log, e, n), e.call.id, e.call.algorithm, last) == k
    ensures WithBurst(log, e, n)[last] == e
  {
    var all := WithBurst(log, e, n);
    BurstIsOwn(log, e, n);
    RankStep(all, e.call.id, e.call.algorithm, last);
    assert Rank(all, e.call.id, e.call.algorithm, last + 1) == |Restrict(all, e.call.id, e.call.algorithm)|;
  }

  /** What the store holds after the log and n executions of the burst. */
  function BurstKeys(log: seq<Exec>, e: Exec, n: nat): Keyspace {
    KeysAt(map[], WithBurst(log, e, n), |log| + n)
  }

  lemma BurstKeysAt(log: seq<Exec>, e: Exec, last: nat, k: nat, n: nat)
    requires k + 1 == n && last == |log| + k
    ensures KeysAt(map[], WithBurst(log, e, n), last) == BurstKeys(log, e, k) && WithBurst(log, e, n)[last] == e
  {
    KeysSnoc(map[], WithBurst(log, e, k), e, last);
  }

  lemma BurstStep(log: seq<Exec>, e: Exec, last: nat, k: nat, n: nat)
    requires k + 1 == n && last == |log| + k
    ensures NextKeys(BurstKeys(log, e, k), e) == BurstKeys(log, e, n)
  {
    BurstKeysAt(log, e, last, k, n);
  }

  lemma BucketBurst(c: CheckedConfig, ts: seq<int>, drops: seq<bool>, k: nat)
    requires k < |ts| == |drops| && BucketRuns.Survives(drops, 0, k) && forall i :: 0 <= i < |ts| ==> ts[i] == ts[0]
    ensures var r := BucketRuns.ExpiringReplyAt(c, ts, drops, k);
            r.allowed == (k < c.limit) && r.remaining == Max(0, c.limit - 1 - k)
  {
    BucketRuns.FullReply(c, ts[0]);
    BucketRuns.ForwardIsElapsed(ts, 0, k);
    BucketRuns.Drains(c, ts, drops, 0, k);
  }

  lemma WindowBurst(c: CheckedConfig, ts: seq<int>, rs: seq<int>, k: nat)
    requires k < |ts| == |rs| && forall i :: 0 <= i < |ts| ==> ts[i] == ts[0] && rs[i] == rs[0]
    requires WindowRuns.Open(c, WindowRuns.Start(c, ts[0]), rs[0])
    ensures var r := WindowRuns.ReplyAt(c, ts, rs, k);
            r.allowed == (k < c.limit) && r.remaining == Max(0, c.limit - 1 - k)
  {
    WindowRuns.OneOpenWindowCounts(c, ts, rs, WindowRuns.Start(c, ts[0]), k);
  }

  /** Redis's clock has not reached the end of the window that the execution's request falls into. */
  predicate InTime(e: Exec) {
    e.redisMs < 1000 * (RoundDown(FloorDiv(e.call.nowMs, 1000), e.call.config.window) + e.call.config.window)
  }

  predicate AnswersInBurst(r: Result<Reply>, limit: int, k: nat) {
    r.Ok? && r.value.allowed == (k < limit) && r.value.remaining == Max(0, limit - 1 - k)
  }

  lemma BucketBurstReply(log: seq<Exec>, e: Exec, last: nat, k: nat, n: nat)
    requires Fresh(log, e.call.id, TokenBucket) && e.call.algorithm == TokenBucket && k + 1 == n && last == |log| + k
    ensures AnswersInBurst(ReplyAt(map[], WithBurst(log, e, n), last), e.call.config.limit, k)
  {
    var id, c, all := e.call.id, e.call.config, WithBurst(log, e, n);
    BurstIsOwn(log, e, n);
    RankInBurst(log, e, last, k, n);
    TokenBucketReply(all, id, c, last);
    BucketBurst(c, BucketStamps(all, id), BucketDrops(all, id, c), k);
  }

  lemma BurstReadings(e: Exec, own: seq<Exec>, n: nat)
    requires own == seq(n, _ => e)
    ensures forall i :: 0 <= i < n ==>
              Seconds(own)[i] == FloorDiv(e.call.nowMs, 1000) && RedisMillis(own)[i] == e.redisMs
    ensures Nondecreasing(RedisMillis(own))
  {
  }

  lemma WindowBurstReply(log: seq<Exec>, e: Exec, last: nat, k: nat, n: nat)
    requires Fresh(log, e.call.id, FixedWindow) && e.call.algorithm == FixedWindow && InTime(e)
    requires k + 1 == n && last == |log| + k
    ensures AnswersInBurst(ReplyAt(map[], WithBurst(log, e, n), last), e.call.config.limit, k)
  {
    var id, c, all := e.call.id, e.call.config, WithBurst(log, e, n);
    var own := Restrict(all, id, FixedWindow);
    BurstIsOwn(log, e, n);
    RankInBurst(log, e, last, k, n);
    BurstReadings(e, own, n);
    FixedWindowReply(all, id, c, last);
    WindowBurst(c, Seconds(own), RedisMillis(own), k);
  }

  /** A burst on a fresh identifier sees the first `limit` of its requests admitted, reporting
      limit - 1, limit - 2, ..., 0 left, and all others rejected. */
  lemma BurstReply(log: seq<Exec>, e: Exec, k: nat)
    requires Fresh(log, e.call.id, e.call.algorithm) && (e.call.algorithm == FixedWindow ==> InTime(e))
    ensures AnswersInBurst(AnswerTo(BurstKeys(log, e, k), e), e.call.config.limit, k)
  {
    BurstKeysAt(log, e, |log| + k, k, k + 1);
    match e.call.algorithm
    case TokenBucket => BucketBurstReply(log, e, |log| + k, k, k + 1);
    case FixedWindow => WindowBurstReply(log, e, |log| + k, k, k + 1);
  }

  /** The client's k-th response, from 0 on. */
  predicate RespondsInBurst(response: Response, limit: int, k: nat) {
    && response.Answer?
    && response.limitHeader == limit
    && response.allowed == (k < limit)
    && response.remainingHeader == Max(0, limit - 1 - k)
  }

  /** What `req` asks to be executed. */
  ghost predicate Asks(req: CheckRequest, e: Exec) {
    && req.identifier != "" && req.identifier == e.call.id
    && req.limit == e.call.config.limit && req.windowSeconds == e.call.config.window
    && req.algorithm == (match e.call.algorithm case TokenBucket => "token_bucket" case FixedWindow => "fixed_window")
  }

  method CheckInBurst(h: CheckHandler, req: CheckRequest, ghost log: seq<Exec>, ghost e: Exec, nowMs: int, ghost k: nat)
    returns (response: Response)
    requires Asks(req, e) && nowMs == e.call.nowMs && h.rl.rdb.clockMs == e.redisMs
    requires Fresh(log, e.call.id, e.call.algorithm) && (e.call.algorithm == FixedWindow ==> InTime(e))
    requires h.rl.rdb.keys == BurstKeys(log, e, k)
    modifies h.rl.rdb`keys, h.rl.metrics
    ensures h.rl.rdb.keys == BurstKeys(log, e, k + 1)
    ensures RespondsInBurst(response, req.limit, k)
  {
    BurstReply(log, e, k);
    BurstStep(log, e, |log| + k, k, k + 1);
    assert e.call == Call(req.identifier, e.call.algorithm, Config(req.limit, req.windowSeconds), nowMs);
    response := h.Check(Some(req), nowMs, Delivered);
  }

  function AllowedAnswers(responses: seq<Response>): nat {
    if responses == [] then 0
    else
      var last := responses[|responses| - 1];
      AllowedAnswers(responses[..|responses| - 1]) + (if last.Answer? && last.allowed then 1 else 0)
  }

  /** The concurrency test, one request after the other at one instant: n requests on a fresh
      identifier are told, one by one, what is left of the limit, and exactly min(n, limit) of them
      are allowed, whoever else has used the limiter before. */
  method Burst(h: CheckHandler, req: CheckRequest, nowMs: int, n: nat, ghost log: seq<Exec>, ghost e: Exec)
    returns (responses: seq<Response>)
    requires Asks(req, e) && nowMs == e.call.nowMs && h.rl.rdb.clockMs == e.redisMs
    requires Fresh(log, e.call.id, e.call.algorithm) && (e.call.algorithm == FixedWindow ==> InTime(e))
    requires h.rl.rdb.keys == KeysAt(map[], log, |log|)
    modifies h.rl.rdb`keys, h.rl.metrics
    ensures |responses| == n && forall k :: 0 <= k < n ==> RespondsInBurst(responses[k], req.limit, k)
    ensures AllowedAnswers(responses) == Min(n, req.limit)
  {
    responses := [];
    assert BurstKeys(log, e, 0) == KeysAt(map[], log, |log|);
    while |responses| < n
      invariant |responses| <= n
      invariant h.rl.rdb.keys == BurstKeys(log, e, |responses|)
      invariant forall k :: 0 <= k < |responses| ==> RespondsInBurst(responses[k], req.limit, k)
      invariant AllowedAnswers(responses) == Min(|responses|, req.limit)
    {
      var response := CheckInBurst(h, req, log, e, nowMs, |responses|);
      assert (responses + [response])[..|responses|] == responses;
      responses := responses + [response];
    }
  }
}
