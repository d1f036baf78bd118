/** The Go side of a check: the rate-limit service that calls Redis and the HTTP handler around
    it. Clock readings and the fate of the call to Redis are parameters. */
module Service {
  import opened Types
  import opened Arithmetic
  import opened Keys
  import opened Scripts
  import opened Redis
  import opened StoreRuns

  // ---- what Redis's client library hands back ----

  /** A failed type assertion leaves Go's zero value. */
  function Int64(v: LuaValue): int {
    if v.Number? then v.n else 0
  }

  function ParseResult(raw: LuaValue): (r: Result<Reply>)
    ensures r.Ok? <==> raw.Array? && |raw.vals| >= 4
    ensures r.Ok? ==> (r.value.allowed <==> raw.vals[0] == Number(1))
    ensures r.Ok? && raw.vals[1].Number? ==> r.value.remaining == raw.vals[1].n
    ensures r.Ok? && raw.vals[2].Number? ==> r.value.resetAt == raw.vals[2].n
    ensures r.Ok? && raw.vals[3].Number? ==> r.value.retryAfter == raw.vals[3].n
    ensures r.Ok? ==> r.value.remaining == 0 || raw.vals[1].Number?
    ensures r.Ok? ==> r.value.resetAt == 0 || raw.vals[2].Number?
    ensures r.Ok? ==> r.value.retryAfter == 0 || raw.vals[3].Number?
  {
    if !raw.Array? || |raw.vals| < 4 then Err(BadReply)
    else Ok(Reply(Int64(raw.vals[0]) == 1, Int64(raw.vals[1]), Int64(raw.vals[2]), Int64(raw.vals[3])))
  }

  // ---- counters ----

  datatype PerAlgorithm = PerAlgorithm(tokenBucket: nat, fixedWindow: nat) {
    function Of(a: Algorithm): nat {
      if a == TokenBucket then tokenBucket else fixedWindow
    }

    function Inc(a: Algorithm): PerAlgorithm {
      if a == TokenBucket then this.(tokenBucket := tokenBucket + 1) else this.(fixedWindow := fixedWindow + 1)
    }

    function Total(): nat {
      tokenBucket + fixedWindow
    }
  }

  /** requests_total, allowed_total and rejected_total by algorithm; redis_errors_total has no label. */
  datatype Counters = Counters(requests: PerAlgorithm, allowed: PerAlgorithm, rejected: PerAlgorithm, redisErrors: nat)

  const NO_COUNTS := Counters(PerAlgorithm(0, 0), PerAlgorithm(0, 0), PerAlgorithm(0, 0), 0)

  function CountRequest(k: Counters, a: Algorithm): Counters {
    k.(requests := k.requests.Inc(a))
  }

  function CountError(k: Counters): Counters {
    k.(redisErrors := k.redisErrors + 1)
  }

  function CountDecision(k: Counters, a: Algorithm, allowed: bool): Counters {
    if allowed then k.(allowed := k.allowed.Inc(a)) else k.(rejected := k.rejected.Inc(a))
  }

  // ---- requests and responses ----

  datatype CheckRequest = CheckRequest(identifier: string, limit: int, windowSeconds: int, algorithm: string)

  datatype Complaint = InvalidJson | NoIdentifier | BadLimit | BadWindow | BadAlgorithm

  /** `retryAfterHeader` and `retryAfter` are absent (null) unless the request was rejected. */
  datatype Response =
    | BadRequest(complaint: Complaint)
    | Unavailable
    | Answer(limitHeader: int, remainingHeader: int, resetHeader: int, retryAfterHeader: Option<int>,
             allowed: bool, remaining: int, resetAt: int, retryAfter: Option<int>)

  /** What may happen to a call to Redis: it arrives and is answered, it never arrives, or the
      script runs and the answer is lost. */
  datatype Network = Delivered | RequestLost | ReplyLost

  /** The keyspace after a call, and what the service learns. */
  function Called(ks: Keyspace, e: Exec, net: Network): (Keyspace, Result<Reply>) {
    match net
    case RequestLost => (ks, Err(Unreachable))
    case ReplyLost => (NextKeys(ks, e), if AnswerTo(ks, e).Ok? then Err(Unreachable) else AnswerTo(ks, e))
    case Delivered => (NextKeys(ks, e), AnswerTo(ks, e))
  }

  function Respond(c: Config, r: Result<Reply>): Response {
    match r
    case Err(_) => Unavailable
    case Ok(reply) =>
      var wait := if !reply.allowed && reply.retryAfter > 0 then Some(reply.retryAfter) else None;
      Answer(c.limit, reply.remaining, reply.resetAt, wait, reply.allowed, reply.remaining, reply.resetAt, wait)
  }

  function Settled(k: Counters, a: Algorithm, r: Result<Reply>): Counters {
    match r
    case Err(_) => CountError(k)
    case Ok(reply) => CountDecision(k, a, reply.allowed)
  }

  class Metrics {
    var counters: Counters

    constructor ()
      ensures counters == NO_COUNTS
    {
      counters := NO_COUNTS;
    }
  }

  class RateLimitService {
    const rdb: Server
    const metrics: Metrics

    constructor (rdb: Server, metrics: Metrics)
      ensures this.rdb == rdb && this.metrics == metrics
    {
      this.rdb := rdb;
      this.metrics := metrics;
    }

    method CheckTokenBucket(id: string, c: CheckedConfig, nowMs: int, net: Network) returns (r: Result<Reply>)
      modifies rdb`keys
      ensures (rdb.keys, r) == Called(old(rdb.keys), Exec(Call(id, TokenBucket, c, nowMs), rdb.clockMs), net)
    {
      if net == RequestLost {
        return Err(Unreachable);
      }
      var res := rdb.EvalTokenBucket(TokenBucketKey(id), GoBucketArgs(c, nowMs));
      if res.Err? {
        return Err(res.error);
      }
      if net == ReplyLost {
        return Err(Unreachable);
      }
      r := ParseResult(res.value);
    }

    method CheckFixedWindow(id: string, c: CheckedConfig, nowMs: int, net: Network) returns (r: Result<Reply>)
      modifies rdb`keys
      ensures (rdb.keys, r) == Called(old(rdb.keys), Exec(Call(id, FixedWindow, c, nowMs), rdb.clockMs), net)
    {
      if net == RequestLost {
        return Err(Unreachable);
      }
      var res := rdb.EvalFixedWindow(FixedWindowKey(id), GoWindowArgs(c, nowMs));
      if res.Err? {
        return Err(res.error);
      }
      if net == ReplyLost {
        return Err(Unreachable);
      }
      r := ParseResult(res.value);
    }

    /** An unknown algorithm is an error that is not counted as one of Redis's. */
    method Check(id: string, c: CheckedConfig, algorithm: string, nowMs: int, net: Network) returns (r: Result<Reply>)
      modifies rdb`keys, metrics
      ensures algorithm == "token_bucket" ==>
        (rdb.keys, r) == Called(old(rdb.keys), Exec(Call(id, TokenBucket, c, nowMs), rdb.clockMs), net)
      ensures algorithm == "fixed_window" ==>
        (rdb.keys, r) == Called(old(rdb.keys), Exec(Call(id, FixedWindow, c, nowMs), rdb.clockMs), net)
      ensures algorithm == "token_bucket" || algorithm == "fixed_window" ==>
        metrics.counters
        == old(metrics.counters).(redisErrors := old(metrics.counters.redisErrors) + if r.Err? then 1 else 0)
      ensures algorithm != "token_bucket" && algorithm != "fixed_window" ==>
        && r == Err(UnsupportedAlgorithm)
        && rdb.keys == old(rdb.keys)
        && metrics.counters == old(metrics.counters)
    {
      if algorithm == "token_bucket" {
        r := CheckTokenBucket(id, c, nowMs, net);
      } else if algorithm == "fixed_window" {
        r := CheckFixedWindow(id, c, nowMs, net);
      } else {
        return Err(UnsupportedAlgorithm);
      }
      if r.Err? {
        metrics.counters := CountError(metrics.counters);
      }
    }
  }

  class CheckHandler {
    const rl: RateLimitService

    constructor (rl: RateLimitService)
      ensures this.rl == rl
    {
      this.rl := rl;
    }

    /** POST /api/v1/check; `body` is None when the JSON does not decode. The first complaint there
        is, and no effect; or what the script the request names, with the request's own identifier,
        limit and window, has answered. */
    method Check(body: Option<CheckRequest>, nowMs: int, net: Network) returns (response: Response)
      modifies rl.rdb`keys, rl.metrics
      ensures body.None? ==> response == BadRequest(InvalidJson)
      ensures body.Some? && body.value.identifier == "" ==> response == BadRequest(NoIdentifier)
      ensures body.Some? && body.value.identifier != "" && body.value.limit <= 0 ==> response == BadRequest(BadLimit)
      ensures body.Some? && body.value.identifier != "" && body.value.limit > 0 && body.value.windowSeconds <= 0 ==>
        response == BadRequest(BadWindow)
      ensures body.Some? && body.value.identifier != "" && body.value.limit > 0 && body.value.windowSeconds > 0
              && body.value.algorithm != "token_bucket" && body.value.algorithm != "fixed_window" ==>
        response == BadRequest(BadAlgorithm)
      ensures response.BadRequest? ==>
        rl.rdb.keys == old(rl.rdb.keys) && rl.metrics.counters == old(rl.metrics.counters)
      ensures body.Some? && body.value.identifier != "" && body.value.limit > 0 && body.value.windowSeconds > 0
              && body.value.algorithm == "token_bucket" ==>
        var c := Config(body.value.limit, body.value.windowSeconds);
        var k, k' := old(rl.metrics.counters), rl.metrics.counters;
        var e := Exec(Call(body.value.identifier, TokenBucket, c, nowMs), rl.rdb.clockMs);
        var (ks, r) := Called(old(rl.rdb.keys), e, net);
        var passed, refused := if r.Ok? && r.value.allowed then 1 else 0, if r.Ok? && !r.value.allowed then 1 else 0;
        && rl.rdb.keys == ks
        && response == Respond(c, r)
        && k' == Settled(CountRequest(k, TokenBucket), TokenBucket, r)
        && k'.requests == PerAlgorithm(k.requests.tokenBucket + 1, k.requests.fixedWindow)
        && k'.allowed == PerAlgorithm(k.allowed.tokenBucket + passed, k.allowed.fixedWindow)
        && k'.rejected == PerAlgorithm(k.rejected.tokenBucket + refused, k.rejected.fixedWindow)
        && k'.redisErrors == k.redisErrors + (if r.Err? then 1 else 0)
      ensures body.Some? && body.value.identifier != "" && body.value.limit > 0 && body.value.windowSeconds > 0
              && body.value.algorithm == "fixed_window" ==>
        var c := Config(body.value.limit, body.value.windowSeconds);
        var k, k' := old(rl.metrics.counters), rl.metrics.counters;
        var e := Exec(Call(body.value.identifier, FixedWindow, c, nowMs), rl.rdb.clockMs);
        var (ks, r) := Called(old(rl.rdb.keys), e, net);
        var passed, refused := if r.Ok? && r.value.allowed then 1 else 0, if r.Ok? && !r.value.allowed then 1 else 0;
        && rl.rdb.keys == ks
        && response == Respond(c, r)
        && k' == Settled(CountRequest(k, FixedWindow), FixedWindow, r)
        && k'.requests == PerAlgorithm(k.requests.tokenBucket, k.requests.fixedWindow + 1)
        && k'.allowed == PerAlgorithm(k.allowed.tokenBucket, k.allowed.fixedWindow + passed)
        && k'.rejected == PerAlgorithm(k.rejected.tokenBucket, k.rejected.fixedWindow + refused)
        && k'.redisErrors == k.redisErrors + (if r.Err? then 1 else 0)
    {
      if body.None? {
        return BadRequest(InvalidJson);
      }
      var req := body.value;
      if req.identifier == "" {
        return BadRequest(NoIdentifier);
      }
      if req.limit <= 0 {
        return BadRequest(BadLimit);
      }
      if req.windowSeconds <= 0 {
        return BadRequest(BadWindow);
      }
      if req.algorithm != "token_bucket" && req.algorithm != "fixed_window" {
        return BadRequest(BadAlgorithm);
      }

      var algo := if req.algorithm == "token_bucket" then TokenBucket else FixedWindow;
      rl.metrics.counters := CountRequest(rl.metrics.counters, algo);

      var result := rl.Check(req.identifier, Config(req.limit, req.windowSeconds), req.algorithm, nowMs, net);
      if result.Err? {
        return Unavailable;
      }

      if result.value.allowed {
        rl.metrics.counters := CountDecision(rl.metrics.counters, algo, true);
      } else {
        rl.metrics.counters := CountDecision(rl.metrics.counters, algo, false);
      }

      var retryAfter := None;
      if !result.value.allowed && result.value.retryAfter > 0 {
        retryAfter := Some(result.value.retryAfter);
      }
      response := Answer(req.limit, result.value.remaining, result.value.resetAt, retryAfter,
                         result.value.allowed, result.value.remaining, result.value.resetAt, retryAfter);
    }
  }

  // ---- what a client can rely on ----

  /** From any store the limiter can reach, the response is the script's answer: the limit header is
      the request's, remaining and reset are the script's, in the headers and in the body, and
      Retry-After is sent exactly when the request was rejected, although the handler tests
      `retryAfter > 0`. What remains is below the limit, and the reset and the wait lie within the
      window. */
  lemma ResponsesWellFormed(log: seq<Exec>, e: Exec, net: Network)
    ensures var response := Respond(e.call.config, Called(KeysAt(map[], log, |log|), e, net).1);
            var answer := AnswerTo(KeysAt(map[], log, |log|), e);
            && answer.Ok?
            && (response == Unavailable <==> net != Delivered)
            && (net == Delivered ==>
                 && response.Answer?
                 && response.limitHeader == e.call.config.limit
                 && response.allowed == answer.value.allowed
                 && response.remainingHeader == response.remaining == answer.value.remaining
                 && response.resetHeader == response.resetAt == answer.value.resetAt
                 && response.retryAfterHeader == response.retryAfter
                 && response.retryAfter == (if response.allowed then None else Some(answer.value.retryAfter))
                 && (response.retryAfter.Some? ==> 1 <= response.retryAfter.value <= e.call.config.window)
                 && 1 <= response.resetHeader - FloorDiv(e.call.nowMs, 1000) <= e.call.config.window
                 && 0 <= response.remainingHeader <= response.limitHeader - 1
                 && (!response.allowed ==> response.remaining == 0))
  {
    ReachableIsSane(log, |log|);
    StepStaysSane(KeysAt(map[], log, |log|), e);
  }
}
