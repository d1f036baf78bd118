/** A Redis server: keys with values and expiry instants, a clock of its own, the commands the
    scripts use, and the two scripts, each one atomic. */
module Redis {
  import opened Types
  import opened Arithmetic
  import opened Keys
  import opened Scripts

  /** `expireAt` is in milliseconds of Redis's clock. */
  datatype Entry = Entry(value: Value, expireAt: Option<int>)

  type Keyspace = map<string, Entry>

  /** A key is gone from its expiry instant on. */
  predicate Live(e: Entry, clockMs: int) {
    e.expireAt.Some? ==> clockMs < e.expireAt.value
  }

  function Find(ks: Keyspace, key: string, clockMs: int): Option<Value> {
    if key in ks && Live(ks[key], clockMs) then Some(ks[key].value) else None
  }

  /** The expiry a write that does not mention one leaves in place. */
  function KeptExpiry(ks: Keyspace, key: string, clockMs: int): Option<int> {
    if key in ks && Live(ks[key], clockMs) then ks[key].expireAt else None
  }

  // ---- what one script does to the keyspace ----

  function KeysAfterBucket(ks: Keyspace, clockMs: int, key: string, a: BucketArgs): Keyspace
    requires a.ttlSecs > 0
  {
    var found := Find(ks, key, clockMs);
    if found.Some? && found.value.Counter? then ks
    else ks[key := Entry(Hash(TokensKept(Refilled(found, a)), a.nowMs), Some(clockMs + 1000 * a.ttlSecs))]
  }

  function BucketAnswer(ks: Keyspace, clockMs: int, key: string, a: BucketArgs): Result<Reply> {
    var found := Find(ks, key, clockMs);
    if found.Some? && found.value.Counter? then Err(WrongType) else Ok(BucketReply(Refilled(found, a), a))
  }

  function CountIn(found: Option<Value>): int
    requires found.Some? ==> found.value.Counter?
  {
    if found.None? then 0 else found.value.count
  }

  /** A first increment also sets the expiry, which deletes the key if it has already passed. */
  function Incremented(ks: Keyspace, clockMs: int, key: string, count: int, resetAt: int): Keyspace {
    if count != 0 then ks[key := Entry(Counter(count + 1), KeptExpiry(ks, key, clockMs))]
    else if 1000 * resetAt <= clockMs then ks - {key}
    else ks[key := Entry(Counter(1), Some(1000 * resetAt))]
  }

  function KeysAfterWindow(ks: Keyspace, clockMs: int, key: string, a: WindowArgs): Keyspace
    requires a.windowSeconds > 0
  {
    var windowKey := WindowKey(key, WindowStart(a));
    var found := Find(ks, windowKey, clockMs);
    if (found.Some? && found.value.Hash?) || CountIn(found) >= a.limit then ks
    else Incremented(ks, clockMs, windowKey, CountIn(found), ResetAt(a))
  }

  function WindowAnswer(ks: Keyspace, clockMs: int, key: string, a: WindowArgs): Result<Reply>
    requires a.windowSeconds > 0
  {
    var found := Find(ks, WindowKey(key, WindowStart(a)), clockMs);
    if found.Some? && found.value.Hash? then Err(WrongType) else Ok(WindowReply(CountIn(found), a))
  }

  // ---- the server ----

  class Server {
    var keys: Keyspace
    var clockMs: int

    constructor (startMs: int)
      ensures keys == map[] && clockMs == startMs
    {
      keys := map[];
      clockMs := startMs;
    }

    method Tick(ms: nat)
      modifies this`clockMs
      ensures clockMs == old(clockMs) + ms
    {
      clockMs := clockMs + ms;
    }

    method HMGet(key: string) returns (r: Result<Option<(real, int)>>)
      ensures var found := Find(keys, key, clockMs);
              match found
              case None => r == Ok(None)
              case Some(Hash(tokens, lastMs)) => r == Ok(Some((tokens, lastMs)))
              case Some(Counter(_)) => r == Err(WrongType)
    {
      if key !in keys || !Live(keys[key], clockMs) {
        return Ok(None);
      }
      match keys[key].value {
        case Hash(tokens, lastMs) => return Ok(Some((tokens, lastMs)));
        case Counter(_) => return Err(WrongType);
      }
    }

    method HSet(key: string, tokens: real, lastMs: int)
      modifies this`keys
      ensures keys == old(keys)[key := Entry(Hash(tokens, lastMs), KeptExpiry(old(keys), key, clockMs))]
    {
      var expireAt := KeptExpiry(keys, key, clockMs);
      keys := keys[key := Entry(Hash(tokens, lastMs), expireAt)];
    }

    method Expire(key: string, ttlSecs: int)
      requires key in keys && Live(keys[key], clockMs) && ttlSecs > 0
      modifies this`keys
      ensures keys == old(keys)[key := Entry(old(keys)[key].value, Some(clockMs + 1000 * ttlSecs))]
    {
      keys := keys[key := keys[key].(expireAt := Some(clockMs + 1000 * ttlSecs))];
    }

    method Get(key: string) returns (r: Result<Option<int>>)
      ensures var found := Find(keys, key, clockMs);
              match found
              case None => r == Ok(None)
              case Some(Counter(count)) => r == Ok(Some(count))
              case Some(Hash(_, _)) => r == Err(WrongType)
    {
      if key !in keys || !Live(keys[key], clockMs) {
        return Ok(None);
      }
      match keys[key].value {
        case Counter(count) => return Ok(Some(count));
        case Hash(_, _) => return Err(WrongType);
      }
    }

    method Incr(key: string) returns (newCount: int)
      requires var found := Find(keys, key, clockMs); found.Some? ==> found.value.Counter?
      modifies this`keys
      ensures newCount == CountIn(Find(old(keys), key, clockMs)) + 1
      ensures keys == old(keys)[key := Entry(Counter(newCount), KeptExpiry(old(keys), key, clockMs))]
    {
      var expireAt := KeptExpiry(keys, key, clockMs);
      newCount := CountIn(Find(keys, key, clockMs)) + 1;
      keys := keys[key := Entry(Counter(newCount), expireAt)];
    }

    method ExpireAt(key: string, atSecs: int)
      requires key in keys && Live(keys[key], clockMs)
      modifies this`keys
      ensures keys == if 1000 * atSecs <= clockMs then old(keys) - {key}
                      else old(keys)[key := Entry(old(keys)[key].value, Some(1000 * atSecs))]
    {
      if 1000 * atSecs <= clockMs {
        keys := keys - {key};
      } else {
        keys := keys[key := keys[key].(expireAt := Some(1000 * atSecs))];
      }
    }

    /** tokenBucketLua. */
    method EvalTokenBucket(key: string, a: BucketArgs) returns (r: Result<LuaValue>)
      requires a.ttlSecs > 0
      modifies this`keys
      ensures keys == KeysAfterBucket(old(keys), clockMs, key, a)
      ensures match BucketAnswer(old(keys), clockMs, key, a)
              case Err(e) => r == Err(e)
              case Ok(reply) => r == Ok(Array([Number(if reply.allowed then 1 else 0), Number(reply.remaining),
                                               Number(reply.resetAt), Number(reply.retryAfter)]))
      ensures var found := Find(old(keys), key, clockMs);
              found.Some? && found.value.Counter? ==> r == Err(WrongType) && keys == old(keys)
    {
      var data := HMGet(key);
      if data.Err? {
        return Err(data.error);
      }
      var tokens: real := a.capacity as real;
      var lastMs := a.nowMs;
      if data.value.Some? {
        tokens, lastMs := data.value.value.0, data.value.value.1;
      }

      var elapsedMs := Max(0, a.nowMs - lastMs);
      tokens := MinReal(a.capacity as real, tokens + elapsedMs as real * a.ratePerMs);
      ghost var refilled := Refilled(Find(keys, key, clockMs), a);
      assert tokens == refilled by {
        if data.value.None? {
          assert elapsedMs as real * a.ratePerMs == 0.0;
        }
      }

      var allowed := 0;
      var retryAfter := 0;
      if tokens >= 1.0 {
        tokens := tokens - 1.0;
        allowed := 1;
      } else if a.ratePerMs > 0.0 {
        retryAfter := Ceil((1.0 - tokens) / a.ratePerMs / 1000.0);
      } else {
        retryAfter := a.ttlSecs;
      }

      assert tokens == TokensKept(refilled);

      HSet(key, tokens, a.nowMs);
      Expire(key, a.ttlSecs);
      assert keys == old(keys)[key := Entry(Hash(tokens, a.nowMs), Some(clockMs + 1000 * a.ttlSecs))];

      var secsToFull := 0;
      if a.capacity as real > tokens && a.ratePerMs > 0.0 {
        secsToFull := Ceil((a.capacity as real - tokens) / a.ratePerMs / 1000.0);
      }
      var resetAt := FloorDiv(a.nowMs, 1000) + secsToFull;
      r := Ok(Array([Number(allowed), Number(tokens.Floor), Number(resetAt), Number(retryAfter)]));
    }

    /** fixedWindowLua. */
    method EvalFixedWindow(key: string, a: WindowArgs) returns (r: Result<LuaValue>)
      requires a.windowSeconds > 0
      modifies this`keys
      ensures keys == KeysAfterWindow(old(keys), clockMs, key, a)
      ensures match WindowAnswer(old(keys), clockMs, key, a)
              case Err(e) => r == Err(e)
              case Ok(reply) => r == Ok(Array([Number(if reply.allowed then 1 else 0), Number(reply.remaining),
                                               Number(reply.resetAt), Number(reply.retryAfter)]))
      ensures var windowKey := WindowKey(key, WindowStart(a));
              var found := Find(old(keys), windowKey, clockMs);
              && (found.Some? && found.value.Hash? ==> r == Err(WrongType) && keys == old(keys))
              && (found.Some? && found.value.Counter? && found.value.count > 0 ==>
                    windowKey in keys && keys[windowKey].expireAt == old(keys)[windowKey].expireAt)
    {
      var windowStart := FloorDiv(a.now, a.windowSeconds) * a.windowSeconds;
      RoundDownIsFloor(a.now, a.windowSeconds);
      var resetAt := windowStart + a.windowSeconds;
      var windowKey := WindowKey(key, windowStart);

      var found := Get(windowKey);
      if found.Err? {
        return Err(found.error);
      }
      var count := 0;
      if found.value.Some? {
        count := found.value.value;
      }

      var allowed := 0;
      var retryAfter := 0;
      if count < a.limit {
        var newCount := Incr(windowKey);
        if newCount == 1 {
          ExpireAt(windowKey, resetAt);
        }
        count := newCount;
        allowed := 1;
      } else {
        retryAfter := resetAt - a.now;
      }

      var remaining := Max(0, a.limit - count);
      r := Ok(Array([Number(allowed), Number(remaining), Number(resetAt), Number(retryAfter)]));
    }
  }
}
