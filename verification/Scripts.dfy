/** The two Lua scripts as functions of the value found under their key, in the arithmetic the
    scripts use: real tokens, refilled at a real rate per millisecond. */
module Scripts {
  import opened Types
  import opened Arithmetic
  import Levels = TokenBucketLevels

  /** A Redis value: the token bucket's hash, or a counter. */
  datatype Value = Hash(tokens: real, lastMs: int) | Counter(count: int)

  /** ARGV of the token bucket script. */
  datatype BucketArgs = BucketArgs(capacity: int, ratePerMs: real, nowMs: int, ttlSecs: int)

  /** ARGV of the fixed window script. */
  datatype WindowArgs = WindowArgs(limit: int, windowSeconds: int, now: int)

  /** What checkTokenBucket passes, given the time it read. */
  function GoBucketArgs(c: Config, nowMs: int): BucketArgs
    requires c.Valid()
  {
    BucketArgs(c.limit, c.limit as real / c.window as real / 1000.0, nowMs, c.window * 2)
  }

  /** What checkFixedWindow passes: the same clock in whole seconds. */
  function GoWindowArgs(c: Config, nowMs: int): WindowArgs {
    WindowArgs(c.limit, c.window, FloorDiv(nowMs, 1000))
  }

  // ---- token bucket ----

  function Refilled(found: Option<Value>, a: BucketArgs): real
    requires found.Some? ==> found.value.Hash?
  {
    match found
    case None => a.capacity as real
    case Some(h) => MinReal(a.capacity as real, h.tokens + Max(0, a.nowMs - h.lastMs) as real * a.ratePerMs)
  }

  function TokensKept(tokens: real): real {
    if tokens >= 1.0 then tokens - 1.0 else tokens
  }

  function BucketReply(tokens: real, a: BucketArgs): Reply {
    var kept := TokensKept(tokens);
    Reply(
      tokens >= 1.0,
      kept.Floor,
      FloorDiv(a.nowMs, 1000)
      + (if a.capacity as real > kept && a.ratePerMs > 0.0
         then Ceil((a.capacity as real - kept) / a.ratePerMs / 1000.0) else 0),
      if tokens >= 1.0 then 0
      else if a.ratePerMs > 0.0 then Ceil((1.0 - kept) / a.ratePerMs / 1000.0)
      else a.ttlSecs)
  }

  // ---- fixed window ----

  function WindowStart(a: WindowArgs): int
    requires a.windowSeconds > 0
  {
    RoundDown(a.now, a.windowSeconds)
  }

  function ResetAt(a: WindowArgs): (r: int)
    requires a.windowSeconds > 0
    ensures a.now < r <= a.now + a.windowSeconds
  {
    WindowStart(a) + a.windowSeconds
  }

  function WindowReply(count: int, a: WindowArgs): Reply
    requires a.windowSeconds > 0
  {
    if count < a.limit
    then Reply(true, Max(0, a.limit - (count + 1)), ResetAt(a), 0)
    else Reply(false, Max(0, a.limit - count), ResetAt(a), ResetAt(a) - a.now)
  }

  /** reset_at is the end of the window: the first multiple of its length that lies ahead. */
  lemma ResetIsWindowEnd(count: int, a: WindowArgs, q: int)
    requires a.windowSeconds > 0
    ensures WindowReply(count, a).resetAt == a.windowSeconds * (FloorDiv(a.now, a.windowSeconds) + 1)
    ensures a.now < a.windowSeconds * q ==> a.now < WindowReply(count, a).resetAt <= a.windowSeconds * q
  {
    RoundDownIsFloor(a.now, a.windowSeconds);
    Distribute(a.windowSeconds, FloorDiv(a.now, a.windowSeconds), 1);
    if a.now < a.windowSeconds * q {
      if q < FloorDiv(a.now, a.windowSeconds) + 1 {
        MulMonotone(a.windowSeconds, q, FloorDiv(a.now, a.windowSeconds));
      } else {
        MulMonotone(a.windowSeconds, FloorDiv(a.now, a.windowSeconds) + 1, q);
      }
    }
  }

  // ---- the shape of every reply ----

  /** ... to a request stamped `nowMs`. */
  predicate WellFormed(c: Config, r: Reply, nowMs: int) {
    && (if r.allowed then r.retryAfter == 0 && 0 <= r.remaining <= c.limit - 1
        else r.remaining == 0 && 1 <= r.retryAfter <= c.window)
    && 1 <= r.resetAt - FloorDiv(nowMs, 1000) <= c.window
  }

  lemma CeilBetween(x: real, lo: int, hi: int)
    requires lo as real - 1.0 < x <= hi as real
    ensures lo <= Ceil(x) <= hi
  {
  }

  /** Whatever tokens an earlier request, under any configuration, has left behind. */
  lemma BucketReplyWellFormed(c: Config, found: Option<Value>, nowMs: int)
    requires c.Valid()
    requires found.Some? ==> found.value.Hash? && found.value.tokens >= 0.0
    ensures var tokens := Refilled(found, GoBucketArgs(c, nowMs));
            && TokensKept(tokens) >= 0.0
            && WellFormed(c, BucketReply(tokens, GoBucketArgs(c, nowMs)), nowMs)
  {
    var a := GoBucketArgs(c, nowMs);
    var tokens := Refilled(found, a);
    RatePositive(c);
    if found.Some? {
      ProductNonNegative(Max(0, a.nowMs - found.value.lastMs) as real, a.ratePerMs);
    }
    assert 0.0 <= tokens <= c.limit as real;
    var kept := TokensKept(tokens);
    SecondsFor(c, c.limit as real - kept);
    if tokens < 1.0 {
      SecondsFor(c, 1.0 - kept);
    }
  }

  lemma ProductNonNegative(x: real, y: real)
    requires x >= 0.0 && y >= 0.0
    ensures x * y >= 0.0
  {
  }

  lemma RatePositive(c: Config)
    requires c.Valid()
    ensures c.limit as real / c.window as real / 1000.0 > 0.0
  {
    assert c.limit as real / c.window as real > 0.0;
  }

  /** Refilling up to `limit` tokens takes between one second, rounded up, and the window. */
  lemma SecondsFor(c: Config, missing: real)
    requires c.Valid() && 0.0 < missing <= c.limit as real
    ensures 1 <= Ceil(missing / (c.limit as real / c.window as real / 1000.0) / 1000.0) <= c.window
  {
    var l, w := c.limit as real, c.window as real;
    var rate := l / w / 1000.0;
    RatePositive(c);
    var x := missing / rate / 1000.0;
    assert rate * 1000.0 * w == l;
    assert x * (rate * 1000.0) == missing;
    assert 0.0 < rate * 1000.0;
    RealScale(x, w, rate * 1000.0);
    RealScale(x, 0.0, rate * 1000.0);
    CeilBetween(x, 1, c.window);
  }

  lemma WindowReplyWellFormed(c: Config, count: int, nowMs: int)
    requires c.Valid() && count >= 0
    ensures WellFormed(c, WindowReply(count, GoWindowArgs(c, nowMs)), nowMs)
  {
  }

  // ---- the real bucket is the unit bucket ----

  function Tokens(c: Config, units: int): real
    requires c.Valid()
  {
    units as real / Levels.Cost(c) as real
  }

  /** The hash that stores a level. */
  function Stored(c: Config, s: Option<Levels.Level>): Option<Value>
    requires c.Valid()
  {
    if s.None? then None else Some(Hash(Tokens(c, s.value.units), s.value.lastMs))
  }

  lemma RateInUnits(c: Config)
    requires c.Valid()
    ensures c.limit as real / c.window as real / 1000.0 == c.limit as real / Levels.Cost(c) as real
  {
    var l, w := c.limit as real, c.window as real;
    assert Levels.Cost(c) as real == 1000.0 * w;
    assert l / w / 1000.0 * (1000.0 * w) == l;
  }

  lemma TokensOrder(c: Config, a: int, b: int)
    requires c.Valid()
    ensures a <= b <==> Tokens(c, a) <= Tokens(c, b)
  {
    var k := Levels.Cost(c) as real;
    assert Tokens(c, a) * k == a as real && Tokens(c, b) * k == b as real;
    RealScale(Tokens(c, a), Tokens(c, b), k);
  }

  lemma WholeTokens(c: Config, n: int)
    requires c.Valid()
    ensures Tokens(c, n * Levels.Cost(c)) == n as real
  {
    var k := Levels.Cost(c);
    assert (n * k) as real == n as real * k as real;
  }

  lemma TokensAfterRefill(c: Config, units: int, elapsed: nat)
    requires c.Valid()
    ensures Tokens(c, units) + elapsed as real * (c.limit as real / c.window as real / 1000.0)
         == Tokens(c, units + c.limit * elapsed)
  {
    RateInUnits(c);
    var k := Levels.Cost(c) as real;
    assert (c.limit * elapsed) as real == elapsed as real * c.limit as real;
    assert elapsed as real * (c.limit as real / k) == (elapsed as real * c.limit as real) / k;
  }

  lemma SecondsInUnits(c: Config, units: int)
    requires c.Valid()
    ensures Ceil(Tokens(c, units) / (c.limit as real / c.window as real / 1000.0) / 1000.0)
         == CeilDiv(units, 1000 * c.limit)
  {
    RateInUnits(c);
    var k, l, u := Levels.Cost(c) as real, c.limit as real, units as real;
    var x := u / k / (l / k) / 1000.0;
    assert x * 1000.0 * (l / k) == u / k;
    assert x * 1000.0 * (l / k) * k == u / k * k == u;
    assert l / k * k == l;
    assert x * 1000.0 * l == u;
    assert (1000 * c.limit) as real == 1000.0 * l;
    assert x * (1000.0 * l) == u;
    assert x == u / (1000.0 * l);
    RealCeilIsCeilDiv(units, 1000 * c.limit);
  }

  /** Step for step, the script's real tokens are the unit bucket's units divided by the cost of
      one request: same tokens, same decision, same four numbers. */
  lemma RealBucketIsUnitBucket(c: Config, s: Option<Levels.Level>, nowMs: int)
    requires c.Valid() && Levels.NonNegative(s)
    ensures var avail := Levels.Avail(c, s, nowMs);
            && Refilled(Stored(c, s), GoBucketArgs(c, nowMs)) == Tokens(c, avail)
            && TokensKept(Tokens(c, avail)) == Tokens(c, Levels.Kept(c, avail))
            && BucketReply(Tokens(c, avail), GoBucketArgs(c, nowMs)) == Levels.ReplyFor(c, avail, nowMs)
  {
    var avail := Levels.Avail(c, s, nowMs);
    Levels.AvailBounds(c, s, nowMs);
    WholeTokens(c, c.limit);
    if s.Some? {
      var elapsed := Max(0, nowMs - s.value.lastMs);
      TokensAfterRefill(c, s.value.units, elapsed);
      TokensOrder(c, Levels.Capacity(c), s.value.units + c.limit * elapsed);
    }
    assert Refilled(Stored(c, s), GoBucketArgs(c, nowMs)) == Tokens(c, avail);
    TokensDecide(c, avail);
    RepliesMatch(c, avail, nowMs);
  }

  lemma TokensMinus(c: Config, a: int, b: int)
    requires c.Valid()
    ensures Tokens(c, a) - Tokens(c, b) == Tokens(c, a - b)
  {
  }

  lemma TokensDecide(c: Config, avail: int)
    requires c.Valid()
    ensures Tokens(c, avail) >= 1.0 <==> Levels.Admits(c, avail)
    ensures TokensKept(Tokens(c, avail)) == Tokens(c, Levels.Kept(c, avail))
  {
    WholeTokens(c, 1);
    TokensOrder(c, Levels.Cost(c), avail);
    TokensMinus(c, avail, Levels.Cost(c));
  }

  lemma RepliesMatch(c: Config, avail: int, nowMs: int)
    requires c.Valid() && 0 <= avail <= Levels.Capacity(c) && Levels.Kept(c, avail) < Levels.Capacity(c)
    ensures BucketReply(Tokens(c, avail), GoBucketArgs(c, nowMs)) == Levels.ReplyFor(c, avail, nowMs)
  {
    var kept := Levels.Kept(c, avail);
    TokensDecide(c, avail);
    RatePositive(c);
    WholeTokens(c, c.limit);
    WholeTokens(c, 1);
    RealFloorIsFloorDiv(kept, Levels.Cost(c));
    TokensOrder(c, Levels.Capacity(c), kept);
    TokensMinus(c, Levels.Capacity(c), kept);
    TokensMinus(c, Levels.Cost(c), kept);
    SecondsInUnits(c, Levels.Capacity(c) - kept);
    SecondsInUnits(c, Levels.Cost(c) - kept);
  }
}
