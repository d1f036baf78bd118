/** The in-browser simulator: one map of buckets and one of single window slots, keyed by
    identifier, limit and window. The clock reading is a parameter. */
module Simulator {
  import opened Types
  import opened Arithmetic
  import opened Keys

  datatype BucketState = BucketState(tokens: real, lastMs: int)

  datatype WindowState = WindowState(count: int, windowStart: int)

  /** `retryAfter` is null for an admitted request. */
  datatype CheckResult = CheckResult(allowed: bool, remaining: int, resetAt: int, retryAfter: Option<int>)

  function TbKey(id: string, c: Config): string {
    "tb:" + id + ":" + Decimal(c.limit) + ":" + Decimal(c.window)
  }

  function FwKey(id: string, c: Config): string {
    "fw:" + id + ":" + Decimal(c.limit) + ":" + Decimal(c.window)
  }

  function Get<V>(m: map<string, V>, key: string): Option<V> {
    if key in m then Some(m[key]) else None
  }

  // ---- what the methods compute ----

  function RatePerMs(c: CheckedConfig): real {
    c.limit as real / c.window as real / 1000.0
  }

  /** The tokens a request finds, refilled since the last one. */
  function Available(found: Option<BucketState>, c: CheckedConfig, nowMs: int): real {
    match found
    case None => c.limit as real
    case Some(s) => MinReal(c.limit as real, s.tokens + Max(0, nowMs - s.lastMs) as real * RatePerMs(c))
  }

  function Left(tokens: real): real {
    if tokens >= 1.0 then tokens - 1.0 else tokens
  }

  function BucketResult(tokens: real, c: CheckedConfig, nowMs: int): CheckResult {
    CheckResult(
      tokens >= 1.0,
      Left(tokens).Floor,
      FloorDiv(nowMs, 1000)
      + (if RatePerMs(c) > 0.0 && Left(tokens) < c.limit as real
         then Ceil((c.limit as real - Left(tokens)) / RatePerMs(c) / 1000.0) else 0),
      if tokens >= 1.0 then None else Some(Ceil((1.0 - Left(tokens)) / RatePerMs(c) / 1000.0)))
  }

  function WindowStart(c: CheckedConfig, nowSecs: int): int {
    RoundDown(nowSecs, c.window)
  }

  /** The requests counted in the current window, if the slot is not left over from an earlier one. */
  function CountNow(found: Option<WindowState>, c: CheckedConfig, nowSecs: int): int {
    if found.None? || found.value.windowStart < WindowStart(c, nowSecs) then 0 else found.value.count
  }

  /** The seconds a peek reports as left in the window its count belongs to. */
  function SecondsLeft(found: Option<WindowState>, c: CheckedConfig, nowSecs: int): int {
    (if found.None? then WindowStart(c, nowSecs) else Max(found.value.windowStart, WindowStart(c, nowSecs)))
    + c.window - nowSecs
  }

  /** The slot after a request: a stale slot is replaced, another keeps its own window start. */
  function SlotAfter(found: Option<WindowState>, c: CheckedConfig, nowSecs: int): WindowState {
    if found.None? || found.value.windowStart < WindowStart(c, nowSecs) then WindowState(1, WindowStart(c, nowSecs))
    else if found.value.count < c.limit then found.value.(count := found.value.count + 1)
    else found.value
  }

  function WindowResult(count: int, c: CheckedConfig, nowSecs: int): CheckResult {
    var resetAt := WindowStart(c, nowSecs) + c.window;
    if count < c.limit then CheckResult(true, c.limit - (count + 1), resetAt, None)
    else CheckResult(false, 0, resetAt, Some(resetAt - nowSecs))
  }

  function WithoutPrefix<V>(m: map<string, V>, prefix: string): map<string, V> {
    map k | k in m && !(prefix <= k) :: m[k]
  }

  /** The simulator's two maps. */
  datatype Maps = Maps(tb: map<string, BucketState>, fw: map<string, WindowState>)

  /** What a call does to the maps. */
  function NextMaps(m: Maps, call: Call): Maps {
    var Call(id, algorithm, c, nowMs) := call;
    match algorithm
    case TokenBucket =>
      m.(tb := m.tb[TbKey(id, c) := BucketState(Left(Available(Get(m.tb, TbKey(id, c)), c, nowMs)), nowMs)])
    case FixedWindow =>
      m.(fw := m.fw[FwKey(id, c) := SlotAfter(Get(m.fw, FwKey(id, c)), c, FloorDiv(nowMs, 1000))])
  }

  /** ... and what it is answered. */
  function ResultOf(m: Maps, call: Call): CheckResult {
    var Call(id, algorithm, c, nowMs) := call;
    match algorithm
    case TokenBucket => BucketResult(Available(Get(m.tb, TbKey(id, c)), c, nowMs), c, nowMs)
    case FixedWindow =>
      var nowSecs := FloorDiv(nowMs, 1000);
      WindowResult(CountNow(Get(m.fw, FwKey(id, c)), c, nowSecs), c, nowSecs)
  }

  class Simulator {
    var tb: map<string, BucketState>
    var fw: map<string, WindowState>

    constructor ()
      ensures tb == map[] && fw == map[]
    {
      tb, fw := map[], map[];
    }

    method Check(id: string, algorithm: Algorithm, c: CheckedConfig, nowMs: int) returns (r: CheckResult)
      modifies this
      ensures r == ResultOf(Maps(old(tb), old(fw)), Call(id, algorithm, c, nowMs))
      ensures Maps(tb, fw) == NextMaps(Maps(old(tb), old(fw)), Call(id, algorithm, c, nowMs))
    {
      if algorithm == TokenBucket {
        r := CheckTokenBucket(id, c, nowMs);
      } else {
        r := CheckFixedWindow(id, c, nowMs);
      }
    }

    method PeekTokens(id: string, c: CheckedConfig, nowMs: int) returns (tokens: real)
      ensures tokens == Available(Get(tb, TbKey(id, c)), c, nowMs)
    {
      var key := TbKey(id, c);
      if key !in tb {
        return c.limit as real;
      }
      var ratePerMs := c.limit as real / c.window as real / 1000.0;
      var elapsed := Max(0, nowMs - tb[key].lastMs);
      tokens := MinReal(c.limit as real, tb[key].tokens + elapsed as real * ratePerMs);
    }

    method PeekWindow(id: string, c: CheckedConfig, nowMs: int) returns (count: int, secondsLeft: int)
      ensures var found, nowSecs := Get(fw, FwKey(id, c)), FloorDiv(nowMs, 1000);
              && count == CountNow(found, c, nowSecs)
              && secondsLeft == SecondsLeft(found, c, nowSecs)
      ensures var key, nowSecs := FwKey(id, c), FloorDiv(nowMs, 1000);
              var start := FloorDiv(nowSecs, c.window) * c.window;
              && (key !in fw || fw[key].windowStart < start ==> count == 0 && secondsLeft == start + c.window - nowSecs)
              && (key in fw && fw[key].windowStart >= start ==>
                    count == fw[key].count && secondsLeft == fw[key].windowStart + c.window - nowSecs)
    {
      var nowSecs := FloorDiv(nowMs, 1000);
      var windowStart := FloorDiv(nowSecs, c.window) * c.window;
      RoundDownIsFloor(nowSecs, c.window);
      var key := FwKey(id, c);
      if key !in fw || fw[key].windowStart < windowStart {
        return 0, windowStart + c.window - nowSecs;
      }
      return fw[key].count, fw[key].windowStart + c.window - nowSecs;
    }

    /** Deletes every key that starts with the identifier and a colon. */
    method Reset(id: string)
      modifies this
      ensures tb == WithoutPrefix(old(tb), "tb:" + id + ":")
      ensures fw == WithoutPrefix(old(fw), "fw:" + id + ":")
    {
      var todo := tb.Keys;
      while todo != {}
        invariant todo <= old(tb).Keys && fw == old(fw)
        invariant forall k :: k in tb <==> k in old(tb) && (k in todo || !("tb:" + id + ":" <= k))
        invariant forall k :: k in tb ==> tb[k] == old(tb)[k]
        decreases |todo|
      {
        var k :| k in todo;
        if "tb:" + id + ":" <= k {
          tb := tb - {k};
        }
        todo := todo - {k};
      }
      todo := fw.Keys;
      while todo != {}
        invariant todo <= old(fw).Keys && tb == WithoutPrefix(old(tb), "tb:" + id + ":")
        invariant forall k :: k in fw <==> k in old(fw) && (k in todo || !("fw:" + id + ":" <= k))
        invariant forall k :: k in fw ==> fw[k] == old(fw)[k]
        decreases |todo|
      {
        var k :| k in todo;
        if "fw:" + id + ":" <= k {
          fw := fw - {k};
        }
        todo := todo - {k};
      }
    }

    method CheckTokenBucket(id: string, c: CheckedConfig, nowMs: int) returns (r: CheckResult)
      modifies this`tb
      ensures var tokens := Available(Get(old(tb), TbKey(id, c)), c, nowMs);
              && r == BucketResult(tokens, c, nowMs)
              && tb == old(tb)[TbKey(id, c) := BucketState(Left(tokens), nowMs)]
    {
      var key := TbKey(id, c);
      var ratePerMs := c.limit as real / c.window as real / 1000.0;

      var state := if key in tb then tb[key] else BucketState(c.limit as real, nowMs);
      var elapsed := Max(0, nowMs - state.lastMs);
      var tokens := MinReal(c.limit as real, state.tokens + elapsed as real * ratePerMs);
      assert tokens == Available(Get(tb, key), c, nowMs) by {
        if key !in tb {
          assert elapsed as real * ratePerMs == 0.0;
        }
      }

      var allowed := tokens >= 1.0;
      var newTokens := if allowed then tokens - 1.0 else tokens;
      tb := tb[key := BucketState(newTokens, nowMs)];

      var remaining := newTokens.Floor;
      var secsToFull := if ratePerMs > 0.0 && newTokens < c.limit as real
                        then Ceil((c.limit as real - newTokens) / ratePerMs / 1000.0) else 0;
      var resetAt := FloorDiv(nowMs, 1000) + secsToFull;
      assert ratePerMs > 0.0;
      var retryAfter := if allowed then None else Some(Ceil((1.0 - newTokens) / ratePerMs / 1000.0));
      r := CheckResult(allowed, remaining, resetAt, retryAfter);
    }

    method CheckFixedWindow(id: string, c: CheckedConfig, nowMs: int) returns (r: CheckResult)
      modifies this`fw
      ensures var found, nowSecs := Get(old(fw), FwKey(id, c)), FloorDiv(nowMs, 1000);
              && r == WindowResult(CountNow(found, c, nowSecs), c, nowSecs)
              && fw == old(fw)[FwKey(id, c) := SlotAfter(found, c, nowSecs)]
              && r.resetAt == FloorDiv(nowSecs, c.window) * c.window + c.window
    {
      var nowSecs := FloorDiv(nowMs, 1000);
      var windowStart := FloorDiv(nowSecs, c.window) * c.window;
      RoundDownIsFloor(nowSecs, c.window);
      var resetAt := windowStart + c.window;
      var key := FwKey(id, c);

      if key !in fw || fw[key].windowStart < windowStart {
        fw := fw[key := WindowState(1, windowStart)];
        return CheckResult(true, c.limit - 1, resetAt, None);
      }
      if fw[key].count < c.limit {
        fw := fw[key := fw[key].(count := fw[key].count + 1)];
        return CheckResult(true, c.limit - fw[key].count, resetAt, None);
      }
      return CheckResult(false, 0, resetAt, Some(resetAt - nowSecs));
    }
  }

  // ---- keys, and what reset reaches ----

  lemma TbKeyInjective(id: string, c: Config, id': string, c': Config)
    requires TbKey(id, c) == TbKey(id', c')
    ensures id == id' && c == c'
  {
    TripleInjective("tb:", id, c, id', c');
  }

  lemma FwKeyInjective(id: string, c: Config, id': string, c': Config)
    requires FwKey(id, c) == FwKey(id', c')
    ensures id == id' && c == c'
  {
    TripleInjective("fw:", id, c, id', c');
  }

  lemma TripleInjective(p: string, id: string, c: Config, id': string, c': Config)
    requires p + id + ":" + Decimal(c.limit) + ":" + Decimal(c.window)
          == p + id' + ":" + Decimal(c'.limit) + ":" + Decimal(c'.window)
    ensures id == id' && c == c'
  {
    LastColonSplits(p + id + ":" + Decimal(c.limit), Decimal(c.window), p + id' + ":" + Decimal(c'.limit),
       Decimal(c'.window));
    LastColonSplits(p + id, Decimal(c.limit), p + id', Decimal(c'.limit));
    DecimalInjective(c.window, c'.window);
    DecimalInjective(c.limit, c'.limit);
    PrefixCancels(p, id, id');
  }

  /** reset(id) reaches the state of (other, limit, window) exactly when `other` is `id`, extends
      it after a colon, or is what remains of `id` without a last part that spells the limit. */
  predicate ResetReaches(id: string, other: string, c: Config) {
    other == id || id + ":" <= other || id == other + ":" + Decimal(c.limit)
  }

  lemma PrefixOfTriple(id: string, other: string, l: string, w: string)
    requires ':' !in l && ':' !in w
    ensures id + ":" <= other + ":" + l + ":" + w
       <==> (other == id || id + ":" <= other || id == other + ":" + l)
  {
    var key := other + ":" + l + ":" + w;
    var p := id + ":";
    if |id| < |other| {
      assert key[..|p|] == other[..|p|];
    } else if |id| == |other| {
      assert key[..|p|] == other + ":";
      if other + ":" == p {
        assert (other + ":")[..|id|] == other && p[..|id|] == id;
      }
    } else {
      assert key == other + ":" + (l + ":" + w);
      if p <= key {
        assert key[|id|] == p[|id|] == ':';
        ColonPlaces(other, l, w, |id|);
        assert id == p[..|id|] == key[..|id|] == other + ":" + l;
      }
      if id == other + ":" + l {
        assert key[..|p|] == p;
      }
    }
  }

  lemma ColonPlaces(other: string, l: string, w: string, i: int)
    requires ':' !in l && ':' !in w
    requires |other| < i < |other + ":" + l + ":" + w|
    ensures (other + ":" + l + ":" + w)[i] == ':' ==> i == |other| + 1 + |l|
  {
    var key := other + ":" + l + ":" + w;
    if i < |other| + 1 + |l| {
      assert key[i] == l[i - |other| - 1];
    } else if i > |other| + 1 + |l| {
      assert key[i] == w[i - |other| - |l| - 2];
    }
  }

  lemma StripPrefix(p: string, a: string, b: string)
    ensures p + a <= p + b <==> a <= b
  {
    if a <= b {
      assert (p + b)[..|p + a|] == p + b[..|a|];
    }
    if p + a <= p + b {
      assert (p + a)[|p|..] == a && (p + b)[..|p + a|][|p|..] == b[..|a|];
    }
  }

  /** Every state that reset reaches behaves as fresh afterwards; every other one is untouched. */
  lemma ResetFramed(tb: map<string, BucketState>, fw: map<string, WindowState>, id: string, other: string, c: Config)
    ensures Get(WithoutPrefix(tb, "tb:" + id + ":"), TbKey(other, c))
         == if ResetReaches(id, other, c) then None else Get(tb, TbKey(other, c))
    ensures Get(WithoutPrefix(fw, "fw:" + id + ":"), FwKey(other, c))
         == if ResetReaches(id, other, c) then None else Get(fw, FwKey(other, c))
  {
    ResetPrefix("tb:", id, other, c);
    ResetPrefix("fw:", id, other, c);
  }

  lemma ResetPrefix(p: string, id: string, other: string, c: Config)
    ensures p + id + ":" <= p + other + ":" + Decimal(c.limit) + ":" + Decimal(c.window) <==> ResetReaches(id, other, c)
  {
    var rest := other + ":" + Decimal(c.limit) + ":" + Decimal(c.window);
    PrefixOfTriple(id, other, Decimal(c.limit), Decimal(c.window));
    StripPrefix(p, id + ":", rest);
    assert p + (id + ":") == p + id + ":";
    assert p + rest == p + other + ":" + Decimal(c.limit) + ":" + Decimal(c.window);
  }

  /** The demo's identifier shows that a reset is not limited to the given identifier. */
  lemma ResetReachesOthers()
    ensures ResetReaches("demo-user", "demo-user:1", Config(10, 30))
    ensures ResetReaches("demo-user:10", "demo-user", Config(10, 30))
  {
    assert Decimal(10) == "10" by {
      assert Digits(10) == Digits(1) + [Digit(0)];
    }
    assert "demo-user" + ":" == "demo-user:1"[..10];
    assert "demo-user:10" == "demo-user" + ":" + "10";
  }
}
