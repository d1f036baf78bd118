/** The token bucket in whole units of 1/(1000 * window) token.

    In these units one millisecond refills `limit` units, one request costs
    1000 * window units and a full bucket holds limit * 1000 * window units, so
    no rounding is involved. `Scripts.RealBucketIsUnitBucket` shows that the
    script's own arithmetic gives the same decisions. */
module TokenBucketLevels {
  import opened Types
  import opened Arithmetic
  import opened Counting

  datatype Level = Level(units: int, lastMs: int)

  function Cost(c: Config): int {
    1000 * c.window
  }

  function Capacity(c: Config): int {
    c.limit * Cost(c)
  }

  /** Units in the bucket when a request stamped `t` arrives, before it is decided. */
  function Avail(c: Config, s: Option<Level>, t: int): int {
    match s
    case None => Capacity(c)
    case Some(v) => Min(Capacity(c), v.units + c.limit * Max(0, t - v.lastMs))
  }

  predicate Admits(c: Config, avail: int) {
    avail >= Cost(c)
  }

  /** Units left once a bucket holding `avail` has been asked for one token. */
  function Kept(c: Config, avail: int): int {
    if Admits(c, avail) then avail - Cost(c) else avail
  }

  function Next(c: Config, s: Option<Level>, t: int): Level {
    Level(Kept(c, Avail(c, s, t)), t)
  }

  /** The reply depends on the state only through the units available. */
  function ReplyFor(c: Config, avail: int, t: int): Reply
    requires c.Valid()
  {
    var kept := Kept(c, avail);
    Reply(
      Admits(c, avail),
      FloorDiv(kept, Cost(c)),
      FloorDiv(t, 1000) + (if kept < Capacity(c) then CeilDiv(Capacity(c) - kept, 1000 * c.limit) else 0),
      if Admits(c, avail) then 0 else CeilDiv(Cost(c) - kept, 1000 * c.limit))
  }

  predicate NonNegative(s: Option<Level>) {
    s.Some? ==> s.value.units >= 0
  }

  lemma Sizes(c: Config)
    requires c.Valid()
    ensures 1000 <= Cost(c) <= Capacity(c)
    ensures Capacity(c) == 1000 * c.limit * c.window
    ensures Cost(c) <= 1000 * c.limit * c.window
  {
    MulMonotone(Cost(c), 1, c.limit);
    assert c.limit * (1000 * c.window) == 1000 * c.limit * c.window;
  }

  lemma AvailBounds(c: Config, s: Option<Level>, t: int)
    requires c.Valid() && NonNegative(s)
    ensures 0 <= Avail(c, s, t) <= Capacity(c)
    ensures 0 <= Kept(c, Avail(c, s, t)) <= Max(Capacity(c) - Cost(c), Cost(c) - 1)
    ensures Kept(c, Avail(c, s, t)) < Capacity(c)
  {
    Sizes(c);
    if s.Some? {
      MulMonotone(c.limit, 0, Max(0, t - s.value.lastMs));
    }
  }

  /** Refilling in two moves is refilling in one, also through the cap. */
  lemma RefillComposes(c: Config, u: int, last: int, mid: int, t: int)
    requires c.Valid() && last <= mid <= t
    ensures Avail(c, Some(Level(Avail(c, Some(Level(u, last)), mid), mid)), t) == Avail(c, Some(Level(u, last)), t)
  {
    Distribute(c.limit, mid - last, t - mid);
    MulMonotone(c.limit, 0, t - mid);
  }

  // ---- runs ----

  /** The bucket after the first `n` of the requests stamped `ts`, in script order. */
  function LevelAt(c: Config, s: Option<Level>, ts: seq<int>, n: nat): Option<Level>
    requires n <= |ts|
  {
    if n == 0 then s else Some(Next(c, LevelAt(c, s, ts, n - 1), ts[n - 1]))
  }

  function AvailAt(c: Config, s: Option<Level>, ts: seq<int>, n: nat): int
    requires n < |ts|
  {
    Avail(c, LevelAt(c, s, ts, n), ts[n])
  }

  predicate AdmitsAt(c: Config, s: Option<Level>, ts: seq<int>, n: nat)
    requires n < |ts|
  {
    Admits(c, AvailAt(c, s, ts, n))
  }

  function ReplyAt(c: Config, s: Option<Level>, ts: seq<int>, n: nat): Reply
    requires c.Valid() && n < |ts|
  {
    ReplyFor(c, AvailAt(c, s, ts, n), ts[n])
  }

  /** One flag a request: was it admitted? */
  function Decisions(c: Config, s: Option<Level>, ts: seq<int>): (ds: seq<bool>)
    ensures |ds| == |ts|
    ensures forall n :: 0 <= n < |ts| ==> ds[n] == AdmitsAt(c, s, ts, n)
  {
    seq(|ts|, n requires 0 <= n < |ts| => AdmitsAt(c, s, ts, n))
  }

  /** The forward part of the clock's movement from stamp k to stamp n. */
  function Forward(ts: seq<int>, k: nat, n: nat): (r: nat)
    requires k <= n < |ts|
  {
    if k == n then 0 else Forward(ts, k, n - 1) + Max(0, ts[n] - ts[n - 1])
  }

  lemma {:induction false} LevelAtNonNegative(c: Config, s: Option<Level>, ts: seq<int>, n: nat)
    requires c.Valid() && NonNegative(s) && n <= |ts|
    ensures NonNegative(LevelAt(c, s, ts, n))
  {
    if n == 0 {
    } else {
      LevelAtNonNegative(c, s, ts, n - 1);
      AvailBounds(c, LevelAt(c, s, ts, n - 1), ts[n - 1]);
    }
  }
}
