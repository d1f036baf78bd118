/** What every run of the token bucket promises, for any timestamps: they need
    not be monotone, because each API process reads its own clock before the
    script runs. Bounds are stated in units; `limit` requests cost Capacity. */
module TokenBucketRuns {
  import opened Types
  import opened Arithmetic
  import opened Counting
  import opened TokenBucketLevels

  // ---- a store that drops keys ----

  /** The state request n finds in a store that has dropped the key just before every request
      whose flag is set. */
  function ExpiringAt(c: Config, ts: seq<int>, drops: seq<bool>, n: nat): Option<Level>
    requires n < |ts| == |drops|
  {
    if n == 0 || drops[n] then None else Some(Next(c, ExpiringAt(c, ts, drops, n - 1), ts[n - 1]))
  }

  function ExpiringAvailAt(c: Config, ts: seq<int>, drops: seq<bool>, n: nat): int
    requires n < |ts| == |drops|
  {
    Avail(c, ExpiringAt(c, ts, drops, n), ts[n])
  }

  function ExpiringReplyAt(c: Config, ts: seq<int>, drops: seq<bool>, n: nat): Reply
    requires c.Valid() && n < |ts| == |drops|
  {
    ReplyFor(c, ExpiringAvailAt(c, ts, drops, n), ts[n])
  }

  /** One flag a request: was it admitted? */
  function ExpiringDecisions(c: Config, ts: seq<int>, drops: seq<bool>): (ds: seq<bool>)
    requires |ts| == |drops|
    ensures |ds| == |ts|
    ensures forall n :: 0 <= n < |ts| ==> ds[n] == Admits(c, ExpiringAvailAt(c, ts, drops, n))
  {
    seq(|ts|, n requires 0 <= n < |ts| => Admits(c, ExpiringAvailAt(c, ts, drops, n)))
  }

  /** A key idle for twice the window on Redis's clock is gone (EXPIRE with window * 2). */
  function IdleDrops(c: Config, redisMs: seq<int>): (drops: seq<bool>)
    ensures |drops| == |redisMs|
    ensures forall n :: 0 <= n < |redisMs| ==> drops[n] == (n > 0 && redisMs[n] >= redisMs[n - 1] + 2000 * c.window)
  {
    seq(|redisMs|, n requires 0 <= n < |redisMs| => n > 0 && redisMs[n] >= redisMs[n - 1] + 2000 * c.window)
  }

  /** A store that drops nothing. */
  function Never(n: nat): (drops: seq<bool>)
    ensures |drops| == n && forall i :: 0 <= i < n ==> !drops[i]
  {
    seq(n, _ => false)
  }

  lemma {:induction false} ExpiringNonNegative(c: Config, ts: seq<int>, drops: seq<bool>, n: nat)
    requires c.Valid() && n < |ts| == |drops|
    ensures NonNegative(ExpiringAt(c, ts, drops, n))
    ensures 0 <= ExpiringAvailAt(c, ts, drops, n) <= Capacity(c)
    ensures Kept(c, ExpiringAvailAt(c, ts, drops, n)) >= 0
  {
    if n == 0 || drops[n] {
    } else {
      ExpiringNonNegative(c, ts, drops, n - 1);
    }
    AvailBounds(c, ExpiringAt(c, ts, drops, n), ts[n]);
  }

  /** Dropping a full bucket is dropping nothing. */
  predicate DropsOnlyFull(c: Config, ts: seq<int>, drops: seq<bool>)
    requires |ts| == |drops|
  {
    forall n :: 0 <= n < |ts| && drops[n] ==> AvailAt(c, None, ts, n) == Capacity(c)
  }

  lemma {:induction false} ExpirySimulates(c: Config, ts: seq<int>, drops: seq<bool>, n: nat)
    requires c.Valid() && n < |ts| == |drops|
    requires forall m :: 0 <= m < n && drops[m] ==> AvailAt(c, None, ts, m) == Capacity(c)
    ensures !drops[n] ==> ExpiringAt(c, ts, drops, n) == LevelAt(c, None, ts, n)
    ensures drops[n] ==> ExpiringAt(c, ts, drops, n) == None
  {
    if n == 0 || drops[n] {
    } else {
      ExpirySimulates(c, ts, drops, n - 1);
    }
  }

  lemma SameDecisions(c: Config, ts: seq<int>, drops: seq<bool>)
    requires c.Valid() && |ts| == |drops| && DropsOnlyFull(c, ts, drops)
    ensures ExpiringDecisions(c, ts, drops) == Decisions(c, None, ts)
    ensures forall n :: 0 <= n < |ts| ==> ExpiringAvailAt(c, ts, drops, n) == AvailAt(c, None, ts, n)
  {
    forall n: nat | n < |ts|
      ensures ExpiringAvailAt(c, ts, drops, n) == AvailAt(c, None, ts, n)
    {
      ExpirySimulates(c, ts, drops, n);
    }
  }

  // ---- the min-plus closed form ----

  function Spent(c: Config, admitted: bool): int {
    if admitted then Cost(c) else 0
  }

  /** What the clock's movement since the request before refills. */
  function Refill(c: Config, ts: seq<int>, n: nat): int
    requires 0 < n < |ts|
  {
    c.limit * Max(0, ts[n] - ts[n - 1])
  }

  /** Units available to request n in a fresh bucket that is charged for the choices `ds`,
      whoever made them, and refilled at every drop. */
  function Balance(c: Config, ts: seq<int>, drops: seq<bool>, ds: seq<bool>, n: nat): int
    requires n < |ts| == |drops| == |ds|
  {
    if n == 0 || drops[n] then Capacity(c)
    else Min(Capacity(c), Balance(c, ts, drops, ds, n - 1) - Spent(c, ds[n - 1]) + Refill(c, ts, n))
  }

  /** What a full bucket at request k would hold at request n if nothing ever spilled. */
  function Budget(c: Config, ts: seq<int>, ds: seq<bool>, k: nat, n: nat): int
    requires k <= n < |ts| == |ds|
  {
    Capacity(c) + c.limit * Forward(ts, k, n) - Cost(c) * Count(ds, k, n)
  }

  lemma BudgetStep(c: Config, ts: seq<int>, ds: seq<bool>, k: nat, n: nat)
    requires k < n < |ts| == |ds|
    ensures Budget(c, ts, ds, k, n) == Budget(c, ts, ds, k, n - 1) - Spent(c, ds[n - 1]) + Refill(c, ts, n)
  {
    Distribute(c.limit, Forward(ts, k, n - 1), Max(0, ts[n] - ts[n - 1]));
    Distribute(Cost(c), Count(ds, k, n - 1), if ds[n - 1] then 1 else 0);
  }

  /** The key has survived from request k's script to request n's. */
  predicate Survives(drops: seq<bool>, k: nat, n: nat)
    requires k <= n < |drops|
  {
    forall i :: k < i <= n ==> !drops[i]
  }

  lemma {:induction false} BalanceAtMostBudget(c: Config, ts: seq<int>, drops: seq<bool>, ds: seq<bool>, k: nat, n: nat)
    requires k <= n < |ts| == |drops| == |ds| && Survives(drops, k, n)
    ensures Balance(c, ts, drops, ds, n) <= Budget(c, ts, ds, k, n)
    decreases n
  {
    if k == n {
    } else {
      BalanceAtMostBudget(c, ts, drops, ds, k, n - 1);
      BudgetStep(c, ts, ds, k, n);
    }
  }

  /** The balance is the least budget: some earlier request attains it. */
  lemma {:induction false} BalanceIsSomeBudget(c: Config, ts: seq<int>, drops: seq<bool>, ds: seq<bool>, n: nat)
    returns (k: nat)
    requires n < |ts| == |drops| == |ds|
    ensures k <= n && Survives(drops, k, n) && Balance(c, ts, drops, ds, n) == Budget(c, ts, ds, k, n)
  {
    if Balance(c, ts, drops, ds, n) == Capacity(c) {
      k := n;
    } else {
      k := BalanceIsSomeBudget(c, ts, drops, ds, n - 1);
      BudgetStep(c, ts, ds, k, n);
    }
  }

  lemma {:induction false} ScriptKeepsBalance(c: Config, ts: seq<int>, drops: seq<bool>, n: nat)
    requires c.Valid() && n < |ts| == |drops|
    ensures ExpiringAvailAt(c, ts, drops, n) == Balance(c, ts, drops, ExpiringDecisions(c, ts, drops), n)
  {
    if n == 0 || drops[n] {
    } else {
      ScriptKeepsBalance(c, ts, drops, n - 1);
    }
  }

  /** One more admission at request n, counted with those of k..n-1, stays within a full
      bucket plus the refill of the forward clock movement from k to n. */
  predicate Fits(c: Config, ts: seq<int>, ds: seq<bool>, k: nat, n: nat)
    requires k <= n < |ts| == |ds|
  {
    Cost(c) * (Count(ds, k, n) + 1) <= Capacity(c) + c.limit * Forward(ts, k, n)
  }

  lemma FitsMeansBudget(c: Config, ts: seq<int>, ds: seq<bool>, k: nat, n: nat)
    requires k <= n < |ts| == |ds|
    ensures Fits(c, ts, ds, k, n) <==> Budget(c, ts, ds, k, n) >= Cost(c)
  {
    Distribute(Cost(c), Count(ds, k, n), 1);
  }

  /** Request n is admitted exactly when it fits counting back to every earlier request whose
      bucket it still finds. */
  lemma AdmissionCharacterised(c: Config, ts: seq<int>, drops: seq<bool>, n: nat)
    requires c.Valid() && n < |ts| == |drops|
    ensures Admits(c, ExpiringAvailAt(c, ts, drops, n)) <==>
      forall k: nat | k <= n && Survives(drops, k, n) :: Fits(c, ts, ExpiringDecisions(c, ts, drops), k, n)
  {
    var ds := ExpiringDecisions(c, ts, drops);
    ScriptKeepsBalance(c, ts, drops, n);
    forall k: nat | k <= n && Survives(drops, k, n)
      ensures Balance(c, ts, drops, ds, n) >= Cost(c) ==> Fits(c, ts, ds, k, n)
    {
      BalanceAtMostBudget(c, ts, drops, ds, k, n);
      FitsMeansBudget(c, ts, ds, k, n);
    }
    var least := BalanceIsSomeBudget(c, ts, drops, ds, n);
    FitsMeansBudget(c, ts, ds, least, n);
  }

  lemma RejectedForSomeStretch(c: Config, ts: seq<int>, drops: seq<bool>, n: nat) returns (k: nat)
    requires c.Valid() && n < |ts| == |drops| && !ExpiringDecisions(c, ts, drops)[n]
    ensures k <= n && Survives(drops, k, n) && !Fits(c, ts, ExpiringDecisions(c, ts, drops), k, n)
  {
    AdmissionCharacterised(c, ts, drops, n);
    k :| k <= n && Survives(drops, k, n) && !Fits(c, ts, ExpiringDecisions(c, ts, drops), k, n);
  }

  // ---- how much any stretch of requests is granted ----

  /** What request n may add to the allowance: at least what the clock refills and, where the
      key is dropped, at least a full bucket. */
  ghost predicate Grants(c: Config, ts: seq<int>, drops: seq<bool>, grants: seq<int>) {
    && |ts| == |drops| == |grants|
    && forall n :: 0 < n < |ts| ==> grants[n] >= Refill(c, ts, n) && (drops[n] ==> grants[n] >= Capacity(c))
  }

  function Granted(grants: seq<int>, k: nat, n: nat): int
    requires k <= n < |grants|
  {
    if k == n then 0 else Granted(grants, k, n - 1) + grants[n]
  }

  /** What is left when request n has been decided has not been granted twice. */
  lemma {:induction false} GrantsCover(c: Config, ts: seq<int>, drops: seq<bool>, grants: seq<int>, k: nat, n: nat)
    requires c.Valid() && Grants(c, ts, drops, grants) && k <= n < |ts|
    ensures Kept(c, ExpiringAvailAt(c, ts, drops, n)) + Cost(c) * Count(ExpiringDecisions(c, ts, drops), k, n + 1)
         <= Capacity(c) + Granted(grants, k, n)
  {
    var ds := ExpiringDecisions(c, ts, drops);
    ExpiringNonNegative(c, ts, drops, n);
    Distribute(Cost(c), Count(ds, k, n), if ds[n] then 1 else 0);
    if k == n {
    } else {
      GrantsCover(c, ts, drops, grants, k, n - 1);
      ExpiringNonNegative(c, ts, drops, n - 1);
    }
  }

  lemma StretchWithinGrants(c: Config, ts: seq<int>, drops: seq<bool>, grants: seq<int>, k: nat, n: nat)
    requires c.Valid() && Grants(c, ts, drops, grants) && k <= n < |ts|
    ensures Cost(c) * Count(ExpiringDecisions(c, ts, drops), k, n + 1) <= Capacity(c) + Granted(grants, k, n)
  {
    GrantsCover(c, ts, drops, grants, k, n);
    ExpiringNonNegative(c, ts, drops, n);
  }

  /** The drops before which the clock has not moved forward by a window: they may hand out what
      no clock has refilled. */
  function ShortDrops(c: Config, ts: seq<int>, drops: seq<bool>): (short: seq<bool>)
    requires |ts| == |drops|
    ensures |short| == |ts|
    ensures forall n :: 0 <= n < |ts| ==> short[n] == (n > 0 && drops[n] && ts[n] - ts[n - 1] < 1000 * c.window)
  {
    seq(|ts|, n requires 0 <= n < |ts| => n > 0 && drops[n] && ts[n] - ts[n - 1] < 1000 * c.window)
  }

  function ClockGrants(c: Config, ts: seq<int>, drops: seq<bool>): (grants: seq<int>)
    requires |ts| == |drops|
    ensures |grants| == |ts|
    ensures forall n :: 0 < n < |ts| ==>
              grants[n] == Refill(c, ts, n) + (if ShortDrops(c, ts, drops)[n] then Capacity(c) else 0)
  {
    seq(|ts|, n requires 0 <= n < |ts| =>
      if n == 0 then 0 else Refill(c, ts, n) + (if ShortDrops(c, ts, drops)[n] then Capacity(c) else 0))
  }

  lemma ClockGrantsGrant(c: Config, ts: seq<int>, drops: seq<bool>)
    requires c.Valid() && |ts| == |drops|
    ensures Grants(c, ts, drops, ClockGrants(c, ts, drops))
  {
    forall n | 0 < n < |ts|
      ensures var grant := ClockGrants(c, ts, drops)[n];
              grant >= Refill(c, ts, n) && (drops[n] ==> grant >= Capacity(c))
    {
      Sizes(c);
      MulMonotone(c.limit, 0, Max(0, ts[n] - ts[n - 1]));
      if ts[n] - ts[n - 1] >= 1000 * c.window {
        MulMonotone(c.limit, 1000 * c.window, ts[n] - ts[n - 1]);
      }
    }
  }

  /** What has been granted: the refill of the clock's movement, and buckets for short drops. */
  function ClockGrant(c: Config, ts: seq<int>, drops: seq<bool>, k: nat, n: nat): int
    requires k <= n < |ts| == |drops|
  {
    c.limit * Forward(ts, k, n) + Capacity(c) * Count(ShortDrops(c, ts, drops), k + 1, n + 1)
  }

  lemma ClockGrantsNone(c: Config, ts: seq<int>, drops: seq<bool>, k: nat)
    requires k < |ts| == |drops|
    ensures ClockGrant(c, ts, drops, k, k) == 0
  {
    assert c.limit * 0 == 0 && Capacity(c) * 0 == 0;
  }

  lemma ClockGrantStep(c: Config, ts: seq<int>, drops: seq<bool>, k: nat, m: nat, n: nat)
    requires c.Valid() && k <= m && m + 1 == n < |ts| == |drops|
    ensures ClockGrant(c, ts, drops, k, n) == ClockGrant(c, ts, drops, k, m) + ClockGrants(c, ts, drops)[n]
  {
    var short := ShortDrops(c, ts, drops);
    Distribute(c.limit, Forward(ts, k, m), Max(0, ts[n] - ts[m]));
    Distribute(Capacity(c), Count(short, k + 1, n), if short[n] then 1 else 0);
  }

  lemma {:induction false} ClockGranted(c: Config, ts: seq<int>, drops: seq<bool>, k: nat, n: nat)
    requires c.Valid() && k <= n < |ts| == |drops|
    ensures Granted(ClockGrants(c, ts, drops), k, n) == ClockGrant(c, ts, drops, k, n)
  {
    if k == n {
      ClockGrantsNone(c, ts, drops, k);
    } else {
      var m := n - 1;
      ClockGranted(c, ts, drops, k, m);
      ClockGrantStep(c, ts, drops, k, m, n);
    }
  }

  /** From units to requests: cost * a <= cost * limit + refill bounds a by whole tokens. */
  lemma AtMostFloor(cost: int, a: int, limit: int, refill: int)
    requires cost > 0 && cost * a <= limit * cost + refill
    ensures a <= limit + FloorDiv(refill, cost)
  {
    var q := FloorDiv(refill, cost);
    assert cost * (limit + q + 1) == limit * cost + cost * q + cost;
    if a > limit + q {
      MulMonotone(cost, limit + q + 1, a);
    }
  }

  /** ... where some of the allowance comes in full buckets. */
  lemma BucketsAndRefill(c: Config, a: int, more: nat, forward: int)
    requires c.Valid() && Cost(c) * a <= Capacity(c) + (c.limit * forward + Capacity(c) * more)
    ensures a <= c.limit * (1 + more) + FloorDiv(c.limit * forward, Cost(c))
  {
    assert c.limit * (1 + more) == c.limit + c.limit * more;
    assert (c.limit + c.limit * more) * Cost(c) == c.limit * Cost(c) + c.limit * more * Cost(c);
    assert c.limit * more * Cost(c) == c.limit * Cost(c) * more;
    AtMostFloor(Cost(c), a, c.limit * (1 + more), c.limit * forward);
  }

  /** In requests: `limit`, another `limit` for every short drop, and the whole tokens refilled by
      the clock's forward movement. */
  function Allowance(c: Config, ts: seq<int>, drops: seq<bool>, k: nat, n: nat): int
    requires c.Valid() && k <= n < |ts| == |drops|
  {
    c.limit * (1 + Count(ShortDrops(c, ts, drops), k + 1, n + 1)) + FloorDiv(c.limit * Forward(ts, k, n), Cost(c))
  }

  /** Any stretch k..n of any run, with any clocks and any drops, admits no more. */
  lemma StretchBound(c: Config, ts: seq<int>, drops: seq<bool>, k: nat, n: nat)
    requires c.Valid() && k <= n < |ts| == |drops|
    ensures Count(ExpiringDecisions(c, ts, drops), k, n + 1) <= Allowance(c, ts, drops, k, n)
  {
    ClockGrantsGrant(c, ts, drops);
    StretchWithinGrants(c, ts, drops, ClockGrants(c, ts, drops), k, n);
    ClockGranted(c, ts, drops, k, n);
    BucketsAndRefill(c, Count(ExpiringDecisions(c, ts, drops), k, n + 1),
                     Count(ShortDrops(c, ts, drops), k + 1, n + 1), Forward(ts, k, n));
  }

  // ---- the promise, and the best way to keep it ----

  /** The limiter's promise for every stretch of requests j..n on one bucket: no more admissions
      than a full bucket plus the refill of the clock's forward movement. */
  ghost predicate Conforms(c: Config, ts: seq<int>, drops: seq<bool>, ds: seq<bool>) {
    && |ds| == |drops| == |ts|
    && forall j: nat, n: nat | j <= n < |ts| && Survives(drops, j, n) ::
         Cost(c) * Count(ds, j, n + 1) <= Capacity(c) + c.limit * Forward(ts, j, n)
  }

  /** The script keeps it, whatever the clocks do and wherever keys are dropped. */
  lemma ScriptConforms(c: Config, ts: seq<int>, drops: seq<bool>)
    requires c.Valid() && |ts| == |drops|
    ensures Conforms(c, ts, drops, ExpiringDecisions(c, ts, drops))
  {
    var ds := ExpiringDecisions(c, ts, drops);
    forall j: nat, n: nat | j <= n < |ts| && Survives(drops, j, n)
      ensures Cost(c) * Count(ds, j, n + 1) <= Capacity(c) + c.limit * Forward(ts, j, n)
    {
      BalanceAtMostBudget(c, ts, drops, ds, j, n);
      ScriptKeepsBalance(c, ts, drops, n);
      ExpiringNonNegative(c, ts, drops, n);
      Distribute(Cost(c), Count(ds, j, n), if ds[n] then 1 else 0);
    }
  }

  lemma NeverShort(c: Config, ts: seq<int>, drops: seq<bool>, k: nat, n: nat)
    requires k <= n <= |ts| == |drops| && forall i :: k <= i < n ==> !ShortDrops(c, ts, drops)[i]
    ensures Capacity(c) * Count(ShortDrops(c, ts, drops), k, n) == 0
  {
    CountNone(ShortDrops(c, ts, drops), k, n);
  }

  /** Without short drops it keeps it as if no key were ever dropped. */
  lemma NoShortDropsConforms(c: Config, ts: seq<int>, drops: seq<bool>)
    requires c.Valid() && |ts| == |drops| && forall i :: 0 <= i < |ts| ==> !ShortDrops(c, ts, drops)[i]
    ensures Conforms(c, ts, Never(|ts|), ExpiringDecisions(c, ts, drops))
  {
    ClockGrantsGrant(c, ts, drops);
    forall j: nat, n: nat | j <= n < |ts|
      ensures Cost(c) * Count(ExpiringDecisions(c, ts, drops), j, n + 1) <= Capacity(c) + c.limit * Forward(ts, j, n)
    {
      StretchWithinGrants(c, ts, drops, ClockGrants(c, ts, drops), j, n);
      ClockGranted(c, ts, drops, j, n);
      NeverShort(c, ts, drops, j + 1, n + 1);
    }
  }

  lemma RivalCanPay(c: Config, ts: seq<int>, drops: seq<bool>, rival: seq<bool>, n: nat)
    requires c.Valid() && Conforms(c, ts, drops, rival) && n < |ts| && rival[n]
    ensures Balance(c, ts, drops, rival, n) >= Cost(c)
  {
    var k := BalanceIsSomeBudget(c, ts, drops, rival, n);
    assert Cost(c) * Count(rival, k, n + 1) <= Capacity(c) + c.limit * Forward(ts, k, n);
    Distribute(Cost(c), Count(rival, k, n), 1);
  }

  /** Exchange argument, one request: the script holds `mine` units and decides by them, the
      rival `theirs` and whatever it likes within its means. The rival's extra units never
      exceed the cost of the requests it has given up so far. */
  lemma ExchangeStep(c: Config, mine: int, theirs: int, ahead: nat, rivalAdmits: bool, refill: nat)
    requires c.Valid() && theirs <= mine + Cost(c) * ahead
    requires rivalAdmits ==> theirs >= Cost(c)
    ensures var ahead' := ahead + (if Admits(c, mine) then 1 else 0) - (if rivalAdmits then 1 else 0);
            && ahead' >= 0
            && Min(Capacity(c), theirs - Spent(c, rivalAdmits) + refill)
               <= Min(Capacity(c), mine - Spent(c, Admits(c, mine)) + refill) + Cost(c) * ahead'
  {
    var step := (if Admits(c, mine) then 1 else 0) - (if rivalAdmits then 1 else 0);
    Distribute(Cost(c), ahead, step);
    if ahead + step >= 0 {
      MulMonotone(Cost(c), 0, ahead + step);
    }
  }

  /** How many more requests than the rival the script has admitted among the first n. */
  function Ahead(c: Config, ts: seq<int>, drops: seq<bool>, rival: seq<bool>, n: nat): int
    requires n <= |ts| == |drops| == |rival|
  {
    Count(ExpiringDecisions(c, ts, drops), 0, n) - Count(rival, 0, n)
  }

  lemma {:induction false} RivalNeverAhead(c: Config, ts: seq<int>, drops: seq<bool>, rival: seq<bool>, n: nat)
    requires c.Valid() && Conforms(c, ts, drops, rival) && n < |ts|
    ensures Ahead(c, ts, drops, rival, n) >= 0
    ensures Balance(c, ts, drops, rival, n)
         <= ExpiringAvailAt(c, ts, drops, n) + Cost(c) * Ahead(c, ts, drops, rival, n)
  {
    if n == 0 {
    } else {
      var m := n - 1;
      RivalNeverAhead(c, ts, drops, rival, m);
      ExchangeAt(c, ts, drops, rival, m, Refill(c, ts, n));
      MulMonotone(Cost(c), 0, Ahead(c, ts, drops, rival, n));
    }
  }

  lemma ExchangeAt(c: Config, ts: seq<int>, drops: seq<bool>, rival: seq<bool>, n: nat, refill: int)
    requires c.Valid() && Conforms(c, ts, drops, rival) && n < |ts|
    requires refill == 0 || (n + 1 < |ts| && refill == Refill(c, ts, n + 1))
    requires Ahead(c, ts, drops, rival, n) >= 0
    requires Balance(c, ts, drops, rival, n)
          <= ExpiringAvailAt(c, ts, drops, n) + Cost(c) * Ahead(c, ts, drops, rival, n)
    ensures Ahead(c, ts, drops, rival, n + 1) >= 0
    ensures Min(Capacity(c), Balance(c, ts, drops, rival, n) - Spent(c, rival[n]) + refill)
         <= Min(Capacity(c), Kept(c, ExpiringAvailAt(c, ts, drops, n)) + refill)
            + Cost(c) * Ahead(c, ts, drops, rival, n + 1)
  {
    if rival[n] {
      RivalCanPay(c, ts, drops, rival, n);
    }
    if n + 1 < |ts| {
      MulMonotone(c.limit, 0, Max(0, ts[n + 1] - ts[n]));
    }
    ExchangeStep(c, ExpiringAvailAt(c, ts, drops, n), Balance(c, ts, drops, rival, n),
                 Ahead(c, ts, drops, rival, n), rival[n], refill);
  }

  /** The script keeps the promise, and no other way to admit and reject that keeps it has admitted
      more after any number of requests; for any clocks and any drops. */
  lemma GreedyIsOptimal(c: Config, ts: seq<int>, drops: seq<bool>, rival: seq<bool>, m: nat)
    requires c.Valid() && Conforms(c, ts, drops, rival) && m <= |ts|
    ensures Conforms(c, ts, drops, ExpiringDecisions(c, ts, drops))
    ensures Count(rival, 0, m) <= Count(ExpiringDecisions(c, ts, drops), 0, m)
  {
    ScriptConforms(c, ts, drops);
    if m > 0 {
      RivalNeverAhead(c, ts, drops, rival, m - 1);
      ExchangeAt(c, ts, drops, rival, m - 1, 0);
    }
  }

  // ---- conservation ----

  /** Units left when request n has been decided. */
  function LeftAfter(c: Config, ts: seq<int>, drops: seq<bool>, n: nat): int
    requires n < |ts| == |drops|
  {
    Kept(c, ExpiringAvailAt(c, ts, drops, n))
  }

  /** What request n would find if the bucket had no brim and its key were not dropped. */
  function Offered(c: Config, ts: seq<int>, drops: seq<bool>, n: nat): int
    requires 0 < n < |ts| == |drops|
  {
    LeftAfter(c, ts, drops, n - 1) + Refill(c, ts, n)
  }

  /** Units lost over the brim up to request n. */
  function Spilled(c: Config, ts: seq<int>, drops: seq<bool>, n: nat): nat
    requires n < |ts| == |drops|
  {
    if n == 0 then 0
    else Spilled(c, ts, drops, n - 1) + Max(0, Offered(c, ts, drops, n) - Capacity(c))
  }

  /** Units that drops have added up to request n: a dropped bucket comes back full. */
  function Restored(c: Config, ts: seq<int>, drops: seq<bool>, n: nat): nat
    requires n < |ts| == |drops|
  {
    if n == 0 then 0
    else Restored(c, ts, drops, n - 1) + (if drops[n] then Max(0, Capacity(c) - Offered(c, ts, drops, n)) else 0)
  }

  /** Nothing is created or lost: what is left, what was handed out and what spilled add up to the
      first fill, the refills and what drops have restored; and never is a negative amount left,
      nor as much as a full bucket. */
  lemma {:induction false} Conservation(c: Config, ts: seq<int>, drops: seq<bool>, n: nat)
    requires c.Valid() && n < |ts| == |drops|
    ensures LeftAfter(c, ts, drops, n) + Cost(c) * Count(ExpiringDecisions(c, ts, drops), 0, n + 1)
            + Spilled(c, ts, drops, n)
         == Capacity(c) + c.limit * Forward(ts, 0, n) + Restored(c, ts, drops, n)
    ensures 0 <= LeftAfter(c, ts, drops, n) <= Max(Capacity(c) - Cost(c), Cost(c) - 1)
  {
    var ds := ExpiringDecisions(c, ts, drops);
    ExpiringNonNegative(c, ts, drops, n);
    AvailBounds(c, ExpiringAt(c, ts, drops, n), ts[n]);
    Distribute(Cost(c), Count(ds, 0, n), if ds[n] then 1 else 0);
    if n == 0 {
    } else {
      Conservation(c, ts, drops, n - 1);
      Distribute(c.limit, Forward(ts, 0, n - 1), Max(0, ts[n] - ts[n - 1]));
    }
  }

  // ---- how many of N concurrent requests get through ----

  /** The first `limit` requests all are, whatever the clocks and the store do. */
  lemma {:induction false} FirstLimitAdmitted(c: Config, ts: seq<int>, drops: seq<bool>, n: nat)
    requires c.Valid() && n <= |ts| == |drops| && n <= c.limit
    ensures Count(ExpiringDecisions(c, ts, drops), 0, n) == n
  {
    if n == 0 {
    } else {
      FirstLimitAdmitted(c, ts, drops, n - 1);
      FewBeforeFit(c, ts, drops, n - 1);
    }
  }

  lemma FewFit(c: Config, ts: seq<int>, ds: seq<bool>, k: nat, n: nat)
    requires c.Valid() && k <= n < |ts| == |ds| && Count(ds, k, n) < c.limit
    ensures Fits(c, ts, ds, k, n)
  {
    MulMonotone(Cost(c), Count(ds, k, n) + 1, c.limit);
    MulMonotone(c.limit, 0, Forward(ts, k, n));
  }

  /** A request that fewer than `limit` others precede. */
  lemma FewBeforeFit(c: Config, ts: seq<int>, drops: seq<bool>, n: nat)
    requires c.Valid() && n < |ts| == |drops| && n < c.limit
    ensures Admits(c, ExpiringAvailAt(c, ts, drops, n))
  {
    var ds := ExpiringDecisions(c, ts, drops);
    forall k: nat | k <= n
      ensures Fits(c, ts, ds, k, n)
    {
      FewFit(c, ts, ds, k, n);
    }
    AdmissionCharacterised(c, ts, drops, n);
  }

  /** Whatever the schedule, the clocks and the store do, N requests on a fresh identifier see at
      least min(N, limit) admissions. */
  lemma AtLeastLimit(c: Config, ts: seq<int>, drops: seq<bool>)
    requires c.Valid() && |ts| == |drops|
    ensures Min(|ts|, c.limit) <= Count(ExpiringDecisions(c, ts, drops), 0, |ts|)
  {
    var floor := Min(|ts|, c.limit);
    FirstLimitAdmitted(c, ts, drops, floor);
    CountMonotone(ExpiringDecisions(c, ts, drops), 0, floor, |ts|);
  }

  /** The clock has not refilled a whole token, nor has the key been dropped. */
  predicate NothingGained(c: Config, ts: seq<int>, drops: seq<bool>)
    requires |ts| == |drops|
  {
    |ts| > 0 ==> Survives(drops, 0, |ts| - 1) && c.limit * Forward(ts, 0, |ts| - 1) < Cost(c)
  }

  lemma NoWholeToken(c: Config, a: int, forward: nat)
    requires c.Valid() && a <= c.limit * (1 + 0) + FloorDiv(c.limit * forward, Cost(c)) && c.limit * forward < Cost(c)
    ensures a <= c.limit
  {
    MulMonotone(c.limit, 0, forward);
    QuotientUnique(c.limit * forward, Cost(c), FloorDiv(c.limit * forward, Cost(c)), 0);
  }

  lemma NothingGainedBounds(c: Config, ts: seq<int>, drops: seq<bool>)
    requires c.Valid() && |ts| == |drops| && NothingGained(c, ts, drops)
    ensures Count(ExpiringDecisions(c, ts, drops), 0, |ts|) <= c.limit
  {
    if |ts| > 0 {
      StretchBound(c, ts, drops, 0, |ts| - 1);
      CountNone(ShortDrops(c, ts, drops), 1, |ts|);
      NoWholeToken(c, Count(ExpiringDecisions(c, ts, drops), 0, |ts|), Forward(ts, 0, |ts| - 1));
    }
  }

  /** If, after `limit` admissions, one more would not fit counting back to request k, then k is
      the first request and no whole token has been refilled since. */
  lemma NoFitSinceFirst(c: Config, ts: seq<int>, ds: seq<bool>, k: nat, n: nat)
    requires c.Valid() && k <= n < |ts| == |ds| && !Fits(c, ts, ds, k, n)
    requires c.limit <= n && Count(ds, 0, n) == c.limit
    requires Count(ds, 0, Min(k, c.limit)) == Min(k, c.limit)
    ensures k == 0 && c.limit * Forward(ts, 0, n) < Cost(c)
  {
    if k > 0 {
      CountAfter(ds, Min(k, c.limit), k, n);
      FewFit(c, ts, ds, k, n);
    } else {
      Distribute(Cost(c), c.limit, 1);
    }
  }

  /** If only the first `limit` of more than `limit` requests were admitted, the last one found
      the bucket that the first one had filled, and no whole token more. */
  lemma RejectedAfterLimit(c: Config, ts: seq<int>, drops: seq<bool>, last: nat)
    requires c.Valid() && c.limit <= last && last + 1 == |ts| == |drops|
    requires Count(ExpiringDecisions(c, ts, drops), 0, |ts|) == c.limit
    ensures Survives(drops, 0, last) && c.limit * Forward(ts, 0, last) < Cost(c)
  {
    var ds := ExpiringDecisions(c, ts, drops);
    FirstLimitAdmitted(c, ts, drops, c.limit);
    LastNotCounted(ds, c.limit, last, |ts|);
    var k := RejectedForSomeStretch(c, ts, drops, last);
    FirstLimitAdmitted(c, ts, drops, Min(k, c.limit));
    NoFitSinceFirst(c, ts, ds, k, last);
  }

  /** The claim behind the repository's concurrency test, and exactly when it holds: N requests on
      a fresh identifier see min(N, limit) admissions if and only if there are no more than
      `limit` of them, or the clocks' forward movement has not refilled a whole token and the key
      has not been dropped in between. */
  lemma LimitExactIff(c: Config, ts: seq<int>, drops: seq<bool>)
    requires c.Valid() && |ts| == |drops|
    ensures Count(ExpiringDecisions(c, ts, drops), 0, |ts|) == Min(|ts|, c.limit)
       <==> |ts| <= c.limit || NothingGained(c, ts, drops)
  {
    AtLeastLimit(c, ts, drops);
    if |ts| > c.limit {
      if NothingGained(c, ts, drops) {
        NothingGainedBounds(c, ts, drops);
      }
      if Count(ExpiringDecisions(c, ts, drops), 0, |ts|) == c.limit {
        RejectedAfterLimit(c, ts, drops, |ts| - 1);
      }
    }
  }

  /** The milliseconds in which a whole token is refilled. */
  function TokenTime(c: Config): int
    requires c.Valid()
  {
    CeilDiv(Cost(c), c.limit)
  }

  /** `limit` requests at once, and one more when a token has been refilled. */
  function OneTooMany(c: Config): (ts: seq<int>)
    requires c.Valid()
    ensures |ts| == c.limit + 1
  {
    seq(c.limit + 1, i => if i < c.limit then 0 else TokenTime(c))
  }

  /** So the limit can be exceeded: within 36 seconds, for the test's 100 requests an hour. */
  lemma LimitExceeded(c: Config)
    requires c.Valid()
    ensures Count(ExpiringDecisions(c, OneTooMany(c), Never(c.limit + 1)), 0, c.limit + 1) == c.limit + 1
    ensures TokenTime(Config(100, 3600)) == 36000
  {
    var ts, drops := OneTooMany(c), Never(c.limit + 1);
    MulMonotone(c.limit, TokenTime(c), Forward(ts, 0, c.limit));
    LimitExactIff(c, ts, drops);
    AtLeastLimit(c, ts, drops);
  }

  // ---- clock skew ----

  /** Every script ran at some true time `at[i]`, in order; its timestamp was read at most
      `late` before and is at most `early` ahead of it. */
  predicate Skewed(ts: seq<int>, at: seq<int>, late: nat, early: nat) {
    && |at| == |ts|
    && Nondecreasing(at)
    && forall i :: 0 <= i < |ts| ==> at[i] - late <= ts[i] <= at[i] + early
  }

  /** The time a stretch of requests spans, and one skew for each step. */
  function Span(ts: seq<int>, skew: nat, k: nat, n: nat): int
    requires k <= n < |ts|
  {
    ts[n] - ts[k] + (n - k) * skew
  }

  function SkewGrants(c: Config, ts: seq<int>, skew: nat): (grants: seq<int>)
    ensures |grants| == |ts|
    ensures forall n :: 0 < n < |ts| ==> grants[n] == c.limit * (ts[n] - ts[n - 1] + skew)
  {
    seq(|ts|, n requires 0 <= n < |ts| => if n == 0 then 0 else c.limit * (ts[n] - ts[n - 1] + skew))
  }

  lemma {:induction false} SkewGranted(c: Config, ts: seq<int>, skew: nat, k: nat, n: nat)
    requires k <= n < |ts|
    ensures Granted(SkewGrants(c, ts, skew), k, n) == c.limit * Span(ts, skew, k, n)
  {
    if k == n {
    } else {
      SkewGranted(c, ts, skew, k, n - 1);
      Distribute(skew, n - 1 - k, 1);
      Distribute(c.limit, Span(ts, skew, k, n - 1), ts[n] - ts[n - 1] + skew);
    }
  }

  /** Between two scripts the clocks move forward, but for the skew, as far as Redis's does: the
      gap of two windows before a drop refills more than a full bucket. */
  lemma SkewGrantCovers(c: Config, ts: seq<int>, at: seq<int>, late: nat, early: nat, m: nat, n: nat)
    requires c.Valid() && Skewed(ts, at, late, early) && m + 1 == n < |ts|
    ensures SkewGrants(c, ts, late + early)[n] >= Refill(c, ts, n)
    ensures IdleDrops(c, at)[n] ==> SkewGrants(c, ts, late + early)[n] >= Capacity(c)
  {
    assert at[m] <= at[n];
    StepCovers(c, ts[n] - ts[m], at[n] - at[m], late + early);
  }

  lemma SkewGrantsGrant(c: Config, ts: seq<int>, at: seq<int>, late: nat, early: nat)
    requires c.Valid() && Skewed(ts, at, late, early)
    ensures Grants(c, ts, IdleDrops(c, at), SkewGrants(c, ts, late + early))
  {
    forall n: nat | 0 < n < |ts|
      ensures var grant := SkewGrants(c, ts, late + early)[n];
              grant >= Refill(c, ts, n) && (IdleDrops(c, at)[n] ==> grant >= Capacity(c))
    {
      SkewGrantCovers(c, ts, at, late, early, n - 1, n);
    }
  }

  lemma StepCovers(c: Config, step: int, gap: nat, skew: nat)
    requires c.Valid() && gap - skew <= step
    ensures c.limit * (step + skew) >= c.limit * Max(0, step)
    ensures gap >= 2000 * c.window ==> c.limit * (step + skew) >= Capacity(c)
  {
    MulMonotone(c.limit, Max(0, step), step + skew);
    if gap >= 2000 * c.window {
      MulMonotone(c.limit, 1000 * c.window, step + skew);
    }
  }

  /** Every stretch k..n of a skewed run admits at most limit plus the refill of its span and
      one skew a request; with monotone exact clocks the skew term is 0. The store's expiry adds
      nothing, however large the skew. */
  lemma SkewBound(c: Config, ts: seq<int>, at: seq<int>, late: nat, early: nat, k: nat, n: nat)
    requires c.Valid() && Skewed(ts, at, late, early) && k <= n < |ts|
    ensures Count(ExpiringDecisions(c, ts, IdleDrops(c, at)), k, n + 1)
         <= c.limit + FloorDiv(c.limit * Span(ts, late + early, k, n), Cost(c))
  {
    var ds, grants := ExpiringDecisions(c, ts, IdleDrops(c, at)), SkewGrants(c, ts, late + early);
    SkewGrantsGrant(c, ts, at, late, early);
    StretchWithinGrants(c, ts, IdleDrops(c, at), grants, k, n);
    SkewGranted(c, ts, late + early, k, n);
    AtMostFloor(Cost(c), Count(ds, k, n + 1), c.limit, c.limit * Span(ts, late + early, k, n));
  }

  // ---- what a reply says about later requests ----

  lemma DroppedIsAdmitted(c: Config, ts: seq<int>, drops: seq<bool>, n: nat)
    requires c.Valid() && n < |ts| == |drops| && drops[n]
    ensures ExpiringAvailAt(c, ts, drops, n) == Capacity(c) && ExpiringDecisions(c, ts, drops)[n]
  {
    Sizes(c);
  }

  /** What `left` units have become when the clock has moved forward by `moved`. */
  function FilledUp(c: Config, left: int, moved: nat): int {
    Min(Capacity(c), left + c.limit * moved)
  }

  lemma NextFinds(c: Config, ts: seq<int>, drops: seq<bool>, m: nat, n: nat)
    requires m + 1 == n < |ts| == |drops| && !drops[n]
    ensures ExpiringAvailAt(c, ts, drops, n) == FilledUp(c, LeftAfter(c, ts, drops, m), Max(0, ts[n] - ts[m]))
  {
  }

  lemma StillRefilling(c: Config, left: int, moved: nat, step: nat, both: nat)
    requires c.Valid() && both == moved + step && !Admits(c, FilledUp(c, left, moved))
    ensures FilledUp(c, Kept(c, FilledUp(c, left, moved)), step) == FilledUp(c, left, both)
  {
    Sizes(c);
    Distribute(c.limit, moved, step);
  }

  lemma RejectedOnce(c: Config, ts: seq<int>, drops: seq<bool>, i: nat, m: nat, n: nat)
    requires c.Valid() && i <= m && m + 1 == n < |ts| == |drops| && !drops[n]
    requires ExpiringAvailAt(c, ts, drops, m) == FilledUp(c, LeftAfter(c, ts, drops, i), Forward(ts, i, m))
    requires !ExpiringDecisions(c, ts, drops)[m]
    ensures ExpiringAvailAt(c, ts, drops, n) == FilledUp(c, LeftAfter(c, ts, drops, i), Forward(ts, i, n))
  {
    NextFinds(c, ts, drops, m, n);
    StillRefilling(c, LeftAfter(c, ts, drops, i), Forward(ts, i, m), Max(0, ts[n] - ts[m]), Forward(ts, i, n));
  }

  /** As long as nothing is admitted, the bucket refills as if nobody had asked; and its key has
      not been dropped. */
  lemma {:induction false} RejectedSince(c: Config, ts: seq<int>, drops: seq<bool>, i: nat, j: nat)
    requires c.Valid() && i < j < |ts| == |drops| && !drops[j]
    requires forall m :: i < m < j ==> !ExpiringDecisions(c, ts, drops)[m]
    ensures Survives(drops, i, j)
    ensures ExpiringAvailAt(c, ts, drops, j) == FilledUp(c, LeftAfter(c, ts, drops, i), Forward(ts, i, j))
  {
    var m := j - 1;
    if i == m {
      NextFinds(c, ts, drops, i, j);
    } else {
      if drops[m] {
        DroppedIsAdmitted(c, ts, drops, m);
      }
      RejectedSince(c, ts, drops, i, m);
      RejectedOnce(c, ts, drops, i, m, j);
    }
  }

  /** The rounding behind Retry-After and reset_at: after one second less than CeilDiv says the
      missing units have not been refilled, after that many seconds they have. */
  lemma RefillRounds(limit: int, missing: int, elapsed: int)
    requires limit >= 1
    ensures var secs := CeilDiv(missing, 1000 * limit);
            && (elapsed <= 1000 * (secs - 1) ==> limit * elapsed < missing)
            && (elapsed >= 1000 * secs ==> limit * elapsed >= missing)
  {
    var secs := CeilDiv(missing, 1000 * limit);
    assert limit * (1000 * (secs - 1)) == 1000 * limit * secs - 1000 * limit;
    assert limit * (1000 * secs) == 1000 * limit * secs;
    if elapsed <= 1000 * (secs - 1) {
      MulMonotone(limit, elapsed, 1000 * (secs - 1));
    } else if elapsed >= 1000 * secs {
      MulMonotone(limit, 1000 * secs, elapsed);
    }
  }

  /** One second before Retry-After is too early, Retry-After is enough. */
  lemma RetryAfterRounds(c: Config, units: int, elapsed: nat)
    requires c.Valid() && units < Cost(c)
    ensures var r := CeilDiv(Cost(c) - units, 1000 * c.limit);
            && (elapsed <= 1000 * (r - 1) ==> FilledUp(c, units, elapsed) < Cost(c))
            && (elapsed >= 1000 * r ==> FilledUp(c, units, elapsed) >= Cost(c))
  {
    Sizes(c);
    RefillRounds(c.limit, Cost(c) - units, elapsed);
  }

  lemma {:induction false} RejectedUntil(c: Config, ts: seq<int>, drops: seq<bool>, i: nat, j: nat)
    requires c.Valid() && i <= j < |ts| == |drops| && !ExpiringDecisions(c, ts, drops)[i] && Survives(drops, i, j)
    requires Forward(ts, i, j) <= 1000 * (ExpiringReplyAt(c, ts, drops, i).retryAfter - 1)
    ensures forall m :: i <= m <= j ==> !ExpiringDecisions(c, ts, drops)[m]
  {
    if i == j {
    } else {
      RejectedUntil(c, ts, drops, i, j - 1);
      RejectedSince(c, ts, drops, i, j);
      RetryAfterRounds(c, LeftAfter(c, ts, drops, i), Forward(ts, i, j));
    }
  }

  predicate NoneAdmitted(c: Config, ts: seq<int>, drops: seq<bool>, i: nat, j: nat)
    requires i <= j < |ts| == |drops|
  {
    forall m :: i < m <= j ==> !ExpiringDecisions(c, ts, drops)[m]
  }

  /** Retry-After is sound and tight, for any clocks, by how far they have moved forward since
      request i was rejected with value R: up to 1000 * (R - 1) ms nothing is admitted exactly as
      long as the key survives, and the first request at 1000 * R ms or more is admitted, unless
      another one was in between. */
  lemma RetryAfterSoundAndTight(c: Config, ts: seq<int>, drops: seq<bool>, i: nat, j: nat)
    requires c.Valid() && i < j < |ts| == |drops| && !ExpiringDecisions(c, ts, drops)[i]
    ensures var r := ExpiringReplyAt(c, ts, drops, i).retryAfter;
            && (Forward(ts, i, j) <= 1000 * (r - 1) ==> (NoneAdmitted(c, ts, drops, i, j) <==> Survives(drops, i, j)))
            && (Forward(ts, i, j) >= 1000 * r && NoneAdmitted(c, ts, drops, i, j - 1)
                ==> ExpiringDecisions(c, ts, drops)[j])
  {
    var r := ExpiringReplyAt(c, ts, drops, i).retryAfter;
    if drops[j] {
      DroppedIsAdmitted(c, ts, drops, j);
    } else if NoneAdmitted(c, ts, drops, i, j - 1) {
      RejectedSince(c, ts, drops, i, j);
      RetryAfterRounds(c, LeftAfter(c, ts, drops, i), Forward(ts, i, j));
    }
    if Forward(ts, i, j) <= 1000 * (r - 1) && Survives(drops, i, j) {
      RejectedUntil(c, ts, drops, i, j);
    }
  }

  /** How far a clock that does not go back has moved forward. */
  lemma {:induction false} ForwardIsElapsed(ts: seq<int>, i: nat, j: nat)
    requires Nondecreasing(ts) && i <= j < |ts|
    ensures Forward(ts, i, j) == ts[j] - ts[i]
  {
    if i == j {
    } else {
      ForwardIsElapsed(ts, i, j - 1);
    }
  }

  lemma {:induction false} ForwardAtLeast(ts: seq<int>, i: nat, j: nat)
    requires i <= j < |ts|
    ensures Forward(ts, i, j) >= ts[j] - ts[i]
  {
    if i == j {
    } else {
      ForwardAtLeast(ts, i, j - 1);
    }
  }

  /** A bucket holding `whole` tokens and a fraction gives out one or, without any, none. */
  lemma TakeOne(c: Config, units: int, whole: nat)
    requires c.Valid() && FloorDiv(units, Cost(c)) == whole
    ensures Admits(c, units) == (whole > 0)
    ensures FloorDiv(Kept(c, units), Cost(c)) == Max(0, whole - 1)
  {
    if whole > 0 {
      MulMonotone(Cost(c), 1, whole);
      assert Cost(c) * (whole - 1) == Cost(c) * whole - Cost(c);
      QuotientUnique(units - Cost(c), Cost(c), FloorDiv(units - Cost(c), Cost(c)), whole - 1);
    }
  }

  lemma WholeTokensLeft(c: Config, units: int)
    requires c.Valid() && 0 <= units < Capacity(c)
    ensures 0 <= FloorDiv(units, Cost(c)) < c.limit
  {
    var q := FloorDiv(units, Cost(c));
    if q < 0 {
      MulMonotone(Cost(c), q, -1);
    } else if q >= c.limit {
      MulMonotone(Cost(c), c.limit, q);
    }
  }

  lemma RemainingBounds(c: Config, ts: seq<int>, drops: seq<bool>, n: nat)
    requires c.Valid() && n < |ts| == |drops|
    ensures 0 <= ExpiringReplyAt(c, ts, drops, n).remaining < c.limit
  {
    ExpiringNonNegative(c, ts, drops, n);
    AvailBounds(c, ExpiringAt(c, ts, drops, n), ts[n]);
    WholeTokensLeft(c, LeftAfter(c, ts, drops, n));
  }

  lemma FullReply(c: Config, t: int)
    requires c.Valid()
    ensures ReplyFor(c, Capacity(c), t).allowed && ReplyFor(c, Capacity(c), t).remaining == c.limit - 1
  {
    Sizes(c);
    assert Cost(c) * (c.limit - 1) == Capacity(c) - Cost(c);
    QuotientUnique(Capacity(c) - Cost(c), Cost(c), FloorDiv(Capacity(c) - Cost(c), Cost(c)), c.limit - 1);
  }

  /** Request n is told what the `remaining` of request i announced for the (n - i)-th after it. */
  predicate AsAnnounced(c: Config, ts: seq<int>, drops: seq<bool>, i: nat, n: nat)
    requires c.Valid() && i <= n < |ts| == |drops|
  {
    var m := ExpiringReplyAt(c, ts, drops, i).remaining;
    && ExpiringReplyAt(c, ts, drops, n).allowed == (n - i <= m)
    && ExpiringReplyAt(c, ts, drops, n).remaining == Max(0, m - (n - i))
  }

  lemma StillThere(c: Config, ts: seq<int>, drops: seq<bool>, m: nat, n: nat)
    requires c.Valid() && m + 1 == n < |ts| == |drops| && ts[n] <= ts[m] && !drops[n]
    ensures ExpiringAvailAt(c, ts, drops, n) == LeftAfter(c, ts, drops, m)
  {
    ExpiringNonNegative(c, ts, drops, m);
    AvailBounds(c, ExpiringAt(c, ts, drops, m), ts[m]);
  }

  lemma {:induction false} Drains(c: Config, ts: seq<int>, drops: seq<bool>, i: nat, n: nat)
    requires c.Valid() && i <= n < |ts| == |drops| && Forward(ts, i, n) == 0 && Survives(drops, i, n)
    ensures ExpiringReplyAt(c, ts, drops, n).remaining == Max(0, ExpiringReplyAt(c, ts, drops, i).remaining - (n - i))
    ensures i < n ==> AsAnnounced(c, ts, drops, i, n)
  {
    RemainingBounds(c, ts, drops, i);
    if i == n {
    } else {
      var m := n - 1;
      Drains(c, ts, drops, i, m);
      StillThere(c, ts, drops, m, n);
      TakeOne(c, LeftAfter(c, ts, drops, m), ExpiringReplyAt(c, ts, drops, m).remaining);
    }
  }

  lemma DropNotAnnounced(c: Config, ts: seq<int>, drops: seq<bool>, i: nat, n: nat)
    requires c.Valid() && i < n < |ts| == |drops| && drops[n]
    ensures !AsAnnounced(c, ts, drops, i, n)
  {
    DroppedIsAdmitted(c, ts, drops, n);
    FullReply(c, ts[n]);
    RemainingBounds(c, ts, drops, i);
  }

  /** `remaining` is exact: after a reply reporting m, and while the clock does not go forward, the
      next requests are admitted reporting m-1, m-2, ..., 0 and all after those are rejected,
      exactly as long as the key survives. */
  lemma RemainingExact(c: Config, ts: seq<int>, drops: seq<bool>, i: nat, j: nat)
    requires c.Valid() && i < j < |ts| == |drops| && Forward(ts, i, j) == 0
    ensures (forall n :: i < n <= j ==> AsAnnounced(c, ts, drops, i, n)) <==> Survives(drops, i, j)
  {
    forall n: nat | i < n <= j
      ensures Survives(drops, i, j) ==> AsAnnounced(c, ts, drops, i, n)
      ensures drops[n] ==> !AsAnnounced(c, ts, drops, i, n)
    {
      if drops[n] {
        DropNotAnnounced(c, ts, drops, i, n);
      } else if Survives(drops, i, j) {
        ForwardGrows(ts, i, n, j);
        Drains(c, ts, drops, i, n);
      }
    }
  }

  lemma {:induction false} ForwardGrows(ts: seq<int>, i: nat, m: nat, n: nat)
    requires i <= m <= n < |ts|
    ensures Forward(ts, i, m) <= Forward(ts, i, n)
  {
    if m == n {
    } else {
      ForwardGrows(ts, i, m, n - 1);
    }
  }

  lemma SecondsToFull(c: Config, kept: int)
    requires c.Valid() && 0 <= kept < Capacity(c)
    ensures 1 <= CeilDiv(Capacity(c) - kept, 1000 * c.limit) <= c.window
  {
    var secs := CeilDiv(Capacity(c) - kept, 1000 * c.limit);
    Sizes(c);
    CeilDivLeast(Capacity(c) - kept, 1000 * c.limit, c.window);
    if secs < 1 {
      MulMonotone(1000 * c.limit, secs, 0);
    }
  }

  lemma ResetRounds(c: Config, kept: int, now: int, elapsed: nat)
    requires c.Valid() && 0 <= kept < Capacity(c)
    ensures var resetAt := FloorDiv(now, 1000) + CeilDiv(Capacity(c) - kept, 1000 * c.limit);
            && 1 <= resetAt - FloorDiv(now, 1000) <= c.window
            && (elapsed >= 1000 * (resetAt - FloorDiv(now, 1000)) ==> FilledUp(c, kept, elapsed) == Capacity(c))
            && (elapsed <= 1000 * (resetAt - FloorDiv(now, 1000) - 1) ==> FilledUp(c, kept, elapsed) < Capacity(c))
            && (now + elapsed >= 1000 * resetAt + 999 ==> FilledUp(c, kept, elapsed) == Capacity(c))
            && (now + elapsed <= 1000 * (resetAt - 1) ==> FilledUp(c, kept, elapsed) < Capacity(c))
  {
    SecondsToFull(c, kept);
    RefillRounds(c.limit, Capacity(c) - kept, elapsed);
  }

  /** reset_at is in the future by 1 to window seconds: as many whole seconds as the bucket needs.
      When request j comes, none having been admitted since request i, and the clock has moved
      forward that far, the bucket is full; if it has moved a second less, the bucket is full exactly
      if the key has been dropped. Hence also by the second that request i was told. */
  lemma ResetAtAccurate(c: Config, ts: seq<int>, drops: seq<bool>, i: nat, j: nat)
    requires c.Valid() && i < j < |ts| == |drops| && NoneAdmitted(c, ts, drops, i, j - 1)
    ensures var resetAt, now := ExpiringReplyAt(c, ts, drops, i).resetAt, ts[i] + Forward(ts, i, j);
            var secs := resetAt - FloorDiv(ts[i], 1000);
            && 1 <= secs <= c.window
            && (Forward(ts, i, j) >= 1000 * secs ==> ExpiringAvailAt(c, ts, drops, j) == Capacity(c))
            && (Forward(ts, i, j) <= 1000 * (secs - 1)
                ==> (ExpiringAvailAt(c, ts, drops, j) == Capacity(c) <==> drops[j]))
            && (now >= 1000 * resetAt + 999 ==> ExpiringAvailAt(c, ts, drops, j) == Capacity(c))
            && (now <= 1000 * (resetAt - 1) ==> (ExpiringAvailAt(c, ts, drops, j) == Capacity(c) <==> drops[j]))
  {
    ExpiringNonNegative(c, ts, drops, i);
    AvailBounds(c, ExpiringAt(c, ts, drops, i), ts[i]);
    ResetRounds(c, LeftAfter(c, ts, drops, i), ts[i], Forward(ts, i, j));
    if drops[j] {
      DroppedIsAdmitted(c, ts, drops, j);
    } else {
      RejectedSince(c, ts, drops, i, j);
    }
  }

  // ---- deleting rejections ----

  /** `keep` deletes rejected requests only. */
  ghost predicate KeepsAdmitted(c: Config, ts: seq<int>, drops: seq<bool>, keep: seq<bool>) {
    && |keep| == |ts| == |drops|
    && forall i :: 0 <= i < |ts| && ExpiringDecisions(c, ts, drops)[i] ==> keep[i]
  }

  /** The last kept request before n. */
  function LastKept(keep: seq<bool>, n: nat): (i: nat)
    requires 0 < n <= |keep| && keep[0]
    ensures i < n && keep[i]
    ensures forall m :: i < m < n ==> !keep[m]
  {
    if keep[n - 1] then n - 1 else LastKept(keep, n - 1)
  }

  lemma {:induction false} LastKeptPlace(keep: seq<bool>, n: nat)
    requires 0 < n <= |keep| && keep[0]
    ensures Count(keep, 0, n) == Count(keep, 0, LastKept(keep, n)) + 1
  {
    if keep[n - 1] {
    } else {
      LastKeptPlace(keep, n - 1);
    }
  }

  /** From one kept request to the next the clock has not gone back and forth: leaving out what is
      in between leaves its forward movement as it is. */
  predicate Unswerving(ts: seq<int>, keep: seq<bool>) {
    && |keep| == |ts|
    && (|ts| > 0 ==> keep[0])
    && forall n :: 0 < n < |ts| && keep[n] ==>
         Forward(ts, LastKept(keep, n), n) == Max(0, ts[n] - ts[LastKept(keep, n)])
  }

  lemma ForwardClocksUnswerving(ts: seq<int>, keep: seq<bool>)
    requires Nondecreasing(ts) && |keep| == |ts| && (|ts| > 0 ==> keep[0])
    ensures Unswerving(ts, keep)
  {
    forall n | 0 < n < |ts| && keep[n]
      ensures Forward(ts, LastKept(keep, n), n) == Max(0, ts[n] - ts[LastKept(keep, n)])
    {
      ForwardIsElapsed(ts, LastKept(keep, n), n);
    }
  }

  /** A run and, without some of its rejected requests, its other run: whose keys are dropped
      wherever they were, and perhaps elsewhere, since requests have become rarer. */
  ghost predicate Deletion(c: Config, ts: seq<int>, drops: seq<bool>, keep: seq<bool>, drops': seq<bool>) {
    && KeepsAdmitted(c, ts, drops, keep) && Unswerving(ts, keep)
    && |drops'| == Count(keep, 0, |ts|)
    && forall n: nat | n < |ts| && keep[n] ::
         Count(keep, 0, n) < |drops'| && (drops[n] ==> drops'[Count(keep, 0, n)])
  }

  /** What the kept request n finds in the other run, and is told there. */
  function OtherAvailAt(c: Config, ts: seq<int>, keep: seq<bool>, drops': seq<bool>, n: nat): int
    requires n < |ts| == |keep| && keep[n] && |drops'| == Count(keep, 0, |ts|)
  {
    PickedAt(ts, keep, n, |ts|);
    ExpiringAvailAt(c, Pick(ts, keep, |ts|), drops', Count(keep, 0, n))
  }

  function OtherReplyAt(c: Config, ts: seq<int>, keep: seq<bool>, drops': seq<bool>, n: nat): Reply
    requires c.Valid() && n < |ts| == |keep| && keep[n] && |drops'| == Count(keep, 0, |ts|)
  {
    PickedAt(ts, keep, n, |ts|);
    ExpiringReplyAt(c, Pick(ts, keep, |ts|), drops', Count(keep, 0, n))
  }

  lemma SameFromLastKept(c: Config, ts: seq<int>, drops: seq<bool>, keep: seq<bool>, drops': seq<bool>, i: nat, n: nat)
    requires c.Valid() && Deletion(c, ts, drops, keep, drops')
    requires 0 < n < |ts| && keep[n] && i == LastKept(keep, n)
    requires OtherAvailAt(c, ts, keep, drops', i) == ExpiringAvailAt(c, ts, drops, i)
    requires !drops'[Count(keep, 0, n)]
    ensures OtherAvailAt(c, ts, keep, drops', n) == ExpiringAvailAt(c, ts, drops, n)
  {
    RejectedSince(c, ts, drops, i, n);
    LastKeptPlace(keep, n);
    PickedAt(ts, keep, i, |ts|);
    PickedAt(ts, keep, n, |ts|);
    NextFinds(c, Pick(ts, keep, |ts|), drops', Count(keep, 0, i), Count(keep, 0, n));
  }

  /** If the other run drops the key before the kept request n, the bucket is full in this one. */
  predicate HiddenAt(c: Config, ts: seq<int>, drops: seq<bool>, keep: seq<bool>, drops': seq<bool>, n: nat)
    requires n < |ts| == |drops| == |keep| && keep[n] && |drops'| == Count(keep, 0, |ts|)
  {
    PickedAt(ts, keep, n, |ts|);
    drops'[Count(keep, 0, n)] ==> ExpiringAvailAt(c, ts, drops, n) == Capacity(c)
  }

  ghost predicate HiddenUpTo(c: Config, ts: seq<int>, drops: seq<bool>, keep: seq<bool>, drops': seq<bool>, n: nat)
    requires n <= |ts| == |drops| == |keep| && |drops'| == Count(keep, 0, |ts|)
  {
    forall m: nat | m < n && keep[m] :: HiddenAt(c, ts, drops, keep, drops', m)
  }

  lemma {:induction false} OtherFinds(c: Config, ts: seq<int>, drops: seq<bool>, keep: seq<bool>, drops': seq<bool>,
        n: nat)
    requires c.Valid() && Deletion(c, ts, drops, keep, drops') && n < |ts| && keep[n]
    requires HiddenUpTo(c, ts, drops, keep, drops', n)
    ensures OtherAvailAt(c, ts, keep, drops', n)
         == if drops'[Count(keep, 0, n)] then Capacity(c) else ExpiringAvailAt(c, ts, drops, n)
  {
    if n == 0 || drops'[Count(keep, 0, n)] {
    } else {
      var i := LastKept(keep, n);
      OtherFinds(c, ts, drops, keep, drops', i);
      assert HiddenAt(c, ts, drops, keep, drops', i);
      SameFromLastKept(c, ts, drops, keep, drops', i, n);
    }
  }

  predicate SameReplyAt(c: Config, ts: seq<int>, drops: seq<bool>, keep: seq<bool>, drops': seq<bool>, n: nat)
    requires c.Valid() && n < |ts| == |drops| == |keep| && keep[n] && |drops'| == Count(keep, 0, |ts|)
  {
    OtherReplyAt(c, ts, keep, drops', n) == ExpiringReplyAt(c, ts, drops, n)
  }

  lemma SameReplyIffHidden(c: Config, ts: seq<int>, drops: seq<bool>, keep: seq<bool>, drops': seq<bool>, n: nat)
    requires c.Valid() && Deletion(c, ts, drops, keep, drops') && n < |ts| && keep[n]
    requires HiddenUpTo(c, ts, drops, keep, drops', n)
    ensures SameReplyAt(c, ts, drops, keep, drops', n) <==> HiddenAt(c, ts, drops, keep, drops', n)
  {
    OtherFinds(c, ts, drops, keep, drops', n);
    PickedAt(ts, keep, n, |ts|);
    ExpiringNonNegative(c, ts, drops, n);
    FullBucketIsVisible(c, ExpiringAvailAt(c, ts, drops, n), ts[n]);
  }

  /** All replies that both runs give are the same. */
  ghost predicate SameReplies(c: Config, ts: seq<int>, drops: seq<bool>, keep: seq<bool>, drops': seq<bool>)
    requires c.Valid() && |ts| == |drops| == |keep| && |drops'| == Count(keep, 0, |ts|)
  {
    forall m: nat | m < |ts| && keep[m] :: SameReplyAt(c, ts, drops, keep, drops', m)
  }

  lemma HiddenNext(c: Config, ts: seq<int>, drops: seq<bool>, keep: seq<bool>, drops': seq<bool>, m: nat, n: nat)
    requires m + 1 == n <= |ts| == |drops| == |keep| && |drops'| == Count(keep, 0, |ts|)
    requires HiddenUpTo(c, ts, drops, keep, drops', m) && (keep[m] ==> HiddenAt(c, ts, drops, keep, drops', m))
    ensures HiddenUpTo(c, ts, drops, keep, drops', n)
  {
  }

  lemma {:induction false} SameMeansHidden(c: Config, ts: seq<int>, drops: seq<bool>, keep: seq<bool>,
        drops': seq<bool>, n: nat)
    requires c.Valid() && Deletion(c, ts, drops, keep, drops') && n <= |ts|
    requires SameReplies(c, ts, drops, keep, drops')
    ensures HiddenUpTo(c, ts, drops, keep, drops', n)
  {
    if n == 0 {
    } else {
      var m := n - 1;
      SameMeansHidden(c, ts, drops, keep, drops', m);
      if keep[m] {
        SameReplyIffHidden(c, ts, drops, keep, drops', m);
        assert SameReplyAt(c, ts, drops, keep, drops', m);
      }
      HiddenNext(c, ts, drops, keep, drops', m, n);
    }
  }

  /** Deleting rejected requests leaves every other reply the same exactly when the other run drops
      only buckets that are full in this one; for any drops in this one. */
  lemma DeletionIff(c: Config, ts: seq<int>, drops: seq<bool>, keep: seq<bool>, drops': seq<bool>)
    requires c.Valid() && Deletion(c, ts, drops, keep, drops')
    ensures SameReplies(c, ts, drops, keep, drops') <==> HiddenUpTo(c, ts, drops, keep, drops', |ts|)
  {
    if HiddenUpTo(c, ts, drops, keep, drops', |ts|) {
      forall m: nat | m < |ts| && keep[m]
        ensures SameReplyAt(c, ts, drops, keep, drops', m)
      {
        SameReplyIffHidden(c, ts, drops, keep, drops', m);
      }
    }
    if SameReplies(c, ts, drops, keep, drops') {
      SameMeansHidden(c, ts, drops, keep, drops', |ts|);
    }
  }

  /** Where the clock has moved forward by a window since the last kept request, the bucket is full. */
  lemma FullAfterWindow(c: Config, ts: seq<int>, drops: seq<bool>, keep: seq<bool>, n: nat)
    requires c.Valid() && KeepsAdmitted(c, ts, drops, keep) && 0 < n < |ts| && keep[0]
    requires ts[n] - ts[LastKept(keep, n)] >= 1000 * c.window
    ensures ExpiringAvailAt(c, ts, drops, n) == Capacity(c)
  {
    var i := LastKept(keep, n);
    if drops[n] {
      DroppedIsAdmitted(c, ts, drops, n);
    } else {
      RejectedSince(c, ts, drops, i, n);
      ExpiringNonNegative(c, ts, drops, i);
      ForwardAtLeast(ts, i, n);
      MulMonotone(c.limit, 1000 * c.window, Forward(ts, i, n));
    }
  }

  /** It is not so when the clock goes back and forth: a rejection moves the stored time back with
      it, and the way forward again refills the bucket. The second of these three requests is
      rejected, and the third is admitted only because the second was made. */
  lemma BackwardRejectionCounts()
    ensures var c, ts := Config(1, 10), [10000, 0, 10000];
            && !AdmitsAt(c, None, ts, 1) && AdmitsAt(c, None, ts, 2)
            && !AdmitsAt(c, None, [ts[0], ts[2]], 1)
  {
    var c, ts := Config(1, 10), [10000, 0, 10000];
    assert LevelAt(c, None, ts, 1) == Some(Level(0, 10000));
    assert LevelAt(c, None, ts, 2) == Some(Level(0, 0));
    assert LevelAt(c, None, [ts[0], ts[2]], 1) == Some(Level(0, 10000));
  }

  // ---- expiry ----

  /** A reply tells a full bucket from any other. */
  lemma FullBucketIsVisible(c: Config, avail: int, t: int)
    requires c.Valid() && 0 <= avail <= Capacity(c)
    ensures ReplyFor(c, avail, t) == ReplyFor(c, Capacity(c), t) <==> avail == Capacity(c)
  {
    Sizes(c);
    if avail < Capacity(c) && Admits(c, avail) {
      var q := FloorDiv(avail - Cost(c), Cost(c));
      var full := FloorDiv(Capacity(c) - Cost(c), Cost(c));
      assert Cost(c) * (c.limit - 1) == Capacity(c) - Cost(c);
      QuotientUnique(Capacity(c) - Cost(c), Cost(c), full, c.limit - 1);
      if q == full {
        assert false;
      }
    }
  }

  /** A store that drops keys gives the same replies as one that never does exactly when every
      key it drops would have refilled to capacity by then. */
  lemma {:induction false} ExpiryUnobservableIff(c: Config, ts: seq<int>, drops: seq<bool>)
    requires c.Valid() && |ts| == |drops|
    ensures (forall n :: 0 <= n < |ts| ==> ExpiringReplyAt(c, ts, drops, n) == ReplyAt(c, None, ts, n))
       <==> DropsOnlyFull(c, ts, drops)
  {
    if n: nat :| n < |ts| && drops[n] && AvailAt(c, None, ts, n) != Capacity(c) {
      var first := FirstShortDrop(c, ts, drops, n);
      ExpirySimulates(c, ts, drops, first);
      LevelAtNonNegative(c, None, ts, first);
      AvailBounds(c, LevelAt(c, None, ts, first), ts[first]);
      FullBucketIsVisible(c, AvailAt(c, None, ts, first), ts[first]);
      assert ExpiringReplyAt(c, ts, drops, first) != ReplyAt(c, None, ts, first);
    } else {
      SameDecisions(c, ts, drops);
    }
  }

  lemma {:induction false} FirstShortDrop(c: Config, ts: seq<int>, drops: seq<bool>, n: nat) returns (first: nat)
    requires n < |ts| == |drops| && drops[n] && AvailAt(c, None, ts, n) != Capacity(c)
    ensures first <= n && drops[first] && AvailAt(c, None, ts, first) != Capacity(c)
    ensures forall m :: 0 <= m < first && drops[m] ==> AvailAt(c, None, ts, m) == Capacity(c)
  {
    if m: nat :| m < n && drops[m] && AvailAt(c, None, ts, m) != Capacity(c) {
      first := FirstShortDrop(c, ts, drops, m);
    } else {
      first := n;
    }
  }

  /** Twice the window idle on Redis's clock is at least once the window on the API's clocks. */
  predicate GapsAgree(c: Config, ts: seq<int>, redisMs: seq<int>) {
    && |redisMs| == |ts|
    && forall n :: 0 < n < |ts| && redisMs[n] >= redisMs[n - 1] + 2000 * c.window
         ==> ts[n] >= ts[n - 1] + 1000 * c.window
  }

  /** The TTL of twice the window cannot be noticed, as long as the clocks agree that far. */
  lemma TtlUnobservable(c: Config, ts: seq<int>, redisMs: seq<int>)
    requires c.Valid() && GapsAgree(c, ts, redisMs)
    ensures DropsOnlyFull(c, ts, IdleDrops(c, redisMs))
    ensures forall n :: 0 <= n < |ts| ==> ExpiringReplyAt(c, ts, IdleDrops(c, redisMs), n) == ReplyAt(c, None, ts, n)
  {
    var drops := IdleDrops(c, redisMs);
    forall m | 0 <= m < |ts| && drops[m]
      ensures AvailAt(c, None, ts, m) == Capacity(c)
    {
      LevelAtNonNegative(c, None, ts, m);
      MulMonotone(c.limit, 1000 * c.window, ts[m] - ts[m - 1]);
    }
    ExpiryUnobservableIff(c, ts, drops);
  }

  /** Clock errors that add up to at most one window are small enough. */
  lemma BoundedSkewMeansGapsAgree(c: Config, ts: seq<int>, redisMs: seq<int>, late: nat, early: nat)
    requires c.Valid() && Skewed(ts, redisMs, late, early) && late + early <= 1000 * c.window
    ensures GapsAgree(c, ts, redisMs)
  {
  }
}
