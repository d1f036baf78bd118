/** What every run of the fixed window promises. Request i reads `ts[i]` seconds on its API
    process's clock; its script runs when Redis's clock shows `rs[i]` milliseconds. One
    configuration per identifier; the timestamps may come in any order. */
module FixedWindowRuns {
  import opened Types
  import opened Arithmetic
  import opened Counting
  import opened Scripts

  function Args(c: Config, now: int): WindowArgs {
    WindowArgs(c.limit, c.window, now)
  }

  function Start(c: Config, now: int): int
    requires c.Valid()
  {
    WindowStart(Args(c, now))
  }

  /** Redis has not yet reached the end of the window that starts at `start`. */
  predicate Open(c: Config, start: int, redisMs: int) {
    redisMs < 1000 * (start + c.window)
  }

  /** No script runs after Redis has reached the end of the request's window. */
  predicate NeverLate(c: Config, ts: seq<int>, rs: seq<int>) {
    Run(c, ts, rs) && forall i :: 0 <= i < |ts| ==> Open(c, Start(c, ts[i]), rs[i])
  }

  /** One Redis clock reading for each request. */
  predicate Run(c: Config, ts: seq<int>, rs: seq<int>) {
    c.Valid() && |ts| == |rs|
  }

  /** The last value given to the counter of the window starting at `start` by the first n
      requests; Redis forgets it once the window is no longer open. */
  function Counted(c: Config, ts: seq<int>, rs: seq<int>, start: int, n: nat): (r: nat)
    requires Run(c, ts, rs) && n <= |ts|
  {
    if n == 0 then 0
    else
      var before := Counted(c, ts, rs, start, n - 1);
      var seen := if Open(c, start, rs[n - 1]) then before else 0;
      if Start(c, ts[n - 1]) == start && seen < c.limit then seen + 1 else before
  }

  /** What GET returns to request n's script, 0 when there is no counter. */
  function SeenAt(c: Config, ts: seq<int>, rs: seq<int>, n: nat): (r: nat)
    requires Run(c, ts, rs) && n < |ts|
  {
    if Open(c, Start(c, ts[n]), rs[n]) then Counted(c, ts, rs, Start(c, ts[n]), n) else 0
  }

  predicate AdmitsAt(c: Config, ts: seq<int>, rs: seq<int>, n: nat)
    requires Run(c, ts, rs) && n < |ts|
  {
    SeenAt(c, ts, rs, n) < c.limit
  }

  function ReplyAt(c: Config, ts: seq<int>, rs: seq<int>, n: nat): Reply
    requires Run(c, ts, rs) && n < |ts|
  {
    WindowReply(SeenAt(c, ts, rs, n), Args(c, ts[n]))
  }

  function Decisions(c: Config, ts: seq<int>, rs: seq<int>): (ds: seq<bool>)
    requires Run(c, ts, rs)
    ensures |ds| == |ts|
    ensures forall n :: 0 <= n < |ts| ==> ds[n] == AdmitsAt(c, ts, rs, n)
  {
    seq(|ts|, n requires 0 <= n < |ts| => AdmitsAt(c, ts, rs, n))
  }

  lemma StartBounds(c: Config, t: int)
    requires c.Valid()
    ensures Start(c, t) <= t < Start(c, t) + c.window
    ensures Start(c, t) == c.window * FloorDiv(t, c.window)
  {
    RoundDownIsFloor(t, c.window);
  }

  lemma StartUnique(c: Config, t: int, u: int)
    requires c.Valid() && Start(c, u) <= t < Start(c, u) + c.window
    ensures Start(c, t) == Start(c, u)
  {
    StartBounds(c, t);
    StartBounds(c, u);
    QuotientUnique(t, c.window, FloorDiv(t, c.window), FloorDiv(u, c.window));
  }

  // ---- at most `limit` in a window, at most twice that in an interval ----

  /** Request i was admitted while its window was open. */
  function OpenAdmissions(c: Config, ts: seq<int>, rs: seq<int>): (ok: seq<bool>)
    requires Run(c, ts, rs)
    ensures |ok| == |ts|
    ensures forall i :: 0 <= i < |ts| ==> ok[i] == (AdmitsAt(c, ts, rs, i) && Open(c, Start(c, ts[i]), rs[i]))
  {
    seq(|ts|, i requires 0 <= i < |ts| => AdmitsAt(c, ts, rs, i) && Open(c, Start(c, ts[i]), rs[i]))
  }

  /** The windows, numbered from the epoch, that the timestamps fall into. */
  function WindowNumbers(c: Config, ts: seq<int>): (qs: seq<int>)
    requires c.Valid()
    ensures |qs| == |ts|
    ensures forall i :: 0 <= i < |ts| ==> qs[i] == FloorDiv(ts[i], c.window)
  {
    seq(|ts|, i requires 0 <= i < |ts| => FloorDiv(ts[i], c.window))
  }

  lemma SameWindowNumber(c: Config, t: int, q: int)
    requires c.Valid()
    ensures Start(c, t) == c.window * q <==> FloorDiv(t, c.window) == q
  {
    StartBounds(c, t);
    if Start(c, t) == c.window * q {
      QuotientUnique(t, c.window, FloorDiv(t, c.window), q);
    }
  }

  /** Request i's script ran before its window's end on Redis's clock. */
  function OnTime(c: Config, ts: seq<int>, rs: seq<int>): (ok: seq<bool>)
    requires Run(c, ts, rs)
    ensures |ok| == |ts|
    ensures forall i :: 0 <= i < |ts| ==> ok[i] == Open(c, Start(c, ts[i]), rs[i])
  {
    seq(|ts|, i requires 0 <= i < |ts| => Open(c, Start(c, ts[i]), rs[i]))
  }

  function Late(c: Config, ts: seq<int>, rs: seq<int>): (late: seq<bool>)
    requires Run(c, ts, rs)
    ensures |late| == |ts|
    ensures forall i :: 0 <= i < |ts| ==> late[i] == !Open(c, Start(c, ts[i]), rs[i])
  {
    seq(|ts|, i requires 0 <= i < |ts| => !Open(c, Start(c, ts[i]), rs[i]))
  }

  /** How many of the first n requests stamped in the window have their flag set. */
  function InWindow(c: Config, ts: seq<int>, flags: seq<bool>, start: int, n: nat): nat
    requires c.Valid() && n <= |ts| == |flags|
  {
    if n == 0 then 0
    else InWindow(c, ts, flags, start, n - 1) + (if flags[n - 1] && Start(c, ts[n - 1]) == start then 1 else 0)
  }

  lemma {:induction false} OnTimeAreCounted(c: Config, ts: seq<int>, rs: seq<int>, start: int, n: nat)
    requires Run(c, ts, rs) && Nondecreasing(rs) && n <= |ts|
    requires n == 0 || Open(c, start, rs[n - 1])
    ensures Counted(c, ts, rs, start, n) == Min(InWindow(c, ts, OnTime(c, ts, rs), start, n), c.limit)
  {
    if n == 0 {
    } else {
      OnTimeAreCounted(c, ts, rs, start, n - 1);
    }
  }

  /** As many of the window's requests as are on time, up to the limit, and all that are late. */
  function OnTimeAndLate(c: Config, ts: seq<int>, rs: seq<int>, start: int, n: nat): nat
    requires Run(c, ts, rs) && n <= |ts|
  {
    Min(InWindow(c, ts, OnTime(c, ts, rs), start, n), c.limit) + InWindow(c, ts, Late(c, ts, rs), start, n)
  }

  /** Exactly how many requests stamped in one window get through, on every run: the first
      `limit` whose scripts run before its end, and every one whose script runs after it, because
      a counter created then expires at once. So the limit holds exactly up to the late ones. */
  lemma {:induction false} WindowAdmissionsExact(c: Config, ts: seq<int>, rs: seq<int>, start: int, n: nat)
    requires Run(c, ts, rs) && Nondecreasing(rs) && n <= |ts|
    ensures InWindow(c, ts, Decisions(c, ts, rs), start, n) == OnTimeAndLate(c, ts, rs, start, n)
  {
    if n == 0 {
    } else {
      var m := n - 1;
      WindowAdmissionsExact(c, ts, rs, start, m);
      if Open(c, start, rs[m]) {
        OnTimeAreCounted(c, ts, rs, start, m);
      }
    }
  }

  /** The window's first and last second. */
  predicate IsWindow(c: Config, start: int, last: int)
    requires c.Valid()
  {
    Start(c, start) == start && last == start + c.window - 1
  }

  lemma StampedInWindow(c: Config, t: int, start: int, last: int)
    requires c.Valid() && IsWindow(c, start, last)
    ensures Start(c, t) == start <==> start <= t <= last
  {
    StartBounds(c, t);
    if start <= t <= last {
      StartUnique(c, t, start);
    }
  }

  /** The window's requests are those stamped from its first to its last second. */
  lemma {:induction false} InWindowIsStamped(c: Config, ts: seq<int>, flags: seq<bool>, start: int, last: int, n: nat)
    requires c.Valid() && n <= |ts| == |flags| && IsWindow(c, start, last)
    ensures InWindow(c, ts, flags, start, n) == Count(InRange(flags, ts, start, last), 0, n)
  {
    if n == 0 {
    } else {
      InWindowIsStamped(c, ts, flags, start, last, n - 1);
      StampedInWindow(c, ts[n - 1], start, last);
    }
  }

  /** How many requests stamped first..last were admitted, on time or late. */
  function AdmittedStamped(c: Config, ts: seq<int>, rs: seq<int>, first: int, last: int): nat
    requires Run(c, ts, rs)
  {
    Count(InRange(Decisions(c, ts, rs), ts, first, last), 0, |ts|)
  }

  lemma StampedExact(c: Config, ts: seq<int>, rs: seq<int>, start: int, last: int, n: nat)
    requires Run(c, ts, rs) && Nondecreasing(rs) && IsWindow(c, start, last) && n == |ts|
    ensures AdmittedStamped(c, ts, rs, start, last) == OnTimeAndLate(c, ts, rs, start, n)
  {
    WindowAdmissionsExact(c, ts, rs, start, n);
    InWindowIsStamped(c, ts, Decisions(c, ts, rs), start, last, n);
  }

  /** The limit holds in a window exactly if none is late, or if it has room for the late ones. */
  lemma WindowLimitIff(c: Config, ts: seq<int>, rs: seq<int>, start: int, n: nat)
    requires Run(c, ts, rs) && Nondecreasing(rs) && n <= |ts|
    ensures InWindow(c, ts, Decisions(c, ts, rs), start, n) <= c.limit
       <==> || InWindow(c, ts, Late(c, ts, rs), start, n) == 0
            || InWindow(c, ts, OnTime(c, ts, rs), start, n) + InWindow(c, ts, Late(c, ts, rs), start, n) <= c.limit
  {
    WindowAdmissionsExact(c, ts, rs, start, n);
  }

  function Repeated(x: int, k: nat): (xs: seq<int>)
    ensures |xs| == k && forall i :: 0 <= i < k ==> xs[i] == x
  {
    seq(k, _ => x)
  }

  /** And it can be broken without bound: k requests stamped with a window's last second whose
      scripts all run when it has just ended are all admitted. */
  lemma LateBurst(c: Config, k: nat)
    requires c.Valid()
    ensures Count(Decisions(c, Repeated(c.window - 1, k), Repeated(1000 * c.window, k)), 0, k) == k
  {
    var ts, rs := Repeated(c.window - 1, k), Repeated(1000 * c.window, k);
    StartBounds(c, c.window - 1);
    forall i | 0 <= i < k
      ensures Decisions(c, ts, rs)[i]
    {
      assert Start(c, ts[i]) == Start(c, c.window - 1) <= 0 by {
        FirstWindow(c, c.window - 1);
      }
    }
    CountEvery(Decisions(c, ts, rs), k);
  }

  lemma FirstWindow(c: Config, t: int)
    requires c.Valid() && 0 <= t < c.window
    ensures Start(c, t) == 0
  {
  }

  lemma {:induction false} InWindowIsNumbered(c: Config, ts: seq<int>, flags: seq<bool>, q: int, start: int, n: nat)
    requires c.Valid() && n <= |ts| == |flags| && start == c.window * q
    ensures InWindow(c, ts, flags, start, n) == Count(InRange(flags, WindowNumbers(c, ts), q, q), 0, n)
  {
    if n == 0 {
    } else {
      InWindowIsNumbered(c, ts, flags, q, start, n - 1);
      SameWindowNumber(c, ts[n - 1], q);
    }
  }

  lemma {:induction false} InWindowSplit(c: Config, ts: seq<int>, ds: seq<bool>, es: seq<bool>, fs: seq<bool>,
        start: int, n: nat)
    requires c.Valid() && n <= |ts| == |ds| == |es| == |fs|
    requires forall i :: 0 <= i < |ts| ==> ds[i] == (es[i] || fs[i]) && !(es[i] && fs[i])
    ensures InWindow(c, ts, ds, start, n) == InWindow(c, ts, es, start, n) + InWindow(c, ts, fs, start, n)
  {
    if n == 0 {
    } else {
      InWindowSplit(c, ts, ds, es, fs, start, n - 1);
    }
  }

  /** Whoever is admitted is admitted on time or is late. */
  lemma LateAreAdmitted(c: Config, ts: seq<int>, rs: seq<int>, start: int, n: nat)
    requires Run(c, ts, rs) && n <= |ts|
    ensures InWindow(c, ts, Decisions(c, ts, rs), start, n)
         == InWindow(c, ts, OpenAdmissions(c, ts, rs), start, n) + InWindow(c, ts, Late(c, ts, rs), start, n)
  {
    InWindowSplit(c, ts, Decisions(c, ts, rs), OpenAdmissions(c, ts, rs), Late(c, ts, rs), start, n);
  }

  /** In the window number q, the requests admitted while it was open are the first `limit` of
      those whose script ran before its end. */
  lemma OneWindowBound(c: Config, ts: seq<int>, rs: seq<int>, q: int)
    requires Run(c, ts, rs) && Nondecreasing(rs)
    ensures Count(InRange(OpenAdmissions(c, ts, rs), WindowNumbers(c, ts), q, q), 0, |ts|)
         == Min(Count(InRange(OnTime(c, ts, rs), WindowNumbers(c, ts), q, q), 0, |ts|), c.limit)
  {
    LateAreAdmitted(c, ts, rs, c.window * q, |ts|);
    WindowAdmissionsExact(c, ts, rs, c.window * q, |ts|);
    InWindowIsNumbered(c, ts, OpenAdmissions(c, ts, rs), q, c.window * q, |ts|);
    InWindowIsNumbered(c, ts, OnTime(c, ts, rs), q, c.window * q, |ts|);
  }

  lemma FloorMonotone(x: int, y: int, b: int)
    requires b > 0 && x <= y
    ensures FloorDiv(x, b) <= FloorDiv(y, b)
  {
    if FloorDiv(y, b) < FloorDiv(x, b) {
      MulMonotone(b, FloorDiv(y, b) + 1, FloorDiv(x, b));
    }
  }

  lemma WindowsBound(c: Config, ts: seq<int>, rs: seq<int>, lo: int, hi: int, windows: int)
    requires Run(c, ts, rs) && Nondecreasing(rs) && lo <= hi && windows == hi - lo + 1
    ensures Count(InRange(OpenAdmissions(c, ts, rs), WindowNumbers(c, ts), lo, hi), 0, |ts|) <= c.limit * windows
  {
    forall q | lo <= q <= hi
      ensures Count(InRange(OpenAdmissions(c, ts, rs), WindowNumbers(c, ts), q, q), 0, |ts|) <= c.limit
    {
      OneWindowBound(c, ts, rs, q);
    }
    Pigeonhole(OpenAdmissions(c, ts, rs), WindowNumbers(c, ts), lo, hi, windows, c.limit);
  }

  /** How many requests stamped first..last were admitted while their window was open. */
  function AdmittedBetween(c: Config, ts: seq<int>, rs: seq<int>, first: int, last: int): nat
    requires Run(c, ts, rs)
  {
    Count(InRange(OpenAdmissions(c, ts, rs), ts, first, last), 0, |ts|)
  }

  /** How many windows the seconds first..last touch. */
  function WindowsTouched(c: Config, first: int, last: int): int
    requires c.Valid()
  {
    FloorDiv(last, c.window) - FloorDiv(first, c.window) + 1
  }

  lemma NumbersBetween(c: Config, ts: seq<int>, first: int, last: int, i: nat)
    requires c.Valid() && i < |ts| && first <= ts[i] <= last
    ensures FloorDiv(first, c.window) <= WindowNumbers(c, ts)[i] <= FloorDiv(last, c.window)
  {
    FloorMonotone(first, ts[i], c.window);
    FloorMonotone(ts[i], last, c.window);
  }

  lemma CoarserRange(ok: seq<bool>, ts: seq<int>, first: int, last: int, qs: seq<int>, lo: int, hi: int)
    requires |ok| == |ts| == |qs|
    requires forall i :: 0 <= i < |ts| && first <= ts[i] <= last ==> lo <= qs[i] <= hi
    ensures Count(InRange(ok, ts, first, last), 0, |ts|) <= Count(InRange(ok, qs, lo, hi), 0, |ts|)
  {
    CountImplies(InRange(ok, ts, first, last), InRange(ok, qs, lo, hi), |ts|);
  }

  /** Admissions stamped in an interval number at most limit for each window it touches. */
  lemma IntervalBound(c: Config, ts: seq<int>, rs: seq<int>, first: int, last: int)
    requires Run(c, ts, rs) && Nondecreasing(rs) && first <= last
    ensures AdmittedBetween(c, ts, rs, first, last) <= c.limit * WindowsTouched(c, first, last)
  {
    FloorMonotone(first, last, c.window);
    forall i: nat | i < |ts| && first <= ts[i] <= last
      ensures FloorDiv(first, c.window) <= WindowNumbers(c, ts)[i] <= FloorDiv(last, c.window)
    {
      NumbersBetween(c, ts, first, last, i);
    }
    CoarserRange(OpenAdmissions(c, ts, rs), ts, first, last, WindowNumbers(c, ts),
                 FloorDiv(first, c.window), FloorDiv(last, c.window));
    WindowsBound(c, ts, rs, FloorDiv(first, c.window), FloorDiv(last, c.window), WindowsTouched(c, first, last));
  }

  lemma TwoWindows(c: Config, first: int, last: int)
    requires c.Valid() && first <= last < first + c.window
    ensures WindowsTouched(c, first, last) <= 2
  {
    var q := FloorDiv(first, c.window);
    Distribute(c.window, q, 1);
    QuotientUnique(first + c.window, c.window, FloorDiv(first + c.window, c.window), q + 1);
    FloorMonotone(last, first + c.window, c.window);
  }

  /** How many requests stamped first..last had their scripts run after their window's end. */
  function LateBetween(c: Config, ts: seq<int>, rs: seq<int>, first: int, last: int): nat
    requires Run(c, ts, rs)
  {
    Count(InRange(Late(c, ts, rs), ts, first, last), 0, |ts|)
  }

  lemma OnTimeOrLate(c: Config, ts: seq<int>, rs: seq<int>, first: int, last: int)
    requires Run(c, ts, rs)
    ensures AdmittedStamped(c, ts, rs, first, last)
         == AdmittedBetween(c, ts, rs, first, last) + LateBetween(c, ts, rs, first, last)
  {
    CountSplit(InRange(Decisions(c, ts, rs), ts, first, last), InRange(OpenAdmissions(c, ts, rs), ts, first, last),
               InRange(Late(c, ts, rs), ts, first, last), |ts|);
  }

  /** The documented trade-off: no interval as long as the window sees more than 2 * limit, but for
      the late ones. */
  lemma BoundaryBurstBound(c: Config, ts: seq<int>, rs: seq<int>, first: int, last: int)
    requires Run(c, ts, rs) && Nondecreasing(rs) && first <= last < first + c.window
    ensures AdmittedStamped(c, ts, rs, first, last) <= 2 * c.limit + LateBetween(c, ts, rs, first, last)
  {
    OnTimeOrLate(c, ts, rs, first, last);
    IntervalBound(c, ts, rs, first, last);
    TwoWindows(c, first, last);
    MulMonotone(c.limit, WindowsTouched(c, first, last), 2);
  }

  /** `limit` requests in a window's last second, then `limit` in the next window's first. */
  function BurstStamps(c: Config): (ts: seq<int>)
    requires c.Valid()
    ensures |ts| == 2 * c.limit
  {
    seq(2 * c.limit, i => if i < c.limit then c.window - 1 else c.window)
  }

  function InStep(ts: seq<int>): (rs: seq<int>)
    ensures |rs| == |ts|
  {
    seq(|ts|, i requires 0 <= i < |ts| => 1000 * ts[i])
  }

  lemma BurstStarts(c: Config, i: nat)
    requires c.Valid() && i < 2 * c.limit
    ensures Start(c, BurstStamps(c)[i]) == if i < c.limit then 0 else c.window
  {
    var t := BurstStamps(c)[i];
    StartBounds(c, t);
    QuotientUnique(t, c.window, FloorDiv(t, c.window), if i < c.limit then 0 else 1);
  }

  lemma {:induction false} BurstCounts(c: Config, n: nat)
    requires c.Valid() && n <= 2 * c.limit
    ensures var ts := BurstStamps(c);
            && Counted(c, ts, InStep(ts), 0, n) == Min(n, c.limit)
            && Counted(c, ts, InStep(ts), c.window, n) == Max(0, n - c.limit)
  {
    if n == 0 {
    } else {
      BurstCounts(c, n - 1);
      BurstStarts(c, n - 1);
    }
  }

  lemma BurstAdmitted(c: Config, i: nat)
    requires c.Valid() && i < 2 * c.limit
    ensures var ts := BurstStamps(c);
            OpenAdmissions(c, ts, InStep(ts))[i]
  {
    BurstCounts(c, i);
    BurstStarts(c, i);
  }

  /** ... and that many can get through within two seconds. */
  lemma BoundaryBurstReached(c: Config)
    requires c.Valid() && c.window >= 2
    ensures var ts := BurstStamps(c);
            && Nondecreasing(InStep(ts))
            && AdmittedBetween(c, ts, InStep(ts), c.window - 1, c.window) == 2 * c.limit
  {
    var ts := BurstStamps(c);
    var ok := OpenAdmissions(c, ts, InStep(ts));
    forall i: nat | i < 2 * c.limit
      ensures ok[i]
    {
      BurstAdmitted(c, i);
    }
    CountEvery(InRange(ok, ts, c.window - 1, c.window), |ts|);
  }

  // ---- one window, while it is open ----

  lemma {:induction false} OneOpenWindowCounts(c: Config, ts: seq<int>, rs: seq<int>, start: int, n: nat)
    requires Run(c, ts, rs) && n <= |ts|
    requires forall i :: 0 <= i < |ts| ==> Start(c, ts[i]) == start && Open(c, start, rs[i])
    ensures Counted(c, ts, rs, start, n) == Count(Decisions(c, ts, rs), 0, n) == Min(n, c.limit)
  {
    if n == 0 {
    } else {
      OneOpenWindowCounts(c, ts, rs, start, n - 1);
    }
  }

  /** Request i is of the first one's window, and on time. */
  predicate SharesWindow(c: Config, ts: seq<int>, rs: seq<int>, i: nat)
    requires Run(c, ts, rs) && i < |ts|
  {
    Start(c, ts[i]) == Start(c, ts[0]) && Open(c, Start(c, ts[i]), rs[i])
  }

  predicate OneOpenWindow(c: Config, ts: seq<int>, rs: seq<int>)
    requires Run(c, ts, rs)
  {
    forall i :: 0 <= i < |ts| ==> SharesWindow(c, ts, rs, i)
  }

  /** A window's counter has only counted admissions. */
  lemma {:induction false} CountedAreAdmitted(c: Config, ts: seq<int>, rs: seq<int>, start: int, n: nat)
    requires Run(c, ts, rs) && n <= |ts|
    ensures Counted(c, ts, rs, start, n) <= InWindow(c, ts, Decisions(c, ts, rs), start, n)
  {
    if n == 0 {
    } else {
      CountedAreAdmitted(c, ts, rs, start, n - 1);
    }
  }

  lemma {:induction false} InWindowAtMost(c: Config, ts: seq<int>, flags: seq<bool>, start: int, n: nat)
    requires c.Valid() && n <= |ts| == |flags|
    ensures InWindow(c, ts, flags, start, n) <= Count(flags, 0, n)
    ensures InWindow(c, ts, flags, start, n) == Count(flags, 0, n) ==>
      forall m :: 0 <= m < n && flags[m] ==> Start(c, ts[m]) == start
  {
    if n == 0 {
    } else {
      InWindowAtMost(c, ts, flags, start, n - 1);
    }
  }

  lemma SeenAtMost(c: Config, ts: seq<int>, rs: seq<int>, n: nat)
    requires Run(c, ts, rs) && n < |ts|
    ensures SeenAt(c, ts, rs, n) <= Count(Decisions(c, ts, rs), 0, n)
  {
    CountedAreAdmitted(c, ts, rs, Start(c, ts[n]), n);
    InWindowAtMost(c, ts, Decisions(c, ts, rs), Start(c, ts[n]), n);
  }

  /** The first `limit` requests are all admitted, whatever the clocks do. */
  lemma {:induction false} FirstLimitAdmitted(c: Config, ts: seq<int>, rs: seq<int>, n: nat)
    requires Run(c, ts, rs) && n <= |ts| && n <= c.limit
    ensures Count(Decisions(c, ts, rs), 0, n) == n
  {
    if n == 0 {
    } else {
      FirstLimitAdmitted(c, ts, rs, n - 1);
      SeenAtMost(c, ts, rs, n - 1);
    }
  }

  lemma AtLeastLimit(c: Config, ts: seq<int>, rs: seq<int>)
    requires Run(c, ts, rs)
    ensures Min(|ts|, c.limit) <= Count(Decisions(c, ts, rs), 0, |ts|)
  {
    FirstLimitAdmitted(c, ts, rs, Min(|ts|, c.limit));
    CountMonotone(Decisions(c, ts, rs), 0, Min(|ts|, c.limit), |ts|);
  }

  /** A request that is rejected when only `limit` have been admitted is on time, and all of those
      are of its window. */
  lemma RejectedInWindow(c: Config, ts: seq<int>, rs: seq<int>, n: nat)
    requires Run(c, ts, rs) && n < |ts| && !Decisions(c, ts, rs)[n]
    requires Count(Decisions(c, ts, rs), 0, n) == c.limit
    ensures Open(c, Start(c, ts[n]), rs[n])
    ensures forall m :: 0 <= m < n && Decisions(c, ts, rs)[m] ==> Start(c, ts[m]) == Start(c, ts[n])
  {
    CountedAreAdmitted(c, ts, rs, Start(c, ts[n]), n);
    InWindowAtMost(c, ts, Decisions(c, ts, rs), Start(c, ts[n]), n);
  }

  lemma RejectedWithFirst(c: Config, ts: seq<int>, rs: seq<int>, i: nat)
    requires Run(c, ts, rs) && i < |ts| && c.limit < |ts| && !Decisions(c, ts, rs)[i]
    requires Count(Decisions(c, ts, rs), 0, |ts|) == c.limit
    ensures Open(c, Start(c, ts[i]), rs[i])
    ensures forall m :: 0 <= m < i && Decisions(c, ts, rs)[m] ==> Start(c, ts[m]) == Start(c, ts[i])
    ensures Start(c, ts[0]) == Start(c, ts[i])
  {
    FirstLimitAdmitted(c, ts, rs, 1);
    FirstLimitAdmitted(c, ts, rs, c.limit);
    OthersAreFirst(Decisions(c, ts, rs), c.limit, i, |ts|);
    RejectedInWindow(c, ts, rs, i);
  }

  lemma LastIsRejected(c: Config, ts: seq<int>, rs: seq<int>, last: nat)
    requires Run(c, ts, rs) && c.limit < last + 1 == |ts|
    requires Count(Decisions(c, ts, rs), 0, |ts|) == c.limit
    ensures !Decisions(c, ts, rs)[last]
  {
    FirstLimitAdmitted(c, ts, rs, c.limit);
    LastNotCounted(Decisions(c, ts, rs), c.limit, last, |ts|);
  }

  lemma AdmittedWithLast(c: Config, ts: seq<int>, rs: seq<int>, last: nat, i: nat)
    requires Run(c, ts, rs) && Nondecreasing(rs) && i < last < |ts| && c.limit < |ts|
    requires Count(Decisions(c, ts, rs), 0, |ts|) == c.limit
    requires Decisions(c, ts, rs)[i] && !Decisions(c, ts, rs)[last]
    ensures SharesWindow(c, ts, rs, i)
  {
    RejectedWithFirst(c, ts, rs, last);
    assert rs[i] <= rs[last];
  }

  lemma RejectedSharesWindow(c: Config, ts: seq<int>, rs: seq<int>, i: nat)
    requires Run(c, ts, rs) && i < |ts| && c.limit < |ts| && !Decisions(c, ts, rs)[i]
    requires Count(Decisions(c, ts, rs), 0, |ts|) == c.limit
    ensures SharesWindow(c, ts, rs, i)
  {
    RejectedWithFirst(c, ts, rs, i);
  }

  lemma OnlyLimitMeansOneWindow(c: Config, ts: seq<int>, rs: seq<int>, last: nat)
    requires Run(c, ts, rs) && Nondecreasing(rs) && c.limit < last + 1 == |ts|
    requires Count(Decisions(c, ts, rs), 0, |ts|) == c.limit
    ensures OneOpenWindow(c, ts, rs)
  {
    LastIsRejected(c, ts, rs, last);
    forall i: nat | i < |ts|
      ensures SharesWindow(c, ts, rs, i)
    {
      if i == last || !Decisions(c, ts, rs)[i] {
        RejectedSharesWindow(c, ts, rs, i);
      } else {
        AdmittedWithLast(c, ts, rs, last, i);
      }
    }
  }

  /** The claim behind the repository's concurrency test, and exactly when it holds: N requests see
      min(N, limit) admissions if and only if there are no more than `limit` of them, or all are of
      one window and on time. */
  lemma LimitExactIff(c: Config, ts: seq<int>, rs: seq<int>)
    requires Run(c, ts, rs) && Nondecreasing(rs)
    ensures Count(Decisions(c, ts, rs), 0, |ts|) == Min(|ts|, c.limit)
       <==> |ts| <= c.limit || OneOpenWindow(c, ts, rs)
  {
    AtLeastLimit(c, ts, rs);
    if |ts| > c.limit {
      if OneOpenWindow(c, ts, rs) {
        forall i: nat | i < |ts|
          ensures Start(c, ts[i]) == Start(c, ts[0]) && Open(c, Start(c, ts[0]), rs[i])
        {
          assert SharesWindow(c, ts, rs, i);
        }
        OneOpenWindowCounts(c, ts, rs, Start(c, ts[0]), |ts|);
      } else if Count(Decisions(c, ts, rs), 0, |ts|) == c.limit {
        OnlyLimitMeansOneWindow(c, ts, rs, |ts| - 1);
      }
    }
  }

  /** Request n is told what the `remaining` of request i announced for the (n - i)-th after it. */
  predicate AsAnnounced(c: Config, ts: seq<int>, rs: seq<int>, i: nat, n: nat)
    requires Run(c, ts, rs) && i <= n < |ts|
  {
    var m := ReplyAt(c, ts, rs, i).remaining;
    && ReplyAt(c, ts, rs, n).allowed == (n - i <= m)
    && ReplyAt(c, ts, rs, n).remaining == Max(0, m - (n - i))
  }

  lemma {:induction false} Drains(c: Config, ts: seq<int>, rs: seq<int>, i: nat, n: nat)
    requires Run(c, ts, rs) && i < n < |ts|
    requires forall m :: i <= m <= n ==> Start(c, ts[m]) == Start(c, ts[i]) && Open(c, Start(c, ts[i]), rs[m])
    ensures AsAnnounced(c, ts, rs, i, n)
  {
    if i == n - 1 {
    } else {
      Drains(c, ts, rs, i, n - 1);
    }
    RemainingIsCounted(c, ts, rs, n - 1);
  }

  lemma RemainingIsCounted(c: Config, ts: seq<int>, rs: seq<int>, n: nat)
    requires Run(c, ts, rs) && n < |ts| && Open(c, Start(c, ts[n]), rs[n])
    ensures ReplyAt(c, ts, rs, n).remaining == Max(0, c.limit - Counted(c, ts, rs, Start(c, ts[n]), n + 1))
  {
  }

  lemma LateNotAnnounced(c: Config, ts: seq<int>, rs: seq<int>, i: nat, n: nat)
    requires Run(c, ts, rs) && i < n < |ts| && !Open(c, Start(c, ts[n]), rs[n])
    ensures !AsAnnounced(c, ts, rs, i, n)
  {
  }

  /** `remaining` is exact: after a reply reporting m, the next requests of the same window are
      admitted reporting m-1, m-2, ..., 0 and all after those are rejected, exactly as long as
      their scripts run before the window's end. */
  lemma RemainingExact(c: Config, ts: seq<int>, rs: seq<int>, i: nat, j: nat)
    requires Run(c, ts, rs) && Nondecreasing(rs) && i < j < |ts|
    requires forall n :: i <= n <= j ==> Start(c, ts[n]) == Start(c, ts[i])
    ensures (forall n :: i < n <= j ==> AsAnnounced(c, ts, rs, i, n)) <==> Open(c, Start(c, ts[i]), rs[j])
  {
    if Open(c, Start(c, ts[i]), rs[j]) {
      forall n: nat | i < n <= j
        ensures AsAnnounced(c, ts, rs, i, n)
      {
        Drains(c, ts, rs, i, n);
      }
    } else {
      LateNotAnnounced(c, ts, rs, i, j);
    }
  }

  // ---- Retry-After ----

  lemma {:induction false} FullStaysFull(c: Config, ts: seq<int>, rs: seq<int>, start: int, i: nat, j: nat)
    requires Run(c, ts, rs) && Nondecreasing(rs) && i <= j < |ts| && Open(c, start, rs[j])
    requires Counted(c, ts, rs, start, i) >= c.limit
    ensures Counted(c, ts, rs, start, j) >= c.limit
  {
    if i == j {
    } else {
      FullStaysFull(c, ts, rs, start, i, j - 1);
    }
  }

  lemma {:induction false} Untouched(c: Config, ts: seq<int>, rs: seq<int>, start: int, n: nat)
    requires Run(c, ts, rs) && n <= |ts|
    requires forall m :: 0 <= m < n ==> Start(c, ts[m]) != start
    ensures Counted(c, ts, rs, start, n) == 0
  {
    if n == 0 {
    } else {
      Untouched(c, ts, rs, start, n - 1);
    }
  }

  /** Retry-After is sound: after a rejection with value R, a request stamped before now + R in that
      window, before or after the rejected one, is rejected exactly if its script runs on time. */
  lemma RetryAfterSound(c: Config, ts: seq<int>, rs: seq<int>, i: nat, j: nat)
    requires Run(c, ts, rs) && Nondecreasing(rs) && i < j < |ts|
    requires !AdmitsAt(c, ts, rs, i)
    requires Start(c, ts[i]) <= ts[j] < ts[i] + ReplyAt(c, ts, rs, i).retryAfter
    ensures !AdmitsAt(c, ts, rs, j) <==> Open(c, Start(c, ts[j]), rs[j])
  {
    StartBounds(c, ts[i]);
    StartUnique(c, ts[j], ts[i]);
    if Open(c, Start(c, ts[j]), rs[j]) {
      FullStaysFull(c, ts, rs, Start(c, ts[i]), i, j);
    }
  }

  /** ... and tight: the first request stamped now + R or later is admitted. */
  lemma RetryAfterTight(c: Config, ts: seq<int>, rs: seq<int>, i: nat, j: nat)
    requires Run(c, ts, rs) && i < j < |ts|
    requires !AdmitsAt(c, ts, rs, i)
    requires ts[j] >= ts[i] + ReplyAt(c, ts, rs, i).retryAfter
    requires forall m :: 0 <= m < j ==> ts[m] < ts[i] + ReplyAt(c, ts, rs, i).retryAfter
    ensures AdmitsAt(c, ts, rs, j)
  {
    var next := Start(c, ts[i]) + c.window;
    StartBounds(c, ts[i]);
    StartBounds(c, ts[j]);
    FloorMonotone(next, ts[j], c.window);
    Distribute(c.window, FloorDiv(ts[i], c.window), 1);
    QuotientUnique(next, c.window, FloorDiv(next, c.window), FloorDiv(ts[i], c.window) + 1);
    MulMonotone(c.window, FloorDiv(next, c.window), FloorDiv(ts[j], c.window));
    forall m | 0 <= m < j
      ensures Start(c, ts[m]) != Start(c, ts[j])
    {
      StartBounds(c, ts[m]);
    }
    Untouched(c, ts, rs, Start(c, ts[j]), j);
  }

  // ---- deleting rejections ----

  /** `keep` deletes rejected requests only. */
  ghost predicate KeepsAdmitted(c: Config, ts: seq<int>, rs: seq<int>, keep: seq<bool>)
    requires Run(c, ts, rs)
  {
    |keep| == |ts| && forall i :: 0 <= i < |ts| && AdmitsAt(c, ts, rs, i) ==> keep[i]
  }

  lemma DeletionStep(c: Config, ts: seq<int>, rs: seq<int>, ts': seq<int>, rs': seq<int>, start: int, n: nat, m: nat)
    requires Run(c, ts, rs) && Run(c, ts', rs') && n < |ts| && m <= |ts'|
    requires Counted(c, ts, rs, start, n) == Counted(c, ts', rs', start, m)
    ensures m < |ts'| && ts[n] == ts'[m] && rs[n] == rs'[m] ==>
      Counted(c, ts, rs, start, n + 1) == Counted(c, ts', rs', start, m + 1)
    ensures !AdmitsAt(c, ts, rs, n) ==> Counted(c, ts, rs, start, n + 1) == Counted(c, ts', rs', start, m)
  {
  }

  /** What the run without the deleted requests has counted when this one has counted n. */
  function CountedWithout(c: Config, ts: seq<int>, rs: seq<int>, keep: seq<bool>, start: int, n: nat): nat
    requires Run(c, ts, rs) && n <= |ts| == |keep|
  {
    CountMonotone(keep, 0, n, |ts|);
    Counted(c, Pick(ts, keep, |ts|), Pick(rs, keep, |ts|), start, Count(keep, 0, n))
  }

  lemma CountedWithoutStep(c: Config, ts: seq<int>, rs: seq<int>, keep: seq<bool>, start: int, m: nat, n: nat)
    requires Run(c, ts, rs) && KeepsAdmitted(c, ts, rs, keep) && m + 1 == n <= |ts|
    requires Counted(c, ts, rs, start, m) == CountedWithout(c, ts, rs, keep, start, m)
    ensures Counted(c, ts, rs, start, n) == CountedWithout(c, ts, rs, keep, start, n)
  {
    CountMonotone(keep, 0, n, |ts|);
    DeletionStep(c, ts, rs, Pick(ts, keep, |ts|), Pick(rs, keep, |ts|), start, m, Count(keep, 0, m));
    if keep[m] {
      PickedAt(ts, keep, m, |ts|);
      PickedAt(rs, keep, m, |ts|);
    }
  }

  lemma {:induction false} DeletionSimulates(c: Config, ts: seq<int>, rs: seq<int>, keep: seq<bool>, start: int, n: nat)
    requires Run(c, ts, rs) && KeepsAdmitted(c, ts, rs, keep) && n <= |ts|
    ensures Counted(c, ts, rs, start, n) == CountedWithout(c, ts, rs, keep, start, n)
  {
    if n == 0 {
    } else {
      DeletionSimulates(c, ts, rs, keep, start, n - 1);
      CountedWithoutStep(c, ts, rs, keep, start, n - 1, n);
    }
  }

  /** Deleting any of the rejected requests from a run changes no other reply. */
  lemma DeletionKeepsReplies(c: Config, ts: seq<int>, rs: seq<int>, keep: seq<bool>, n: nat)
    requires Run(c, ts, rs) && KeepsAdmitted(c, ts, rs, keep) && n < |ts| && keep[n]
    ensures var kept, keptMs := Pick(ts, keep, |ts|), Pick(rs, keep, |ts|);
            && Count(keep, 0, n) < |kept|
            && kept[Count(keep, 0, n)] == ts[n]
            && ReplyAt(c, kept, keptMs, Count(keep, 0, n)) == ReplyAt(c, ts, rs, n)
  {
    PickedAt(ts, keep, n, |ts|);
    PickedAt(rs, keep, n, |ts|);
    DeletionSimulates(c, ts, rs, keep, Start(c, ts[n]), n);
  }
}
