/** Counting flags. */
module Counting {
  import opened Arithmetic

  /** How many of ds[k..n] hold. */
  function Count(ds: seq<bool>, k: nat, n: nat): (r: nat)
    requires k <= n <= |ds|
    ensures r <= n - k
  {
    if k == n then 0 else Count(ds, k, n - 1) + (if ds[n - 1] then 1 else 0)
  }

  lemma {:induction false} CountMonotone(ds: seq<bool>, k: nat, m: nat, n: nat)
    requires k <= m <= n <= |ds|
    ensures Count(ds, k, m) <= Count(ds, k, n)
  {
    if m == n {
    } else {
      CountMonotone(ds, k, m, n - 1);
    }
  }

  /** What is counted from k on has not been counted before j. */
  lemma {:induction false} CountAfter(ds: seq<bool>, j: nat, k: nat, n: nat)
    requires j <= k <= n <= |ds|
    ensures Count(ds, 0, j) + Count(ds, k, n) <= Count(ds, 0, n)
  {
    if k < n {
      CountAfter(ds, j, k, n - 1);
    } else {
      CountMonotone(ds, 0, j, n);
    }
  }

  lemma LastNotCounted(ds: seq<bool>, j: nat, m: nat, n: nat)
    requires j <= m && m + 1 == n <= |ds| && Count(ds, 0, n) == Count(ds, 0, j)
    ensures !ds[m] && Count(ds, 0, m) == Count(ds, 0, j)
  {
    CountMonotone(ds, 0, j, m);
  }

  /** If the first j are all counted, one that is not comes later. */
  lemma {:induction false} UncountedIsLater(ds: seq<bool>, i: nat, j: nat)
    requires i < |ds| && j <= |ds| && !ds[i] && Count(ds, 0, j) == j
    ensures j <= i
  {
    if j == 0 {
    } else {
      assert Count(ds, 0, j - 1) <= j - 1;
      UncountedIsLater(ds, i, j - 1);
    }
  }

  lemma OthersAreFirst(ds: seq<bool>, j: nat, i: nat, n: nat)
    requires j <= n && i < n <= |ds| && !ds[i] && Count(ds, 0, j) == j == Count(ds, 0, n)
    ensures Count(ds, 0, i) == j
  {
    UncountedIsLater(ds, i, j);
    CountMonotone(ds, 0, j, i);
    CountMonotone(ds, 0, i, n);
  }

  lemma {:induction false} CountImplies(ds: seq<bool>, es: seq<bool>, n: nat)
    requires n <= |ds| && n <= |es|
    requires forall i :: 0 <= i < n && ds[i] ==> es[i]
    ensures Count(ds, 0, n) <= Count(es, 0, n)
  {
    if n == 0 {
    } else {
      CountImplies(ds, es, n - 1);
    }
  }

  lemma {:induction false} CountSplit(ds: seq<bool>, es: seq<bool>, fs: seq<bool>, n: nat)
    requires n <= |ds| && n <= |es| && n <= |fs|
    requires forall i :: 0 <= i < n ==> ds[i] == (es[i] || fs[i]) && !(es[i] && fs[i])
    ensures Count(ds, 0, n) == Count(es, 0, n) + Count(fs, 0, n)
  {
    if n == 0 {
    } else {
      CountSplit(ds, es, fs, n - 1);
    }
  }

  lemma {:induction false} CountNone(ds: seq<bool>, k: nat, n: nat)
    requires k <= n <= |ds| && forall i :: k <= i < n ==> !ds[i]
    ensures Count(ds, k, n) == 0
  {
    if k == n {
    } else {
      CountNone(ds, k, n - 1);
    }
  }

  lemma {:induction false} CountEvery(ds: seq<bool>, n: nat)
    requires n <= |ds| && forall i :: 0 <= i < n ==> ds[i]
    ensures Count(ds, 0, n) == n
  {
    if n == 0 {
    } else {
      CountEvery(ds, n - 1);
    }
  }

  /** Flag i is set if ok[i] is and xs[i] lies in lo..hi. */
  function InRange(ok: seq<bool>, xs: seq<int>, lo: int, hi: int): (ds: seq<bool>)
    requires |ok| == |xs|
    ensures |ds| == |ok|
    ensures forall i :: 0 <= i < |ok| ==> ds[i] == (ok[i] && lo <= xs[i] <= hi)
  {
    seq(|ok|, i requires 0 <= i < |ok| => ok[i] && lo <= xs[i] <= hi)
  }

  /** The flags from place k to place n. */
  function Within(ds: seq<bool>, k: nat, n: nat): (es: seq<bool>)
    ensures |es| == |ds|
    ensures forall i :: 0 <= i < |ds| ==> es[i] == (ds[i] && k <= i <= n)
  {
    seq(|ds|, i requires 0 <= i < |ds| => ds[i] && k <= i <= n)
  }

  lemma {:induction false} CountWithinUpTo(ds: seq<bool>, k: nat, n: nat, m: nat)
    requires k <= n < |ds| && m <= |ds|
    ensures Count(Within(ds, k, n), 0, m) == if m <= k then 0 else Count(ds, k, Min(m, n + 1))
  {
    if m == 0 {
    } else {
      CountWithinUpTo(ds, k, n, m - 1);
    }
  }

  lemma CountWithin(ds: seq<bool>, k: nat, n: nat)
    requires k <= n < |ds|
    ensures Count(Within(ds, k, n), 0, |ds|) == Count(ds, k, n + 1)
  {
    CountWithinUpTo(ds, k, n, |ds|);
  }

  /** If no single value occurs more than `limit` times, n adjacent values together do not occur
      more than limit * n times. */
  lemma {:induction false} Pigeonhole(ok: seq<bool>, xs: seq<int>, lo: int, hi: int, n: nat, limit: int)
    requires |ok| == |xs| && n == hi - lo + 1
    requires forall q :: lo <= q <= hi ==> Count(InRange(ok, xs, q, q), 0, |ok|) <= limit
    ensures Count(InRange(ok, xs, lo, hi), 0, |ok|) <= limit * n
    decreases n
  {
    if n == 0 {
      CountNone(InRange(ok, xs, lo, hi), 0, |ok|);
    } else {
      Pigeonhole(ok, xs, lo, hi - 1, n - 1, limit);
      CountSplit(InRange(ok, xs, lo, hi), InRange(ok, xs, lo, hi - 1), InRange(ok, xs, hi, hi), |ok|);
      assert limit * n == limit * (n - 1) + limit;
    }
  }

  /** No element is lower than an earlier one. */
  predicate Nondecreasing(xs: seq<int>) {
    forall i, j :: 0 <= i <= j < |xs| ==> xs[i] <= xs[j]
  }

  /** The elements of xs[..n] whose flag is set. */
  function Pick<T>(xs: seq<T>, keep: seq<bool>, n: nat): (r: seq<T>)
    requires n <= |xs| && n <= |keep|
    ensures |r| == Count(keep, 0, n)
  {
    if n == 0 then [] else Pick(xs, keep, n - 1) + (if keep[n - 1] then [xs[n - 1]] else [])
  }

  lemma {:induction false} PickNondecreasing(xs: seq<int>, keep: seq<bool>, n: nat)
    requires Nondecreasing(xs) && n <= |xs| && n <= |keep|
    ensures Nondecreasing(Pick(xs, keep, n))
    ensures forall i :: 0 <= i < |Pick(xs, keep, n)| ==> Pick(xs, keep, n)[i] <= xs[n - 1]
  {
    if n == 0 {
    } else {
      PickNondecreasing(xs, keep, n - 1);
    }
  }

  /** The element that is kept i-th. */
  lemma {:induction false} PickedFrom(keep: seq<bool>, i: nat, n: nat) returns (j: nat)
    requires n <= |keep| && i < Count(keep, 0, n)
    ensures j < n && keep[j] && Count(keep, 0, j) == i
  {
    if keep[n - 1] && i == Count(keep, 0, n - 1) {
      j := n - 1;
    } else {
      j := PickedFrom(keep, i, n - 1);
    }
  }

  /** A kept element's place among the kept ones is the number kept before it. */
  lemma {:induction false} PickedAt<T>(xs: seq<T>, keep: seq<bool>, i: nat, n: nat)
    requires i < n <= |xs| && n <= |keep| && keep[i]
    ensures Count(keep, 0, i) < Count(keep, 0, n)
    ensures Pick(xs, keep, n)[Count(keep, 0, i)] == xs[i]
  {
    if i + 1 == n {
    } else {
      PickedAt(xs, keep, i, n - 1);
    }
  }
}
