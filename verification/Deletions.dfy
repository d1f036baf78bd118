/** Are rejections free? What the replies of an identifier would have been if some of its rejected
    requests had never been made. For the token bucket that depends on the TTL: a rejected request
    renews it, so that its deletion can open an idle gap in which the key is dropped. */
module Deletions {
  import opened Types
  import opened Arithmetic
  import opened Counting
  import opened Redis
  import opened StoreRuns
  import Levels = TokenBucketLevels
  import BucketRuns = TokenBucketRuns
  import WindowRuns = FixedWindowRuns

  // ---- picking twice ----

  function Both(p: seq<bool>, q: seq<bool>): (r: seq<bool>)
    requires |p| == |q|
    ensures |r| == |p| && forall i :: 0 <= i < |p| ==> r[i] == (p[i] && q[i])
  {
    seq(|p|, i requires 0 <= i < |p| => p[i] && q[i])
  }

  lemma {:induction false} PickSnoc<T>(xs: seq<T>, x: T, q: seq<bool>, b: bool, n: nat)
    requires n <= |xs| == |q|
    ensures Pick(xs + [x], q + [b], n) == Pick(xs, q, n)
  {
    if n == 0 {
    } else {
      PickSnoc(xs, x, q, b, n - 1);
    }
  }

  lemma {:induction false} PickTwice<T>(xs: seq<T>, p: seq<bool>, q: seq<bool>, n: nat)
    requires n <= |xs| == |p| == |q|
    ensures Pick(Pick(xs, p, n), Pick(q, p, n), |Pick(xs, p, n)|) == Pick(xs, Both(p, q), n)
  {
    if n == 0 {
    } else {
      var m := n - 1;
      var ys, rs := Pick(xs, p, m), Pick(q, p, m);
      PickTwice(xs, p, q, m);
      if p[m] {
        PickSnoc(ys, xs[m], rs, q[m], |ys|);
        assert Pick(ys + [xs[m]], rs + [q[m]], |ys| + 1) == Pick(ys, rs, |ys|) + (if q[m] then [xs[m]] else []);
      } else {
        assert ys + [] == ys && rs + [] == rs;
        assert Pick(xs, Both(p, q), n) == Pick(xs, Both(p, q), m) + [];
      }
    }
  }

  lemma PickCommutes<T>(xs: seq<T>, p: seq<bool>, q: seq<bool>)
    requires |xs| == |p| == |q|
    ensures Pick(Pick(xs, p, |xs|), Pick(q, p, |xs|), |Pick(xs, p, |xs|)|)
         == Pick(Pick(xs, q, |xs|), Pick(p, q, |xs|), |Pick(xs, q, |xs|)|)
  {
    PickTwice(xs, p, q, |xs|);
    PickTwice(xs, q, p, |xs|);
    assert Both(p, q) == Both(q, p);
  }

  /** Among those that p keeps, q keeps as many as both do. */
  lemma {:induction false} CountPicked(p: seq<bool>, q: seq<bool>, n: nat)
    requires n <= |p| == |q|
    ensures Count(p, 0, n) <= Count(p, 0, |p|)
    ensures Count(Pick(q, p, |p|), 0, Count(p, 0, n)) == Count(Both(p, q), 0, n)
  {
    CountMonotone(p, 0, n, |p|);
    if n == 0 {
    } else {
      CountPicked(p, q, n - 1);
      if p[n - 1] {
        PickedAt(q, p, n - 1, |p|);
      }
    }
  }

  // ---- a log without some of its requests ----

  function Kept(log: seq<Exec>, keep: seq<bool>): (kept: seq<Exec>)
    requires |keep| == |log|
    ensures |kept| == Count(keep, 0, |log|)
  {
    Pick(log, keep, |log|)
  }

  /** Which of the identifier's own requests are kept. */
  function OwnKeep(log: seq<Exec>, keep: seq<bool>, id: string, a: Algorithm): (own: seq<bool>)
    requires |keep| == |log|
    ensures |own| == |Restrict(log, id, a)|
  {
    Pick(keep, MineFlags(log, id, a), |log|)
  }

  lemma {:induction false} MineOfKept(log: seq<Exec>, keep: seq<bool>, id: string, a: Algorithm, n: nat)
    requires n <= |log| == |keep|
    ensures MineFlags(Pick(log, keep, n), id, a) == Pick(MineFlags(log, id, a), keep, n)
  {
    if n == 0 {
    } else {
      MineOfKept(log, keep, id, a, n - 1);
    }
  }

  /** Deleting and restricting commute ... */
  lemma RestrictKept(log: seq<Exec>, keep: seq<bool>, id: string, a: Algorithm)
    requires |keep| == |log|
    ensures Restrict(Kept(log, keep), id, a) == Kept(Restrict(log, id, a), OwnKeep(log, keep, id, a))
  {
    MineOfKept(log, keep, id, a, |log|);
    PickCommutes(log, MineFlags(log, id, a), keep);
  }

  /** ... and a request's place in the result is the same either way. */
  lemma RankOfKept(log: seq<Exec>, keep: seq<bool>, id: string, a: Algorithm, n: nat)
    requires n <= |log| == |keep|
    ensures Count(keep, 0, n) <= |Kept(log, keep)|
    ensures Rank(Kept(log, keep), id, a, Count(keep, 0, n))
         == Count(OwnKeep(log, keep, id, a), 0, Rank(log, id, a, n))
  {
    MineOfKept(log, keep, id, a, |log|);
    CountPicked(keep, MineFlags(log, id, a), n);
    CountPicked(MineFlags(log, id, a), keep, n);
    assert Both(keep, MineFlags(log, id, a)) == Both(MineFlags(log, id, a), keep);
  }

  /** Only requests of the identifier are deleted, and only rejected ones. */
  ghost predicate OnlyRejected(log: seq<Exec>, keep: seq<bool>, id: string, a: Algorithm) {
    && |keep| == |log|
    && forall n: nat | n < |log| && !keep[n] ::
         Mine(log[n], id, a) && ReplyAt(map[], log, n).Ok? && !ReplyAt(map[], log, n).value.allowed
  }

  /** The kept request n is told the same. */
  predicate SameReply(log: seq<Exec>, keep: seq<bool>, n: nat)
    requires |keep| == |log| && n < |log| && keep[n] && Count(keep, 0, n) < |Kept(log, keep)|
  {
    ReplyAt(map[], Kept(log, keep), Count(keep, 0, n)) == ReplyAt(map[], log, n)
  }

  lemma KeptAt(log: seq<Exec>, keep: seq<bool>, n: nat)
    requires n < |log| == |keep| && keep[n]
    ensures Count(keep, 0, n) < |Kept(log, keep)| && Kept(log, keep)[Count(keep, 0, n)] == log[n]
  {
    PickedAt(log, keep, n, |log|);
  }

  lemma {:induction false} KeptAll<T>(xs: seq<T>, keep: seq<bool>, n: nat)
    requires n <= |xs| == |keep| && forall i :: 0 <= i < n ==> keep[i]
    ensures Pick(xs, keep, n) == xs[..n]
  {
    if n == 0 {
    } else {
      KeptAll(xs, keep, n - 1);
    }
  }

  lemma {:induction false} PickHolds(keep: seq<bool>, p: seq<bool>, n: nat)
    requires n <= |keep| == |p| && forall i :: 0 <= i < n && p[i] ==> keep[i]
    ensures forall i :: 0 <= i < |Pick(keep, p, n)| ==> Pick(keep, p, n)[i]
  {
    if n == 0 {
    } else {
      PickHolds(keep, p, n - 1);
    }
  }

  lemma OthersKept(log: seq<Exec>, keep: seq<bool>, id: string, a: Algorithm, n: nat)
    requires n <= |log| == |keep|
    requires forall i :: 0 <= i < |log| && Mine(log[i], id, a) ==> keep[i]
    ensures Restrict(Kept(log, keep), id, a) == Restrict(log, id, a)
    ensures Count(keep, 0, n) <= |Kept(log, keep)|
    ensures Rank(Kept(log, keep), id, a, Count(keep, 0, n)) == Rank(log, id, a, n)
  {
    var own, ownKeep := Restrict(log, id, a), OwnKeep(log, keep, id, a);
    RestrictKept(log, keep, id, a);
    RankOfKept(log, keep, id, a, n);
    PickHolds(keep, MineFlags(log, id, a), |log|);
    KeptAll(own, ownKeep, |own|);
    CountEvery(ownKeep, Rank(log, id, a, n));
  }

  /** Nobody else notices, whatever is deleted. */
  lemma OthersUnaffected(log: seq<Exec>, keep: seq<bool>, id: string, a: Algorithm, n: nat)
    requires |keep| == |log| && forall i :: 0 <= i < |log| && !keep[i] ==> Mine(log[i], id, a)
    requires n < |log| && !Mine(log[n], id, a)
    ensures keep[n] && Count(keep, 0, n) < |Kept(log, keep)| && SameReply(log, keep, n)
  {
    KeptAt(log, keep, n);
    NonInterference(map[], log, n);
    NonInterference(map[], Kept(log, keep), Count(keep, 0, n));
    OthersKept(log, keep, log[n].call.id, log[n].call.algorithm, n);
  }

  // ---- token bucket ----

  lemma ReadingsOfKept(log: seq<Exec>, keep: seq<bool>, id: string)
    requires |keep| == |log|
    ensures var own, ownKeep := Restrict(log, id, TokenBucket), OwnKeep(log, keep, id, TokenBucket);
            && BucketStamps(Kept(log, keep), id) == Pick(BucketStamps(log, id), ownKeep, |own|)
            && RedisMillis(Restrict(Kept(log, keep), id, TokenBucket)) == Pick(RedisMillis(own), ownKeep, |own|)
  {
    RestrictKept(log, keep, id, TokenBucket);
    var own := Restrict(log, id, TokenBucket);
    PickedReadings(own, OwnKeep(log, keep, id, TokenBucket), |own|);
  }

  lemma {:induction false} OneConfigOfKept(log: seq<Exec>, keep: seq<bool>, id: string, a: Algorithm, c: Config, n: nat)
    requires n <= |log| == |keep| && OneConfig(log, id, a, c)
    ensures OneConfig(Pick(log, keep, n), id, a, c)
  {
    if n == 0 {
    } else {
      OneConfigOfKept(log, keep, id, a, c, n - 1);
    }
  }

  /** The identifier's own admitted requests are kept. */
  lemma KeepsOwnAdmitted(log: seq<Exec>, keep: seq<bool>, id: string, c: CheckedConfig)
    requires OneConfig(log, id, TokenBucket, c) && OnlyRejected(log, keep, id, TokenBucket)
    ensures BucketRuns.KeepsAdmitted(c, BucketStamps(log, id), BucketDrops(log, id, c),
                                     OwnKeep(log, keep, id, TokenBucket))
  {
    var ts, drops := BucketStamps(log, id), BucketDrops(log, id, c);
    var ownKeep, mine := OwnKeep(log, keep, id, TokenBucket), MineFlags(log, id, TokenBucket);
    forall i: nat | i < |ts| && BucketRuns.ExpiringDecisions(c, ts, drops)[i]
      ensures ownKeep[i]
    {
      var n := PickedFrom(mine, i, |log|);
      TokenBucketReply(log, id, c, n);
      PickedAt(keep, mine, n, |log|);
    }
  }

  /** A key dropped before a kept request is also dropped when requests before it are not made. */
  lemma DropsRemain(c: Config, rs: seq<int>, keep: seq<bool>, n: nat)
    requires n < |rs| == |keep| && keep[n] && keep[0] && Nondecreasing(rs) && BucketRuns.IdleDrops(c, rs)[n]
    ensures Count(keep, 0, n) < |Pick(rs, keep, |rs|)|
    ensures BucketRuns.IdleDrops(c, Pick(rs, keep, |rs|))[Count(keep, 0, n)]
  {
    var i := BucketRuns.LastKept(keep, n);
    BucketRuns.LastKeptPlace(keep, n);
    PickedAt(rs, keep, i, |rs|);
    PickedAt(rs, keep, n, |rs|);
    assert rs[i] <= rs[n - 1];
  }

  /** The identifier's clocks have not gone back and forth between kept requests. */
  predicate ClocksUnswerving(log: seq<Exec>, keep: seq<bool>, id: string)
    requires |keep| == |log|
  {
    BucketRuns.Unswerving(BucketStamps(log, id), OwnKeep(log, keep, id, TokenBucket))
  }

  lemma OwnDeletion(log: seq<Exec>, keep: seq<bool>, id: string, c: CheckedConfig)
    requires OneConfig(log, id, TokenBucket, c) && OnlyRejected(log, keep, id, TokenBucket)
    requires Nondecreasing(RedisMillis(Restrict(log, id, TokenBucket))) && ClocksUnswerving(log, keep, id)
    ensures BucketRuns.Deletion(c, BucketStamps(log, id), BucketDrops(log, id, c), OwnKeep(log, keep, id, TokenBucket),
                                BucketDrops(Kept(log, keep), id, c))
  {
    var rs, ownKeep := RedisMillis(Restrict(log, id, TokenBucket)), OwnKeep(log, keep, id, TokenBucket);
    KeepsOwnAdmitted(log, keep, id, c);
    ReadingsOfKept(log, keep, id);
    forall n: nat | n < |rs| && ownKeep[n]
      ensures Count(ownKeep, 0, n) < |BucketDrops(Kept(log, keep), id, c)|
      ensures BucketDrops(log, id, c)[n] ==> BucketDrops(Kept(log, keep), id, c)[Count(ownKeep, 0, n)]
    {
      PickedAt(rs, ownKeep, n, |rs|);
      if BucketDrops(log, id, c)[n] {
        DropsRemain(c, rs, ownKeep, n);
      }
    }
  }

  lemma DropsOfKept(log: seq<Exec>, keep: seq<bool>, id: string, c: CheckedConfig)
    requires |keep| == |log|
    ensures |BucketDrops(Kept(log, keep), id, c)|
            == Count(OwnKeep(log, keep, id, TokenBucket), 0, |BucketStamps(log, id)|)
  {
    ReadingsOfKept(log, keep, id);
  }

  /** Wherever, in the log without the deleted requests, a request finds its key dropped, it has
      found a full bucket in the log itself. */
  ghost predicate GapsHidden(log: seq<Exec>, keep: seq<bool>, id: string, c: CheckedConfig)
    requires |keep| == |log|
  {
    DropsOfKept(log, keep, id, c);
    BucketRuns.HiddenUpTo(c, BucketStamps(log, id), BucketDrops(log, id, c), OwnKeep(log, keep, id, TokenBucket),
                          BucketDrops(Kept(log, keep), id, c), |BucketStamps(log, id)|)
  }

  /** A kept request of the identifier is told the same in the log exactly if it is in the run of
      the identifier's own requests. */
  lemma OwnSameReply(log: seq<Exec>, keep: seq<bool>, id: string, c: CheckedConfig, n: nat)
    requires OneConfig(log, id, TokenBucket, c) && |keep| == |log|
    requires n < |log| && keep[n] && Mine(log[n], id, TokenBucket)
    ensures Count(keep, 0, n) < |Kept(log, keep)|
    ensures Rank(log, id, TokenBucket, n) < |BucketStamps(log, id)|
    ensures OwnKeep(log, keep, id, TokenBucket)[Rank(log, id, TokenBucket, n)]
    ensures |BucketDrops(Kept(log, keep), id, c)|
            == Count(OwnKeep(log, keep, id, TokenBucket), 0, |BucketStamps(log, id)|)
    ensures SameReply(log, keep, n)
       <==> BucketRuns.SameReplyAt(c, BucketStamps(log, id), BucketDrops(log, id, c),
                                   OwnKeep(log, keep, id, TokenBucket),
                                   BucketDrops(Kept(log, keep), id, c), Rank(log, id, TokenBucket, n))
  {
    var kept, i := Kept(log, keep), Count(keep, 0, n);
    KeptAt(log, keep, n);
    OneConfigOfKept(log, keep, id, TokenBucket, c, |log|);
    TokenBucketReply(kept, id, c, i);
    TokenBucketReply(log, id, c, n);
    ReadingsOfKept(log, keep, id);
    RankOfKept(log, keep, id, TokenBucket, n);
    PickedAt(keep, MineFlags(log, id, TokenBucket), n, |log|);
  }

  /** Token bucket, any drops, and clocks that do not go back and forth between kept requests:
      deleting rejected requests leaves every other reply, to everybody, the same exactly when the
      gaps this opens are hidden. */
  lemma RejectionsAreFreeIff(log: seq<Exec>, keep: seq<bool>, id: string, c: CheckedConfig)
    requires OneConfig(log, id, TokenBucket, c) && OnlyRejected(log, keep, id, TokenBucket)
    requires Nondecreasing(RedisMillis(Restrict(log, id, TokenBucket))) && ClocksUnswerving(log, keep, id)
    ensures (forall n: nat | n < |log| && keep[n] :: Count(keep, 0, n) < |Kept(log, keep)| && SameReply(log, keep, n))
       <==> GapsHidden(log, keep, id, c)
  {
    var ts, drops := BucketStamps(log, id), BucketDrops(log, id, c);
    var ownKeep, drops' := OwnKeep(log, keep, id, TokenBucket), BucketDrops(Kept(log, keep), id, c);
    DropsOfKept(log, keep, id, c);
    OwnDeletion(log, keep, id, c);
    BucketRuns.DeletionIff(c, ts, drops, ownKeep, drops');
    if GapsHidden(log, keep, id, c) {
      forall n: nat | n < |log| && keep[n]
        ensures Count(keep, 0, n) < |Kept(log, keep)| && SameReply(log, keep, n)
      {
        if Mine(log[n], id, TokenBucket) {
          OwnSameReply(log, keep, id, c, n);
        } else {
          OthersUnaffected(log, keep, id, TokenBucket, n);
        }
      }
    } else {
      var r: nat :| r < |ts| && ownKeep[r] && !BucketRuns.SameReplyAt(c, ts, drops, ownKeep, drops', r);
      var n := PickedFrom(MineFlags(log, id, TokenBucket), r, |log|);
      PickedAt(keep, MineFlags(log, id, TokenBucket), n, |log|);
      OwnSameReply(log, keep, id, c, n);
      assert !SameReply(log, keep, n);
    }
  }

  lemma GapHidden(log: seq<Exec>, keep: seq<bool>, id: string, c: CheckedConfig, late: nat, early: nat, r: nat)
    requires OneConfig(log, id, TokenBucket, c) && OnlyRejected(log, keep, id, TokenBucket)
    requires late + early <= 1000 * c.window
    requires var own := Restrict(log, id, TokenBucket); BucketRuns.Skewed(Millis(own), RedisMillis(own), late, early)
    requires |BucketDrops(Kept(log, keep), id, c)|
            == Count(OwnKeep(log, keep, id, TokenBucket), 0, |BucketStamps(log, id)|)
    requires r < |BucketStamps(log, id)| && OwnKeep(log, keep, id, TokenBucket)[r]
            && OwnKeep(log, keep, id, TokenBucket)[0]
    ensures BucketRuns.HiddenAt(c, BucketStamps(log, id), BucketDrops(log, id, c), OwnKeep(log, keep, id, TokenBucket),
                                BucketDrops(Kept(log, keep), id, c), r)
  {
    var rs, ownKeep := RedisMillis(Restrict(log, id, TokenBucket)), OwnKeep(log, keep, id, TokenBucket);
    PickedAt(rs, ownKeep, r, |rs|);
    if r > 0 && BucketDrops(Kept(log, keep), id, c)[Count(ownKeep, 0, r)] {
      var i := BucketRuns.LastKept(ownKeep, r);
      ReadingsOfKept(log, keep, id);
      BucketRuns.LastKeptPlace(ownKeep, r);
      PickedAt(rs, ownKeep, i, |rs|);
      KeepsOwnAdmitted(log, keep, id, c);
      BucketRuns.FullAfterWindow(c, BucketStamps(log, id), BucketDrops(log, id, c), ownKeep, r);
    }
  }

  /** So rejections are free as long as the clock errors add up to at most one window: then no
      deletion can open a gap that shows. */
  lemma RejectionsAreFree(log: seq<Exec>, keep: seq<bool>, id: string, c: CheckedConfig, late: nat, early: nat, n: nat)
    requires OneConfig(log, id, TokenBucket, c) && OnlyRejected(log, keep, id, TokenBucket)
    requires ClocksUnswerving(log, keep, id)
    requires late + early <= 1000 * c.window
    requires var own := Restrict(log, id, TokenBucket); BucketRuns.Skewed(Millis(own), RedisMillis(own), late, early)
    requires n < |log| && keep[n]
    ensures Count(keep, 0, n) < |Kept(log, keep)| && SameReply(log, keep, n)
  {
    DropsOfKept(log, keep, id, c);
    forall r: nat | r < |BucketStamps(log, id)| && OwnKeep(log, keep, id, TokenBucket)[r]
      ensures BucketRuns.HiddenAt(c, BucketStamps(log, id), BucketDrops(log, id, c),
                                  OwnKeep(log, keep, id, TokenBucket),
                                  BucketDrops(Kept(log, keep), id, c), r)
    {
      GapHidden(log, keep, id, c, late, early, r);
    }
    RejectionsAreFreeIff(log, keep, id, c);
  }

  /** One request every 10 seconds allowed; three stamped alike, whose scripts run 15 s apart. */
  const ONE_IN_TEN := Config(1, 10)

  function Stalled(redisMs: seq<int>): (log: seq<Exec>)
    ensures |log| == |redisMs|
    ensures forall i :: 0 <= i < |log| ==> log[i] == Exec(Call("id", TokenBucket, ONE_IN_TEN, 0), redisMs[i])
  {
    seq(|redisMs|, i requires 0 <= i < |redisMs| => Exec(Call("id", TokenBucket, ONE_IN_TEN, 0), redisMs[i]))
  }

  lemma OwnIsAll(log: seq<Exec>, id: string, a: Algorithm)
    requires forall i :: 0 <= i < |log| ==> Mine(log[i], id, a)
    ensures Restrict(log, id, a) == log
  {
    KeptAll(log, MineFlags(log, id, a), |log|);
  }

  lemma StalledReply(redisMs: seq<int>, n: nat)
    requires n < |redisMs|
    ensures var log := Stalled(redisMs);
            ReplyAt(map[], log, n)
            == Ok(BucketRuns.ExpiringReplyAt(ONE_IN_TEN, Millis(log),
               BucketRuns.IdleDrops(ONE_IN_TEN, RedisMillis(log)), n))
  {
    BucketRepliesAre(Stalled(redisMs), "id", ONE_IN_TEN, n);
  }

  lemma StalledIsRejected()
    ensures var log := Stalled([0, 15000, 30000]);
            forall n :: 1 <= n < 3 ==> ReplyAt(map[], log, n).Ok? && !ReplyAt(map[], log, n).value.allowed
  {
    var log := Stalled([0, 15000, 30000]);
    var ts, drops := Millis(log), BucketRuns.IdleDrops(ONE_IN_TEN, RedisMillis(log));
    assert BucketRuns.ExpiringAt(ONE_IN_TEN, ts, drops, 0) == None;
    assert BucketRuns.ExpiringAt(ONE_IN_TEN, ts, drops, 1) == Some(Levels.Level(0, 0));
    assert BucketRuns.ExpiringAt(ONE_IN_TEN, ts, drops, 2) == Some(Levels.Level(0, 0));
    StalledReply([0, 15000, 30000], 1);
    StalledReply([0, 15000, 30000], 2);
  }

  lemma StalledWithoutIsAdmitted()
    ensures ReplyAt(map[], Stalled([0, 30000]), 1).Ok? && ReplyAt(map[], Stalled([0, 30000]), 1).value.allowed
  {
    StalledReply([0, 30000], 1);
  }

  /** Retry-After does not hold when the key is dropped: the second of these requests is told to
      wait 10 s, and the third, stamped alike, is admitted with nothing admitted in between. */
  lemma WaitCutShort()
    ensures var log := Stalled([0, 0, 20000]);
            && ReplyAt(map[], log, 1).Ok? && !ReplyAt(map[], log, 1).value.allowed
            && ReplyAt(map[], log, 1).value.retryAfter == 10
            && ReplyAt(map[], log, 2).Ok? && ReplyAt(map[], log, 2).value.allowed
  {
    var log := Stalled([0, 0, 20000]);
    var ts, drops := Millis(log), BucketRuns.IdleDrops(ONE_IN_TEN, RedisMillis(log));
    assert BucketRuns.ExpiringAt(ONE_IN_TEN, ts, drops, 0) == None;
    assert BucketRuns.ExpiringAt(ONE_IN_TEN, ts, drops, 1) == Some(Levels.Level(0, 0));
    StalledReply([0, 0, 20000], 1);
    StalledReply([0, 0, 20000], 2);
  }

  lemma WithoutSecond()
    ensures var log, keep := Stalled([0, 15000, 30000]), [true, false, true];
            && Count(keep, 0, 2) == 1 < |Kept(log, keep)|
            && Kept(log, keep) == Stalled([0, 30000])
  {
    var log, keep := Stalled([0, 15000, 30000]), [true, false, true];
    assert Count(keep, 0, 1) == 1 && Count(keep, 0, 2) == 1 && Count(keep, 0, 3) == 2;
    assert Pick(log, keep, 1) == [log[0]] && Pick(log, keep, 2) == [log[0]];
    assert Kept(log, keep) == [log[0], log[2]];
  }

  lemma StalledIsCalm()
    ensures var log, keep := Stalled([0, 15000, 30000]), [true, false, true];
            TtlUnnoticed(log, "id", ONE_IN_TEN) && ClocksUnswerving(log, keep, "id")
  {
    var log, keep := Stalled([0, 15000, 30000]), [true, false, true];
    OwnIsAll(log, "id", TokenBucket);
    KeptAll(keep, MineFlags(log, "id", TokenBucket), 3);
    BucketRuns.ForwardClocksUnswerving(BucketStamps(log, "id"), keep);
    AgreeingGapsUnnoticed(log, "id", ONE_IN_TEN);
  }

  /** In general they are not free: the gaps between these scripts are short, and yet the last
      request, rejected here, is admitted if the second one, also rejected, is never made. */
  lemma RejectionCounts()
    ensures var log, keep := Stalled([0, 15000, 30000]), [true, false, true];
            && OneConfig(log, "id", TokenBucket, ONE_IN_TEN)
            && TtlUnnoticed(log, "id", ONE_IN_TEN)
            && OnlyRejected(log, keep, "id", TokenBucket)
            && ClocksUnswerving(log, keep, "id")
            && Count(keep, 0, 2) < |Kept(log, keep)|
            && !SameReply(log, keep, 2)
  {
    StalledIsCalm();
    StalledIsRejected();
    StalledWithoutIsAdmitted();
    WithoutSecond();
  }

  // ---- fixed window ----

  lemma KeepsWindowAdmitted(log: seq<Exec>, keep: seq<bool>, id: string, c: CheckedConfig)
    requires OneConfig(log, id, FixedWindow, c) && OnlyRejected(log, keep, id, FixedWindow)
    requires Nondecreasing(RedisMillis(Restrict(log, id, FixedWindow)))
    ensures var own := Restrict(log, id, FixedWindow);
            WindowRuns.KeepsAdmitted(c, Seconds(own), RedisMillis(own), OwnKeep(log, keep, id, FixedWindow))
  {
    var own, mine := Restrict(log, id, FixedWindow), MineFlags(log, id, FixedWindow);
    forall i: nat | i < |own| && WindowRuns.AdmitsAt(c, Seconds(own), RedisMillis(own), i)
      ensures OwnKeep(log, keep, id, FixedWindow)[i]
    {
      var n := PickedFrom(mine, i, |log|);
      FixedWindowReply(log, id, c, n);
      PickedAt(keep, mine, n, |log|);
    }
  }

  /** Fixed window, any API clocks: deleting rejected requests leaves every other reply the same. */
  lemma WindowRejectionsAreFree(log: seq<Exec>, keep: seq<bool>, id: string, c: CheckedConfig, n: nat)
    requires OneConfig(log, id, FixedWindow, c) && OnlyRejected(log, keep, id, FixedWindow)
    requires Nondecreasing(RedisMillis(Restrict(log, id, FixedWindow)))
    requires n < |log| && keep[n]
    ensures Count(keep, 0, n) < |Kept(log, keep)| && SameReply(log, keep, n)
  {
    if !Mine(log[n], id, FixedWindow) {
      OthersUnaffected(log, keep, id, FixedWindow, n);
    } else {
      var own, ownKeep := Restrict(log, id, FixedWindow), OwnKeep(log, keep, id, FixedWindow);
      KeptAt(log, keep, n);
      OneConfigOfKept(log, keep, id, FixedWindow, c, |log|);
      RestrictKept(log, keep, id, FixedWindow);
      PickNondecreasing(RedisMillis(own), ownKeep, |own|);
      PickedReadings(own, ownKeep, |own|);
      RankOfKept(log, keep, id, FixedWindow, n);
      FixedWindowReply(log, id, c, n);
      FixedWindowReply(Kept(log, keep), id, c, Count(keep, 0, n));
      KeepsWindowAdmitted(log, keep, id, c);
      PickedAt(keep, MineFlags(log, id, FixedWindow), n, |log|);
      WindowRuns.DeletionKeepsReplies(c, Seconds(own), RedisMillis(own), ownKeep, Rank(log, id, FixedWindow, n));
    }
  }
}
