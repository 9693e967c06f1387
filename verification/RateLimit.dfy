/** The sliding-window rate limiter and the authenticator of auth.py.

    Times are seconds of a clock as reals. The deque of a token is a sequence, head first. */
module RateLimit {
  import opened Sequences

  const RATE_LIMIT_WINDOW_SECONDS := 60.0

  type TokenId = string
  type Buckets = map<TokenId, seq<real>>

  datatype Verdict = Accepted(count: nat) | RateLimitExceeded

  function BucketOf(buckets: Buckets, id: TokenId): seq<real> {
    if id in buckets then buckets[id] else []
  }

  /** The eviction loop: hits older than the cutoff leave at the head. */
  function Evict(bucket: seq<real>, cutoff: real): seq<real> {
    if bucket != [] && bucket[0] < cutoff then Evict(bucket[1..], cutoff) else bucket
  }

  /** One call of check as a function of the state: the new buckets and the verdict. */
  function CheckStep(buckets: Buckets, max: nat, id: TokenId, now: real): (Buckets, Verdict) {
    var bucket := Evict(BucketOf(buckets, id), now - RATE_LIMIT_WINDOW_SECONDS);
    if |bucket| >= max then (buckets[id := bucket], RateLimitExceeded)
    else (buckets[id := bucket + [now]], Accepted(|bucket| + 1))
  }

  class RateLimiter {
    const maxPerMinute: nat
    var buckets: Buckets

    constructor (maxPerMinute: nat)
      requires maxPerMinute >= 1
      ensures this.maxPerMinute == maxPerMinute && buckets == map[]
    {
      this.maxPerMinute := maxPerMinute;
      buckets := map[];
    }

    method Check(id: TokenId, now: real) returns (verdict: Verdict)
      modifies this
      ensures (buckets, verdict) == CheckStep(old(buckets), maxPerMinute, id, now)
    {
      var cutoff := now - RATE_LIMIT_WINDOW_SECONDS;
      var bucket := BucketOf(buckets, id);
      while bucket != [] && bucket[0] < cutoff
        invariant Evict(bucket, cutoff) == Evict(BucketOf(old(buckets), id), cutoff)
        decreases |bucket|
      {
        bucket := bucket[1..];
      }
      buckets := buckets[id := bucket];
      if |bucket| >= maxPerMinute {
        return RateLimitExceeded;
      }
      bucket := bucket + [now];
      buckets := buckets[id := bucket];
      assert buckets == old(buckets)[id := bucket];
      return Accepted(|bucket|);
    }
  }

  // ----- Runs ------------------------------------------------------------------------------------

  datatype Call = Call(id: TokenId, time: real)

  /** The buckets after a sequence of checks from a new limiter. */
  function BucketsAfter(max: nat, calls: seq<Call>): Buckets {
    if calls == [] then map[]
    else NextBuckets(max, BucketsAfter(max, calls[..|calls| - 1]), calls[|calls| - 1])
  }

  function NextBuckets(max: nat, buckets: Buckets, next: Call): Buckets {
    CheckStep(buckets, max, next.id, next.time).0
  }

  /** The verdict that a further call gets after the run. */
  function NextVerdict(max: nat, calls: seq<Call>, next: Call): Verdict {
    VerdictFor(max, BucketsAfter(max, calls), next)
  }

  function VerdictFor(max: nat, buckets: Buckets, next: Call): Verdict {
    CheckStep(buckets, max, next.id, next.time).1
  }

  /** The verdict of call k of the run. */
  function VerdictAt(max: nat, calls: seq<Call>, k: nat): Verdict
    requires k < |calls|
  {
    NextVerdict(max, calls[..k], calls[k])
  }

  /** The hit of token `id`, if any, that the next call makes. */
  function HitOf(max: nat, calls: seq<Call>, next: Call, id: TokenId): seq<real> {
    if next.id == id && NextVerdict(max, calls, next).Accepted? then [next.time] else []
  }

  /** Times of all accepted calls of a token, whether or not the limiter still remembers them. */
  function Hits(max: nat, calls: seq<Call>, id: TokenId): seq<real> {
    if calls == [] then []
    else
      var n := |calls| - 1;
      Hits(max, calls[..n], id) +
      HitOf(max, calls[..n], calls[n], id)
  }

  /** The clock of each token's calls never goes back. */
  predicate Monotone(calls: seq<Call>) {
    forall j, k :: 0 <= j < k < |calls| && calls[j].id == calls[k].id ==> calls[j].time <= calls[k].time
  }

  /** Time of the token's latest check. */
  function LatestCheck(calls: seq<Call>, id: TokenId): (at: nat)
    ensures at <= |calls|
    ensures at < |calls| ==> calls[at].id == id
    ensures forall k :: at < k < |calls| ==> calls[k].id != id
    ensures at == |calls| ==> forall k :: 0 <= k < |calls| ==> calls[k].id != id
  {
    if calls == [] then 0
    else
      var n := |calls| - 1;
      if calls[n].id == id then n
      else
        var at := LatestCheck(calls[..n], id);
        if at == n then n + 1 else at
  }

  // ----- The plain definition: count the accepted hits of the last 60 seconds --------------------

  /** How many of the times lie in [from, to]. */
  function CountIn(times: seq<real>, from: real, to: real): nat {
    if times == [] then 0
    else (if from <= times[0] <= to then 1 else 0) + CountIn(times[1..], from, to)
  }

  /** The times not before the cutoff. */
  function Since(times: seq<real>, cutoff: real): (kept: seq<real>)
    ensures |kept| <= |times|
  {
    if times == [] then []
    else (if times[0] >= cutoff then [times[0]] else []) + Since(times[1..], cutoff)
  }

  predicate Sorted(times: seq<real>) {
    forall i, j :: 0 <= i <= j < |times| ==> times[i] <= times[j]
  }

  lemma {:induction false} SinceAppend(times: seq<real>, t: real, cutoff: real)
    ensures Since(times + [t], cutoff) == Since(times, cutoff) + (if t >= cutoff then [t] else [])
  {
    if times == [] {
      assert times + [t] == [t];
      assert Since([t], cutoff) == (if t >= cutoff then [t] else []) + Since([], cutoff);
    } else {
      assert (times + [t])[1..] == times[1..] + [t];
      SinceAppend(times[1..], t, cutoff);
      ConcatAssociative(if times[0] >= cutoff then [times[0]] else [], Since(times[1..], cutoff),
                        if t >= cutoff then [t] else []);
    }
  }

  /** In a sorted sequence, evicting at the head removes all that is old. */
  lemma {:induction false} EvictIsSince(times: seq<real>, cutoff: real)
    requires Sorted(times)
    ensures Evict(times, cutoff) == Since(times, cutoff)
  {
    if times != [] {
      EvictIsSince(times[1..], cutoff);
      if times[0] >= cutoff { SinceAll(times, cutoff); }
    }
  }

  lemma {:induction false} SinceAll(times: seq<real>, cutoff: real)
    requires forall i :: 0 <= i < |times| ==> times[i] >= cutoff
    ensures Since(times, cutoff) == times
  {
    if times != [] { SinceAll(times[1..], cutoff); }
  }

  lemma {:induction false} SinceSince(times: seq<real>, first: real, second: real)
    requires first <= second
    ensures Since(Since(times, first), second) == Since(times, second)
  {
    if times != [] {
      SinceSince(times[1..], first, second);
      var rest := Since(times[1..], first);
      if times[0] >= first {
        assert ([times[0]] + rest)[1..] == rest;
      } else {
        assert [] + rest == rest;
        assert [] + Since(times[1..], second) == Since(times[1..], second);
      }
    }
  }

  lemma {:induction false} SinceSorted(times: seq<real>, cutoff: real)
    requires Sorted(times)
    ensures Sorted(Since(times, cutoff))
    ensures forall t :: t in Since(times, cutoff) ==> t in times
  {
    if times != [] {
      var rest := Since(times[1..], cutoff);
      SinceSorted(times[1..], cutoff);
      assert forall t :: t in times[1..] ==> t in times;
      forall t | t in rest ensures times[0] <= t {
        var j :| 0 <= j < |times[1..]| && times[1..][j] == t;
      }
      SortedCons(times[0], rest);
    }
  }

  lemma SortedCons(t: real, rest: seq<real>)
    requires Sorted(rest) && forall r :: r in rest ==> t <= r
    ensures Sorted([t] + rest)
  {
    assert forall k :: 0 <= k < |rest| ==> rest[k] in rest;
  }

  lemma SortedSnoc(rest: seq<real>, t: real)
    requires Sorted(rest) && forall r :: r in rest ==> r <= t
    ensures Sorted(rest + [t])
  {
    assert forall k :: 0 <= k < |rest| ==> rest[k] in rest;
  }

  // ----- The invariant of every run --------------------------------------------------------------

  /** Hits are times of the token's own calls, in order. */
  lemma {:induction false} HitsSorted(max: nat, calls: seq<Call>, id: TokenId)
    requires Monotone(calls)
    ensures Sorted(Hits(max, calls, id))
    ensures forall t :: t in Hits(max, calls, id) ==> Call(id, t) in calls
  {
    if calls != [] {
      var n := |calls| - 1;
      MonotonePrefix(calls, n);
      HitsSorted(max, calls[..n], id);
      var before := Hits(max, calls[..n], id);
      assert forall c :: c in calls[..n] ==> c in calls;
      if calls[n].id == id {
        forall t | t in before ensures t <= calls[n].time {
          CallsNotAfter(calls, n, Call(id, t));
        }
        SortedSnoc(before, calls[n].time);
        assert Call(id, calls[n].time) == calls[n];
      }
    }
  }

  lemma CallsNotAfter(calls: seq<Call>, k: nat, c: Call)
    requires Monotone(calls) && k < |calls| && c in calls[..k] && c.id == calls[k].id
    ensures c.time <= calls[k].time
  {
    var j :| 0 <= j < k && calls[..k][j] == c;
    assert calls[j] == c;
  }

  lemma MonotonePrefix(calls: seq<Call>, n: nat)
    requires Monotone(calls) && n <= |calls|
    ensures Monotone(calls[..n])
  {
    assert forall k :: 0 <= k < n ==> calls[..n][k] == calls[k];
  }

  /** The bucket of a token holds the accepted hits not older than 60 seconds at its latest check. */
  predicate BucketExact(max: nat, calls: seq<Call>, id: TokenId) {
    var at := LatestCheck(calls, id);
    BucketOf(BucketsAfter(max, calls), id) ==
    if at == |calls| then [] else Since(Hits(max, calls, id), calls[at].time - RATE_LIMIT_WINDOW_SECONDS)
  }

  lemma {:induction false} NoChecksNoHits(max: nat, calls: seq<Call>, id: TokenId)
    requires forall k :: 0 <= k < |calls| ==> calls[k].id != id
    ensures Hits(max, calls, id) == []
  {
    if calls != [] { NoChecksNoHits(max, calls[..|calls| - 1], id); }
  }

  /** Eviction leaves exactly the recent hits when the token is checked next. */
  predicate EvictionExact(max: nat, calls: seq<Call>, next: Call) {
    var cutoff := next.time - RATE_LIMIT_WINDOW_SECONDS;
    Evict(BucketOf(BucketsAfter(max, calls), next.id), cutoff) == Since(Hits(max, calls, next.id), cutoff)
  }

  lemma EvictedAtCheck(max: nat, calls: seq<Call>, k: nat)
    requires Monotone(calls) && k < |calls| && BucketExact(max, calls[..k], calls[k].id)
    ensures EvictionExact(max, calls[..k], calls[k])
  {
    var id, now, before := calls[k].id, calls[k].time, calls[..k];
    var hits, at := Hits(max, before, id), LatestCheck(before, id);
    if at == k {
      NoChecksNoHits(max, before, id);
    } else {
      var first := before[at].time - RATE_LIMIT_WINDOW_SECONDS;
      assert before[at].time <= now by { CallsNotAfter(calls, k, before[at]); }
      assert Sorted(hits) by {
        MonotonePrefix(calls, k);
        HitsSorted(max, before, id);
      }
      EvictTwice(hits, first, now - RATE_LIMIT_WINDOW_SECONDS);
    }
  }

  lemma EvictTwice(hits: seq<real>, first: real, second: real)
    requires Sorted(hits) && first <= second
    ensures Evict(Since(hits, first), second) == Since(hits, second)
  {
    SinceSorted(hits, first);
    EvictIsSince(Since(hits, first), second);
    SinceSince(hits, first, second);
  }

  /** Over any run the bucket of a token always equals the accepted hits not older than 60 seconds
      at that token's latest check. */
  lemma {:induction false} BucketIsRecentHits(max: nat, calls: seq<Call>, id: TokenId)
    requires Monotone(calls)
    ensures BucketExact(max, calls, id)
  {
    if calls != [] {
      var n := |calls| - 1;
      MonotonePrefix(calls, n);
      BucketIsRecentHits(max, calls[..n], id);
      if calls[n].id == id {
        EvictedAtCheck(max, calls, n);
        OwnTokensCall(max, calls);
      } else {
        OtherTokensCall(max, calls, id);
      }
    }
  }

  /** A check keeps bucket and recent hits together, whether it is accepted or refused. */
  lemma BucketFollowsHits(max: nat, buckets: Buckets, next: Call, hits: seq<real>)
    requires Evict(BucketOf(buckets, next.id), next.time - RATE_LIMIT_WINDOW_SECONDS) ==
             Since(hits, next.time - RATE_LIMIT_WINDOW_SECONDS)
    ensures BucketOf(NextBuckets(max, buckets, next), next.id) ==
            Since(hits + (if VerdictFor(max, buckets, next).Accepted? then [next.time] else []),
                  next.time - RATE_LIMIT_WINDOW_SECONDS)
  {
    SinceAppend(hits, next.time, next.time - RATE_LIMIT_WINDOW_SECONDS);
    AppendNothing(hits);
  }

  lemma OwnTokensCall(max: nat, calls: seq<Call>)
    requires calls != []
    requires EvictionExact(max, calls[..|calls| - 1], calls[|calls| - 1])
    ensures BucketExact(max, calls, calls[|calls| - 1].id)
  {
    var n := |calls| - 1;
    BucketFollowsHits(max, BucketsAfter(max, calls[..n]), calls[n], Hits(max, calls[..n], calls[n].id));
  }

  lemma OtherTokensCall(max: nat, calls: seq<Call>, id: TokenId)
    requires calls != [] && calls[|calls| - 1].id != id
    requires BucketExact(max, calls[..|calls| - 1], id)
    ensures BucketExact(max, calls, id)
  {
    var n := |calls| - 1;
    AppendNothing(Hits(max, calls[..n], id));
    var at := LatestCheck(calls[..n], id);
    if at < n {
      assert calls[..n][at] == calls[at];
    }
  }

  lemma {:induction false} SinceCounts(times: seq<real>, from: real, to: real)
    requires forall t :: t in times ==> t <= to
    ensures |Since(times, from)| == CountIn(times, from, to)
  {
    if times != [] {
      assert times[0] in times && forall t :: t in times[1..] ==> t in times;
      SinceCounts(times[1..], from, to);
    }
  }

  predicate VerdictExact(max: nat, calls: seq<Call>, next: Call) {
    var recent := CountIn(Hits(max, calls, next.id), next.time - RATE_LIMIT_WINDOW_SECONDS, next.time);
    NextVerdict(max, calls, next) == if recent >= max then RateLimitExceeded else Accepted(recent + 1)
  }

  lemma VerdictExactAt(max: nat, calls: seq<Call>, k: nat)
    requires Monotone(calls) && k < |calls|
    ensures VerdictExact(max, calls[..k], calls[k])
  {
    var id, now := calls[k].id, calls[k].time;
    MonotonePrefix(calls, k);
    BucketIsRecentHits(max, calls[..k], id);
    EvictedAtCheck(max, calls, k);
    VerdictOfBucket(max, calls, k, Since(Hits(max, calls[..k], id), now - RATE_LIMIT_WINDOW_SECONDS));
    HitsNotAfter(max, calls, k);
    SinceCounts(Hits(max, calls[..k], id), now - RATE_LIMIT_WINDOW_SECONDS, now);
  }

  /** Exactness: a call is refused exactly when `max` accepted hits of its token lie in the closed
      60 seconds before it; an accepted call reports their number, itself included. */
  lemma VerdictIsExact(max: nat, calls: seq<Call>, k: nat)
    requires Monotone(calls) && k < |calls|
    ensures var recent := CountIn(Hits(max, calls[..k], calls[k].id),
                                  calls[k].time - RATE_LIMIT_WINDOW_SECONDS, calls[k].time);
            VerdictAt(max, calls, k) == if recent >= max then RateLimitExceeded else Accepted(recent + 1)
  {
    VerdictExactAt(max, calls, k);
  }

  lemma VerdictOfBucket(max: nat, calls: seq<Call>, k: nat, bucket: seq<real>)
    requires k < |calls|
    requires Evict(BucketOf(BucketsAfter(max, calls[..k]), calls[k].id), calls[k].time - RATE_LIMIT_WINDOW_SECONDS) ==
             bucket
    ensures VerdictAt(max, calls, k) == if |bucket| >= max then RateLimitExceeded else Accepted(|bucket| + 1)
  {
  }

  lemma HitsNotAfter(max: nat, calls: seq<Call>, k: nat)
    requires Monotone(calls) && k < |calls|
    ensures forall t :: t in Hits(max, calls[..k], calls[k].id) ==> t <= calls[k].time
  {
    var id := calls[k].id;
    MonotonePrefix(calls, k);
    HitsSorted(max, calls[..k], id);
    forall t | t in Hits(max, calls[..k], id) ensures t <= calls[k].time {
      CallsNotAfter(calls, k, Call(id, t));
    }
  }

  // ----- No window holds more than the limit -----------------------------------------------------

  /** Any max + 1 consecutive hits span more than 60 seconds. */
  predicate Spaced(max: nat, times: seq<real>) {
    forall i, j :: 0 <= i < |times| && j == i + max && j < |times| ==>
      times[j] - times[i] > RATE_LIMIT_WINDOW_SECONDS
  }

  lemma {:induction false} HitsSpaced(max: nat, calls: seq<Call>, id: TokenId)
    requires max >= 1 && Monotone(calls)
    ensures Spaced(max, Hits(max, calls, id))
  {
    if calls != [] {
      var n := |calls| - 1;
      MonotonePrefix(calls, n);
      HitsSpaced(max, calls[..n], id);
      var before := Hits(max, calls[..n], id);
      if calls[n].id == id && VerdictAt(max, calls, n).Accepted? {
        VerdictIsExact(max, calls, n);
        HitsNotAfter(max, calls, n);
        HitsSorted(max, calls[..n], id);
        SpacedSnoc(max, before, calls[n].time);
      }
    }
  }

  lemma SpacedSnoc(max: nat, before: seq<real>, now: real)
    requires Sorted(before) && Spaced(max, before) && forall t :: t in before ==> t <= now
    requires CountIn(before, now - RATE_LIMIT_WINDOW_SECONDS, now) < max
    ensures Spaced(max, before + [now])
  {
    if |before| >= max && before[|before| - max] >= now - RATE_LIMIT_WINDOW_SECONDS {
      CountSuffix(before, |before| - max, now - RATE_LIMIT_WINDOW_SECONDS, now);
    }
  }

  /** A sorted sequence that from index i on lies in the interval has at least that many in it. */
  lemma {:induction false} CountSuffix(times: seq<real>, i: nat, from: real, to: real)
    requires Sorted(times) && i <= |times|
    requires i < |times| ==> from <= times[i]
    requires forall t :: t in times ==> t <= to
    ensures CountIn(times, from, to) >= |times| - i
  {
    if times != [] {
      assert times[0] in times && forall t :: t in times[1..] ==> t in times;
      CountSuffix(times[1..], if i == 0 then 0 else i - 1, from, to);
    }
  }

  // ----- Calls that enter out of clock order -----------------------------------------------------

  /** The time of a call is read before the lock is taken, so calls can enter in another order: here a
      token's calls enter at most `d` seconds late, behind calls of a later time. */
  predicate Skewed(d: real, calls: seq<Call>, id: TokenId) {
    forall j, k :: 0 <= j < k < |calls| && calls[j].id == id && calls[k].id == id ==>
      calls[j].time <= calls[k].time + d
  }

  /** What one token's next verdict depends on: its bucket; and the hits it has had. */
  predicate TokenHolds(max: nat, calls: seq<Call>, id: TokenId, bucket: seq<real>, hits: seq<real>) {
    BucketOf(BucketsAfter(max, calls), id) == bucket && Hits(max, calls, id) == hits
  }

  /** One call of the token: eviction, then the hit if there is room. */
  lemma CallStep(max: nat, calls: seq<Call>, bucket: seq<real>, hits: seq<real>)
    requires calls != [] && TokenHolds(max, calls[..|calls| - 1], calls[|calls| - 1].id, bucket, hits)
    ensures var next := calls[|calls| - 1];
            var evicted := Evict(bucket, next.time - RATE_LIMIT_WINDOW_SECONDS);
            if |evicted| >= max then TokenHolds(max, calls, next.id, evicted, hits + [])
            else TokenHolds(max, calls, next.id, evicted + [next.time], hits + [next.time])
  {
  }

  lemma SkewedPrefix(d: real, calls: seq<Call>, id: TokenId, n: nat)
    requires Skewed(d, calls, id) && n <= |calls|
    ensures Skewed(d, calls[..n], id)
  {
    assert forall k :: 0 <= k < n ==> calls[..n][k] == calls[k];
  }

  lemma {:induction false} CountSnoc(times: seq<real>, t: real, from: real, to: real)
    ensures CountIn(times + [t], from, to) == CountIn(times, from, to) + (if from <= t <= to then 1 else 0)
  {
    if times == [] {
      assert times + [t] == [t] && [t][1..] == [];
    } else {
      assert (times + [t])[1..] == times[1..] + [t];
      CountSnoc(times[1..], t, from, to);
    }
  }

  lemma {:induction false} CountAtMost(times: seq<real>, from: real, to: real)
    ensures CountIn(times, from, to) <= |times|
  {
    if times != [] { CountAtMost(times[1..], from, to); }
  }

  /** A shorter interval holds no more. */
  lemma {:induction false} CountWithin(times: seq<real>, from: real, to: real, end: real)
    requires to <= end
    ensures CountIn(times, from, to) <= CountIn(times, from, end)
  {
    if times != [] { CountWithin(times[1..], from, to, end); }
  }

  /** Eviction takes away nothing that an interval from the cutoff on holds. */
  lemma {:induction false} EvictKeepsCount(bucket: seq<real>, cutoff: real, from: real, to: real)
    requires cutoff <= from
    ensures CountIn(Evict(bucket, cutoff), from, to) == CountIn(bucket, from, to)
  {
    if bucket != [] && bucket[0] < cutoff { EvictKeepsCount(bucket[1..], cutoff, from, to); }
  }

  /** On the interval, bucket and hits of the token count the same. */
  predicate AgreeOn(max: nat, calls: seq<Call>, id: TokenId, from: real, to: real) {
    CountIn(BucketOf(BucketsAfter(max, calls), id), from, to) == CountIn(Hits(max, calls, id), from, to)
  }

  /** Whatever the clock, a bucket and the hits agree on every interval that starts no earlier than
      60 seconds before any check of the token. */
  lemma {:induction false} BucketKeepsRecent(max: nat, calls: seq<Call>, id: TokenId, from: real, to: real)
    requires forall k :: 0 <= k < |calls| && calls[k].id == id ==> calls[k].time - RATE_LIMIT_WINDOW_SECONDS <= from
    ensures AgreeOn(max, calls, id, from, to)
  {
    if calls != [] {
      var n := |calls| - 1;
      BucketKeepsRecent(max, calls[..n], id, from, to);
      if calls[n].id == id {
        RecentOwnCall(max, calls, from, to);
      } else {
        AppendNothing(Hits(max, calls[..n], id));
      }
    }
  }

  lemma RecentOwnCall(max: nat, calls: seq<Call>, from: real, to: real)
    requires calls != [] && calls[|calls| - 1].time - RATE_LIMIT_WINDOW_SECONDS <= from
    requires AgreeOn(max, calls[..|calls| - 1], calls[|calls| - 1].id, from, to)
    ensures AgreeOn(max, calls, calls[|calls| - 1].id, from, to)
  {
    var before, id := calls[..|calls| - 1], calls[|calls| - 1].id;
    RecentCall(max, calls, BucketOf(BucketsAfter(max, before), id), Hits(max, before, id), from, to);
  }

  lemma RecentCall(max: nat, calls: seq<Call>, bucket: seq<real>, hits: seq<real>, from: real, to: real)
    requires calls != [] && calls[|calls| - 1].time - RATE_LIMIT_WINDOW_SECONDS <= from
    requires TokenHolds(max, calls[..|calls| - 1], calls[|calls| - 1].id, bucket, hits)
    requires CountIn(bucket, from, to) == CountIn(hits, from, to)
    ensures AgreeOn(max, calls, calls[|calls| - 1].id, from, to)
  {
    var id, now := calls[|calls| - 1].id, calls[|calls| - 1].time;
    var evicted := Evict(bucket, now - RATE_LIMIT_WINDOW_SECONDS);
    CallStep(max, calls, bucket, hits);
    RecentStep(bucket, hits, now, from, to);
    if |evicted| >= max {
      AgreeHeld(max, calls, id, evicted, hits + [], from, to);
    } else {
      AgreeHeld(max, calls, id, evicted + [now], hits + [now], from, to);
    }
  }

  lemma AgreeHeld(
    max: nat, calls: seq<Call>, id: TokenId, bucket: seq<real>, hits: seq<real>, from: real, to: real)
    requires TokenHolds(max, calls, id, bucket, hits) && CountIn(bucket, from, to) == CountIn(hits, from, to)
    ensures AgreeOn(max, calls, id, from, to)
  {
  }

  lemma RecentStep(bucket: seq<real>, hits: seq<real>, now: real, from: real, to: real)
    requires now - RATE_LIMIT_WINDOW_SECONDS <= from
    requires CountIn(bucket, from, to) == CountIn(hits, from, to)
    ensures var evicted := Evict(bucket, now - RATE_LIMIT_WINDOW_SECONDS);
            && CountIn(evicted, from, to) == CountIn(hits + [], from, to)
            && CountIn(evicted + [now], from, to) == CountIn(hits + [now], from, to)
  {
    EvictKeepsCount(bucket, now - RATE_LIMIT_WINDOW_SECONDS, from, to);
    CountSnoc(Evict(bucket, now - RATE_LIMIT_WINDOW_SECONDS), now, from, to);
    CountSnoc(hits, now, from, to);
    AppendNothing(hits);
  }

  /** The bound that holds out of clock order: with calls at most `d` seconds late, every closed
      interval of 60 - d seconds contains at most `max` accepted calls of the token. */
  lemma {:induction false} SkewedBound(max: nat, d: real, calls: seq<Call>, id: TokenId, from: real)
    requires max >= 1 && d >= 0.0 && Skewed(d, calls, id)
    ensures CountIn(Hits(max, calls, id), from, from + RATE_LIMIT_WINDOW_SECONDS - d) <= max
  {
    if calls != [] {
      var n := |calls| - 1;
      var before, next := calls[..n], calls[n];
      SkewedPrefix(d, calls, id, n);
      SkewedBound(max, d, before, id, from);
      SplitLast(calls);
      HitsSnoc(max, before, next, id);
      if next.id == id && NextVerdict(max, before, next).Accepted? {
        assert forall k :: 0 <= k < n ==> before[k] == calls[k];
        SkewedHit(max, d, before, next, from);
      } else {
        AppendNothing(Hits(max, before, id));
      }
    }
  }

  /** One more hit stays within the bound. */
  lemma SkewedHit(max: nat, d: real, calls: seq<Call>, next: Call, from: real)
    requires forall k :: 0 <= k < |calls| && calls[k].id == next.id ==> calls[k].time <= next.time + d
    requires d >= 0.0 && NextVerdict(max, calls, next).Accepted?
    requires CountIn(Hits(max, calls, next.id), from, from + RATE_LIMIT_WINDOW_SECONDS - d) <= max
    ensures CountIn(Hits(max, calls, next.id) + [next.time], from, from + RATE_LIMIT_WINDOW_SECONDS - d) <= max
  {
    var to := from + RATE_LIMIT_WINDOW_SECONDS - d;
    CountSnoc(Hits(max, calls, next.id), next.time, from, to);
    if from <= next.time <= to {
      BucketKeepsRecent(max, calls, next.id, from, to);
      RoomInWindow(max, calls, next, from, to);
    }
  }

  /** A call that is accepted finds fewer than `max` hits that it could still remember. */
  lemma RoomInWindow(max: nat, calls: seq<Call>, next: Call, from: real, to: real)
    requires NextVerdict(max, calls, next).Accepted? && next.time - RATE_LIMIT_WINDOW_SECONDS <= from
    requires AgreeOn(max, calls, next.id, from, to)
    ensures CountIn(Hits(max, calls, next.id), from, to) < max
  {
    var bucket := BucketOf(BucketsAfter(max, calls), next.id);
    var cutoff := next.time - RATE_LIMIT_WINDOW_SECONDS;
    EvictKeepsCount(bucket, cutoff, from, to);
    CountAtMost(Evict(bucket, cutoff), from, to);
  }

  /** With a clock that does not go back, every closed interval of 60 seconds contains at most `max`
      accepted calls of a token. */
  lemma WindowBound(max: nat, calls: seq<Call>, id: TokenId, from: real)
    requires max >= 1 && Monotone(calls)
    ensures CountIn(Hits(max, calls, id), from, from + RATE_LIMIT_WINDOW_SECONDS) <= max
  {
    SkewedBound(max, 0.0, calls, id, from);
  }

  /** The bucket is the last hit, and no 60 seconds hold two. */
  predicate Single(bucket: seq<real>, hits: seq<real>, from: real) {
    && Sorted(hits)
    && bucket == (if hits == [] then [] else [hits[|hits| - 1]])
    && CountIn(hits, from, from + RATE_LIMIT_WINDOW_SECONDS) <= 1
  }

  predicate HoldsSingle(calls: seq<Call>, id: TokenId, from: real) {
    Single(BucketOf(BucketsAfter(1, calls), id), Hits(1, calls, id), from)
  }

  /** At limit 1 the clock does not matter: a hit is only made when the one before it, which then is
      the whole bucket, is more than 60 seconds older. */
  lemma {:induction false} SingleBound(calls: seq<Call>, id: TokenId, from: real)
    ensures HoldsSingle(calls, id, from)
  {
    if calls != [] {
      var n := |calls| - 1;
      SingleBound(calls[..n], id, from);
      if calls[n].id == id {
        SingleOwnCall(calls, from);
      } else {
        AppendNothing(Hits(1, calls[..n], id));
      }
    }
  }

  lemma SingleOwnCall(calls: seq<Call>, from: real)
    requires calls != [] && HoldsSingle(calls[..|calls| - 1], calls[|calls| - 1].id, from)
    ensures HoldsSingle(calls, calls[|calls| - 1].id, from)
  {
    var before, id := calls[..|calls| - 1], calls[|calls| - 1].id;
    SingleCall(calls, BucketOf(BucketsAfter(1, before), id), Hits(1, before, id), from);
  }

  lemma SingleCall(calls: seq<Call>, bucket: seq<real>, hits: seq<real>, from: real)
    requires calls != [] && TokenHolds(1, calls[..|calls| - 1], calls[|calls| - 1].id, bucket, hits)
    requires Single(bucket, hits, from)
    ensures HoldsSingle(calls, calls[|calls| - 1].id, from)
  {
    var id, now := calls[|calls| - 1].id, calls[|calls| - 1].time;
    CallStep(1, calls, bucket, hits);
    SingleStep(bucket, hits, now, from);
    var evicted := Evict(bucket, now - RATE_LIMIT_WINDOW_SECONDS);
    if |evicted| == 0 {
      SingleHeld(calls, id, evicted + [now], hits + [now], from);
    } else {
      SingleHeld(calls, id, evicted, hits + [], from);
    }
  }

  lemma SingleHeld(calls: seq<Call>, id: TokenId, bucket: seq<real>, hits: seq<real>, from: real)
    requires TokenHolds(1, calls, id, bucket, hits) && Single(bucket, hits, from)
    ensures HoldsSingle(calls, id, from)
  {
  }

  lemma SingleStep(bucket: seq<real>, hits: seq<real>, now: real, from: real)
    requires Single(bucket, hits, from)
    ensures var evicted := Evict(bucket, now - RATE_LIMIT_WINDOW_SECONDS);
            if evicted == [] then Single(evicted + [now], hits + [now], from) else Single(evicted, hits + [], from)
  {
    AppendNothing(hits);
    if Evict(bucket, now - RATE_LIMIT_WINDOW_SECONDS) == [] {
      assert hits != [] ==> hits[|hits| - 1] < now - RATE_LIMIT_WINDOW_SECONDS;
      SortedSnoc(hits, now);
      CountSnoc(hits, now, from, from + RATE_LIMIT_WINDOW_SECONDS);
      if now <= from + RATE_LIMIT_WINDOW_SECONDS {
        CountNone(hits, from, from + RATE_LIMIT_WINDOW_SECONDS);
      }
    } else {
      assert bucket[1..] == [];
    }
  }

  /** Some interval of the length holds more accepted calls of the token than the limit. */
  predicate Exceeds(max: nat, calls: seq<Call>, id: TokenId, from: real, length: real) {
    CountIn(Hits(max, calls, id), from, from + length) > max
  }

  /** No run with calls at most `d` seconds late has an interval of that length over the limit. */
  ghost predicate SafeLength(max: nat, d: real, length: real) {
    forall calls: seq<Call>, id: TokenId, from: real :: Skewed(d, calls, id) ==> !Exceeds(max, calls, id, from, length)
  }

  /** Exactly which window the limit guards: 60 - d seconds when calls enter at most d seconds late, and
      60 seconds at limit 1, whatever the order. */
  lemma SafeLengthExactly(max: nat, d: real, length: real)
    requires max >= 1 && d >= 0.0 && length >= 0.0
    ensures SafeLength(max, d, length) <==>
            length <= if max == 1 then RATE_LIMIT_WINDOW_SECONDS else RATE_LIMIT_WINDOW_SECONDS - d
  {
    var bound := if max == 1 then RATE_LIMIT_WINDOW_SECONDS else RATE_LIMIT_WINDOW_SECONDS - d;
    if length <= bound {
      forall calls: seq<Call>, id: TokenId, from: real | Skewed(d, calls, id)
        ensures !Exceeds(max, calls, id, from, length)
      {
        CountWithin(Hits(max, calls, id), from, from + length, from + bound);
        if max == 1 { SingleBound(calls, id, from); } else { SkewedBound(max, d, calls, id, from); }
      }
    } else {
      var calls := LateCallExceeds(max, d, length, "t", 0.0);
      assert Exceeds(max, calls, "t", 0.0, length);
    }
  }

  lemma AcceptedStep(max: nat, calls: seq<Call>, next: Call, bucket: seq<real>, evicted: seq<real>, hits: seq<real>)
    requires TokenHolds(max, calls, next.id, bucket, hits)
    requires Evict(bucket, next.time - RATE_LIMIT_WINDOW_SECONDS) == evicted && |evicted| < max
    ensures TokenHolds(max, calls + [next], next.id, evicted + [next.time], hits + [next.time])
  {
    DropLast(calls, next);
  }

  lemma {:induction false} EvictAll(bucket: seq<real>, cutoff: real)
    requires forall t :: t in bucket ==> t < cutoff
    ensures Evict(bucket, cutoff) == []
  {
    if bucket != [] {
      assert bucket[0] in bucket && forall t :: t in bucket[1..] ==> t in bucket;
      EvictAll(bucket[1..], cutoff);
    }
  }

  function Copies<T>(x: T, n: nat): seq<T> {
    seq(n, _ => x)
  }

  lemma CopiesSnoc<T>(x: T, n: nat)
    ensures Copies(x, n + 1) == Copies(x, n) + [x] && Copies(x, n + 1)[1..] == Copies(x, n)
  {
  }

  /** Up to `max` calls at one instant are all accepted. */
  lemma {:induction false} BurstHits(max: nat, id: TokenId, t: real, n: nat)
    requires n <= max
    ensures TokenHolds(max, Copies(Call(id, t), n), id, Copies(t, n), Copies(t, n))
    decreases n
  {
    if n > 0 {
      BurstHits(max, id, t, n - 1);
      var hits := Copies(t, n - 1);
      AcceptedStep(max, Copies(Call(id, t), n - 1), Call(id, t), hits, hits, hits);
      CopiesSnoc(Call(id, t), n - 1);
      CopiesSnoc(t, n - 1);
    } else {
      assert Copies(Call(id, t), 0) == [] && Copies(t, 0) == [];
    }
  }

  lemma {:induction false} BurstCount(t: real, n: nat, from: real, to: real)
    requires from <= t <= to
    ensures CountIn(Copies(t, n), from, to) == n
    decreases n
  {
    if n > 0 {
      CopiesSnoc(t, n - 1);
      BurstCount(t, n - 1, from, to);
    }
  }

  /** The bound is tight: `max` calls at one instant, one call late enough to evict them all, and
      one of an earlier time that enters behind it. */
  lemma LateCallExceeds(max: nat, d: real, length: real, id: TokenId, t: real) returns (calls: seq<Call>)
    requires max >= 1 && d >= 0.0 && length >= 0.0
    requires length > if max == 1 then RATE_LIMIT_WINDOW_SECONDS else RATE_LIMIT_WINDOW_SECONDS - d
    ensures Skewed(d, calls, id) && Exceeds(max, calls, id, t, length)
  {
    if max == 1 {
      calls := NextCallExceeds(length, id, t);
    } else {
      calls := EarlyCallExceeds(max, d, length, id, t);
    }
  }

  lemma NextCallExceeds(length: real, id: TokenId, t: real) returns (calls: seq<Call>)
    requires length > RATE_LIMIT_WINDOW_SECONDS
    ensures Exceeds(1, calls, id, t, length)
    ensures forall j, k :: 0 <= j < k < |calls| ==> calls[j].time <= calls[k].time
  {
    var burst, hits, next := Copies(Call(id, t), 1), Copies(t, 1), Call(id, t + length);
    BurstHits(1, id, t, 1);
    BurstCount(t, 1, t, t + length);
    EvictAll(hits, next.time - RATE_LIMIT_WINDOW_SECONDS);
    AcceptedStep(1, burst, next, hits, [], hits);
    CountSnoc(hits, next.time, t, t + length);
    calls := burst + [next];
  }

  lemma EarlyCallExceeds(max: nat, d: real, length: real, id: TokenId, t: real) returns (calls: seq<Call>)
    requires max >= 2 && d >= 0.0 && length >= 0.0 && length > RATE_LIMIT_WINDOW_SECONDS - d
    ensures Skewed(d, calls, id) && Exceeds(max, calls, id, t, length)
  {
    var late, early := Call(id, t + length + d), Call(id, t + length);
    calls := Copies(Call(id, t), max) + [late] + [early];
    EarlyCallHits(max, id, t, late, early);
    BurstCount(t, max, t, t + length);
    CountTwoMore(Copies(t, max), late.time, early.time, t, t + length);
    LateIsSkewed(d, Copies(Call(id, t), max), late, early);
  }

  lemma EarlyCallHits(max: nat, id: TokenId, t: real, late: Call, early: Call)
    requires max >= 2 && late.id == early.id == id
    requires t < late.time - RATE_LIMIT_WINDOW_SECONDS && late.time >= early.time - RATE_LIMIT_WINDOW_SECONDS
    ensures Hits(max, Copies(Call(id, t), max) + [late] + [early], id) == Copies(t, max) + [late.time] + [early.time]
  {
    var burst, hits := Copies(Call(id, t), max), Copies(t, max);
    BurstHits(max, id, t, max);
    EvictAll(hits, late.time - RATE_LIMIT_WINDOW_SECONDS);
    AcceptedStep(max, burst, late, hits, [], hits);
    AcceptedStep(max, burst + [late], early, [] + [late.time], [] + [late.time], hits + [late.time]);
  }

  lemma CountTwoMore(times: seq<real>, a: real, b: real, from: real, to: real)
    requires from <= b <= to
    ensures CountIn(times + [a] + [b], from, to) > CountIn(times, from, to)
  {
    CountSnoc(times, a, from, to);
    CountSnoc(times + [a], b, from, to);
  }

  lemma LateIsSkewed(d: real, burst: seq<Call>, late: Call, early: Call)
    requires d >= 0.0 && late.id == early.id && late.time == early.time + d
    requires forall k :: 0 <= k < |burst| ==> burst[k].time <= early.time
    requires forall j, k :: 0 <= j < k < |burst| ==> burst[j] == burst[k]
    ensures Skewed(d, burst + [late] + [early], early.id)
  {
  }

  // ----- Non-interference ------------------------------------------------------------------------

  /** The calls whose index is kept. */
  function Keep(calls: seq<Call>, kept: seq<bool>): (rest: seq<Call>)
    requires |kept| == |calls|
    ensures |rest| <= |calls|
  {
    if calls == [] then []
    else
      var n := |calls| - 1;
      Keep(calls[..n], kept[..n]) + (if kept[n] then [calls[n]] else [])
  }

  /** Every accepted call of the token is kept; other tokens' calls and refused ones may be dropped. */
  predicate KeepsHits(max: nat, calls: seq<Call>, kept: seq<bool>, id: TokenId) {
    && |kept| == |calls|
    && forall k :: 0 <= k < |calls| && calls[k].id == id && VerdictAt(max, calls, k).Accepted? ==> kept[k]
  }

  lemma KeepsHitsPrefix(max: nat, calls: seq<Call>, kept: seq<bool>, id: TokenId, n: nat)
    requires KeepsHits(max, calls, kept, id) && n <= |calls|
    ensures KeepsHits(max, calls[..n], kept[..n], id)
  {
    forall k | 0 <= k < n ensures VerdictAt(max, calls[..n], k) == VerdictAt(max, calls, k) {
      assert calls[..n][..k] == calls[..k];
    }
  }

  lemma NextIsExact(max: nat, calls: seq<Call>, next: Call)
    requires Monotone(calls + [next])
    ensures var recent := CountIn(Hits(max, calls, next.id), next.time - RATE_LIMIT_WINDOW_SECONDS, next.time);
            NextVerdict(max, calls, next) == if recent >= max then RateLimitExceeded else Accepted(recent + 1)
  {
    var all := calls + [next];
    DropLast(calls, next);
    assert all[|calls|] == next;
    VerdictExactAt(max, all, |calls|);
  }

  lemma HitsSnoc(max: nat, calls: seq<Call>, next: Call, id: TokenId)
    ensures Hits(max, calls + [next], id) == Hits(max, calls, id) + HitOf(max, calls, next, id)
  {
    assert (calls + [next])[..|calls|] == calls;
  }

  /** What a call makes of the bucket of a token. */
  function BucketStep(max: nat, bucket: seq<real>, next: Call, id: TokenId): seq<real> {
    if next.id != id then bucket
    else
      var evicted := Evict(bucket, next.time - RATE_LIMIT_WINDOW_SECONDS);
      if |evicted| >= max then evicted else evicted + [next.time]
  }

  lemma BucketSnoc(max: nat, calls: seq<Call>, next: Call, id: TokenId)
    ensures BucketOf(BucketsAfter(max, calls + [next]), id) ==
            BucketStep(max, BucketOf(BucketsAfter(max, calls), id), next, id)
  {
    DropLast(calls, next);
  }

  lemma {:induction false} EvictShortens(bucket: seq<real>, cutoff: real)
    ensures |Evict(bucket, cutoff)| <= |bucket|
    ensures |Evict(bucket, cutoff)| == |bucket| ==> Evict(bucket, cutoff) == bucket
  {
    if bucket != [] && bucket[0] < cutoff { EvictShortens(bucket[1..], cutoff); }
  }

  /** No bucket ever holds more than the limit, whatever the clock. */
  lemma {:induction false} BucketAtMost(max: nat, calls: seq<Call>, id: TokenId)
    ensures |BucketOf(BucketsAfter(max, calls), id)| <= max
  {
    if calls != [] {
      var n := |calls| - 1;
      BucketAtMost(max, calls[..n], id);
      SplitLast(calls);
      BucketSnoc(max, calls[..n], calls[n], id);
      EvictShortens(BucketOf(BucketsAfter(max, calls[..n]), id), calls[n].time - RATE_LIMIT_WINDOW_SECONDS);
    }
  }

  /** The two runs have left the token the same bucket, and it has had the same hits. */
  predicate SameToken(max: nat, calls: seq<Call>, others: seq<Call>, id: TokenId) {
    && BucketOf(BucketsAfter(max, calls), id) == BucketOf(BucketsAfter(max, others), id)
    && Hits(max, calls, id) == Hits(max, others, id)
  }

  lemma SameVerdict(max: nat, calls: seq<Call>, others: seq<Call>, next: Call)
    requires SameToken(max, calls, others, next.id)
    ensures NextVerdict(max, calls, next) == NextVerdict(max, others, next)
  {
  }

  lemma SameSnoc(max: nat, calls: seq<Call>, others: seq<Call>, next: Call, id: TokenId)
    requires SameToken(max, calls, others, id)
    ensures SameToken(max, calls + [next], others + [next], id)
  {
    BucketSnoc(max, calls, next, id);
    BucketSnoc(max, others, next, id);
    HitsSnoc(max, calls, next, id);
    HitsSnoc(max, others, next, id);
    if next.id == id { SameVerdict(max, calls, others, next); }
  }

  /** A call of another token, and a refused one, leave no trace: a refusal finds the bucket full, so
      that it has evicted nothing. */
  lemma NoTrace(max: nat, calls: seq<Call>, next: Call, id: TokenId)
    requires next.id != id || NextVerdict(max, calls, next).RateLimitExceeded?
    ensures SameToken(max, calls + [next], calls, id)
  {
    BucketSnoc(max, calls, next, id);
    HitsSnoc(max, calls, next, id);
    AppendNothing(Hits(max, calls, id));
    BucketAtMost(max, calls, id);
    EvictShortens(BucketOf(BucketsAfter(max, calls), id), next.time - RATE_LIMIT_WINDOW_SECONDS);
  }

  lemma KeepSnoc(calls: seq<Call>, kept: seq<bool>)
    requires |kept| == |calls| && calls != []
    ensures var n := |calls| - 1;
            && calls == calls[..n] + [calls[n]]
            && Keep(calls, kept) ==
               if kept[n] then Keep(calls[..n], kept[..n]) + [calls[n]] else Keep(calls[..n], kept[..n])
  {
    var n := |calls| - 1;
    SplitLast(calls);
    AppendNothing(Keep(calls[..n], kept[..n]));
  }

  /** Dropping calls that are not hits of the token leaves its bucket and its hits as they are, whatever
      the clock. */
  lemma {:induction false} KeepSameHits(max: nat, calls: seq<Call>, kept: seq<bool>, id: TokenId)
    requires KeepsHits(max, calls, kept, id)
    ensures BucketOf(BucketsAfter(max, Keep(calls, kept)), id) == BucketOf(BucketsAfter(max, calls), id)
    ensures Hits(max, Keep(calls, kept), id) == Hits(max, calls, id)
  {
    if calls != [] {
      var n := |calls| - 1;
      var prev, next := calls[..n], calls[n];
      KeepsHitsPrefix(max, calls, kept, id, n);
      KeepSameHits(max, prev, kept[..n], id);
      KeepSnoc(calls, kept);
      if kept[n] {
        SameSnoc(max, Keep(prev, kept[..n]), prev, next, id);
      } else {
        NoTrace(max, prev, next, id);
      }
    }
  }

  /** Deleting from a run other tokens' calls and refused calls changes no remaining verdict of the
      token, whatever the clock: its next call gets the same verdict after the shortened run. */
  lemma NonInterference(max: nat, calls: seq<Call>, kept: seq<bool>, next: Call)
    requires KeepsHits(max, calls, kept, next.id)
    ensures NextVerdict(max, Keep(calls, kept), next) == NextVerdict(max, calls, next)
  {
    KeepSameHits(max, calls, kept, next.id);
    SameVerdict(max, Keep(calls, kept), calls, next);
  }

  // ----- Verdicts of calls that enter late -------------------------------------------------------

  predicate IsSuffix<T(==)>(part: seq<T>, whole: seq<T>) {
    |part| <= |whole| && part == whole[|whole| - |part|..]
  }

  lemma {:induction false} EvictIsSuffix(bucket: seq<real>, cutoff: real, hits: seq<real>)
    requires IsSuffix(bucket, hits)
    ensures IsSuffix(Evict(bucket, cutoff), hits)
    ensures Evict(bucket, cutoff) != [] ==> Evict(bucket, cutoff)[0] >= cutoff
    decreases |bucket|
  {
    if bucket != [] && bucket[0] < cutoff { EvictIsSuffix(bucket[1..], cutoff, hits); }
  }

  lemma SuffixSnoc<T>(part: seq<T>, whole: seq<T>, x: T)
    requires IsSuffix(part, whole)
    ensures IsSuffix(part + [x], whole + [x])
  {
  }

  /** Whatever the clock, a bucket holds the latest hits. */
  lemma {:induction false} BucketIsSuffix(max: nat, calls: seq<Call>, id: TokenId)
    ensures IsSuffix(BucketOf(BucketsAfter(max, calls), id), Hits(max, calls, id))
  {
    if calls != [] {
      var n := |calls| - 1;
      var prev, next := calls[..n], calls[n];
      var bucket, hits := BucketOf(BucketsAfter(max, prev), id), Hits(max, prev, id);
      BucketIsSuffix(max, prev, id);
      SplitLast(calls);
      BucketSnoc(max, prev, next, id);
      HitsSnoc(max, prev, next, id);
      AppendNothing(hits);
      EvictIsSuffix(bucket, next.time - RATE_LIMIT_WINDOW_SECONDS, hits);
      SuffixSnoc(Evict(bucket, next.time - RATE_LIMIT_WINDOW_SECONDS), hits, next.time);
    }
  }

  /** Hits are times of the token's own calls, and no more out of order than these. */
  lemma {:induction false} HitsSkewed(max: nat, d: real, calls: seq<Call>, id: TokenId)
    requires Skewed(d, calls, id)
    ensures var hits := Hits(max, calls, id);
            && (forall i, j :: 0 <= i < j < |hits| ==> hits[i] <= hits[j] + d)
            && forall t :: t in hits ==> Call(id, t) in calls
  {
    if calls != [] {
      var n := |calls| - 1;
      var prev, next := calls[..n], calls[n];
      SkewedPrefix(d, calls, id, n);
      HitsSkewed(max, d, prev, id);
      SplitLast(calls);
      HitsSnoc(max, prev, next, id);
      var hits := Hits(max, prev, id);
      forall i | 0 <= i < |hits| && next.id == id ensures hits[i] <= next.time + d {
        var j :| 0 <= j < n && prev[j] == Call(id, hits[i]);
        assert calls[j] == prev[j];
      }
    }
  }

  lemma HitsUpTo(max: nat, d: real, calls: seq<Call>, k: nat)
    requires k < |calls| && Skewed(d, calls, calls[k].id)
    ensures forall t :: t in Hits(max, calls[..k], calls[k].id) ==> t <= calls[k].time + d
  {
    SkewedPrefix(d, calls, calls[k].id, k);
    HitsSkewed(max, d, calls[..k], calls[k].id);
    forall t | t in Hits(max, calls[..k], calls[k].id) ensures t <= calls[k].time + d {
      var j :| 0 <= j < k && calls[..k][j] == Call(calls[k].id, t);
      assert calls[j] == calls[..k][j];
    }
  }

  lemma {:induction false} CountOfSuffix(times: seq<real>, n: nat, from: real, to: real)
    requires n <= |times| && forall i :: n <= i < |times| ==> from <= times[i] <= to
    ensures CountIn(times, from, to) >= |times| - n
  {
    if times != [] { CountOfSuffix(times[1..], if n == 0 then 0 else n - 1, from, to); }
  }

  /** What a verdict at time `now` says of the hits around it, within `d` seconds. */
  predicate VerdictBounds(max: nat, d: real, hits: seq<real>, now: real, accepted: bool) {
    if accepted then CountIn(hits, now - RATE_LIMIT_WINDOW_SECONDS + d, now + d) < max
    else CountIn(hits, now - RATE_LIMIT_WINDOW_SECONDS - d, now + d) >= max
  }

  /** How far verdicts are off when calls enter at most `d` seconds late. A refused call at time t has the
      limit's number of hits in [t - 60 - d, t + d]; an accepted one has fewer from t - 60 + d on. */
  lemma VerdictWithin(max: nat, d: real, calls: seq<Call>, k: nat)
    requires k < |calls| && d >= 0.0 && Skewed(d, calls, calls[k].id)
    ensures VerdictBounds(max, d, Hits(max, calls[..k], calls[k].id), calls[k].time, VerdictAt(max, calls, k).Accepted?)
  {
    var before, next := calls[..k], calls[k];
    assert forall i :: 0 <= i < k ==> before[i] == calls[i];
    HitsUpTo(max, d, calls, k);
    if NextVerdict(max, before, next).Accepted? {
      AcceptedWithin(max, d, before, next);
    } else {
      SkewedPrefix(d, calls, next.id, k);
      RefusedWithin(max, d, before, next);
    }
  }

  lemma AcceptedWithin(max: nat, d: real, calls: seq<Call>, next: Call)
    requires forall i :: 0 <= i < |calls| && calls[i].id == next.id ==> calls[i].time <= next.time + d
    requires d >= 0.0 && NextVerdict(max, calls, next).Accepted?
    ensures CountIn(Hits(max, calls, next.id), next.time - RATE_LIMIT_WINDOW_SECONDS + d, next.time + d) < max
  {
    var from := next.time - RATE_LIMIT_WINDOW_SECONDS + d;
    BucketKeepsRecent(max, calls, next.id, from, next.time + d);
    RoomInWindow(max, calls, next, from, next.time + d);
  }

  lemma RefusedWithin(max: nat, d: real, calls: seq<Call>, next: Call)
    requires d >= 0.0 && Skewed(d, calls, next.id) && NextVerdict(max, calls, next).RateLimitExceeded?
    requires forall t :: t in Hits(max, calls, next.id) ==> t <= next.time + d
    ensures CountIn(Hits(max, calls, next.id), next.time - RATE_LIMIT_WINDOW_SECONDS - d, next.time + d) >= max
  {
    HitsSkewed(max, d, calls, next.id);
    BucketIsSuffix(max, calls, next.id);
    RefusedFull(max, d, calls, next, BucketOf(BucketsAfter(max, calls), next.id), Hits(max, calls, next.id));
  }

  lemma RefusedFull(max: nat, d: real, calls: seq<Call>, next: Call, bucket: seq<real>, hits: seq<real>)
    requires TokenHolds(max, calls, next.id, bucket, hits) && NextVerdict(max, calls, next).RateLimitExceeded?
    requires d >= 0.0 && IsSuffix(bucket, hits)
    requires forall i, j :: 0 <= i < j < |hits| ==> hits[i] <= hits[j] + d
    requires forall t :: t in hits ==> t <= next.time + d
    ensures CountIn(hits, next.time - RATE_LIMIT_WINDOW_SECONDS - d, next.time + d) >= max
  {
    VerdictOfEvicted(max, calls, next, bucket);
    FullBucket(max, d, bucket, hits, next.time);
  }

  lemma VerdictOfEvicted(max: nat, calls: seq<Call>, next: Call, bucket: seq<real>)
    requires BucketOf(BucketsAfter(max, calls), next.id) == bucket
    ensures var evicted := Evict(bucket, next.time - RATE_LIMIT_WINDOW_SECONDS);
            NextVerdict(max, calls, next) == if |evicted| >= max then RateLimitExceeded else Accepted(|evicted| + 1)
  {
  }

  lemma FullBucket(max: nat, d: real, bucket: seq<real>, hits: seq<real>, now: real)
    requires d >= 0.0 && IsSuffix(bucket, hits)
    requires forall i, j :: 0 <= i < j < |hits| ==> hits[i] <= hits[j] + d
    requires forall t :: t in hits ==> t <= now + d
    requires |Evict(bucket, now - RATE_LIMIT_WINDOW_SECONDS)| >= max
    ensures CountIn(hits, now - RATE_LIMIT_WINDOW_SECONDS - d, now + d) >= max
  {
    var evicted := Evict(bucket, now - RATE_LIMIT_WINDOW_SECONDS);
    EvictIsSuffix(bucket, now - RATE_LIMIT_WINDOW_SECONDS, hits);
    var n := |hits| - |evicted|;
    forall i | n <= i < |hits| ensures now - RATE_LIMIT_WINDOW_SECONDS - d <= hits[i] <= now + d {
      assert hits[n] == evicted[0] && hits[i] in hits;
    }
    CountOfSuffix(hits, n, now - RATE_LIMIT_WINDOW_SECONDS - d, now + d);
  }

  // ----- Retries ---------------------------------------------------------------------------------

  /** After a refusal at time t, and no accepted call of the token since, every call later than
      t + 60 + d is accepted, when calls enter at most d seconds late. */
  lemma LateRetryAccepted(max: nat, d: real, calls: seq<Call>, j: nat, k: nat)
    requires max >= 1 && d >= 0.0 && j < k < |calls| && calls[j].id == calls[k].id && Skewed(d, calls, calls[k].id)
    requires VerdictAt(max, calls, j).RateLimitExceeded?
    requires forall i :: j < i < k && calls[i].id == calls[k].id ==> VerdictAt(max, calls, i).RateLimitExceeded?
    requires calls[k].time > calls[j].time + RATE_LIMIT_WINDOW_SECONDS + d
    ensures VerdictAt(max, calls, k) == Accepted(1)
  {
    NoHitsBetween(max, calls, j, k, calls[k].id);
    HitsUpTo(max, d, calls, j);
    FreshVerdict(max, calls[..k], calls[k]);
  }

  /** A call whose token has no hit in the last 60 seconds is the first of a new window. */
  lemma FreshVerdict(max: nat, calls: seq<Call>, next: Call)
    requires max >= 1
    requires forall t :: t in Hits(max, calls, next.id) ==> t < next.time - RATE_LIMIT_WINDOW_SECONDS
    ensures NextVerdict(max, calls, next) == Accepted(1)
  {
    var bucket := BucketOf(BucketsAfter(max, calls), next.id);
    BucketIsSuffix(max, calls, next.id);
    OldBucket(bucket, Hits(max, calls, next.id), next.time - RATE_LIMIT_WINDOW_SECONDS);
    VerdictOfEvicted(max, calls, next, bucket);
  }

  lemma OldBucket(bucket: seq<real>, hits: seq<real>, cutoff: real)
    requires IsSuffix(bucket, hits) && forall t :: t in hits ==> t < cutoff
    ensures Evict(bucket, cutoff) == []
  {
    assert forall t :: t in bucket ==> t in hits;
    EvictAll(bucket, cutoff);
  }

  lemma MonotoneIsSkewed(calls: seq<Call>, id: TokenId)
    requires Monotone(calls)
    ensures Skewed(0.0, calls, id)
  {
  }

  /** After a refusal at time t, and no accepted call of the token since, every call later than
      t + 60 is accepted, with a clock that does not go back. */
  lemma RetryAccepted(max: nat, calls: seq<Call>, j: nat, k: nat)
    requires max >= 1 && Monotone(calls) && j < k < |calls| && calls[j].id == calls[k].id
    requires VerdictAt(max, calls, j).RateLimitExceeded?
    requires forall i :: j < i < k && calls[i].id == calls[k].id ==> VerdictAt(max, calls, i).RateLimitExceeded?
    requires calls[k].time > calls[j].time + RATE_LIMIT_WINDOW_SECONDS
    ensures VerdictAt(max, calls, k) == Accepted(1)
  {
    MonotoneIsSkewed(calls, calls[k].id);
    LateRetryAccepted(max, 0.0, calls, j, k);
  }

  /** Waiting exactly 60 seconds, as the Retry-After header says, can be refused again: it is, exactly
      when all the hits that the first refusal counted stand at the instant of that refusal. */
  lemma RetryAtSixtyExactly(max: nat, calls: seq<Call>, j: nat, k: nat)
    requires max >= 1 && Monotone(calls) && j < k < |calls| && calls[j].id == calls[k].id
    requires VerdictAt(max, calls, j).RateLimitExceeded?
    requires forall i :: j < i < k && calls[i].id == calls[k].id ==> VerdictAt(max, calls, i).RateLimitExceeded?
    requires calls[k].time == calls[j].time + RATE_LIMIT_WINDOW_SECONDS
    ensures var hits := Hits(max, calls[..j], calls[k].id);
            VerdictAt(max, calls, k).RateLimitExceeded? <==> CountIn(hits, calls[j].time, calls[j].time) == max
  {
    var id := calls[k].id;
    var hits := Hits(max, calls[..j], id);
    NoHitsBetween(max, calls, j, k, id);
    HitsNotAfter(max, calls, j);
    CountUpTo(hits, calls[j].time, calls[k].time);
    VerdictIsExact(max, calls, k);
    MonotonePrefix(calls, j);
    WindowBound(max, calls[..j], id, calls[j].time);
  }

  /** Where nothing is later than the start of an interval, only the start counts. */
  lemma {:induction false} CountUpTo(times: seq<real>, from: real, to: real)
    requires from <= to && forall t :: t in times ==> t <= from
    ensures CountIn(times, from, to) == CountIn(times, from, from)
  {
    if times != [] {
      assert times[0] in times && forall t :: t in times[1..] ==> t in times;
      CountUpTo(times[1..], from, to);
    }
  }

  /** And the wait is no shorter: for every limit and lateness there is a run in which a call exactly
      60 + d seconds after a refusal is refused again. The refused call is the late one. */
  lemma RetryAtSixtyRefused(max: nat, d: real, id: TokenId, t: real) returns (calls: seq<Call>)
    requires max >= 1 && d >= 0.0
    ensures Skewed(d, calls, id) && (d == 0.0 ==> Monotone(calls))
    ensures |calls| == max + 2 && calls[max].id == calls[max + 1].id == id
    ensures VerdictAt(max, calls, max).RateLimitExceeded? && VerdictAt(max, calls, max + 1).RateLimitExceeded?
    ensures calls[max + 1].time == calls[max].time + RATE_LIMIT_WINDOW_SECONDS + d
  {
    var burst, hits := Copies(Call(id, t + d), max), Copies(t + d, max);
    var refused, retry := Call(id, t), Call(id, t + RATE_LIMIT_WINDOW_SECONDS + d);
    calls := burst + [refused] + [retry];
    BurstHits(max, id, t + d, max);
    RefusedStep(max, burst, refused, hits, hits);
    RefusedStep(max, burst + [refused], retry, hits, hits);
    LastTwo(burst, refused, retry);
    BurstIsSkewed(d, burst, refused, retry);
  }

  lemma LastTwo<T>(s: seq<T>, x: T, y: T)
    ensures var all := s + [x] + [y];
            && all[..|s|] == s && all[|s|] == x && all[..|s| + 1] == s + [x] && all[|s| + 1] == y
  {
  }

  lemma BurstIsSkewed(d: real, burst: seq<Call>, refused: Call, retry: Call)
    requires d >= 0.0 && refused.id == retry.id && refused.time <= retry.time
    requires forall k :: 0 <= k < |burst| ==> burst[k].time == refused.time + d <= retry.time
    ensures var calls := burst + [refused] + [retry];
            Skewed(d, calls, retry.id) && (d == 0.0 ==> Monotone(calls))
  {
  }

  lemma RefusedStep(max: nat, calls: seq<Call>, next: Call, bucket: seq<real>, hits: seq<real>)
    requires TokenHolds(max, calls, next.id, bucket, hits) && |bucket| >= max
    requires bucket != [] ==> bucket[0] >= next.time - RATE_LIMIT_WINDOW_SECONDS
    ensures NextVerdict(max, calls, next).RateLimitExceeded?
    ensures TokenHolds(max, calls + [next], next.id, bucket, hits)
  {
    BucketSnoc(max, calls, next, next.id);
    HitsSnoc(max, calls, next, next.id);
    AppendNothing(hits);
  }

  lemma {:induction false} NoHitsBetween(max: nat, calls: seq<Call>, j: nat, k: nat, id: TokenId)
    requires j <= k <= |calls|
    requires forall i :: j <= i < k && calls[i].id == id ==> VerdictAt(max, calls, i).RateLimitExceeded?
    ensures Hits(max, calls[..k], id) == Hits(max, calls[..j], id)
    decreases k
  {
    if j < k {
      NoHitsBetween(max, calls, j, k - 1, id);
      assert calls[..k][..k - 1] == calls[..k - 1];
      assert Hits(max, calls[..k - 1], id) + [] == Hits(max, calls[..k - 1], id);
    }
  }

  lemma {:induction false} CountNone(times: seq<real>, from: real, to: real)
    requires forall t :: t in times ==> t < from
    ensures CountIn(times, from, to) == 0
  {
    if times != [] {
      assert times[0] in times && forall t :: t in times[1..] ==> t in times;
      CountNone(times[1..], from, to);
    }
  }

  // ----- The authenticator -----------------------------------------------------------------------

  datatype AuthResult = Authenticated(tokenId: TokenId) | AuthFailed | TooManyRequests

  const NO_TOKEN := "(none)"

  /** token_log_id: the first eight characters of the token's hash. A missing token is empty here. */
  function TokenLogId(hash: string -> string, token: string): string {
    if token == "" then NO_TOKEN
    else if |hash(token)| <= 8 then hash(token) else hash(token)[..8]
  }

  /** The log id shows at most eight characters of the hash, and nothing of the token. */
  lemma LogIdExactly(hash: string -> string, token: string)
    ensures var id := TokenLogId(hash, token);
            if token == "" then id == "(none)"
            else id <= hash(token) && |id| == if |hash(token)| < 8 then |hash(token)| else 8
  {
  }

  predicate ValidToken(hash: string -> string, expected: string, token: string) {
    token != "" && hash(token) == expected
  }

  function AuthStep(hash: string -> string, expected: string, max: nat, buckets: Buckets, token: string, now: real)
    : (Buckets, AuthResult)
  {
    if !ValidToken(hash, expected, token) then (buckets, AuthFailed)
    else
      var id := TokenLogId(hash, token);
      var (after, verdict) := CheckStep(buckets, max, id, now);
      (after, if verdict.Accepted? then Authenticated(id) else TooManyRequests)
  }

  class Authenticator {
    const hash: string -> string
    const expectedHash: string
    const rateLimiter: RateLimiter

    constructor (hash: string -> string, expectedHash: string, rateLimitPerMinute: nat)
      requires rateLimitPerMinute >= 1
      ensures this.hash == hash && this.expectedHash == expectedHash
      ensures fresh(rateLimiter) && rateLimiter.maxPerMinute == rateLimitPerMinute && rateLimiter.buckets == map[]
    {
      this.hash := hash;
      this.expectedHash := expectedHash;
      rateLimiter := new RateLimiter(rateLimitPerMinute);
    }

    method Check(token: string, now: real) returns (r: AuthResult)
      modifies rateLimiter
      ensures (rateLimiter.buckets, r) ==
              AuthStep(hash, expectedHash, rateLimiter.maxPerMinute, old(rateLimiter.buckets), token, now)
    {
      var logId := TokenLogId(hash, token);
      if token == "" {
        return AuthFailed;
      }
      if hash(token) != expectedHash {
        return AuthFailed;
      }
      var verdict := rateLimiter.Check(logId, now);
      if verdict.RateLimitExceeded? {
        return TooManyRequests;
      }
      return Authenticated(logId);
    }
  }

  datatype Request = Request(token: string, time: real)

  /** The limiter calls that a sequence of requests makes: one for each valid token. */
  function LimiterCalls(hash: string -> string, expected: string, requests: seq<Request>): seq<Call> {
    if requests == [] then []
    else
      var n := |requests| - 1;
      LimiterCalls(hash, expected, requests[..n]) +
      (if ValidToken(hash, expected, requests[n].token)
       then [Call(TokenLogId(hash, requests[n].token), requests[n].time)] else [])
  }

  function AuthBuckets(hash: string -> string, expected: string, max: nat, requests: seq<Request>): Buckets {
    if requests == [] then map[]
    else
      var n := |requests| - 1;
      AuthStep(hash, expected, max, AuthBuckets(hash, expected, max, requests[..n]),
               requests[n].token, requests[n].time).0
  }

  /** Failed authentications leave no trace: the buckets are those of the valid requests alone. */
  lemma {:induction false} FailuresLeaveNoTrace(
    hash: string -> string, expected: string, max: nat, requests: seq<Request>)
    ensures AuthBuckets(hash, expected, max, requests) == BucketsAfter(max, LimiterCalls(hash, expected, requests))
  {
    if requests != [] {
      var n := |requests| - 1;
      FailuresLeaveNoTrace(hash, expected, max, requests[..n]);
      var calls := LimiterCalls(hash, expected, requests);
      if ValidToken(hash, expected, requests[n].token) {
        assert calls[..|calls| - 1] == LimiterCalls(hash, expected, requests[..n]);
      } else {
        assert calls == LimiterCalls(hash, expected, requests[..n]);
      }
    }
  }

  /** A request gets in exactly when its token is valid and fewer than `max` accepted requests of
      that token lie in its last 60 seconds; with an invalid token it fails, otherwise it is one too
      many. */
  lemma NextAuthIsExact(
    hash: string -> string, expected: string, max: nat, requests: seq<Request>, next: Request)
    requires Monotone(LimiterCalls(hash, expected, requests + [next]))
    ensures var id := TokenLogId(hash, next.token);
            var hits := Hits(max, LimiterCalls(hash, expected, requests), id);
            AuthStep(hash, expected, max, AuthBuckets(hash, expected, max, requests), next.token, next.time).1 ==
              if next.token == "" || hash(next.token) != expected then AuthFailed
              else if CountIn(hits, next.time - 60.0, next.time) < max then Authenticated(id)
              else TooManyRequests
  {
    if ValidToken(hash, expected, next.token) {
      AuthOfVerdict(hash, expected, max, requests, next);
      LimiterCallsSnoc(hash, expected, requests, next);
      NextIsExact(max, LimiterCalls(hash, expected, requests), Call(TokenLogId(hash, next.token), next.time));
    }
  }

  /** The same with requests at most `d` seconds late: one that gets in has fewer than the limit from
      t - 60 + d on, and one that is one too many has the limit in [t - 60 - d, t + d]. */
  lemma NextAuthWithin(
    hash: string -> string, expected: string, max: nat, d: real, requests: seq<Request>, next: Request)
    requires d >= 0.0 && ValidToken(hash, expected, next.token)
    requires Skewed(d, LimiterCalls(hash, expected, requests + [next]), TokenLogId(hash, next.token))
    ensures var hits := Hits(max, LimiterCalls(hash, expected, requests), TokenLogId(hash, next.token));
            var buckets := AuthBuckets(hash, expected, max, requests);
            var result := AuthStep(hash, expected, max, buckets, next.token, next.time).1;
            !result.AuthFailed? && VerdictBounds(max, d, hits, next.time, result.Authenticated?)
  {
    AuthOfVerdict(hash, expected, max, requests, next);
    LimiterCallsSnoc(hash, expected, requests, next);
    NextWithin(max, d, LimiterCalls(hash, expected, requests), Call(TokenLogId(hash, next.token), next.time));
  }

  lemma LimiterCallsSnoc(hash: string -> string, expected: string, requests: seq<Request>, next: Request)
    requires ValidToken(hash, expected, next.token)
    ensures LimiterCalls(hash, expected, requests + [next]) ==
            LimiterCalls(hash, expected, requests) + [Call(TokenLogId(hash, next.token), next.time)]
  {
    DropLast(requests, next);
  }

  lemma AuthOfVerdict(hash: string -> string, expected: string, max: nat, requests: seq<Request>, next: Request)
    requires ValidToken(hash, expected, next.token)
    ensures var call := Call(TokenLogId(hash, next.token), next.time);
            AuthStep(hash, expected, max, AuthBuckets(hash, expected, max, requests), next.token, next.time).1 ==
            if NextVerdict(max, LimiterCalls(hash, expected, requests), call).Accepted?
            then Authenticated(call.id) else TooManyRequests
  {
    FailuresLeaveNoTrace(hash, expected, max, requests);
  }

  lemma NextWithin(max: nat, d: real, calls: seq<Call>, next: Call)
    requires d >= 0.0 && Skewed(d, calls + [next], next.id)
    ensures VerdictBounds(max, d, Hits(max, calls, next.id), next.time, NextVerdict(max, calls, next).Accepted?)
  {
    var all := calls + [next];
    assert all[..|calls|] == calls && all[|calls|] == next;
    VerdictWithin(max, d, all, |calls|);
  }
}
