/** The in-memory fixed-window rate limiter, over a map that keeps its keys in insertion order. */
module RateLimits {
  import opened Wrappers

  /** A caller's key. */
  datatype Key = Key(text: string)

  const EMPTY: Key := Key("")

  datatype Policy = Policy(limit: nat, windowMs: int)

  datatype Decision = Decision(allowed: bool, remaining: nat, resetAt: int)

  datatype Bucket = Bucket(key: Key, count: nat, resetAt: int)

  /** The entries in insertion order; setting a present key keeps its place. */
  type Buckets = seq<Bucket>

  const CAPACITY: nat := 10_000

  ghost predicate DistinctKeys(b: Buckets) {
    forall i, j :: 0 <= i < j < |b| ==> b[i].key != b[j].key
  }

  function Find(b: Buckets, key: Key): (r: Option<Bucket>)
    ensures r.Some? ==> r.value in b && r.value.key == key
    ensures r == None ==> forall i :: 0 <= i < |b| ==> b[i].key != key
  {
    if b == [] then None
    else if b[|b| - 1].key == key then Some(b[|b| - 1])
    else Find(b[..|b| - 1], key)
  }

  function Put(b: Buckets, bucket: Bucket): Buckets {
    if Find(b, bucket.key) == None then b + [bucket]
    else seq(|b|, i requires 0 <= i < |b| => if b[i].key == bucket.key then bucket else b[i])
  }

  /** The entries whose window is still open, in order. */
  function Live(b: Buckets, now: int): Buckets {
    if b == [] then []
    else
      var before := Live(b[..|b| - 1], now);
      if b[|b| - 1].resetAt <= now then before else before + [b[|b| - 1]]
  }

  /** Drops the expired entries, and then, while still over capacity, the oldest key unless it is the empty string. */
  function Evict(b: Buckets, now: int): Buckets {
    var live := Live(b, now);
    if |live| > CAPACITY && live[0].key != EMPTY then live[1..] else live
  }

  /** The bucket a call counts against. */
  function Current(b: Buckets, key: Key, policy: Policy, now: int): Bucket {
    var found := Find(b, key);
    if found == None || found.value.resetAt <= now then Bucket(key, 0, now + policy.windowMs) else found.value
  }

  /** Over capacity the map is cleaned up. */
  function Settle(b: Buckets, now: int): Buckets {
    if |b| > CAPACITY then Evict(b, now) else b
  }

  /** Counting a call against its bucket. */
  function CountIn(b: Buckets, bucket: Bucket, limit: nat, now: int): (Decision, Buckets) {
    if bucket.count >= limit then (Decision(false, 0, bucket.resetAt), Put(b, bucket))
    else
      (Decision(true, limit - (bucket.count + 1), bucket.resetAt),
       Settle(Put(b, bucket.(count := bucket.count + 1)), now))
  }

  /** The decision of one call and the map it leaves. */
  function Counted(b: Buckets, key: Key, policy: Policy, now: int): (Decision, Buckets) {
    CountIn(b, Current(b, key, policy, now), policy.limit, now)
  }

  // ---- Looking up after an update ------------------------------------------------------------

  lemma {:induction false} FindIs(b: Buckets, i: nat)
    requires DistinctKeys(b) && i < |b|
    ensures Find(b, b[i].key) == Some(b[i])
    decreases |b|
  {
    var n := |b| - 1;
    if i < n {
      assert b[..n][i] == b[i];
      FindIs(b[..n], i);
    }
  }

  lemma PutDistinct(b: Buckets, bucket: Bucket)
    requires DistinctKeys(b)
    ensures DistinctKeys(Put(b, bucket))
    ensures |Put(b, bucket)| == |b| + if Find(b, bucket.key) == None then 1 else 0
  {
  }

  lemma FindPut(b: Buckets, bucket: Bucket, key: Key)
    requires DistinctKeys(b)
    ensures Find(Put(b, bucket), key) == if key == bucket.key then Some(bucket) else Find(b, key)
  {
    var after := Put(b, bucket);
    PutDistinct(b, bucket);
    if Find(b, key).Some? {
      var i :| 0 <= i < |b| && b[i] == Find(b, key).value;
      FindIs(after, i);
    } else if key == bucket.key {
      FindIs(after, |b|);
    } else {
      assert forall i :: 0 <= i < |after| ==> after[i].key != key;
    }
  }

  /** Dropping expired entries keeps the order and the keys distinct, and finds exactly the live entries. */
  lemma {:induction false} FindLive(b: Buckets, now: int, key: Key)
    requires DistinctKeys(b)
    ensures DistinctKeys(Live(b, now)) && |Live(b, now)| <= |b|
    ensures Find(Live(b, now), key) == var r := Find(b, key); if r.Some? && r.value.resetAt > now then r else None
    ensures forall x :: x in Live(b, now) ==> x in b
    decreases |b|
  {
    if b != [] {
      var n := |b| - 1;
      FindLive(b[..n], now, key);
      var before := Live(b[..n], now);
      forall i | 0 <= i < |before|
        ensures before[i].key != b[n].key
      {
        assert before[i] in b[..n];
      }
      assert (before + [b[n]])[..|before|] == before;
    }
  }

  class FixedWindowRateLimiter {
    var buckets: Buckets

    constructor ()
      ensures buckets == []
    {
      buckets := [];
    }

    method EvictExpired(now: int)
      requires DistinctKeys(buckets)
      modifies this
      ensures buckets == Evict(old(buckets), now)
    {
      var kept: Buckets := [];
      for i := 0 to |buckets|
        invariant kept == Live(buckets[..i], now)
        invariant buckets == old(buckets)
      {
        assert buckets[..i + 1][..i] == buckets[..i];
        if !(buckets[i].resetAt <= now) {
          kept := kept + [buckets[i]];
        }
      }
      assert buckets[..|buckets|] == buckets;
      buckets := kept;
      if |buckets| > CAPACITY {
        var oldestKey := buckets[0].key;
        if oldestKey != EMPTY {
          buckets := buckets[1..];
        }
      }
    }

    /** The bucket to count against, stored afresh when the key has none or its window is over. */
    method Open(key: Key, policy: Policy, now: int) returns (bucket: Bucket)
      requires DistinctKeys(buckets)
      modifies this
      ensures bucket == Current(old(buckets), key, policy, now)
      ensures buckets == Put(old(buckets), bucket)
    {
      var found := Find(buckets, key);
      if found == None || found.value.resetAt <= now {
        bucket := Bucket(key, 0, now + policy.windowMs);
        buckets := Put(buckets, bucket);
      } else {
        bucket := found.value;
        PutSame(buckets, bucket);
      }
    }

    /** One call: below the limit of the window that is open, or of a new one, it is counted and allowed, and otherwise
        refused; an expired entry, and then one old key, may go when the map is over 10,000 keys. */
    method Consume(key: Key, policy: Policy, now: int) returns (r: Decision)
      requires DistinctKeys(buckets)
      modifies this
      ensures var found := Find(old(buckets), key);
              var open := found.Some? && found.value.resetAt > now;
              var count := if open then found.value.count else 0;
              var end := if open then found.value.resetAt else now + policy.windowMs;
              && r == (if count < policy.limit then Decision(true, policy.limit - count - 1, end)
                       else Decision(false, 0, end))
              && (|old(buckets)| < 10_000 || (found.Some? && |old(buckets)| == 10_000) ==>
                    buckets == Put(old(buckets), Bucket(key, if r.allowed then count + 1 else count, end)))
      ensures (r, buckets) == Counted(old(buckets), key, policy, now)
    {
      var bucket := Open(key, policy, now);
      r := CountOne(bucket, policy.limit, now, old(buckets));
    }

    /** Counts the call against its stored bucket; `before` is the map before the bucket was opened. */
    method CountOne(bucket: Bucket, limit: nat, now: int, ghost before: Buckets) returns (r: Decision)
      requires DistinctKeys(before) && buckets == Put(before, bucket)
      modifies this
      ensures (r, buckets) == CountIn(before, bucket, limit, now)
    {
      if bucket.count >= limit {
        return Decision(false, 0, bucket.resetAt);
      }
      var counted := bucket.(count := bucket.count + 1);
      PutTwice(before, bucket, counted);
      PutDistinct(before, counted);
      buckets := Put(buckets, counted);
      if |buckets| > CAPACITY {
        EvictExpired(now);
      }
      r := Decision(true, Max(0, limit - counted.count), bucket.resetAt);
    }
  }

  lemma SettleDistinct(b: Buckets, now: int)
    requires DistinctKeys(b)
    ensures DistinctKeys(Settle(b, now))
  {
    FindLive(b, now, EMPTY);
  }

  lemma CountInDistinct(b: Buckets, bucket: Bucket, limit: nat, now: int)
    requires DistinctKeys(b)
    ensures DistinctKeys(CountIn(b, bucket, limit, now).1)
  {
    if bucket.count >= limit {
      PutDistinct(b, bucket);
    } else {
      PutDistinct(b, bucket.(count := bucket.count + 1));
      SettleDistinct(Put(b, bucket.(count := bucket.count + 1)), now);
    }
  }

  lemma PutSame(b: Buckets, bucket: Bucket)
    requires DistinctKeys(b) && Find(b, bucket.key) == Some(bucket)
    ensures Put(b, bucket) == b
  {
    forall i | 0 <= i < |b|
      ensures Put(b, bucket)[i] == b[i]
    {
      FindIs(b, i);
    }
  }

  lemma PutTwice(b: Buckets, first: Bucket, second: Bucket)
    requires DistinctKeys(b) && first.key == second.key
    ensures Put(Put(b, first), second) == Put(b, second)
  {
    FindPut(b, first, second.key);
  }
}
