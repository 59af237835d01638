/** The rate limiter's guarantees: bounded memory, bounded admissions, and agreement with the Redis script. */
module RateLimitRuns {
  import opened Wrappers
  import opened RateLimits

  // ---- Size and eviction ---------------------------------------------------------------------

  lemma {:induction false} LiveSize(b: Buckets, now: int)
    ensures |Live(b, now)| <= |b|
    ensures |Live(b, now)| == |b| <==> forall i :: 0 <= i < |b| ==> b[i].resetAt > now
    ensures |Live(b, now)| == |b| ==> Live(b, now) == b
    decreases |b|
  {
    if b != [] {
      var n := |b| - 1;
      LiveSize(b[..n], now);
      assert b == b[..n] + [b[n]];
    }
  }

  /** The map with the call's bucket put in place, before any clean-up. */
  function Stored(b: Buckets, key: Key, policy: Policy, now: int): Buckets {
    Put(b, After(Current(b, key, policy, now), policy.limit))
  }

  /** A clean-up leaves more than 10,000 keys: it drops the expired ones and at most one more, never the empty one. */
  ghost predicate StaysOver(b: Buckets, now: int) {
    var live := Live(b, now);
    |live| > 10_001 || (|live| == 10_001 && live[0].key == Key(""))
  }

  /** Whatever the map holds: a call leaves more than 10,000 keys exactly when there are that many before the clean-up
      and the call is refused, which skips the clean-up, or the clean-up leaves as many. */
  lemma SizeAfterCall(b: Buckets, key: Key, policy: Policy, now: int)
    ensures |Counted(b, key, policy, now).1| > 10_000 <==>
              && |Stored(b, key, policy, now)| > 10_000
              && (!Counted(b, key, policy, now).0.allowed || StaysOver(Stored(b, key, policy, now), now))
  {
    var counted := Stored(b, key, policy, now);
    LiveSize(counted, now);
  }

  /** The only way over the capacity: a new key on a full map of live entries whose oldest key is the empty string. */
  ghost predicate Overflows(b: Buckets, key: Key, now: int) {
    Find(b, key) == None && |b| == 10_000 && b[0].key == Key("") && forall i :: 0 <= i < |b| ==> b[i].resetAt > now
  }

  /** From at most 10,000 keys a call leaves more exactly in that case. */
  lemma OverflowIsExact(b: Buckets, key: Key, policy: Policy, now: int)
    requires DistinctKeys(b) && |b| <= 10_000 && policy.limit >= 1 && policy.windowMs >= 1
    ensures |Counted(b, key, policy, now).1| > 10_000 <==> Overflows(b, key, now)
  {
    var bucket := Current(b, key, policy, now);
    var counted := Put(b, bucket.(count := bucket.count + 1));
    PutDistinct(b, bucket);
    PutDistinct(b, bucket.(count := bucket.count + 1));
    if Find(b, key) == None {
      LiveSize(counted, now);
      if |counted| > CAPACITY {
        assert forall i :: 0 <= i < |b| ==> counted[i] == b[i];
        assert counted[|b|].resetAt > now;
      }
    }
  }

  /** The clean-up evicts the key itself, as the oldest live one of too many. */
  ghost predicate EvictsOwn(b: Buckets, key: Key, now: int) {
    var live := Live(b, now);
    |b| > 10_000 && |live| > 10_000 && live[0].key == key && key != Key("")
  }

  /** Whatever the map holds: an admitted call is on record afterwards, unless its own key is evicted. */
  lemma OwnKeyIsExact(b: Buckets, key: Key, policy: Policy, now: int)
    requires DistinctKeys(b) && policy.windowMs >= 1 && Counted(b, key, policy, now).0.allowed
    ensures var bucket := Current(b, key, policy, now);
            Find(Counted(b, key, policy, now).1, key) ==
              if EvictsOwn(Stored(b, key, policy, now), key, now) then None
              else Some(bucket.(count := bucket.count + 1))
  {
    var recorded := After(Current(b, key, policy, now), policy.limit);
    PutDistinct(b, recorded);
    FindPut(b, recorded, key);
    FindSettled(Stored(b, key, policy, now), recorded, now);
  }

  /** A live entry stays in a clean-up unless it is the one evicted. */
  lemma FindSettled(b: Buckets, x: Bucket, now: int)
    requires DistinctKeys(b) && Find(b, x.key) == Some(x) && x.resetAt > now
    ensures Find(Settle(b, now), x.key) == if EvictsOwn(b, x.key, now) then None else Some(x)
  {
    FindLive(b, now, x.key);
    FindTrimmed(Live(b, now), x);
  }

  /** What the clean-up does to the live entries. */
  lemma FindTrimmed(live: Buckets, x: Bucket)
    requires DistinctKeys(live) && Find(live, x.key) == Some(x)
    ensures var trimmed := if |live| > CAPACITY && live[0].key != EMPTY then live[1..] else live;
            Find(trimmed, x.key) ==
              if |live| > CAPACITY && live[0].key == x.key && x.key != EMPTY then None else Some(x)
  {
    if |live| > CAPACITY {
      FindTail(live, x.key);
    }
  }

  lemma {:induction false} FindTail(b: Buckets, key: Key)
    requires DistinctKeys(b) && b != []
    ensures Find(b[1..], key) == if b[0].key == key then None else Find(b, key)
  {
    if Find(b, key).Some? && b[0].key != key {
      var i :| 0 <= i < |b| && b[i] == Find(b, key).value;
      assert b[1..][i - 1] == b[i];
      FindIs(b[1..], i - 1);
    }
  }

  /** From at most 10,000 keys a call never evicts its own key. */
  lemma OwnKeyIsKept(b: Buckets, key: Key, policy: Policy, now: int)
    requires DistinctKeys(b) && |b| <= 10_000 && policy.windowMs >= 1 && Counted(b, key, policy, now).0.allowed
    ensures var bucket := Current(b, key, policy, now);
            Find(Counted(b, key, policy, now).1, key) == Some(bucket.(count := bucket.count + 1))
  {
    CountedIsKept(b, Current(b, key, policy, now), policy.limit, now);
  }

  lemma CountedIsKept(b: Buckets, bucket: Bucket, limit: nat, now: int)
    requires DistinctKeys(b) && |b| <= CAPACITY && bucket.resetAt > now && bucket.count < limit
    ensures Find(CountIn(b, bucket, limit, now).1, bucket.key) == Some(bucket.(count := bucket.count + 1))
  {
    var recorded := bucket.(count := bucket.count + 1);
    var counted := Put(b, recorded);
    PutDistinct(b, recorded);
    FindPut(b, recorded, bucket.key);
    FindSettled(counted, recorded, now);
    if |counted| > CAPACITY {
      NewestIsNotOldest(b, recorded, now);
    }
  }

  lemma NewestIsNotOldest(b: Buckets, recorded: Bucket, now: int)
    requires DistinctKeys(b + [recorded]) && |b| == CAPACITY
    ensures !EvictsOwn(b + [recorded], recorded.key, now)
  {
    LiveSize(b + [recorded], now);
  }

  // ---- Live entries --------------------------------------------------------------------------

  /** The key's entry if its window is open. */
  function LiveFind(b: Buckets, key: Key, now: int): Option<Bucket> {
    var r := Find(b, key);
    if r.Some? && r.value.resetAt > now then r else None
  }

  /** The bucket after the call. */
  function After(bucket: Bucket, limit: nat): Bucket {
    if bucket.count >= limit then bucket else bucket.(count := bucket.count + 1)
  }

  /** The map a call leaves: the counted bucket put in place, with or without a clean-up. */
  lemma CountInForm(b: Buckets, bucket: Bucket, limit: nat, now: int, counted: Buckets, after: Buckets)
    requires counted == Put(b, After(bucket, limit)) && after == CountIn(b, bucket, limit, now).1
    ensures after == counted || after == Settle(counted, now)
  {
  }

  lemma SettleKeepsLive(b: Buckets, now: int, key: Key)
    requires DistinctKeys(b) && |Live(b, now)| <= CAPACITY
    ensures LiveFind(Settle(b, now), key, now) == LiveFind(b, key, now)
  {
    FindLive(b, now, key);
  }

  /** While at most 10,000 entries are live, a call changes only the caller's live entry. */
  lemma LiveFindAfter(b: Buckets, bucket: Bucket, limit: nat, now: int, key: Key)
    requires DistinctKeys(b) && bucket.resetAt > now && |Live(Put(b, After(bucket, limit)), now)| <= CAPACITY
    ensures LiveFind(CountIn(b, bucket, limit, now).1, key, now) ==
            if key == bucket.key then Some(After(bucket, limit)) else LiveFind(b, key, now)
  {
    var counted, after := Put(b, After(bucket, limit)), CountIn(b, bucket, limit, now).1;
    var live := if key == bucket.key then Some(After(bucket, limit)) else LiveFind(b, key, now);
    CountInForm(b, bucket, limit, now, counted, after);
    assert LiveFind(counted, key, now) == live by {
      FindPut(b, After(bucket, limit), key);
    }
    assert LiveFind(Settle(counted, now), key, now) == live by {
      PutDistinct(b, After(bucket, limit));
      SettleKeepsLive(counted, now, key);
    }
  }

  // ---- The Redis script ----------------------------------------------------------------------

  datatype Counter = Counter(count: nat, expireAt: int)

  type Redis = map<Key, Counter>

  /** The key's counter unless it has expired. */
  function LiveCounter(m: Redis, key: Key, now: int): Option<Counter> {
    if key in m && m[key].expireAt > now then Some(m[key]) else None
  }

  /** INCR, and PEXPIRE on the first count. */
  function Increment(live: Option<Counter>, windowMs: int, now: int): Counter {
    var count := 1 + if live == None then 0 else live.value.count;
    Counter(count, if live == None || count == 1 then now + windowMs else live.value.expireAt)
  }

  const MAX_SAFE: nat := 0x1f_ffff_ffff_ffff

  /** The reply to a call; None when the script's answer is refused. */
  function RedisDecision(counter: Counter, policy: Policy, now: int): Option<Decision> {
    var ttl := counter.expireAt - now;
    if counter.count > MAX_SAFE || ttl <= 0 then None
    else Some(Decision(counter.count <= policy.limit, Max(0, policy.limit - counter.count), now + ttl))
  }

  class RedisRateLimitStore {
    var counters: Redis

    constructor ()
      ensures counters == map[]
    {
      counters := map[];
    }

    /** One atomic run of the script. */
    method RunScript(key: Key, windowMs: int, now: int) returns (count: nat, ttl: int)
      modifies this
      ensures var c := Increment(LiveCounter(old(counters), key, now), windowMs, now);
              counters == old(counters)[key := c] && count == c.count && ttl == c.expireAt - now
    {
      count := 1;
      var expireAt := now;
      if key in counters && counters[key].expireAt > now {
        count := counters[key].count + 1;
        expireAt := counters[key].expireAt;
      }
      if count == 1 {
        expireAt := now + windowMs;
      }
      counters := counters[key := Counter(count, expireAt)];
      ttl := expireAt - now;
    }

    /** One call: it counts into the window that is open, or opens one, and is allowed up to the limit. The reply is
        refused when the count is beyond 2^53 - 1 or no time is left. */
    method Consume(key: Key, policy: Policy, now: int) returns (r: Option<Decision>)
      modifies this
      ensures var open := key in old(counters) && old(counters)[key].expireAt > now;
              var count := if open then old(counters)[key].count + 1 else 1;
              var end := if open && count > 1 then old(counters)[key].expireAt else now + policy.windowMs;
              && counters == old(counters)[key := Counter(count, end)]
              && r == (if count > 9_007_199_254_740_991 || end <= now then None
                       else Some(Decision(count <= policy.limit,
                                          if count <= policy.limit then policy.limit - count else 0, end)))
      ensures var c := Increment(LiveCounter(old(counters), key, now), policy.windowMs, now);
              counters == old(counters)[key := c] && r == RedisDecision(c, policy, now)
    {
      var count, ttl := RunScript(key, policy.windowMs, now);
      if count > MAX_SAFE || ttl <= 0 {
        return None;
      }
      return Some(Decision(count <= policy.limit, Max(0, policy.limit - count), now + ttl));
    }
  }

  // ---- Refinement ----------------------------------------------------------------------------

  /** The same window is open, and memory counts up to the limit where Redis keeps counting. */
  ghost predicate SameEntry(e: Option<Bucket>, c: Option<Counter>, key: Key, limit: nat) {
    if c == None then e == None
    else c.value.count >= 1 && e == Some(Bucket(key, Min(c.value.count, limit), c.value.expireAt))
  }

  type Policies = Key -> Policy

  ghost predicate Simulates(b: Buckets, m: Redis, policies: Policies, now: int) {
    DistinctKeys(b) && forall key ::
      SameEntry(LiveFind(b, key, now), LiveCounter(m, key, now), key, policies(key).limit)
  }

  lemma SimulatesLater(b: Buckets, m: Redis, policies: Policies, now: int, later: int)
    requires Simulates(b, m, policies, now) && now <= later
    ensures Simulates(b, m, policies, later)
  {
    forall key
      ensures SameEntry(LiveFind(b, key, later), LiveCounter(m, key, later), key, policies(key).limit)
    {
      assert SameEntry(LiveFind(b, key, now), LiveCounter(m, key, now), key, policies(key).limit);
    }
  }

  lemma EntriesAgree(e: Option<Bucket>, c: Option<Counter>, key: Key, policy: Policy, now: int, bucket: Bucket)
    requires SameEntry(e, c, key, policy.limit) && policy.windowMs >= 1
    requires c.Some? ==> c.value.expireAt > now
    requires bucket == (if e == None then Bucket(key, 0, now + policy.windowMs) else e.value)
    ensures bucket.key == key && bucket.resetAt > now
    ensures SameEntry(Some(After(bucket, policy.limit)), Some(Increment(c, policy.windowMs, now)), key, policy.limit)
    ensures Increment(c, policy.windowMs, now).expireAt > now
    ensures Increment(c, policy.windowMs, now).count <= MAX_SAFE ==>
              RedisDecision(Increment(c, policy.windowMs, now), policy, now)
                == Some(CountIn([], bucket, policy.limit, now).0)
  {
  }

  /** One call from related states gives the same reply and leaves related states. */
  lemma CallsAgree(b: Buckets, m: Redis, policies: Policies, key: Key, now: int)
    requires Simulates(b, m, policies, now) && policies(key).windowMs >= 1
    requires |Live(Put(b, After(Current(b, key, policies(key), now), policies(key).limit)), now)| <= CAPACITY
    requires Increment(LiveCounter(m, key, now), policies(key).windowMs, now).count <= MAX_SAFE
    ensures var c := Increment(LiveCounter(m, key, now), policies(key).windowMs, now);
            && RedisDecision(c, policies(key), now) == Some(Counted(b, key, policies(key), now).0)
            && Simulates(Counted(b, key, policies(key), now).1, m[key := c], policies, now)
  {
    var policy, bucket := policies(key), Current(b, key, policies(key), now);
    var c := Increment(LiveCounter(m, key, now), policy.windowMs, now);
    EntriesAgree(LiveFind(b, key, now), LiveCounter(m, key, now), key, policy, now, bucket);
    CountInDistinct(b, bucket, policy.limit, now);
    CountedSimulates(b, m, policies, key, now, bucket, c);
  }

  lemma CountedSimulates(b: Buckets, m: Redis, policies: Policies, key: Key, now: int, bucket: Bucket, c: Counter)
    requires Simulates(b, m, policies, now) && bucket.key == key && bucket.resetAt > now && c.expireAt > now
    requires |Live(Put(b, After(bucket, policies(key).limit)), now)| <= CAPACITY
    requires SameEntry(Some(After(bucket, policies(key).limit)), Some(c), key, policies(key).limit)
    requires DistinctKeys(CountIn(b, bucket, policies(key).limit, now).1)
    ensures Simulates(CountIn(b, bucket, policies(key).limit, now).1, m[key := c], policies, now)
  {
    var after := CountIn(b, bucket, policies(key).limit, now).1;
    forall other
      ensures SameEntry(LiveFind(after, other, now), LiveCounter(m[key := c], other, now), other, policies(other).limit)
    {
      LiveFindAfter(b, bucket, policies(key).limit, now, other);
      if other != key {
        assert SameEntry(LiveFind(b, other, now), LiveCounter(m, other, now), other, policies(other).limit);
      }
    }
  }

  // ---- Runs ----------------------------------------------------------------------------------

  datatype Call = Call(key: Key, now: int)

  /** The memory map after some calls. */
  function MemoryAfter(calls: seq<Call>, policies: Policies): Buckets {
    if calls == [] then []
    else
      var last := calls[|calls| - 1];
      Counted(MemoryAfter(calls[..|calls| - 1], policies), last.key, policies(last.key), last.now).1
  }

  function MemoryReply(calls: seq<Call>, policies: Policies): Decision
    requires calls != []
  {
    var last := calls[|calls| - 1];
    Counted(MemoryAfter(calls[..|calls| - 1], policies), last.key, policies(last.key), last.now).0
  }

  function RedisAfter(calls: seq<Call>, policies: Policies): Redis {
    if calls == [] then map[]
    else
      var last := calls[|calls| - 1];
      var before := RedisAfter(calls[..|calls| - 1], policies);
      before[last.key := Increment(LiveCounter(before, last.key, last.now), policies(last.key).windowMs, last.now)]
  }

  function RedisReply(calls: seq<Call>, policies: Policies): Option<Decision>
    requires calls != []
  {
    var last := calls[|calls| - 1];
    var before := RedisAfter(calls[..|calls| - 1], policies);
    RedisDecision(Increment(LiveCounter(before, last.key, last.now), policies(last.key).windowMs, last.now),
                  policies(last.key), last.now)
  }

  /** The clock never goes back and every window lasts. */
  ghost predicate Regular(calls: seq<Call>, policies: Policies) {
    && (forall i, j :: 0 <= i <= j < |calls| ==> calls[i].now <= calls[j].now)
    && (forall i :: 0 <= i < |calls| ==> policies(calls[i].key).windowMs >= 1)
  }

  function LiveKeys(m: Redis, now: int): set<Key> {
    set k | k in m && m[k].expireAt > now
  }

  function KeySet(b: Buckets): set<Key> {
    set i | 0 <= i < |b| :: b[i].key
  }

  lemma {:induction false} KeySetSize(b: Buckets)
    requires DistinctKeys(b)
    ensures |KeySet(b)| == |b|
    decreases |b|
  {
    if b != [] {
      var n := |b| - 1;
      KeySetSize(b[..n]);
      assert KeySet(b) == KeySet(b[..n]) + {b[n].key};
      assert b[n].key !in KeySet(b[..n]);
    } else {
      assert KeySet(b) == {};
    }
  }

  /** Related states have the same live keys. */
  lemma SameLiveKeys(b: Buckets, m: Redis, policies: Policies, now: int)
    requires Simulates(b, m, policies, now)
    ensures |Live(b, now)| == |LiveKeys(m, now)|
  {
    var live := Live(b, now);
    FindLive(b, now, EMPTY);
    KeySetSize(live);
    forall k
      ensures k in KeySet(live) <==> k in LiveKeys(m, now)
    {
      FindLive(b, now, k);
      assert SameEntry(LiveFind(b, k, now), LiveCounter(m, k, now), k, policies(k).limit);
      if k in KeySet(live) {
        var i :| 0 <= i < |live| && live[i].key == k;
        FindIs(live, i);
      }
    }
    assert KeySet(live) == LiveKeys(m, now);
  }

  lemma PutSimulates(b: Buckets, m: Redis, policies: Policies, key: Key, now: int, bucket: Bucket, c: Counter)
    requires Simulates(b, m, policies, now) && bucket.key == key && bucket.resetAt > now && c.expireAt > now
    requires SameEntry(Some(After(bucket, policies(key).limit)), Some(c), key, policies(key).limit)
    ensures Simulates(Put(b, After(bucket, policies(key).limit)), m[key := c], policies, now)
  {
    var after := Put(b, After(bucket, policies(key).limit));
    PutDistinct(b, After(bucket, policies(key).limit));
    forall other
      ensures SameEntry(LiveFind(after, other, now), LiveCounter(m[key := c], other, now), other, policies(other).limit)
    {
      FindPut(b, After(bucket, policies(key).limit), other);
      if other != key {
        assert SameEntry(LiveFind(b, other, now), LiveCounter(m, other, now), other, policies(other).limit);
      }
    }
  }

  /** The live entries a call leads to are the live keys that Redis then has. */
  lemma LiveAfterCall(b: Buckets, m: Redis, policies: Policies, key: Key, now: int)
    requires Simulates(b, m, policies, now) && policies(key).windowMs >= 1
    ensures |Live(Put(b, After(Current(b, key, policies(key), now), policies(key).limit)), now)|
         == |LiveKeys(m[key := Increment(LiveCounter(m, key, now), policies(key).windowMs, now)], now)|
  {
    var policy, bucket := policies(key), Current(b, key, policies(key), now);
    var c := Increment(LiveCounter(m, key, now), policy.windowMs, now);
    EntriesAgree(LiveFind(b, key, now), LiveCounter(m, key, now), key, policy, now, bucket);
    PutSimulates(b, m, policies, key, now, bucket, c);
    SameLiveKeys(Put(b, After(bucket, policy.limit)), m[key := c], policies, now);
  }

  /** Counters never exceed the number of calls. */
  lemma {:induction false} CountsBounded(calls: seq<Call>, policies: Policies, key: Key)
    ensures key in RedisAfter(calls, policies) ==> RedisAfter(calls, policies)[key].count <= |calls|
    decreases |calls|
  {
    if calls != [] {
      CountsBounded(calls[..|calls| - 1], policies, key);
    }
  }

  lemma StoresStep(b: Buckets, m: Redis, policies: Policies, key: Key, now: int, c: Counter, later: int)
    requires Simulates(b, m, policies, now) && policies(key).windowMs >= 1 && now <= later
    requires c == Increment(LiveCounter(m, key, now), policies(key).windowMs, now) && c.count <= MAX_SAFE
    requires |LiveKeys(m[key := c], now)| <= CAPACITY
    ensures RedisDecision(c, policies(key), now) == Some(Counted(b, key, policies(key), now).0)
    ensures Simulates(Counted(b, key, policies(key), now).1, m[key := c], policies, later)
  {
    LiveAfterCall(b, m, policies, key, now);
    CallsAgree(b, m, policies, key, now);
    SimulatesLater(Counted(b, key, policies(key), now).1, m[key := c], policies, now, later);
  }

  /** Never more than 10,000 live keys. */
  ghost predicate FewKeys(calls: seq<Call>, policies: Policies) {
    forall i :: 0 <= i < |calls| ==> |LiveKeys(RedisAfter(calls[..i + 1], policies), calls[i].now)| <= 10_000
  }

  lemma PrefixRegular(calls: seq<Call>, policies: Policies, n: nat)
    requires Regular(calls, policies) && FewKeys(calls, policies) && n <= |calls|
    ensures Regular(calls[..n], policies) && FewKeys(calls[..n], policies)
  {
    assert forall i :: 0 <= i < n ==> calls[..n][i] == calls[i] && calls[..n][..i + 1] == calls[..i + 1];
  }

  lemma LastCall(calls: seq<Call>, policies: Policies, m: Redis, c: Counter)
    requires calls != [] && FewKeys(calls, policies) && m == RedisAfter(calls[..|calls| - 1], policies)
    requires var last := calls[|calls| - 1];
             c == Increment(LiveCounter(m, last.key, last.now), policies(last.key).windowMs, last.now)
    ensures RedisAfter(calls, policies) == m[calls[|calls| - 1].key := c]
    ensures |LiveKeys(m[calls[|calls| - 1].key := c], calls[|calls| - 1].now)| <= CAPACITY
    ensures c.count <= |calls|
  {
    assert calls[..|calls| - 1 + 1] == calls;
    CountsBounded(calls[..|calls| - 1], policies, calls[|calls| - 1].key);
  }

  /** For every sequence of calls with a clock that never goes back, one policy per key and never more than 10,000 live
      keys, the memory limiter and the Redis script give the same replies. */
  lemma {:induction false} StoresAgree(calls: seq<Call>, policies: Policies, now: int)
    requires Regular(calls, policies) && FewKeys(calls, policies) && |calls| <= 9_007_199_254_740_991
    requires calls != [] ==> calls[|calls| - 1].now <= now
    ensures Simulates(MemoryAfter(calls, policies), RedisAfter(calls, policies), policies, now)
    ensures calls != [] ==> RedisReply(calls, policies) == Some(MemoryReply(calls, policies))
    decreases |calls|
  {
    if calls != [] {
      var n := |calls| - 1;
      var before, last := calls[..n], calls[n];
      PrefixRegular(calls, policies, n);
      StoresAgree(before, policies, last.now);
      var m := RedisAfter(before, policies);
      var c := Increment(LiveCounter(m, last.key, last.now), policies(last.key).windowMs, last.now);
      LastCall(calls, policies, m, c);
      StoresStep(MemoryAfter(before, policies), m, policies, last.key, last.now, c, now);
    }
  }

  /** The call after the first `k` ones takes a map within the capacity over it. */
  ghost predicate OverflowsAt(calls: seq<Call>, policies: Policies, k: nat)
    requires k < |calls|
  {
    Overflows(MemoryAfter(calls[..k], policies), calls[k].key, calls[k].now)
  }

  lemma {:induction false} MemoryIsDistinct(calls: seq<Call>, policies: Policies)
    ensures DistinctKeys(MemoryAfter(calls, policies))
    decreases |calls|
  {
    if calls != [] {
      var last := calls[|calls| - 1];
      var before := MemoryAfter(calls[..|calls| - 1], policies);
      MemoryIsDistinct(calls[..|calls| - 1], policies);
      CountInDistinct(before, Current(before, last.key, policies(last.key), last.now), policies(last.key).limit,
                      last.now);
    }
  }

  lemma NextOverflow(calls: seq<Call>, policies: Policies, k: nat)
    requires k < |calls| && policies(calls[k].key).windowMs >= 1 && policies(calls[k].key).limit >= 1
    requires !IsOver(calls, policies, k)
    ensures IsOver(calls, policies, k + 1) <==> OverflowsAt(calls, policies, k)
  {
    var b := MemoryAfter(calls[..k], policies);
    assert calls[..k + 1][..k] == calls[..k];
    MemoryIsDistinct(calls[..k], policies);
    MemoryOneMore(calls[..k + 1], policies, b, calls[k]);
    OverflowIsExact(b, calls[k].key, policies(calls[k].key), calls[k].now);
  }

  /** After the first `k` calls the map holds more than 10,000 keys. */
  ghost predicate IsOver(calls: seq<Call>, policies: Policies, k: nat)
    requires k <= |calls|
  {
    |MemoryAfter(calls[..k], policies)| > 10_000
  }

  /** What first becomes true becomes true in a step that makes it so. */
  lemma {:induction false} FirstStep(over: nat -> bool, makes: nat -> bool, n: nat)
    requires !over(0) && forall k :: 0 <= k < n && !over(k) ==> (over(k + 1) <==> makes(k))
    ensures (forall k :: 0 <= k <= n ==> !over(k)) <==> (forall k :: 0 <= k < n ==> !makes(k))
  {
    if n > 0 {
      FirstStep(over, makes, n - 1);
      assert !over(n - 1) ==> (over(n - 1 + 1) <==> makes(n - 1));
    }
  }

  /** In every run, with limits and windows of at least one, the map stays within 10,000 keys exactly as long as no new
      key meets a full map of live entries whose oldest key is the empty string. */
  lemma StaysWithinIsExact(calls: seq<Call>, policies: Policies)
    requires forall i :: 0 <= i < |calls| ==> policies(calls[i].key).windowMs >= 1 && policies(calls[i].key).limit >= 1
    ensures (forall k :: 0 <= k <= |calls| ==> !IsOver(calls, policies, k)) <==>
              forall k :: 0 <= k < |calls| ==> !OverflowsAt(calls, policies, k)
  {
    var over := (k: nat) => k <= |calls| && IsOver(calls, policies, k);
    var makes := (k: nat) => k < |calls| && OverflowsAt(calls, policies, k);
    forall k | 0 <= k < |calls| && !over(k)
      ensures over(k + 1) <==> makes(k)
    {
      NextOverflow(calls, policies, k);
    }
    FirstStep(over, makes, |calls|);
    assert forall k :: 0 <= k <= |calls| ==> over(k) == IsOver(calls, policies, k);
    assert forall k :: 0 <= k < |calls| ==> makes(k) == OverflowsAt(calls, policies, k);
  }

  /** Without an empty key, and with limits of at least one, the map never holds more than 10,000 keys. */
  lemma {:induction false} MemoryIsBounded(calls: seq<Call>, policies: Policies)
    requires forall i :: 0 <= i < |calls| ==>
               calls[i].key != EMPTY && policies(calls[i].key).windowMs >= 1 && policies(calls[i].key).limit >= 1
    ensures |MemoryAfter(calls, policies)| <= 10_000 && DistinctKeys(MemoryAfter(calls, policies))
    ensures !HasEmpty(MemoryAfter(calls, policies))
    decreases |calls|
  {
    if calls != [] {
      var n := |calls| - 1;
      var before, last := MemoryAfter(calls[..n], policies), calls[n];
      MemoryIsBounded(calls[..n], policies);
      OverflowIsExact(before, last.key, policies(last.key), last.now);
      CountInDistinct(before, Current(before, last.key, policies(last.key), last.now), policies(last.key).limit,
                      last.now);
      KeysAfterCall(before, Current(before, last.key, policies(last.key), last.now), policies(last.key).limit,
                    last.now);
    }
  }

  lemma SettleAddsNothing(b: Buckets, now: int)
    requires DistinctKeys(b)
    ensures forall x :: x in Settle(b, now) ==> x in b
  {
    FindLive(b, now, EMPTY);
  }

  lemma PutAddsOne(b: Buckets, bucket: Bucket)
    ensures forall x :: x in Put(b, bucket) ==> x == bucket || x in b
  {
  }

  ghost predicate HasEmpty(b: Buckets) {
    exists x :: x in b && x.key == EMPTY
  }

  lemma AmongCounted(b: Buckets, bucket: Bucket, counted: Buckets, after: Buckets)
    requires !HasEmpty(b) && bucket.key != EMPTY
    requires (forall x :: x in counted ==> x == bucket || x in b) && (forall x :: x in after ==> x in counted)
    ensures !HasEmpty(after)
  {
  }

  /** A call adds no other key than its own. */
  lemma KeysAfterCall(b: Buckets, bucket: Bucket, limit: nat, now: int)
    requires DistinctKeys(b) && bucket.key != EMPTY && !HasEmpty(b)
    ensures !HasEmpty(CountIn(b, bucket, limit, now).1)
  {
    var counted, after := Put(b, After(bucket, limit)), CountIn(b, bucket, limit, now).1;
    CountInForm(b, bucket, limit, now, counted, after);
    PutDistinct(b, After(bucket, limit));
    PutAddsOne(b, After(bucket, limit));
    SettleAddsNothing(counted, now);
    AmongCounted(b, After(bucket, limit), counted, after);
  }

  /** The empty string as the oldest live key is never evicted: the next new key stays over the capacity. */
  lemma EmptyKeyOverflows(b: Buckets, key: Key, policy: Policy, now: int)
    requires DistinctKeys(b) && |b| == CAPACITY && b[0].key == EMPTY
             && (forall i :: 0 <= i < |b| ==> b[i].resetAt > now)
    requires Find(b, key) == None && policy.limit >= 1 && policy.windowMs >= 1
    ensures |Counted(b, key, policy, now).1| == CAPACITY + 1
  {
    OverflowIsExact(b, key, policy, now);
    var bucket := Current(b, key, policy, now);
    PutDistinct(b, bucket.(count := bucket.count + 1));
    LiveSize(Put(b, bucket.(count := bucket.count + 1)), now);
  }

  // ---- A full map is reached -----------------------------------------------------------------

  /** A clean-up of live entries with the empty string as the oldest drops nothing. */
  lemma SettleKeepsAll(b: Buckets, now: int)
    requires b != [] && (b[0].key == EMPTY || |b| == 1) && forall i :: 0 <= i < |b| ==> b[i].resetAt > now
    ensures Settle(b, now) == b
  {
    LiveSize(b, now);
  }

  lemma AllAdded(b: Buckets, x: Bucket, now: int)
    requires (b != [] ==> b[0].key == EMPTY) && (forall i :: 0 <= i < |b| ==> b[i].resetAt > now) && x.resetAt > now
    ensures Settle(b + [x], now) == b + [x]
  {
    var added := b + [x];
    forall i | 0 <= i < |added|
      ensures added[i].resetAt > now
    {
      assert added[i] == if i < |b| then b[i] else x;
    }
    SettleKeepsAll(added, now);
  }

  /** Behind the empty string as the oldest key a new key always stays, whatever the size of a map of live entries. */
  lemma NewKeyIsAdded(b: Buckets, key: Key, policy: Policy, now: int)
    requires Find(b, key) == None && (b != [] ==> b[0].key == EMPTY)
    requires (forall i :: 0 <= i < |b| ==> b[i].resetAt > now) && policy.limit >= 1 && policy.windowMs >= 1
    ensures Counted(b, key, policy, now).1 == b + [Bucket(key, 1, now + policy.windowMs)]
  {
    var bucket := Bucket(key, 1, now + policy.windowMs);
    assert Counted(b, key, policy, now).1 == Settle(b + [bucket], now);
    AllAdded(b, bucket, now);
  }

  /** The key of `n` equal letters; number 0 is the empty string. */
  function NumberedKey(n: nat): Key {
    Key(seq(n, _ => 'k'))
  }

  /** One call for each of the first `n` numbered keys, all at time 0. */
  function NumberedCalls(n: nat): seq<Call> {
    seq(n, i requires 0 <= i < n => Call(NumberedKey(i), 0))
  }

  /** The first `n` numbered keys, counted once, each in the window that its policy opens at time 0. */
  function NumberedMap(n: nat, policies: Policies): Buckets {
    seq(n, i requires 0 <= i < n => Bucket(NumberedKey(i), 1, policies(NumberedKey(i)).windowMs))
  }

  lemma NumberedAreDistinct(n: nat, policies: Policies)
    ensures DistinctKeys(NumberedMap(n, policies)) && Find(NumberedMap(n, policies), NumberedKey(n)) == None
  {
    var b := NumberedMap(n, policies);
    assert forall i :: 0 <= i < n ==> |b[i].key.text| == i;
    assert |NumberedKey(n).text| == n;
  }

  lemma NumberedPrefix(n: nat)
    ensures NumberedCalls(n + 1)[..n] == NumberedCalls(n) && NumberedCalls(n + 1)[n] == Call(NumberedKey(n), 0)
  {
  }

  lemma MemoryOneMore(calls: seq<Call>, policies: Policies, b: Buckets, last: Call)
    requires calls != [] && last == calls[|calls| - 1] && b == MemoryAfter(calls[..|calls| - 1], policies)
    ensures MemoryAfter(calls, policies) == Counted(b, last.key, policies(last.key), last.now).1
  {
  }

  lemma NumberedGrows(n: nat, policies: Policies)
    requires policies(NumberedKey(n)).limit >= 1 && forall key :: policies(key).windowMs >= 1
    ensures Counted(NumberedMap(n, policies), NumberedKey(n), policies(NumberedKey(n)), 0).1
         == NumberedMap(n + 1, policies)
  {
    var b, key := NumberedMap(n, policies), NumberedKey(n);
    NumberedAreDistinct(n, policies);
    NewKeyIsAdded(b, key, policies(key), 0);
    assert b + [Bucket(key, 1, policies(key).windowMs)] == NumberedMap(n + 1, policies);
  }

  lemma {:induction false} NumberedCallsFill(policies: Policies, n: nat)
    requires forall key :: policies(key).limit >= 1 && policies(key).windowMs >= 1
    ensures MemoryAfter(NumberedCalls(n), policies) == NumberedMap(n, policies)
  {
    if n > 0 {
      NumberedCallsFill(policies, n - 1);
      NumberedPrefix(n - 1);
      MemoryOneMore(NumberedCalls(n), policies, NumberedMap(n - 1, policies), Call(NumberedKey(n - 1), 0));
      NumberedGrows(n - 1, policies);
    }
  }

  /** With the empty key there is no bound at all: from the empty map, for every `n`, there are `n` calls that leave `n`
      keys, whatever the limits and windows. */
  lemma EmptyKeyOverflowIsReached(policies: Policies, n: nat) returns (calls: seq<Call>)
    requires forall key :: policies(key).limit >= 1 && policies(key).windowMs >= 1
    ensures Regular(calls, policies) && |calls| == n && |MemoryAfter(calls, policies)| == n
  {
    calls := NumberedCalls(n);
    NumberedCallsFill(policies, n);
  }

  lemma {:induction false} LiveWithoutFirst(b: Buckets, now: int)
    requires b != [] && b[0].resetAt <= now && forall i :: 1 <= i < |b| ==> b[i].resetAt > now
    ensures Live(b, now) == b[1..]
    decreases |b|
  {
    if |b| > 1 {
      var n := |b| - 1;
      LiveWithoutFirst(b[..n], now);
      assert b[..n][1..] + [b[n]] == b[1..];
    }
  }

  /** When the empty key is over, an admitted call for the oldest key that is left evicts that key itself. */
  lemma OldestIsLost(b: Buckets, key: Key, policy: Policy, now: int)
    requires DistinctKeys(b) && |b| == CAPACITY + 2 && policy.windowMs >= 1
    requires b[0].resetAt <= now && forall i :: 1 <= i < |b| ==> b[i].resetAt > now
    requires b[1].key == key && key != EMPTY && b[1].count < policy.limit
    ensures Counted(b, key, policy, now).0.allowed && Find(Counted(b, key, policy, now).1, key) == None
  {
    FindIs(b, 1);
    LiveWithoutFirst(Stored(b, key, policy, now), now);
    OwnKeyIsExact(b, key, policy, now);
  }

  lemma NumberedOldestIsLost(policies: Policies)
    requires forall key :: policies(key).limit >= 2 && policies(key).windowMs >= 1
    requires forall key :: key != EMPTY ==> policies(key).windowMs > policies(EMPTY).windowMs
    ensures var b, key, now := NumberedMap(CAPACITY + 2, policies), NumberedKey(1), policies(EMPTY).windowMs;
            Counted(b, key, policies(key), now).0.allowed && Find(Counted(b, key, policies(key), now).1, key) == None
  {
    var b, key := NumberedMap(CAPACITY + 2, policies), NumberedKey(1);
    NumberedAreDistinct(CAPACITY + 2, policies);
    assert NumberedKey(0) == EMPTY;
    assert forall i :: 0 <= i < |b| ==> |b[i].key.text| == i;
    OldestIsLost(b, key, policies(key), policies(EMPTY).windowMs);
  }

  /** Calls from the empty map that lead to such a call, for all limits of at least two and windows of which the empty
      key's is the shortest. */
  lemma OwnKeyLossIsReached(policies: Policies) returns (calls: seq<Call>, last: Call)
    requires forall key :: policies(key).limit >= 2 && policies(key).windowMs >= 1
    requires forall key :: key != EMPTY ==> policies(key).windowMs > policies(EMPTY).windowMs
    ensures Regular(calls + [last], policies) && MemoryReply(calls + [last], policies).allowed
    ensures Find(MemoryAfter(calls + [last], policies), last.key) == None
  {
    calls, last := NumberedCalls(CAPACITY + 2), Call(NumberedKey(1), policies(EMPTY).windowMs);
    NumberedCallsFill(policies, CAPACITY + 2);
    assert (calls + [last])[..|calls|] == calls;
    MemoryOneMore(calls + [last], policies, NumberedMap(CAPACITY + 2, policies), last);
    NumberedOldestIsLost(policies);
  }
}
