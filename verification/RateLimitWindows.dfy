/** How many calls the memory limiter admits for one key in a window and in any span of a window's length. */
module RateLimitWindows {
  import opened Wrappers
  import opened RateLimits
  import opened RateLimitRuns

  /** An admitted call of the key under study and the end of the window it counted in. */
  datatype Admission = Admission(at: int, resetAt: int)

  function Admissions(calls: seq<Call>, policies: Policies, key: Key): seq<Admission> {
    if calls == [] then []
    else
      var n := |calls| - 1;
      var before := Admissions(calls[..n], policies, key);
      var reply := MemoryReply(calls, policies);
      if calls[n].key == key && reply.allowed then before + [Admission(calls[n].now, reply.resetAt)] else before
  }

  /** How many admissions counted in the window that ends at `resetAt`. */
  function InWindow(log: seq<Admission>, resetAt: int): nat {
    if log == [] then 0
    else InWindow(log[..|log| - 1], resetAt) + if log[|log| - 1].resetAt == resetAt then 1 else 0
  }

  /** How many admissions happened from `from` on for `length` milliseconds. */
  function InSpan(log: seq<Admission>, from: int, length: int): nat {
    if log == [] then 0
    else InSpan(log[..|log| - 1], from, length) + if from <= log[|log| - 1].at < from + length then 1 else 0
  }

  lemma OneMoreCounted(before: set<int>, after: set<int>, n: int, counted: bool)
    requires n !in before && forall i :: i in after <==> i in before || (i == n && counted)
    ensures |after| == |before| + if counted then 1 else 0
  {
    var all := before + if counted then {n} else {};
    forall i
      ensures i in after <==> i in all
    {
    }
    assert after == all;
  }

  lemma {:induction false} WindowIsSize(log: seq<Admission>, resetAt: int)
    ensures InWindow(log, resetAt) == |set i | 0 <= i < |log| && log[i].resetAt == resetAt|
    decreases |log|
  {
    var ends := set i | 0 <= i < |log| && log[i].resetAt == resetAt;
    if log == [] {
      assert ends == {};
    } else {
      var n := |log| - 1;
      WindowIsSize(log[..n], resetAt);
      OneMoreCounted((set i | 0 <= i < n && log[..n][i].resetAt == resetAt), ends, n, log[n].resetAt == resetAt);
    }
  }

  lemma {:induction false} SpanIsSize(log: seq<Admission>, from: int, length: int)
    ensures InSpan(log, from, length) == |set i | 0 <= i < |log| && from <= log[i].at < from + length|
    decreases |log|
  {
    var inside := set i | 0 <= i < |log| && from <= log[i].at < from + length;
    if log == [] {
      assert inside == {};
    } else {
      var n := |log| - 1;
      SpanIsSize(log[..n], from, length);
      OneMoreCounted((set i | 0 <= i < n && from <= log[..n][i].at < from + length), inside, n,
                     from <= log[n].at < from + length);
    }
  }

  /** The map after the last call, before any clean-up. */
  function BeforeCleanUp(calls: seq<Call>, policies: Policies): Buckets
    requires calls != []
  {
    var last := calls[|calls| - 1];
    var before := MemoryAfter(calls[..|calls| - 1], policies);
    Put(before, After(Current(before, last.key, policies(last.key), last.now), policies(last.key).limit))
  }

  /** No clean-up drops the key's entry while its window is open. */
  ghost predicate NeverEvictedLive(calls: seq<Call>, policies: Policies, key: Key) {
    forall i :: 0 <= i < |calls| ==>
      (LiveFind(BeforeCleanUp(calls[..i + 1], policies), key, calls[i].now).Some?
       ==> Find(MemoryAfter(calls[..i + 1], policies), key).Some?)
  }

  // ---- The invariant -------------------------------------------------------------------------

  /** Each admission lies in its window, and the windows of earlier and later admissions are equal or do not overlap. */
  ghost predicate Windowed(log: seq<Admission>, windowMs: int) {
    && (forall i :: 0 <= i < |log| ==> log[i].resetAt - windowMs <= log[i].at < log[i].resetAt)
    && (forall i, j :: 0 <= i < j < |log| ==>
          log[i].resetAt == log[j].resetAt || log[i].resetAt <= log[j].resetAt - windowMs)
  }

  /** The log and the key's entry, if any, at time `now`. */
  ghost predicate Counts(log: seq<Admission>, entry: Option<Bucket>, policy: Policy, now: int) {
    && Windowed(log, policy.windowMs)
    && (forall r :: InWindow(log, r) <= policy.limit)
    && (match entry
        case None => forall i :: 0 <= i < |log| ==> log[i].resetAt <= now
        case Some(e) =>
          && InWindow(log, e.resetAt) == e.count <= policy.limit
          && forall i :: 0 <= i < |log| ==>
               log[i].resetAt == e.resetAt || log[i].resetAt <= e.resetAt - policy.windowMs)
  }

  lemma {:induction false} NoneInWindow(log: seq<Admission>, resetAt: int)
    requires forall i :: 0 <= i < |log| ==> log[i].resetAt != resetAt
    ensures InWindow(log, resetAt) == 0
    decreases |log|
  {
    if log != [] {
      assert forall i :: 0 <= i < |log| - 1 ==> log[..|log| - 1][i] == log[i];
      NoneInWindow(log[..|log| - 1], resetAt);
    }
  }

  lemma WindowOneMore(log: seq<Admission>, a: Admission, resetAt: int)
    ensures InWindow(log + [a], resetAt) == InWindow(log, resetAt) + if a.resetAt == resetAt then 1 else 0
  {
    assert (log + [a])[..|log|] == log;
  }

  lemma WindowedOneMore(log: seq<Admission>, a: Admission, windowMs: int)
    requires Windowed(log, windowMs) && a.resetAt - windowMs <= a.at < a.resetAt
    requires forall i :: 0 <= i < |log| ==> log[i].resetAt == a.resetAt || log[i].resetAt <= a.resetAt - windowMs
    ensures Windowed(log + [a], windowMs)
  {
  }

  lemma InWindowOneMore(log: seq<Admission>, a: Admission, limit: nat)
    requires (forall r :: InWindow(log, r) <= limit) && InWindow(log, a.resetAt) < limit
    ensures forall r :: InWindow(log + [a], r) <= limit
  {
    forall r
      ensures InWindow(log + [a], r) <= limit
    {
      WindowOneMore(log, a, r);
    }
  }

  /** A call for the key that is admitted. */
  lemma AdmitKeepsCounts(log: seq<Admission>, entry: Option<Bucket>, policy: Policy, now: int, bucket: Bucket)
    requires Counts(log, entry, policy, now) && policy.windowMs >= 1 && bucket.count < policy.limit
    requires if entry.Some? && entry.value.resetAt > now then bucket == entry.value
             else bucket.count == 0 && bucket.resetAt == now + policy.windowMs
    requires bucket.resetAt - policy.windowMs <= now
    ensures Counts(log + [Admission(now, bucket.resetAt)], Some(bucket.(count := bucket.count + 1)), policy, now)
  {
    var a := Admission(now, bucket.resetAt);
    if !(entry.Some? && entry.value.resetAt > now) {
      assert forall i :: 0 <= i < |log| ==> log[i].resetAt <= now;
      NoneInWindow(log, bucket.resetAt);
    }
    WindowedOneMore(log, a, policy.windowMs);
    InWindowOneMore(log, a, policy.limit);
    WindowOneMore(log, a, a.resetAt);
  }

  /** A call for the key that is refused, or opens a window without being admitted. */
  lemma RefuseKeepsCounts(log: seq<Admission>, entry: Option<Bucket>, policy: Policy, now: int, bucket: Bucket)
    requires Counts(log, entry, policy, now) && policy.windowMs >= 1
    requires if entry.Some? && entry.value.resetAt > now then bucket == entry.value
             else bucket.count == 0 && bucket.resetAt == now + policy.windowMs
    ensures Counts(log, Some(bucket), policy, now)
  {
    if !(entry.Some? && entry.value.resetAt > now) {
      assert forall i :: 0 <= i < |log| ==> log[i].resetAt <= now;
      NoneInWindow(log, bucket.resetAt);
    }
  }

  /** Time passing, and the entry being dropped once its window is over. */
  lemma LaterKeepsCounts(log: seq<Admission>, entry: Option<Bucket>, policy: Policy, now: int, later: int,
                         after: Option<Bucket>)
    requires Counts(log, entry, policy, now) && now <= later && policy.windowMs >= 1
    requires after == entry || (after == None && entry.Some? && entry.value.resetAt <= later)
    ensures Counts(log, after, policy, later)
  {
  }

  // ---- Calls ---------------------------------------------------------------------------------

  /** A call for another key leaves this key's entry, or drops it. */
  lemma OtherCall(b: Buckets, bucket: Bucket, limit: nat, now: int, key: Key)
    requires DistinctKeys(b) && bucket.key != key
    ensures Find(CountIn(b, bucket, limit, now).1, key) == Find(b, key)
            || Find(CountIn(b, bucket, limit, now).1, key) == None
  {
    var counted, after := Put(b, After(bucket, limit)), CountIn(b, bucket, limit, now).1;
    CountInForm(b, bucket, limit, now, counted, after);
    assert Find(counted, key) == Find(b, key) by {
      FindPut(b, After(bucket, limit), key);
    }
    assert Find(Settle(counted, now), key) == Find(counted, key) || Find(Settle(counted, now), key) == None by {
      PutDistinct(b, After(bucket, limit));
      SettleDropsOrKeeps(counted, now, key);
    }
  }

  lemma FindInTail(b: Buckets, key: Key)
    requires DistinctKeys(b) && b != []
    ensures Find(b[1..], key) == Find(b, key) || Find(b[1..], key) == None
  {
    var rest := b[1..];
    if Find(rest, key).Some? {
      var i :| 0 <= i < |rest| && rest[i] == Find(rest, key).value;
      FindIs(b, i + 1);
    }
  }

  lemma SettleDropsOrKeeps(b: Buckets, now: int, key: Key)
    requires DistinctKeys(b)
    ensures Find(Settle(b, now), key) == Find(b, key) || Find(Settle(b, now), key) == None
  {
    FindLive(b, now, key);
    if |Live(b, now)| > CAPACITY {
      FindInTail(Live(b, now), key);
    }
  }

  /** A call for the key itself records its bucket, or drops it. */
  lemma OwnCall(b: Buckets, bucket: Bucket, limit: nat, now: int)
    requires DistinctKeys(b)
    ensures var r := Find(CountIn(b, bucket, limit, now).1, bucket.key);
            r == Some(After(bucket, limit)) || r == None
  {
    var counted, after := Put(b, After(bucket, limit)), CountIn(b, bucket, limit, now).1;
    CountInForm(b, bucket, limit, now, counted, after);
    assert Find(counted, bucket.key) == Some(After(bucket, limit)) by {
      FindPut(b, After(bucket, limit), bucket.key);
    }
    assert Find(Settle(counted, now), bucket.key) == Find(counted, bucket.key)
           || Find(Settle(counted, now), bucket.key) == None by {
      PutDistinct(b, After(bucket, limit));
      SettleDropsOrKeeps(counted, now, bucket.key);
    }
  }

  lemma {:induction false} MemoryDistinct(calls: seq<Call>, policies: Policies)
    ensures DistinctKeys(MemoryAfter(calls, policies))
    decreases |calls|
  {
    if calls != [] {
      var n := |calls| - 1;
      var before, last := MemoryAfter(calls[..n], policies), calls[n];
      MemoryDistinct(calls[..n], policies);
      CountInDistinct(before, Current(before, last.key, policies(last.key), last.now), policies(last.key).limit,
                      last.now);
    }
  }

  lemma CountInReply(b: Buckets, bucket: Bucket, limit: nat, now: int, reply: Decision)
    requires reply == CountIn(b, bucket, limit, now).0
    ensures reply.allowed == (bucket.count < limit) && reply.resetAt == bucket.resetAt
  {
  }

  lemma CurrentOfEntry(b: Buckets, key: Key, policy: Policy, now: int, entry: Option<Bucket>, bucket: Bucket)
    requires entry == Find(b, key) && bucket == Current(b, key, policy, now)
    ensures if entry.Some? && entry.value.resetAt > now then bucket == entry.value
            else bucket.count == 0 && bucket.resetAt == now + policy.windowMs
    ensures bucket.key == key
  {
  }

  lemma OwnCallKeepsCounts(log: seq<Admission>, b: Buckets, key: Key, policy: Policy, now: int, bucket: Bucket,
                           reply: Decision, after: Buckets)
    requires DistinctKeys(b) && policy.windowMs >= 1 && Counts(log, Find(b, key), policy, now)
    requires bucket == Current(b, key, policy, now) && (reply, after) == CountIn(b, bucket, policy.limit, now)
    requires Find(after, key).Some? && bucket.resetAt - policy.windowMs <= now
    ensures Counts(if reply.allowed then log + [Admission(now, reply.resetAt)] else log, Find(after, key), policy, now)
  {
    OwnCall(b, bucket, policy.limit, now);
    CountInReply(b, bucket, policy.limit, now, reply);
    CurrentOfEntry(b, key, policy, now, Find(b, key), bucket);
    assert Find(after, key) == Some(After(bucket, policy.limit));
    if bucket.count < policy.limit {
      AdmitKeepsCounts(log, Find(b, key), policy, now, bucket);
    } else {
      RefuseKeepsCounts(log, Find(b, key), policy, now, bucket);
    }
  }

  lemma OtherCallKeepsCounts(log: seq<Admission>, b: Buckets, bucket: Bucket, limit: nat, key: Key, policy: Policy,
                             now: int)
    requires DistinctKeys(b) && policy.windowMs >= 1 && Counts(log, Find(b, key), policy, now) && bucket.key != key
    requires LiveFind(Put(b, After(bucket, limit)), key, now).Some? ==>
               Find(CountIn(b, bucket, limit, now).1, key).Some?
    ensures Counts(log, Find(CountIn(b, bucket, limit, now).1, key), policy, now)
  {
    OtherCall(b, bucket, limit, now, key);
    FindPut(b, After(bucket, limit), key);
    LaterKeepsCounts(log, Find(b, key), policy, now, now, Find(CountIn(b, bucket, limit, now).1, key));
  }

  /** The key's windows never open in the future. */
  ghost predicate Opened(entry: Option<Bucket>, windowMs: int, now: int) {
    entry.Some? ==> entry.value.resetAt - windowMs <= now
  }

  lemma StepKeepsCounts(log: seq<Admission>, b: Buckets, call: Call, policies: Policies, key: Key)
    requires DistinctKeys(b) && policies(call.key).windowMs >= 1 && policies(key).windowMs >= 1
    requires Counts(log, Find(b, key), policies(key), call.now)
             && Opened(Find(b, key), policies(key).windowMs, call.now)
    requires var bucket := Current(b, call.key, policies(call.key), call.now);
             LiveFind(Put(b, After(bucket, policies(call.key).limit)), key, call.now).Some?
             ==> Find(Counted(b, call.key, policies(call.key), call.now).1, key).Some?
    ensures var (reply, after) := Counted(b, call.key, policies(call.key), call.now);
            && Counts(if call.key == key && reply.allowed then log + [Admission(call.now, reply.resetAt)] else log,
                      Find(after, key), policies(key), call.now)
            && Opened(Find(after, key), policies(key).windowMs, call.now)
  {
    var bucket := Current(b, call.key, policies(call.key), call.now);
    var limit := policies(call.key).limit;
    if call.key == key {
      FindPut(b, After(bucket, limit), key);
      OwnCall(b, bucket, limit, call.now);
      var (reply, after) := CountIn(b, bucket, limit, call.now);
      OwnCallKeepsCounts(log, b, key, policies(key), call.now, bucket, reply, after);
    } else {
      OtherCall(b, bucket, limit, call.now, key);
      OtherCallKeepsCounts(log, b, bucket, limit, key, policies(key), call.now);
    }
  }

  lemma PrefixNeverEvicts(calls: seq<Call>, policies: Policies, key: Key, n: nat)
    requires Regular(calls, policies) && NeverEvictedLive(calls, policies, key) && n <= |calls|
    ensures Regular(calls[..n], policies) && NeverEvictedLive(calls[..n], policies, key)
  {
    forall i | 0 <= i < n
      ensures calls[..n][i] == calls[i] && calls[..n][..i + 1] == calls[..i + 1]
    {
    }
  }

  lemma LastNeverEvicts(calls: seq<Call>, policies: Policies, key: Key, last: Call, b: Buckets, after: Buckets)
    requires NeverEvictedLive(calls, policies, key) && calls != [] && last == calls[|calls| - 1]
    requires b == MemoryAfter(calls[..|calls| - 1], policies) && after == MemoryAfter(calls, policies)
    ensures var bucket := Current(b, last.key, policies(last.key), last.now);
            LiveFind(Put(b, After(bucket, policies(last.key).limit)), key, last.now).Some? ==> Find(after, key).Some?
  {
    assert calls[..|calls| - 1 + 1] == calls;
  }

  /** One more call, and time passing until `now`. */
  lemma CallKeepsCounts(log: seq<Admission>, b: Buckets, last: Call, policies: Policies, key: Key, now: int,
                        reply: Decision, after: Buckets, more: seq<Admission>)
    requires DistinctKeys(b) && policies(last.key).windowMs >= 1 && policies(key).windowMs >= 1 && last.now <= now
    requires Counts(log, Find(b, key), policies(key), last.now)
             && Opened(Find(b, key), policies(key).windowMs, last.now)
    requires var bucket := Current(b, last.key, policies(last.key), last.now);
             LiveFind(Put(b, After(bucket, policies(last.key).limit)), key, last.now).Some? ==> Find(after, key).Some?
    requires (reply, after) == Counted(b, last.key, policies(last.key), last.now)
    requires more == if last.key == key && reply.allowed then log + [Admission(last.now, reply.resetAt)] else log
    ensures Counts(more, Find(after, key), policies(key), now) && Opened(Find(after, key), policies(key).windowMs, now)
  {
    StepKeepsCounts(log, b, last, policies, key);
    LaterKeepsCounts(more, Find(after, key), policies(key), last.now, now, Find(after, key));
  }

  /** The log and the map after one more call. */
  lemma AdmissionsOneMore(calls: seq<Call>, policies: Policies, key: Key, last: Call, log: seq<Admission>, b: Buckets,
                          reply: Decision, after: Buckets)
    requires calls != [] && last == calls[|calls| - 1]
    requires log == Admissions(calls[..|calls| - 1], policies, key) && b == MemoryAfter(calls[..|calls| - 1], policies)
    requires (reply, after) == Counted(b, last.key, policies(last.key), last.now)
    ensures Admissions(calls, policies, key) == if last.key == key && reply.allowed
            then log + [Admission(last.now, reply.resetAt)] else log
    ensures MemoryAfter(calls, policies) == after
  {
  }

  /** The stored count of a key that is never evicted live is the number of its admissions in the current window. */
  lemma {:induction false} AdmissionsAreCounted(calls: seq<Call>, policies: Policies, key: Key, now: int)
    requires Regular(calls, policies) && NeverEvictedLive(calls, policies, key) && policies(key).windowMs >= 1
    requires calls != [] ==> calls[|calls| - 1].now <= now
    ensures Counts(Admissions(calls, policies, key), Find(MemoryAfter(calls, policies), key), policies(key), now)
    ensures Opened(Find(MemoryAfter(calls, policies), key), policies(key).windowMs, now)
    decreases |calls|
  {
    if calls != [] {
      var n := |calls| - 1;
      var before, last := calls[..n], calls[n];
      var log, b := Admissions(before, policies, key), MemoryAfter(before, policies);
      var (reply, after) := Counted(b, last.key, policies(last.key), last.now);
      AdmissionsOneMore(calls, policies, key, last, log, b, reply, after);
      LastNeverEvicts(calls, policies, key, last, b, after);
      PrefixNeverEvicts(calls, policies, key, n);
      AdmissionsAreCounted(before, policies, key, last.now);
      MemoryDistinct(before, policies);
      CallKeepsCounts(log, b, last, policies, key, now, reply, after, Admissions(calls, policies, key));
    }
  }

  // ---- Spans ---------------------------------------------------------------------------------

  predicate InsideSpan(a: Admission, from: int, length: int) {
    from <= a.at < from + length
  }

  /** A span that only meets two windows admits at most what they do. */
  lemma {:induction false} SpanOfTwoWindows(log: seq<Admission>, from: int, length: int, r1: int, r2: int)
    requires forall i :: 0 <= i < |log| && InsideSpan(log[i], from, length) ==>
               log[i].resetAt == r1 || log[i].resetAt == r2
    ensures InSpan(log, from, length) <= InWindow(log, r1) + InWindow(log, r2)
    decreases |log|
  {
    if log != [] {
      var n := |log| - 1;
      assert forall i :: 0 <= i < n ==> log[..n][i] == log[i];
      SpanOfTwoWindows(log[..n], from, length, r1, r2);
      assert InsideSpan(log[n], from, length) ==> log[n].resetAt == r1 || log[n].resetAt == r2;
    }
  }

  function FirstInside(log: seq<Admission>, from: int, length: int): (f: nat)
    ensures f <= |log| && (f < |log| ==> InsideSpan(log[f], from, length))
    ensures forall i :: 0 <= i < f ==> !InsideSpan(log[i], from, length)
  {
    if log == [] then 0
    else
      var n := |log| - 1;
      var f := FirstInside(log[..n], from, length);
      assert forall i :: 0 <= i < n ==> log[..n][i] == log[i];
      if f < n || InsideSpan(log[n], from, length) then f else n + 1
  }

  function LastInside(log: seq<Admission>, from: int, length: int): (g: nat)
    requires exists i :: 0 <= i < |log| && InsideSpan(log[i], from, length)
    ensures g < |log| && InsideSpan(log[g], from, length)
    ensures forall i :: g < i < |log| ==> !InsideSpan(log[i], from, length)
  {
    var n := |log| - 1;
    if InsideSpan(log[n], from, length) then n
    else
      assert forall i :: 0 <= i < n ==> log[..n][i] == log[i];
      LastInside(log[..n], from, length)
  }

  /** A span as long as a window meets at most two windows. */
  lemma SpanMeetsTwoWindows(log: seq<Admission>, from: int, windowMs: int, limit: nat)
    requires Windowed(log, windowMs) && windowMs >= 1 && forall r :: InWindow(log, r) <= limit
    ensures InSpan(log, from, windowMs) <= 2 * limit
  {
    var f := FirstInside(log, from, windowMs);
    if f == |log| {
      SpanOfTwoWindows(log, from, windowMs, 0, 0);
      assert InWindow(log, 0) <= limit;
    } else {
      var g := LastInside(log, from, windowMs);
      forall i | 0 <= i < |log| && InsideSpan(log[i], from, windowMs)
        ensures log[i].resetAt == log[f].resetAt || log[i].resetAt == log[g].resetAt
      {
        assert f <= i <= g;
      }
      SpanOfTwoWindows(log, from, windowMs, log[f].resetAt, log[g].resetAt);
      assert InWindow(log, log[f].resetAt) <= limit && InWindow(log, log[g].resetAt) <= limit;
    }
  }

  /** For every sequence of calls with a clock that never goes back: a key that is never evicted while live is admitted
      at most `limit` times in each window, and at most twice that in any span as long as a window. */
  lemma AdmissionsAreLimited(calls: seq<Call>, policies: Policies, key: Key, resetAt: int, from: int)
    requires Regular(calls, policies) && NeverEvictedLive(calls, policies, key) && policies(key).windowMs >= 1
    ensures var log := Admissions(calls, policies, key);
            && |set i | 0 <= i < |log| && log[i].resetAt == resetAt| <= policies(key).limit
            && |set i | 0 <= i < |log| && from <= log[i].at < from + policies(key).windowMs| <= 2 * policies(key).limit
  {
    WindowIsSize(Admissions(calls, policies, key), resetAt);
    SpanIsSize(Admissions(calls, policies, key), from, policies(key).windowMs);
    AdmissionsAreCounted(calls, policies, key, if calls == [] then 0 else calls[|calls| - 1].now);
    SpanMeetsTwoWindows(Admissions(calls, policies, key), from, policies(key).windowMs, policies(key).limit);
  }

  /** With never more than 10,000 live keys no key is evicted while live. */
  lemma FewKeysNeverEvict(calls: seq<Call>, policies: Policies, key: Key)
    requires Regular(calls, policies) && FewKeys(calls, policies) && |calls| <= MAX_SAFE
    ensures NeverEvictedLive(calls, policies, key)
  {
    forall i | 0 <= i < |calls|
      ensures LiveFind(BeforeCleanUp(calls[..i + 1], policies), key, calls[i].now).Some?
              ==> Find(MemoryAfter(calls[..i + 1], policies), key).Some?
    {
      PrefixRegular(calls, policies, i + 1);
      LastNotEvicted(calls[..i + 1], policies, key);
    }
  }

  lemma LastNotEvicted(calls: seq<Call>, policies: Policies, key: Key)
    requires calls != [] && Regular(calls, policies) && FewKeys(calls, policies) && |calls| <= MAX_SAFE
    ensures LiveFind(BeforeCleanUp(calls, policies), key, calls[|calls| - 1].now).Some?
            ==> Find(MemoryAfter(calls, policies), key).Some?
  {
    var n := |calls| - 1;
    var before, last := calls[..n], calls[n];
    PrefixRegular(calls, policies, n);
    StoresAgree(before, policies, last.now);
    var b, m := MemoryAfter(before, policies), RedisAfter(before, policies);
    LastCall(calls, policies, m, Increment(LiveCounter(m, last.key, last.now), policies(last.key).windowMs, last.now));
    LiveAfterCall(b, m, policies, last.key, last.now);
    var bucket := Current(b, last.key, policies(last.key), last.now);
    PutDistinct(b, After(bucket, policies(last.key).limit));
    SettleKeepsLive(BeforeCleanUp(calls, policies), last.now, key);
  }
}
