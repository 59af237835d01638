/** The backup theorems: manifests stay backed by their objects wherever commands stop, pruning removes exactly the
    unused objects, and restoring gives back the bytes that were backed up. */
module BackupSafety {
  import opened Wrappers
  import opened VideoBackups
  import opened BackupCommands

  // ---- The invariant -------------------------------------------------------------------------

  /** Every present manifest, the latest one included, is backed, and every object is kept under its own hash. */
  ghost predicate Backed(s: State, hash: Data -> string) {
    && (forall t :: t in s.manifests ==> AllStored(s.objects, hash, s.manifests[t]))
    && (s.latest.Some? ==> AllStored(s.objects, hash, s.latest.value))
    && (forall d :: d in s.objects ==> hash(s.objects[d]) == d)
  }

  ghost predicate Lists(m: Manifest, d: string) {
    exists i :: 0 <= i < |m| && m[i].digest == Some(d)
  }

  ghost predicate Referenced(s: State, d: string) {
    (s.latest.Some? && Lists(s.latest.value, d)) || exists t :: t in s.manifests && Lists(s.manifests[t], d)
  }

  /** File steps that cannot leave a manifest without its objects. */
  ghost predicate Safe(s: State, hash: Data -> string, op: FileOp) {
    match op
    case PutObject(d, data) => d !in s.objects && hash(data) == d
    case PutManifest(_, m) => AllStored(s.objects, hash, m)
    case PutLatest(m) => AllStored(s.objects, hash, m)
    case RemoveManifest(_) => true
    case RemoveObject(d) => !Referenced(s, d)
    case PutSource(_, _) => true
  }

  lemma MoreObjectsStore(objects: map<string, Data>, hash: Data -> string, m: Manifest, more: map<string, Data>)
    requires AllStored(objects, hash, m) && forall d :: d in objects ==> d in more && more[d] == objects[d]
    ensures AllStored(more, hash, m)
  {
    forall i | 0 <= i < |m|
      ensures Stored(more, hash, m[i])
    {
      assert Stored(objects, hash, m[i]);
    }
  }

  lemma FewerObjectsStore(objects: map<string, Data>, hash: Data -> string, m: Manifest, d: string)
    requires AllStored(objects, hash, m) && !Lists(m, d)
    ensures AllStored(objects - {d}, hash, m)
  {
    forall i | 0 <= i < |m|
      ensures Stored(objects - {d}, hash, m[i])
    {
      assert Stored(objects, hash, m[i]);
    }
  }

  lemma PutObjectKeepsBacked(s: State, hash: Data -> string, d: string, data: Data)
    requires Backed(s, hash) && d !in s.objects && hash(data) == d
    ensures Backed(s.(objects := s.objects[d := data]), hash)
  {
    var s' := s.(objects := s.objects[d := data]);
    forall t | t in s.manifests
      ensures AllStored(s'.objects, hash, s.manifests[t])
    {
      MoreObjectsStore(s.objects, hash, s.manifests[t], s'.objects);
    }
    if s.latest.Some? {
      MoreObjectsStore(s.objects, hash, s.latest.value, s'.objects);
    }
  }

  lemma RemoveObjectKeepsBacked(s: State, hash: Data -> string, d: string)
    requires Backed(s, hash) && !Referenced(s, d)
    ensures Backed(s.(objects := s.objects - {d}), hash)
  {
    forall t | t in s.manifests
      ensures AllStored(s.objects - {d}, hash, s.manifests[t])
    {
      FewerObjectsStore(s.objects, hash, s.manifests[t], d);
    }
    if s.latest.Some? {
      FewerObjectsStore(s.objects, hash, s.latest.value, d);
    }
  }

  lemma OpKeepsBacked(s: State, hash: Data -> string, op: FileOp)
    requires Backed(s, hash) && Safe(s, hash, op)
    ensures Backed(Apply(s, op), hash)
  {
    match op
    case PutObject(d, data) => PutObjectKeepsBacked(s, hash, d, data);
    case RemoveObject(d) => RemoveObjectKeepsBacked(s, hash, d);
    case _ =>
  }

  /** Each step is safe in the state the earlier ones lead to. */
  ghost predicate SafeOps(s: State, hash: Data -> string, ops: seq<FileOp>) {
    forall k :: 0 <= k < |ops| ==> Safe(ApplyAll(s, ops[..k]), hash, ops[k])
  }

  /** Stopping after any prefix of safe steps leaves everything backed. */
  lemma {:induction false} PrefixKeepsBacked(s: State, hash: Data -> string, ops: seq<FileOp>, k: nat)
    requires Backed(s, hash) && SafeOps(s, hash, ops) && k <= |ops|
    ensures Backed(ApplyAll(s, ops[..k]), hash)
  {
    if k > 0 {
      PrefixKeepsBacked(s, hash, ops, k - 1);
      ApplyNext(s, ops, k - 1);
      OpKeepsBacked(ApplyAll(s, ops[..k - 1]), hash, ops[k - 1]);
    }
  }

  lemma SafeOneMore(s: State, hash: Data -> string, ops: seq<FileOp>, op: FileOp)
    requires SafeOps(s, hash, ops) && Safe(ApplyAll(s, ops), hash, op)
    ensures SafeOps(s, hash, ops + [op])
  {
    var more := ops + [op];
    forall k | 0 <= k < |more|
      ensures Safe(ApplyAll(s, more[..k]), hash, more[k])
    {
      assert more[..k] == if k < |ops| then ops[..k] else ops;
    }
  }

  // ---- Backup --------------------------------------------------------------------------------

  /** Only objects were added. */
  ghost predicate Grown(s: State, s': State) {
    && s'.manifests == s.manifests && s'.latest == s.latest && s'.source == s.source
    && forall d :: d in s.objects ==> d in s'.objects && s'.objects[d] == s.objects[d]
  }

  ghost predicate EntryStored(s: State, hash: Data -> string, e: Entry) {
    e.digest in s.objects && Matches(hash, e, s.objects[e.digest])
  }

  ghost predicate EntriesStored(s: State, hash: Data -> string, files: seq<Entry>) {
    forall i :: 0 <= i < |files| ==> EntryStored(s, hash, files[i])
  }

  /** The steps add missing objects under their hashes and do nothing else. */
  ghost predicate OnlyCopies(s: State, hash: Data -> string, ops: seq<FileOp>) {
    SafeOps(s, hash, ops) && Grown(s, ApplyAll(s, ops)) && forall i :: 0 <= i < |ops| ==> ops[i].PutObject?
  }

  lemma GrownStores(s: State, s': State, hash: Data -> string, files: seq<Entry>)
    requires EntriesStored(s, hash, files) && Grown(s, s')
    ensures EntriesStored(s', hash, files)
  {
    forall i | 0 <= i < |files|
      ensures EntryStored(s', hash, files[i])
    {
      assert EntryStored(s, hash, files[i]);
    }
  }

  lemma CopyOpStores(s: State, hash: Data -> string, e: Entry, op: FileOp)
    requires CopyStep(hash, s, e) == Ok(Some(op))
    ensures op.PutObject? && Safe(s, hash, op)
    ensures EntryStored(Apply(s, op), hash, e) && Grown(s, Apply(s, op))
  {
  }

  lemma CopyAdds(s: State, hash: Data -> string, ops: seq<FileOp>, e: Entry, op: FileOp)
    requires OnlyCopies(s, hash, ops) && CopyStep(hash, ApplyAll(s, ops), e) == Ok(Some(op))
    ensures OnlyCopies(s, hash, ops + [op]) && EntryStored(ApplyAll(s, ops + [op]), hash, e)
    ensures Grown(ApplyAll(s, ops), ApplyAll(s, ops + [op]))
  {
    CopyOpStores(ApplyAll(s, ops), hash, e, op);
    SafeOneMore(s, hash, ops, op);
    ApplyOneMore(s, ops, op);
  }

  lemma StoredOneMore(s: State, hash: Data -> string, files: seq<Entry>, n: nat)
    requires n == |files| - 1 && EntriesStored(s, hash, files[..n]) && EntryStored(s, hash, files[n])
    ensures EntriesStored(s, hash, files)
  {
    forall i | 0 <= i < |files|
      ensures EntryStored(s, hash, files[i])
    {
      assert i < n ==> files[..n][i] == files[i];
    }
  }

  /** What the copy loop keeps; `files` are the entries copied so far. */
  ghost predicate Copies(s: State, hash: Data -> string, files: seq<Entry>, plan: Plan) {
    OnlyCopies(s, hash, plan.ops) && (plan.error == None ==> EntriesStored(ApplyAll(s, plan.ops), hash, files))
  }

  lemma CopyNextAdds(s: State, hash: Data -> string, files: seq<Entry>, done: seq<FileOp>, op: FileOp)
    requires files != [] && Copies(s, hash, files[..|files| - 1], Plan(done, None))
    requires CopyStep(hash, ApplyAll(s, done), files[|files| - 1]) == Ok(Some(op))
    ensures Copies(s, hash, files, Plan(done + [op], None))
  {
    var n := |files| - 1;
    CopyAdds(s, hash, done, files[n], op);
    GrownStores(ApplyAll(s, done), ApplyAll(s, done + [op]), hash, files[..n]);
    StoredOneMore(ApplyAll(s, done + [op]), hash, files, n);
  }

  lemma CopyNextSkips(s: State, hash: Data -> string, files: seq<Entry>, done: seq<FileOp>)
    requires files != [] && Copies(s, hash, files[..|files| - 1], Plan(done, None))
    requires CopyStep(hash, ApplyAll(s, done), files[|files| - 1]) == Ok(None)
    ensures Copies(s, hash, files, Plan(done, None))
  {
    StoredOneMore(ApplyAll(s, done), hash, files, |files| - 1);
  }

  /** The copy loop only adds missing objects under their hashes; without an error every listed file is stored. */
  lemma {:induction false} CopiesAreSafe(s: State, hash: Data -> string, files: seq<Entry>)
    ensures Copies(s, hash, files, Each(s, files, Copier(hash)))
    decreases |files|
  {
    if files != [] {
      var n := |files| - 1;
      CopiesAreSafe(s, hash, files[..n]);
      var before := Each(s, files[..n], Copier(hash));
      if before.error == None {
        match CopyStep(hash, ApplyAll(s, before.ops), files[n]) {
          case Err(_) =>
          case Ok(None) => CopyNextSkips(s, hash, files, before.ops);
          case Ok(Some(op)) => CopyNextAdds(s, hash, files, before.ops, op);
        }
      }
    }
  }

  lemma WrittenIsStored(s: State, hash: Data -> string, files: seq<Entry>)
    requires EntriesStored(s, hash, files)
    ensures AllStored(s.objects, hash, Written(files))
  {
    forall i | 0 <= i < |files|
      ensures Stored(s.objects, hash, Written(files)[i])
    {
      assert EntryStored(s, hash, files[i]);
    }
  }

  lemma BackupIsSafe(s: State, hash: Data -> string, files: seq<Entry>, invalid: nat, diskCritical: bool, now: int)
    ensures SafeOps(s, hash, BackupPlan(s, hash, files, invalid, diskCritical, now).ops)
  {
    var copies := Each(s, files, Copier(hash));
    CopiesAreSafe(s, hash, files);
    if copies.error == None {
      var manifest := Written(files);
      var first, second := PutManifest(now, manifest), PutLatest(manifest);
      WrittenIsStored(ApplyAll(s, copies.ops), hash, files);
      SafeOneMore(s, hash, copies.ops, first);
      ApplyOneMore(s, copies.ops, first);
      SafeOneMore(s, hash, copies.ops + [first], second);
      assert copies.ops + [first, second] == copies.ops + [first] + [second];
    }
  }

  // ---- Prune ---------------------------------------------------------------------------------

  lemma ValidatedDigests(m: Manifest, d: string)
    requires ValidManifest(m)
    ensures d in Digests(Validated(m).value) <==> Lists(m, d)
  {
    var files := Validated(m).value;
    if d in Digests(files) {
      var e :| e in files && e.digest == d;
      var i :| 0 <= i < |files| && files[i] == e;
      assert m[i].digest == Some(d);
    }
    if i :| 0 <= i < |m| && m[i].digest == Some(d) {
      assert files[i] in files && files[i].digest == d;
    }
  }

  /** A manifest that stays within the cutoff and lists `d`. */
  ghost predicate KeptLists(manifests: map<int, Manifest>, times: seq<int>, cutoff: int, d: string) {
    exists t :: t in times && t in manifests && t >= cutoff && Lists(manifests[t], d)
  }

  lemma {:induction false} SortIsExact(manifests: map<int, Manifest>, times: seq<int>, cutoff: int, limit: int, t: int,
                                       d: string)
    requires forall x :: x in times ==> x in manifests
    requires SortManifests(manifests, times, cutoff, limit).error == None
    ensures var r := SortManifests(manifests, times, cutoff, limit);
            && (t in r.expired <==> t in times && t < cutoff)
            && (d in r.referenced <==> KeptLists(manifests, times, cutoff, d))
    decreases |times|
  {
    if times != [] {
      var n := |times| - 1;
      SortIsExact(manifests, times[..n], cutoff, limit, t, d);
      assert times == times[..n] + [times[n]];
      ValidatedDigests(manifests[times[n]], d);
      KeptOneMore(manifests, times, cutoff, d);
    }
  }

  lemma KeptOneMore(manifests: map<int, Manifest>, times: seq<int>, cutoff: int, d: string)
    requires times != [] && forall x :: x in times ==> x in manifests
    ensures var n := |times| - 1;
            KeptLists(manifests, times, cutoff, d) <==>
              KeptLists(manifests, times[..n], cutoff, d) || (times[n] >= cutoff && Lists(manifests[times[n]], d))
  {
    var n := |times| - 1;
    assert times == times[..n] + [times[n]];
  }

  ghost predicate Acceptable(manifests: map<int, Manifest>, t: int, limit: int) {
    t in manifests && t <= limit && ValidManifest(manifests[t])
  }

  /** Sorting succeeds exactly when every manifest is well formed and none is from the future. */
  lemma {:induction false} SortSucceeds(manifests: map<int, Manifest>, times: seq<int>, cutoff: int, limit: int)
    requires forall x :: x in times ==> x in manifests
    ensures SortManifests(manifests, times, cutoff, limit).error == None <==>
              forall t :: t in times ==> Acceptable(manifests, t, limit)
    decreases |times|
  {
    if times != [] {
      var n := |times| - 1;
      SortSucceeds(manifests, times[..n], cutoff, limit);
      assert forall t :: t in times <==> t in times[..n] || t == times[n] by {
        assert times == times[..n] + [times[n]];
      }
      assert Acceptable(manifests, times[n], limit) <==> times[n] <= limit && Validated(manifests[times[n]]).Some?;
    }
  }

  lemma {:induction false} UnreferencedIsExact(digests: seq<string>, referenced: set<string>, d: string)
    ensures d in Unreferenced(digests, referenced) <==> d in digests && d !in referenced
    decreases |digests|
  {
    if digests != [] {
      var n := |digests| - 1;
      UnreferencedIsExact(digests[..n], referenced, d);
      assert digests == digests[..n] + [digests[n]];
    }
  }

  function SetOf<T>(items: seq<T>): set<T> {
    set x | x in items
  }

  /** The state without some manifests and some objects. */
  function Without(s: State, times: set<int>, digests: set<string>): State {
    State(s.objects - digests, s.manifests - times, s.latest, s.source)
  }

  lemma WithoutMore(s: State, times: set<int>, digests: set<string>, t: int, d: string)
    ensures Apply(Without(s, times, digests), RemoveManifest(t)) == Without(s, times + {t}, digests)
    ensures Apply(Without(s, times, digests), RemoveObject(d)) == Without(s, times, digests + {d})
  {
    assert s.manifests - times - {t} == s.manifests - (times + {t});
    assert s.objects - digests - {d} == s.objects - (digests + {d});
  }

  /** What is left when a prune is stopped among its manifests: the state without the first `k` of them. */
  lemma {:induction false} ManifestsGo(s: State, expired: seq<int>, unused: seq<string>, k: nat)
    requires k <= |expired| && |Removals(expired, unused)| == |expired| + |unused|
    ensures Reached(s, Removals(expired, unused), k) == Without(s, SetOf(expired[..k]), {})
  {
    if k == 0 {
      assert SetOf(expired[..0]) == {};
      assert Without(s, {}, {}) == s;
    } else {
      ManifestsGo(s, expired, unused, k - 1);
      RemovesManifest(s, expired, unused, k - 1);
      SetOneMore(expired, k - 1);
      WithoutMore(s, SetOf(expired[..k - 1]), {}, expired[k - 1], "");
    }
  }

  /** What is left when a prune is stopped among its objects: no expired manifest and not the first `k` objects. */
  lemma {:induction false} RemovalState(s: State, expired: seq<int>, unused: seq<string>, k: nat)
    requires k <= |unused| && |Removals(expired, unused)| == |expired| + |unused|
    ensures Reached(s, Removals(expired, unused), |expired| + k) == Without(s, SetOf(expired), SetOf(unused[..k]))
  {
    if k == 0 {
      ManifestsGo(s, expired, unused, |expired|);
      assert expired[..|expired|] == expired;
      assert SetOf(unused[..0]) == {};
    } else {
      RemovalState(s, expired, unused, k - 1);
      RemovesObject(s, expired, unused, k - 1);
      SetOneMore(unused, k - 1);
      WithoutMore(s, SetOf(expired), SetOf(unused[..k - 1]), 0, unused[k - 1]);
    }
  }

  lemma SetOneMore<T>(items: seq<T>, k: nat)
    requires k < |items|
    ensures SetOf(items[..k + 1]) == SetOf(items[..k]) + {items[k]}
  {
    assert items[..k + 1] == items[..k] + [items[k]];
  }

  /** Removing manifests first and then objects that no remaining manifest lists is safe at every step. */
  lemma RemovalsAreSafe(s: State, hash: Data -> string, expired: seq<int>, unused: seq<string>)
    requires forall d :: d in unused ==> !(s.latest.Some? && Lists(s.latest.value, d))
    requires forall d, t :: d in unused && t in s.manifests && t !in expired ==> !Lists(s.manifests[t], d)
    ensures SafeOps(s, hash, Removals(expired, unused))
  {
    var ops := Removals(expired, unused);
    RemovalsLength(expired, unused);
    forall k | 0 <= k < |ops|
      ensures Safe(ApplyAll(s, ops[..k]), hash, ops[k])
    {
      ReachedIsApplied(s, ops, k);
      if k >= |expired| {
        RemovalState(s, expired, unused, k - |expired|);
        UnusedIsSafe(s, hash, expired, unused, k - |expired|);
      }
    }
  }

  /** Once the expired manifests are gone, nothing references an unused object. */
  lemma UnusedIsSafe(s: State, hash: Data -> string, expired: seq<int>, unused: seq<string>, k: nat)
    requires k < |unused|
    requires forall d :: d in unused ==> !(s.latest.Some? && Lists(s.latest.value, d))
    requires forall d, t :: d in unused && t in s.manifests && t !in expired ==> !Lists(s.manifests[t], d)
    ensures Safe(Without(s, SetOf(expired), SetOf(unused[..k])), hash, RemoveObject(unused[k]))
  {
    assert unused[k] in unused;
  }

  /** `listing` names each member of the directory. */
  ghost predicate IsListing<T(!new)>(listing: seq<T>, directory: set<T>) {
    forall x :: x in listing <==> x in directory
  }

  /** What a prune keeps: the latest manifest's digests and those of the manifests within the cutoff. */
  ghost predicate StaysReferenced(s: State, cutoff: int, d: string) {
    || (s.latest.Some? && Lists(s.latest.value, d))
    || exists t :: t in s.manifests && t >= cutoff && Lists(s.manifests[t], d)
  }

  /** The plan, which the dry run reports: exactly the manifests older than the cutoff and exactly the objects that
      nothing else references. */
  lemma PlanIsExact(s: State, hash: Data -> string, times: seq<int>, digests: seq<string>, now: int, retentionDays: int,
                    t: int, d: string)
    requires IsListing(times, s.manifests.Keys) && IsListing(digests, s.objects.Keys)
    requires PruneScan(s, hash, times, digests, now, retentionDays).Ok?
    ensures var (expired, unused) := PruneScan(s, hash, times, digests, now, retentionDays).value;
            && (t in expired <==> t in s.manifests && t < now - retentionDays * DAY)
            && (d in unused <==> d in s.objects && !StaysReferenced(s, now - retentionDays * DAY, d))
  {
    var cutoff := now - retentionDays * DAY;
    var sorted := SortManifests(s.manifests, times, cutoff, now + FIVE_MINUTES);
    SortIsExact(s.manifests, times, cutoff, now + FIVE_MINUTES, t, d);
    ValidatedDigests(s.latest.value, d);
    UnreferencedIsExact(digests, Digests(Validated(s.latest.value).value) + sorted.referenced, d);
  }

  lemma PlanIsExactly(s: State, hash: Data -> string, times: seq<int>, digests: seq<string>, now: int,
                      retentionDays: int)
    requires IsListing(times, s.manifests.Keys) && IsListing(digests, s.objects.Keys)
    requires PruneScan(s, hash, times, digests, now, retentionDays).Ok?
    ensures var (expired, unused) := PruneScan(s, hash, times, digests, now, retentionDays).value;
            && (forall t :: t in expired <==> t in s.manifests && t < now - retentionDays * DAY)
            && (forall d :: d in unused <==> d in s.objects && !StaysReferenced(s, now - retentionDays * DAY, d))
  {
    var (expired, unused) := PruneScan(s, hash, times, digests, now, retentionDays).value;
    forall t
      ensures t in expired <==> t in s.manifests && t < now - retentionDays * DAY
    {
      PlanIsExact(s, hash, times, digests, now, retentionDays, t, "");
    }
    forall d
      ensures d in unused <==> d in s.objects && !StaysReferenced(s, now - retentionDays * DAY, d)
    {
      PlanIsExact(s, hash, times, digests, now, retentionDays, 0, d);
    }
  }

  lemma PruneIsSafe(s: State, hash: Data -> string, times: seq<int>, digests: seq<string>, now: int, retentionDays: int,
                    apply: bool, confirmed: bool)
    requires IsListing(times, s.manifests.Keys) && IsListing(digests, s.objects.Keys)
    ensures SafeOps(s, hash, PrunePlan(s, hash, times, digests, now, retentionDays, apply, confirmed).ops)
  {
    var scan := PruneScan(s, hash, times, digests, now, retentionDays);
    if scan.Ok? {
      var (expired, unused) := scan.value;
      PlanIsExactly(s, hash, times, digests, now, retentionDays);
      RemovalsAreSafe(s, hash, expired, unused);
    }
  }

  lemma KeptObjects(s: State, cutoff: int, unused: seq<string>)
    requires forall d :: d in unused <==> d in s.objects && !StaysReferenced(s, cutoff, d)
    ensures s.objects - SetOf(unused) == map d | d in s.objects && StaysReferenced(s, cutoff, d) :: s.objects[d]
  {
  }

  lemma KeptManifests(s: State, cutoff: int, expired: seq<int>)
    requires forall t :: t in expired <==> t in s.manifests && t < cutoff
    ensures s.manifests - SetOf(expired) == map t | t in s.manifests && t >= cutoff :: s.manifests[t]
  {
  }

  lemma AllRemoved(s: State, expired: seq<int>, unused: seq<string>)
    ensures ApplyAll(s, Removals(expired, unused)) == Without(s, SetOf(expired), SetOf(unused))
  {
    var ops := Removals(expired, unused);
    RemovalsLength(expired, unused);
    calc {
      ApplyAll(s, ops);
    == { assert ops[..|ops|] == ops; }
      ApplyAll(s, ops[..|ops|]);
    == { ReachedIsApplied(s, ops, |ops|); }
      Reached(s, ops, |ops|);
    == { RemovalState(s, expired, unused, |unused|); }
      Without(s, SetOf(expired), SetOf(unused[..|unused|]));
    == { assert unused[..|unused|] == unused; }
      Without(s, SetOf(expired), SetOf(unused));
    }
  }

  lemma RemovalsAreExact(s: State, cutoff: int, expired: seq<int>, unused: seq<string>)
    requires forall t :: t in expired <==> t in s.manifests && t < cutoff
    requires forall d :: d in unused <==> d in s.objects && !StaysReferenced(s, cutoff, d)
    ensures ApplyAll(s, Removals(expired, unused)) ==
            State(map d | d in s.objects && StaysReferenced(s, cutoff, d) :: s.objects[d],
                  map t | t in s.manifests && t >= cutoff :: s.manifests[t], s.latest, s.source)
  {
    AllRemoved(s, expired, unused);
    KeptObjects(s, cutoff, unused);
    KeptManifests(s, cutoff, expired);
  }

  /** A finished prune keeps exactly the manifests within the cutoff, and exactly the objects that those or the
      latest manifest list. */
  lemma PruneIsExact(s: State, hash: Data -> string, times: seq<int>, digests: seq<string>, now: int,
                     retentionDays: int)
    requires IsListing(times, s.manifests.Keys) && IsListing(digests, s.objects.Keys)
    requires PruneScan(s, hash, times, digests, now, retentionDays).Ok?
    ensures var plan := PrunePlan(s, hash, times, digests, now, retentionDays, true, true);
            && plan.error == None
            && ApplyAll(s, plan.ops) ==
               State(map d | d in s.objects
                     && StaysReferenced(s, now - retentionDays * 86_400_000_000, d) :: s.objects[d],
                     map t | t in s.manifests && t >= now - retentionDays * 86_400_000_000 :: s.manifests[t], s.latest,
                     s.source)
  {
    var (expired, unused) := PruneScan(s, hash, times, digests, now, retentionDays).value;
    PlanIsExactly(s, hash, times, digests, now, retentionDays);
    RemovalsAreExact(s, now - retentionDays * DAY, expired, unused);
  }
}
