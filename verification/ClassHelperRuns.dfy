/** Every interleaving of class-package requests: reads and commits in any order, with uploads, scans and cleanup. */
module ClassHelperRuns {
  import opened Wrappers
  import opened ClassHelperInputs
  import opened ClassHelperStore

  /** What a package consisted of at one revision. */
  datatype Version = Version(content: Content, assetIds: AssetIds)

  datatype ReadRow = ReadRow(helper: PackageId, row: HelperRow)

  datatype TargetRead = TargetRead(helper: PackageId, revision: nat, snapshot: Json)

  /** The tables, the reads that pending requests hold, and a log of every version there has been. */
  datatype System = System(
    tables: Tables,
    pending: set<ReadRow>,
    targets: set<TargetRead>,
    log: map<(PackageId, nat), Version>)

  const EMPTY_SYSTEM: System := System(Tables(map[], map[], map[]), {}, {}, map[])

  /** `row` is package `h` with its linked assets, as the tables hold them now. */
  ghost predicate IsRow(t: Tables, h: PackageId, row: HelperRow) {
    && h in t.helpers
    && row.content == t.helpers[h].content && row.status == t.helpers[h].status
    && row.publishedAt == t.helpers[h].publishedAt && row.revision == t.helpers[h].revision
    && DistinctKinds(row.assets) && IsLinkage(t.assets, h, IdsOf(row.assets))
  }

  datatype Step =
    | Read(h: PackageId, row: HelperRow)
    | ReadTarget(h: PackageId, revision: nat, snapshot: Json)
    | Create(user: string, h: PackageId, input: CreateInput, now: int)
    | Update(user: string, h: PackageId, row: HelperRow, update: UpdateInput, entries: Entries, now: int)
    | Restore(h: PackageId, row: HelperRow, revision: nat, snapshot: Json, entries: Entries, now: int)
    | SetStatus(h: PackageId, row: HelperRow, status: Status, now: int)
    | Upload(id: string, asset: Asset)
    | Scan(id: string, result: AssetStatus)
    | Cleanup(id: string)

  /** A committed revision enters the log; a refused request changes nothing. */
  ghost predicate Committed(s: System, h: PackageId, result: Result<Tables, Error>, ids: AssetIds, s': System) {
    match result
    case Err(_) => s' == s
    case Ok(t) =>
      && h in t.helpers
      && s' == s.(tables := t, log := s.log[(h, t.helpers[h].revision) := Version(t.helpers[h].content, ids)])
  }

  /** One atomic step. A request commits with whatever it read at some earlier time. */
  ghost predicate Next(s: System, step: Step, s': System) {
    var t := s.tables;
    match step
    case Read(h, row) => IsRow(t, h, row) && s' == s.(pending := s.pending + {ReadRow(h, row)})
    case ReadTarget(h, r, snapshot) =>
      (h, r) in t.history && t.history[(h, r)] == snapshot
      && s' == s.(targets := s.targets + {TargetRead(h, r, snapshot)})
    case Create(user, h, input, now) =>
      ValidContent(input.content) && ValidAssetIds(input.assetIds)
      && Committed(s, h, CreateTables(t, user, h, input, now), input.assetIds, s')
    case Update(user, h, row, update, entries, now) =>
      ReadRow(h, row) in s.pending && ValidContent(row.content)
      && ValidUpdate(update) && Enumerates(entries, update.assetIds)
      && Committed(s, h, UpdateTables(t, user, h, ViewOf(row), update, entries, now),
                   IdsOf(row.assets) + update.assetIds, s')
    case Restore(h, row, r, snapshot, entries, now) =>
      ReadRow(h, row) in s.pending && ValidContent(row.content)
      && TargetRead(h, r, snapshot) in s.targets && RestoreInput(snapshot).Some?
      && (var input := RestoreInput(snapshot).value;
          Enumerates(entries, Swaps(IdsOf(row.assets), input.assetIds))
          && Committed(s, h, RestoreTables(t, h, ViewOf(row), input, entries, now), input.assetIds, s'))
    case SetStatus(h, row, status, now) =>
      ReadRow(h, row) in s.pending && ValidContent(row.content)
      && (match StatusTables(t, h, ViewOf(row), status, now)
          case Ok(t') => s' == s.(tables := t')
          case Err(_) => s' == s)
    case Upload(id, asset) =>
      id !in t.assets && IsUuid(id) && asset.helper == None
      && s' == s.(tables := t.(assets := t.assets[id := asset]))
    case Scan(id, status) =>
      id in t.assets && s' == s.(tables := t.(assets := t.assets[id := t.assets[id].(status := status)]))
    case Cleanup(id) =>
      id in t.assets && t.assets[id].helper == None && s' == s.(tables := t.(assets := t.assets - {id}))
  }

  // ---- The invariant -------------------------------------------------------------------------

  ghost predicate AssetsOwned(t: Tables) {
    forall id :: id in t.assets ==> IsUuid(id) && (t.assets[id].helper.Some? ==> t.assets[id].helper.value in t.helpers)
  }

  /** The log holds revisions 1..n of each package and the history 1..n-1. */
  ghost predicate Numbered(t: Tables, log: map<(PackageId, nat), Version>) {
    && (forall h :: h in t.helpers ==> t.helpers[h].revision >= 1)
    && (forall h: PackageId, r: nat {:trigger (h, r) in log} ::
          (h, r) in log <==> h in t.helpers && 1 <= r <= t.helpers[h].revision)
    && (forall h: PackageId, r: nat {:trigger (h, r) in t.history} ::
          (h, r) in t.history <==> h in t.helpers && 1 <= r < t.helpers[h].revision)
  }

  ghost predicate ValidLog(log: map<(PackageId, nat), Version>) {
    forall key :: key in log ==> ValidContent(log[key].content) && ValidAssetIds(log[key].assetIds)
  }

  /** Each package's content and linked assets are its latest logged version. */
  ghost predicate Current(t: Tables, log: map<(PackageId, nat), Version>) {
    forall h :: h in t.helpers ==>
      && (h, t.helpers[h].revision) in log
      && log[(h, t.helpers[h].revision)].content == t.helpers[h].content
      && IsLinkage(t.assets, h, log[(h, t.helpers[h].revision)].assetIds)
  }

  /** The version that a snapshot restores to and also shows; None when it does not restore, or shows something else. */
  function VersionOf(snapshot: Json): Option<Version> {
    var restored := RestoreInput(snapshot);
    if restored == None || restored.value.isPublished then None
    else if Shows(snapshot) != (restored.value.content, restored.value.assetIds) then None
    else Some(Version(restored.value.content, restored.value.assetIds))
  }

  /** A row that passed the input checks snapshots to exactly its texts and asset ids. */
  lemma SnapshotVersion(row: HelperRow)
    requires Restorable(row)
    ensures VersionOf(HelperSnapshot(row)) == Some(Version(row.content, IdsOf(row.assets)))
  {
    SnapshotRestores(row);
    SnapshotShows(row);
  }

  lemma VersionRestores(snapshot: Json, v: Version)
    requires VersionOf(snapshot) == Some(v)
    ensures RestoreInput(snapshot) == Some(CreateInput(v.content, v.assetIds, false))
            && Shows(snapshot) == (v.content, v.assetIds)
    ensures ValidContent(v.content) && ValidAssetIds(v.assetIds)
  {
  }

  /** Each history row is a snapshot of the version logged for its revision. */
  ghost predicate Recorded(t: Tables, log: map<(PackageId, nat), Version>) {
    forall key :: key in t.history ==> key in log && VersionOf(t.history[key]) == Some(log[key])
  }

  /** What pending requests read is the version logged for the revision they read. */
  ghost predicate ReadsLogged(s: System) {
    && (forall r :: r in s.pending ==>
          && (r.helper, r.row.revision) in s.log
          && DistinctKinds(r.row.assets)
          && s.log[(r.helper, r.row.revision)] == Version(r.row.content, IdsOf(r.row.assets)))
    && (forall r :: r in s.targets ==>
          (r.helper, r.revision) in s.tables.history && s.tables.history[(r.helper, r.revision)] == r.snapshot)
  }

  ghost predicate Inv(s: System) {
    && AssetsOwned(s.tables) && Numbered(s.tables, s.log) && ValidLog(s.log)
    && Current(s.tables, s.log) && Recorded(s.tables, s.log) && ReadsLogged(s)
  }

  /** What a request read agrees with the tables unless the package has a newer revision. */
  ghost predicate Consistent(t: Tables, h: PackageId, view: View) {
    && (forall k: Kind :: k in view.seen)
    && h in t.helpers && view.revision <= t.helpers[h].revision
    && (t.helpers[h].revision == view.revision ==>
          && t.helpers[h].content == view.content
          && IsLinkage(t.assets, h, view.seen)
          && (h, view.revision) !in t.history)
  }

  /** In every reachable state, a package that is still at the revision a request read has the content and the
      linked assets it read. */
  lemma UnchangedSinceRead(s: System, r: ReadRow)
    requires Inv(s) && r in s.pending
    ensures ValidContent(r.row.content) && Restorable(r.row)
    ensures Consistent(s.tables, r.helper, ViewOf(r.row))
  {
    assert (r.helper, r.row.revision) in s.log;
    assert s.log[(r.helper, r.row.revision)] == Version(r.row.content, IdsOf(r.row.assets));
  }

  // ---- Swapping assets -----------------------------------------------------------------------

  /** What becomes of asset `id` once the kinds in `done` are swapped. */
  ghost function After(a: Asset, id: string, h: PackageId, seen: AssetIds, done: AssetIds, now: int): Asset {
    if a.kind in done && done[a.kind] == id then a.(helper := Some(h), detachedAt := None)
    else if a.kind in done && a.kind in seen && seen[a.kind] == id then a.(helper := None, detachedAt := Some(now))
    else a
  }

  ghost predicate SameFile(a: Asset, b: Asset) {
    a.kind == b.kind && a.status == b.status && a.owner == b.owner && a.file == b.file
  }

  /** `after` is `assets` with the kinds in `done` relinked: the new ids linked to `h`, the seen ones detached. */
  ghost predicate Swapped(assets: Assets, h: PackageId, seen: AssetIds, done: AssetIds, now: int, after: Assets) {
    && after.Keys == assets.Keys
    && forall id :: id in assets ==> after[id] == After(assets[id], id, h, seen, done, now)
  }

  /** `after` is `assets` with the listed ids linked to `h` and those seen in their slots detached at `now`. */
  ghost predicate Exchanged(assets: Assets, h: PackageId, seen: AssetIds, ids: AssetIds, now: int, after: Assets) {
    && after.Keys == assets.Keys
    && forall id :: id in assets ==>
         after[id] == if exists k :: k in ids && ids[k] == id
                      then assets[id].(helper := Some(h), detachedAt := None)
                      else if exists k :: k in ids && k in seen && seen[k] == id
                      then assets[id].(helper := None, detachedAt := Some(now))
                      else assets[id]
  }

  function EntryMap(entries: Entries): AssetIds {
    if entries == [] then map[]
    else EntryMap(entries[..|entries| - 1])[entries[|entries| - 1].0 := entries[|entries| - 1].1]
  }

  lemma {:induction false} EntryMapKeys(entries: Entries, k: Kind)
    ensures k in EntryMap(entries) <==> exists i :: 0 <= i < |entries| && entries[i].0 == k
    decreases |entries|
  {
    if entries != [] {
      var n := |entries| - 1;
      EntryMapKeys(entries[..n], k);
      if k in EntryMap(entries[..n]) {
        var i :| 0 <= i < n && entries[..n][i].0 == k;
        assert entries[i].0 == k;
      }
      if i :| 0 <= i < |entries| && entries[i].0 == k {
        if i < n {
          assert entries[..n][i].0 == k;
        }
      }
    }
  }

  /** Entries with different kinds, each listed by `ids`. */
  ghost predicate Lists(entries: Entries, ids: AssetIds) {
    && (forall i :: 0 <= i < |entries| ==> entries[i].0 in ids && ids[entries[i].0] == entries[i].1)
    && (forall i, j :: 0 <= i < j < |entries| ==> entries[i].0 != entries[j].0)
  }

  /** The loop of swaps: with an up-to-date view of the linked assets and available replacements, every swap
      succeeds, whatever the order of the entries. */
  lemma {:induction false} SwapsSucceed(assets: Assets, h: PackageId, seen: AssetIds, owner: Option<string>,
                                        entries: Entries, ids: AssetIds, now: int, taken: Error)
    requires IsLinkage(assets, h, seen) && (forall k: Kind :: k in seen)
    requires Lists(entries, ids) && AllAvailable(assets, owner, entries) && KindsMatch(assets, entries)
    ensures var r := ReplaceAssets(assets, h, seen, owner, entries, now, taken);
            r.Ok? && Swapped(assets, h, seen, EntryMap(entries), now, r.value)
    decreases |entries|
  {
    if entries != [] {
      var n := |entries| - 1;
      var before := entries[..n];
      assert forall i :: 0 <= i < n ==> before[i] == entries[i];
      SwapsSucceed(assets, h, seen, owner, before, ids, now, taken);
      var current := ReplaceAssets(assets, h, seen, owner, before, now, taken).value;
      EntryMapKeys(before, entries[n].0);
      SwapOne(assets, h, seen, owner, EntryMap(before), current, entries[n], now, taken);
    }
  }

  /** Package `h` has at most one linked asset of each kind. */
  ghost predicate OnePerKind(assets: Assets, h: PackageId) {
    forall a, b | a in assets && b in assets && assets[a].helper == Some(h) && assets[b].helper == Some(h) ::
      a != b ==> assets[a].kind != assets[b].kind
  }

  /** Whatever a request has read and whatever it lists, its swaps never leave two linked assets of a kind. */
  lemma {:induction false} SwapsKeepSlots(assets: Assets, h: PackageId, seen: AssetIds, owner: Option<string>,
                                          entries: Entries, now: int, taken: Error)
    requires OnePerKind(assets, h)
    ensures var r := ReplaceAssets(assets, h, seen, owner, entries, now, taken); r.Ok? ==> OnePerKind(r.value, h)
    decreases |entries|
  {
    if entries != [] {
      SwapsKeepSlots(assets, h, seen, owner, entries[..|entries| - 1], now, taken);
    }
  }

  /** Detaching the asset seen in a slot frees the slot. */
  lemma DetachedSlotIsFree(assets: Assets, h: PackageId, seen: AssetIds, done: AssetIds, current: Assets, kind: Kind,
                           now: int)
    requires IsLinkage(assets, h, seen) && kind in seen && kind !in done && Swapped(assets, h, seen, done, now, current)
    ensures seen[kind] in current
    ensures SlotFree(current[seen[kind] := current[seen[kind]].(helper := None, detachedAt := Some(now))], h, kind)
  {
    var previous := seen[kind];
    assert previous in assets;
    var detached := current[previous := current[previous].(helper := None, detachedAt := Some(now))];
    forall id | id in detached && detached[id].helper == Some(h)
      ensures detached[id].kind != kind
    {
      assert id != previous && id in assets && current[id] == After(assets[id], id, h, seen, done, now);
    }
  }

  /** The two writes of one swap move exactly the two assets of that kind. */
  lemma SwapWrites(assets: Assets, h: PackageId, seen: AssetIds, done: AssetIds, current: Assets, kind: Kind,
                   id: string, now: int)
    requires kind in seen && kind !in done && Swapped(assets, h, seen, done, now, current)
    requires id in assets && assets[id].kind == kind && id != seen[kind]
    requires seen[kind] in assets && assets[seen[kind]].kind == kind
    ensures var detached := current[seen[kind] := current[seen[kind]].(helper := None, detachedAt := Some(now))];
            Swapped(assets, h, seen, done[kind := id], now,
                    detached[id := detached[id].(helper := Some(h), detachedAt := None)])
  {
    var detached := current[seen[kind] := current[seen[kind]].(helper := None, detachedAt := Some(now))];
    var after := detached[id := detached[id].(helper := Some(h), detachedAt := None)];
    forall x | x in assets
      ensures after[x] == After(assets[x], x, h, seen, done[kind := id], now)
    {
      assert current[x] == After(assets[x], x, h, seen, done, now);
    }
  }

  /** One swap of a kind not swapped before. */
  lemma SwapOne(assets: Assets, h: PackageId, seen: AssetIds, owner: Option<string>, done: AssetIds, current: Assets,
                entry: (Kind, string), now: int, taken: Error)
    requires IsLinkage(assets, h, seen) && entry.0 in seen && entry.0 !in done
    requires Swapped(assets, h, seen, done, now, current)
    requires Available(assets, owner, entry.1) && assets[entry.1].kind == entry.0
    ensures var r := ReplaceAsset(current, h, seen, owner, entry, now, taken);
            r.Ok? && Swapped(assets, h, seen, done[entry.0 := entry.1], now, r.value)
  {
    var (kind, id) := entry;
    assert current[id] == After(assets[id], id, h, seen, done, now) && current[id].helper == None;
    DetachedSlotIsFree(assets, h, seen, done, current, kind, now);
    SwapWrites(assets, h, seen, done, current, kind, id, now);
  }

  /** After all swaps the package is linked to the new ids in the swapped kinds and the seen ones elsewhere,
      and no other package is touched. */
  lemma SwappedLinkage(assets: Assets, h: PackageId, seen: AssetIds, done: AssetIds, now: int, after: Assets)
    requires IsLinkage(assets, h, seen) && Swapped(assets, h, seen, done, now, after)
    requires forall k :: k in done ==> done[k] in assets && assets[done[k]].kind == k && assets[done[k]].helper == None
    ensures IsLinkage(after, h, seen + done)
    ensures forall other, ids :: other != h && IsLinkage(assets, other, ids) ==> IsLinkage(after, other, ids)
  {
    var ids := seen + done;
    forall k | k in ids
      ensures ids[k] in after && after[ids[k]].helper == Some(h) && after[ids[k]].kind == k
    {
      assert after[ids[k]] == After(assets[ids[k]], ids[k], h, seen, done, now);
    }
    forall id | id in after && after[id].helper == Some(h)
      ensures after[id].kind in ids && ids[after[id].kind] == id
    {
      assert after[id] == After(assets[id], id, h, seen, done, now);
    }
    forall other, oids | other != h && IsLinkage(assets, other, oids)
      ensures IsLinkage(after, other, oids)
    {
      forall id | id in assets
        ensures (after[id].helper == Some(other)) == (assets[id].helper == Some(other))
                && after[id].kind == assets[id].kind
      {
        assert after[id] == After(assets[id], id, h, seen, done, now);
      }
    }
  }

  lemma {:induction false} EntryMapListed(entries: Entries, ids: AssetIds)
    requires Lists(entries, ids)
    ensures forall k :: k in EntryMap(entries) ==> k in ids && ids[k] == EntryMap(entries)[k] && (k, ids[k]) in entries
    decreases |entries|
  {
    if entries != [] {
      var n := |entries| - 1;
      assert forall i :: 0 <= i < n ==> entries[..n][i] == entries[i];
      EntryMapListed(entries[..n], ids);
      assert entries[n] in entries;
      assert forall e :: e in entries[..n] ==> e in entries;
    }
  }

  /** Enumerated entries collect to the map they enumerate. */
  lemma EntryMapEnumerated(entries: Entries, ids: AssetIds)
    requires Enumerates(entries, ids)
    ensures EntryMap(entries) == ids
  {
    EntryMapListed(entries, ids);
    forall k | k in ids
      ensures k in EntryMap(entries)
    {
      var i :| 0 <= i < |entries| && entries[i] == (k, ids[k]);
      EntryMapKeys(entries, k);
    }
  }

  // ---- What the transactions do in a reachable state -----------------------------------------

  /** The commit step on an up-to-date row: the swaps succeed and link exactly the expected assets. */
  lemma SwapsLink(assets: Assets, h: PackageId, seen: AssetIds, owner: Option<string>, entries: Entries, ids: AssetIds,
                  now: int, taken: Error)
    requires IsLinkage(assets, h, seen) && (forall k: Kind :: k in seen) && Enumerates(entries, ids)
    requires AllAvailable(assets, owner, entries) && KindsMatch(assets, entries)
    ensures var r := ReplaceAssets(assets, h, seen, owner, entries, now, taken);
            && r.Ok? && r.value.Keys == assets.Keys
            && IsLinkage(r.value, h, seen + ids)
            && (forall other, linked :: other != h && IsLinkage(assets, other, linked) ==>
                  IsLinkage(r.value, other, linked))
            && (forall id :: id in assets ==>
                  SameFile(r.value[id], assets[id]) && r.value[id].helper in {assets[id].helper, None, Some(h)})
            && Exchanged(assets, h, seen, ids, now, r.value)
  {
    SwapsSucceed(assets, h, seen, owner, entries, ids, now, taken);
    EntryMapEnumerated(entries, ids);
    var after := ReplaceAssets(assets, h, seen, owner, entries, now, taken).value;
    forall k | k in ids
      ensures ids[k] in assets && assets[ids[k]].kind == k && assets[ids[k]].helper == None
    {
      var i :| 0 <= i < |entries| && entries[i] == (k, ids[k]);
    }
    SwappedLinkage(assets, h, seen, ids, now, after);
    SwappedFiles(assets, h, seen, ids, now, after);
    SwappedExchanged(assets, h, seen, ids, now, after);
  }

  lemma SwappedFiles(assets: Assets, h: PackageId, seen: AssetIds, ids: AssetIds, now: int, after: Assets)
    requires Swapped(assets, h, seen, ids, now, after)
    ensures forall id :: id in assets ==>
              SameFile(after[id], assets[id]) && after[id].helper in {assets[id].helper, None, Some(h)}
  {
    forall id | id in assets
      ensures SameFile(after[id], assets[id]) && after[id].helper in {assets[id].helper, None, Some(h)}
    {
      assert after[id] == After(assets[id], id, h, seen, ids, now);
    }
  }

  lemma SwappedExchanged(assets: Assets, h: PackageId, seen: AssetIds, ids: AssetIds, now: int, after: Assets)
    requires IsLinkage(assets, h, seen) && Swapped(assets, h, seen, ids, now, after)
    requires forall k :: k in ids ==> ids[k] in assets && assets[ids[k]].kind == k
    ensures Exchanged(assets, h, seen, ids, now, after)
  {
    forall id | id in assets
      ensures (exists k :: k in ids && ids[k] == id) <==> assets[id].kind in ids && ids[assets[id].kind] == id
      ensures (exists k :: k in ids && k in seen && seen[k] == id)
         <==> assets[id].kind in ids && assets[id].kind in seen && seen[assets[id].kind] == id
    {
    }
  }

  /** The tables and log after package `h` commits a new revision. */
  ghost predicate RevisionAdded(s: System, h: PackageId, revision: nat, snapshot: Json, content: Content, ids: AssetIds,
                                assets: Assets, s': System)
  {
    && h in s.tables.helpers && s.tables.helpers[h].revision == revision
    && s'.tables == Tables(s.tables.helpers[h := s.tables.helpers[h].(content := content, revision := revision + 1)],
                           assets, s.tables.history[(h, revision) := snapshot])
    && s'.log == s.log[(h, revision + 1) := Version(content, ids)]
    && s'.pending == s.pending && s'.targets == s.targets
  }

  /** The swap's effect on the asset table. */
  ghost predicate Relinked(assets: Assets, h: PackageId, ids: AssetIds, after: Assets) {
    && after.Keys == assets.Keys
    && IsLinkage(after, h, ids)
    && (forall other, linked :: other != h && IsLinkage(assets, other, linked) ==> IsLinkage(after, other, linked))
    && (forall id :: id in assets ==>
          SameFile(after[id], assets[id]) && after[id].helper in {assets[id].helper, None, Some(h)})
  }

  lemma RevisionNumbered(t: Tables, log: map<(PackageId, nat), Version>, h: PackageId, helper: Helper, snapshot: Json,
                         version: Version, assets: Assets)
    requires Numbered(t, log) && h in t.helpers && helper.revision == t.helpers[h].revision + 1
    ensures Numbered(Tables(t.helpers[h := helper], assets, t.history[(h, t.helpers[h].revision) := snapshot]),
                     log[(h, helper.revision) := version])
  {
  }

  lemma RevisionCurrent(t: Tables, log: map<(PackageId, nat), Version>, h: PackageId, helper: Helper, ids: AssetIds,
                        assets: Assets, history: map<(PackageId, nat), Json>)
    requires Current(t, log) && Relinked(t.assets, h, ids, assets)
    requires h in t.helpers ==> t.helpers[h].revision != helper.revision
    ensures Current(Tables(t.helpers[h := helper], assets, history),
                    log[(h, helper.revision) := Version(helper.content, ids)])
  {
    var after, log' := t.helpers[h := helper], log[(h, helper.revision) := Version(helper.content, ids)];
    forall x | x in after
      ensures (x, after[x].revision) in log' && log'[(x, after[x].revision)].content == after[x].content
      ensures IsLinkage(assets, x, log'[(x, after[x].revision)].assetIds)
    {
      if x != h {
        assert x in t.helpers && after[x] == t.helpers[x];
      }
    }
  }

  lemma RevisionRecorded(t: Tables, log: map<(PackageId, nat), Version>, key: (PackageId, nat), snapshot: Json,
                         next: (PackageId, nat), version: Version, t': Tables)
    requires Recorded(t, log) && key in log && next !in log && t'.history == t.history[key := snapshot]
    requires VersionOf(snapshot) == Some(log[key])
    ensures Recorded(t', log[next := version])
  {
  }

  lemma RevisionReadsLogged(s: System, h: PackageId, revision: nat, snapshot: Json, content: Content, ids: AssetIds,
                            assets: Assets, s': System)
    requires RevisionAdded(s, h, revision, snapshot, content, ids, assets, s')
    requires ReadsLogged(s) && (h, revision + 1) !in s.log && (h, revision) !in s.tables.history
    ensures ReadsLogged(s')
  {
  }

  lemma RevisionOwned(t: Tables, h: PackageId, helpers: map<PackageId, Helper>, ids: AssetIds, assets: Assets,
                      history: map<(PackageId, nat), Json>)
    requires AssetsOwned(t) && helpers.Keys == t.helpers.Keys + {h} && Relinked(t.assets, h, ids, assets)
    ensures AssetsOwned(Tables(helpers, assets, history))
  {
    forall id | id in assets
      ensures IsUuid(id) && (assets[id].helper.Some? ==> assets[id].helper.value in helpers)
    {
      assert id in t.assets;
    }
  }

  lemma VersionValid(log: map<(PackageId, nat), Version>, key: (PackageId, nat), version: Version)
    requires ValidLog(log) && ValidContent(version.content) && ValidAssetIds(version.assetIds)
    ensures ValidLog(log[key := version])
  {
  }

  lemma RevisionKeepsTables(s: System, h: PackageId, revision: nat, snapshot: Json, content: Content, ids: AssetIds,
                            assets: Assets, s': System)
    requires RevisionAdded(s, h, revision, snapshot, content, ids, assets, s')
    requires AssetsOwned(s.tables) && Numbered(s.tables, s.log) && ValidLog(s.log)
    requires ValidContent(content) && ValidAssetIds(ids) && Relinked(s.tables.assets, h, ids, assets)
    ensures AssetsOwned(s'.tables) && Numbered(s'.tables, s'.log) && ValidLog(s'.log)
  {
    RevisionNumbered(s.tables, s.log, h, s'.tables.helpers[h], snapshot, Version(content, ids), assets);
    RevisionOwned(s.tables, h, s'.tables.helpers, ids, assets, s'.tables.history);
    VersionValid(s.log, (h, revision + 1), Version(content, ids));
  }

  /** A committed revision keeps the invariant. */
  lemma RevisionKeepsInv(s: System, h: PackageId, revision: nat, snapshot: Json, content: Content, ids: AssetIds,
                         assets: Assets, s': System)
    requires RevisionAdded(s, h, revision, snapshot, content, ids, assets, s') && Inv(s)
    requires (h, revision) in s.log && VersionOf(snapshot) == Some(s.log[(h, revision)])
    requires ValidContent(content) && ValidAssetIds(ids) && Relinked(s.tables.assets, h, ids, assets)
    ensures Inv(s')
  {
    RevisionKeepsTables(s, h, revision, snapshot, content, ids, assets, s');
    RevisionKeepsRecords(s, h, revision, snapshot, content, ids, assets, s');
  }

  lemma RevisionKeepsRecords(s: System, h: PackageId, revision: nat, snapshot: Json, content: Content, ids: AssetIds,
                             assets: Assets, s': System)
    requires RevisionAdded(s, h, revision, snapshot, content, ids, assets, s')
    requires Numbered(s.tables, s.log) && Current(s.tables, s.log) && Recorded(s.tables, s.log) && ReadsLogged(s)
    requires (h, revision) in s.log && VersionOf(snapshot) == Some(s.log[(h, revision)])
    requires Relinked(s.tables.assets, h, ids, assets)
    ensures Current(s'.tables, s'.log) && Recorded(s'.tables, s'.log) && ReadsLogged(s')
  {
    assert (h, revision + 1) !in s.log && (h, revision) !in s.tables.history;
    RevisionCurrent(s.tables, s.log, h, s'.tables.helpers[h], ids, assets, s'.tables.history);
    RevisionRecorded(s.tables, s.log, (h, revision), snapshot, (h, revision + 1), Version(content, ids), s'.tables);
    RevisionReadsLogged(s, h, revision, snapshot, content, ids, assets, s');
  }

  /** The commit step on an up-to-date row always succeeds once the replacements are available. */
  lemma CommitSucceeds(t: Tables, h: PackageId, revision: nat, snapshot: Json, content: Content, seen: AssetIds,
                       owner: Option<string>, entries: Entries, ids: AssetIds, now: int, taken: Error)
    requires h in t.helpers && t.helpers[h].revision == revision && (h, revision) !in t.history
    requires IsLinkage(t.assets, h, seen) && (forall k: Kind :: k in seen) && Enumerates(entries, ids)
    requires AllAvailable(t.assets, owner, entries) && KindsMatch(t.assets, entries)
    ensures var r := CommitRevision(t, h, revision, snapshot, content,
                                    ReplaceAssets(t.assets, h, seen, owner, entries, now, taken));
            && r.Ok?
            && r.value.helpers == t.helpers[h := t.helpers[h].(content := content, revision := revision + 1)]
            && r.value.history == t.history[(h, revision) := snapshot]
            && Relinked(t.assets, h, seen + ids, r.value.assets)
            && Exchanged(t.assets, h, seen, ids, now, r.value.assets)
  {
    SwapsLink(t.assets, h, seen, owner, entries, ids, now, taken);
  }

  /** An asset that a request lists is missing, linked, not scanned, or not its owner's. */
  ghost predicate HasUnavailable(assets: Assets, owner: Option<string>, entries: Entries) {
    exists e :: e in entries
      && (e.1 !in assets || assets[e.1].helper != None || assets[e.1].status != Ready
          || (owner.Some? && assets[e.1].owner != owner.value))
  }

  /** A listed asset is of another kind than the one it is listed for. */
  ghost predicate HasMismatch(assets: Assets, entries: Entries) {
    exists e :: e in entries && e.1 in assets && assets[e.1].kind != e.0
  }

  lemma EntriesChecked(assets: Assets, owner: Option<string>, entries: Entries)
    ensures AllAvailable(assets, owner, entries) <==> !HasUnavailable(assets, owner, entries)
    ensures AllAvailable(assets, owner, entries) ==> (KindsMatch(assets, entries) <==> !HasMismatch(assets, entries))
  {
    if !HasUnavailable(assets, owner, entries) {
      forall i | 0 <= i < |entries|
        ensures Available(assets, owner, entries[i].1)
      {
        assert entries[i] in entries;
      }
    }
    if AllAvailable(assets, owner, entries) && !HasMismatch(assets, entries) {
      forall i | 0 <= i < |entries|
        ensures entries[i].1 in assets && assets[entries[i].1].kind == entries[i].0
      {
        assert Available(assets, owner, entries[i].1) && entries[i] in entries;
      }
    }
  }

  /** The exact outcome of an update: it fails only for an unavailable or mismatched replacement or a newer
      revision; otherwise it writes the read content with the changed fields, and links the read assets with the
      replacements. */
  lemma UpdateOutcome(t: Tables, user: string, h: PackageId, view: View, update: UpdateInput, entries: Entries,
                      now: int)
    requires Consistent(t, h, view) && Enumerates(entries, update.assetIds)
    ensures var r := UpdateTables(t, user, h, view, update, entries, now);
            if HasUnavailable(t.assets, Some(user), entries) then r == Err(AssetsNotReady)
            else if HasMismatch(t.assets, entries) then r == Err(KindMismatch)
            else if t.helpers[h].revision != view.revision then r == Err(EditConflict)
            else
              && r.Ok?
              && r.value.helpers == t.helpers[h := t.helpers[h].(content := view.content + update.texts,
                                                                 revision := view.revision + 1)]
              && r.value.history == t.history[(h, view.revision) := view.snapshot]
              && Relinked(t.assets, h, view.seen + update.assetIds, r.value.assets)
              && Exchanged(t.assets, h, view.seen, update.assetIds, now, r.value.assets)
  {
    EntriesChecked(t.assets, Some(user), entries);
    if AllAvailable(t.assets, Some(user), entries) && KindsMatch(t.assets, entries)
       && t.helpers[h].revision == view.revision {
      CommitSucceeds(t, h, view.revision, view.snapshot, view.content + update.texts, view.seen, Some(user),
                     entries, update.assetIds, now, AssetAlreadyUsed);
    }
  }

  /** The exact outcome of a restore: it fails only when a swapped asset is gone, in use, unscanned or of another
      kind, or when the package has a newer revision; otherwise the package has exactly the texts and the assets
      restored to, and its publication state is untouched. */
  lemma RestoreOutcome(t: Tables, h: PackageId, view: View, input: CreateInput, entries: Entries, now: int)
    requires Consistent(t, h, view) && (forall k: Kind :: k in input.assetIds)
    requires Enumerates(entries, Swaps(view.seen, input.assetIds))
    ensures var r := RestoreTables(t, h, view, input, entries, now);
            if HasUnavailable(t.assets, None, entries) || HasMismatch(t.assets, entries) then r == Err(AssetExpired)
            else if t.helpers[h].revision != view.revision then r == Err(EditConflict)
            else
              && r.Ok?
              && r.value.helpers == t.helpers[h := t.helpers[h].(content := input.content,
                                                                 revision := view.revision + 1)]
              && r.value.history == t.history[(h, view.revision) := view.snapshot]
              && Relinked(t.assets, h, input.assetIds, r.value.assets)
              && Exchanged(t.assets, h, view.seen, Swaps(view.seen, input.assetIds), now, r.value.assets)
  {
    EntriesChecked(t.assets, None, entries);
    if AllAvailable(t.assets, None, entries) && KindsMatch(t.assets, entries)
       && t.helpers[h].revision == view.revision {
      CommitSucceeds(t, h, view.revision, view.snapshot, input.content, view.seen, None, entries,
                     Swaps(view.seen, input.assetIds), now, AssetExpired);
      SwapsComplete(view.seen, input.assetIds);
    }
  }

  lemma SwapsComplete(seen: AssetIds, target: AssetIds)
    requires forall k: Kind :: k in target && k in seen
    ensures seen + Swaps(seen, target) == target
  {
  }
}
