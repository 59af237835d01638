/** The class-package theorems: what holds in every state of every interleaving of requests. */
module ClassHelperHistory {
  import opened Wrappers
  import opened ClassHelperInputs
  import opened ClassHelperStore
  import opened ClassHelperRuns

  // ---- Each step keeps the invariant ---------------------------------------------------------

  /** Asset writes that leave every link and kind alone. */
  ghost predicate LinksKept(before: Assets, after: Assets) {
    && (forall id :: id in before && before[id].helper.Some? ==>
          id in after && after[id].helper == before[id].helper && after[id].kind == before[id].kind)
    && (forall id :: id in after && after[id].helper.Some? ==> id in before && before[id].helper == after[id].helper)
  }

  lemma LinksKeptLinkage(before: Assets, after: Assets, h: PackageId, ids: AssetIds)
    requires LinksKept(before, after) && IsLinkage(before, h, ids)
    ensures IsLinkage(after, h, ids)
  {
  }

  lemma AssetStepKeepsInv(s: System, assets: Assets, s': System)
    requires Inv(s) && LinksKept(s.tables.assets, assets) && (forall id :: id in assets ==> IsUuid(id))
    requires s' == s.(tables := s.tables.(assets := assets))
    ensures Inv(s')
  {
    forall h | h in s.tables.helpers
      ensures IsLinkage(assets, h, s.log[(h, s.tables.helpers[h].revision)].assetIds)
    {
      LinksKeptLinkage(s.tables.assets, assets, h, s.log[(h, s.tables.helpers[h].revision)].assetIds);
    }
  }

  lemma ReadKeepsInv(s: System, h: PackageId, row: HelperRow, s': System)
    requires Inv(s) && IsRow(s.tables, h, row) && s' == s.(pending := s.pending + {ReadRow(h, row)})
    ensures Inv(s')
  {
    assert (h, row.revision) in s.log;
    LinkageUnique(s.tables.assets, h, s.log[(h, row.revision)].assetIds, IdsOf(row.assets));
  }

  ghost predicate IsOneOf(ids: AssetIds, id: string) {
    exists k :: k in ids && ids[k] == id
  }

  /** `after` differs from `assets` by the links of the listed ones. */
  ghost predicate Linking(assets: Assets, h: PackageId, ids: AssetIds, after: Assets) {
    && after.Keys == assets.Keys
    && forall id :: id in assets ==>
         after[id] == if IsOneOf(ids, id) then assets[id].(helper := Some(h)) else assets[id]
  }

  lemma LinkAllLinks(assets: Assets, h: PackageId, ids: AssetIds)
    requires forall k: Kind :: k in ids
    ensures Linking(assets, h, ids, LinkAll(assets, h, ids))
  {
    forall id | id in assets
      ensures IsOneOf(ids, id) <==> exists k: Kind :: ids[k] == id
    {
    }
  }

  /** The listed assets, unlinked before and of their kinds, are the linkage of a package that had none. */
  lemma LinkingLinks(assets: Assets, h: PackageId, ids: AssetIds, after: Assets)
    requires Linking(assets, h, ids, after)
    requires forall k :: k in ids ==> ids[k] in assets && assets[ids[k]].kind == k
    requires forall id :: id in assets ==> assets[id].helper != Some(h)
    ensures IsLinkage(after, h, ids)
  {
    forall k | k in ids
      ensures after[ids[k]].helper == Some(h) && after[ids[k]].kind == k
    {
      assert IsOneOf(ids, ids[k]);
    }
    forall id | id in after && after[id].helper == Some(h)
      ensures after[id].kind in ids && ids[after[id].kind] == id
    {
      var k :| k in ids && ids[k] == id;
    }
  }

  /** A package has its content, its status and no other link when it is created. */
  lemma CreateLinks(assets: Assets, helpers: map<PackageId, Helper>, user: string, h: PackageId, ids: AssetIds,
                    after: Assets)
    requires Linking(assets, h, ids, after)
    requires forall k :: k in ids ==> Available(assets, Some(user), ids[k]) && assets[ids[k]].kind == k
    requires forall id :: id in assets && assets[id].helper.Some? ==> assets[id].helper.value in helpers
    requires h !in helpers
    ensures Relinked(assets, h, ids, after)
    ensures forall id :: id in assets && after[id].helper == Some(h) ==> assets[id].owner == user
  {
    LinkingLinks(assets, h, ids, after);
    forall id | id in assets
      ensures after[id] == assets[id]
              || (after[id] == assets[id].(helper := Some(h)) && Available(assets, Some(user), id))
    {
      if k :| k in ids && ids[k] == id {
        assert Available(assets, Some(user), ids[k]);
      }
    }
    forall other, linked | other != h && IsLinkage(assets, other, linked)
      ensures IsLinkage(after, other, linked)
    {
      LinkedElsewhere(assets, h, ids, after, other, linked);
    }
  }

  lemma LinkedElsewhere(assets: Assets, h: PackageId, ids: AssetIds, after: Assets, other: PackageId, linked: AssetIds)
    requires other != h && IsLinkage(assets, other, linked) && after.Keys == assets.Keys
    requires forall k :: k in ids ==> ids[k] in assets && assets[ids[k]].helper == None
    requires forall id :: id in assets ==>
               after[id].kind == assets[id].kind
                 && (after[id] == assets[id] || (after[id].helper == Some(h) && assets[id].helper == None))
    ensures IsLinkage(after, other, linked)
  {
  }

  /** As many kinds as there are, are all the kinds. */
  lemma AllKindsCounted(kinds: set<Kind>)
    ensures |kinds| == |ALL_KINDS| <==> kinds == ALL_KINDS
  {
    if k: Kind :| k !in kinds {
      SubsetSize(kinds, ALL_KINDS - {k});
    } else {
      assert kinds == ALL_KINDS;
    }
  }

  /** One of the listed assets is of this kind. */
  ghost predicate HasKind(assets: Assets, ids: AssetIds, kind: Kind) {
    exists k: Kind :: k in ids && ids[k] in assets && assets[ids[k]].kind == kind
  }

  lemma KindsCovered(assets: Assets, ids: AssetIds)
    ensures KindsOf(assets, ids) == ALL_KINDS <==> forall kind: Kind :: HasKind(assets, ids, kind)
    ensures |KindsOf(assets, ids)| == |ALL_KINDS| <==> KindsOf(assets, ids) == ALL_KINDS
  {
    AllKindsCounted(KindsOf(assets, ids));
    forall kind: Kind
      ensures kind in KindsOf(assets, ids) <==> HasKind(assets, ids, kind)
    {
    }
    if forall kind: Kind :: HasKind(assets, ids, kind) {
      assert forall kind: Kind :: kind in KindsOf(assets, ids);
    } else {
      var kind: Kind :| !HasKind(assets, ids, kind);
      assert kind !in KindsOf(assets, ids);
    }
  }

  /** A create fails with the first of its refusals; otherwise it always commits: a package at revision 1 whose
      linked assets are the requested ones, all of them the user's. */
  lemma CreateOutcome(t: Tables, user: string, h: PackageId, input: CreateInput, now: int)
    requires AssetsOwned(t) && h !in t.helpers && ValidAssetIds(input.assetIds)
    ensures var r, ids := CreateTables(t, user, h, input, now), input.assetIds;
            if exists k: Kind :: ids[k] !in t.assets || t.assets[ids[k]].helper != None
                                 || t.assets[ids[k]].status != Ready || t.assets[ids[k]].owner != user
            then r == Err(AssetsNotReady)
            else if exists kind: Kind :: !HasKind(t.assets, ids, kind) then r == Err(AssetsNotReady)
            else if exists k: Kind :: t.assets[ids[k]].kind != k then r == Err(KindMismatch)
            else
              && r.Ok? && Relinked(t.assets, h, ids, r.value.assets) && r.value.history == t.history
              && r.value.helpers == t.helpers[
                h := if input.isPublished then Helper(input.content, Published, Some(now), 1)
                     else Helper(input.content, Draft, None, 1)]
              && (forall id :: id in t.assets ==>
                    r.value.assets[id] == if exists k: Kind :: ids[k] == id then t.assets[id].(helper := Some(h))
                                          else t.assets[id])
              && forall id :: id in t.assets && r.value.assets[id].helper == Some(h) ==> t.assets[id].owner == user
  {
    var ids := input.assetIds;
    KindsCovered(t.assets, ids);
    if forall k: Kind :: Available(t.assets, Some(user), ids[k]) && t.assets[ids[k]].kind == k {
      CreateCommits(t, user, h, input, now);
      LinkedById(t.assets, h, ids, CreateTables(t, user, h, input, now).value.assets);
    }
  }

  lemma LinkedById(assets: Assets, h: PackageId, ids: AssetIds, after: Assets)
    requires (forall k: Kind :: k in ids) && Linking(assets, h, ids, after)
    ensures forall id :: id in assets ==>
              after[id] == if exists k: Kind :: ids[k] == id then assets[id].(helper := Some(h)) else assets[id]
  {
    forall id | id in assets
      ensures IsOneOf(ids, id) <==> exists k: Kind :: ids[k] == id
    {
    }
  }

  lemma CreateCommits(t: Tables, user: string, h: PackageId, input: CreateInput, now: int)
    requires AssetsOwned(t) && h !in t.helpers && ValidAssetIds(input.assetIds)
    requires forall k: Kind ::
               Available(t.assets, Some(user), input.assetIds[k]) && t.assets[input.assetIds[k]].kind == k
    ensures var r := CreateTables(t, user, h, input, now);
            && r.Ok? && Relinked(t.assets, h, input.assetIds, r.value.assets) && r.value.history == t.history
            && r.value.helpers == t.helpers[
                h := if input.isPublished then Helper(input.content, Published, Some(now), 1)
                     else Helper(input.content, Draft, None, 1)]
            && Linking(t.assets, h, input.assetIds, r.value.assets)
            && forall id :: id in t.assets && r.value.assets[id].helper == Some(h) ==> t.assets[id].owner == user
  {
    var after := LinkAll(t.assets, h, input.assetIds);
    OwnKinds(t.assets, input.assetIds);
    CreateTablesOk(t, user, h, input, now, after);
    LinkAllLinks(t.assets, h, input.assetIds);
    CreateLinks(t.assets, t.helpers, user, h, input.assetIds, after);
  }

  lemma CreateTablesOk(t: Tables, user: string, h: PackageId, input: CreateInput, now: int, after: Assets)
    requires h !in t.helpers && ValidAssetIds(input.assetIds) && KindsOf(t.assets, input.assetIds) == ALL_KINDS
    requires forall k: Kind ::
               Available(t.assets, Some(user), input.assetIds[k]) && t.assets[input.assetIds[k]].kind == k
    requires after == LinkAll(t.assets, h, input.assetIds)
    ensures CreateTables(t, user, h, input, now) ==
            Ok(Tables(t.helpers[h := Helper(input.content, if input.isPublished then Published else Draft,
                                            if input.isPublished then Some(now) else None, 1)],
                      after, t.history))
  {
  }

  lemma OwnKinds(assets: Assets, ids: AssetIds)
    requires forall k: Kind :: k in ids && ids[k] in assets && assets[ids[k]].kind == k
    ensures KindsOf(assets, ids) == ALL_KINDS
  {
    forall k: Kind
      ensures k in KindsOf(assets, ids)
    {
      assert assets[ids[k]].kind == k;
    }
  }

  lemma CreateKeepsInv(s: System, user: string, h: PackageId, input: CreateInput, now: int, s': System)
    requires Inv(s) && ValidContent(input.content) && ValidAssetIds(input.assetIds)
    requires Committed(s, h, CreateTables(s.tables, user, h, input, now), input.assetIds, s')
    ensures Inv(s')
  {
    var r := CreateTables(s.tables, user, h, input, now);
    if r.Ok? {
      LinkAllLinks(s.tables.assets, h, input.assetIds);
      CreateLinks(s.tables.assets, s.tables.helpers, user, h, input.assetIds, r.value.assets);
      VersionCreated(s, h, r.value.helpers[h], input.assetIds, r.value.assets, s');
    }
  }

  lemma VersionCreated(s: System, h: PackageId, helper: Helper, ids: AssetIds, assets: Assets, s': System)
    requires Inv(s) && h !in s.tables.helpers && helper.revision == 1
    requires ValidContent(helper.content) && ValidAssetIds(ids) && Relinked(s.tables.assets, h, ids, assets)
    requires s' == s.(tables := Tables(s.tables.helpers[h := helper], assets, s.tables.history),
                      log := s.log[(h, 1) := Version(helper.content, ids)])
    ensures Inv(s')
  {
    FirstTables(s.tables, s.log, h, helper, ids, assets);
    FirstRecorded(s, h, helper, ids, s');
  }

  lemma FirstTables(t: Tables, log: map<(PackageId, nat), Version>, h: PackageId, helper: Helper, ids: AssetIds,
                    assets: Assets)
    requires AssetsOwned(t) && Numbered(t, log) && ValidLog(log) && Current(t, log)
    requires h !in t.helpers && helper.revision == 1
    requires ValidContent(helper.content) && ValidAssetIds(ids) && Relinked(t.assets, h, ids, assets)
    ensures var t', log' := Tables(t.helpers[h := helper], assets, t.history),
            log[(h, 1) := Version(helper.content, ids)];
            AssetsOwned(t') && Numbered(t', log') && ValidLog(log') && Current(t', log')
  {
    RevisionOwned(t, h, t.helpers[h := helper], ids, assets, t.history);
    RevisionCurrent(t, log, h, helper, ids, assets, t.history);
    VersionValid(log, (h, 1), Version(helper.content, ids));
    FirstNumbered(t, log, h, helper, ids, assets);
  }

  lemma FirstNumbered(t: Tables, log: map<(PackageId, nat), Version>, h: PackageId, helper: Helper, ids: AssetIds,
                      assets: Assets)
    requires Numbered(t, log) && h !in t.helpers && helper.revision == 1
    ensures Numbered(Tables(t.helpers[h := helper], assets, t.history), log[(h, 1) := Version(helper.content, ids)])
  {
  }

  lemma FirstRecorded(s: System, h: PackageId, helper: Helper, ids: AssetIds, s': System)
    requires Numbered(s.tables, s.log) && Recorded(s.tables, s.log) && ReadsLogged(s) && h !in s.tables.helpers
    requires s'.log == s.log[(h, 1) := Version(helper.content, ids)] && s'.tables.history == s.tables.history
    requires s'.pending == s.pending && s'.targets == s.targets
    ensures Recorded(s'.tables, s'.log) && ReadsLogged(s')
  {
    assert (h, 1) !in s.log;
  }

  lemma StatusKeepsInv(s: System, h: PackageId, helper: Helper, s': System)
    requires Inv(s) && h in s.tables.helpers
    requires helper.content == s.tables.helpers[h].content && helper.revision == s.tables.helpers[h].revision
    requires s' == s.(tables := s.tables.(helpers := s.tables.helpers[h := helper]))
    ensures Inv(s')
  {
    forall x | x in s'.tables.helpers
      ensures s'.tables.helpers[x].content == s.tables.helpers[x].content
              && s'.tables.helpers[x].revision == s.tables.helpers[x].revision
    {
    }
  }

  lemma LinkageInjective(assets: Assets, h: PackageId, ids: AssetIds)
    requires IsLinkage(assets, h, ids)
    ensures Injective(ids)
  {
  }

  /** A row that a request read snapshots to the version logged for its revision. */
  lemma ReadSnapshots(s: System, r: ReadRow)
    requires Inv(s) && r in s.pending
    ensures (r.helper, r.row.revision) in s.log && ValidContent(r.row.content)
    ensures VersionOf(HelperSnapshot(r.row)) == Some(s.log[(r.helper, r.row.revision)])
  {
    UnchangedSinceRead(s, r);
    SnapshotVersion(r.row);
  }

  lemma UpdatedContent(content: Content, texts: Content)
    requires ValidContent(content) && forall f :: f in texts ==> ValidText(f, texts[f])
    ensures ValidContent(content + texts)
  {
  }

  lemma UpdatedAssetIds(assets: Assets, h: PackageId, seen: AssetIds, ids: AssetIds)
    requires ValidAssetIds(seen) && IsLinkage(assets, h, seen + ids)
    requires forall k :: k in ids ==> IsUuid(ids[k])
    ensures ValidAssetIds(seen + ids)
  {
    LinkageInjective(assets, h, seen + ids);
  }

  /** What pending reads guarantee about the view a request commits with. */
  ghost predicate Readable(s: System, h: PackageId, view: View) {
    && Consistent(s.tables, h, view)
    && (h, view.revision) in s.log && VersionOf(view.snapshot) == Some(s.log[(h, view.revision)])
    && ValidContent(view.content) && ValidAssetIds(view.seen)
  }

  lemma PendingReadable(s: System, h: PackageId, row: HelperRow)
    requires Inv(s) && ReadRow(h, row) in s.pending
    ensures ValidContent(row.content) && Readable(s, h, ViewOf(row))
  {
    UnchangedSinceRead(s, ReadRow(h, row));
    ReadSnapshots(s, ReadRow(h, row));
  }

  /** A request that commits adds exactly one revision: `content` and `ids` over the revision it read. */
  ghost predicate Adds(s: System, h: PackageId, view: View, content: Content, ids: AssetIds, s': System) {
    && RevisionAdded(s, h, view.revision, view.snapshot, content, ids, s'.tables.assets, s')
    && Relinked(s.tables.assets, h, ids, s'.tables.assets)
  }

  lemma UpdateAdds(s: System, user: string, h: PackageId, view: View, update: UpdateInput, entries: Entries, now: int,
                   s': System)
    requires Consistent(s.tables, h, view) && Enumerates(entries, update.assetIds)
    requires Committed(s, h, UpdateTables(s.tables, user, h, view, update, entries, now), view.seen + update.assetIds,
                       s')
    ensures s' == s || Adds(s, h, view, view.content + update.texts, view.seen + update.assetIds, s')
  {
    UpdateOutcome(s.tables, user, h, view, update, entries, now);
  }

  lemma RestoreAdds(s: System, h: PackageId, view: View, input: CreateInput, entries: Entries, now: int, s': System)
    requires Consistent(s.tables, h, view) && (forall k: Kind :: k in input.assetIds)
    requires Enumerates(entries, Swaps(view.seen, input.assetIds))
    requires Committed(s, h, RestoreTables(s.tables, h, view, input, entries, now), input.assetIds, s')
    ensures s' == s || Adds(s, h, view, input.content, input.assetIds, s')
  {
    RestoreOutcome(s.tables, h, view, input, entries, now);
  }

  lemma AddsKeepsInv(s: System, h: PackageId, view: View, content: Content, ids: AssetIds, s': System)
    requires Inv(s) && Readable(s, h, view) && Adds(s, h, view, content, ids, s')
    requires ValidContent(content) && ValidAssetIds(ids)
    ensures Inv(s')
  {
    RevisionKeepsInv(s, h, view.revision, view.snapshot, content, ids, s'.tables.assets, s');
  }

  lemma UpdatedValid(s: System, h: PackageId, view: View, update: UpdateInput, s': System)
    requires ValidContent(view.content) && ValidAssetIds(view.seen) && ValidUpdate(update)
    requires Adds(s, h, view, view.content + update.texts, view.seen + update.assetIds, s')
    ensures ValidContent(view.content + update.texts) && ValidAssetIds(view.seen + update.assetIds)
  {
    UpdatedContent(view.content, update.texts);
    UpdatedAssetIds(s'.tables.assets, h, view.seen, update.assetIds);
  }

  lemma UpdateKeepsInv(s: System, user: string, h: PackageId, view: View, update: UpdateInput, entries: Entries,
                       now: int, s': System)
    requires Inv(s) && Readable(s, h, view) && ValidUpdate(update) && Enumerates(entries, update.assetIds)
    requires Committed(s, h, UpdateTables(s.tables, user, h, view, update, entries, now), view.seen + update.assetIds,
                       s')
    ensures Inv(s')
  {
    UpdateAdds(s, user, h, view, update, entries, now, s');
    if s' != s {
      UpdatedValid(s, h, view, update, s');
      AddsKeepsInv(s, h, view, view.content + update.texts, view.seen + update.assetIds, s');
    }
  }

  lemma RestoreKeepsInv(s: System, h: PackageId, view: View, input: CreateInput, entries: Entries, now: int, s': System)
    requires Inv(s) && Readable(s, h, view) && ValidContent(input.content) && ValidAssetIds(input.assetIds)
    requires Enumerates(entries, Swaps(view.seen, input.assetIds))
    requires Committed(s, h, RestoreTables(s.tables, h, view, input, entries, now), input.assetIds, s')
    ensures Inv(s')
  {
    RestoreAdds(s, h, view, input, entries, now, s');
    if s' != s {
      AddsKeepsInv(s, h, view, input.content, input.assetIds, s');
    }
  }

  lemma SetStatusKeepsInv(s: System, h: PackageId, view: View, status: Status, now: int, s': System)
    requires Inv(s)
    requires match StatusTables(s.tables, h, view, status, now)
             case Ok(t') => s' == s.(tables := t')
             case Err(_) => s' == s
    ensures Inv(s')
  {
    if view.status != status && h in s.tables.helpers {
      StatusKeepsInv(s, h, s'.tables.helpers[h], s');
    }
  }

  lemma RequestKeepsInv(s: System, step: Step, s': System)
    requires Inv(s) && Next(s, step, s') && (step.Update? || step.Restore?)
    ensures Inv(s')
  {
    PendingReadable(s, step.h, step.row);
    if step.Update? {
      UpdateKeepsInv(s, step.user, step.h, ViewOf(step.row), step.update, step.entries, step.now, s');
    } else {
      RestoreKeepsInv(s, step.h, ViewOf(step.row), RestoreInput(step.snapshot).value, step.entries, step.now, s');
    }
  }

  lemma AssetWriteKeepsLinks(before: Assets, id: string, asset: Asset)
    requires if id in before then asset.helper == before[id].helper && asset.kind == before[id].kind
             else asset.helper == None
    ensures LinksKept(before, before[id := asset])
  {
  }

  lemma CleanupKeepsLinks(before: Assets, id: string)
    requires id in before && before[id].helper == None
    ensures LinksKept(before, before - {id})
  {
  }

  lemma AssetRowKeepsInv(s: System, step: Step, s': System)
    requires Inv(s) && Next(s, step, s') && (step.Upload? || step.Scan? || step.Cleanup?)
    ensures Inv(s')
  {
    var before := s.tables.assets;
    if step.Upload? {
      AssetWriteKeepsLinks(before, step.id, step.asset);
    } else if step.Scan? {
      AssetWriteKeepsLinks(before, step.id, before[step.id].(status := step.result));
    } else {
      CleanupKeepsLinks(before, step.id);
    }
    AssetStepKeepsInv(s, s'.tables.assets, s');
  }

  lemma TargetReadLogged(s: System, h: PackageId, r: nat, snapshot: Json)
    requires ReadsLogged(s) && (h, r) in s.tables.history && s.tables.history[(h, r)] == snapshot
    ensures ReadsLogged(s.(targets := s.targets + {TargetRead(h, r, snapshot)}))
  {
  }

  lemma ReadStepKeepsInv(s: System, step: Step, s': System)
    requires Inv(s) && Next(s, step, s') && (step.Read? || step.ReadTarget?)
    ensures Inv(s')
  {
    if step.Read? {
      ReadKeepsInv(s, step.h, step.row, s');
    } else {
      TargetReadLogged(s, step.h, step.revision, step.snapshot);
    }
  }

  /** What uploads, scans and the cleanup write: one asset row, and nothing but free assets is removed. */
  lemma AssetRowsAreExact(s: System, step: Step, s': System)
    requires Next(s, step, s')
    ensures step.Upload? ==> step.asset.helper == None && step.id !in s.tables.assets
    ensures step.Upload? ==> s' == s.(tables := s.tables.(assets := s.tables.assets[step.id := step.asset]))
    ensures step.Scan? ==>
              && step.id in s.tables.assets && s' == s.(tables := s.tables.(assets := s'.tables.assets))
              && s'.tables.assets.Keys == s.tables.assets.Keys && s'.tables.assets[step.id].status == step.result
              && s'.tables.assets[step.id] == s.tables.assets[step.id].(status := s'.tables.assets[step.id].status)
              && forall id :: id in s.tables.assets && id != step.id ==>
                   s'.tables.assets[id] == s.tables.assets[id]
    ensures step.Cleanup? ==>
              && step.id in s.tables.assets && s.tables.assets[step.id].helper == None
              && s' == s.(tables := s.tables.(assets := s.tables.assets - {step.id}))
    ensures step.ReadTarget? ==>
              && s' == s.(targets := s.targets + {TargetRead(step.h, step.revision, step.snapshot)})
              && (step.h, step.revision) in s.tables.history
              && s.tables.history[(step.h, step.revision)] == step.snapshot
  {
  }

  /** Every step keeps the invariant. */
  lemma StepKeepsInv(s: System, step: Step, s': System)
    requires Inv(s) && Next(s, step, s')
    ensures Inv(s')
  {
    if step.Update? || step.Restore? {
      RequestKeepsInv(s, step, s');
    } else if step.Upload? || step.Scan? || step.Cleanup? {
      AssetRowKeepsInv(s, step, s');
    } else if step.Create? {
      CreateKeepsInv(s, step.user, step.h, step.input, step.now, s');
    } else if step.SetStatus? {
      SetStatusKeepsInv(s, step.h, ViewOf(step.row), step.status, step.now, s');
    } else {
      ReadStepKeepsInv(s, step, s');
    }
  }

  // ---- Runs ----------------------------------------------------------------------------------

  /** A run of the system from empty tables, any step at any time. */
  ghost predicate IsRun(states: seq<System>, steps: seq<Step>) {
    && |states| == |steps| + 1 && states[0] == EMPTY_SYSTEM
    && forall i :: 0 <= i < |steps| ==> Next(states[i], steps[i], states[i + 1])
  }

  lemma {:induction false} RunKeepsInv(states: seq<System>, steps: seq<Step>, i: nat)
    requires IsRun(states, steps) && i < |states|
    ensures Inv(states[i])
  {
    if i > 0 {
      RunKeepsInv(states, steps, i - 1);
      StepKeepsInv(states[i - 1], steps[i - 1], states[i]);
    }
  }

  /** A version, once committed, never changes. */
  ghost predicate LogKept(s: System, s': System) {
    forall key :: key in s.log ==> key in s'.log && s'.log[key] == s.log[key]
  }

  lemma CommitKeepsLog(s: System, h: PackageId, result: Result<Tables, Error>, ids: AssetIds, s': System)
    requires Committed(s, h, result, ids, s')
    requires result.Ok? && h in result.value.helpers ==> (h, result.value.helpers[h].revision) !in s.log
    ensures LogKept(s, s')
  {
  }

  lemma CreateKeepsLog(s: System, user: string, h: PackageId, input: CreateInput, now: int, s': System)
    requires Numbered(s.tables, s.log) && ValidAssetIds(input.assetIds)
    requires Committed(s, h, CreateTables(s.tables, user, h, input, now), input.assetIds, s')
    ensures LogKept(s, s')
  {
    CommitKeepsLog(s, h, CreateTables(s.tables, user, h, input, now), input.assetIds, s');
  }

  lemma AddsKeepsLog(s: System, h: PackageId, view: View, content: Content, ids: AssetIds, s': System)
    requires Numbered(s.tables, s.log) && Adds(s, h, view, content, ids, s')
    ensures LogKept(s, s')
  {
    assert (h, view.revision + 1) !in s.log;
  }

  lemma UpdateKeepsLog(s: System, user: string, h: PackageId, view: View, update: UpdateInput, entries: Entries,
                       now: int, s': System)
    requires Numbered(s.tables, s.log) && Readable(s, h, view) && Enumerates(entries, update.assetIds)
    requires Committed(s, h, UpdateTables(s.tables, user, h, view, update, entries, now), view.seen + update.assetIds,
                       s')
    ensures LogKept(s, s')
  {
    UpdateAdds(s, user, h, view, update, entries, now, s');
    if s' != s {
      AddsKeepsLog(s, h, view, view.content + update.texts, view.seen + update.assetIds, s');
    }
  }

  lemma RestoreKeepsLog(s: System, h: PackageId, view: View, input: CreateInput, entries: Entries, now: int, s': System)
    requires Numbered(s.tables, s.log) && Readable(s, h, view) && ValidAssetIds(input.assetIds)
    requires Enumerates(entries, Swaps(view.seen, input.assetIds))
    requires Committed(s, h, RestoreTables(s.tables, h, view, input, entries, now), input.assetIds, s')
    ensures LogKept(s, s')
  {
    RestoreAdds(s, h, view, input, entries, now, s');
    if s' != s {
      AddsKeepsLog(s, h, view, input.content, input.assetIds, s');
    }
  }

  lemma RequestKeepsLog(s: System, step: Step, s': System)
    requires Inv(s) && Next(s, step, s') && (step.Update? || step.Restore?)
    ensures LogKept(s, s')
  {
    PendingReadable(s, step.h, step.row);
    if step.Update? {
      UpdateKeepsLog(s, step.user, step.h, ViewOf(step.row), step.update, step.entries, step.now, s');
    } else {
      RestoreKeepsLog(s, step.h, ViewOf(step.row), RestoreInput(step.snapshot).value, step.entries, step.now, s');
    }
  }

  lemma StepKeepsLog(s: System, step: Step, s': System)
    requires Inv(s) && Next(s, step, s')
    ensures LogKept(s, s')
  {
    if step.Update? || step.Restore? {
      RequestKeepsLog(s, step, s');
    } else if step.Create? {
      CreateKeepsLog(s, step.user, step.h, step.input, step.now, s');
    }
  }

  lemma {:induction false} LogOnlyGrows(states: seq<System>, steps: seq<Step>, i: nat, j: nat)
    requires IsRun(states, steps) && i <= j < |states|
    ensures LogKept(states[i], states[j])
    decreases j - i
  {
    if i < j {
      RunKeepsInv(states, steps, i);
      StepKeepsLog(states[i], steps[i], states[i + 1]);
      LogOnlyGrows(states, steps, i + 1, j);
    }
  }

  // ---- What holds in every run ---------------------------------------------------------------

  /** Every package always has exactly one linked asset of each kind. */
  lemma OneAssetPerKind(states: seq<System>, steps: seq<Step>, i: nat, h: PackageId, k: Kind)
    requires IsRun(states, steps) && i < |states| && h in states[i].tables.helpers
    ensures exists id ::
              && id in states[i].tables.assets && states[i].tables.assets[id].helper == Some(h)
              && states[i].tables.assets[id].kind == k
    ensures forall a, b ::
              && a in states[i].tables.assets && states[i].tables.assets[a].helper == Some(h)
                 && states[i].tables.assets[a].kind == k
              && b in states[i].tables.assets && states[i].tables.assets[b].helper == Some(h)
                 && states[i].tables.assets[b].kind == k
              ==> a == b
  {
    RunKeepsInv(states, steps, i);
    var t := states[i].tables;
    var ids := states[i].log[(h, t.helpers[h].revision)].assetIds;
    assert IsLinkage(t.assets, h, ids) && k in ids;
    assert t.assets[ids[k]].helper == Some(h);
  }

  /** A package whose revision is the same at two times had the same content and the same linked assets at both:
      the revision number identifies the version. */
  lemma RevisionIdentifiesVersion(states: seq<System>, steps: seq<Step>, i: nat, j: nat, h: PackageId)
    requires IsRun(states, steps) && i <= j < |states|
    requires h in states[i].tables.helpers && h in states[j].tables.helpers
    requires states[i].tables.helpers[h].revision == states[j].tables.helpers[h].revision
    ensures states[i].tables.helpers[h].content == states[j].tables.helpers[h].content
    ensures exists ids ::
              && ValidAssetIds(ids) && IsLinkage(states[i].tables.assets, h, ids)
              && IsLinkage(states[j].tables.assets, h, ids)
  {
    RunKeepsInv(states, steps, i);
    RunKeepsInv(states, steps, j);
    LogOnlyGrows(states, steps, i, j);
    var ids := states[i].log[(h, states[i].tables.helpers[h].revision)].assetIds;
    assert IsLinkage(states[i].tables.assets, h, ids) && IsLinkage(states[j].tables.assets, h, ids);
  }

  /** Packages and their revisions never go back. */
  lemma RevisionsOnlyGrow(states: seq<System>, steps: seq<Step>, i: nat, j: nat, h: PackageId)
    requires IsRun(states, steps) && i <= j < |states| && h in states[i].tables.helpers
    ensures h in states[j].tables.helpers
    ensures states[i].tables.helpers[h].revision <= states[j].tables.helpers[h].revision
  {
    RunKeepsInv(states, steps, i);
    RunKeepsInv(states, steps, j);
    LogOnlyGrows(states, steps, i, j);
    assert (h, states[i].tables.helpers[h].revision) in states[j].log;
  }

  /** The history of a package at revision n holds exactly the revisions 1 to n - 1. */
  lemma HistoryIsComplete(states: seq<System>, steps: seq<Step>, i: nat, h: PackageId, r: nat)
    requires IsRun(states, steps) && i < |states|
    ensures (h, r) in states[i].tables.history <==>
              h in states[i].tables.helpers && 1 <= r < states[i].tables.helpers[h].revision
  {
    RunKeepsInv(states, steps, i);
  }

  /** Each history row restores to exactly the texts and the linked assets that the package had while it was at
      that revision. */
  lemma HistoryIsFaithful(states: seq<System>, steps: seq<Step>, i: nat, j: nat, h: PackageId)
    requires IsRun(states, steps) && i <= j < |states| && h in states[i].tables.helpers && h in states[j].tables.helpers
    requires states[i].tables.helpers[h].revision < states[j].tables.helpers[h].revision
    ensures (h, states[i].tables.helpers[h].revision) in states[j].tables.history
    ensures var r := RestoreInput(states[j].tables.history[(h, states[i].tables.helpers[h].revision)]);
            && r.Some? && r.value.content == states[i].tables.helpers[h].content && !r.value.isPublished
            && IsLinkage(states[i].tables.assets, h, r.value.assetIds)
  {
    RunKeepsInv(states, steps, i);
    RunKeepsInv(states, steps, j);
    LogOnlyGrows(states, steps, i, j);
    var key := (h, states[i].tables.helpers[h].revision);
    VersionRestores(states[j].tables.history[key], states[j].log[key]);
  }

  /** In every interleaving, a package still at the revision a request read has the texts and the linked assets it
      read; so its commit overwrites nothing it did not see. */
  lemma ReadsStayTrue(states: seq<System>, steps: seq<Step>, i: nat, r: ReadRow)
    requires IsRun(states, steps) && i < |states| && r in states[i].pending
    ensures r.helper in states[i].tables.helpers
    ensures states[i].tables.helpers[r.helper].revision == r.row.revision ==>
              && states[i].tables.helpers[r.helper].content == r.row.content
              && IsLinkage(states[i].tables.assets, r.helper, IdsOf(r.row.assets))
  {
    RunKeepsInv(states, steps, i);
    UnchangedSinceRead(states[i], r);
  }

  lemma TargetVersion(s: System, h: PackageId, r: nat, snapshot: Json)
    requires Recorded(s.tables, s.log) && ReadsLogged(s) && TargetRead(h, r, snapshot) in s.targets
    ensures (h, r) in s.log
    ensures RestoreInput(snapshot) == Some(CreateInput(s.log[(h, r)].content, s.log[(h, r)].assetIds, false))
  {
    VersionRestores(snapshot, s.log[(h, r)]);
  }

  /** The previous version's assets are free and of the right kinds right after they were replaced. */
  lemma ReplacedAreAvailable(before: Assets, h: PackageId, seen: AssetIds, ids: AssetIds, after: Assets,
                             entries: Entries)
    requires IsLinkage(before, h, seen) && Relinked(before, h, ids, after)
    requires forall k :: k in seen ==> seen[k] in before && before[seen[k]].status == Ready
    requires Enumerates(entries, Swaps(ids, seen))
    ensures AllAvailable(after, None, entries) && KindsMatch(after, entries)
  {
    forall i | 0 <= i < |entries|
      ensures Available(after, None, entries[i].1) && after[entries[i].1].kind == entries[i].0
    {
      var (k, id) := entries[i];
      assert k in seen && seen[k] == id && SameFile(after[id], before[id]);
      assert after[id].helper != Some(h);
    }
  }

  /** A restore that commits gives package `h` exactly `back`'s texts and assets and leaves the
      rest of the row alone. */
  ghost predicate Restored(t: Tables, h: PackageId, back: Version, t': Tables) {
    && h in t.helpers && h in t'.helpers
    && t'.helpers[h] == t.helpers[h].(content := back.content, revision := t.helpers[h].revision + 1)
    && IsLinkage(t'.assets, h, back.assetIds)
    && t'.history.Keys == t.history.Keys + {(h, t.helpers[h].revision)}
  }

  lemma AddedIsRestored(s: System, h: PackageId, view: View, back: Version, s': System)
    requires Adds(s, h, view, back.content, back.assetIds, s')
    ensures Restored(s.tables, h, back, s'.tables)
  {
  }

  /** A restore of revision `r` that commits gives the package the texts and the assets it had at revision `r`,
      records the revision it replaces, and leaves the publication state alone. */
  lemma RestoreReproduces(s: System, h: PackageId, row: HelperRow, r: nat, snapshot: Json, entries: Entries, now: int,
                          s': System)
    requires Inv(s) && Next(s, Restore(h, row, r, snapshot, entries, now), s')
    ensures (h, r) in s.log
    ensures s' == s || Restored(s.tables, h, s.log[(h, r)], s'.tables)
  {
    PendingReadable(s, h, row);
    TargetVersion(s, h, r, snapshot);
    RestoreAdds(s, h, ViewOf(row), RestoreInput(snapshot).value, entries, now, s');
    if s' != s {
      AddedIsRestored(s, h, ViewOf(row), s.log[(h, r)], s');
    }
  }

  lemma ReplacedRestores(s: System, h: PackageId, view: View, content: Content, ids: AssetIds, s': System)
    requires Inv(s) && Readable(s, h, view) && Adds(s, h, view, content, ids, s')
    ensures (h, view.revision) in s'.tables.history
    ensures RestoreInput(s'.tables.history[(h, view.revision)]) == Some(CreateInput(view.content, view.seen, false))
  {
    VersionRestores(view.snapshot, s.log[(h, view.revision)]);
    LinkageUnique(s.tables.assets, h, s.log[(h, view.revision)].assetIds, view.seen);
  }

  lemma RestoreCommits(t: Tables, h: PackageId, view: View, back: CreateInput, entries: Entries, now: int)
    requires Consistent(t, h, view) && t.helpers[h].revision == view.revision && (forall k: Kind :: k in back.assetIds)
    requires Enumerates(entries, Swaps(view.seen, back.assetIds)) && AllAvailable(t.assets, None, entries)
             && KindsMatch(t.assets, entries)
    ensures var r := RestoreTables(t, h, view, back, entries, now);
            r.Ok? && Restored(t, h, Version(back.content, back.assetIds), r.value)
  {
    RestoreOutcome(t, h, view, back, entries, now);
  }

  /** Undo: after any request commits, if every asset the package had before is ready, restoring the replaced
      revision succeeds and gives back the texts and the assets from before; the publication state is untouched. */
  lemma RestoreUndoes(s: System, h: PackageId, view: View, content: Content, ids: AssetIds, s': System,
                      view': View, entries: Entries, now: int)
    requires Inv(s) && Readable(s, h, view) && Adds(s, h, view, content, ids, s')
    requires Consistent(s'.tables, h, view') && view'.revision == view.revision + 1 && view'.seen == ids
    requires forall k :: k in view.seen && view.seen[k] in s.tables.assets ==>
               s.tables.assets[view.seen[k]].status == Ready
    requires Enumerates(entries, Swaps(ids, view.seen))
    ensures var back := CreateInput(view.content, view.seen, false);
            && (h, view.revision) in s'.tables.history
               && RestoreInput(s'.tables.history[(h, view.revision)]) == Some(back)
            && (var r := RestoreTables(s'.tables, h, view', back, entries, now);
                r.Ok? && Restored(s'.tables, h, Version(view.content, view.seen), r.value))
  {
    ReplacedRestores(s, h, view, content, ids, s');
    ReplacedAreAvailable(s.tables.assets, h, view.seen, ids, s'.tables.assets, entries);
    RestoreCommits(s'.tables, h, view', CreateInput(view.content, view.seen, false), entries, now);
  }

  lemma RestoreDecides(t: Tables, h: PackageId, view: View, back: CreateInput, entries: Entries, now: int)
    requires Consistent(t, h, view) && t.helpers[h].revision == view.revision && (forall k: Kind :: k in back.assetIds)
    requires Enumerates(entries, Swaps(view.seen, back.assetIds))
    ensures var r := RestoreTables(t, h, view, back, entries, now);
            && (r.Ok? <==> !HasUnavailable(t.assets, None, entries) && !HasMismatch(t.assets, entries))
            && (r.Ok? ==> Restored(t, h, Version(back.content, back.assetIds), r.value))
  {
    RestoreOutcome(t, h, view, back, entries, now);
  }

  /** Undo at any later time, for any earlier revision: a restore whose request sees the package as it is commits if and
      only if the assets it swaps in are still there, ready, unlinked and of their kinds; it then gives back the texts
      and the assets that the package had at the earlier state. */
  lemma EarlierRestores(states: seq<System>, steps: seq<Step>, i: nat, j: nat, h: PackageId, view: View,
                        entries: Entries, now: int)
    requires IsRun(states, steps) && i <= j < |states| && h in states[i].tables.helpers && h in states[j].tables.helpers
    requires states[i].tables.helpers[h].revision < states[j].tables.helpers[h].revision
    requires Consistent(states[j].tables, h, view) && view.revision == states[j].tables.helpers[h].revision
    ensures (h, states[i].tables.helpers[h].revision) in states[j].tables.history
    ensures RestoreInput(states[j].tables.history[(h, states[i].tables.helpers[h].revision)]).Some?
    ensures var before, t := states[i].tables, states[j].tables;
            var back := RestoreInput(t.history[(h, before.helpers[h].revision)]).value;
            && back.content == before.helpers[h].content && IsLinkage(before.assets, h, back.assetIds)
            && (Enumerates(entries, Swaps(view.seen, back.assetIds)) ==>
                  var r := RestoreTables(t, h, view, back, entries, now);
                  && (r.Ok? <==> !HasUnavailable(t.assets, None, entries) && !HasMismatch(t.assets, entries))
                  && (r.Ok? ==> Restored(t, h, Version(back.content, back.assetIds), r.value)))
  {
    var t := states[j].tables;
    HistoryIsFaithful(states, steps, i, j, h);
    var back := RestoreInput(t.history[(h, states[i].tables.helpers[h].revision)]).value;
    if Enumerates(entries, Swaps(view.seen, back.assetIds)) {
      RestoreDecides(t, h, view, back, entries, now);
    }
  }

  // ---- The revision list ---------------------------------------------------------------------

  /** The snapshot that the revision list compares revision `r` with: the package as read when it is the current
      revision, else the history row of the next revision, if any. */
  function NextSnapshot(history: map<(PackageId, nat), Json>, h: PackageId, current: nat, currentSnapshot: Json,
                        r: nat): Option<Json> {
    if r + 1 == current then Some(currentSnapshot)
    else if (h, r + 1) in history then Some(history[(h, r + 1)])
    else None
  }

  /** The next snapshot of a listed revision reads as exactly the next version, also when the package was read, at
      version `current`, before later commits. `read` says what a snapshot reads as: see `ListedInReachable`. */
  lemma NextReadsAsNext(t: Tables, log: map<(PackageId, nat), Version>, h: PackageId, current: nat,
                        currentSnapshot: Json, r: nat, read: Json -> Option<Version>)
    requires Numbered(t, log)
             && (forall key :: key in t.history ==> key in log && read(t.history[key]) == Some(log[key]))
    requires (h, r) in t.history && r < current && (h, current) in log
             && read(currentSnapshot) == Some(log[(h, current)])
    ensures (h, r + 1) in log
    ensures var next := NextSnapshot(t.history, h, current, currentSnapshot, r);
            next.Some? && read(next.value) == Some(log[(h, r + 1)])
  {
    assert r + 1 != current ==> (h, r + 1) in t.history;
  }

  /** In every reachable state, for a package read at any earlier time, each listed revision is compared with a
      snapshot of exactly the next version. */
  lemma ListedInReachable(s: System, h: PackageId, current: HelperRow, r: nat)
    requires Inv(s) && ReadRow(h, current) in s.pending && (h, r) in s.tables.history && r < current.revision
    ensures ValidContent(current.content) && (h, r + 1) in s.log
    ensures var next := NextSnapshot(s.tables.history, h, current.revision, HelperSnapshot(current), r);
            next.Some? && VersionOf(next.value) == Some(s.log[(h, r + 1)])
  {
    ReadSnapshots(s, ReadRow(h, current));
    NextReadsAsNext(s.tables, s.log, h, current.revision, HelperSnapshot(current), r, VersionOf);
  }

  /** The revision list reports exactly the texts that differ between two versions. */
  lemma ListedTextsAreExact(a: Json, v: Version, b: Json, w: Version)
    requires VersionOf(a) == Some(v) && VersionOf(b) == Some(w)
    ensures ChangedFields(a, b) == set f: Field | f in v.content && f in w.content && v.content[f] != w.content[f]
  {
    VersionRestores(a, v);
    VersionRestores(b, w);
    TextChangesAreExact(a, b, Shows(a), Shows(b));
  }

  /** The revision list reports exactly the kinds whose asset differs between two versions. */
  lemma ListedAssetsAreExact(a: Json, v: Version, b: Json, w: Version)
    requires VersionOf(a) == Some(v) && VersionOf(b) == Some(w)
    ensures ReplacedKinds(a, b) == set k: Kind | k in v.assetIds && k in w.assetIds && v.assetIds[k] != w.assetIds[k]
  {
    VersionRestores(a, v);
    VersionRestores(b, w);
    AssetChangesAreExact(a, b, Shows(a), Shows(b));
  }
}
