/** The class-package tables and the service's transactions over them. */
module ClassHelperStore {
  import opened Wrappers
  import opened ClassHelperInputs

  /** Package ids are opaque; numbers stand for them. */
  type PackageId = nat

  datatype Helper = Helper(content: Content, status: Status, publishedAt: Option<int>, revision: nat)

  /** An asset row; `helper` is the package it is linked to. */
  datatype Asset = Asset(
    owner: string,
    helper: Option<PackageId>,
    kind: Kind,
    status: AssetStatus,
    file: FileInfo,
    detachedAt: Option<int>)

  /** The three tables. History rows are keyed by package and revision. */
  datatype Tables = Tables(
    helpers: map<PackageId, Helper>,
    assets: map<string, Asset>,
    history: map<(PackageId, nat), Json>)

  datatype Error =
    | NotFound | LessonInvalid | VideoRequired | MissionInvalid
    | AssetsNotReady | KindMismatch | EditConflict | AssetAlreadyUsed
    | RevisionNotFound | RevisionInvalid | AssetExpired
    | UniqueViolation | RecordMissing

  type Assets = map<string, Asset>

  /** The replacement entries in the order the request lists them. */
  type Entries = seq<(Kind, string)>

  // ---- Linkage -------------------------------------------------------------------------------

  /** Exactly the assets `ids` are linked to package `h`, one per kind. */
  ghost predicate IsLinkage(assets: Assets, h: PackageId, ids: AssetIds) {
    && (forall k :: k in ids ==> ids[k] in assets && assets[ids[k]].helper == Some(h) && assets[ids[k]].kind == k)
    && (forall id :: id in assets && assets[id].helper == Some(h) ==>
          assets[id].kind in ids && ids[assets[id].kind] == id)
  }

  lemma LinkageUnique(assets: Assets, h: PackageId, a: AssetIds, b: AssetIds)
    requires IsLinkage(assets, h, a) && IsLinkage(assets, h, b)
    ensures a == b
  {
    forall k | k in a
      ensures k in b && b[k] == a[k]
    {
      assert assets[a[k]].helper == Some(h);
    }
    forall k | k in b
      ensures k in a
    {
      assert assets[b[k]].helper == Some(h);
    }
  }

  /** An asset the request may link: unlinked, scanned, and its owner's when an owner is required. */
  predicate Available(assets: Assets, owner: Option<string>, id: string) {
    && id in assets && assets[id].helper == None && assets[id].status == Ready
    && (owner.Some? ==> assets[id].owner == owner.value)
  }

  /** The table's uniqueness rule: no other asset of this kind is linked to `h`. */
  predicate SlotFree(assets: Assets, h: PackageId, kind: Kind) {
    forall id | id in assets :: assets[id].helper == Some(h) ==> assets[id].kind != kind
  }

  /** Detaches the asset that the request saw in a kind's slot, then links the replacement. */
  function ReplaceAsset(assets: Assets, h: PackageId, seen: AssetIds, owner: Option<string>, entry: (Kind, string),
                        now: int, taken: Error): Result<Assets, Error>
  {
    var (kind, id) := entry;
    if kind in seen && seen[kind] !in assets then Err(RecordMissing) else
    var detached := if kind in seen
        then assets[seen[kind] := assets[seen[kind]].(helper := None, detachedAt := Some(now))] else assets;
    if !Available(detached, owner, id) then Err(taken)
    else if !SlotFree(detached, h, detached[id].kind) then Err(UniqueViolation)
    else Ok(detached[id := detached[id].(helper := Some(h), detachedAt := None)])
  }

  function ReplaceAssets(assets: Assets, h: PackageId, seen: AssetIds, owner: Option<string>, entries: Entries,
                         now: int, taken: Error): Result<Assets, Error>
  {
    if entries == [] then Ok(assets) else
    var n := |entries| - 1;
    var before := ReplaceAssets(assets, h, seen, owner, entries[..n], now, taken);
    if before.Err? then before else ReplaceAsset(before.value, h, seen, owner, entries[n], now, taken)
  }

  /** `entries` list the map `ids` in some order. */
  ghost predicate Enumerates(entries: Entries, ids: AssetIds) {
    && (forall i :: 0 <= i < |entries| ==> entries[i].0 in ids && ids[entries[i].0] == entries[i].1)
    && (forall k :: k in ids ==> (k, ids[k]) in entries)
    && (forall i, j :: 0 <= i < j < |entries| ==> entries[i].0 != entries[j].0)
  }

  // ---- The transactions as functions of the tables -------------------------------------------

  /** What the reads of the linked lesson and mission found. */
  datatype Linked = Linked(lesson: Option<bool>, mission: bool)

  /** The checks on the linked lesson (with or without a video) and mission, before any transaction. */
  function CheckLinks(l: Linked): (r: Option<Error>)
    ensures r == None <==> l == Linked(Some(true), true)
    ensures r == Some(LessonInvalid) <==> l.lesson == None
    ensures r == Some(VideoRequired) <==> l.lesson == Some(false)
    ensures r == Some(MissionInvalid) <==> l == Linked(Some(true), false)
  {
    if l.lesson == None then Some(LessonInvalid)
    else if !l.lesson.value then Some(VideoRequired)
    else if !l.mission then Some(MissionInvalid)
    else None
  }

  predicate AllAvailable(assets: Assets, owner: Option<string>, entries: Entries) {
    forall i | 0 <= i < |entries| :: Available(assets, owner, entries[i].1)
  }

  predicate KindsMatch(assets: Assets, entries: Entries) {
    forall i | 0 <= i < |entries| :: entries[i].1 in assets && assets[entries[i].1].kind == entries[i].0
  }

  /** Writes the new content if the revision is still the one read, records the old revision, and swaps the assets. */
  function CommitRevision(t: Tables, h: PackageId, revision: nat, snapshot: Json, content: Content,
                          swapped: Result<Assets, Error>): (r: Result<Tables, Error>)
    ensures h !in t.helpers || t.helpers[h].revision != revision ==> r == Err(EditConflict)
    ensures h in t.helpers && t.helpers[h].revision == revision && (h, revision) in t.history ==>
              r == Err(UniqueViolation)
  {
    if h !in t.helpers || t.helpers[h].revision != revision then Err(EditConflict)
    else if (h, revision) in t.history then Err(UniqueViolation)
    else if swapped.Err? then Err(swapped.error)
    else Ok(Tables(t.helpers[h := t.helpers[h].(content := content, revision := revision + 1)],
                   swapped.value,
                   t.history[(h, revision) := snapshot]))
  }

  /** What a request keeps of the package it read. */
  datatype View = View(revision: nat, content: Content, status: Status, seen: AssetIds, snapshot: Json)

  function ViewOf(row: HelperRow): View
    requires forall f: Field :: f in row.content
  {
    View(row.revision, row.content, row.status, IdsOf(row.assets), HelperSnapshot(row))
  }

  /** The update transaction. `view` is what the request read earlier. Fields the request leaves out keep the
      value the table holds at the time of the write. */
  function UpdateTables(t: Tables, user: string, h: PackageId, view: View, input: UpdateInput, entries: Entries,
                        now: int)
    : Result<Tables, Error>
  {
    if !AllAvailable(t.assets, Some(user), entries) then Err(AssetsNotReady)
    else if !KindsMatch(t.assets, entries) then Err(KindMismatch)
    else
      var content := if h in t.helpers then t.helpers[h].content + input.texts else input.texts;
      CommitRevision(t, h, view.revision, view.snapshot, content,
                     ReplaceAssets(t.assets, h, view.seen, Some(user), entries, now, AssetAlreadyUsed))
  }

  /** The assets a restore has to swap: the kinds whose linked asset, as read, differs from the snapshot's. */
  function Swaps(seen: AssetIds, target: AssetIds): AssetIds {
    map k | k in target && (k !in seen || seen[k] != target[k]) :: target[k]
  }

  /** The restore transaction: the snapshot's texts and assets become the next revision. */
  function RestoreTables(t: Tables, h: PackageId, view: View, input: CreateInput, entries: Entries, now: int)
    : Result<Tables, Error>
  {
    if !AllAvailable(t.assets, None, entries) || !KindsMatch(t.assets, entries) then Err(AssetExpired)
    else CommitRevision(t, h, view.revision, view.snapshot, input.content,
                        ReplaceAssets(t.assets, h, view.seen, None, entries, now, AssetExpired))
  }

  /** The kinds of the listed assets. */
  function KindsOf(assets: Assets, ids: AssetIds): set<Kind> {
    set k | k in ids && ids[k] in assets :: assets[ids[k]].kind
  }

  /** Links the listed assets to a package. */
  function LinkAll(assets: Assets, h: PackageId, ids: AssetIds): Assets
    requires forall k: Kind :: k in ids
  {
    map id | id in assets :: if exists k: Kind :: ids[k] == id then assets[id].(helper := Some(h)) else assets[id]
  }

  /** `id` is listed for one of the first `n` kinds. */
  ghost predicate IsListed(ids: AssetIds, n: nat, id: string)
    requires n <= |KINDS| && forall k: Kind :: k in ids
  {
    exists j :: 0 <= j < n && ids[KINDS[j]] == id
  }

  /** After linking the assets of the first `n` kinds. */
  ghost predicate LinkedFirst(before: Assets, h: PackageId, ids: AssetIds, n: nat, after: Assets)
    requires n <= |KINDS| && forall k: Kind :: k in ids
  {
    && after.Keys == before.Keys
    && forall id :: id in before ==>
         after[id] == if IsListed(ids, n, id) then before[id].(helper := Some(h)) else before[id]
  }

  lemma LinkOneMore(before: Assets, h: PackageId, ids: AssetIds, n: nat, after: Assets)
    requires n < |KINDS| && (forall k: Kind :: k in ids && ids[k] in before) && LinkedFirst(before, h, ids, n, after)
    ensures var id := ids[KINDS[n]]; LinkedFirst(before, h, ids, n + 1, after[id := after[id].(helper := Some(h))])
  {
    forall id
      ensures IsListed(ids, n + 1, id) <==> IsListed(ids, n, id) || id == ids[KINDS[n]]
    {
    }
  }

  lemma AllLinked(before: Assets, h: PackageId, ids: AssetIds, after: Assets)
    requires (forall k: Kind :: k in ids) && LinkedFirst(before, h, ids, |KINDS|, after)
    ensures after == LinkAll(before, h, ids)
  {
    forall id | id in before
      ensures IsListed(ids, |KINDS|, id) <==> exists k: Kind :: ids[k] == id
    {
      if k: Kind :| ids[k] == id {
        KindListed(k);
      }
    }
  }

  ghost predicate AvailableFirst(assets: Assets, owner: Option<string>, ids: AssetIds, n: nat)
    requires n <= |KINDS| && forall k: Kind :: k in ids
  {
    forall j :: 0 <= j < n ==> Available(assets, owner, ids[KINDS[j]])
  }

  ghost predicate AreKindsOfFirst(assets: Assets, ids: AssetIds, n: nat, found: set<Kind>)
    requires n <= |KINDS| && forall k: Kind :: k in ids
  {
    forall kind :: kind in found <==>
             exists j :: 0 <= j < n && ids[KINDS[j]] in assets && assets[ids[KINDS[j]]].kind == kind
  }

  lemma FoundKinds(assets: Assets, owner: Option<string>, ids: AssetIds, found: set<Kind>)
    requires (forall k: Kind :: k in ids) && AvailableFirst(assets, owner, ids, |KINDS|)
    requires AreKindsOfFirst(assets, ids, |KINDS|, found)
    ensures found == KindsOf(assets, ids) && forall k: Kind :: Available(assets, owner, ids[k])
  {
    forall k: Kind
      ensures Available(assets, owner, ids[k]) && assets[ids[k]].kind in found
    {
      KindListed(k);
    }
  }

  /** The create transaction: a new package at revision 1 with its six assets linked at once. */
  function CreateTables(t: Tables, user: string, h: PackageId, input: CreateInput, now: int): Result<Tables, Error>
    requires ValidAssetIds(input.assetIds)
  {
    var ids := input.assetIds;
    if exists k: Kind :: !Available(t.assets, Some(user), ids[k]) then Err(AssetsNotReady)
    else if |KindsOf(t.assets, ids)| != |ALL_KINDS| then Err(AssetsNotReady)
    else if exists k: Kind :: t.assets[ids[k]].kind != k then Err(KindMismatch)
    else if h in t.helpers then Err(UniqueViolation)
    else
      var published := input.isPublished;
      Ok(Tables(
           t.helpers[h := Helper(input.content, if published then Published else Draft,
                                 if published then Some(now) else None, 1)],
           LinkAll(t.assets, h, ids),
           t.history))
  }

  /** The publish and archive transaction: the content, the revision and the assets stay. */
  function StatusTables(t: Tables, h: PackageId, view: View, status: Status, now: int): Result<Tables, Error> {
    if view.status == status then Ok(t)
    else if h !in t.helpers then Err(RecordMissing)
    else
      var published := if status == Published then Some(now) else t.helpers[h].publishedAt;
      Ok(t.(helpers := t.helpers[h := t.helpers[h].(status := status, publishedAt := published)]))
  }

  /** A transaction commits its result, or reports its error and leaves the tables as they were. */
  ghost predicate Outcome(before: Tables, r: Option<Error>, after: Tables, result: Result<Tables, Error>) {
    match result
    case Ok(t) => r == None && after == t
    case Err(e) => r == Some(e) && after == before
  }

  // ---- The service over mutable tables -------------------------------------------------------

  class Database {
    var helpers: map<PackageId, Helper>
    var assets: Assets
    var history: map<(PackageId, nat), Json>

    ghost function Value(): Tables
      reads this
    {
      Tables(helpers, assets, history)
    }

    constructor ()
      ensures Value() == Tables(map[], map[], map[])
    {
      helpers, assets, history := map[], map[], map[];
    }

    /** Swaps the assets one entry at a time inside a transaction; the caller commits or drops the result. */
    method SwapAssets(h: PackageId, seen: AssetIds, owner: Option<string>, entries: Entries, now: int, taken: Error)
      returns (r: Result<Assets, Error>)
      ensures r == ReplaceAssets(assets, h, seen, owner, entries, now, taken)
    {
      var current := assets;
      for i := 0 to |entries|
        invariant ReplaceAssets(assets, h, seen, owner, entries[..i], now, taken) == Ok(current)
      {
        assert entries[..i + 1][..i] == entries[..i];
        var next := ReplaceAsset(current, h, seen, owner, entries[i], now, taken);
        if next.Err? {
          SwapStops(assets, h, seen, owner, entries, i + 1, now, taken);
          return next;
        }
        current := next.value;
      }
      assert entries[..|entries|] == entries;
      return Ok(current);
    }

    /** The commit step of update and restore. On any error the tables are as before. */
    method Commit(h: PackageId, revision: nat, snapshot: Json, content: Content, seen: AssetIds, owner: Option<string>,
                  entries: Entries, now: int, taken: Error)
      returns (r: Option<Error>)
      modifies this
      ensures Outcome(old(Value()), r, Value(),
                      CommitRevision(old(Value()), h, revision, snapshot, content,
                                     ReplaceAssets(old(assets), h, seen, owner, entries, now, taken)))
    {
      if h !in helpers || helpers[h].revision != revision {
        r := Some(EditConflict);
      } else if (h, revision) in history {
        r := Some(UniqueViolation);
      } else {
        var swapped := SwapAssets(h, seen, owner, entries, now, taken);
        if swapped.Err? {
          r := Some(swapped.error);
        } else {
          helpers := helpers[h := helpers[h].(content := content, revision := revision + 1)];
          history := history[(h, revision) := snapshot];
          assets := swapped.value;
          r := None;
        }
      }
    }

    /** One update request from its transaction on; `view` and `linked` are its earlier reads. */
    method Update(user: string, h: PackageId, view: View, input: UpdateInput, linked: Linked, entries: Entries,
                  now: int)
      returns (r: Option<Error>)
      requires Enumerates(entries, input.assetIds)
      modifies this
      ensures if CheckLinks(linked).Some? then r == CheckLinks(linked) && Value() == old(Value())
              else Outcome(old(Value()), r, Value(), UpdateTables(old(Value()), user, h, view, input, entries, now))
    {
      var refused := CheckLinks(linked);
      if refused.Some? {
        return refused;
      }
      if |entries| > 0 {
        if !AllAvailable(assets, Some(user), entries) {
          return Some(AssetsNotReady);
        }
        if !KindsMatch(assets, entries) {
          return Some(KindMismatch);
        }
      }
      var content := if h in helpers then helpers[h].content + input.texts else input.texts;
      r := Commit(h, view.revision, view.snapshot, content, view.seen, Some(user), entries, now, AssetAlreadyUsed);
    }

    /** One restore request; `target` is the history row it read, if any. */
    method Restore(h: PackageId, view: View, target: Option<Json>, linked: Linked, entries: Entries, now: int)
      returns (r: Option<Error>)
      requires target.Some? && RestoreInput(target.value).Some? ==>
                 Enumerates(entries, Swaps(view.seen, RestoreInput(target.value).value.assetIds))
      modifies this
      ensures if target == None then r == Some(RevisionNotFound) && Value() == old(Value())
              else if RestoreInput(target.value) == None then r == Some(RevisionInvalid) && Value() == old(Value())
              else if CheckLinks(linked).Some? then r == CheckLinks(linked) && Value() == old(Value())
              else Outcome(old(Value()), r, Value(),
                           RestoreTables(old(Value()), h, view, RestoreInput(target.value).value, entries, now))
    {
      if target == None {
        return Some(RevisionNotFound);
      }
      var restored := RestoreHelperInput(target.value);
      if restored == None {
        return Some(RevisionInvalid);
      }
      var refused := CheckLinks(linked);
      if refused.Some? {
        return refused;
      }
      if |entries| > 0 {
        if !AllAvailable(assets, None, entries) || !KindsMatch(assets, entries) {
          return Some(AssetExpired);
        }
      }
      r := Commit(h, view.revision, view.snapshot, restored.value.content, view.seen, None, entries, now, AssetExpired);
    }

    /** One create request under a fresh package id. */
    method Create(user: string, h: PackageId, input: CreateInput, linked: Linked, now: int) returns (r: Option<Error>)
      requires ValidAssetIds(input.assetIds)
      modifies this
      ensures r == None ==> h !in old(helpers)
      ensures if CheckLinks(linked).Some? then r == CheckLinks(linked) && Value() == old(Value())
              else Outcome(old(Value()), r, Value(), CreateTables(old(Value()), user, h, input, now))
    {
      var refused := CheckLinks(linked);
      if refused.Some? {
        return refused;
      }
      r := CheckAssets(user, input.assetIds);
      if r.Some? {
        return r;
      }
      if h in helpers {
        return Some(UniqueViolation);
      }
      var status, publishedAt := Draft, None;
      if input.isPublished {
        status, publishedAt := Published, Some(now);
      }
      helpers := helpers[h := Helper(input.content, status, publishedAt, 1)];
      LinkAssets(h, input.assetIds);
      return None;
    }

    /** The checks on a create's six assets: all available to the user, of six kinds, each of the
        kind it is listed for. */
    method CheckAssets(user: string, ids: AssetIds) returns (r: Option<Error>)
      requires ValidAssetIds(ids)
      ensures r == if (exists k: Kind :: !Available(assets, Some(user), ids[k]))
              || |KindsOf(assets, ids)| != |ALL_KINDS|
                   then Some(AssetsNotReady)
                   else if exists k: Kind :: assets[ids[k]].kind != k then Some(KindMismatch)
                   else None
    {
      var found := FindKinds(user, ids);
      if found == None || |found.value| != |ALL_KINDS| {
        return Some(AssetsNotReady);
      }
      var matched := MatchKinds(ids);
      if !matched {
        return Some(KindMismatch);
      }
      return None;
    }

    /** The kinds of the listed assets; None when one of them is not available. */
    method FindKinds(user: string, ids: AssetIds) returns (r: Option<set<Kind>>)
      requires forall k: Kind :: k in ids
      ensures r.Some? <==> forall k: Kind :: Available(assets, Some(user), ids[k])
      ensures r.Some? ==> r.value == KindsOf(assets, ids)
    {
      var found: set<Kind> := {};
      for i := 0 to |KINDS|
        invariant AvailableFirst(assets, Some(user), ids, i) && AreKindsOfFirst(assets, ids, i, found)
      {
        if !Available(assets, Some(user), ids[KINDS[i]]) {
          return None;
        }
        found := found + {assets[ids[KINDS[i]]].kind};
      }
      FoundKinds(assets, Some(user), ids, found);
      return Some(found);
    }

    /** Whether every asset is of the kind it is listed for. */
    method MatchKinds(ids: AssetIds) returns (ok: bool)
      requires forall k: Kind :: k in ids && ids[k] in assets
      ensures ok <==> forall k: Kind :: assets[ids[k]].kind == k
    {
      for i := 0 to |KINDS|
        invariant forall j :: 0 <= j < i ==> assets[ids[KINDS[j]]].kind == KINDS[j]
      {
        if assets[ids[KINDS[i]]].kind != KINDS[i] {
          return false;
        }
      }
      forall k: Kind
        ensures assets[ids[k]].kind == k
      {
        KindListed(k);
      }
      return true;
    }

    /** Links the six assets, one after another. */
    method LinkAssets(h: PackageId, ids: AssetIds)
      requires ValidAssetIds(ids) && forall k: Kind :: ids[k] in assets
      modifies this`assets
      ensures assets == LinkAll(old(assets), h, ids)
    {
      for i := 0 to |KINDS|
        invariant LinkedFirst(old(assets), h, ids, i, assets)
      {
        LinkOneMore(old(assets), h, ids, i, assets);
        var id := ids[KINDS[i]];
        assets := assets[id := assets[id].(helper := Some(h))];
      }
      AllLinked(old(assets), h, ids, assets);
    }

    /** Publishing and archiving; `view` is the earlier read. Exactly the requested status is stored, with the time when
        it is Published, unless the request read that status already; a missing package is refused. */
    method ChangeStatus(h: PackageId, view: View, status: Status, now: int) returns (r: Option<Error>)
      modifies this
      ensures r == if view.status != status && h !in old(helpers) then Some(RecordMissing) else None
      ensures view.status == status || h !in old(helpers) ==> helpers == old(helpers)
      ensures view.status != status && h in old(helpers) ==>
                && helpers.Keys == old(helpers).Keys
                && (forall other :: other in helpers && other != h ==> helpers[other] == old(helpers)[other])
                && helpers[h].status == status
                && helpers[h].publishedAt == (if status == Published then Some(now) else old(helpers)[h].publishedAt)
                && helpers[h].content == old(helpers)[h].content && helpers[h].revision == old(helpers)[h].revision
      ensures assets == old(assets) && history == old(history)
      ensures Outcome(old(Value()), r, Value(), StatusTables(old(Value()), h, view, status, now))
    {
      if view.status == status {
        return None;
      }
      if h !in helpers {
        return Some(RecordMissing);
      }
      var published := if status == Published then Some(now) else helpers[h].publishedAt;
      helpers := helpers[h := helpers[h].(status := status, publishedAt := published)];
      return None;
    }
  }

  lemma {:induction false} SwapStops(assets: Assets, h: PackageId, seen: AssetIds, owner: Option<string>,
                                     entries: Entries, n: nat, now: int, taken: Error)
    requires n <= |entries| && ReplaceAssets(assets, h, seen, owner, entries[..n], now, taken).Err?
    ensures ReplaceAssets(assets, h, seen, owner, entries, now, taken)
         == ReplaceAssets(assets, h, seen, owner, entries[..n], now, taken)
    decreases |entries| - n
  {
    if n < |entries| {
      assert entries[..n + 1][..n] == entries[..n];
      SwapStops(assets, h, seen, owner, entries, n + 1, now, taken);
    } else {
      assert entries[..n] == entries;
    }
  }
}
