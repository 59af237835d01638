/** Restoring, and any run of backup commands, each stopped anywhere, with the source edited in between. */
module BackupRuns {
  import opened Wrappers
  import opened VideoBackups
  import opened BackupCommands
  import opened BackupSafety

  // ---- Restore -------------------------------------------------------------------------------

  /** The source with the listed files replaced by their objects. */
  function Overlay(source: map<string, Data>, objects: map<string, Data>, files: seq<Entry>): map<string, Data> {
    if files == [] then source
    else
      var last := files[|files| - 1];
      var before := Overlay(source, objects, files[..|files| - 1]);
      if last.digest in objects then before[last.name := objects[last.digest]] else before
  }

  lemma {:induction false} VerifiedEntries(objects: map<string, Data>, hash: Data -> string, files: seq<Entry>, i: nat)
    requires VerifyObjects(objects, hash, files) == None && i < |files|
    ensures files[i].digest in objects && Matches(hash, files[i], objects[files[i].digest])
    decreases |files|
  {
    var n := |files| - 1;
    if i < n {
      VerifiedEntries(objects, hash, files[..n], i);
    }
  }

  /** Verified files restore without error, one step per file. */
  lemma {:induction false} RestoresEach(s: State, hash: Data -> string, files: seq<Entry>)
    requires VerifyObjects(s.objects, hash, files) == None
    ensures var plan := Each(s, files, Restorer(hash));
            && plan.error == None && |plan.ops| == |files| && (forall i :: 0 <= i < |files| ==> plan.ops[i].PutSource?)
            && ApplyAll(s, plan.ops) == s.(source := Overlay(s.source, s.objects, files))
    decreases |files|
  {
    if files != [] {
      var n := |files| - 1;
      RestoresEach(s, hash, files[..n]);
      VerifiedEntries(s.objects, hash, files, n);
      ApplyOneMore(s, Each(s, files[..n], Restorer(hash)).ops, PutSource(files[n].name, s.objects[files[n].digest]));
    }
  }

  /** A restore stopped after `k` files has replaced exactly the first `k`. */
  lemma RestoreStopped(s: State, hash: Data -> string, files: seq<Entry>, k: nat)
    requires VerifyObjects(s.objects, hash, files) == None && k <= |files|
    ensures After(s, Each(s, files, Restorer(hash)), k) == s.(source := Overlay(s.source, s.objects, files[..k]))
  {
    RestoresEach(s, hash, files);
    EachPrefix(s, files, Restorer(hash), k);
    VerifiedPrefix(s.objects, hash, files, k);
    RestoresEach(s, hash, files[..k]);
    var all, first := Each(s, files, Restorer(hash)).ops, Each(s, files[..k], Restorer(hash)).ops;
    assert first == all[..k];
    assert all[..|all|] == all;
  }

  lemma VerifiedPrefix(objects: map<string, Data>, hash: Data -> string, files: seq<Entry>, k: nat)
    requires VerifyObjects(objects, hash, files) == None && k <= |files|
    ensures VerifyObjects(objects, hash, files[..k]) == None
  {
    if VerifyObjects(objects, hash, files[..k]).Some? {
      VerifyPrefix(objects, hash, files, k);
    }
  }

  ghost predicate DistinctEntries(files: seq<Entry>) {
    forall i, j :: 0 <= i < j < |files| ==> files[i].name != files[j].name
  }

  /** Each listed name holds its object's bytes, and every other name is as before. */
  lemma {:induction false} OverlayIsExact(source: map<string, Data>, objects: map<string, Data>, files: seq<Entry>,
                                          name: string)
    requires DistinctEntries(files) && forall i :: 0 <= i < |files| ==> files[i].digest in objects
    ensures var after := Overlay(source, objects, files);
            && (forall i :: 0 <= i < |files| && files[i].name == name ==>
                  name in after && after[name] == objects[files[i].digest])
            && ((forall i :: 0 <= i < |files| ==> files[i].name != name) ==>
                  (name in after <==> name in source) && (name in source ==> after[name] == source[name]))
    decreases |files|
  {
    if files != [] {
      var n := |files| - 1;
      assert forall i :: 0 <= i < n ==> files[..n][i] == files[i];
      OverlayIsExact(source, objects, files[..n], name);
    }
  }

  lemma ValidatedDistinct(m: Manifest)
    requires ValidManifest(m)
    ensures DistinctEntries(Validated(m).value)
  {
    forall i, j | 0 <= i < j < |m|
      ensures Validated(m).value[i].name != Validated(m).value[j].name
    {
      assert m[i].name != m[j].name;
    }
  }

  /** Files of a backed manifest verify. */
  lemma {:induction false} BackedVerifies(objects: map<string, Data>, hash: Data -> string, files: seq<Entry>)
    requires AllStored(objects, hash, Written(files))
    ensures VerifyObjects(objects, hash, files) == None
    decreases |files|
  {
    if files != [] {
      var n := |files| - 1;
      assert forall i :: 0 <= i < n ==> Written(files[..n])[i] == Written(files)[i];
      BackedVerifies(objects, hash, files[..n]);
      assert Stored(objects, hash, Written(files)[n]);
    }
  }

  /** In a backed store an existing manifest restores exactly when its entries are well formed; the listed names then
      hold their objects' bytes, and everything else is as before. */
  lemma RestoreSucceeds(s: State, hash: Data -> string, which: Option<int>, m: Manifest, name: string)
    requires Backed(s, hash) && Lookup(s, which) == Some(m)
    ensures var plan := RestorePlan(s, hash, which, true, true);
            if !ValidManifest(m) then plan == Plan([], Some(ManifestEntryInvalid))
            else
              && plan.error == None
              && (var s' := ApplyAll(s, plan.ops);
                  && s' == s.(source := s'.source)
                  && (forall i :: 0 <= i < |m| && m[i].name == Some(name) ==>
                        && m[i].digest.Some? && m[i].digest.value in s.objects
                        && name in s'.source && s'.source[name] == s.objects[m[i].digest.value])
                  && ((forall i :: 0 <= i < |m| ==> m[i].name != Some(name)) ==>
                        (name in s'.source <==> name in s.source)
                          && (name in s.source ==> s'.source[name] == s.source[name])))
  {
    if ValidManifest(m) {
      var files := Validated(m).value;
      ValidatedIsWritten(m);
      ValidatedDistinct(m);
      BackedVerifies(s.objects, hash, files);
      RestoresEach(s, hash, files);
      forall i | 0 <= i < |files|
        ensures files[i].digest in s.objects
      {
        VerifiedEntries(s.objects, hash, files, i);
      }
      OverlayIsExact(s.source, s.objects, files, name);
    }
  }

  // ---- Runs ----------------------------------------------------------------------------------

  datatype Command =
    | Backup(files: seq<Entry>, invalid: nat, diskCritical: bool, now: int)
    | Prune(times: seq<int>, digests: seq<string>, now: int, retentionDays: int, apply: bool, confirmed: bool)
    | Restore(which: Option<int>, apply: bool, confirmed: bool)
    | Edit(source: map<string, Data>)

  /** One command of a run, and the number of file steps after which it is killed. */
  datatype Event = Event(command: Command, budget: nat)

  ghost predicate Applicable(s: State, c: Command) {
    c.Prune? ==> IsListing(c.times, s.manifests.Keys) && IsListing(c.digests, s.objects.Keys)
  }

  function PlanOf(s: State, hash: Data -> string, c: Command): Plan
    requires c.Prune? ==> forall t :: t in c.times ==> t in s.manifests
  {
    match c
    case Backup(files, invalid, diskCritical, now) => BackupPlan(s, hash, files, invalid, diskCritical, now)
    case Prune(times, digests, now, days, apply, confirmed) =>
           PrunePlan(s, hash, times, digests, now, days, apply, confirmed)
    case Restore(which, apply, confirmed) => RestorePlan(s, hash, which, apply, confirmed)
    case Edit(_) => Plan([], None)
  }

  function Perform(s: State, hash: Data -> string, e: Event): (r: State)
    requires e.command.Prune? ==> forall t :: t in e.command.times ==> t in s.manifests
    ensures e.command.Edit? ==> r == State(s.objects, s.manifests, s.latest, e.command.source)
  {
    if e.command.Edit? then s.(source := e.command.source) else After(s, PlanOf(s, hash, e.command), e.budget)
  }

  /** The states of a run: each event starts where the one before it stopped. */
  ghost predicate IsRun(states: seq<State>, hash: Data -> string, events: seq<Event>) {
    && |states| == |events| + 1
    && forall i :: 0 <= i < |events| ==>
         Applicable(states[i], events[i].command) && states[i + 1] == Perform(states[i], hash, events[i])
  }

  lemma {:induction false} RestoreOpsAreSafe(s: State, hash: Data -> string, files: seq<Entry>)
    ensures forall i :: 0 <= i < |Each(s, files, Restorer(hash)).ops| ==>
              Each(s, files, Restorer(hash)).ops[i].PutSource?
    decreases |files|
  {
    if files != [] {
      RestoreOpsAreSafe(s, hash, files[..|files| - 1]);
    }
  }

  lemma PlanIsSafe(s: State, hash: Data -> string, c: Command)
    requires Applicable(s, c)
    ensures SafeOps(s, hash, PlanOf(s, hash, c).ops)
  {
    match c
    case Backup(files, invalid, diskCritical, now) => BackupIsSafe(s, hash, files, invalid, diskCritical, now);
    case Prune(times, digests, now, days, apply, confirmed) =>
           PruneIsSafe(s, hash, times, digests, now, days, apply, confirmed);
    case Restore(which, _, _) =>
      if Lookup(s, which).Some? && Validated(Lookup(s, which).value).Some? {
        RestoreOpsAreSafe(s, hash, Validated(Lookup(s, which).value).value);
      }
    case Edit(_) =>
  }

  /** A command stopped after any of its file steps keeps every manifest backed. */
  lemma CommandKeepsBacked(s: State, hash: Data -> string, e: Event)
    requires Backed(s, hash) && Applicable(s, e.command)
    ensures Backed(Perform(s, hash, e), hash)
  {
    if !e.command.Edit? {
      var ops := PlanOf(s, hash, e.command).ops;
      PlanIsSafe(s, hash, e.command);
      PrefixKeepsBacked(s, hash, ops, if e.budget < |ops| then e.budget else |ops|);
      assert ops[..|ops|] == ops;
    }
  }

  /** From an empty store, whatever commands run and wherever they stop, every present manifest is backed by present
      objects of the right sizes and hashes. */
  lemma {:induction false} RunKeepsBacked(states: seq<State>, hash: Data -> string, events: seq<Event>, i: nat)
    requires IsRun(states, hash, events) && i < |states| && Backed(states[0], hash)
    ensures Backed(states[i], hash)
  {
    if i > 0 {
      RunKeepsBacked(states, hash, events, i - 1);
      CommandKeepsBacked(states[i - 1], hash, events[i - 1]);
    }
  }

  // ---- Which manifests survive ---------------------------------------------------------------

  /** The command does not reuse time `t` for a new manifest, and a prune does not expire it. */
  ghost predicate Retains(c: Command, t: int) {
    && (c.Backup? ==> c.now != t)
    && (c.Prune? ==> c.now - c.retentionDays * DAY <= t)
  }

  ghost predicate Leaves(op: FileOp, t: int) {
    (op.PutManifest? ==> op.time != t) && (op.RemoveManifest? ==> op.time != t)
  }

  lemma {:induction false} OpsLeaveManifest(s: State, ops: seq<FileOp>, t: int)
    requires t in s.manifests && forall i :: 0 <= i < |ops| ==> Leaves(ops[i], t)
    ensures t in ApplyAll(s, ops).manifests && ApplyAll(s, ops).manifests[t] == s.manifests[t]
    decreases |ops|
  {
    if ops != [] {
      OpsLeaveManifest(s, ops[..|ops| - 1], t);
      assert Leaves(ops[|ops| - 1], t);
    }
  }

  lemma PlanLeavesManifest(s: State, hash: Data -> string, c: Command, t: int)
    requires Applicable(s, c) && Retains(c, t)
    ensures forall i :: 0 <= i < |PlanOf(s, hash, c).ops| ==> Leaves(PlanOf(s, hash, c).ops[i], t)
  {
    match c
    case Backup(files, _, _, _) => CopiesAreSafe(s, hash, files);
    case Prune(times, digests, now, days, _, _) =>
      if PruneScan(s, hash, times, digests, now, days).Ok? {
        PlanIsExactly(s, hash, times, digests, now, days);
        RemovalsLeave(PruneScan(s, hash, times, digests, now, days).value.0,
                      PruneScan(s, hash, times, digests, now, days).value.1, t);
      }
    case Restore(which, _, _) =>
      if Lookup(s, which).Some? && Validated(Lookup(s, which).value).Some? {
        RestoreOpsAreSafe(s, hash, Validated(Lookup(s, which).value).value);
      }
    case Edit(_) =>
  }

  lemma RemovalsLeave(expired: seq<int>, unused: seq<string>, t: int)
    requires t !in expired
    ensures forall i :: 0 <= i < |Removals(expired, unused)| ==> Leaves(Removals(expired, unused)[i], t)
  {
  }

  lemma CommandKeepsManifest(s: State, hash: Data -> string, e: Event, t: int)
    requires Applicable(s, e.command) && Retains(e.command, t) && t in s.manifests
    ensures t in Perform(s, hash, e).manifests && Perform(s, hash, e).manifests[t] == s.manifests[t]
  {
    if !e.command.Edit? {
      var ops := PlanOf(s, hash, e.command).ops;
      PlanLeavesManifest(s, hash, e.command, t);
      OpsLeaveManifest(s, if e.budget < |ops| then ops[..e.budget] else ops, t);
    }
  }

  lemma {:induction false} RunKeepsManifest(states: seq<State>, hash: Data -> string, events: seq<Event>, i: nat,
                                            j: nat, t: int)
    requires IsRun(states, hash, events) && i <= j < |states| && t in states[i].manifests
    requires forall l :: i <= l < j ==> Retains(events[l].command, t)
    ensures t in states[j].manifests && states[j].manifests[t] == states[i].manifests[t]
    decreases j - i
  {
    if i < j {
      CommandKeepsManifest(states[i], hash, events[i], t);
      RunKeepsManifest(states, hash, events, i + 1, j, t);
    }
  }

  // ---- Backing up and restoring end to end ---------------------------------------------------

  /** No stored object and no file of the directory differ under one hash. */
  ghost predicate Separates(hash: Data -> string, objects: map<string, Data>, source: map<string, Data>) {
    forall d, n :: d in objects && n in source && hash(objects[d]) == hash(source[n]) ==> objects[d] == source[n]
  }

  lemma BackupWrites(s: State, hash: Data -> string, files: seq<Entry>, invalid: nat, diskCritical: bool, now: int,
                     budget: nat)
    requires OutcomeOf(BackupPlan(s, hash, files, invalid, diskCritical, now), budget) == Done
    ensures var s' := After(s, BackupPlan(s, hash, files, invalid, diskCritical, now), budget);
            && now in s'.manifests && s'.manifests[now] == Written(files) && s'.latest == Some(Written(files))
  {
    var copies := Each(s, files, Copier(hash)).ops;
    BackupFinishes(s, copies, PutManifest(now, Written(files)), PutLatest(Written(files)));
  }

  /** A listed video's object is the scanned file itself. */
  lemma ObjectIsScanned(s: State, hash: Data -> string, source: map<string, Data>, names: seq<string>, maxBytes: int,
                        files: seq<Entry>, i: nat)
    requires Separates(hash, s.objects, source) && AllStored(s.objects, hash, Written(files))
    requires (forall n :: n in names ==> n in source) && files == Scan(source, names, hash, maxBytes).0 && i < |files|
    ensures files[i].name in source && files[i].digest in s.objects
            && s.objects[files[i].digest] == source[files[i].name]
  {
    ScanIsExact(source, names, hash, maxBytes, files[i]);
    assert Stored(s.objects, hash, Written(files)[i]);
  }

  /** What a completed restore of a scanned manifest leaves at `name`. */
  ghost predicate GivenBack(source: map<string, Data>, before: map<string, Data>, after: map<string, Data>,
                            name: string) {
    if name in source && IsMp4(name) then name in after && after[name] == source[name]
    else (name in after <==> name in before) && (name in before ==> after[name] == before[name])
  }

  lemma RestoreOfScan(s: State, hash: Data -> string, which: Option<int>, files: seq<Entry>,
                      source: map<string, Data>, names: seq<string>, maxBytes: int, budget: nat, name: string)
    requires Backed(s, hash) && Separates(hash, s.objects, source) && Lookup(s, which) == Some(Written(files))
    requires IsListing(names, source.Keys) && Scan(source, names, hash, maxBytes) == (files, 0)
    requires OutcomeOf(RestorePlan(s, hash, which, true, true), budget) == Done
    ensures GivenBack(source, s.source, After(s, RestorePlan(s, hash, which, true, true), budget).source, name)
  {
    var plan := RestorePlan(s, hash, which, true, true);
    DoneAppliesAll(s, plan, budget);
    RestoreSucceeds(s, hash, which, Written(files), name);
    forall k | 0 <= k < |files|
      ensures Written(files)[k].name == Some(files[k].name) && Written(files)[k].digest == Some(files[k].digest)
    {
    }
    RestoredName(s, hash, files, source, names, maxBytes, ApplyAll(s, plan.ops).source, name);
  }

  lemma DoneAppliesAll(s: State, plan: Plan, budget: nat)
    requires OutcomeOf(plan, budget) == Done
    ensures After(s, plan, budget) == ApplyAll(s, plan.ops) && plan.error == None
  {
  }

  lemma RestoredName(s: State, hash: Data -> string, files: seq<Entry>, source: map<string, Data>,
                     names: seq<string>, maxBytes: int, after: map<string, Data>, name: string)
    requires Separates(hash, s.objects, source) && AllStored(s.objects, hash, Written(files))
    requires IsListing(names, source.Keys) && Scan(source, names, hash, maxBytes) == (files, 0)
    requires forall k :: 0 <= k < |files| && files[k].name == name ==>
               && files[k].digest in s.objects && name in after && after[name] == s.objects[files[k].digest]
    requires (forall k :: 0 <= k < |files| ==> files[k].name != name) ==>
               (name in after <==> name in s.source) && (name in s.source ==> after[name] == s.source[name])
    ensures GivenBack(source, s.source, after, name)
  {
    ScannedName(source, names, hash, maxBytes, files, name);
    if k :| 0 <= k < |files| && files[k].name == name {
      ObjectIsScanned(s, hash, source, names, maxBytes, files, k);
    }
  }

  /** End to end: after a completed backup of a scanned directory, any further commands that retain its manifest,
      each stopped anywhere and with any edits of the source, and a completed restore of that manifest, every video
      of the scanned directory is back byte for byte and every other file is as it was before the restore. */
  lemma RestoreGivesBack(states: seq<State>, hash: Data -> string, events: seq<Event>, i: nat, j: nat,
                         source: map<string, Data>, names: seq<string>, maxBytes: int, files: seq<Entry>, now: int,
                         name: string)
    requires IsRun(states, hash, events) && Backed(states[0], hash) && i < j < |events|
    requires Separates(hash, states[j].objects, source)
    requires IsListing(names, source.Keys) && Scan(source, names, hash, maxBytes) == (files, 0)
    requires events[i].command == Backup(files, 0, false, now)
    requires OutcomeOf(PlanOf(states[i], hash, events[i].command), events[i].budget) == Done
    requires forall l :: i < l < j ==> Retains(events[l].command, now)
    requires events[j].command == Restore(Some(now), true, true)
    requires OutcomeOf(PlanOf(states[j], hash, events[j].command), events[j].budget) == Done
    ensures GivenBack(source, states[j].source, states[j + 1].source, name)
  {
    BackupWrites(states[i], hash, files, 0, false, now, events[i].budget);
    RunKeepsManifest(states, hash, events, i + 1, j, now);
    RunKeepsBacked(states, hash, events, j);
    RestoreOfScan(states[j], hash, Some(now), files, source, names, maxBytes, events[j].budget, name);
  }

  // The same for `latest.json`, which a restore reads when it is given no time.

  /** A backup that completes replaces the latest manifest. */
  ghost predicate ReplacesLatest(s: State, hash: Data -> string, e: Event)
    requires Applicable(s, e.command)
  {
    e.command.Backup? && OutcomeOf(PlanOf(s, hash, e.command), e.budget) == Done
  }

  lemma {:induction false} OpsLeaveLatest(s: State, ops: seq<FileOp>)
    requires forall i :: 0 <= i < |ops| ==> !ops[i].PutLatest?
    ensures ApplyAll(s, ops).latest == s.latest
    decreases |ops|
  {
    if ops != [] {
      OpsLeaveLatest(s, ops[..|ops| - 1]);
    }
  }

  /** Only the last step of a backup writes the latest manifest. */
  lemma LatestIsLast(s: State, hash: Data -> string, c: Command, i: nat)
    requires Applicable(s, c) && i < |PlanOf(s, hash, c).ops| && PlanOf(s, hash, c).ops[i].PutLatest?
    ensures c.Backup? && i == |PlanOf(s, hash, c).ops| - 1 && PlanOf(s, hash, c).error == None
  {
    match c
    case Backup(files, _, _, _) => CopiesAreSafe(s, hash, files);
    case Prune(_, _, _, _, _, _) =>
    case Restore(which, _, _) =>
      if Lookup(s, which).Some? && Validated(Lookup(s, which).value).Some? {
        RestoreOpsAreSafe(s, hash, Validated(Lookup(s, which).value).value);
      }
    case Edit(_) =>
  }

  /** The latest manifest changes only in a backup that completes. */
  lemma CommandKeepsLatest(s: State, hash: Data -> string, e: Event)
    requires Applicable(s, e.command) && !ReplacesLatest(s, hash, e)
    ensures Perform(s, hash, e).latest == s.latest
  {
    if !e.command.Edit? {
      var ops := PlanOf(s, hash, e.command).ops;
      var done := if e.budget < |ops| then ops[..e.budget] else ops;
      forall i | 0 <= i < |done|
        ensures !done[i].PutLatest?
      {
        if done[i].PutLatest? {
          LatestIsLast(s, hash, e.command, i);
        }
      }
      OpsLeaveLatest(s, done);
    }
  }

  lemma {:induction false} RunKeepsLatest(states: seq<State>, hash: Data -> string, events: seq<Event>, i: nat, j: nat)
    requires IsRun(states, hash, events) && i <= j < |states|
    requires forall l :: i <= l < j ==> !ReplacesLatest(states[l], hash, events[l])
    ensures states[j].latest == states[i].latest
    decreases j - i
  {
    if i < j {
      CommandKeepsLatest(states[i], hash, events[i]);
      RunKeepsLatest(states, hash, events, i + 1, j);
    }
  }

  /** End to end for the latest manifest: as long as no later backup completes, whatever the prunes retain. */
  lemma LatestGivesBack(states: seq<State>, hash: Data -> string, events: seq<Event>, i: nat, j: nat,
                        source: map<string, Data>, names: seq<string>, maxBytes: int, files: seq<Entry>, now: int,
                        name: string)
    requires IsRun(states, hash, events) && Backed(states[0], hash) && i < j < |events|
    requires Separates(hash, states[j].objects, source)
    requires IsListing(names, source.Keys) && Scan(source, names, hash, maxBytes) == (files, 0)
    requires events[i].command == Backup(files, 0, false, now) && ReplacesLatest(states[i], hash, events[i])
    requires forall l :: i < l < j ==> !ReplacesLatest(states[l], hash, events[l])
    requires events[j].command == Restore(None, true, true)
    requires OutcomeOf(PlanOf(states[j], hash, events[j].command), events[j].budget) == Done
    ensures GivenBack(source, states[j].source, states[j + 1].source, name)
  {
    BackupWrites(states[i], hash, files, 0, false, now, events[i].budget);
    RunKeepsLatest(states, hash, events, i + 1, j);
    RunKeepsBacked(states, hash, events, j);
    RestoreOfScan(states[j], hash, None, files, source, names, maxBytes, events[j].budget, name);
  }

  // ---- Which backups are of use --------------------------------------------------------------

  lemma ScannedName(source: map<string, Data>, names: seq<string>, hash: Data -> string, maxBytes: int,
                    files: seq<Entry>, name: string)
    requires IsListing(names, source.Keys) && Scan(source, names, hash, maxBytes) == (files, 0)
    ensures name in source && IsMp4(name) <==> exists k :: 0 <= k < |files| && files[k].name == name
  {
    if name in source && IsMp4(name) {
      var e := Entry(name, |source[name]|, hash(source[name]));
      ScanIsExact(source, names, hash, maxBytes, e);
      var k :| 0 <= k < |files| && files[k] == e;
    }
    if k :| 0 <= k < |files| && files[k].name == name {
      ScanIsExact(source, names, hash, maxBytes, files[k]);
    }
  }

  lemma {:induction false} ScannedNamesDistinct(source: map<string, Data>, names: seq<string>, hash: Data -> string,
                                                maxBytes: int)
    requires (forall n :: n in names ==> n in source) && Distinct(names)
    ensures DistinctEntries(Scan(source, names, hash, maxBytes).0)
    decreases |names|
  {
    if names != [] {
      var last := |names| - 1;
      assert forall i :: 0 <= i < last ==> names[..last][i] == names[i];
      ScannedNamesDistinct(source, names[..last], hash, maxBytes);
      var before := Scan(source, names[..last], hash, maxBytes).0;
      forall i | 0 <= i < |before|
        ensures before[i].name != names[last]
      {
        ScanIsExact(source, names[..last], hash, maxBytes, before[i]);
      }
    }
  }

  /** A backup's own manifest passes the later checks exactly when every backed-up name ends in lower-case `.mp4`: the
      scan accepts the suffix in any case, the manifest check only in lower case. */
  lemma OwnManifestIsValid(source: map<string, Data>, names: seq<string>, hash: Data -> string, maxBytes: int,
                           files: seq<Entry>)
    requires (forall n :: n in names ==> n in source) && Distinct(names) && (forall d :: IsDigest(hash(d)))
    requires files == Scan(source, names, hash, maxBytes).0
    ensures ValidManifest(Written(files)) <==> forall i :: 0 <= i < |files| ==> IsPlainMp4(files[i].name)
  {
    forall i | 0 <= i < |files|
      ensures ValidEntry(Written(files)[i]) <==> IsPlainMp4(files[i].name)
    {
      ScanIsExact(source, names, hash, maxBytes, files[i]);
    }
    ScannedNamesDistinct(source, names, hash, maxBytes);
    WrittenDistinct(files);
  }

  lemma WrittenDistinct(files: seq<Entry>)
    requires DistinctEntries(files)
    ensures DistinctNames(Written(files))
  {
  }

  /** The file is still as it was scanned. */
  ghost predicate Fresh(source: map<string, Data>, hash: Data -> string, e: Entry) {
    e.name in source && Matches(hash, e, source[e.name])
  }

  /** No two files, stored or to be stored, differ under one hash. */
  ghost predicate CollisionFree(s: State, hash: Data -> string) {
    forall a, b :: a in Held(s) && b in Held(s) && hash(a) == hash(b) ==> a == b
  }

  ghost function Held(s: State): set<Data> {
    s.objects.Values + s.source.Values
  }

  lemma FreshCopies(s: State, hash: Data -> string, e: Entry)
    requires Backed(s, hash) && CollisionFree(s, hash) && Fresh(s.source, hash, e)
    ensures CopyStep(hash, s, e).Ok?
    ensures CopyStep(hash, s, e).value.Some? ==> Held(Apply(s, CopyStep(hash, s, e).value.value)) <= Held(s)
  {
    assert s.source[e.name] in Held(s);
    if e.digest in s.objects {
      assert s.objects[e.digest] in Held(s);
    }
  }

  lemma CopiedStateBacked(s: State, hash: Data -> string, files: seq<Entry>)
    requires Backed(s, hash)
    ensures var s' := ApplyAll(s, Each(s, files, Copier(hash)).ops);
            Backed(s', hash) && s'.source == s.source
  {
    var ops := Each(s, files, Copier(hash)).ops;
    CopiesAreSafe(s, hash, files);
    PrefixKeepsBacked(s, hash, ops, |ops|);
    assert ops[..|ops|] == ops;
  }

  /** Backing up an unchanged directory over a backed store copies or reuses every object. */
  lemma {:induction false} FreshScanCopies(s: State, hash: Data -> string, files: seq<Entry>)
    requires Backed(s, hash) && CollisionFree(s, hash)
    requires forall i :: 0 <= i < |files| ==> Fresh(s.source, hash, files[i])
    ensures Each(s, files, Copier(hash)).error == None
    ensures Held(ApplyAll(s, Each(s, files, Copier(hash)).ops)) <= Held(s)
    decreases |files|
  {
    if files != [] {
      var n := |files| - 1;
      assert forall i :: 0 <= i < n ==> files[..n][i] == files[i];
      FreshScanCopies(s, hash, files[..n]);
      CopiedStateBacked(s, hash, files[..n]);
      FreshCopies(ApplyAll(s, Each(s, files[..n], Copier(hash)).ops), hash, files[n]);
      NextCopies(s, hash, files, Each(s, files[..n], Copier(hash)).ops);
    }
  }

  lemma NextCopies(s: State, hash: Data -> string, files: seq<Entry>, done: seq<FileOp>)
    requires files != [] && Each(s, files[..|files| - 1], Copier(hash)) == Plan(done, None)
    requires Held(ApplyAll(s, done)) <= Held(s)
    requires var step := CopyStep(hash, ApplyAll(s, done), files[|files| - 1]);
             step.Ok? && (step.value.Some? ==> Held(Apply(ApplyAll(s, done), step.value.value)) <= Held(s))
    ensures var plan := Each(s, files, Copier(hash)); plan.error == None && Held(ApplyAll(s, plan.ops)) <= Held(s)
  {
    var step := CopyStep(hash, ApplyAll(s, done), files[|files| - 1]);
    if step.value.Some? {
      ApplyOneMore(s, done, step.value.value);
    }
  }

  /** A backup of the directory as it was just scanned, with no invalid entry and enough disk, ends without an error. */
  lemma FreshBackupCompletes(s: State, hash: Data -> string, names: seq<string>, maxBytes: int, now: int)
    requires Backed(s, hash) && CollisionFree(s, hash) && (forall n :: n in names ==> n in s.source)
    requires Scan(s.source, names, hash, maxBytes).1 == 0
    ensures BackupPlan(s, hash, Scan(s.source, names, hash, maxBytes).0, 0, false, now).error == None
  {
    var files := Scan(s.source, names, hash, maxBytes).0;
    forall i | 0 <= i < |files|
      ensures Fresh(s.source, hash, files[i])
    {
      ScanIsExact(s.source, names, hash, maxBytes, files[i]);
    }
    FreshScanCopies(s, hash, files);
  }

  /** What a prune checks before it plans: the retention, the latest manifest with its objects, and every dated one. */
  ghost predicate Prunable(s: State, hash: Data -> string, times: seq<int>, now: int, retentionDays: int) {
    && 1 <= retentionDays <= 3650 && s.latest.Some? && ValidManifest(s.latest.value)
    && AllStored(s.objects, hash, s.latest.value)
    && forall t :: t in times ==> Acceptable(s.manifests, t, now + 300_000_000)
  }

  /** A prune is refused exactly when one of its checks fails. */
  lemma PruneSucceeds(s: State, hash: Data -> string, times: seq<int>, digests: seq<string>, now: int,
                      retentionDays: int)
    requires forall t :: t in times ==> t in s.manifests
    ensures PruneScan(s, hash, times, digests, now, retentionDays).Ok? <==> Prunable(s, hash, times, now, retentionDays)
  {
    if s.latest.Some? && ValidManifest(s.latest.value) {
      ValidStored(s.objects, hash, s.latest.value);
    }
    SortSucceeds(s.manifests, times, now - retentionDays * DAY, now + FIVE_MINUTES);
  }

  lemma {:induction false} SortErrors(manifests: map<int, Manifest>, times: seq<int>, cutoff: int, limit: int)
    requires forall t :: t in times ==> t in manifests
    ensures var e := SortManifests(manifests, times, cutoff, limit).error;
            e == None || e == Some(TimestampFuture) || e == Some(ManifestEntryInvalid)
    decreases |times|
  {
    if times != [] {
      SortErrors(manifests, times[..|times| - 1], cutoff, limit);
    }
  }

  lemma {:induction false} VerifyErrors(objects: map<string, Data>, hash: Data -> string, files: seq<Entry>)
    ensures var e := VerifyObjects(objects, hash, files);
            e == None || e == Some(ObjectMissing) || e == Some(ObjectHashMismatch)
    decreases |files|
  {
    if files != [] {
      VerifyErrors(objects, hash, files[..|files| - 1]);
    }
  }

  /** Without `apply` or its confirmation a prune removes nothing: it reports success or asks for the confirmation
      exactly when the store can be pruned. */
  lemma PruneReports(s: State, hash: Data -> string, times: seq<int>, digests: seq<string>, now: int,
                     retentionDays: int, apply: bool, confirmed: bool)
    requires (forall t :: t in times ==> t in s.manifests) && !(apply && confirmed)
    ensures var plan := PrunePlan(s, hash, times, digests, now, retentionDays, apply, confirmed);
            && plan.ops == []
            && (!apply ==> (plan.error == None <==> Prunable(s, hash, times, now, retentionDays)))
            && (apply ==> (plan.error == Some(ConfirmationRequired) <==> Prunable(s, hash, times, now, retentionDays)))
  {
    PruneSucceeds(s, hash, times, digests, now, retentionDays);
    SortErrors(s.manifests, times, now - retentionDays * DAY, now + FIVE_MINUTES);
    if s.latest.Some? && ValidManifest(s.latest.value) {
      VerifyErrors(s.objects, hash, Validated(s.latest.value).value);
    }
  }

  /** The store after an undisturbed backup of its directory. */
  ghost function AfterBackup(s: State, hash: Data -> string, names: seq<string>, maxBytes: int, now: int): State
    requires forall n :: n in names ==> n in s.source
  {
    ApplyAll(s, BackupPlan(s, hash, Scan(s.source, names, hash, maxBytes).0, 0, false, now).ops)
  }

  lemma BackupLeaves(s: State, hash: Data -> string, names: seq<string>, maxBytes: int, now: int)
    requires Backed(s, hash) && CollisionFree(s, hash) && (forall n :: n in names ==> n in s.source)
    requires Scan(s.source, names, hash, maxBytes).1 == 0
    ensures var s', m := AfterBackup(s, hash, names, maxBytes, now), Written(Scan(s.source, names, hash, maxBytes).0);
            Backed(s', hash) && Lookup(s', None) == Some(m) && Lookup(s', Some(now)) == Some(m)
  {
    var files := Scan(s.source, names, hash, maxBytes).0;
    var plan := BackupPlan(s, hash, files, 0, false, now);
    FreshBackupCompletes(s, hash, names, maxBytes, now);
    BackupWrites(s, hash, files, 0, false, now, |plan.ops|);
    BackupIsSafe(s, hash, files, 0, false, now);
    PrefixKeepsBacked(s, hash, plan.ops, |plan.ops|);
    assert plan.ops[..|plan.ops|] == plan.ops;
  }

  /** No prune gets past its scan, whatever the order of the manifests, the time and the retention. */
  ghost predicate PruneIsRefused(s: State, hash: Data -> string) {
    forall times: seq<int>, digests: seq<string>, now: int, days: int ::
      (forall t :: t in times ==> t in s.manifests) ==> PruneScan(s, hash, times, digests, now, days).Err?
  }

  /** The backup of any directory without refused videos completes; it can be restored exactly when every video's name
      ends in lower-case `.mp4`, and otherwise the store cannot be pruned either. */
  lemma BackupIsOfUse(s: State, hash: Data -> string, names: seq<string>, maxBytes: int, now: int, which: Option<int>)
    requires Backed(s, hash) && CollisionFree(s, hash) && (forall d :: IsDigest(hash(d)))
    requires (forall n :: n in names ==> n in s.source) && Distinct(names)
             && Scan(s.source, names, hash, maxBytes).1 == 0
    requires which == None || which == Some(now)
    ensures var files := Scan(s.source, names, hash, maxBytes).0;
            var s' := AfterBackup(s, hash, names, maxBytes, now);
            var plain := forall i :: 0 <= i < |files| ==> IsPlainMp4(files[i].name);
            && BackupPlan(s, hash, files, 0, false, now).error == None
            && (RestorePlan(s', hash, which, true, true).error == None <==> plain)
            && (!plain ==> PruneIsRefused(s', hash))
  {
    var files := Scan(s.source, names, hash, maxBytes).0;
    var s' := AfterBackup(s, hash, names, maxBytes, now);
    FreshBackupCompletes(s, hash, names, maxBytes, now);
    BackupLeaves(s, hash, names, maxBytes, now);
    OwnManifestIsValid(s.source, names, hash, maxBytes, files);
    RestoreSucceeds(s', hash, which, Written(files), "");
    forall times: seq<int>, digests, later, days {:trigger PruneScan(s', hash, times, digests, later, days)}
      | forall t :: t in times ==> t in s'.manifests
      ensures PruneScan(s', hash, times, digests, later, days).Ok? ==> ValidManifest(Written(files))
    {
      PruneSucceeds(s', hash, times, digests, later, days);
    }
  }

  /** A directory whose one video is named `ABC.MP4`: over any backed store the backup completes, and then neither a
      restore nor a prune gets past the manifest check. */
  lemma UpperCaseSuffixBlocksRestore(s: State, hash: Data -> string, data: Data, maxBytes: int, now: int)
    requires Backed(s, hash) && CollisionFree(s, hash)
    requires s.source == map["ABC.MP4" := data] && Accepted("ABC.MP4", data, maxBytes)
    ensures Scan(s.source, ["ABC.MP4"], hash, maxBytes) == ([Entry("ABC.MP4", |data|, hash(data))], 0)
    ensures BackupPlan(s, hash, [Entry("ABC.MP4", |data|, hash(data))], 0, false, now).error == None
    ensures var s' := AfterBackup(s, hash, ["ABC.MP4"], maxBytes, now);
            && RestorePlan(s', hash, Some(now), true, true) == Plan([], Some(ManifestEntryInvalid))
            && RestorePlan(s', hash, None, true, true) == Plan([], Some(ManifestEntryInvalid))
            && PruneIsRefused(s', hash)
  {
    OneIsScanned("ABC.MP4", hash, data, maxBytes);
    var s' := AfterBackup(s, hash, ["ABC.MP4"], maxBytes, now);
    FreshBackupCompletes(s, hash, ["ABC.MP4"], maxBytes, now);
    BackupLeaves(s, hash, ["ABC.MP4"], maxBytes, now);
    UpperCaseIsInvalid(Entry("ABC.MP4", |data|, hash(data)));
    forall times: seq<int>, digests, later, days | forall t :: t in times ==> t in s'.manifests
      ensures PruneScan(s', hash, times, digests, later, days).Err?
    {
      PruneSucceeds(s', hash, times, digests, later, days);
    }
  }

  lemma OneIsScanned(name: string, hash: Data -> string, data: Data, maxBytes: int)
    requires IsMp4(name) && Accepted(name, data, maxBytes)
    ensures Scan(map[name := data], [name], hash, maxBytes) == ([Entry(name, |data|, hash(data))], 0)
  {
    var source: map<string, Data> := map[name := data];
    assert Scan(source, [name][..0], hash, maxBytes) == ([], 0);
    var files: seq<Entry> := Scan(source, [name], hash, maxBytes).0;
    assert files == [Entry(name, |data|, hash(data))];
  }

  lemma UpperCaseIsInvalid(e: Entry)
    requires e.name == "ABC.MP4"
    ensures !ValidManifest(Written([e]))
  {
    var m := Written([e]);
    assert e.name[|e.name| - 4..] == ['.', 'M', 'P', '4'] && !IsPlainMp4(e.name);
    assert m[0] == RawOf(e) && !ValidEntry(m[0]);
  }
}
