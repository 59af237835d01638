/** The backup, prune and restore commands as sequences of atomic file steps that may stop after any of them. */
module BackupCommands {
  import opened Wrappers
  import opened VideoBackups

  // ---- File steps ----------------------------------------------------------------------------

  datatype FileOp =
    | PutObject(digest: string, data: Data)
    | PutManifest(time: int, manifest: Manifest)
    | PutLatest(manifest: Manifest)
    | RemoveManifest(time: int)
    | RemoveObject(digest: string)
    | PutSource(name: string, data: Data)

  function Apply(s: State, op: FileOp): State {
    match op
    case PutObject(d, data) => s.(objects := s.objects[d := data])
    case PutManifest(t, m) => s.(manifests := s.manifests[t := m])
    case PutLatest(m) => s.(latest := Some(m))
    case RemoveManifest(t) => s.(manifests := s.manifests - {t})
    case RemoveObject(d) => s.(objects := s.objects - {d})
    case PutSource(n, data) => s.(source := s.source[n := data])
  }

  function ApplyAll(s: State, ops: seq<FileOp>): State {
    if ops == [] then s else Apply(ApplyAll(s, ops[..|ops| - 1]), ops[|ops| - 1])
  }

  /** The file steps a command takes when nothing stops it, and the error it then ends with, if any. */
  datatype Plan = Plan(ops: seq<FileOp>, error: Option<Error>)

  datatype Outcome = Done | Failed(error: Error) | Stopped

  /** The state when a command is stopped after `budget` file steps, or ended before. */
  function After(s: State, plan: Plan, budget: nat): State {
    ApplyAll(s, if budget < |plan.ops| then plan.ops[..budget] else plan.ops)
  }

  function OutcomeOf(plan: Plan, budget: nat): Outcome {
    if budget < |plan.ops| then Stopped
    else if plan.error.Some? then Failed(plan.error.value)
    else Done
  }

  // ---- Copying and restoring entry by entry --------------------------------------------------

  predicate Matches(hash: Data -> string, e: Entry, data: Data) {
    |data| == e.size && hash(data) == e.digest
  }

  /** What copying one object does: an object already there is checked and kept. */
  function CopyStep(hash: Data -> string, s: State, e: Entry): Result<Option<FileOp>, Error> {
    if e.digest in s.objects then
      if Matches(hash, e, s.objects[e.digest]) then Ok(None) else Err(ObjectHashMismatch)
    else if e.name !in s.source then Err(SourceUnreadable)
    else if !Matches(hash, e, s.source[e.name]) then Err(CopyVerificationFailed)
    else Ok(Some(PutObject(e.digest, s.source[e.name])))
  }

  /** What restoring one file does. */
  function RestoreStep(hash: Data -> string, s: State, e: Entry): Result<Option<FileOp>, Error> {
    if e.digest !in s.objects then Err(ObjectMissing)
    else if !Matches(hash, e, s.objects[e.digest]) then Err(CopyVerificationFailed)
    else Ok(Some(PutSource(e.name, s.objects[e.digest])))
  }

  type Stepper = (State, Entry) -> Result<Option<FileOp>, Error>

  function Copier(hash: Data -> string): Stepper {
    (s: State, e: Entry) => CopyStep(hash, s, e)
  }

  function Restorer(hash: Data -> string): Stepper {
    (s: State, e: Entry) => RestoreStep(hash, s, e)
  }

  /** The steps for all entries in order, up to the first error. */
  function Each(s: State, files: seq<Entry>, step: Stepper): Plan {
    if files == [] then Plan([], None)
    else
      var n := |files| - 1;
      var before := Each(s, files[..n], step);
      if before.error.Some? then before
      else match step(ApplyAll(s, before.ops), files[n])
           case Err(e) => Plan(before.ops, Some(e))
           case Ok(None) => before
           case Ok(Some(op)) => Plan(before.ops + [op], None)
  }

  /** The first listed object that is missing or differs. */
  function VerifyObjects(objects: map<string, Data>, hash: Data -> string, files: seq<Entry>): Option<Error> {
    if files == [] then None
    else
      var n := |files| - 1;
      var before := VerifyObjects(objects, hash, files[..n]);
      if before.Some? then before
      else if files[n].digest !in objects then Some(ObjectMissing)
      else if !Matches(hash, files[n], objects[files[n].digest]) then Some(ObjectHashMismatch)
      else None
  }

  // ---- The commands --------------------------------------------------------------------------

  /** Backing up a finished scan: copy the objects, then write the dated manifest, then `latest.json`. */
  function BackupPlan(s: State, hash: Data -> string, files: seq<Entry>, invalid: nat, diskCritical: bool,
                      now: int): Plan {
    if invalid > 0 then Plan([], Some(SourceInvalid))
    else if diskCritical then Plan([], Some(DiskCritical))
    else
      var copied := Each(s, files, Copier(hash));
      if copied.error.Some? then copied
      else Plan(copied.ops + [PutManifest(now, Written(files)), PutLatest(Written(files))], None)
  }

  /** The manifest of a time, or the latest one. */
  function Lookup(s: State, which: Option<int>): Option<Manifest> {
    match which
    case None => s.latest
    case Some(t) => if t in s.manifests then Some(s.manifests[t]) else None
  }

  function RestorePlan(s: State, hash: Data -> string, which: Option<int>, apply: bool, confirmed: bool): Plan {
    var manifest := Lookup(s, which);
    if manifest == None then Plan([], Some(ManifestNotFound)) else
    var files := Validated(manifest.value);
    if files == None then Plan([], Some(ManifestEntryInvalid)) else
    var broken := VerifyObjects(s.objects, hash, files.value);
    if broken.Some? then Plan([], broken)
    else if !apply then Plan([], None)
    else if !confirmed then Plan([], Some(ConfirmationRequired))
    else Each(s, files.value, Restorer(hash))
  }

  /** The entry's object is present with its size and hash. */
  ghost predicate Stored(objects: map<string, Data>, hash: Data -> string, r: RawEntry) {
    && r.digest.Some? && r.size.Some? && r.digest.value in objects
    && |objects[r.digest.value]| == r.size.value && hash(objects[r.digest.value]) == r.digest.value
  }

  ghost predicate AllStored(objects: map<string, Data>, hash: Data -> string, m: Manifest) {
    forall i :: 0 <= i < |m| ==> Stored(objects, hash, m[i])
  }

  /** The manifest that a restore names is there and valid, and each listed object is stored with its size and hash. */
  ghost predicate Restorable(s: State, hash: Data -> string, which: Option<int>) {
    match which
    case None => s.latest.Some? && ValidManifest(s.latest.value) && AllStored(s.objects, hash, s.latest.value)
    case Some(t) => t in s.manifests && ValidManifest(s.manifests[t]) && AllStored(s.objects, hash, s.manifests[t])
  }

  const DAY: int := 86_400_000_000
  const FIVE_MINUTES: int := 300_000_000

  function Digests(files: seq<Entry>): set<string> {
    set e | e in files :: e.digest
  }

  /** The manifests in order: those older than the cutoff, and the digests that the others list. */
  datatype Sorting = Sorting(expired: seq<int>, referenced: set<string>, error: Option<Error>)

  function SortManifests(manifests: map<int, Manifest>, times: seq<int>, cutoff: int, limit: int): Sorting
    requires forall t :: t in times ==> t in manifests
    decreases |times|
  {
    if times == [] then Sorting([], {}, None)
    else
      var t := times[|times| - 1];
      var before := SortManifests(manifests, times[..|times| - 1], cutoff, limit);
      if before.error.Some? then before
      else if t > limit then before.(error := Some(TimestampFuture))
      else
        var files := Validated(manifests[t]);
        if files == None then before.(error := Some(ManifestEntryInvalid))
        else if t < cutoff then before.(expired := before.expired + [t])
        else before.(referenced := before.referenced + Digests(files.value))
  }

  function Unreferenced(digests: seq<string>, referenced: set<string>): seq<string> {
    if digests == [] then []
    else
      var n := |digests| - 1;
      Unreferenced(digests[..n], referenced) + if digests[n] in referenced then [] else [digests[n]]
  }

  function Removals(times: seq<int>, digests: seq<string>): seq<FileOp> {
    seq(|times|, i requires 0 <= i < |times| => RemoveManifest(times[i]))
    + seq(|digests|, i requires 0 <= i < |digests| => RemoveObject(digests[i]))
  }

  /** What a prune would remove: the expired manifests, then the objects that no other manifest lists. `times` and
      `digests` are the two directory listings. */
  function PruneScan(s: State, hash: Data -> string, times: seq<int>, digests: seq<string>, now: int,
                     retentionDays: int)
    : Result<(seq<int>, seq<string>), Error>
    requires forall t :: t in times ==> t in s.manifests
  {
    if retentionDays < 1 || retentionDays > 3650 then Err(RetentionInvalid)
    else if s.latest == None then Err(ManifestNotFound) else
    var latest := Validated(s.latest.value);
    if latest == None then Err(ManifestEntryInvalid) else
    var broken := VerifyObjects(s.objects, hash, latest.value);
    if broken.Some? then Err(broken.value) else
    var sorted := SortManifests(s.manifests, times, now - retentionDays * DAY, now + FIVE_MINUTES);
    if sorted.error.Some? then Err(sorted.error.value)
    else Ok((sorted.expired, Unreferenced(digests, Digests(latest.value) + sorted.referenced)))
  }

  function PrunePlan(s: State, hash: Data -> string, times: seq<int>, digests: seq<string>, now: int,
                     retentionDays: int, apply: bool, confirmed: bool): Plan
    requires forall t :: t in times ==> t in s.manifests
  {
    match PruneScan(s, hash, times, digests, now, retentionDays)
    case Err(e) => Plan([], Some(e))
    case Ok((expired, unused)) =>
      if !apply then Plan([], None)
      else if !confirmed then Plan([], Some(ConfirmationRequired))
      else Plan(Removals(expired, unused), None)
  }

  lemma {:induction false} VerifyIsExact(objects: map<string, Data>, hash: Data -> string, files: seq<Entry>)
    ensures VerifyObjects(objects, hash, files) == None <==>
              forall i :: 0 <= i < |files| ==>
                files[i].digest in objects && Matches(hash, files[i], objects[files[i].digest])
    decreases |files|
  {
    if files != [] {
      var n := |files| - 1;
      assert forall i :: 0 <= i < n ==> files[..n][i] == files[i];
      VerifyIsExact(objects, hash, files[..n]);
    }
  }

  lemma ValidStored(objects: map<string, Data>, hash: Data -> string, m: Manifest)
    requires ValidManifest(m)
    ensures VerifyObjects(objects, hash, Validated(m).value) == None <==> AllStored(objects, hash, m)
  {
    var files := Validated(m).value;
    VerifyIsExact(objects, hash, files);
    forall i | 0 <= i < |m|
      ensures Stored(objects, hash, m[i]) <==>
                files[i].digest in objects && Matches(hash, files[i], objects[files[i].digest])
    {
    }
  }

  // ---- Prefixes ------------------------------------------------------------------------------

  /** `b` goes on where `a` ended, and stops where `a` stopped with an error. */
  ghost predicate Extends(a: Plan, b: Plan) {
    a.ops <= b.ops && (a.error.Some? ==> b == a)
  }

  lemma EachGrows(s: State, files: seq<Entry>, step: Stepper)
    requires files != []
    ensures Extends(Each(s, files[..|files| - 1], step), Each(s, files, step))
  {
  }

  lemma ExtendsFurther(a: Plan, b: Plan, c: Plan)
    requires Extends(a, b) && Extends(b, c)
    ensures Extends(a, c)
  {
  }

  lemma {:induction false} EachPrefix(s: State, files: seq<Entry>, step: Stepper, n: nat)
    requires n <= |files|
    ensures Extends(Each(s, files[..n], step), Each(s, files, step))
    decreases |files|
  {
    if n < |files| {
      var last := |files| - 1;
      assert files[..last][..n] == files[..n];
      EachPrefix(s, files[..last], step, n);
      EachGrows(s, files, step);
      ExtendsFurther(Each(s, files[..n], step), Each(s, files[..last], step), Each(s, files, step));
    } else {
      assert files[..n] == files;
    }
  }

  lemma ApplyOneMore(s: State, ops: seq<FileOp>, op: FileOp)
    ensures ApplyAll(s, ops + [op]) == Apply(ApplyAll(s, ops), op)
  {
    assert (ops + [op])[..|ops|] == ops;
  }

  /** A step of an earlier entry stops every later one: its plan is where the whole plan stops. */
  lemma EachStops(s: State, files: seq<Entry>, step: Stepper, n: nat, done: seq<FileOp>, op: FileOp)
    requires n < |files| && Each(s, files[..n], step) == Plan(done, None)
    requires step(ApplyAll(s, done), files[n]) == Ok(Some(op))
    ensures Each(s, files[..n + 1], step) == Plan(done + [op], None)
    ensures |done| < |Each(s, files, step).ops| && Each(s, files, step).ops[..|done|] == done
  {
    assert files[..n + 1][..n] == files[..n];
    EachPrefix(s, files, step, n + 1);
    EachPrefix(s, files, step, n);
  }

  lemma EachFails(s: State, files: seq<Entry>, step: Stepper, n: nat, done: seq<FileOp>, e: Error)
    requires n < |files| && Each(s, files[..n], step) == Plan(done, None)
    requires step(ApplyAll(s, done), files[n]) == Err(e)
    ensures Each(s, files, step) == Plan(done, Some(e))
  {
    assert files[..n + 1][..n] == files[..n];
    EachPrefix(s, files, step, n + 1);
  }

  lemma EachSkips(s: State, files: seq<Entry>, step: Stepper, n: nat, done: seq<FileOp>)
    requires n < |files| && Each(s, files[..n], step) == Plan(done, None)
    requires step(ApplyAll(s, done), files[n]) == Ok(None)
    ensures Each(s, files[..n + 1], step) == Plan(done, None)
  {
    assert files[..n + 1][..n] == files[..n];
  }

  lemma {:induction false} VerifyPrefix(objects: map<string, Data>, hash: Data -> string, files: seq<Entry>, n: nat)
    requires n <= |files| && VerifyObjects(objects, hash, files[..n]).Some?
    ensures VerifyObjects(objects, hash, files) == VerifyObjects(objects, hash, files[..n])
    decreases |files|
  {
    if n < |files| {
      var last := |files| - 1;
      assert files[..last][..n] == files[..n];
      VerifyPrefix(objects, hash, files[..last], n);
    } else {
      assert files[..n] == files;
    }
  }

  lemma {:induction false} SortPrefix(manifests: map<int, Manifest>, times: seq<int>, cutoff: int, limit: int, n: nat)
    requires n <= |times| && (forall t :: t in times ==> t in manifests)
    requires SortManifests(manifests, times[..n], cutoff, limit).error.Some?
    ensures SortManifests(manifests, times, cutoff, limit) == SortManifests(manifests, times[..n], cutoff, limit)
    decreases |times|
  {
    if n < |times| {
      var last := |times| - 1;
      assert times[..last][..n] == times[..n];
      SortPrefix(manifests, times[..last], cutoff, limit, n);
    } else {
      assert times[..n] == times;
    }
  }

  // ---- The tool over mutable directories -----------------------------------------------------

  class BackupRoot {
    const hash: Data -> string
    var objects: map<string, Data>
    var manifests: map<int, Manifest>
    var latest: Option<Manifest>
    var source: map<string, Data>

    ghost function Value(): State
      reads this
    {
      State(objects, manifests, latest, source)
    }

    constructor (hash: Data -> string, source: map<string, Data>)
      ensures Value() == State(map[], map[], None, source) && this.hash == hash
    {
      this.hash, this.source := hash, source;
      objects, manifests, latest := map[], map[], None;
    }

    /** Copies one object unless it is there. `running` says whether the process is still alive at the replace. */
    method CopyObject(e: Entry, running: bool) returns (r: Outcome, copied: bool)
      modifies this`objects
      ensures r == if e.digest in old(objects) then
                     if |old(objects)[e.digest]| == e.size && hash(old(objects)[e.digest]) == e.digest then Done
                     else Failed(ObjectHashMismatch)
                   else if e.name !in source then Failed(SourceUnreadable)
                   else if |source[e.name]| != e.size || hash(source[e.name]) != e.digest
                   then Failed(CopyVerificationFailed)
                   else if running then Done else Stopped
      ensures copied <==> r == Done && e.digest !in old(objects)
      ensures copied ==> objects == old(objects)[e.digest := source[e.name]]
      ensures !copied ==> objects == old(objects)
      ensures match CopyStep(hash, old(Value()), e)
              case Err(err) => r == Failed(err) && Value() == old(Value())
              case Ok(None) => r == Done && !copied && Value() == old(Value())
              case Ok(Some(op)) =>
                if running then r == Done && copied && Value() == Apply(old(Value()), op)
                else r == Stopped && Value() == old(Value())
    {
      copied := false;
      if e.digest in objects {
        r := if Matches(hash, e, objects[e.digest]) then Done else Failed(ObjectHashMismatch);
      } else if e.name !in source {
        r := Failed(SourceUnreadable);
      } else if !Matches(hash, e, source[e.name]) {
        r := Failed(CopyVerificationFailed);
      } else if !running {
        r := Stopped;
      } else {
        objects := objects[e.digest := source[e.name]];
        r, copied := Done, true;
      }
    }

    method CopyObjects(files: seq<Entry>, budget: nat) returns (r: Outcome, used: nat)
      modifies this`objects
      ensures var plan := Each(old(Value()), files, Copier(hash));
              && Value() == After(old(Value()), plan, budget) && r == OutcomeOf(plan, budget)
              && (r == Done ==> used == |plan.ops|)
    {
      used := 0;
      ghost var done: seq<FileOp> := [];
      for i := 0 to |files|
        invariant Each(old(Value()), files[..i], Copier(hash)) == Plan(done, None)
        invariant Value() == ApplyAll(old(Value()), done) && |done| == used <= budget
      {
        ghost var before, step := Value(), CopyStep(hash, Value(), files[i]);
        var outcome, copied := CopyObject(files[i], used < budget);
        match step {
          case Err(e) => EachFails(old(Value()), files, Copier(hash), i, done, e);
          case Ok(None) => EachSkips(old(Value()), files, Copier(hash), i, done);
          case Ok(Some(op)) => EachStops(old(Value()), files, Copier(hash), i, done, op);
        }
        if outcome != Done {
          return outcome, used;
        }
        if copied {
          ApplyOneMore(old(Value()), done, step.value.value);
          used, done := used + 1, done + [step.value.value];
        }
      }
      assert files[..|files|] == files;
      r := Done;
    }

    /** The backup command from its copy loop on; `files` and `invalid` are its finished scan. */
    method Backup(files: seq<Entry>, invalid: nat, diskCritical: bool, now: int, budget: nat) returns (r: Outcome)
      modifies this`objects, this`manifests, this`latest
      ensures invalid > 0 || diskCritical ==>
                Value() == old(Value()) && r == Failed(if invalid > 0 then SourceInvalid else DiskCritical)
      ensures var plan := BackupPlan(old(Value()), hash, files, invalid, diskCritical, now);
              Value() == After(old(Value()), plan, budget) && r == OutcomeOf(plan, budget)
    {
      if invalid > 0 {
        return Failed(SourceInvalid);
      }
      if diskCritical {
        return Failed(DiskCritical);
      }
      ghost var copies := Each(old(Value()), files, Copier(hash));
      ghost var first, second := PutManifest(now, Written(files)), PutLatest(Written(files));
      var used;
      r, used := CopyObjects(files, budget);
      if r != Done {
        BackupStopsCopying(old(Value()), copies.ops, first, second, budget);
        return;
      }
      BackupFinishes(old(Value()), copies.ops, first, second);
      if used == budget {
        return Stopped;
      }
      manifests := manifests[now := Written(files)];
      if used + 1 == budget {
        return Stopped;
      }
      latest := Some(Written(files));
    }

    /** Checks the listed objects in order. */
    method CheckObjects(files: seq<Entry>) returns (r: Option<Error>)
      ensures r == VerifyObjects(objects, hash, files)
      ensures r.Some? ==> r.value == ObjectMissing || r.value == ObjectHashMismatch
    {
      for i := 0 to |files|
        invariant VerifyObjects(objects, hash, files[..i]) == None
      {
        assert files[..i + 1][..i] == files[..i];
        if files[i].digest !in objects || !Matches(hash, files[i], objects[files[i].digest]) {
          VerifyPrefix(objects, hash, files, i + 1);
          return Some(if files[i].digest !in objects then ObjectMissing else ObjectHashMismatch);
        }
      }
      assert files[..|files|] == files;
      r := None;
    }

    /** Restores one file: the copy is checked before it replaces the destination. */
    method RestoreFile(e: Entry, running: bool) returns (r: Outcome)
      modifies this`source
      ensures r == if e.digest !in objects then Failed(ObjectMissing)
                   else if |objects[e.digest]| != e.size || hash(objects[e.digest]) != e.digest
                   then Failed(CopyVerificationFailed)
                   else if running then Done else Stopped
      ensures source == if r == Done then old(source)[e.name := objects[e.digest]] else old(source)
      ensures match RestoreStep(hash, old(Value()), e)
              case Err(err) => r == Failed(err) && Value() == old(Value())
              case Ok(None) => false
              case Ok(Some(op)) =>
                if running then r == Done && Value() == Apply(old(Value()), op)
                else r == Stopped && Value() == old(Value())
    {
      if e.digest !in objects {
        r := Failed(ObjectMissing);
      } else if !Matches(hash, e, objects[e.digest]) {
        r := Failed(CopyVerificationFailed);
      } else if !running {
        r := Stopped;
      } else {
        source := source[e.name := objects[e.digest]];
        r := Done;
      }
    }

    method RestoreFiles(files: seq<Entry>, budget: nat) returns (r: Outcome)
      modifies this`source
      ensures var plan := Each(old(Value()), files, Restorer(hash));
              Value() == After(old(Value()), plan, budget) && r == OutcomeOf(plan, budget)
    {
      var used := 0;
      ghost var done: seq<FileOp> := [];
      for i := 0 to |files|
        invariant Each(old(Value()), files[..i], Restorer(hash)) == Plan(done, None)
        invariant Value() == ApplyAll(old(Value()), done) && |done| == used <= budget
      {
        ghost var step := RestoreStep(hash, Value(), files[i]);
        var outcome := RestoreFile(files[i], used < budget);
        match step {
          case Err(e) => EachFails(old(Value()), files, Restorer(hash), i, done, e);
          case Ok(o) => EachStops(old(Value()), files, Restorer(hash), i, done, o.value);
        }
        if outcome != Done {
          return outcome;
        }
        ApplyOneMore(old(Value()), done, step.value.value);
        used, done := used + 1, done + [step.value.value];
      }
      assert files[..|files|] == files;
      r := Done;
    }

    /** Reads the manifest, checks its entries and verifies its objects: what the verify command does, and what a
        restore starts with. */
    method VerifyManifest(which: Option<int>) returns (r: Result<seq<Entry>, Error>)
      ensures r.Ok? <==> Restorable(Value(), hash, which)
      ensures r == Err(ManifestNotFound) <==> match which case None => latest == None case Some(t) => t !in manifests
      ensures r.Err? ==> r.error != ConfirmationRequired
      ensures forall apply, confirmed ::
                RestorePlan(Value(), hash, which, apply, confirmed) ==
                match r
                case Err(e) => Plan([], Some(e))
                case Ok(files) =>
                  if !apply then Plan([], None)
                  else if !confirmed then Plan([], Some(ConfirmationRequired))
                  else Each(Value(), files, Restorer(hash))
    {
      var manifest := match which {
        case None => latest
        case Some(t) => if t in manifests then Some(manifests[t]) else None
      };
      if manifest == None {
        return Err(ManifestNotFound);
      }
      var files := ValidateManifestFiles(manifest.value);
      if files == None {
        return Err(ManifestEntryInvalid);
      }
      ValidStored(objects, hash, manifest.value);
      var broken := CheckObjects(files.value);
      if broken.Some? {
        return Err(broken.value);
      }
      return Ok(files.value);
    }

    /** The restore command. Without `apply` it only reports whether the manifest and its objects are there and intact;
        with it, nothing is written before the confirmation. */
    method Restore(which: Option<int>, apply: bool, confirmed: bool, budget: nat) returns (r: Outcome)
      modifies this`source
      ensures !apply || !confirmed ==> source == old(source)
      ensures !apply ==> (r == Done <==> Restorable(old(Value()), hash, which))
      ensures apply && !confirmed ==> (r == Failed(ConfirmationRequired) <==> Restorable(old(Value()), hash, which))
      ensures !Restorable(old(Value()), hash, which) ==>
                source == old(source) && r.Failed? && r.error != ConfirmationRequired
      ensures var plan := RestorePlan(old(Value()), hash, which, apply, confirmed);
              Value() == After(old(Value()), plan, budget) && r == OutcomeOf(plan, budget)
    {
      var files := VerifyManifest(which);
      if files.Err? {
        return Failed(files.error);
      }
      if !apply {
        return Done;
      }
      if !confirmed {
        return Failed(ConfirmationRequired);
      }
      r := RestoreFiles(files.value, budget);
    }

    /** Sorts the listed manifests into expired ones and ones whose digests stay referenced. */
    method SortListed(times: seq<int>, cutoff: int, limit: int) returns (r: Sorting)
      requires forall t :: t in times ==> t in manifests
      ensures r == SortManifests(manifests, times, cutoff, limit)
    {
      r := Sorting([], {}, None);
      for i := 0 to |times|
        invariant r.error == None && r == SortManifests(manifests, times[..i], cutoff, limit)
      {
        assert times[..i + 1][..i] == times[..i];
        var t := times[i];
        var files := ValidateManifestFiles(manifests[t]);
        if t > limit || files == None {
          SortPrefix(manifests, times, cutoff, limit, i + 1);
          return r.(error := Some(if t > limit then TimestampFuture else ManifestEntryInvalid));
        }
        if t < cutoff {
          r := r.(expired := r.expired + [t]);
        } else {
          r := r.(referenced := r.referenced + Digests(files.value));
        }
      }
      assert times[..|times|] == times;
    }

    method UnreferencedObjects(digests: seq<string>, referenced: set<string>) returns (unused: seq<string>)
      ensures unused == Unreferenced(digests, referenced)
    {
      unused := [];
      for i := 0 to |digests|
        invariant unused == Unreferenced(digests[..i], referenced)
      {
        assert digests[..i + 1][..i] == digests[..i];
        if digests[i] !in referenced {
          unused := unused + [digests[i]];
        }
      }
      assert digests[..|digests|] == digests;
    }

    /** Removes the expired manifests one by one. */
    method RemoveManifests(expired: seq<int>, ghost unused: seq<string>, budget: nat) returns (used: nat)
      modifies this`manifests
      ensures used <= |expired| && used <= budget && (used < budget ==> used == |expired|)
      ensures |Removals(expired, unused)| == |expired| + |unused|
      ensures Value() == Reached(old(Value()), Removals(expired, unused), used)
    {
      RemovalsLength(expired, unused);
      used := 0;
      while used < |expired| && used < budget
        invariant used <= |expired| && used <= budget
        invariant Value() == Reached(old(Value()), Removals(expired, unused), used)
      {
        RemovesManifest(old(Value()), expired, unused, used);
        manifests := manifests - {expired[used]};
        used := used + 1;
      }
    }

    /** Removes the unused objects one by one, after the expired manifests of the state `s`. */
    method RemoveObjects(ghost s: State, ghost expired: seq<int>, unused: seq<string>, budget: nat) returns (used: nat)
      requires |Removals(expired, unused)| == |expired| + |unused|
      requires Value() == Reached(s, Removals(expired, unused), |expired|)
      modifies this`objects
      ensures used <= |unused| && used <= budget && (used < budget ==> used == |unused|)
      ensures Value() == Reached(s, Removals(expired, unused), |expired| + used)
    {
      used := 0;
      while used < |unused| && used < budget
        invariant used <= |unused| && used <= budget
        invariant Value() == Reached(s, Removals(expired, unused), |expired| + used)
      {
        RemovesObject(s, expired, unused, used);
        objects := objects - {unused[used]};
        used := used + 1;
      }
    }

    /** Removes the expired manifests, then the unused objects. */
    method RemoveAll(expired: seq<int>, unused: seq<string>, budget: nat) returns (r: Outcome)
      modifies this`objects, this`manifests
      ensures var plan := Plan(Removals(expired, unused), None);
              Value() == After(old(Value()), plan, budget) && r == OutcomeOf(plan, budget)
    {
      ghost var s, ops := Value(), Removals(expired, unused);
      var first := RemoveManifests(expired, unused, budget);
      if first < |expired| {
        StopsThere(s, ops, budget);
        return Stopped;
      }
      var second := RemoveObjects(s, expired, unused, budget - first);
      if second < |unused| {
        StopsThere(s, ops, budget);
        return Stopped;
      }
      ReachesEnd(s, ops, budget);
      r := Done;
    }

    /** The prune command; `times` and `digests` are the listings of its two directories. */
    method Prune(times: seq<int>, digests: seq<string>, now: int, retentionDays: int, apply: bool, confirmed: bool,
                 budget: nat)
      returns (r: Outcome)
      requires forall t :: t in times ==> t in manifests
      modifies this`objects, this`manifests
      ensures !apply || !confirmed ==> objects == old(objects) && manifests == old(manifests)
      ensures var plan := PrunePlan(old(Value()), hash, times, digests, now, retentionDays, apply, confirmed);
              Value() == After(old(Value()), plan, budget) && r == OutcomeOf(plan, budget)
    {
      if retentionDays < 1 || retentionDays > 3650 {
        return Failed(RetentionInvalid);
      }
      if latest == None {
        return Failed(ManifestNotFound);
      }
      var files := ValidateManifestFiles(latest.value);
      if files == None {
        return Failed(ManifestEntryInvalid);
      }
      var broken := CheckObjects(files.value);
      if broken.Some? {
        return Failed(broken.value);
      }
      var sorted := SortListed(times, now - retentionDays * DAY, now + FIVE_MINUTES);
      if sorted.error.Some? {
        return Failed(sorted.error.value);
      }
      var unused := UnreferencedObjects(digests, Digests(files.value) + sorted.referenced);
      if !apply {
        return Done;
      }
      if !confirmed {
        return Failed(ConfirmationRequired);
      }
      r := RemoveAll(sorted.expired, unused, budget);
    }
  }

  lemma RemovalsLength(expired: seq<int>, unused: seq<string>)
    ensures |Removals(expired, unused)| == |expired| + |unused|
  {
  }

  /** The state after the first `k` file steps. */
  ghost function Reached(s: State, ops: seq<FileOp>, k: nat): State
    requires k <= |ops|
  {
    if k == 0 then s else Apply(Reached(s, ops, k - 1), ops[k - 1])
  }

  lemma {:induction false} ReachedIsApplied(s: State, ops: seq<FileOp>, k: nat)
    requires k <= |ops|
    ensures Reached(s, ops, k) == ApplyAll(s, ops[..k])
  {
    if k > 0 {
      ReachedIsApplied(s, ops, k - 1);
      ApplyNext(s, ops, k - 1);
    }
  }

  lemma StopsThere(s: State, ops: seq<FileOp>, budget: nat)
    requires budget < |ops|
    ensures After(s, Plan(ops, None), budget) == Reached(s, ops, budget)
    ensures OutcomeOf(Plan(ops, None), budget) == Stopped
  {
    ReachedIsApplied(s, ops, budget);
  }

  lemma ReachesEnd(s: State, ops: seq<FileOp>, budget: nat)
    requires |ops| <= budget
    ensures After(s, Plan(ops, None), budget) == Reached(s, ops, |ops|)
    ensures OutcomeOf(Plan(ops, None), budget) == Done
  {
    ReachedIsApplied(s, ops, |ops|);
    assert ops[..|ops|] == ops;
  }

  lemma RemovesManifest(s: State, expired: seq<int>, unused: seq<string>, k: nat)
    requires k < |expired| && |Removals(expired, unused)| == |expired| + |unused|
    ensures var ops := Removals(expired, unused);
            Reached(s, ops, k + 1) == Apply(Reached(s, ops, k), RemoveManifest(expired[k]))
  {
  }

  lemma RemovesObject(s: State, expired: seq<int>, unused: seq<string>, k: nat)
    requires k < |unused| && |Removals(expired, unused)| == |expired| + |unused|
    ensures var ops := Removals(expired, unused);
            Reached(s, ops, |expired| + k + 1) == Apply(Reached(s, ops, |expired| + k), RemoveObject(unused[k]))
  {
  }

  lemma ApplyNext(s: State, ops: seq<FileOp>, k: nat)
    requires k < |ops|
    ensures ApplyAll(s, ops[..k + 1]) == Apply(ApplyAll(s, ops[..k]), ops[k])
  {
    assert ops[..k + 1][..k] == ops[..k];
  }

  lemma BackupStopsCopying(s: State, copies: seq<FileOp>, first: FileOp, second: FileOp, budget: nat)
    ensures budget < |copies| ==> (copies + [first, second])[..budget] == copies[..budget]
  {
  }

  lemma BackupFinishes(s: State, copies: seq<FileOp>, first: FileOp, second: FileOp)
    ensures (copies + [first, second])[..|copies|] == copies
    ensures ApplyAll(s, (copies + [first, second])[..|copies| + 1]) == Apply(ApplyAll(s, copies), first)
    ensures ApplyAll(s, copies + [first, second]) == Apply(Apply(ApplyAll(s, copies), first), second)
  {
    assert (copies + [first, second])[..|copies| + 1] == copies + [first];
    assert copies + [first, second] == (copies + [first]) + [second];
    ApplyOneMore(s, copies, first);
    ApplyOneMore(s, copies + [first], second);
  }
}
