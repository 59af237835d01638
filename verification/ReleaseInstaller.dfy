/** Installing and rolling back releases as sequences of atomic file steps, stopped anywhere. Staging directories and
    temporary links are outside the model. */
module ReleaseInstaller {
  import opened ReleaseBundles
  import opened Wrappers

  type Hash = Data -> string

  /** The target root: its release directories, its stored manifests, and the releases its two links name. */
  datatype State = State(
    releases: map<string, Files>,
    manifests: map<string, Manifest>,
    current: Option<string>,
    previous: Option<string>)

  const EMPTY_ROOT: State := State(map[], map[], None, None)

  /** A bundle that has passed `VerifyBundle`. */
  datatype Bundle = Bundle(commit: string, manifest: Manifest, entries: Entries, files: Files)

  /** The states a command goes through, one per file step, and the error it ends with, if any. */
  datatype Trace = Trace(states: seq<State>, error: Option<Error>)

  function Begin(s: State): Trace {
    Trace([s], None)
  }

  function Then(t: Trace, s: State): Trace {
    Trace(t.states + [s], t.error)
  }

  function Fail(t: Trace, e: Error): Trace {
    t.(error := Some(e))
  }

  function Final(t: Trace): State
    requires t.states != []
  {
    t.states[|t.states| - 1]
  }

  predicate WebCopyOk(hash: Hash, files: Files, entries: Entries) {
    && IsTree(files)
    && (forall name | name in files :: Below(name) in entries && IsListed(hash, entries, Below(name), files[name]))
    && (forall full | full in entries :: WEB <= full ==> full[|WEB|..] in files)
  }

  /** The check accepts exactly the trees that hold the listed web files. */
  lemma WebCopyOkIsExact(hash: Hash, files: Files, entries: Entries)
    ensures WebCopyOk(hash, files, entries) <==> IsTree(files) && WebMatches(hash, files, entries)
  {
    forall name
      ensures WEB <= Below(name) && Below(name)[|WEB|..] == name && (WEB <= name ==> Below(name[|WEB|..]) == name)
    {
      BelowWeb(name);
    }
    if WebMatches(hash, files, entries) {
      forall full | full in entries && WEB <= full
        ensures full[|WEB|..] in files
      {
        BelowWeb(full);
        assert Below(full[|WEB|..]) in entries;
      }
    }
    if WebCopyOk(hash, files, entries) {
      forall name | Below(name) in entries
        ensures name in files
      {
        BelowWeb(name);
      }
    }
  }

  lemma TreesAreExact(files: Files)
    ensures IsTree(files) <==> |files| <= 50_000 && forall name :: name in files ==> MayBeListed(name)
  {
    forall name
      ensures IsSafeName(name) && !IsSecret(name) <==> MayBeListed(name)
    {
      NamesAreExact(name);
    }
  }

  /** Compares a web copy with the listed files, first its names and then each file. */
  method VerifyWebCopy(hash: Hash, files: Files, entries: Entries) returns (ok: bool)
    ensures ok <==> WebCopyOk(hash, files, entries)
    ensures ok <==> IsTree(files) && WebMatches(hash, files, entries)
    ensures ok <==> |files| <= 50_000 && (forall name :: name in files ==> MayBeListed(name))
                    && WebMatches(hash, files, entries)
  {
    WebCopyOkIsExact(hash, files, entries);
    TreesAreExact(files);
    if !IsTree(files) || (exists full | full in entries :: WEB <= full && full[|WEB|..] !in files) {
      return false;
    }
    var names := files.Keys;
    while names != {}
      invariant names <= files.Keys
      invariant forall name :: name in files && name !in names ==>
                  Below(name) in entries && IsListed(hash, entries, Below(name), files[name])
      decreases |names|
    {
      var name :| name in names;
      if Below(name) !in entries || !IsListed(hash, entries, Below(name), files[name]) {
        return false;
      }
      names := names - {name};
    }
    return true;
  }

  /** How a command checks a web copy and a stored manifest. */
  datatype Checks = Checks(web: (Files, Entries) -> bool, stored: (Manifest, string) -> Result<Entries, Error>)

  /** The tool's own checks. */
  function ChecksOf(hash: Hash): Checks {
    Checks((files, entries) => WebCopyOk(hash, files, entries), (m, commit) => Validated(m, Some(commit)))
  }

  /** The release directory: verified when it is there, else copied, verified and moved into place. */
  function InstallFiles(s: State, checks: Checks, b: Bundle, stagingExists: bool): Trace {
    if b.commit in s.releases then
      if checks.web(s.releases[b.commit], b.entries) then Begin(s) else Fail(Begin(s), WebCopyMismatch)
    else if stagingExists then Fail(Begin(s), StagingExists)
    else if !checks.web(WebPart(b.files), b.entries) then Fail(Begin(s), WebCopyMismatch)
    else Then(Begin(s), s.(releases := s.releases[b.commit := WebPart(b.files)]))
  }

  /** The stored manifest: equal when it is there, else written. */
  function StoreManifest(s: State, b: Bundle): Trace {
    if b.commit in s.manifests then
      if s.manifests[b.commit] == b.manifest then Begin(s) else Fail(Begin(s), StoredManifestMismatch)
    else Then(Begin(s), s.(manifests := s.manifests[b.commit := b.manifest]))
  }

  /** A link names an existing release. */
  predicate LinkOk(s: State, link: Option<string>) {
    link.Some? ==> link.value in s.releases && IsHex(link.value, 40)
  }

  /** The links: the old current release becomes the previous one, then the new one becomes current. */
  function SwitchLinks(s: State, commit: string): Trace {
    if !LinkOk(s, s.current) then Fail(Begin(s), LinkInvalid)
    else if s.current == Some(commit) then Begin(s)
    else
      var kept := if s.current.Some? then s.(previous := s.current) else s;
      var first := if s.current.Some? then Then(Begin(s), kept) else Begin(s);
      Then(first, kept.(current := Some(commit)))
  }

  /** One part of a command after another, unless the first failed. */
  function Chain(first: Trace, second: Trace): Trace
    requires first.states != [] && second.states != []
  {
    if first.error.Some? then first else Trace(first.states + second.states[1..], second.error)
  }

  /** What follows once the release directory is in place. */
  function PublishTrace(s: State, b: Bundle): (t: Trace)
    ensures t.states != [] && t.states[0] == s
  {
    var stored := StoreManifest(s, b);
    Chain(stored, SwitchLinks(Final(stored), b.commit))
  }

  function ApplyTrace(s: State, checks: Checks, b: Bundle, stagingExists: bool): (t: Trace)
    ensures t.states != [] && t.states[0] == s
  {
    var files := InstallFiles(s, checks, b, stagingExists);
    Chain(files, PublishTrace(Final(files), b))
  }

  /** Rolling back: the verified previous release becomes current, then the old current one previous. */
  function RollbackTrace(s: State, checks: Checks, expectedCurrent: string, expectedPrevious: string): Trace {
    if !LinkOk(s, s.current) || !LinkOk(s, s.previous) then Fail(Begin(s), LinkInvalid)
    else if s.current == None || s.previous == None then Fail(Begin(s), RollbackUnavailable)
    else if s.current == s.previous then Fail(Begin(s), RollbackTargetInvalid)
    else if s.current.value != ToLower(expectedCurrent) || s.previous.value != ToLower(expectedPrevious)
    then Fail(Begin(s), ConfirmationMismatch)
    else
      var target := s.previous.value;
      if target !in s.manifests then Fail(Begin(s), ManifestMissing) else
      var entries := checks.stored(s.manifests[target], target);
      if entries.Err? then Fail(Begin(s), entries.error)
      else if !checks.web(s.releases[target], entries.value) then Fail(Begin(s), WebCopyMismatch)
      else
        var switched := s.(current := s.previous);
        Then(Then(Begin(s), switched), switched.(previous := s.current))
  }

  // ---- Bundles -------------------------------------------------------------------------------

  /** The files against the checked entries: the exact file set, and every file's size and hash. */
  function CompareFiles(m: Manifest, files: Files, hash: Hash, entries: Result<Entries, Error>): Result<Bundle, Error>
    requires entries.Ok? ==> m.commit.Some?
  {
    if entries.Err? then Err(entries.error)
    else if files.Keys != entries.value.Keys then Err(FileSetMismatch)
    else if exists name | name in files :: !IsListed(hash, entries.value, name, files[name]) then Err(FileMismatch)
    else Ok(Bundle(m.commit.value, m, entries.value, files))
  }

  /** The bundle check: the manifest, the exact file set, and every file's size and hash. */
  function Verified(manifest: Option<Manifest>, files: Files, hash: Hash,
                    expected: Option<string>): Result<Bundle, Error> {
    if !IsBundleTree(manifest, files) then Err(TreeRefused)
    else if manifest == None then Err(ManifestMissing)
    else
      CompareFiles(manifest.value, files, hash, Validated(manifest.value, expected))
  }

  /** The files are exactly the listed ones, each with its size and hash. */
  ghost predicate HoldsExactly(hash: Hash, files: Files, entries: seq<RawEntry>) {
    && (forall name :: name in files <==> Names(entries, name))
    && forall i :: 0 <= i < |entries| && entries[i].path.Some? && entries[i].path.value in files ==>
         var data := files[entries[i].path.value];
         entries[i].size == Some(|data|) && entries[i].digest == Some(hash(data))
  }

  lemma MatchingIsExact(hash: Hash, files: Files, m: Manifest, entries: Entries)
    requires Validated(m, None) == Ok(entries)
    ensures files.Keys == entries.Keys && (forall name :: name in files ==> IsListed(hash, entries, name, files[name]))
            <==> HoldsExactly(hash, files, m.entries)
  {
    forall name
      ensures name in entries <==> Names(m.entries, name)
    {
      IndexNames(m.entries, name);
    }
    forall i | 0 <= i < |m.entries|
      ensures IsIndexed(entries, m.entries[i])
    {
      IndexHolds(m.entries, i);
    }
    if HoldsExactly(hash, files, m.entries) {
      forall name | name in files
        ensures IsListed(hash, entries, name, files[name])
      {
        var i :| 0 <= i < |m.entries| && m.entries[i].path == Some(name);
        assert IsIndexed(entries, m.entries[i]);
      }
    }
  }

  lemma ListedNamesAreSafe(hash: Hash, files: Files, m: Manifest)
    requires IsManifest(m) && HoldsExactly(hash, files, m.entries)
    ensures IsTree(files) <==> |files| <= 50_000
  {
    forall name | name in files
      ensures MayBeListed(name)
    {
      var i :| 0 <= i < |m.entries| && m.entries[i].path == Some(name);
      assert IsEntry(m.entries[i]);
    }
    TreesAreExact(files);
  }

  /** A bundle as it has to be: the files are those of a well-formed manifest of the expected commit, 50,000 with the
      manifest file at most. */
  ghost predicate IsWhole(manifest: Option<Manifest>, files: Files, hash: Hash, expected: Option<string>) {
    match manifest
    case None => false
    case Some(m) =>
      && IsManifest(m) && |files| + 1 <= 50_000 && (expected.Some? ==> m.commit == Some(ToLower(expected.value)))
      && HoldsExactly(hash, files, m.entries)
  }

  lemma ComparedTests(m: Manifest, files: Files, hash: Hash, entries: Result<Entries, Error>)
    requires entries.Ok? ==> m.commit.Some?
    ensures CompareFiles(m, files, hash, entries).Ok? <==>
              && entries.Ok? && files.Keys == entries.value.Keys
              && forall name :: name in files ==> IsListed(hash, entries.value, name, files[name])
  {
  }

  lemma ValidatedTwice(m: Manifest, expected: Option<string>)
    requires Validated(m, expected).Ok?
    ensures Validated(m, None) == Validated(m, expected)
  {
  }

  lemma WellFormedIsCompared(m: Manifest, files: Files, hash: Hash, entries: Result<Entries, Error>)
    requires entries.Ok? <==> IsManifest(m)
    requires entries.Ok? ==> Validated(m, None) == entries
    ensures IsTree(files) && CompareFiles(m, files, hash, entries).Ok? && |files| + 1 <= 50_000 <==>
              IsManifest(m) && |files| + 1 <= 50_000 && HoldsExactly(hash, files, m.entries)
  {
    ComparedTests(m, files, hash, entries);
    if entries.Ok? {
      MatchingIsExact(hash, files, m, entries.value);
      if HoldsExactly(hash, files, m.entries) {
        ListedNamesAreSafe(hash, files, m);
      }
    }
  }

  /** Verification accepts exactly those. */
  lemma VerifiedIsExact(manifest: Option<Manifest>, files: Files, hash: Hash, expected: Option<string>)
    ensures Verified(manifest, files, hash, expected).Ok? <==> IsWhole(manifest, files, hash, expected)
  {
    match manifest
    case None =>
    case Some(m) =>
      ValidatedIsExact(m, expected);
      ValidatedIsExact(m, None);
      if Validated(m, expected).Ok? {
        ValidatedTwice(m, expected);
      }
      if expected.Some? ==> m.commit == Some(ToLower(expected.value)) {
        WellFormedIsCompared(m, files, hash, Validated(m, expected));
      }
  }

  /** Compares the file set, and then each file. */
  method CompareEach(m: Manifest, files: Files, hash: Hash, entries: Entries) returns (r: Result<Bundle, Error>)
    requires m.commit.Some?
    ensures r == CompareFiles(m, files, hash, Ok(entries))
  {
    if files.Keys != entries.Keys {
      return Err(FileSetMismatch);
    }
    var names := files.Keys;
    while names != {}
      invariant names <= files.Keys
      invariant forall name :: name in files && name !in names ==> IsListed(hash, entries, name, files[name])
      decreases |names|
    {
      var name :| name in names;
      if !IsListed(hash, entries, name, files[name]) {
        return Err(FileMismatch);
      }
      names := names - {name};
    }
    return Ok(Bundle(m.commit.value, m, entries, files));
  }

  /** Checks the bundle, its files one by one last. */
  method VerifyBundle(manifest: Option<Manifest>, files: Files, hash: Hash, expected: Option<string>)
    returns (r: Result<Bundle, Error>)
    ensures r == Verified(manifest, files, hash, expected)
  {
    if !IsBundleTree(manifest, files) {
      return Err(TreeRefused);
    }
    if manifest == None {
      return Err(ManifestMissing);
    }
    var entries := ValidateManifest(manifest.value, expected);
    if entries.Err? {
      return Err(entries.error);
    }
    r := CompareEach(manifest.value, files, hash, entries.value);
  }

  /** What the bundle check guarantees. */
  ghost predicate IsBundle(hash: Hash, b: Bundle) {
    && b.manifest.commit == Some(b.commit) && IsHex(b.commit, 40)
    && Validated(b.manifest, None) == Ok(b.entries) && Validated(b.manifest, Some(b.commit)) == Ok(b.entries)
    && BundleMatches(hash, b.files, b.entries)
  }

  lemma {:induction false} LowerHex(s: string)
    requires forall i :: 0 <= i < |s| ==> '0' <= s[i] <= '9' || 'a' <= s[i] <= 'f'
    ensures ToLower(s) == s
  {
    assert forall i :: 0 <= i < |s| ==> ToLower(s)[i] == s[i];
  }

  /** A verified bundle holds exactly the files its manifest lists, and its manifest validates again later. */
  lemma VerifiedIsBundle(manifest: Option<Manifest>, files: Files, hash: Hash, expected: Option<string>)
    requires Verified(manifest, files, hash, expected).Ok?
    ensures IsBundle(hash, Verified(manifest, files, hash, expected).value)
  {
    LowerHex(manifest.value.commit.value);
  }

  // ---- The tool over mutable directories -----------------------------------------------------

  datatype Outcome = Done | Failed(error: Error) | Stopped

  /** The state when a command is stopped after `budget` file steps, or ended before. */
  function Reached(t: Trace, budget: nat): State
    requires t.states != []
  {
    if budget < |t.states| then t.states[budget] else Final(t)
  }

  function OutcomeOf(t: Trace, budget: nat): Outcome {
    if budget + 1 < |t.states| then Stopped
    else if t.error.Some? then Failed(t.error.value)
    else Done
  }

  class TargetRoot {
    const checks: Checks
    var releases: map<string, Files>
    var manifests: map<string, Manifest>
    var current: Option<string>
    var previous: Option<string>

    ghost function Value(): State
      reads this
    {
      State(releases, manifests, current, previous)
    }

    constructor (checks: Checks)
      ensures Value() == EMPTY_ROOT && this.checks == checks
    {
      this.checks, releases, manifests, current, previous := checks, map[], map[], None, None;
    }

    method PutFiles(b: Bundle, stagingExists: bool, budget: nat) returns (r: Outcome, used: nat)
      modifies this`releases
      ensures var t := InstallFiles(old(Value()), checks, b, stagingExists);
              Value() == Reached(t, budget) && r == OutcomeOf(t, budget) && (r == Done ==> used == |t.states| - 1)
    {
      used := 0;
      if b.commit in releases {
        r := if checks.web(releases[b.commit], b.entries) then Done else Failed(WebCopyMismatch);
      } else if stagingExists {
        r := Failed(StagingExists);
      } else {
        var copy := WebPart(b.files);
        if !checks.web(copy, b.entries) {
          r := Failed(WebCopyMismatch);
        } else if budget == 0 {
          r := Stopped;
        } else {
          releases := releases[b.commit := copy];
          r, used := Done, 1;
        }
      }
    }

    method PutManifest(b: Bundle, budget: nat) returns (r: Outcome, used: nat)
      modifies this`manifests
      ensures var t := StoreManifest(old(Value()), b);
              Value() == Reached(t, budget) && r == OutcomeOf(t, budget) && (r == Done ==> used == |t.states| - 1)
    {
      used := 0;
      if b.commit in manifests {
        r := if manifests[b.commit] == b.manifest then Done else Failed(StoredManifestMismatch);
      } else if budget == 0 {
        r := Stopped;
      } else {
        manifests := manifests[b.commit := b.manifest];
        r, used := Done, 1;
      }
    }

    method PutLinks(commit: string, budget: nat) returns (r: Outcome)
      modifies this`current, this`previous
      ensures var t := SwitchLinks(old(Value()), commit);
              Value() == Reached(t, budget) && r == OutcomeOf(t, budget)
    {
      if current.Some? && !(current.value in releases && IsHex(current.value, 40)) {
        return Failed(LinkInvalid);
      }
      if current == Some(commit) {
        return Done;
      }
      var left := budget;
      if current.Some? {
        if left == 0 {
          return Stopped;
        }
        previous := current;
        left := left - 1;
      }
      if left == 0 {
        return Stopped;
      }
      current := Some(commit);
      return Done;
    }

    method Publish(b: Bundle, budget: nat) returns (r: Outcome)
      modifies this`manifests, this`current, this`previous
      ensures var t := PublishTrace(old(Value()), b);
              Value() == Reached(t, budget) && r == OutcomeOf(t, budget)
    {
      ghost var stored := StoreManifest(Value(), b);
      ChainReached(stored, SwitchLinks(Final(stored), b.commit), budget);
      var used;
      r, used := PutManifest(b, budget);
      if r == Done {
        r := PutLinks(b.commit, budget - used);
      }
    }

    method Apply(b: Bundle, stagingExists: bool, budget: nat) returns (r: Outcome)
      modifies this
      ensures var t := ApplyTrace(old(Value()), checks, b, stagingExists);
              Value() == Reached(t, budget) && r == OutcomeOf(t, budget)
    {
      ghost var files := InstallFiles(Value(), checks, b, stagingExists);
      ChainReached(files, PublishTrace(Final(files), b), budget);
      var used;
      r, used := PutFiles(b, stagingExists, budget);
      if r == Done {
        r := Publish(b, budget - used);
      }
    }

    method Rollback(expectedCurrent: string, expectedPrevious: string, budget: nat) returns (r: Outcome)
      modifies this`current, this`previous
      ensures var t := RollbackTrace(old(Value()), checks, expectedCurrent, expectedPrevious);
              Value() == Reached(t, budget) && r == OutcomeOf(t, budget)
    {
      if (current.Some? && !(current.value in releases && IsHex(current.value, 40)))
         || (previous.Some? && !(previous.value in releases && IsHex(previous.value, 40))) {
        return Failed(LinkInvalid);
      }
      if current == None || previous == None {
        return Failed(RollbackUnavailable);
      }
      if current == previous {
        return Failed(RollbackTargetInvalid);
      }
      if current.value != ToLower(expectedCurrent) || previous.value != ToLower(expectedPrevious) {
        return Failed(ConfirmationMismatch);
      }
      if previous.value !in manifests {
        return Failed(ManifestMissing);
      }
      var entries := checks.stored(manifests[previous.value], previous.value);
      if entries.Err? {
        return Failed(entries.error);
      }
      if !checks.web(releases[previous.value], entries.value) {
        return Failed(WebCopyMismatch);
      }
      if budget == 0 {
        return Stopped;
      }
      var replaced := current;
      current := previous;
      if budget == 1 {
        return Stopped;
      }
      previous := replaced;
      return Done;
    }
  }

  /** Where a chained command is after some steps. */
  lemma ChainReached(first: Trace, second: Trace, budget: nat)
    requires first.states != [] && second.states != [] && Final(first) == second.states[0]
    ensures var t := Chain(first, second);
            if OutcomeOf(first, budget) != Done
               then Reached(t, budget) == Reached(first, budget) && OutcomeOf(t, budget) == OutcomeOf(first, budget)
            else
              && budget >= |first.states| - 1
              && Reached(t, budget) == Reached(second, budget - (|first.states| - 1))
              && OutcomeOf(t, budget) == OutcomeOf(second, budget - (|first.states| - 1))
  {
  }
}
