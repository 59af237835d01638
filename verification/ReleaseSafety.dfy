/** What stays true of the target root wherever installs and rollbacks stop, and how they undo and repeat. */
module ReleaseSafety {
  import opened ReleaseBundles
  import opened ReleaseInstaller
  import opened Wrappers

  /** A stored release: its manifest validates for its commit, and its files are the listed ones. */
  ghost predicate IsStored(s: State, checks: Checks, commit: string) {
    && commit in s.manifests && commit in s.releases && IsHex(commit, 40)
    && (var entries := checks.stored(s.manifests[commit], commit);
        entries.Ok? && checks.web(s.releases[commit], entries.value))
  }

  /** Every stored manifest has its matching release, and the links name such releases. */
  ghost predicate Inv(s: State, checks: Checks) {
    && (forall c :: c in s.manifests ==> IsStored(s, checks, c))
    && (s.current.Some? ==> s.current.value in s.manifests)
    && (s.previous.Some? ==> s.previous.value in s.manifests)
  }

  /** A bundle whose manifest, once stored, validates to the entries it was checked with. */
  ghost predicate IsChecked(checks: Checks, b: Bundle) {
    IsHex(b.commit, 40) && checks.stored(b.manifest, b.commit) == Ok(b.entries)
  }

  /** Every verified bundle is such a bundle. */
  lemma VerifiedIsChecked(hash: Hash, b: Bundle)
    requires IsBundle(hash, b)
    ensures IsChecked(ChecksOf(hash), b)
  {
  }

  ghost predicate AllInv(t: Trace, checks: Checks) {
    t.states != [] && forall i :: 0 <= i < |t.states| ==> Inv(t.states[i], checks)
  }

  lemma ChainKeepsInv(first: Trace, second: Trace, checks: Checks)
    requires AllInv(first, checks) && second.states != [] && (first.error == None ==> AllInv(second, checks))
    ensures AllInv(Chain(first, second), checks)
  {
    var t := Chain(first, second);
    forall i | 0 <= i < |t.states|
      ensures Inv(t.states[i], checks)
    {
      if first.error == None && i >= |first.states| {
        assert t.states[i] == second.states[i - |first.states| + 1];
      } else {
        assert t.states[i] == first.states[i];
      }
    }
  }

  /** Another release directory disturbs no stored release. */
  lemma NewReleaseKeepsInv(s: State, checks: Checks, commit: string, files: Files)
    requires Inv(s, checks) && commit !in s.releases
    ensures Inv(s.(releases := s.releases[commit := files]), checks)
  {
    var s' := s.(releases := s.releases[commit := files]);
    forall c | c in s'.manifests
      ensures IsStored(s', checks, c)
    {
      assert IsStored(s, checks, c);
    }
  }

  lemma NewManifestKeepsInv(s: State, checks: Checks, commit: string, m: Manifest)
    requires Inv(s, checks) && IsStored(s.(manifests := s.manifests[commit := m]), checks, commit)
    ensures Inv(s.(manifests := s.manifests[commit := m]), checks)
  {
    var s' := s.(manifests := s.manifests[commit := m]);
    forall c | c in s'.manifests
      ensures IsStored(s', checks, c)
    {
      if c != commit {
        assert IsStored(s, checks, c);
      }
    }
  }

  lemma LinksKeepInv(s: State, checks: Checks, current: Option<string>, previous: Option<string>)
    requires Inv(s, checks)
    requires (current.Some? ==> current.value in s.manifests) && (previous.Some? ==> previous.value in s.manifests)
    ensures Inv(s.(current := current, previous := previous), checks)
  {
    var s' := s.(current := current, previous := previous);
    forall c | c in s'.manifests
      ensures IsStored(s', checks, c)
    {
      assert IsStored(s, checks, c);
    }
  }

  /** The bundle's release directory is in place. */
  ghost predicate HasFiles(s: State, checks: Checks, b: Bundle) {
    b.commit in s.releases && checks.web(s.releases[b.commit], b.entries)
  }

  lemma InstallFilesIsSafe(s: State, checks: Checks, b: Bundle, stagingExists: bool)
    requires Inv(s, checks)
    ensures var t := InstallFiles(s, checks, b, stagingExists);
            AllInv(t, checks) && (t.error == None ==> HasFiles(Final(t), checks, b))
  {
    if b.commit !in s.releases {
      NewReleaseKeepsInv(s, checks, b.commit, WebPart(b.files));
    }
  }

  lemma StoreManifestIsSafe(s: State, checks: Checks, b: Bundle)
    requires Inv(s, checks) && IsChecked(checks, b) && HasFiles(s, checks, b)
    ensures var t := StoreManifest(s, b);
            AllInv(t, checks) && (t.error == None ==> b.commit in Final(t).manifests)
  {
    if b.commit !in s.manifests {
      NewManifestKeepsInv(s, checks, b.commit, b.manifest);
    }
  }

  lemma SwitchLinksIsSafe(s: State, checks: Checks, commit: string)
    requires Inv(s, checks) && commit in s.manifests
    ensures AllInv(SwitchLinks(s, commit), checks)
  {
    LinksKeepInv(s, checks, s.current, s.current);
    LinksKeepInv(s, checks, Some(commit), s.current);
    LinksKeepInv(s, checks, Some(commit), s.previous);
    assert s.(current := Some(commit), previous := s.previous) == s.(current := Some(commit));
    assert s.(current := s.current, previous := s.current) == s.(previous := s.current);
  }

  /** Every state that an install goes through satisfies the invariant: wherever it stops, `current` names a release
      whose files match its stored manifest. */
  lemma ApplyIsSafe(s: State, checks: Checks, b: Bundle, stagingExists: bool)
    requires Inv(s, checks) && IsChecked(checks, b)
    ensures AllInv(ApplyTrace(s, checks, b, stagingExists), checks)
  {
    var files := InstallFiles(s, checks, b, stagingExists);
    InstallFilesIsSafe(s, checks, b, stagingExists);
    if files.error == None {
      var stored := StoreManifest(Final(files), b);
      StoreManifestIsSafe(Final(files), checks, b);
      if stored.error == None {
        SwitchLinksIsSafe(Final(stored), checks, b.commit);
      }
      ChainKeepsInv(stored, SwitchLinks(Final(stored), b.commit), checks);
    }
    ChainKeepsInv(files, PublishTrace(Final(files), b), checks);
  }

  /** So does a rollback. */
  lemma RollbackIsSafe(s: State, checks: Checks, expectedCurrent: string, expectedPrevious: string)
    requires Inv(s, checks)
    ensures AllInv(RollbackTrace(s, checks, expectedCurrent, expectedPrevious), checks)
  {
    LinksKeepInv(s, checks, s.previous, s.previous);
    LinksKeepInv(s, checks, s.previous, s.current);
    assert s.(current := s.previous, previous := s.previous) == s.(current := s.previous);
  }

  // ---- Runs ----------------------------------------------------------------------------------

  /** One command of a run, and the number of file steps after which it is killed. */
  datatype Event =
    | Apply(bundle: Bundle, stagingExists: bool, budget: nat)
    | Rollback(expectedCurrent: string, expectedPrevious: string, budget: nat)

  function Perform(s: State, checks: Checks, e: Event): State {
    match e
    case Apply(b, stagingExists, budget) => Reached(ApplyTrace(s, checks, b, stagingExists), budget)
    case Rollback(c, p, budget) => Reached(RollbackTrace(s, checks, c, p), budget)
  }

  ghost predicate IsRun(states: seq<State>, checks: Checks, events: seq<Event>) {
    && |states| == |events| + 1 && states[0] == EMPTY_ROOT
    && forall i :: 0 <= i < |events| ==>
         (events[i].Apply? ==> IsChecked(checks, events[i].bundle))
           && states[i + 1] == Perform(states[i], checks, events[i])
  }

  /** From an empty root, whatever is installed and rolled back and wherever commands stop, `current` and `previous`,
      if present, name releases whose files match their stored manifests. */
  lemma {:induction false} RunKeepsInv(states: seq<State>, checks: Checks, events: seq<Event>, i: nat)
    requires IsRun(states, checks, events) && i < |states|
    ensures Inv(states[i], checks)
  {
    if i > 0 {
      RunKeepsInv(states, checks, events, i - 1);
      var s := states[i - 1];
      match events[i - 1]
      case Apply(b, stagingExists, _) => ApplyIsSafe(s, checks, b, stagingExists);
      case Rollback(c, p, _) => RollbackIsSafe(s, checks, c, p);
    }
  }

  /** The bundle passed the tool's own check of some bundle directory. */
  ghost predicate IsVerified(hash: Hash, b: Bundle) {
    exists manifest, files, expected :: Verified(manifest, files, hash, expected) == Ok(b)
  }

  /** A run of the tool: every installed bundle has been verified, and commands use the tool's own checks. */
  ghost predicate IsToolRun(states: seq<State>, hash: Hash, events: seq<Event>) {
    && |states| == |events| + 1 && states[0] == EMPTY_ROOT
    && forall i :: 0 <= i < |events| ==>
         && (events[i].Apply? ==> IsVerified(hash, events[i].bundle))
         && states[i + 1] == Perform(states[i], ChecksOf(hash), events[i])
  }

  lemma VerifiedInstalls(hash: Hash, b: Bundle)
    requires IsVerified(hash, b)
    ensures IsChecked(ChecksOf(hash), b)
  {
    var manifest, files, expected :| Verified(manifest, files, hash, expected) == Ok(b);
    VerifiedIsBundle(manifest, files, hash, expected);
    VerifiedIsChecked(hash, b);
  }

  /** The stored manifest of `commit` validates for it, and the release holds exactly the listed web files, each with
      its size and hash. */
  ghost predicate IsSound(s: State, hash: Hash, commit: string) {
    && commit in s.manifests && commit in s.releases
    && (var entries := Validated(s.manifests[commit], Some(commit));
        entries.Ok? && IsTree(s.releases[commit]) && WebMatches(hash, s.releases[commit], entries.value))
  }

  lemma StoredIsSound(s: State, hash: Hash, commit: string)
    requires IsStored(s, ChecksOf(hash), commit)
    ensures IsSound(s, hash, commit)
  {
    WebCopyOkIsExact(hash, s.releases[commit], Validated(s.manifests[commit], Some(commit)).value);
  }

  /** In every run of the tool from an empty root, wherever its commands stop: the current and the previous release, if
      present, hold exactly the files of their stored manifests. */
  lemma LinkedReleasesAreSound(states: seq<State>, hash: Hash, events: seq<Event>, i: nat)
    requires IsToolRun(states, hash, events) && i < |states|
    ensures forall c :: c in states[i].manifests ==> IsSound(states[i], hash, c)
    ensures states[i].current.Some? ==> IsSound(states[i], hash, states[i].current.value)
    ensures states[i].previous.Some? ==> IsSound(states[i], hash, states[i].previous.value)
  {
    forall k | 0 <= k < |events| && events[k].Apply?
      ensures IsChecked(ChecksOf(hash), events[k].bundle)
    {
      VerifiedInstalls(hash, events[k].bundle);
    }
    RunKeepsInv(states, ChecksOf(hash), events, i);
    forall c | c in states[i].manifests
      ensures IsSound(states[i], hash, c)
    {
      StoredIsSound(states[i], hash, c);
    }
  }

  // ---- Repeating and undoing -----------------------------------------------------------------

  /** Installing the current commit again takes no file step. */
  lemma ReapplyChangesNothing(s: State, checks: Checks, b: Bundle, stagingExists: bool)
    requires Inv(s, checks) && s.current == Some(b.commit)
    ensures ApplyTrace(s, checks, b, stagingExists).states == [s]
  {
    assert IsStored(s, checks, b.commit);
  }

  /** Where the previous link ends up. */
  function NextPrevious(s: State, commit: string): Option<string> {
    if s.current == Some(commit) || s.current == None then s.previous else s.current
  }

  /** The root once a bundle is installed. */
  function Installed(s: State, b: Bundle): State {
    State(if b.commit in s.releases then s.releases else s.releases[b.commit := WebPart(b.files)],
          s.manifests[b.commit := b.manifest],
          Some(b.commit),
          NextPrevious(s, b.commit))
  }

  lemma ChainFinal(first: Trace, second: Trace)
    requires first.states != [] && second.states != [] && Final(first) == second.states[0]
    ensures Chain(first, second).error == None <==> first.error == None && second.error == None
    ensures first.error == None ==> Final(Chain(first, second)) == Final(second)
    ensures forall x :: x in Chain(first, second).states ==> x in first.states || x in second.states
  {
  }

  /** The bundle can be installed: its files and manifest are absent or match, and the current link is sound. */
  ghost predicate CanApply(s: State, checks: Checks, b: Bundle) {
    && checks.web(if b.commit in s.releases then s.releases[b.commit] else WebPart(b.files), b.entries)
    && (b.commit in s.manifests ==> s.manifests[b.commit] == b.manifest)
    && (s.current.Some? ==>
          (s.current.value in s.releases || s.current.value == b.commit) && IsHex(s.current.value, 40))
  }

  lemma FilesFinal(s: State, checks: Checks, b: Bundle)
    ensures var t := InstallFiles(s, checks, b, false);
            && (t.error == None <==> checks.web(if b.commit in s.releases then s.releases[b.commit]
                                                else WebPart(b.files), b.entries))
            && (t.error == None ==>
                  Final(t) == s.(releases := if b.commit in s.releases then s.releases
                                 else s.releases[b.commit := WebPart(b.files)]))
            && forall x :: x in t.states ==> x == s || x == Final(t)
  {
  }

  lemma StoreFinal(s: State, b: Bundle)
    ensures var t := StoreManifest(s, b);
            && (t.error == None <==> (b.commit in s.manifests ==> s.manifests[b.commit] == b.manifest))
            && (t.error == None ==> Final(t) == s.(manifests := s.manifests[b.commit := b.manifest]))
            && forall x :: x in t.states ==> x == s || x == Final(t)
  {
    if b.commit in s.manifests && s.manifests[b.commit] == b.manifest {
      assert s.manifests[b.commit := b.manifest] == s.manifests;
    }
  }

  lemma LinksFinal(s: State, commit: string)
    ensures var t := SwitchLinks(s, commit);
            && (t.error == None <==> LinkOk(s, s.current))
            && (t.error == None ==>
                  Final(t) == s.(current := Some(commit), previous := NextPrevious(s, commit)))
            && forall x :: x in t.states ==> x == s || x == Final(t) || x == s.(previous := NextPrevious(s, commit))
  {
  }

  /** An install completes exactly when it can, and then leaves exactly the installed root. */
  lemma ApplyInstalls(s: State, checks: Checks, b: Bundle)
    requires Inv(s, checks)
    ensures ApplyTrace(s, checks, b, false).error == None <==> CanApply(s, checks, b)
    ensures CanApply(s, checks, b) ==> Final(ApplyTrace(s, checks, b, false)) == Installed(s, b)
  {
    var files := InstallFiles(s, checks, b, false);
    var s1 := Final(files);
    FilesFinal(s, checks, b);
    ChainFinal(files, PublishTrace(s1, b));
    PublishFinal(s1, b);
    if s.current.Some? {
      assert IsStored(s, checks, s.current.value);
    }
  }

  /** The states after the release directory is in place: with or without the manifest and the links. */
  ghost predicate Publishing(s: State, b: Bundle, x: State) {
    && x.releases == s.releases && (x.manifests == s.manifests || x.manifests == s.manifests[b.commit := b.manifest])
    && (x.current == s.current || x.current == Some(b.commit))
    && (x.previous == NextPrevious(s, b.commit) || (x.previous == s.previous && x.current == s.current))
  }

  lemma PublishFinal(s: State, b: Bundle)
    ensures var t := PublishTrace(s, b);
            && (t.error == None <==>
                  (b.commit in s.manifests ==> s.manifests[b.commit] == b.manifest) && LinkOk(s, s.current))
            && (t.error == None ==>
                  Final(t) == State(s.releases, s.manifests[b.commit := b.manifest], Some(b.commit),
                                    NextPrevious(s, b.commit)))
            && (t.error == None ==> forall x :: x in t.states ==> Publishing(s, b, x))
  {
    var stored := StoreManifest(s, b);
    StoreFinal(s, b);
    LinksFinal(Final(stored), b.commit);
    ChainFinal(stored, SwitchLinks(Final(stored), b.commit));
  }

  /** The parts that an install may have done already make no difference. */
  ghost predicate OnTheWay(s: State, b: Bundle, x: State) {
    && (x.releases == s.releases || (b.commit !in s.releases && x.releases == s.releases[b.commit := WebPart(b.files)]))
    && Publishing(s.(releases := x.releases), b, x)
  }

  lemma StatesOnTheWay(s: State, checks: Checks, b: Bundle, x: State)
    requires ApplyTrace(s, checks, b, false).error == None && x in ApplyTrace(s, checks, b, false).states
    ensures OnTheWay(s, b, x)
  {
    var files := InstallFiles(s, checks, b, false);
    FilesFinal(s, checks, b);
    ChainFinal(files, PublishTrace(Final(files), b));
    PublishFinal(Final(files), b);
    if x in files.states {
      assert Publishing(s.(releases := x.releases), b, x);
    } else {
      assert Publishing(Final(files), b, x);
    }
  }

  lemma OnTheWayCanApply(s: State, checks: Checks, b: Bundle, s': State)
    requires Inv(s', checks) && CanApply(s, checks, b) && OnTheWay(s, b, s')
    requires s.current == Some(b.commit) ==> b.commit in s.releases
    ensures CanApply(s', checks, b) && Installed(s', b) == Installed(s, b)
  {
    if s'.current.Some? {
      assert IsStored(s', checks, s'.current.value);
    }
    assert s'.manifests[b.commit := b.manifest] == s.manifests[b.commit := b.manifest];
  }

  /** An install that can complete from a state completes from every state it goes through, with the same outcome: a
      killed install is repaired by running it again. */
  lemma InstallsAgain(s: State, s': State, checks: Checks, b: Bundle)
    requires Inv(s, checks) && Inv(s', checks) && ApplyTrace(s, checks, b, false).error == None
    requires s' in ApplyTrace(s, checks, b, false).states
    ensures ApplyTrace(s', checks, b, false).error == None
    ensures Final(ApplyTrace(s', checks, b, false)) == Final(ApplyTrace(s, checks, b, false))
  {
    ApplyInstalls(s, checks, b);
    ApplyInstalls(s', checks, b);
    StatesOnTheWay(s, checks, b, s');
    if s.current == Some(b.commit) {
      assert IsStored(s, checks, b.commit);
    }
    OnTheWayCanApply(s, checks, b, s');
  }

  /** A completed rollback followed by the opposite one restores the root exactly. */
  lemma RollbackUndoes(s: State, checks: Checks, current: string, previous: string)
    requires Inv(s, checks) && ToLower(current) == current && ToLower(previous) == previous
    requires RollbackTrace(s, checks, current, previous).error == None
    ensures var s' := Final(RollbackTrace(s, checks, current, previous));
            && s' == s.(current := Some(previous), previous := Some(current))
            && RollbackTrace(s', checks, previous, current).error == None
            && Final(RollbackTrace(s', checks, previous, current)) == s
  {
    assert IsStored(s, checks, current);
  }

  /** A rollback completes exactly when the two links are the expected ones and differ. */
  lemma RollbackCompletes(s: State, checks: Checks, current: string, previous: string)
    requires Inv(s, checks)
    ensures RollbackTrace(s, checks, current, previous).error == None <==>
              && s.current == Some(ToLower(current)) && s.previous == Some(ToLower(previous))
              && ToLower(current) != ToLower(previous)
  {
    if s.current.Some? {
      assert IsStored(s, checks, s.current.value);
    }
    if s.previous.Some? {
      assert IsStored(s, checks, s.previous.value);
    }
  }

  /** Unlike an install, a killed rollback is not repaired by running it again: that completes
      exactly when it was killed before its first step. Between its two steps both links name one release, and
      every rollback is refused. */
  lemma RollsBackAgain(s: State, s': State, checks: Checks, current: string, previous: string)
    requires Inv(s, checks) && RollbackTrace(s, checks, current, previous).error == None
    requires s' in RollbackTrace(s, checks, current, previous).states
    ensures RollbackTrace(s', checks, current, previous).error == None <==> s' == s
    ensures s' != s && s' != Final(RollbackTrace(s, checks, current, previous)) ==>
              && s'.current == s'.previous == s.previous
              && forall c, p :: RollbackTrace(s', checks, c, p).error == Some(RollbackTargetInvalid)
  {
    RollbackIsSafe(s, checks, current, previous);
    assert Inv(s', checks);
    RollbackCompletes(s, checks, current, previous);
    RollbackCompletes(s', checks, current, previous);
    assert IsStored(s', checks, s'.current.value) && IsStored(s', checks, s'.previous.value);
  }

  /** Installing the bundle that was current repairs it: the root is back where the rollback started. */
  lemma InstallRepairsRollback(s: State, s': State, checks: Checks, current: string, previous: string, b: Bundle)
    requires Inv(s, checks) && RollbackTrace(s, checks, current, previous).error == None
    requires s' in RollbackTrace(s, checks, current, previous).states && s'.current == s'.previous
    requires IsChecked(checks, b) && s.current == Some(b.commit) && s.manifests[b.commit] == b.manifest
    ensures ApplyTrace(s', checks, b, false).error == None && Final(ApplyTrace(s', checks, b, false)) == s
  {
    RollbackIsSafe(s, checks, current, previous);
    assert Inv(s', checks);
    RollbackCompletes(s, checks, current, previous);
    assert IsStored(s, checks, b.commit) && IsStored(s', checks, s'.current.value);
    ApplyInstalls(s', checks, b);
    assert s.manifests[b.commit := b.manifest] == s.manifests;
  }
}
