/** What no interleaving of transcode workers can do, as long as no job is worked on twice at once. */
module TranscodeSafety {
  import opened Wrappers
  import opened TranscodeJobs
  import opened TranscodeRuns

  // ---- Stored packages -----------------------------------------------------------------------

  /** No two workers hold a claim of the same job: no claim is taken over while its worker still runs. */
  ghost predicate Exclusive(s: System) {
    forall w, v ::
      w in s.workers && v in s.workers && w != v && s.workers[w].stage != Chosen && s.workers[v].stage != Chosen ==>
        s.workers[w].id != s.workers[v].id
  }

  /** The worker found the lesson at its source and can still store or delete the package. */
  predicate Handles(stage: Stage) {
    stage == Working || stage == Uploaded || stage == Detached || stage == Failing
  }

  ghost predicate Unhandled(s: System, j: JobId) {
    forall w :: w in s.workers && s.workers[w].id == j ==> !Handles(s.workers[w].stage)
  }

  /** What a worker picked is still the job's lesson and source. */
  ghost predicate Picked(s: System) {
    forall w :: w in s.workers ==>
      && s.workers[w].id in s.tables.jobs
      && s.tables.jobs[s.workers[w].id].lesson == s.workers[w].seen.lesson
      && s.tables.jobs[s.workers[w].id].source == s.workers[w].seen.source
      && (s.workers[w].stage == Uploaded ==> s.workers[w].id in s.tables.packages)
  }

  /** A package that a lesson plays is its own job's, is stored, and is in no worker's hands. */
  ghost predicate Played(s: System) {
    forall l {:trigger s.tables.lessons[l]} ::
      l in s.tables.lessons && s.tables.lessons[l].Some? && s.tables.lessons[l].value.Package? ==>
        var j := s.tables.lessons[l].value.job;
        j in s.tables.jobs && s.tables.jobs[j].lesson == l && j in s.tables.packages && Unhandled(s, j)
  }

  ghost predicate PackagesInv(s: System) {
    Picked(s) && Played(s)
  }

  lemma ClaimStepKeepsPackages(s: System, step: Step, s': System, settings: Settings)
    requires PackagesInv(s) && Next(s, step, s', settings) && IsClaimStep(step)
    ensures PackagesInv(s')
  {
  }

  lemma OperatorStepKeepsPackages(s: System, step: Step, s': System, settings: Settings)
    requires PackagesInv(s) && Next(s, step, s', settings) && IsOperatorStep(step)
    ensures PackagesInv(s')
  {
  }

  lemma AttachKeepsPackages(s: System, w: WorkerId, s': System, settings: Settings)
    requires PackagesInv(s) && Exclusive(s) && Next(s, TryAttach(w), s', settings)
    ensures PackagesInv(s')
  {
  }

  lemma StoreStepKeepsPackages(s: System, step: Step, s': System, settings: Settings)
    requires PackagesInv(s) && Exclusive(s) && Next(s, step, s', settings)
    requires step.Upload? || step.Drop? || step.Throw?
    ensures PackagesInv(s')
  {
  }

  lemma RowStepKeepsPackages(s: System, step: Step, s': System, settings: Settings)
    requires PackagesInv(s) && Exclusive(s) && Next(s, step, s', settings) && (step.Supersede? || step.Record?)
    ensures PackagesInv(s')
  {
  }

  /** In every run without overlapping claims, the package a lesson plays is stored: no worker deletes it. */
  lemma {:induction false} PlayedPackagesAreStored(states: seq<System>, steps: seq<Step>, settings: Settings, i: nat)
    requires IsRun(states, steps, settings) && i < |states| && forall k :: 0 <= k < i ==> Exclusive(states[k])
    ensures PackagesInv(states[i])
  {
    if i > 0 {
      PlayedPackagesAreStored(states, steps, settings, i - 1);
      var s, step, s' := states[i - 1], steps[i - 1], states[i];
      if IsClaimStep(step) {
        ClaimStepKeepsPackages(s, step, s', settings);
      } else if IsOperatorStep(step) {
        OperatorStepKeepsPackages(s, step, s', settings);
      } else if step.TryAttach? {
        AttachKeepsPackages(s, step.w, s', settings);
      } else if step.Upload? || step.Drop? || step.Throw? {
        StoreStepKeepsPackages(s, step, s', settings);
      } else {
        RowStepKeepsPackages(s, step, s', settings);
      }
    }
  }

  // ---- Queued sources ------------------------------------------------------------------------

  ghost predicate Plays(t: Tables, l: LessonId, k: SourceId) {
    l in t.lessons && t.lessons[l] == Some(Source(k))
  }

  /** A source that some lesson plays was once uploaded, is played by no other lesson, and is not queued. */
  ghost predicate SourcesInv(s: System) {
    && (forall k :: k in s.tables.deletions ==> k in s.used)
    && (forall l, k :: Plays(s.tables, l, k) ==> k in s.used && k !in s.tables.deletions)
    && (forall l, m, k :: Plays(s.tables, l, k) && Plays(s.tables, m, k) ==> l == m)
  }

  /** A source enters the deletion queue only in a step that makes the lesson playing it play something else. */
  ghost predicate QueuedWhenReplaced(s: System, s': System) {
    forall k :: k in s'.tables.deletions && k !in s.tables.deletions ==>
      exists l :: Plays(s.tables, l, k) && l in s'.tables.lessons && !Plays(s'.tables, l, k)
  }

  lemma AttachQueues(s: System, w: WorkerId, s': System, settings: Settings)
    requires SourcesInv(s) && Next(s, TryAttach(w), s', settings)
    ensures SourcesInv(s') && QueuedWhenReplaced(s, s')
  {
    var job := s.workers[w].seen;
    if IsCurrent(s.tables, job) {
      assert Plays(s.tables, job.lesson, job.source);
      assert forall l, k :: Plays(s'.tables, l, k) ==> l != job.lesson && Plays(s.tables, l, k);
    } else {
      assert s'.tables.lessons == s.tables.lessons && s'.tables.deletions == s.tables.deletions;
      assert forall l, k :: Plays(s'.tables, l, k) == Plays(s.tables, l, k);
    }
  }

  lemma ReplaceQueues(s: System, lesson: LessonId, source: SourceId, id: JobId, s': System, settings: Settings)
    requires SourcesInv(s) && Next(s, Replace(lesson, source, id), s', settings)
    ensures SourcesInv(s') && QueuedWhenReplaced(s, s')
  {
    assert forall l, k :: Plays(s'.tables, l, k) ==> (if l == lesson then k == source else Plays(s.tables, l, k));
    assert forall l :: !Plays(s.tables, l, source);
    if lesson in s.tables.lessons && s.tables.lessons[lesson].Some? && s.tables.lessons[lesson].value.Source? {
      var replaced := s.tables.lessons[lesson].value.id;
      assert Plays(s.tables, lesson, replaced) && !Plays(s'.tables, lesson, replaced);
      assert s'.tables.deletions.Keys == s.tables.deletions.Keys + {replaced};
    }
  }

  lemma OtherStepsKeepSources(s: System, step: Step, s': System, settings: Settings)
    requires SourcesInv(s) && Next(s, step, s', settings) && !step.TryAttach? && !step.Replace?
    ensures SourcesInv(s') && QueuedWhenReplaced(s, s')
  {
    assert s'.tables.lessons == s.tables.lessons && s'.tables.deletions == s.tables.deletions && s'.used == s.used;
    assert forall l, k :: Plays(s'.tables, l, k) == Plays(s.tables, l, k);
  }

  lemma StepKeepsSources(s: System, step: Step, s': System, settings: Settings)
    requires SourcesInv(s) && Next(s, step, s', settings)
    ensures SourcesInv(s') && QueuedWhenReplaced(s, s')
  {
    if step.TryAttach? {
      AttachQueues(s, step.w, s', settings);
    } else if step.Replace? {
      ReplaceQueues(s, step.lesson, step.source, step.id, s', settings);
    } else {
      OtherStepsKeepSources(s, step, s', settings);
    }
  }

  /** In every run, overlapping claims included, no lesson plays a source that is queued for deletion, and a source is
      queued only in the transaction that stops its lesson from playing it. */
  lemma {:induction false} QueuedSourcesAreUnplayed(states: seq<System>, steps: seq<Step>, settings: Settings, i: nat)
    requires IsRun(states, steps, settings) && i < |states|
    ensures SourcesInv(states[i])
    ensures i > 0 ==> QueuedWhenReplaced(states[i - 1], states[i])
  {
    if i > 0 {
      QueuedSourcesAreUnplayed(states, steps, settings, i - 1);
      StepKeepsSources(states[i - 1], steps[i - 1], states[i], settings);
    }
  }

  // ---- When claims do not overlap ------------------------------------------------------------

  /** No worker outlives the lock timeout of its claim. */
  ghost predicate Timely(s: System, settings: Settings) {
    forall w :: w in s.workers && s.workers[w].stage != Chosen ==> s.now - s.workers[w].at <= settings.lockTimeout
  }

  /** An operator's retry touches no job that a worker has picked. */
  ghost predicate Quiet(s: System, step: Step) {
    step.Retry? && step.q in s.requests ==>
      forall w :: w in s.workers ==> s.workers[w].id != s.requests[step.q].id
  }

  /** A claim that is still held shows in the job row, unless the job was superseded. */
  ghost predicate Holding(s: System) {
    forall w :: w in s.workers && s.workers[w].stage != Chosen ==>
      var r := s.workers[w];
      && r.id in s.tables.jobs
      && (var job := s.tables.jobs[r.id];
          job.status == Superseded
            || (job.status == Transcoding && job.attempts == r.seen.attempts + 1 && job.lockedAt == Some(r.at)))
  }

  /** A job that was picked while locked either has moved on or still has that lock. */
  ghost predicate Choosing(s: System, settings: Settings) {
    forall w :: w in s.workers && s.workers[w].stage == Chosen ==>
      var r := s.workers[w];
      && r.id in s.tables.jobs && r.at <= s.now && Eligible(r.seen, r.at, settings)
      && (var job := s.tables.jobs[r.id];
          && r.seen.attempts <= job.attempts
          && (job.status == Transcoding && r.seen.status == Transcoding && job.attempts == r.seen.attempts ==>
                job.lockedAt == r.seen.lockedAt))
  }

  ghost predicate LocksInv(s: System, settings: Settings) {
    Exclusive(s) && Holding(s) && Choosing(s, settings)
  }

  /** A claim that succeeds finds no other worker on the job. */
  lemma ClaimFindsFree(s: System, w: WorkerId, v: WorkerId, settings: Settings)
    requires LocksInv(s, settings) && Timely(s, settings) && At(s, w, Chosen)
    requires v in s.workers && s.workers[v].stage != Chosen
    requires Claim(s.tables, s.workers[w].id, s.workers[w].seen, s.workers[w].at).Some?
    ensures s.workers[v].id != s.workers[w].id
  {
  }

  lemma ClaimKeepsLocks(s: System, w: WorkerId, s': System, settings: Settings)
    requires LocksInv(s, settings) && Timely(s, settings) && Next(s, TryClaim(w), s', settings)
    ensures LocksInv(s', settings)
  {
    if s'.claims != s.claims {
      forall v | v in s.workers && s.workers[v].stage != Chosen
        ensures s.workers[v].id != s.workers[w].id
      {
        ClaimFindsFree(s, w, v, settings);
      }
    }
  }

  lemma OtherClaimStepKeepsLocks(s: System, step: Step, s': System, settings: Settings)
    requires LocksInv(s, settings) && Next(s, step, s', settings) && IsClaimStep(step) && !step.TryClaim?
    ensures LocksInv(s', settings)
  {
  }

  lemma ReplaceKeepsLocks(s: System, lesson: LessonId, source: SourceId, id: JobId, s': System, settings: Settings)
    requires LocksInv(s, settings) && Next(s, Replace(lesson, source, id), s', settings)
    ensures LocksInv(s', settings)
  {
  }

  lemma RetryKeepsLocks(s: System, q: RequestId, s': System, settings: Settings)
    requires LocksInv(s, settings) && Next(s, Retry(q), s', settings) && Quiet(s, Retry(q))
    ensures LocksInv(s', settings)
  {
  }

  lemma OperatorStepKeepsLocks(s: System, step: Step, s': System, settings: Settings)
    requires LocksInv(s, settings) && Next(s, step, s', settings) && IsOperatorStep(step) && Quiet(s, step)
    ensures LocksInv(s', settings)
  {
    if step.Replace? {
      ReplaceKeepsLocks(s, step.lesson, step.source, step.id, s', settings);
    } else if step.Retry? {
      RetryKeepsLocks(s, step.q, s', settings);
    } else {
      RequestOnlyReads(s, step, s', settings);
    }
  }

  lemma PackageStepKeepsLocks(s: System, step: Step, s': System, settings: Settings)
    requires LocksInv(s, settings) && Next(s, step, s', settings) && (step.Upload? || step.Drop? || step.Throw?)
    ensures LocksInv(s', settings)
  {
  }

  lemma RecordKeepsLocks(s: System, w: WorkerId, s': System, settings: Settings)
    requires LocksInv(s, settings) && Next(s, Record(w), s', settings)
    ensures LocksInv(s', settings)
  {
  }

  lemma AttachKeepsLocks(s: System, w: WorkerId, s': System, settings: Settings)
    requires LocksInv(s, settings) && Next(s, TryAttach(w), s', settings)
    ensures LocksInv(s', settings)
  {
  }

  lemma SupersedeKeepsLocks(s: System, w: WorkerId, s': System, settings: Settings)
    requires LocksInv(s, settings) && Next(s, Supersede(w), s', settings)
    ensures LocksInv(s', settings)
  {
  }

  /** When every worker ends or dies within the lock timeout and operators retry only idle jobs,
      claims never overlap. */
  lemma {:induction false} TimelyRunsAreExclusive(states: seq<System>, steps: seq<Step>, settings: Settings, i: nat)
    requires IsRun(states, steps, settings) && i < |states|
    requires forall k :: 0 <= k < i ==> Timely(states[k], settings) && Quiet(states[k], steps[k])
    ensures LocksInv(states[i], settings)
  {
    if i > 0 {
      TimelyRunsAreExclusive(states, steps, settings, i - 1);
      var s, step, s' := states[i - 1], steps[i - 1], states[i];
      if step.TryClaim? {
        ClaimKeepsLocks(s, step.w, s', settings);
      } else if IsClaimStep(step) {
        OtherClaimStepKeepsLocks(s, step, s', settings);
      } else if IsOperatorStep(step) {
        OperatorStepKeepsLocks(s, step, s', settings);
      } else if step.Upload? || step.Drop? || step.Throw? {
        PackageStepKeepsLocks(s, step, s', settings);
      } else if step.Record? {
        RecordKeepsLocks(s, step.w, s', settings);
      } else if step.TryAttach? {
        AttachKeepsLocks(s, step.w, s', settings);
      } else {
        SupersedeKeepsLocks(s, step.w, s', settings);
      }
    }
  }

  /** Such runs never lose a package that a lesson plays. */
  lemma TimelyRunsKeepPackages(states: seq<System>, steps: seq<Step>, settings: Settings, i: nat)
    requires IsRun(states, steps, settings) && i < |states|
    requires forall k :: 0 <= k < i ==> Timely(states[k], settings) && Quiet(states[k], steps[k])
    ensures PackagesInv(states[i])
  {
    forall k | 0 <= k < i
      ensures Exclusive(states[k])
    {
      TimelyRunsAreExclusive(states, steps, settings, k);
    }
    PlayedPackagesAreStored(states, steps, settings, i);
  }

  // ---- What an overlap does ------------------------------------------------------------------

  ghost predicate Reaches(s: System, settings: Settings) {
    exists states, steps :: IsRun(states, steps, settings) && states[|steps|] == s
  }

  lemma ReachesNext(s: System, step: Step, s': System, settings: Settings)
    requires Reaches(s, settings) && Next(s, step, s', settings)
    ensures Reaches(s', settings)
  {
    var states, steps :| IsRun(states, steps, settings) && states[|steps|] == s;
    assert IsRun(states + [s'], steps + [step], settings);
  }

  lemma StartReaches(settings: Settings)
    ensures Reaches(START, settings)
  {
    var states, steps: seq<Step> := [START], [];
    assert IsRun(states, steps, settings) && states[|steps|] == START;
  }

  /** Two workers have both found the lesson at the source of job 0. */
  ghost predicate TwoWorking(s: System) {
    && At(s, 1, Working) && At(s, 2, Working) && s.workers[1].id == 0 && s.workers[2].id == 0
    && s.workers[1].seen.lesson == 0 && s.workers[1].seen.source == 0 && s.workers[2].seen.lesson == 0
    && 0 in s.tables.lessons && s.tables.lessons[0] == Some(Source(0))
  }

  /** The first worker claims a new job. */
  lemma FirstClaims(settings: Settings) returns (s: System)
    requires settings.maxAttempts >= 2
    ensures Reaches(s, settings) && At(s, 1, Working) && s.workers.Keys == {1} && s.workers[1].id == 0 && s.now == 0
    ensures s.tables.jobs == map[0 := Job(0, 0, Transcoding, 1, Some(0), 0, None)]
    ensures s.workers[1].seen == Job(0, 0, Pending, 0, None, 0, None)
    ensures 0 in s.tables.lessons && s.tables.lessons[0] == Some(Source(0))
  {
    var job := Job(0, 0, Pending, 0, None, 0, None);
    StartReaches(settings);
    var s1 := START.(used := {0}, generations := map[0 := 0],
                     tables := Tables(map[0 := job], map[0 := Some(Source(0))], map[], {}));
    ReachesNext(START, Replace(0, 0, 0), s1, settings);
    var s2 := s1.(workers := s1.workers[1 := Run(Chosen, 0, job, 0)]);
    ReachesNext(s1, Choose(1, 0), s2, settings);
    var s3 := Move(s2, 1, Stage.Claimed).(tables := Claim(s2.tables, 0, job, 0).value,
                                          claims := s2.claims + [ClaimRecord(0, 0, 1)]);
    ReachesNext(s2, TryClaim(1), s3, settings);
    s := Move(s3, 1, Working);
    ReachesNext(s3, Check(1), s, settings);
  }

  /** After the lock timeout a second worker takes the job over while the first still runs. */
  lemma SecondTakesOver(settings: Settings) returns (s: System)
    requires settings.maxAttempts >= 2
    ensures Reaches(s, settings) && TwoWorking(s)
  {
    var s0 := FirstClaims(settings);
    var job, late := s0.tables.jobs[0], settings.lockTimeout + 1;
    var s1 := s0.(now := late);
    ReachesNext(s0, Tick(late), s1, settings);
    var s2 := s1.(workers := s1.workers[2 := Run(Chosen, 0, job, late)]);
    ReachesNext(s1, Choose(2, 0), s2, settings);
    var s3 := Move(s2, 2, Stage.Claimed)
              .(tables := Claim(s2.tables, 0, job, late).value,
                claims := s2.claims + [ClaimRecord(0, s2.generations[0], 2)]);
    ReachesNext(s2, TryClaim(2), s3, settings);
    s := Move(s3, 2, Working);
    ReachesNext(s3, Check(2), s, settings);
  }

  /** Only workers that were there before, each with the claim it had, at the same time. */
  ghost predicate NoNewClaims(s: System, s': System) {
    s'.now == s.now && forall w :: w in s'.workers ==>
      && w in s.workers && s'.workers[w].at == s.workers[w].at
      && (s.workers[w].stage == Chosen ==> s'.workers[w].stage == Chosen)
  }

  lemma FirstFinishes(s: System, settings: Settings) returns (s1: System, s2: System)
    requires TwoWorking(s)
    ensures Next(s, Upload(1), s1, settings) && Next(s1, TryAttach(1), s2, settings)
    ensures NoNewClaims(s, s1) && NoNewClaims(s, s2)
    ensures At(s2, 2, Working) && s2.workers[2] == s.workers[2]
    ensures 0 in s2.tables.lessons && s2.tables.lessons[0] == Some(Package(0))
  {
    s1 := Move(s, 1, Uploaded).(tables := s.tables.(packages := s.tables.packages + {0}));
    s2 := Leave(s1, 1).(tables := Attach(s1.tables, 0, s1.workers[1].seen, s1.now, settings.retention));
  }

  lemma SecondDrops(s: System, settings: Settings) returns (s1: System, s2: System, s3: System)
    requires At(s, 2, Working) && s.workers[2].id == 0 && s.workers[2].seen.lesson == 0
    requires 0 in s.tables.lessons && s.tables.lessons[0] == Some(Package(0))
    ensures Next(s, Upload(2), s1, settings) && Next(s1, TryAttach(2), s2, settings) && Next(s2, Drop(2), s3, settings)
    ensures NoNewClaims(s, s1) && NoNewClaims(s, s2) && NoNewClaims(s, s3)
    ensures 0 in s3.tables.lessons && s3.tables.lessons[0] == Some(Package(0)) && 0 !in s3.tables.packages
  {
    s1 := Move(s, 2, Uploaded).(tables := s.tables.(packages := s.tables.packages + {0}));
    s2 := Move(s1, 2, Detached).(tables := Attach(s1.tables, 0, s1.workers[2].seen, s1.now, settings.retention));
    s3 := Leave(s2, 2).(tables := s2.tables.(packages := s2.tables.packages - {0}));
  }

  /** Without that condition the promise fails: after such a takeover the first worker attaches the package, and the
      second one finds the lesson moved and deletes the same package, which the lesson now plays. */
  lemma TakeoverLosesPackage(settings: Settings) returns (s: System)
    requires settings.maxAttempts >= 2
    ensures Reaches(s, settings)
    ensures 0 in s.tables.lessons && s.tables.lessons[0] == Some(Package(0)) && 0 !in s.tables.packages
  {
    var s0 := SecondTakesOver(settings);
    var s1, s2 := FirstFinishes(s0, settings);
    ReachesNext(s0, Upload(1), s1, settings);
    ReachesNext(s1, TryAttach(1), s2, settings);
    var s3, s4, s5 := SecondDrops(s2, settings);
    ReachesNext(s2, Upload(2), s3, settings);
    ReachesNext(s3, TryAttach(2), s4, settings);
    ReachesNext(s4, Drop(2), s5, settings);
    s := s5;
  }
}
