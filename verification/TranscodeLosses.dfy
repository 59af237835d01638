/** Exactly when a package that a lesson plays can be lost: which steps lose it, and from which states such a step
    can still come. */
module TranscodeLosses {
  import opened Wrappers
  import opened TranscodeJobs
  import opened TranscodeRuns
  import opened TranscodeSafety

  ghost predicate PlaysPackage(s: System, l: LessonId, j: JobId) {
    l in s.tables.lessons && s.tables.lessons[l] == Some(Package(j))
  }

  /** The worker found the lesson at its source, and has its deletion of the package still before it. */
  predicate Threatens(stage: Stage) {
    stage == Working || stage == Uploaded || stage == Detached
  }

  ghost predicate Threatened(s: System, j: JobId) {
    exists w :: w in s.workers && s.workers[w].id == j && Threatens(s.workers[w].stage)
  }

  // ---- What every reachable state keeps ------------------------------------------------------

  /** Workers and played packages belong to their jobs, and no job's source is a fresh one. */
  ghost predicate Owned(s: System) {
    && (forall j :: j in s.tables.jobs ==> j in s.generations && s.tables.jobs[j].source in s.used)
    && (forall w :: w in s.workers ==>
          && s.workers[w].id in s.tables.jobs
          && s.workers[w].seen.lesson == s.tables.jobs[s.workers[w].id].lesson
          && s.workers[w].seen.source == s.tables.jobs[s.workers[w].id].source)
    && (forall l, j :: PlaysPackage(s, l, j) ==> j in s.tables.jobs && s.tables.jobs[j].lesson == l)
  }

  /** Job rows and workers that keep what they belong to, and lessons that stay. */
  ghost predicate SameOwners(s: System, s': System) {
    && s'.tables.lessons == s.tables.lessons && s'.used == s.used && s'.generations == s.generations
    && s'.tables.jobs.Keys == s.tables.jobs.Keys
    && (forall j :: j in s.tables.jobs ==>
          s'.tables.jobs[j].lesson == s.tables.jobs[j].lesson && s'.tables.jobs[j].source == s.tables.jobs[j].source)
    && (forall w :: w in s'.workers ==>
          if w in s.workers then s'.workers[w].id == s.workers[w].id && s'.workers[w].seen == s.workers[w].seen
          else s'.workers[w].id in s.tables.jobs && s'.workers[w].seen == s.tables.jobs[s'.workers[w].id])
  }

  lemma SameOwnersKeepOwned(s: System, s': System)
    requires Owned(s) && SameOwners(s, s')
    ensures Owned(s')
  {
    assert forall l, j :: PlaysPackage(s', l, j) == PlaysPackage(s, l, j);
  }

  lemma ClaimStepSameOwners(s: System, step: Step, s': System, settings: Settings)
    requires Next(s, step, s', settings) && IsClaimStep(step)
    ensures SameOwners(s, s')
  {
  }

  lemma WorkStepSameOwners(s: System, step: Step, s': System, settings: Settings)
    requires Next(s, step, s', settings) && !IsOperatorStep(step) && !IsClaimStep(step) && !step.TryAttach?
    ensures SameOwners(s, s')
  {
  }

  lemma WorkerStepSameOwners(s: System, step: Step, s': System, settings: Settings)
    requires Next(s, step, s', settings) && !IsOperatorStep(step) && !step.TryAttach?
    ensures SameOwners(s, s')
  {
    if IsClaimStep(step) {
      ClaimStepSameOwners(s, step, s', settings);
    } else {
      WorkStepSameOwners(s, step, s', settings);
    }
  }

  lemma AttachKeepsOwned(s: System, w: WorkerId, s': System, settings: Settings)
    requires Owned(s) && Next(s, TryAttach(w), s', settings)
    ensures Owned(s')
  {
    var r := s.workers[w];
    assert forall l, j :: PlaysPackage(s', l, j) ==> PlaysPackage(s, l, j) || (l == r.seen.lesson && j == r.id);
    AttachKeepsWorkers(s, w, s', settings);
  }

  lemma AttachKeepsWorkers(s: System, w: WorkerId, s': System, settings: Settings)
    requires Owned(s) && Next(s, TryAttach(w), s', settings)
    ensures forall j :: j in s'.tables.jobs ==> j in s'.generations && s'.tables.jobs[j].source in s'.used
    ensures forall j :: j in s.tables.jobs ==>
              j in s'.tables.jobs && s'.tables.jobs[j].lesson == s.tables.jobs[j].lesson
    ensures forall v :: v in s'.workers ==>
              && s'.workers[v].id in s'.tables.jobs
              && s'.workers[v].seen.lesson == s'.tables.jobs[s'.workers[v].id].lesson
              && s'.workers[v].seen.source == s'.tables.jobs[s'.workers[v].id].source
  {
  }

  lemma ReplaceKeepsOwned(s: System, lesson: LessonId, source: SourceId, id: JobId, s': System, settings: Settings)
    requires Owned(s) && Next(s, Replace(lesson, source, id), s', settings)
    ensures Owned(s')
  {
    assert forall l, j :: PlaysPackage(s', l, j) ==> PlaysPackage(s, l, j);
  }

  lemma RetryKeepsOwned(s: System, q: RequestId, s': System, settings: Settings)
    requires Owned(s) && Next(s, Retry(q), s', settings)
    ensures Owned(s')
  {
    assert forall l, j :: PlaysPackage(s', l, j) == PlaysPackage(s, l, j);
  }

  lemma OperatorStepKeepsOwned(s: System, step: Step, s': System, settings: Settings)
    requires Owned(s) && Next(s, step, s', settings) && IsOperatorStep(step)
    ensures Owned(s')
  {
    if step.Replace? {
      ReplaceKeepsOwned(s, step.lesson, step.source, step.id, s', settings);
    } else if step.Retry? {
      RetryKeepsOwned(s, step.q, s', settings);
    } else {
      RequestOnlyReads(s, step, s', settings);
      assert forall l, j :: PlaysPackage(s', l, j) == PlaysPackage(s, l, j);
    }
  }

  lemma StepKeepsOwned(s: System, step: Step, s': System, settings: Settings)
    requires Owned(s) && Next(s, step, s', settings)
    ensures Owned(s')
  {
    if IsOperatorStep(step) {
      OperatorStepKeepsOwned(s, step, s', settings);
    } else if step.TryAttach? {
      AttachKeepsOwned(s, step.w, s', settings);
    } else {
      WorkerStepSameOwners(s, step, s', settings);
      SameOwnersKeepOwned(s, s');
    }
  }

  lemma {:induction false} RunKeepsOwned(states: seq<System>, steps: seq<Step>, settings: Settings, i: nat)
    requires IsRun(states, steps, settings) && i < |states|
    ensures Owned(states[i])
  {
    if i > 0 {
      RunKeepsOwned(states, steps, settings, i - 1);
      StepKeepsOwned(states[i - 1], steps[i - 1], states[i], settings);
    }
  }

  lemma ReachableIsOwned(s: System, settings: Settings)
    requires Reaches(s, settings)
    ensures Owned(s)
  {
    var states, steps :| IsRun(states, steps, settings) && states[|steps|] == s;
    RunKeepsOwned(states, steps, settings, |steps|);
  }

  // ---- The losing steps ----------------------------------------------------------------------

  /** A worker past its upload deletes the package of its job, by dropping it or by cleaning up after an error. */
  ghost predicate Deletes(s: System, step: Step, j: JobId) {
    match step
    case Drop(w) => w in s.workers && s.workers[w].id == j
    case Throw(w, deleted) => w in s.workers && s.workers[w].id == j && deleted && s.workers[w].stage != Working
    case _ => false
  }

  /** A step of any run takes a stored, played package away exactly when it is such a deletion. */
  lemma LosingStepIsExact(s: System, step: Step, s': System, settings: Settings, l: LessonId, j: JobId)
    requires PlaysPackage(s, l, j) && j in s.tables.packages && Next(s, step, s', settings)
    ensures PlaysPackage(s', l, j) && j !in s'.tables.packages <==> Deletes(s, step, j)
  {
  }

  // ---- From a threatened package to its loss -------------------------------------------------

  type Relation = (System, Step, System) -> bool

  ghost function Nexter(settings: Settings): Relation {
    (s: System, step: Step, s': System) => Next(s, step, s', settings)
  }

  ghost predicate IsPath(s: System, states: seq<System>, steps: seq<Step>, next: Relation) {
    && |states| == |steps| + 1 && states[0] == s
    && forall i :: 0 <= i < |steps| ==> next(states[i], steps[i], states[i + 1])
  }

  /** Steps that can follow on `s`. */
  ghost predicate IsContinuation(s: System, states: seq<System>, steps: seq<Step>, settings: Settings) {
    IsPath(s, states, steps, Nexter(settings))
  }

  lemma LongerPath(s: System, step: Step, states: seq<System>, steps: seq<Step>, next: Relation)
    requires |states| > 0 && IsPath(states[0], states, steps, next) && next(s, step, states[0])
    ensures IsPath(s, [s] + states, [step] + steps, next)
  {
    var more, moreSteps := [s] + states, [step] + steps;
    forall i | 0 <= i < |moreSteps|
      ensures next(more[i], moreSteps[i], more[i + 1])
    {
      if i > 0 {
        assert next(states[i - 1], steps[i - 1], states[i]);
      }
    }
  }

  /** Some continuation ends with the lesson playing the package and the package gone. */
  ghost predicate CanLose(s: System, l: LessonId, j: JobId, settings: Settings) {
    exists states: seq<System>, steps: seq<Step> ::
      && IsContinuation(s, states, steps, settings)
      && PlaysPackage(states[|steps|], l, j) && j !in states[|steps|].tables.packages
  }

  ghost predicate LosesPlaying(s: System, l: LessonId, j: JobId, next: Relation) {
    exists states: seq<System>, steps: seq<Step> ::
      && IsPath(s, states, steps, next) && j !in states[|steps|].tables.packages
      && forall i :: 0 <= i < |states| ==> PlaysPackage(states[i], l, j)
  }

  /** Some continuation does so while the lesson plays the package all along. */
  ghost predicate CanLosePlaying(s: System, l: LessonId, j: JobId, settings: Settings) {
    LosesPlaying(s, l, j, Nexter(settings))
  }

  lemma LostNow(s: System, l: LessonId, j: JobId, settings: Settings)
    requires PlaysPackage(s, l, j) && j !in s.tables.packages
    ensures CanLosePlaying(s, l, j, settings)
  {
    var states, steps: seq<Step> := [s], [];
    assert IsPath(s, states, steps, Nexter(settings)) && states[|steps|] == s;
  }

  lemma LosesOneEarlier(s: System, step: Step, s': System, l: LessonId, j: JobId, next: Relation)
    requires PlaysPackage(s, l, j) && next(s, step, s') && LosesPlaying(s', l, j, next)
    ensures LosesPlaying(s, l, j, next)
  {
    var states: seq<System>, steps: seq<Step> :|
      && IsPath(s', states, steps, next) && j !in states[|steps|].tables.packages
      && forall i :: 0 <= i < |states| ==> PlaysPackage(states[i], l, j);
    LongerPath(s, step, states, steps, next);
    var more, moreSteps := [s] + states, [step] + steps;
    assert more[|moreSteps|] == states[|steps|];
    assert forall i :: 0 <= i < |more| ==> PlaysPackage(more[i], l, j);
  }

  lemma LostLater(s: System, step: Step, s': System, l: LessonId, j: JobId, settings: Settings)
    requires PlaysPackage(s, l, j) && Next(s, step, s', settings) && CanLosePlaying(s', l, j, settings)
    ensures CanLosePlaying(s, l, j, settings)
  {
    LosesOneEarlier(s, step, s', l, j, Nexter(settings));
  }

  /** A worker that finds the lesson moved on drops the package. */
  lemma DetachedLoses(s: System, w: WorkerId, l: LessonId, j: JobId, settings: Settings)
    requires PlaysPackage(s, l, j) && Owned(s) && w in s.workers && s.workers[w].id == j
             && s.workers[w].stage == Detached
    ensures CanLosePlaying(s, l, j, settings)
  {
    var s' := Leave(s, w).(tables := s.tables.(packages := s.tables.packages - {j}));
    LostNow(s', l, j, settings);
    LostLater(s, Drop(w), s', l, j, settings);
  }

  lemma UploadedLoses(s: System, w: WorkerId, l: LessonId, j: JobId, settings: Settings)
    requires PlaysPackage(s, l, j) && Owned(s) && w in s.workers && s.workers[w].id == j
             && s.workers[w].stage == Uploaded
    ensures CanLosePlaying(s, l, j, settings)
  {
    var r := s.workers[w];
    var s' := Move(s, w, Detached).(tables := Attach(s.tables, j, r.seen, s.now, settings.retention));
    assert !IsCurrent(s.tables, r.seen);
    assert Next(s, TryAttach(w), s', settings);
    StepKeepsOwned(s, TryAttach(w), s', settings);
    DetachedLoses(s', w, l, j, settings);
    LostLater(s, TryAttach(w), s', l, j, settings);
  }

  lemma WorkingLoses(s: System, w: WorkerId, l: LessonId, j: JobId, settings: Settings)
    requires PlaysPackage(s, l, j) && Owned(s) && w in s.workers && s.workers[w].id == j
             && s.workers[w].stage == Working
    ensures CanLosePlaying(s, l, j, settings)
  {
    var s' := Move(s, w, Uploaded).(tables := s.tables.(packages := s.tables.packages + {j}));
    assert Next(s, Upload(w), s', settings);
    StepKeepsOwned(s, Upload(w), s', settings);
    UploadedLoses(s', w, l, j, settings);
    LostLater(s, Upload(w), s', l, j, settings);
  }

  lemma ThreatenedLoses(s: System, l: LessonId, j: JobId, settings: Settings)
    requires PlaysPackage(s, l, j) && Owned(s) && Threatened(s, j)
    ensures CanLosePlaying(s, l, j, settings)
  {
    var w :| w in s.workers && s.workers[w].id == j && Threatens(s.workers[w].stage);
    if s.workers[w].stage == Working {
      WorkingLoses(s, w, l, j, settings);
    } else if s.workers[w].stage == Uploaded {
      UploadedLoses(s, w, l, j, settings);
    } else {
      DetachedLoses(s, w, l, j, settings);
    }
  }

  // ---- An unthreatened package survives ------------------------------------------------------

  /** The lesson plays the stored package, and no worker threatens it. */
  ghost predicate Kept(s: System, l: LessonId, j: JobId) {
    PlaysPackage(s, l, j) && j in s.tables.packages && !Threatened(s, j)
  }

  /** The lesson has left the package for good: it plays neither it nor the source it was made of. */
  ghost predicate Left(s: System, l: LessonId, j: JobId) {
    && j in s.tables.jobs && s.tables.jobs[j].lesson == l
    && !PlaysPackage(s, l, j) && !Plays(s.tables, l, s.tables.jobs[j].source)
  }

  lemma LeftForGood(s: System, step: Step, s': System, settings: Settings, l: LessonId, j: JobId)
    requires Owned(s) && Next(s, step, s', settings) && Left(s, l, j)
    ensures Left(s', l, j)
  {
    if !IsOperatorStep(step) && !step.TryAttach? {
      WorkerStepSameOwners(s, step, s', settings);
    } else if step.TryAttach? {
      AttachElsewhere(s, step.w, s', settings, l, j);
    }
  }

  /** No worker attaches a package to a lesson that does not play its source. */
  lemma AttachElsewhere(s: System, w: WorkerId, s': System, settings: Settings, l: LessonId, j: JobId)
    requires Owned(s) && Next(s, TryAttach(w), s', settings)
    requires j in s.tables.jobs && s.tables.jobs[j].lesson == l && !Plays(s.tables, l, s.tables.jobs[j].source)
    ensures j in s'.tables.jobs && s'.tables.jobs[j].lesson == l && s'.tables.jobs[j].source == s.tables.jobs[j].source
    ensures PlaysPackage(s', l, j) == PlaysPackage(s, l, j)
    ensures !Plays(s'.tables, l, s.tables.jobs[j].source)
  {
  }

  lemma KeptOrLeft(s: System, step: Step, s': System, settings: Settings, l: LessonId, j: JobId)
    requires Owned(s) && Next(s, step, s', settings) && Kept(s, l, j)
    ensures Kept(s', l, j) || Left(s', l, j)
  {
    assert !Plays(s.tables, l, s.tables.jobs[j].source);
    if IsOperatorStep(step) {
      OperatorKeepsOrLeaves(s, step, s', settings, l, j);
    } else if step.TryAttach? {
      AttachElsewhere(s, step.w, s', settings, l, j);
      assert !Threatened(s', j);
    } else if IsClaimStep(step) {
      ClaimStepKeeps(s, step, s', settings, l, j);
    } else {
      WorkStepKeeps(s, step, s', settings, l, j);
    }
  }

  lemma OperatorKeepsOrLeaves(s: System, step: Step, s': System, settings: Settings, l: LessonId, j: JobId)
    requires Owned(s) && Next(s, step, s', settings) && Kept(s, l, j) && IsOperatorStep(step)
    ensures Kept(s', l, j) || Left(s', l, j)
  {
  }

  /** A source check made while the lesson plays the package fails. */
  lemma ClaimStepKeeps(s: System, step: Step, s': System, settings: Settings, l: LessonId, j: JobId)
    requires Owned(s) && Next(s, step, s', settings) && Kept(s, l, j) && IsClaimStep(step)
    ensures Kept(s', l, j)
  {
  }

  lemma WorkStepKeeps(s: System, step: Step, s': System, settings: Settings, l: LessonId, j: JobId)
    requires Owned(s) && Next(s, step, s', settings) && Kept(s, l, j)
    requires !IsOperatorStep(step) && !IsClaimStep(step) && !step.TryAttach?
    ensures Kept(s', l, j)
  {
  }

  lemma {:induction false} SurvivesContinuation(s: System, states: seq<System>, steps: seq<Step>, settings: Settings,
                                                l: LessonId, j: JobId, i: nat)
    requires IsContinuation(s, states, steps, settings) && Owned(s) && Kept(s, l, j) && i < |states|
    ensures Owned(states[i]) && (Kept(states[i], l, j) || Left(states[i], l, j))
  {
    if i > 0 {
      SurvivesContinuation(s, states, steps, settings, l, j, i - 1);
      StepKeepsOwned(states[i - 1], steps[i - 1], states[i], settings);
      if Kept(states[i - 1], l, j) {
        KeptOrLeft(states[i - 1], steps[i - 1], states[i], settings, l, j);
      } else {
        LeftForGood(states[i - 1], steps[i - 1], states[i], settings, l, j);
      }
    }
  }

  // ---- The exact conditions ------------------------------------------------------------------

  /** From any reachable state in which a lesson plays a package: the package can be lost, by any continuation that
      ends with the lesson playing it, if and only if it is gone already or a worker that picked its job has passed the
      source check and has not ended. Then it can be lost while the lesson plays it all along. */
  lemma LossIsExact(s: System, settings: Settings, l: LessonId, j: JobId)
    requires Reaches(s, settings) && PlaysPackage(s, l, j)
    ensures CanLose(s, l, j, settings) <==> j !in s.tables.packages || Threatened(s, j)
    ensures CanLosePlaying(s, l, j, settings) <==> CanLose(s, l, j, settings)
  {
    ReachableIsOwned(s, settings);
    if j !in s.tables.packages {
      LostNow(s, l, j, settings);
    } else if Threatened(s, j) {
      ThreatenedLoses(s, l, j, settings);
    } else if CanLose(s, l, j, settings) {
      var states: seq<System>, steps: seq<Step> :|
        && IsContinuation(s, states, steps, settings)
        && PlaysPackage(states[|steps|], l, j) && j !in states[|steps|].tables.packages;
      SurvivesContinuation(s, states, steps, settings, l, j, |steps|);
    }
  }

  /** The condition is settled when the package is attached: it can be lost afterwards if and only if, at that moment,
      it is gone already or another worker that picked the job has passed its source check and has not ended. */
  lemma AttachDecidesLoss(s: System, w: WorkerId, s': System, settings: Settings)
    requires Reaches(s, settings) && Next(s, TryAttach(w), s', settings) && IsCurrent(s.tables, s.workers[w].seen)
    ensures var r := s.workers[w];
            && PlaysPackage(s', r.seen.lesson, r.id)
            && (CanLose(s', r.seen.lesson, r.id, settings) <==>
                  || r.id !in s.tables.packages
                  || exists v :: v in s.workers && v != w && s.workers[v].id == r.id && Threatens(s.workers[v].stage))
  {
    var r := s.workers[w];
    ReachesNext(s, TryAttach(w), s', settings);
    LossIsExact(s', settings, r.seen.lesson, r.id);
    assert forall v :: v in s'.workers <==> v in s.workers && v != w;
    if v :| v in s.workers && v != w && s.workers[v].id == r.id && Threatens(s.workers[v].stage) {
      assert v in s'.workers && s'.workers[v] == s.workers[v];
    }
  }

  // ---- A retry loses a package within the lock timeout ---------------------------------------

  /** A run whose every state is timely: no worker outlives its lock. */
  ghost predicate ReachesTimely(s: System, settings: Settings) {
    exists states: seq<System>, steps: seq<Step> ::
      && IsRun(states, steps, settings) && states[|steps|] == s
      && forall i :: 0 <= i < |states| ==> Timely(states[i], settings)
  }

  lemma TimelyNext(s: System, step: Step, s': System, settings: Settings)
    requires ReachesTimely(s, settings) && Next(s, step, s', settings) && Timely(s', settings)
    ensures ReachesTimely(s', settings)
  {
    var states: seq<System>, steps: seq<Step> :|
      && IsRun(states, steps, settings) && states[|steps|] == s
      && forall i :: 0 <= i < |states| ==> Timely(states[i], settings);
    var more, moreSteps := states + [s'], steps + [step];
    assert IsRun(more, moreSteps, settings) && more[|moreSteps|] == s';
    assert forall i :: 0 <= i < |more| ==> Timely(more[i], settings);
  }

  lemma TimelyNextOf(s: System, step: Step, s': System, settings: Settings)
    requires ReachesTimely(s, settings) && Next(s, step, s', settings) && NoNewClaims(s, s')
    ensures ReachesTimely(s', settings)
  {
    var states: seq<System>, steps: seq<Step> :|
      && IsRun(states, steps, settings) && states[|steps|] == s
      && forall i :: 0 <= i < |states| ==> Timely(states[i], settings);
    assert Timely(states[|steps|], settings);
    TimelyNext(s, step, s', settings);
  }

  /** Job 0 of lesson 0, whose source 0 the lesson plays, at the time `now`. */
  datatype Scene = Scene(
    job: Job,
    workers: map<WorkerId, Run>,
    requests: map<RequestId, Request>,
    now: int,
    generation: nat,
    claims: seq<ClaimRecord>)
  {
    function State(): System {
      System(Tables(map[0 := job], map[0 := Some(Source(0))], map[], {}), workers, requests, now,
             map[0 := generation], claims, {0})
    }

    ghost predicate Reached(settings: Settings) {
      ReachesTimely(State(), settings) && Timely(State(), settings) && job.lesson == 0 && job.source == 0
    }

    /** The scene after worker `w` has picked and claimed the job and found the lesson at its source. */
    function Taken(w: WorkerId): Scene {
      Scene(TakenJob(), workers[w := Run(Working, 0, job, now)], requests, now, generation, MoreClaims())
    }

    function TakenJob(): Job {
      job.(status := Transcoding, attempts := job.attempts + 1, lockedAt := Some(now), nextAttemptAt := now)
    }

    function MoreClaims(): seq<ClaimRecord> {
      claims + [ClaimRecord(0, generation, job.attempts + 1)]
    }
  }

  lemma ChooseStep(x: Scene, w: WorkerId, settings: Settings)
    requires w !in x.workers && Eligible(x.job, x.now, settings)
    ensures Next(x.State(), Choose(w, 0), x.(workers := x.workers[w := Run(Chosen, 0, x.job, x.now)]).State(), settings)
  {
  }

  lemma ClaimStep(x: Scene, w: WorkerId, settings: Settings)
    ensures Next(x.(workers := x.workers[w := Run(Chosen, 0, x.job, x.now)]).State(), TryClaim(w),
                 x.Taken(w).(workers := x.workers[w := Run(Stage.Claimed, 0, x.job, x.now)]).State(), settings)
  {
    assert x.workers[w := Run(Chosen, 0, x.job, x.now)][w := Run(Stage.Claimed, 0, x.job, x.now)]
        == x.workers[w := Run(Stage.Claimed, 0, x.job, x.now)];
    assert map[0 := x.job][0 := x.TakenJob()] == map[0 := x.TakenJob()];
  }

  lemma CheckStep(x: Scene, w: WorkerId, settings: Settings)
    requires x.job.lesson == 0 && x.job.source == 0
    ensures Next(x.Taken(w).(workers := x.workers[w := Run(Stage.Claimed, 0, x.job, x.now)]).State(), Check(w),
                 x.Taken(w).State(), settings)
  {
    assert x.workers[w := Run(Stage.Claimed, 0, x.job, x.now)][w := Run(Working, 0, x.job, x.now)]
        == x.workers[w := Run(Working, 0, x.job, x.now)];
  }

  /** Worker `w` picks the job, claims it and finds the lesson at its source. */
  lemma Takes(x: Scene, w: WorkerId, settings: Settings)
    requires x.Reached(settings) && w !in x.workers && Eligible(x.job, x.now, settings)
    ensures x.Taken(w).Reached(settings)
  {
    ChooseStep(x, w, settings);
    TimelyNext(x.State(), Choose(w, 0), x.(workers := x.workers[w := Run(Chosen, 0, x.job, x.now)]).State(), settings);
    ClaimStep(x, w, settings);
    TimelyNext(x.(workers := x.workers[w := Run(Chosen, 0, x.job, x.now)]).State(), TryClaim(w),
               x.Taken(w).(workers := x.workers[w := Run(Stage.Claimed, 0, x.job, x.now)]).State(), settings);
    CheckStep(x, w, settings);
    TimelyNext(x.Taken(w).(workers := x.workers[w := Run(Stage.Claimed, 0, x.job, x.now)]).State(), Check(w),
               x.Taken(w).State(), settings);
  }

  const NEW_JOB: Job := Job(0, 0, Pending, 0, None, 0, None)
  const UPLOADED: Scene := Scene(NEW_JOB, map[], map[], 0, 0, [])

  lemma JobIsNew(settings: Settings)
    ensures UPLOADED.Reached(settings)
  {
    var states, steps: seq<Step> := [START], [];
    assert IsRun(states, steps, settings) && states[|steps|] == START;
    TimelyNext(START, Replace(0, 0, 0), UPLOADED.State(), settings);
  }

  /** The job after its first attempt has failed. */
  function FailedJob(settings: Settings): Job {
    Job(0, 0, Failed, 1, None, if 1 < settings.maxAttempts then RetryDelay(1) else 0, None)
  }

  function FailedOnce(requests: map<RequestId, Request>, settings: Settings): Scene {
    Scene(FailedJob(settings), map[], requests, 0, 0, [ClaimRecord(0, 0, 1)])
  }

  const FAILING: Scene := UPLOADED.Taken(1).(workers := map[1 := Run(Failing, 0, NEW_JOB, 0)])

  /** The first attempt throws before anything is uploaded. */
  lemma AttemptThrows(settings: Settings)
    requires settings.maxAttempts >= 1
    ensures FAILING.Reached(settings)
  {
    JobIsNew(settings);
    Takes(UPLOADED, 1, settings);
    TimelyNextOf(UPLOADED.Taken(1).State(), Throw(1, false), FAILING.State(), settings);
  }

  lemma FailureIsRecorded(settings: Settings)
    ensures Next(FAILING.State(), Record(1), FailedOnce(map[], settings).State(), settings)
  {
    assert FAILING.workers - {1} == map[];
    assert map[0 := FAILING.job][0 := FailedJob(settings)] == map[0 := FailedJob(settings)];
  }

  lemma FailsOnce(settings: Settings)
    requires settings.maxAttempts >= 1
    ensures FailedOnce(map[], settings).Reached(settings)
  {
    AttemptThrows(settings);
    FailureIsRecorded(settings);
    TimelyNext(FAILING.State(), Record(1), FailedOnce(map[], settings).State(), settings);
  }

  /** An operator's request finds the job failed and the lesson at its source. */
  lemma Reads(x: Scene, q: RequestId, settings: Settings)
    requires x.Reached(settings) && x.job.status == Failed && q !in x.requests
    ensures x.(requests := x.requests[q := SawSource(0)]).Reached(settings)
  {
    var s1, s2 := x.(requests := x.requests[q := SawFailed(0)]), x.(requests := x.requests[q := SawSource(0)]);
    TimelyNextOf(x.State(), ReadForRetry(q, 0), s1.State(), settings);
    assert s1.requests[q := SawSource(0)] == s2.requests;
    TimelyNextOf(s1.State(), CheckForRetry(q), s2.State(), settings);
  }

  /** The request commits, whatever the job is by then. */
  lemma Retries(x: Scene, q: RequestId, settings: Settings)
    requires x.Reached(settings) && q in x.requests && x.requests[q] == SawSource(0)
    ensures Scene(Reset(x.job, x.now), x.workers, x.requests - {q}, x.now, x.generation + 1, x.claims).Reached(settings)
  {
    var x' := Scene(Reset(x.job, x.now), x.workers, x.requests - {q}, x.now, x.generation + 1, x.claims);
    assert map[0 := x.job][0 := x'.job] == map[0 := x'.job];
    TimelyNextOf(x.State(), Retry(q), x'.State(), settings);
  }

  /** Workers 1 and 2 both finish: the first one attaches the package, the second one deletes it. */
  lemma BothFinish(x: Scene, settings: Settings) returns (s: System)
    requires x.Reached(settings) && TwoWorking(x.State())
    ensures ReachesTimely(s, settings) && PlaysPackage(s, 0, 0) && 0 !in s.tables.packages
  {
    var s0 := x.State();
    var s1, s2 := FirstFinishes(s0, settings);
    TimelyNextOf(s0, Upload(1), s1, settings);
    TimelyNext(s1, TryAttach(1), s2, settings);
    var s3, s4, s5 := SecondDrops(s2, settings);
    TimelyNext(s2, Upload(2), s3, settings);
    TimelyNext(s3, TryAttach(2), s4, settings);
    TimelyNext(s4, Drop(2), s5, settings);
    s := s5;
  }

  /** Timeliness alone is not enough. An operator's request has found the job failed; when the delay is over a worker
      picks it again; then the request commits, a second worker picks the job, and deletes the package that the first
      one attached. */
  lemma RetryLosesPackage(settings: Settings) returns (s: System)
    requires settings.maxAttempts >= 2
    ensures ReachesTimely(s, settings) && PlaysPackage(s, 0, 0) && 0 !in s.tables.packages
  {
    FailsOnce(settings);
    Reads(FailedOnce(map[], settings), 1, settings);
    var x0 := FailedOnce(map[1 := SawSource(0)], settings);
    var x1 := x0.(now := RetryDelay(1));
    TimelyNext(x0.State(), Tick(RetryDelay(1)), x1.State(), settings);
    Takes(x1, 1, settings);
    Retries(x1.Taken(1), 1, settings);
    var x2 := Scene(Reset(x1.TakenJob(), x1.now), map[1 := Run(Working, 0, x1.job, x1.now)], map[], x1.now, 1,
                    x1.MoreClaims());
    assert x1.requests - {1} == x2.requests;
    Takes(x2, 2, settings);
    s := BothFinish(x2.Taken(2), settings);
  }

  /** With a single allowed attempt two requests do the same: both have found the job failed, the second one commits
      after a worker has picked the job that the first one reset. */
  lemma RetriesLosePackage(settings: Settings) returns (s: System)
    requires settings.maxAttempts >= 1
    ensures ReachesTimely(s, settings) && PlaysPackage(s, 0, 0) && 0 !in s.tables.packages
  {
    FailsOnce(settings);
    Reads(FailedOnce(map[], settings), 1, settings);
    Reads(FailedOnce(map[1 := SawSource(0)], settings), 2, settings);
    var x0 := FailedOnce(map[1 := SawSource(0), 2 := SawSource(0)], settings);
    assert map[1 := SawSource(0)][2 := SawSource(0)] == x0.requests;
    Retries(x0, 1, settings);
    var x1 := Scene(NEW_JOB, map[], map[2 := SawSource(0)], 0, 1, x0.claims);
    assert x0.requests - {1} == x1.requests;
    Takes(x1, 1, settings);
    Retries(x1.Taken(1), 2, settings);
    var x2 := Scene(NEW_JOB, map[1 := Run(Working, 0, NEW_JOB, 0)], map[], 0, 2, x1.MoreClaims());
    assert x1.requests - {2} == x2.requests;
    Takes(x2, 2, settings);
    s := BothFinish(x2.Taken(2), settings);
  }
}
