/** Every interleaving of transcode workers, with crashes, stale-lock takeovers, retries and replaced videos. */
module TranscodeRuns {
  import opened Wrappers
  import opened TranscodeJobs

  type WorkerId = nat

  type RequestId = nat

  /** Where a worker is between two of its awaited calls. `seen` is the job as it was picked, `at` when. */
  datatype Stage = Chosen | Claimed | Superseding | Working | Uploaded | Detached | Failing

  datatype Run = Run(stage: Stage, id: JobId, seen: Job, at: int)

  /** An operator's request to retry a job, between two of its awaited calls: it has found the job failed, and then
      the lesson at the job's source. */
  datatype Request = SawFailed(id: JobId) | SawSource(id: JobId)

  /** One successful claim; the generation counts the operator's retries of the job. */
  datatype ClaimRecord = ClaimRecord(id: JobId, generation: nat, attempt: nat)

  datatype System = System(
    tables: Tables,
    workers: map<WorkerId, Run>,
    requests: map<RequestId, Request>,
    now: int,
    generations: map<JobId, nat>,
    claims: seq<ClaimRecord>,
    used: set<SourceId>)

  datatype Step =
    | Choose(w: WorkerId, id: JobId)
    | TryClaim(w: WorkerId)
    | Check(w: WorkerId)
    | Supersede(w: WorkerId)
    | Upload(w: WorkerId)
    | TryAttach(w: WorkerId)
    | Drop(w: WorkerId)
    | Throw(w: WorkerId, deleted: bool)
    | Record(w: WorkerId)
    | Crash(w: WorkerId)
    | Tick(now: int)
    | Replace(lesson: LessonId, source: SourceId, id: JobId)
    | ReadForRetry(q: RequestId, id: JobId)
    | CheckForRetry(q: RequestId)
    | Retry(q: RequestId)

  const START: System := System(Tables(map[], map[], map[], {}), map[], map[], 0, map[], [], {})

  ghost predicate At(s: System, w: WorkerId, stage: Stage) {
    w in s.workers && s.workers[w].stage == stage && s.workers[w].id in s.tables.jobs
      && s.workers[w].id in s.generations
  }

  function Move(s: System, w: WorkerId, stage: Stage): System
    requires w in s.workers
  {
    s.(workers := s.workers[w := s.workers[w].(stage := stage)])
  }

  function Leave(s: System, w: WorkerId): System {
    s.(workers := s.workers - {w})
  }

  /** A worker reaches a call that can throw while its package may be stored. */
  predicate CanThrow(stage: Stage) {
    stage == Working || stage == Uploaded || stage == Detached
  }

  /** The job row that a retry writes, whatever the row is by then. */
  function Reset(job: Job, now: int): Job {
    job.(status := Pending, attempts := 0, nextAttemptAt := now, lockedAt := None, manifest := None)
  }

  /** One atomic step. A replaced video brings a new source and a new job; the old source is queued. */
  ghost predicate Next(s: System, step: Step, s': System, settings: Settings) {
    var t := s.tables;
    match step
    case Choose(w, id) =>
      w !in s.workers && id in t.jobs && id in s.generations && Eligible(t.jobs[id], s.now, settings)
      && s' == s.(workers := s.workers[w := Run(Chosen, id, t.jobs[id], s.now)])
    case TryClaim(w) =>
      At(s, w, Chosen)
      && (var r := s.workers[w];
          match Claim(t, r.id, r.seen, r.at)
          case None => s' == Leave(s, w)
          case Some(t') =>
            s' == Move(s, w, Claimed).(tables := t',
                                       claims := s.claims + [ClaimRecord(r.id, s.generations[r.id],
                                                                         r.seen.attempts + 1)]))
    case Check(w) =>
      At(s, w, Claimed) && s' == Move(s, w, if IsCurrent(t, s.workers[w].seen) then Working else Superseding)
    case Supersede(w) =>
      At(s, w, Superseding) && s' == Leave(s, w).(tables := MarkSuperseded(t, s.workers[w].id, s.now))
    case Upload(w) =>
      At(s, w, Working) && s' == Move(s, w, Uploaded).(tables := t.(packages := t.packages + {s.workers[w].id}))
    case TryAttach(w) =>
      At(s, w, Uploaded)
      && (var r := s.workers[w];
          s' == (if IsCurrent(t, r.seen) then Leave(s, w) else Move(s, w, Detached))
                .(tables := Attach(t, r.id, r.seen, s.now, settings.retention)))
    case Drop(w) =>
      At(s, w, Detached) && s' == Leave(s, w).(tables := t.(packages := t.packages - {s.workers[w].id}))
    case Throw(w, deleted) =>
      w in s.workers && CanThrow(s.workers[w].stage) && At(s, w, s.workers[w].stage)
      && s' == Move(s, w, Failing).(tables :=
                 if deleted && s.workers[w].stage != Working then t.(packages := t.packages - {s.workers[w].id}) else t)
    case Record(w) =>
      At(s, w, Failing)
      && s' == Leave(s, w).(tables := RecordFailure(t, s.workers[w].id, s.workers[w].seen.attempts + 1,
                                                    settings.maxAttempts, s.now))
    case Crash(w) => w in s.workers && s' == Leave(s, w)
    case Tick(now) => now >= s.now && s' == s.(now := now)
    case Replace(lesson, source, id) =>
      source !in s.used && id !in t.jobs
      && s' == s.(used := s.used + {source},
                  generations := s.generations[id := 0],
                  tables := t.(lessons := t.lessons[lesson := Some(Source(source))],
                               jobs := t.jobs[id := Job(lesson, source, Pending, 0, None, s.now, None)],
                               deletions := if lesson in t.lessons && t.lessons[lesson].Some?
                                 && t.lessons[lesson].value.Source?
                                            then t.deletions[t.lessons[lesson].value.id := s.now + settings.retention]
                                            else t.deletions))
    case ReadForRetry(q, id) =>
      q !in s.requests && id in t.jobs && t.jobs[id].status == Failed
      && s' == s.(requests := s.requests[q := SawFailed(id)])
    case CheckForRetry(q) =>
      q in s.requests && s.requests[q].SawFailed? && s.requests[q].id in t.jobs
      && var id := s.requests[q].id;
         s' == s.(requests := if IsCurrent(t, t.jobs[id]) then s.requests[q := SawSource(id)] else s.requests - {q})
    case Retry(q) =>
      q in s.requests && s.requests[q].SawSource?
      && (var id := s.requests[q].id;
          && id in t.jobs && id in s.generations
          && s' == s.(requests := s.requests - {q},
                      generations := s.generations[id := s.generations[id] + 1],
                      tables := t.(jobs := t.jobs[id := Reset(t.jobs[id], s.now)])))
  }

  /** A worker may pick exactly the jobs below the maximum that are pending or failed and due, or whose lock is
      older than the timeout; a claim then succeeds exactly while status and attempts stay as picked. */
  lemma PicksExactlyDueJobs(s: System, w: WorkerId, id: JobId, settings: Settings)
    requires w !in s.workers && id in s.tables.jobs && id in s.generations
    ensures var job := s.tables.jobs[id];
            (exists s' :: Next(s, Choose(w, id), s', settings)) <==>
              && job.attempts < settings.maxAttempts
              && ((job.status == Pending && job.nextAttemptAt <= s.now)
                  || (job.status == Failed && job.nextAttemptAt <= s.now)
                  || (job.status == Transcoding && job.lockedAt.Some?
                      && job.lockedAt.value < s.now - settings.lockTimeout))
  {
    assert Eligible(s.tables.jobs[id], s.now, settings) ==>
        Next(s, Choose(w, id), s.(workers := s.workers[w := Run(Chosen, id, s.tables.jobs[id], s.now)]), settings);
  }

  /** An operator's request goes on exactly from a failed job whose lesson is at the job's source, each found when it
      was read, and then resets the job whatever it is by then. */
  lemma RetriesAreExact(s: System, q: RequestId, id: JobId, settings: Settings)
    requires id in s.tables.jobs && id in s.generations && (q in s.requests ==> s.requests[q].id == id)
    ensures (exists s' :: Next(s, ReadForRetry(q, id), s', settings)) <==>
            q !in s.requests && s.tables.jobs[id].status == Failed
    ensures forall s' :: Next(s, ReadForRetry(q, id), s', settings) ==>
              s' == s.(requests := s.requests[q := SawFailed(id)])
    ensures (exists s' :: Next(s, CheckForRetry(q), s', settings)) <==> q in s.requests && s.requests[q].SawFailed?
    ensures forall s' :: Next(s, CheckForRetry(q), s', settings) ==>
              var job := s.tables.jobs[id];
              s' == s.(requests := if job.lesson in s.tables.lessons
                                      && s.tables.lessons[job.lesson] == Some(Source(job.source))
                                   then s.requests[q := SawSource(id)] else s.requests - {q})
    ensures (exists s' :: Next(s, Retry(q), s', settings)) <==> q in s.requests && s.requests[q].SawSource?
  {
    assert q !in s.requests && s.tables.jobs[id].status == Failed ==>
        Next(s, ReadForRetry(q, id), s.(requests := s.requests[q := SawFailed(id)]), settings);
    if q in s.requests && s.requests[q].SawFailed? {
      var current := IsCurrent(s.tables, s.tables.jobs[id]);
      assert Next(s, CheckForRetry(q),
                  s.(requests := if current then s.requests[q := SawSource(id)] else s.requests - {q}), settings);
    }
    if q in s.requests && s.requests[q].SawSource? {
      assert Next(s, Retry(q),
                  s.(requests := s.requests - {q}, generations := s.generations[id := s.generations[id] + 1],
                     tables := s.tables.(jobs := s.tables.jobs[id := Reset(s.tables.jobs[id], s.now)])), settings);
    }
  }

  /** A worker can fail exactly while its package may be stored, and a failure takes away nothing but that package,
      if it was uploaded. */
  lemma ThrowsAreExact(s: System, w: WorkerId, deleted: bool, settings: Settings)
    requires w in s.workers && s.workers[w].id in s.tables.jobs && s.workers[w].id in s.generations
    ensures (exists s' :: Next(s, Throw(w, deleted), s', settings)) <==>
            s.workers[w].stage in {Working, Uploaded, Detached}
    ensures forall s' :: Next(s, Throw(w, deleted), s', settings) ==>
              && s'.workers == s.workers[w := s.workers[w].(stage := Failing)]
              && s'.tables.packages == (if deleted && s.workers[w].stage in {Uploaded, Detached}
                                        then s.tables.packages - {s.workers[w].id} else s.tables.packages)
              && s' == s.(workers := s'.workers, tables := s.tables.(packages := s'.tables.packages))
  {
    var r := s.workers[w];
    var packages := if deleted && r.stage != Working then s.tables.packages - {r.id} else s.tables.packages;
    var s' := s.(workers := s.workers[w := r.(stage := Failing)], tables := s.tables.(packages := packages));
    assert r.stage in {Working, Uploaded, Detached} ==> Next(s, Throw(w, deleted), s', settings);
  }

  /** What a failed attempt writes: the job is failed and unlocked, and due again after 5, 30 or 120 minutes by its
      attempt, or at once when it was the last one. */
  lemma FailureIsExact(s: System, w: WorkerId, s': System, settings: Settings)
    requires Next(s, Record(w), s', settings)
    ensures var r := s.workers[w];
            && w !in s'.workers && s'.tables.jobs.Keys == s.tables.jobs.Keys
            && (forall j :: j in s.tables.jobs && j != r.id ==> s'.tables.jobs[j] == s.tables.jobs[j])
            && s'.tables.jobs[r.id] == s.tables.jobs[r.id].(
                 status := Failed, lockedAt := None,
                 nextAttemptAt := s.now + if r.seen.attempts + 1 >= settings.maxAttempts then 0
                                          else if r.seen.attempts == 0 then 5 * 60_000
                                          else if r.seen.attempts == 1 then 30 * 60_000
                                          else 120 * 60_000)
  {
  }

  /** What the other writes of a job row leave: a superseded job is unlocked, and a retried one starts afresh. */
  lemma RowWritesAreExact(s: System, step: Step, s': System, settings: Settings)
    requires Next(s, step, s', settings) && (step.Supersede? || step.Retry?)
    ensures var id := if step.Supersede? then s.workers[step.w].id else s.requests[step.q].id;
            && id in s.tables.jobs && s'.tables == s.tables.(jobs := s'.tables.jobs)
            && s'.tables.jobs.Keys == s.tables.jobs.Keys
            && (forall j :: j in s.tables.jobs && j != id ==> s'.tables.jobs[j] == s.tables.jobs[j])
            && var was := s.tables.jobs[id];
               s'.tables.jobs[id] ==
               if step.Supersede? then Job(was.lesson, was.source, Superseded, was.attempts, None, s.now, was.manifest)
               else Job(was.lesson, was.source, Pending, 0, None, s.now, None)
  {
  }

  /** A worker goes on exactly while the lesson still plays the source it picked, and otherwise supersedes the job. */
  lemma CheckIsExact(s: System, w: WorkerId, s': System, settings: Settings)
    requires Next(s, Check(w), s', settings)
    ensures var seen := s.workers[w].seen;
            && s'.tables == s.tables && w in s'.workers
            && s'.workers[w] == s.workers[w].(stage :=
                 if seen.lesson in s.tables.lessons && s.tables.lessons[seen.lesson] == Some(Source(seen.source))
                 then Working else Superseding)
            && s'.workers == s.workers[w := s'.workers[w]]
  {
  }

  ghost predicate IsRun(states: seq<System>, steps: seq<Step>, settings: Settings) {
    && |states| == |steps| + 1 && states[0] == START
    && forall i :: 0 <= i < |steps| ==> Next(states[i], steps[i], states[i + 1], settings)
  }

  // ---- Claims --------------------------------------------------------------------------------

  ghost predicate Bounded(s: System, settings: Settings) {
    && (forall j :: j in s.tables.jobs ==> j in s.generations && s.tables.jobs[j].attempts <= settings.maxAttempts)
    && (forall w :: w in s.workers ==> s.workers[w].seen.attempts < settings.maxAttempts)
  }

  /** The claim belongs to the job's current generation, up to its attempts, or to an earlier one. */
  ghost predicate Recorded(s: System, c: ClaimRecord, settings: Settings) {
    && c.id in s.tables.jobs && c.id in s.generations && 1 <= c.attempt <= settings.maxAttempts
    && (c.generation < s.generations[c.id]
        || (c.generation == s.generations[c.id] && c.attempt <= s.tables.jobs[c.id].attempts))
  }

  ghost predicate ClaimsInv(s: System, settings: Settings) {
    && Bounded(s, settings)
    && (forall i :: 0 <= i < |s.claims| ==> Recorded(s, s.claims[i], settings))
    && (forall i, k :: 0 <= i < k < |s.claims| ==> s.claims[i] != s.claims[k])
  }

  /** No job's attempts go back within a generation. */
  ghost predicate Forward(s: System, s': System) {
    forall j :: j in s.tables.jobs && j in s.generations ==>
      && j in s'.tables.jobs && j in s'.generations
      && (s.generations[j] < s'.generations[j]
          || (s.generations[j] == s'.generations[j] && s.tables.jobs[j].attempts <= s'.tables.jobs[j].attempts))
  }

  /** The steps that take or finish a claim. */
  predicate IsClaimStep(step: Step) {
    step.Choose? || step.TryClaim? || step.Check? || step.Crash? || step.Tick?
  }

  /** The steps of the operator. */
  predicate IsOperatorStep(step: Step) {
    step.Replace? || step.ReadForRetry? || step.CheckForRetry? || step.Retry?
  }

  /** A retry request that is not committed yet changes nothing but itself. */
  lemma RequestOnlyReads(s: System, step: Step, s': System, settings: Settings)
    requires Next(s, step, s', settings) && (step.ReadForRetry? || step.CheckForRetry?)
    ensures s' == s.(requests := s'.requests)
  {
  }

  lemma ClaimStepGoesForward(s: System, step: Step, s': System, settings: Settings)
    requires Bounded(s, settings) && Next(s, step, s', settings) && IsClaimStep(step)
    ensures Forward(s, s') && Bounded(s', settings) && (!step.TryClaim? ==> s'.claims == s.claims)
  {
  }

  lemma ReplaceGoesForward(s: System, lesson: LessonId, source: SourceId, id: JobId, s': System, settings: Settings)
    requires Bounded(s, settings) && Next(s, Replace(lesson, source, id), s', settings)
    ensures Forward(s, s') && Bounded(s', settings) && s'.claims == s.claims
  {
  }

  lemma RetryGoesForward(s: System, q: RequestId, s': System, settings: Settings)
    requires Bounded(s, settings) && Next(s, Retry(q), s', settings)
    ensures Forward(s, s') && Bounded(s', settings) && s'.claims == s.claims
  {
  }

  lemma OperatorStepGoesForward(s: System, step: Step, s': System, settings: Settings)
    requires Bounded(s, settings) && Next(s, step, s', settings) && IsOperatorStep(step)
    ensures Forward(s, s') && Bounded(s', settings) && s'.claims == s.claims
  {
    if step.Replace? {
      ReplaceGoesForward(s, step.lesson, step.source, step.id, s', settings);
    } else if step.Retry? {
      RetryGoesForward(s, step.q, s', settings);
    } else {
      RequestOnlyReads(s, step, s', settings);
    }
  }

  lemma RowStepGoesForward(s: System, step: Step, s': System, settings: Settings)
    requires Bounded(s, settings) && Next(s, step, s', settings)
    requires step.Supersede? || step.TryAttach? || step.Record?
    ensures Forward(s, s') && Bounded(s', settings) && s'.claims == s.claims
  {
  }

  lemma StoreStepGoesForward(s: System, step: Step, s': System, settings: Settings)
    requires Bounded(s, settings) && Next(s, step, s', settings) && (step.Upload? || step.Drop? || step.Throw?)
    ensures Forward(s, s') && Bounded(s', settings) && s'.claims == s.claims
  {
  }

  lemma StepGoesForward(s: System, step: Step, s': System, settings: Settings)
    requires Bounded(s, settings) && Next(s, step, s', settings)
    ensures Forward(s, s') && Bounded(s', settings) && (!step.TryClaim? ==> s'.claims == s.claims)
  {
    if IsClaimStep(step) {
      ClaimStepGoesForward(s, step, s', settings);
    } else if IsOperatorStep(step) {
      OperatorStepGoesForward(s, step, s', settings);
    } else if step.Upload? || step.Drop? || step.Throw? {
      StoreStepGoesForward(s, step, s', settings);
    } else {
      RowStepGoesForward(s, step, s', settings);
    }
  }

  lemma ForwardKeepsRecords(s: System, s': System, settings: Settings, i: nat)
    requires i < |s.claims| && Recorded(s, s.claims[i], settings) && Forward(s, s')
    ensures Recorded(s', s.claims[i], settings)
  {
  }

  lemma ClaimIsNew(s: System, w: WorkerId, s': System, settings: Settings)
    requires ClaimsInv(s, settings) && Next(s, TryClaim(w), s', settings) && s'.claims != s.claims
    ensures s'.claims[..|s.claims|] == s.claims && |s'.claims| == |s.claims| + 1
    ensures Recorded(s', s'.claims[|s.claims|], settings)
    ensures s'.claims[|s.claims|] !in s.claims
  {
    var r := s.workers[w];
    forall i | 0 <= i < |s.claims|
      ensures s.claims[i] != ClaimRecord(r.id, s.generations[r.id], r.seen.attempts + 1)
    {
      assert Recorded(s, s.claims[i], settings);
    }
  }

  lemma StepKeepsClaims(s: System, step: Step, s': System, settings: Settings)
    requires ClaimsInv(s, settings) && Next(s, step, s', settings)
    ensures ClaimsInv(s', settings)
  {
    StepGoesForward(s, step, s', settings);
    forall i | 0 <= i < |s.claims|
      ensures Recorded(s', s.claims[i], settings)
    {
      ForwardKeepsRecords(s, s', settings, i);
    }
    if s'.claims != s.claims {
      ClaimIsNew(s, step.w, s', settings);
    }
  }

  /** In every run, whatever is taken over, retried or crashed, each attempt of a job is claimed at most once, and no
      generation has more than the allowed attempts. */
  lemma {:induction false} EachAttemptClaimedOnce(states: seq<System>, steps: seq<Step>, settings: Settings, i: nat)
    requires IsRun(states, steps, settings) && i < |states|
    ensures ClaimsInv(states[i], settings)
  {
    if i > 0 {
      EachAttemptClaimedOnce(states, steps, settings, i - 1);
      StepKeepsClaims(states[i - 1], steps[i - 1], states[i], settings);
    }
  }
}
