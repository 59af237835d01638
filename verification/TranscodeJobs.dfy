/** The HLS transcode worker: the job, lesson, deletion and package stores, and its atomic updates of them. */
module TranscodeJobs {
  import opened Wrappers

  type JobId = nat
  type LessonId = nat
  type SourceId = nat

  /** What a lesson's video key names: an uploaded source file or the package of a job. Ids are opaque numbers. */
  datatype VideoKey = Source(id: SourceId) | Package(job: JobId)

  datatype JobStatus = Pending | Transcoding | Ready | Superseded | Failed

  /** Times are milliseconds. */
  datatype Job = Job(
    lesson: LessonId,
    source: SourceId,
    status: JobStatus,
    attempts: nat,
    lockedAt: Option<int>,
    nextAttemptAt: int,
    manifest: Option<VideoKey>)

  /** `deletions` holds when each queued source becomes eligible for deletion. */
  datatype Tables = Tables(
    jobs: map<JobId, Job>,
    lessons: map<LessonId, Option<VideoKey>>,
    deletions: map<SourceId, int>,
    packages: set<JobId>)

  datatype Settings = Settings(maxAttempts: nat, lockTimeout: nat, retention: nat)

  const MINUTE: int := 60_000

  function RetryDelay(attempt: int): int {
    if attempt <= 1 then 5 * MINUTE else if attempt == 2 then 30 * MINUTE else 120 * MINUTE
  }

  /** The jobs the poll may pick at time `now`. */
  predicate Eligible(job: Job, now: int, settings: Settings) {
    && job.attempts < settings.maxAttempts
    && (((job.status == Pending || job.status == Failed) && job.nextAttemptAt <= now)
        || (job.status == Transcoding && job.lockedAt.Some? && job.lockedAt.value < now - settings.lockTimeout))
  }

  /** The compare-and-swap on status and attempts; None when the job has moved on. */
  function Claim(t: Tables, id: JobId, seen: Job, now: int): Option<Tables> {
    if id in t.jobs && t.jobs[id].status == seen.status && t.jobs[id].attempts == seen.attempts then
      Some(t.(jobs := t.jobs[id := t.jobs[id].(status := Transcoding, attempts := seen.attempts + 1,
                                               lockedAt := Some(now), nextAttemptAt := now)]))
    else None
  }

  /** The lesson still plays the job's source. */
  predicate IsCurrent(t: Tables, job: Job) {
    job.lesson in t.lessons && t.lessons[job.lesson] == Some(Source(job.source))
  }

  function MarkSuperseded(t: Tables, id: JobId, now: int): Tables
    requires id in t.jobs
  {
    t.(jobs := t.jobs[id := t.jobs[id].(status := Superseded, lockedAt := None, nextAttemptAt := now)])
  }

  /** The attach transaction: the lesson moves to the package and its source is queued, or the job is superseded. */
  function Attach(t: Tables, id: JobId, job: Job, now: int, retention: nat): Tables
    requires id in t.jobs
  {
    if IsCurrent(t, job) then
      t.(lessons := t.lessons[job.lesson := Some(Package(id))],
         jobs := t.jobs[id := t.jobs[id].(status := Ready, manifest := Some(Package(id)), lockedAt := None,
                                          nextAttemptAt := now)],
         deletions := t.deletions[job.source := now + retention])
    else
      t.(jobs := t.jobs[id := t.jobs[id].(status := Superseded, manifest := None, lockedAt := None,
                                          nextAttemptAt := now)])
  }

  function RecordFailure(t: Tables, id: JobId, attempt: nat, maxAttempts: nat, now: int): Tables
    requires id in t.jobs
  {
    var next := if attempt < maxAttempts then now + RetryDelay(attempt) else now;
    t.(jobs := t.jobs[id := t.jobs[id].(status := Failed, lockedAt := None, nextAttemptAt := next)])
  }

  /** Where a run of the worker throws, and whether the clean-up then manages to delete the package. */
  datatype Trouble = NoTrouble | BeforeUpload | InTransaction(deleted: bool) | InDelete(deleted: bool)

  class Worker {
    const settings: Settings
    var jobs: map<JobId, Job>
    var lessons: map<LessonId, Option<VideoKey>>
    var deletions: map<SourceId, int>
    var packages: set<JobId>

    ghost function Value(): Tables
      reads this
    {
      Tables(jobs, lessons, deletions, packages)
    }

    constructor (settings: Settings)
      ensures this.settings == settings && Value() == Tables(map[], map[], map[], {})
    {
      this.settings := settings;
      jobs, lessons, deletions, packages := map[], map[], map[], {};
    }

    /** The claim takes the job exactly when its status and attempts are still the ones picked. */
    method TryClaim(id: JobId, seen: Job, now: int) returns (claimed: bool)
      modifies this`jobs
      ensures claimed <==>
                id in old(jobs) && old(jobs)[id].status == seen.status && old(jobs)[id].attempts == seen.attempts
      ensures !claimed ==> jobs == old(jobs)
      ensures claimed ==>
                && jobs.Keys == old(jobs).Keys && (forall j :: j in jobs && j != id ==> jobs[j] == old(jobs)[j])
                && jobs[id] == Job(old(jobs)[id].lesson, old(jobs)[id].source, Transcoding, seen.attempts + 1,
                                   Some(now), now, old(jobs)[id].manifest)
      ensures claimed == Claim(old(Value()), id, seen, now).Some?
      ensures Value() == if claimed then Claim(old(Value()), id, seen, now).value else old(Value())
    {
      claimed := id in jobs && jobs[id].status == seen.status && jobs[id].attempts == seen.attempts;
      if claimed {
        jobs := jobs[id := jobs[id].(status := Transcoding, attempts := seen.attempts + 1, lockedAt := Some(now),
                                     nextAttemptAt := now)];
      }
    }

    /** The lesson moves to the package and its source is queued exactly when the lesson still plays that source. */
    method AttachPackage(id: JobId, job: Job, now: int) returns (attached: bool)
      requires id in jobs
      modifies this`jobs, this`lessons, this`deletions
      ensures attached <==> job.lesson in old(lessons) && old(lessons)[job.lesson] == Some(Source(job.source))
      ensures attached ==>
                && lessons == old(lessons)[job.lesson := Some(Package(id))]
                && deletions == old(deletions)[job.source := now + settings.retention]
      ensures !attached ==> lessons == old(lessons) && deletions == old(deletions)
      ensures jobs.Keys == old(jobs).Keys && forall j :: j in jobs && j != id ==> jobs[j] == old(jobs)[j]
      ensures var was := old(jobs)[id];
              jobs[id] == Job(was.lesson, was.source, if attached then Ready else Superseded, was.attempts, None, now,
                              if attached then Some(Package(id)) else None)
      ensures attached == IsCurrent(old(Value()), job)
      ensures Value() == Attach(old(Value()), id, job, now, settings.retention)
    {
      attached := job.lesson in lessons && lessons[job.lesson] == Some(Source(job.source));
      if !attached {
        jobs := jobs[id := jobs[id].(status := Superseded, manifest := None, lockedAt := None, nextAttemptAt := now)];
      } else {
        lessons := lessons[job.lesson := Some(Package(id))];
        jobs := jobs[id := jobs[id].(status := Ready, manifest := Some(Package(id)), lockedAt := None,
                                     nextAttemptAt := now)];
        deletions := deletions[job.source := now + settings.retention];
      }
    }

    /** The failure path: a failed attempt is retried after its delay, the last one not at all. */
    method Fail(id: JobId, attempt: nat, now: int)
      requires id in jobs
      modifies this`jobs
      ensures Value() == RecordFailure(old(Value()), id, attempt, settings.maxAttempts, now)
    {
      var next := if attempt < settings.maxAttempts then now + RetryDelay(attempt) else now;
      jobs := jobs[id := jobs[id].(status := Failed, lockedAt := None, nextAttemptAt := next)];
    }

    /** Makes, uploads and attaches the package; a package that came too late is deleted. */
    method MakePackage(id: JobId, job: Job, now: int, trouble: Trouble) returns (uploaded: bool, thrown: bool)
      requires id in jobs
      modifies this
      ensures var t := old(Value()).(packages := old(packages) + {id});
              var t' := Attach(t, id, job, now, settings.retention);
              if trouble.BeforeUpload? then thrown && !uploaded && Value() == old(Value())
              else if trouble.InTransaction? then thrown && uploaded && Value() == t
              else if IsCurrent(t, job) then !thrown && uploaded && Value() == t'
              else if trouble.InDelete? then thrown && uploaded && Value() == t'
              else !thrown && !uploaded && Value() == t'.(packages := old(packages) - {id})
    {
      uploaded, thrown := false, trouble.BeforeUpload?;
      if !thrown {
        packages := packages + {id};
        uploaded := true;
        if trouble.InTransaction? {
          thrown := true;
        } else {
          var attached := AttachPackage(id, job, now);
          if !attached {
            if trouble.InDelete? {
              thrown := true;
            } else {
              packages := packages - {id};
              uploaded := false;
            }
          }
        }
      }
    }

    /** The claimed part of a poll. Whatever goes wrong, the lesson plays what it did before or the stored package, and
        a failed attempt is due again after 5, 30 or 120 minutes, or not at all. */
    method RunAttempt(id: JobId, job: Job, end: int, trouble: Trouble)
      requires id in jobs
      modifies this
      ensures jobs.Keys == old(jobs).Keys && forall other :: other in jobs && other != id ==>
                jobs[other] == old(jobs)[other]
      ensures var was := old(jobs)[id];
              && jobs[id].attempts == was.attempts && jobs[id].lockedAt == None
              && jobs[id].lesson == was.lesson && jobs[id].source == was.source
      ensures var still := job.lesson in old(lessons) && old(lessons)[job.lesson] == Some(Source(job.source));
              if (trouble.NoTrouble? || trouble.InDelete?) && still then
                && jobs[id].status == Ready && jobs[id].nextAttemptAt == end && jobs[id].manifest == Some(Package(id))
                && lessons == old(lessons)[job.lesson := Some(Package(id))]
                && deletions == old(deletions)[job.source := end + settings.retention]
                && packages == old(packages) + {id}
              else if trouble.NoTrouble? then
                && jobs[id].status == Superseded && jobs[id].nextAttemptAt == end
                && lessons == old(lessons) && deletions == old(deletions) && packages == old(packages) - {id}
              else
                && jobs[id].status == Failed && lessons == old(lessons) && deletions == old(deletions)
                && packages == (if trouble.BeforeUpload? then old(packages)
                                else if trouble.deleted then old(packages) - {id} else old(packages) + {id})
                && jobs[id].nextAttemptAt ==
                   if job.attempts + 1 >= settings.maxAttempts then end
                   else if job.attempts == 0 then end + 300_000
                   else if job.attempts == 1 then end + 1_800_000
                   else end + 7_200_000
    {
      var uploaded, thrown := MakePackage(id, job, end, trouble);
      if thrown {
        if uploaded && trouble.deleted {
          packages := packages - {id};
        }
        Fail(id, job.attempts + 1, end);
      }
    }

    /** One poll that no other worker interferes with; `edit` is what the lesson's video is changed to meanwhile, if
        it is. Whatever goes wrong, a lesson that was not edited plays its old source or the stored package, and the
        source is queued exactly when the lesson moved to the package. */
    method ProcessNext(candidate: Option<JobId>, now: int, end: int, edit: Option<Option<VideoKey>>, trouble: Trouble)
      returns (processed: bool)
      requires candidate.Some? ==>
                 && candidate.value in jobs
                 && var job := jobs[candidate.value];
                    && job.attempts < settings.maxAttempts
                    && ((job.status == Pending && job.nextAttemptAt <= now)
                        || (job.status == Failed && job.nextAttemptAt <= now)
                        || (job.status == Transcoding && job.lockedAt.Some?
                            && job.lockedAt.value < now - settings.lockTimeout))
      modifies this
      ensures processed == candidate.Some?
      ensures !processed ==> Value() == old(Value())
      ensures processed ==>
                var id := candidate.value;
                var job := old(jobs[id]);
                && jobs.Keys == old(jobs.Keys)
                && (forall other :: other in jobs && other != id ==> jobs[other] == old(jobs[other]))
                && jobs[id].attempts == job.attempts + 1 && jobs[id].lockedAt == None
                && jobs[id].lesson == job.lesson && jobs[id].source == job.source
                && (jobs[id].status == Ready ==> jobs[id].manifest == Some(Package(id)))
                && if !(job.lesson in old(lessons) && old(lessons)[job.lesson] == Some(Source(job.source))) then
                     && jobs[id].status == Superseded && jobs[id].nextAttemptAt == end
                     && lessons == old(lessons) && deletions == old(deletions) && packages == old(packages)
                   else
                     var playing := if edit.Some? then edit.value else Some(Source(job.source));
                     var still := playing == Some(Source(job.source));
                     if trouble.NoTrouble? || (trouble.InDelete? && still) then
                       if still then
                         && jobs[id].status == Ready && jobs[id].nextAttemptAt == end
                         && lessons == old(lessons)[job.lesson := Some(Package(id))]
                         && deletions == old(deletions)[job.source := end + settings.retention]
                         && packages == old(packages) + {id}
                       else
                         && jobs[id].status == Superseded && jobs[id].nextAttemptAt == end
                         && lessons == old(lessons)[job.lesson := playing]
                         && deletions == old(deletions) && packages == old(packages) - {id}
                     else
                       && jobs[id].status == Failed && lessons == old(lessons)[job.lesson := playing]
                       && deletions == old(deletions)
                       && packages == (if trouble.BeforeUpload? then old(packages)
                                       else if trouble.deleted then old(packages) - {id} else old(packages) + {id})
                       && jobs[id].nextAttemptAt ==
                          if job.attempts + 1 >= settings.maxAttempts then end
                          else if job.attempts == 0 then end + 300_000
                          else if job.attempts == 1 then end + 1_800_000
                          else end + 7_200_000
    {
      if candidate == None {
        return false;
      }
      var id := candidate.value;
      var job := jobs[id];
      var claimed := TryClaim(id, job, now);
      if !claimed {
        return true;
      }
      if !(job.lesson in lessons && lessons[job.lesson] == Some(Source(job.source))) {
        jobs := jobs[id := jobs[id].(status := Superseded, lockedAt := None, nextAttemptAt := end)];
        return true;
      }
      if edit.Some? {
        lessons := lessons[job.lesson := edit.value];
      }
      RunAttempt(id, job, end, trouble);
      return true;
    }
  }
}
