/**
 The operations on the registry of jobs (jobs.rs), each proved against what it makes of the
 list, and what every run of them keeps.
 */
module JobRegistry {
  import opened Basics
  import opened Jobs

  datatype State = State(jobs: seq<Job>, made: nat)

  ghost predicate Sound(s: State) {
    ValidJobs(s.jobs, s.made) && CountFinished(s.jobs) <= FINISHED_KEPT
  }

  function Enqueued(s: State, session: Session, kind: JobKind, sql: string): State {
    State(s.jobs + [Job(s.made + 1, session, kind, sql, None, None, Queued)], s.made + 1)
  }

  /** From now on job `id` runs, provided that it was queued in a session with no job running. */
  ghost function Started(jobs: seq<Job>, id: nat, now: nat): seq<Job> {
    var i := Where(jobs, id);
    if i < |jobs| && jobs[i].state.Queued? && !IsRunning(jobs, jobs[i].session)
    then jobs[i := jobs[i].(state := Running(0), started := Some(now))]
    else jobs
  }

  function Progressed(jobs: seq<Job>, id: nat, rows: nat): seq<Job> {
    var i := Where(jobs, id);
    if i < |jobs| && jobs[i].state.Running? then jobs[i := jobs[i].(state := Running(rows))] else jobs
  }

  /** What cancelling job `id` does, by the state it is in. */
  function CancelAnswer(jobs: seq<Job>, id: nat): Cancelling {
    var i := Where(jobs, id);
    if i == |jobs| then Nothing
    else if jobs[i].state.Queued? then Removed
    else if jobs[i].state.Running? then WasRunning
    else Nothing
  }

  function AfterCancel(jobs: seq<Job>, id: nat, now: nat): seq<Job> {
    match CancelAnswer(jobs, id)
    case Removed => Without(jobs, id)
    case WasRunning => Trimmed(Ended(jobs, id, Cancelled, now))
    case Nothing => jobs
  }

  function Without(jobs: seq<Job>, id: nat): seq<Job> {
    if jobs == [] then []
    else if jobs[0].id == id then Without(jobs[1..], id)
    else [jobs[0]] + Without(jobs[1..], id)
  }

  datatype Event =
    | Enqueue(session: Session, kind: JobKind, sql: string)
    | Start(id: nat, now: nat)
    | Progress(id: nat, rows: nat)
    | End(id: nat, state: JobState, now: nat)
    | Cancel(id: nat, now: nat)
    | Close(session: Session, now: nat)

  ghost function Next(s: State, e: Event): State {
    match e
    case Enqueue(session, kind, sql) => Enqueued(s, session, kind, sql)
    case Start(id, now) => s.(jobs := Started(s.jobs, id, now))
    case Progress(id, rows) => s.(jobs := Progressed(s.jobs, id, rows))
    case End(id, state, now) => s.(jobs := Trimmed(Ended(s.jobs, id, state, now)))
    case Cancel(id, now) => s.(jobs := AfterCancel(s.jobs, id, now))
    case Close(session, now) => s.(jobs := Trimmed(AllCancelled(s.jobs, session, now)))
  }

  /** The states a job ends in are final: done, failed or cancelled. */
  predicate Proper(e: Event) {
    e.End? ==> Final(e.state)
  }

  ghost function Run(events: seq<Event>): State
    decreases |events|
  {
    if events == [] then State([], 0) else Next(Run(events[..|events| - 1]), events[|events| - 1])
  }

  /**
   How a job goes on from an earlier list: it is one of those, unchanged if it was finished,
   or it was not made yet.
   */
  predicate GoesOn(before: State, job: Job) {
    || before.made < job.id
    || exists i :: 0 <= i < |before.jobs| && OneStepOn(before.jobs[i], job)
  }

  predicate OneStepOn(before: Job, job: Job) {
    && before.id == job.id && before.session == job.session && before.kind == job.kind && before.sql == job.sql
    && (Finished(before) ==> job == before)
    && (before.started.Some? ==> job.started == before.started && !job.state.Queued?)
  }

  // One list that differs from another job by job.

  /** Each job goes on as it is, or by a step that starts none in a session that runs one. */
  ghost predicate JobByJob(before: seq<Job>, after: seq<Job>, made: nat) {
    && |before| == |after|
    && forall i | 0 <= i < |before| ::
         && OneStepOn(before[i], after[i])
         && (Alone(before[i], made) ==> Alone(after[i], made))
         && (after[i].state.Running? && !before[i].state.Running? ==> !IsRunning(before, after[i].session))
  }

  /** At most one job of the list starts. */
  predicate OneStarts(before: seq<Job>, after: seq<Job>)
    requires |before| == |after|
  {
    forall i, j | 0 <= i < j < |before| ::
      !(after[i].state.Running? && !before[i].state.Running? && after[j].state.Running? && !before[j].state.Running?)
  }

  lemma JobByJobKeepsValid(before: seq<Job>, after: seq<Job>, made: nat)
    requires ValidJobs(before, made) && JobByJob(before, after, made) && OneStarts(before, after)
    ensures ValidJobs(after, made)
  {
    hide Alone;
    forall i, j | 0 <= i < j < |after|
      ensures Apart(after[i], after[j])
    {
      assert Apart(before[i], before[j]);
    }
  }

  lemma {:induction false} SameCount(before: seq<Job>, after: seq<Job>)
    requires |before| == |after| && forall i | 0 <= i < |before| :: Finished(before[i]) == Finished(after[i])
    ensures CountFinished(before) == CountFinished(after)
  {
    if before != [] {
      SameCount(before[1..], after[1..]);
    }
  }

  lemma {:induction false} CountConcat(a: seq<Job>, b: seq<Job>)
    ensures CountFinished(a + b) == CountFinished(a) + CountFinished(b)
  {
    if a == [] {
      assert a + b == b;
    } else {
      CountConcat(a[1..], b);
      assert (a + b)[1..] == a[1..] + b;
    }
  }

  // Each operation, job by job.

  lemma StaysAsItIs(job: Job, made: nat)
    requires Alone(job, made)
    ensures OneStepOn(job, job)
  {
  }

  lemma OneChanged(jobs: seq<Job>, i: nat, job: Job, made: nat)
    requires ValidJobs(jobs, made) && i < |jobs| && OneStepOn(jobs[i], job) && Alone(job, made)
    requires job.state.Running? && !jobs[i].state.Running? ==> !IsRunning(jobs, job.session)
    ensures JobByJob(jobs, jobs[i := job], made) && OneStarts(jobs, jobs[i := job])
  {
    hide Alone, OneStepOn, IsRunning, Apart;
    forall k | 0 <= k < |jobs|
      ensures OneStepOn(jobs[k], jobs[k])
    {
      StaysAsItIs(jobs[k], made);
    }
  }

  lemma StartedStep(jobs: seq<Job>, id: nat, now: nat, made: nat)
    requires ValidJobs(jobs, made)
    ensures JobByJob(jobs, Started(jobs, id, now), made) && OneStarts(jobs, Started(jobs, id, now))
    ensures CountFinished(Started(jobs, id, now)) == CountFinished(jobs)
  {
    hide IsRunning, Apart, JobByJob, OneStarts, CountFinished;
    SameCount(jobs, Started(jobs, id, now));
    var i := Where(jobs, id);
    NoneChanged(jobs, made);
    if i < |jobs| {
      StaysAsItIs(jobs[i], made);
      OneChanged(jobs, i, Started(jobs, id, now)[i], made);
    }
  }

  lemma NoneChanged(jobs: seq<Job>, made: nat)
    requires ValidJobs(jobs, made)
    ensures JobByJob(jobs, jobs, made) && OneStarts(jobs, jobs)
  {
    hide IsRunning, Apart;
  }

  lemma ProgressedStep(jobs: seq<Job>, id: nat, rows: nat, made: nat)
    requires ValidJobs(jobs, made)
    ensures JobByJob(jobs, Progressed(jobs, id, rows), made) && OneStarts(jobs, Progressed(jobs, id, rows))
    ensures CountFinished(Progressed(jobs, id, rows)) == CountFinished(jobs)
  {
    hide IsRunning, Apart, JobByJob, OneStarts, CountFinished;
    SameCount(jobs, Progressed(jobs, id, rows));
    var i := Where(jobs, id);
    NoneChanged(jobs, made);
    if i < |jobs| {
      StaysAsItIs(jobs[i], made);
      OneChanged(jobs, i, Progressed(jobs, id, rows)[i], made);
    }
  }

  lemma {:induction false} EndedStep(jobs: seq<Job>, id: nat, state: JobState, now: nat, made: nat)
    requires ValidJobs(jobs, made) && Final(state)
    ensures JobByJob(jobs, Ended(jobs, id, state, now), made) && OneStarts(jobs, Ended(jobs, id, state, now))
  {
    EndedAt(jobs, id, state, now);
    hide Ended;
  }

  lemma AllCancelledStep(jobs: seq<Job>, session: Session, now: nat, made: nat)
    requires ValidJobs(jobs, made)
    ensures JobByJob(jobs, AllCancelled(jobs, session, now), made)
    ensures OneStarts(jobs, AllCancelled(jobs, session, now))
  {
  }

  /** Trimming a list that goes on job by job. */
  lemma ThenTrimmed(s: State, after: seq<Job>)
    requires ValidJobs(s.jobs, s.made) && JobByJob(s.jobs, after, s.made) && OneStarts(s.jobs, after)
    ensures Sound(State(Trimmed(after), s.made))
    ensures forall job | job in Trimmed(after) :: GoesOn(s, job)
  {
    hide JobByJob, ValidJobs, OneStepOn;
    JobByJobKeepsValid(s.jobs, after, s.made);
    TrimmedKeepsValid(after, s.made);
    TrimmedCount(after);
    forall job | job in Trimmed(after)
      ensures GoesOn(s, job)
    {
      TrimmedMembers(after, job);
      JobByJobGoesOn(s, after, job);
    }
  }

  lemma JobByJobGoesOn(s: State, after: seq<Job>, job: Job)
    requires JobByJob(s.jobs, after, s.made) && job in after
    ensures GoesOn(s, job)
  {
    hide OneStepOn;
    var i :| 0 <= i < |after| && after[i] == job;
    assert OneStepOn(s.jobs[i], after[i]);
  }

  lemma {:induction false} WithoutMembers(jobs: seq<Job>, id: nat, job: Job)
    ensures job in Without(jobs, id) <==> job in jobs && job.id != id
  {
    if jobs != [] {
      WithoutMembers(jobs[1..], id, job);
    }
  }

  lemma {:induction false} WithoutCount(jobs: seq<Job>, id: nat)
    ensures CountFinished(Without(jobs, id)) <= CountFinished(jobs)
  {
    if jobs != [] {
      WithoutCount(jobs[1..], id);
      if jobs[0].id != id {
        assert Without(jobs, id)[1..] == Without(jobs[1..], id);
      }
    }
  }

  lemma {:induction false} WithoutKeepsValid(jobs: seq<Job>, id: nat, made: nat)
    requires ValidJobs(jobs, made)
    ensures ValidJobs(Without(jobs, id), made)
  {
    hide Alone, Apart;
    if jobs != [] {
      var rest := jobs[1..];
      WithoutKeepsValid(rest, id, made);
      forall i | 0 <= i < |Without(rest, id)|
        ensures Apart(jobs[0], Without(rest, id)[i])
      {
        WithoutMembers(rest, id, Without(rest, id)[i]);
      }
    }
  }

  // Every operation.

  lemma EnqueuedKeeps(s: State, session: Session, kind: JobKind, sql: string)
    requires Sound(s)
    ensures Sound(Enqueued(s, session, kind, sql))
    ensures forall job | job in Enqueued(s, session, kind, sql).jobs :: GoesOn(s, job)
  {
    hide CountFinished;
    var job := Job(s.made + 1, session, kind, sql, None, None, Queued);
    CountConcat(s.jobs, [job]);
    assert CountFinished([job]) == 0 by { CountOne(job); }
    NoneChanged(s.jobs, s.made);
    forall other | other in s.jobs
      ensures GoesOn(s, other)
    {
      JobByJobGoesOn(s, s.jobs, other);
    }
  }

  lemma CountOne(job: Job)
    ensures CountFinished([job]) == if Finished(job) then 1 else 0
  {
  }

  lemma CancelledKeeps(s: State, id: nat, now: nat)
    requires Sound(s)
    ensures Sound(s.(jobs := AfterCancel(s.jobs, id, now)))
    ensures forall job | job in AfterCancel(s.jobs, id, now) :: GoesOn(s, job)
  {
    hide ValidJobs, JobByJob, OneStarts, GoesOn, CountFinished;
    NoneChanged(s.jobs, s.made);
    forall job | job in s.jobs
      ensures GoesOn(s, job)
    {
      JobByJobGoesOn(s, s.jobs, job);
    }
    match CancelAnswer(s.jobs, id) {
      case Removed =>
        WithoutKeepsValid(s.jobs, id, s.made);
        WithoutCount(s.jobs, id);
        forall job | job in Without(s.jobs, id)
          ensures job in s.jobs
        {
          WithoutMembers(s.jobs, id, job);
        }
      case WasRunning =>
        EndedStep(s.jobs, id, Cancelled, now, s.made);
        ThenTrimmed(s, Ended(s.jobs, id, Cancelled, now));
      case Nothing =>
    }
  }

  lemma OneStepKeeps(s: State, after: seq<Job>)
    requires Sound(s) && JobByJob(s.jobs, after, s.made) && OneStarts(s.jobs, after)
    requires CountFinished(after) == CountFinished(s.jobs)
    ensures Sound(s.(jobs := after))
    ensures forall job | job in after :: GoesOn(s, job)
  {
    hide ValidJobs, JobByJob, OneStarts, GoesOn;
    JobByJobKeepsValid(s.jobs, after, s.made);
    forall job | job in after
      ensures GoesOn(s, job)
    {
      JobByJobGoesOn(s, after, job);
    }
  }

  /** Whatever happens, the registry stays valid, and every job in it goes on from one that was. */
  lemma NextKeeps(s: State, e: Event)
    requires Sound(s) && Proper(e)
    ensures Sound(Next(s, e)) && s.made <= Next(s, e).made
    ensures forall job | job in Next(s, e).jobs :: GoesOn(s, job)
  {
    hide ValidJobs, JobByJob, OneStarts, GoesOn, CountFinished, Started, Progressed, Ended, Trimmed, AllCancelled,
         AfterCancel;
    match e {
      case Enqueue(session, kind, sql) =>
        EnqueuedKeeps(s, session, kind, sql);
      case Start(id, now) =>
        StartedStep(s.jobs, id, now, s.made);
        OneStepKeeps(s, Started(s.jobs, id, now));
      case Progress(id, rows) =>
        ProgressedStep(s.jobs, id, rows, s.made);
        OneStepKeeps(s, Progressed(s.jobs, id, rows));
      case End(id, state, now) =>
        EndedStep(s.jobs, id, state, now, s.made);
        ThenTrimmed(s, Ended(s.jobs, id, state, now));
      case Cancel(id, now) =>
        CancelledKeeps(s, id, now);
      case Close(session, now) =>
        AllCancelledStep(s.jobs, session, now, s.made);
        ThenTrimmed(s, AllCancelled(s.jobs, session, now));
    }
  }

  /**
   Every reachable registry: numbers strictly increase, at most one job runs in each session,
   every job has the times its state says, and at most fifty finished jobs are kept.
   */
  lemma {:induction false} RunIsValid(events: seq<Event>)
    requires forall e | e in events :: Proper(e)
    ensures Sound(Run(events))
    decreases |events|
  {
    hide Next, ValidJobs;
    if events == [] {
      assert ValidJobs([], 0) by { NoJobs(); }
    } else {
      RunIsValid(events[..|events| - 1]);
      NextKeeps(Run(events[..|events| - 1]), events[|events| - 1]);
    }
  }

  lemma NoJobs()
    ensures ValidJobs([], 0)
  {
  }

  /** Every job of a later list goes on from one of an earlier, or was made since. */
  lemma {:induction false} LaterJobsGoOn(events: seq<Event>, more: seq<Event>)
    requires forall e | e in events + more :: Proper(e)
    ensures Run(events).made <= Run(events + more).made
    ensures forall job | job in Run(events + more).jobs :: GoesOn(Run(events), job)
    decreases |more|
  {
    hide Next, Sound, GoesOn;
    if more == [] {
      assert events + more == events;
      RunIsValid(events);
      forall job | job in Run(events).jobs
        ensures GoesOn(Run(events), job)
      {
        AllGoOn(Run(events), job);
      }
    } else {
      var n := |more| - 1;
      assert (events + more)[..|events + more| - 1] == events + more[..n];
      LaterJobsGoOn(events, more[..n]);
      RunIsValid(events + more[..n]);
      var s := Run(events + more[..n]);
      NextKeeps(s, more[n]);
      forall job | job in Run(events + more).jobs
        ensures GoesOn(Run(events), job)
      {
        ThenGoesOn(Run(events), s, job);
      }
    }
  }

  lemma AllGoOn(s: State, job: Job)
    requires Sound(s) && job in s.jobs
    ensures GoesOn(s, job)
  {
    hide ValidJobs, JobByJob;
    NoneChanged(s.jobs, s.made);
    JobByJobGoesOn(s, s.jobs, job);
  }

  lemma ThenGoesOn(first: State, second: State, job: Job)
    requires first.made <= second.made
    requires forall between | between in second.jobs :: GoesOn(first, between)
    requires GoesOn(second, job)
    ensures GoesOn(first, job)
  {
    if job.id <= second.made {
      var i :| 0 <= i < |second.jobs| && OneStepOn(second.jobs[i], job);
      assert GoesOn(first, second.jobs[i]);
      if second.jobs[i].id <= first.made {
        var k :| 0 <= k < |first.jobs| && OneStepOn(first.jobs[k], second.jobs[i]);
        assert OneStepOn(first.jobs[k], job);
      }
    }
  }

  /** A finished job never changes: later it is the same, or it is gone for good. */
  lemma FinishedNeverChange(events: seq<Event>, more: seq<Event>, job: Job, later: Job)
    requires forall e | e in events + more :: Proper(e)
    requires job in Run(events).jobs && Finished(job)
    requires later in Run(events + more).jobs && later.id == job.id
    ensures later == job
  {
    hide Run, Alone;
    RunIsValid(events);
    LaterJobsGoOn(events, more);
    var s := Run(events);
    assert GoesOn(s, later);
    var k :| 0 <= k < |s.jobs| && s.jobs[k] == job;
    assert Alone(s.jobs[k], s.made);
    assert job.id <= s.made by { AloneMade(job, s.made); }
    var i :| 0 <= i < |s.jobs| && OneStepOn(s.jobs[i], later);
    assert i < k ==> Apart(s.jobs[i], s.jobs[k]);
    assert k < i ==> Apart(s.jobs[k], s.jobs[i]);
  }

  lemma AloneMade(job: Job, made: nat)
    requires Alone(job, made)
    ensures job.id <= made
  {
  }

  /** A job that is gone never comes back: its number is not given out again. */
  lemma GoneForGood(events: seq<Event>, more: seq<Event>, id: nat)
    requires forall e | e in events + more :: Proper(e)
    requires id <= Run(events).made && forall job | job in Run(events).jobs :: job.id != id
    ensures forall job | job in Run(events + more).jobs :: job.id != id
  {
    hide Run;
    LaterJobsGoOn(events, more);
    var s := Run(events);
    forall job | job in Run(events + more).jobs
      ensures job.id != id
    {
      assert GoesOn(s, job);
      assert forall i | 0 <= i < |s.jobs| && OneStepOn(s.jobs[i], job) :: s.jobs[i] in s.jobs && s.jobs[i].id != id;
    }
  }

  // What becomes of a job, event by event.

  /** What `e` makes of the job `before`, if it is still listed then. */
  ghost predicate Becomes(jobs: seq<Job>, e: Event, before: Job, after: Job) {
    match e
    case Enqueue(_, _, _) => after == before
    case Start(id, now) =>
      if before.id == id && before.state.Queued? && !IsRunning(jobs, before.session)
      then after == Job(before.id, before.session, before.kind, before.sql, Some(now), before.finished, Running(0))
      else after == before
    case Progress(id, rows) =>
      if before.id == id && before.state.Running?
      then after == Job(before.id, before.session, before.kind, before.sql, before.started, before.finished,
                        Running(rows))
      else after == before
    case End(id, state, now) =>
      if before.id == id && !Finished(before) then EndedAs(before, after, state, now) else after == before
    case Cancel(id, now) =>
      if before.id == id && before.state.Running? then EndedAs(before, after, Cancelled, now) else after == before
    case Close(session, now) =>
      if before.session == session && !Finished(before) then EndedAs(before, after, Cancelled, now)
      else after == before
  }

  /** Every job listed afterwards is one from before as the event makes it, or the one it adds, queued. */
  ghost predicate OnlyAs(jobs: seq<Job>, made: nat, e: Event, after: seq<Job>) {
    forall job | job in after ::
      || (e.Enqueue? && job == Job(made + 1, e.session, e.kind, e.sql, None, None, Queued))
      || exists before :: before in jobs && Becomes(jobs, e, before, job)
  }

  /** Nothing that has not ended goes but a queued job that is cancelled. */
  ghost predicate OpenStay(jobs: seq<Job>, e: Event, after: seq<Job>) {
    forall job | job in jobs && !Finished(job) && !(e.Cancel? && e.id == job.id && job.state.Queued?) ::
      || (exists now :: now in after && now.id == job.id)
      || exists ended :: Finished(ended) && Becomes(jobs, e, job, ended)
  }

  lemma NextIs(s: State, e: Event)
    requires Sound(s)
    ensures OnlyAs(s.jobs, s.made, e, Next(s, e).jobs)
  {
    hide ValidJobs, CountFinished, Trimmed, Ended, IsRunning, EndedAs, Sound;
    assert Distinct(s.jobs) by { SoundIsDistinct(s); }
    forall job | && job in Next(s, e).jobs
                 && !(e.Enqueue? && job == Job(s.made + 1, e.session, e.kind, e.sql, None, None, Queued))
      ensures exists before :: before in s.jobs && Becomes(s.jobs, e, before, job)
    {
      match e {
        case Enqueue(_, _, _) =>
          assert Becomes(s.jobs, e, job, job);
        case Start(id, now) =>
          ChangedAt(s.jobs, Started(s.jobs, id, now), e, Where(s.jobs, id), job);
        case Progress(id, rows) =>
          ChangedAt(s.jobs, Progressed(s.jobs, id, rows), e, Where(s.jobs, id), job);
        case End(id, state, now) =>
          EndedAt(s.jobs, id, state, now);
          TrimmedMembers(Ended(s.jobs, id, state, now), job);
          EndIsAs(s.jobs, id, state, now);
          ChangedAt(s.jobs, Ended(s.jobs, id, state, now), e, Where(s.jobs, id), job);
        case Cancel(id, now) =>
          CancelIs(s, id, now, job);
        case Close(session, now) =>
          TrimmedMembers(AllCancelled(s.jobs, session, now), job);
          var i :| 0 <= i < |s.jobs| && AllCancelled(s.jobs, session, now)[i] == job;
          EndOfIs(s.jobs[i], Cancelled, now);
          assert Becomes(s.jobs, e, s.jobs[i], job);
      }
    }
  }

  lemma SoundIsDistinct(s: State)
    requires Sound(s)
    ensures Distinct(s.jobs)
  {
    NumbersDiffer(s.jobs, s.made);
  }

  /** A list that differs at one place, from where the event makes of the job what stands there. */
  lemma ChangedAt(jobs: seq<Job>, after: seq<Job>, e: Event, at: nat, job: Job)
    requires |after| == |jobs| && job in after
    requires forall i | 0 <= i < |jobs| && i != at :: after[i] == jobs[i] && Becomes(jobs, e, jobs[i], jobs[i])
    requires at < |jobs| ==> Becomes(jobs, e, jobs[at], after[at])
    ensures exists before :: before in jobs && Becomes(jobs, e, before, job)
  {
    hide Becomes;
    var i :| 0 <= i < |after| && after[i] == job;
    assert jobs[i] in jobs && Becomes(jobs, e, jobs[i], job);
  }

  lemma EndOfIs(job: Job, state: JobState, now: nat)
    ensures if Finished(job) then EndOf(job, state, now) == job else EndedAs(job, EndOf(job, state, now), state, now)
  {
  }

  lemma EndIsAs(jobs: seq<Job>, id: nat, state: JobState, now: nat)
    ensures var i := Where(jobs, id);
            i < |jobs| && !Finished(jobs[i]) ==> EndedAs(jobs[i], EndOf(jobs[i], state, now), state, now)
  {
  }

  lemma CancelIs(s: State, id: nat, now: nat, job: Job)
    requires Sound(s) && job in AfterCancel(s.jobs, id, now)
    ensures exists before :: before in s.jobs && Becomes(s.jobs, Event.Cancel(id, now), before, job)
  {
    hide ValidJobs, CountFinished, Trimmed, Ended, IsRunning, EndedAs, Sound;
    SoundIsDistinct(s);
    match CancelAnswer(s.jobs, id) {
      case Removed =>
        WithoutMembers(s.jobs, id, job);
        assert Becomes(s.jobs, Event.Cancel(id, now), job, job);
      case WasRunning =>
        EndedAt(s.jobs, id, Cancelled, now);
        TrimmedMembers(Ended(s.jobs, id, Cancelled, now), job);
        EndIsAs(s.jobs, id, Cancelled, now);
        ChangedAt(s.jobs, Ended(s.jobs, id, Cancelled, now), Event.Cancel(id, now), Where(s.jobs, id), job);
      case Nothing =>
        var i := Where(s.jobs, id);
        ChangedAt(s.jobs, s.jobs, Event.Cancel(id, now), i, job);
    }
  }

  /** `e` ended `job`, in the state and at the time that it says. */
  predicate Ends(e: Event, job: Job) {
    match e
    case End(id, state, now) => id == job.id && job.state == state && job.finished == Some(now)
    case Cancel(id, now) => id == job.id && job.state == Cancelled && job.finished == Some(now)
    case Close(session, now) => session == job.session && job.state == Cancelled && job.finished == Some(now)
    case _ => false
  }

  /** The `k`th event found `job` open and ended it so. */
  ghost predicate EndedBy(events: seq<Event>, k: nat, job: Job) {
    && k < |events| && Ends(events[k], job)
    && exists before :: before in Run(events[..k]).jobs && before.id == job.id && !Finished(before)
  }

  /** Over any run, a job that has ended did so by the first event that ends it: its state and its end are that
      one's. */
  lemma {:induction false} FirstEndCounts(events: seq<Event>, job: Job)
    requires forall e | e in events :: Proper(e)
    requires job in Run(events).jobs && Finished(job)
    ensures exists k :: EndedBy(events, k, job)
    decreases |events|
  {
    hide Next, IsRunning, OnlyAs;
    var n := |events| - 1;
    var s, e := Run(events[..n]), events[n];
    RunIsValid(events[..n]);
    NextIs(s, e);
    var before := FromBefore(s, e, job);
    if Finished(before) {
      FirstEndCounts(events[..n], job);
      var k: nat :| EndedBy(events[..n], k, job);
      assert events[..n][..k] == events[..k];
      assert EndedBy(events, k, job);
    } else {
      assert EndedBy(events, n, job);
    }
  }

  /** A job that is not queued was listed before the event. */
  lemma FromBefore(s: State, e: Event, job: Job) returns (before: Job)
    requires OnlyAs(s.jobs, s.made, e, Next(s, e).jobs) && job in Next(s, e).jobs && !job.state.Queued?
    ensures before in s.jobs && Becomes(s.jobs, e, before, job) && before.id == job.id
    ensures Finished(before) ==> before == job
  {
    hide Next, Becomes;
    before :| before in s.jobs && Becomes(s.jobs, e, before, job);
    BecomesTheSame(s.jobs, e, before, job);
  }

  lemma BecomesTheSame(jobs: seq<Job>, e: Event, before: Job, after: Job)
    requires Becomes(jobs, e, before, after)
    ensures after.id == before.id && (Finished(before) ==> after == before)
  {
    hide IsRunning;
  }

  /** The `k`th event started `job` or gave the rows it has, and none after it gives others. */
  ghost predicate LastHeard(events: seq<Event>, k: nat, job: Job) {
    && k < |events| && job.state.Running?
    && (events[k] == Event.Progress(job.id, job.state.rows)
        || (job.started.Some? && events[k] == Event.Start(job.id, job.started.value) && job.state.rows == 0))
    && forall m | k < m < |events| :: !(events[m].Progress? && events[m].id == job.id)
  }

  /** Over any run, a job that runs has the rows of its last progress, or none since it started. */
  lemma {:induction false} RowsAreTheLast(events: seq<Event>, job: Job)
    requires forall e | e in events :: Proper(e)
    requires job in Run(events).jobs && job.state.Running?
    ensures exists k :: LastHeard(events, k, job)
    decreases |events|
  {
    hide Next, IsRunning, OnlyAs, Sound;
    var n := |events| - 1;
    var s, e := Run(events[..n]), events[n];
    RunIsValid(events[..n]);
    NextIs(s, e);
    var before := FromBefore(s, e, job);
    assert e in events && Proper(e);
    if (e.Progress? && e.id == job.id) || !before.state.Running? {
      assert LastHeard(events, n, job);
    } else {
      assert before == job;
      RowsAreTheLast(events[..n], job);
      var k: nat :| LastHeard(events[..n], k, job);
      assert LastHeard(events, k, job);
    }
  }

  lemma OpenStays(s: State, e: Event)
    requires Sound(s) && Proper(e)
    ensures OpenStay(s.jobs, e, Next(s, e).jobs)
  {
    hide ValidJobs, CountFinished, Trimmed, IsRunning, Sound;
    forall job | job in s.jobs && !Finished(job) && !(e.Cancel? && e.id == job.id && job.state.Queued?)
      ensures (exists now :: now in Next(s, e).jobs && now.id == job.id)
              || exists ended :: Finished(ended) && Becomes(s.jobs, e, job, ended)
    {
      var i :| 0 <= i < |s.jobs| && s.jobs[i] == job;
      match e {
        case Enqueue(_, _, _) =>
          assert job in Next(s, e).jobs;
        case Start(id, now) =>
          assert Started(s.jobs, id, now)[i].id == job.id && Started(s.jobs, id, now)[i] in Next(s, e).jobs;
        case Progress(id, rows) =>
          assert Progressed(s.jobs, id, rows)[i].id == job.id && Progressed(s.jobs, id, rows)[i] in Next(s, e).jobs;
        case End(id, state, now) =>
          EndedAt(s.jobs, id, state, now);
          hide Ended;
          if job.id == id {
            EndOfIs(job, state, now);
            assert Becomes(s.jobs, e, job, EndOf(job, state, now));
          } else {
            assert Ended(s.jobs, id, state, now)[i] == job;
            OpenIsKept(Ended(s.jobs, id, state, now), job);
          }
        case Cancel(id, now) =>
          CancelKeepsOpen(s.jobs, id, now, i);
        case Close(session, now) =>
          if job.session == session {
            EndOfIs(job, Cancelled, now);
            assert Becomes(s.jobs, e, job, EndOf(job, Cancelled, now));
          } else {
            assert AllCancelled(s.jobs, session, now)[i] == job;
            OpenIsKept(AllCancelled(s.jobs, session, now), job);
          }
      }
    }
  }

  lemma CancelKeepsOpen(jobs: seq<Job>, id: nat, now: nat, i: nat)
    requires i < |jobs| && !Finished(jobs[i]) && !(jobs[i].id == id && jobs[i].state.Queued?)
    ensures jobs[i] in AfterCancel(jobs, id, now)
            || exists ended :: Finished(ended) && Becomes(jobs, Event.Cancel(id, now), jobs[i], ended)
  {
    hide CountFinished, Trimmed;
    var job := jobs[i];
    if job.id == id {
      EndOfIs(job, Cancelled, now);
      assert Becomes(jobs, Event.Cancel(id, now), job, EndOf(job, Cancelled, now));
    } else {
      match CancelAnswer(jobs, id) {
        case Removed => WithoutMembers(jobs, id, job);
        case WasRunning =>
          EndedAt(jobs, id, Cancelled, now);
          hide Ended;
          assert Ended(jobs, id, Cancelled, now)[i] == job;
          OpenIsKept(Ended(jobs, id, Cancelled, now), job);
        case Nothing =>
      }
    }
  }

  // Closing a session ends its jobs one by one, and trims each time.

  /** The jobs numbered in `ids`, cancelled. */
  function EachCancelled(jobs: seq<Job>, ids: set<nat>, now: nat): seq<Job> {
    seq(|jobs|, i requires 0 <= i < |jobs| => if jobs[i].id in ids then EndOf(jobs[i], Cancelled, now) else jobs[i])
  }

  /** The numbers of the open jobs of `session`. */
  predicate AreOpen(jobs: seq<Job>, session: Session, ids: set<nat>) {
    forall i | 0 <= i < |jobs| :: jobs[i].id in ids <==> jobs[i].session == session && !Finished(jobs[i])
  }

  lemma OneMoreCancelled(jobs: seq<Job>, ids: set<nat>, id: nat, now: nat)
    requires Distinct(jobs)
    ensures Ended(EachCancelled(jobs, ids, now), id, Cancelled, now) == EachCancelled(jobs, ids + {id}, now)
  {
    var some := EachCancelled(jobs, ids, now);
    EndedAt(some, id, Cancelled, now);
    var i := Where(some, id);
    assert forall k | 0 <= k < |jobs| :: some[k].id == jobs[k].id;
    var more := EachCancelled(jobs, ids + {id}, now);
    forall k | 0 <= k < |jobs|
      ensures more[k] == if k == i then EndOf(some[k], Cancelled, now) else some[k]
    {
    }
  }

  /** One by one, trimmed after each, is the same as all of them and trimmed at the end. */
  lemma OneMoreThenTrimmed(jobs: seq<Job>, ids: set<nat>, id: nat, now: nat)
    requires Distinct(jobs)
    ensures Trimmed(Ended(Trimmed(EachCancelled(jobs, ids, now)), id, Cancelled, now))
            == Trimmed(EachCancelled(jobs, ids + {id}, now))
  {
    hide Ended, Trimmed;
    var some := EachCancelled(jobs, ids, now);
    assert forall k | 0 <= k < |jobs| :: some[k].id == jobs[k].id;
    TrimOnceAfterwards(some, id, Cancelled, now);
    OneMoreCancelled(jobs, ids, id, now);
  }

  lemma EachIsAll(jobs: seq<Job>, session: Session, ids: set<nat>, now: nat)
    requires AreOpen(jobs, session, ids)
    ensures EachCancelled(jobs, ids, now) == AllCancelled(jobs, session, now)
  {
  }

  lemma NumbersDiffer(jobs: seq<Job>, made: nat)
    requires ValidJobs(jobs, made)
    ensures Distinct(jobs)
  {
    hide Alone;
    assert forall i, j | 0 <= i < j < |jobs| :: Apart(jobs[i], jobs[j]) ==> jobs[i].id != jobs[j].id;
  }

  class Registry {
    var jobs: seq<Job>
    var made: nat

    ghost predicate Valid()
      reads this
    {
      Sound(Contents())
    }

    function Contents(): State
      reads this
    {
      State(jobs, made)
    }

    constructor ()
      ensures Contents() == Run([]) && Valid()
    {
      jobs, made := [], 0;
      new;
      RunIsValid([]);
    }

    method Enqueue(session: Session, kind: JobKind, sql: string) returns (id: nat)
      requires Valid()
      modifies this
      ensures Contents() == Next(old(Contents()), Event.Enqueue(session, kind, sql)) && Valid()
      ensures id == made && forall job | job in old(jobs) :: job.id < id
    {
      NextKeeps(Contents(), Event.Enqueue(session, kind, sql));
      forall job | job in jobs
        ensures job.id <= made
      {
        var i :| 0 <= i < |jobs| && jobs[i] == job;
        assert Alone(jobs[i], made);
      }
      made := made + 1;
      id := made;
      jobs := jobs + [Job(id, session, kind, sql, None, None, Queued)];
    }

    /** Where the job numbered `id` is, or the number of jobs. */
    method Find(id: nat) returns (at: nat)
      ensures at == Where(jobs, id)
    {
      at := 0;
      while at < |jobs| && jobs[at].id != id
        invariant at <= |jobs|
        invariant Where(jobs, id) == at + Where(jobs[at..], id)
      {
        assert jobs[at..][1..] == jobs[at + 1..];
        at := at + 1;
      }
    }

    method RunsSomething(session: Session) returns (runs: bool)
      ensures runs == IsRunning(jobs, session)
    {
      var at := 0;
      while at < |jobs|
        invariant at <= |jobs|
        invariant forall i | 0 <= i < at :: !(jobs[i].session == session && jobs[i].state.Running?)
      {
        if jobs[at].session == session && jobs[at].state.Running? {
          return true;
        }
        at := at + 1;
      }
      runs := false;
    }

    /** The job to send next: the oldest queued one of a session that runs nothing. */
    method NextFor(session: Session) returns (next: Option<nat>)
      ensures next.None? <==>
                IsRunning(jobs, session) || forall job | job in jobs :: !(job.session == session && job.state.Queued?)
      ensures next.Some? ==>
                exists i :: 0 <= i < |jobs| && jobs[i].id == next.value && jobs[i].session == session
                  && jobs[i].state.Queued?
                            && forall k | 0 <= k < i :: !(jobs[k].session == session && jobs[k].state.Queued?)
    {
      var busy := RunsSomething(session);
      if busy {
        return None;
      }
      var at := 0;
      while at < |jobs|
        invariant at <= |jobs|
        invariant forall k | 0 <= k < at :: !(jobs[k].session == session && jobs[k].state.Queued?)
      {
        if jobs[at].session == session && jobs[at].state.Queued? {
          return Some(jobs[at].id);
        }
        at := at + 1;
      }
      next := None;
    }

    method Start(id: nat, now: nat)
      requires Valid()
      modifies this`jobs
      ensures Contents() == Next(old(Contents()), Event.Start(id, now)) && Valid()
      ensures OnlyAs(old(jobs), old(made), Event.Start(id, now), jobs) && |jobs| == |old(jobs)|
    {
      NextKeeps(Contents(), Event.Start(id, now));
      NextIs(Contents(), Event.Start(id, now));
      hide Sound;
      var at := Find(id);
      if at == |jobs| {
        return;
      }
      var busy := RunsSomething(jobs[at].session);
      if busy {
        return;
      }
      if jobs[at].state.Queued? {
        jobs := jobs[at := jobs[at].(state := Running(0), started := Some(now))];
      }
    }

    method Progress(id: nat, rows: nat)
      requires Valid()
      modifies this`jobs
      ensures Contents() == Next(old(Contents()), Event.Progress(id, rows)) && Valid()
      ensures OnlyAs(old(jobs), old(made), Event.Progress(id, rows), jobs) && |jobs| == |old(jobs)|
    {
      NextKeeps(Contents(), Event.Progress(id, rows));
      NextIs(Contents(), Event.Progress(id, rows));
      hide Sound;
      var at := Find(id);
      if at < |jobs| && jobs[at].state.Running? {
        jobs := jobs[at := jobs[at].(state := Running(rows))];
      }
    }

    method Finish(id: nat, rows: nat, now: nat)
      requires Valid()
      modifies this`jobs
      ensures Contents() == Next(old(Contents()), Event.End(id, Done(rows), now)) && Valid()
      // The job, if it had not ended, has now, in this state and at this time; every other is as it was.
      ensures forall job | job in jobs ::
                exists before :: before in old(jobs) &&
                  if before.id == id && !Finished(before) then EndedAs(before, job, Done(rows), now) else job == before
      ensures OpenStay(old(jobs), Event.End(id, Done(rows), now), jobs)
    {
      NextKeeps(Contents(), Event.End(id, Done(rows), now));
      NextIs(Contents(), Event.End(id, Done(rows), now));
      OpenStays(Contents(), Event.End(id, Done(rows), now));
      End(id, Done(rows), now);
    }

    method Fail(id: nat, message: string, now: nat)
      requires Valid()
      modifies this`jobs
      ensures Contents() == Next(old(Contents()), Event.End(id, Failed(message), now)) && Valid()
      // The job, if it had not ended, has now, in this state and at this time; every other is as it was.
      ensures forall job | job in jobs ::
                exists before :: before in old(jobs) &&
                  if before.id == id && !Finished(before) then EndedAs(before, job, Failed(message), now)
                  else job == before
      ensures OpenStay(old(jobs), Event.End(id, Failed(message), now), jobs)
    {
      NextKeeps(Contents(), Event.End(id, Failed(message), now));
      NextIs(Contents(), Event.End(id, Failed(message), now));
      OpenStays(Contents(), Event.End(id, Failed(message), now));
      End(id, Failed(message), now);
    }

    method End(id: nat, state: JobState, now: nat)
      modifies this`jobs
      ensures jobs == Trimmed(Ended(old(jobs), id, state, now))
    {
      EndedAt(jobs, id, state, now);
      var at := Find(id);
      if at < |jobs| && !Finished(jobs[at]) {
        var job := jobs[at];
        jobs := jobs[at := job.(started := if job.started.Some? then job.started else Some(now),
                                finished := Some(now), state := state)];
      }
      assert jobs == Ended(old(jobs), id, state, now);
      Trim();
    }

    method Cancel(id: nat, now: nat) returns (did: Cancelling)
      requires Valid()
      modifies this`jobs
      ensures Contents() == Next(old(Contents()), Event.Cancel(id, now)) && Valid()
      ensures did == CancelAnswer(old(jobs), id)
      // A running job has ended, cancelled; every other is as it was; a queued one is no longer there.
      ensures forall job | job in jobs ::
                exists before :: before in old(jobs) &&
                  if before.id == id && before.state.Running? then EndedAs(before, job, Cancelled, now)
                  else job == before
      ensures did == Removed ==> forall job | job in jobs :: job.id != id
      ensures OpenStay(old(jobs), Event.Cancel(id, now), jobs)
    {
      NextKeeps(Contents(), Event.Cancel(id, now));
      NextIs(Contents(), Event.Cancel(id, now));
      OpenStays(Contents(), Event.Cancel(id, now));
      hide Sound, OpenStay, EndedAs, Finished;
      var at := Find(id);
      if at == |jobs| {
        return Nothing;
      }
      match jobs[at].state {
        case Queued =>
          ghost var before := jobs;
          jobs := Without(jobs, id);
          forall job | job in jobs
            ensures job.id != id
          {
            WithoutMembers(before, id, job);
          }
          did := Removed;
        case Running(_) =>
          End(id, Cancelled, now);
          did := WasRunning;
        case _ =>
          did := Nothing;
      }
    }

    /** The numbers of the open jobs of `session`, in order. */
    method Open(session: Session) returns (open: seq<nat>)
      requires Valid()
      ensures AreOpen(jobs, session, set id | id in open)
    {
      NumbersDiffer(jobs, made);
      open := [];
      var at := 0;
      while at < |jobs|
        invariant at <= |jobs|
        invariant forall id | id in open ::
                    exists i :: 0 <= i < at && jobs[i].id == id && jobs[i].session == session && !Finished(jobs[i])
        invariant forall i | 0 <= i < at && jobs[i].session == session && !Finished(jobs[i]) :: jobs[i].id in open
      {
        if jobs[at].session == session && !Finished(jobs[at]) {
          open := open + [jobs[at].id];
        }
        at := at + 1;
      }
    }

    method CloseSession(session: Session, now: nat)
      requires Valid()
      modifies this`jobs
      ensures Contents() == Next(old(Contents()), Event.Close(session, now)) && Valid()
      ensures OnlyAs(old(jobs), made, Event.Close(session, now), jobs)
      ensures OpenStay(old(jobs), Event.Close(session, now), jobs)
    {
      ghost var before := jobs;
      SoundIsDistinct(Contents());
      assert Trimmed(jobs) == jobs by { FewAreKept(jobs); }
      var open := Open(session);
      hide Sound, Trimmed, Ended, EachCancelled, AllCancelled, OnlyAs, OpenStay, Next, Distinct;
      assert EachCancelled(before, {}, now) == before by { NoneCancelled(before, now); }
      ghost var done: set<nat> := {};
      var k := 0;
      while k < |open|
        invariant k <= |open|
        invariant done == set id | id in open[..k]
        invariant jobs == Trimmed(EachCancelled(before, done, now))
      {
        OneMoreThenTrimmed(before, done, open[k], now);
        End(open[k], Cancelled, now);
        done := done + {open[k]};
        assert open[..k + 1] == open[..k] + [open[k]];
        k := k + 1;
      }
      assert open[..k] == open;
      EachIsAll(before, session, done, now);
      ClosedIs(State(before, made), session, now);
    }

    /** Of the finished jobs only the last fifty stay. */
    method Trim()
      modifies this`jobs
      ensures jobs == Trimmed(old(jobs))
    {
      var finished := Count();
      while finished > FINISHED_KEPT
        invariant finished == CountFinished(jobs)
        invariant Trimmed(jobs) == Trimmed(old(jobs))
      {
        var at := FirstFinished();
        RemovingTheFirst(jobs, at);
        jobs := jobs[..at] + jobs[at + 1..];
        finished := finished - 1;
      }
      FewAreKept(jobs);
    }

    method Count() returns (finished: nat)
      ensures finished == CountFinished(jobs)
    {
      finished := 0;
      var at := 0;
      while at < |jobs|
        invariant at <= |jobs|
        invariant CountFinished(jobs) == finished + CountFinished(jobs[at..])
      {
        assert jobs[at..][1..] == jobs[at + 1..];
        if Finished(jobs[at]) {
          finished := finished + 1;
        }
        at := at + 1;
      }
    }

    method FirstFinished() returns (at: nat)
      requires CountFinished(jobs) > 0
      ensures at < |jobs| && Finished(jobs[at]) && forall k | 0 <= k < at :: !Finished(jobs[k])
    {
      at := 0;
      while !Finished(jobs[at])
        invariant at < |jobs|
        invariant forall k | 0 <= k < at :: !Finished(jobs[k])
        invariant CountFinished(jobs[at..]) > 0
        decreases |jobs| - at
      {
        assert jobs[at..][1..] == jobs[at + 1..];
        at := at + 1;
      }
    }
  }

  lemma ClosedIs(s: State, session: Session, now: nat)
    requires Sound(s)
    ensures var e, after := Event.Close(session, now), Trimmed(AllCancelled(s.jobs, session, now));
            && Next(s, e) == State(after, s.made) && Sound(State(after, s.made))
            && OnlyAs(s.jobs, s.made, e, after) && OpenStay(s.jobs, e, after)
  {
    hide Sound, OnlyAs, OpenStay;
    NextKeeps(s, Event.Close(session, now));
    NextIs(s, Event.Close(session, now));
    OpenStays(s, Event.Close(session, now));
  }

  lemma NoneCancelled(jobs: seq<Job>, now: nat)
    ensures EachCancelled(jobs, {}, now) == jobs
  {
  }
}
