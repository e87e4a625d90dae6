/**
 What becomes of the statements that were run (jobs.rs), each a job with a state and its times.
 The caller passes the time in. Only fifty finished jobs are remembered.
 */
module Jobs {
  import opened Basics

  const FINISHED_KEPT := 50

  type Session = nat

  datatype JobKind = Query | FetchMore | Export | Schema

  datatype JobState =
    | Queued
    | Running(rows: nat)
    | Done(rows: nat)
    | Failed(message: string)
    | Cancelled

  datatype Job = Job(
    id: nat, session: Session, kind: JobKind, sql: string,
    started: Option<nat>, finished: Option<nat>, state: JobState
  )

  /** What cancelling a job did. */
  datatype Cancelling = Removed | WasRunning | Nothing

  predicate Final(state: JobState) {
    state.Done? || state.Failed? || state.Cancelled?
  }

  predicate Finished(job: Job) {
    Final(job.state)
  }

  // What the operations make of the list of jobs.

  /** The first job numbered `id`, or past the end. */
  function Where(jobs: seq<Job>, id: nat): (i: nat)
    ensures i <= |jobs|
    ensures i < |jobs| ==> jobs[i].id == id
    ensures forall k | 0 <= k < i :: jobs[k].id != id
  {
    if jobs == [] || jobs[0].id == id then 0 else 1 + Where(jobs[1..], id)
  }

  /** `job` ended: a finished one is left alone, one never started started now. */
  function EndOf(job: Job, state: JobState, now: nat): Job {
    if Finished(job) then job
    else job.(started := if job.started.Some? then job.started else Some(now), finished := Some(now), state := state)
  }

  /** `after` is what `before` was, ended at `now` in `state`: it had started, or did so then. */
  predicate EndedAs(before: Job, after: Job, state: JobState, now: nat) {
    && after.id == before.id && after.session == before.session && after.kind == before.kind && after.sql == before.sql
    && after.state == state && after.finished == Some(now)
    && after.started == Some(if before.started.Some? then before.started.value else now)
  }

  function Ended(jobs: seq<Job>, id: nat, state: JobState, now: nat): (r: seq<Job>)
    ensures |r| == |jobs|
  {
    if jobs == [] then []
    else if jobs[0].id == id then [EndOf(jobs[0], state, now)] + jobs[1..]
    else [jobs[0]] + Ended(jobs[1..], id, state, now)
  }

  function CountFinished(jobs: seq<Job>): nat {
    if jobs == [] then 0 else (if Finished(jobs[0]) then 1 else 0) + CountFinished(jobs[1..])
  }

  /** A finished job is kept only while fewer than fifty come after it. */
  function Trimmed(jobs: seq<Job>): seq<Job> {
    if jobs == [] then []
    else if Finished(jobs[0]) && CountFinished(jobs[1..]) >= FINISHED_KEPT then Trimmed(jobs[1..])
    else [jobs[0]] + Trimmed(jobs[1..])
  }

  /** Every open job of `session` cancelled at once. */
  function AllCancelled(jobs: seq<Job>, session: Session, now: nat): seq<Job> {
    seq(|jobs|, i requires 0 <= i < |jobs| =>
      if jobs[i].session == session then EndOf(jobs[i], Cancelled, now) else jobs[i])
  }

  predicate IsRunning(jobs: seq<Job>, session: Session) {
    exists i :: 0 <= i < |jobs| && jobs[i].session == session && jobs[i].state.Running?
  }

  /** `a` was queued before `b`, and they do not both run in one session. */
  predicate Apart(a: Job, b: Job) {
    a.id < b.id && !(a.session == b.session && a.state.Running? && b.state.Running?)
  }

  /** A job has a number given out, and the times its state says. */
  predicate Alone(job: Job, made: nat) {
    && 1 <= job.id <= made
    && (Finished(job) <==> job.finished.Some?)
    && (job.state.Queued? <==> job.started.None?)
  }

  /** Numbers strictly increase, no session runs two jobs, and every job is in order. */
  predicate ValidJobs(jobs: seq<Job>, made: nat) {
    && (forall i | 0 <= i < |jobs| :: Alone(jobs[i], made))
    && (forall i, j | 0 <= i < j < |jobs| :: Apart(jobs[i], jobs[j]))
  }

  // Trimming.

  lemma {:induction false} TrimmedCount(jobs: seq<Job>)
    ensures CountFinished(Trimmed(jobs)) == Min(CountFinished(jobs), FINISHED_KEPT)
  {
    if jobs != [] {
      TrimmedCount(jobs[1..]);
      if !(Finished(jobs[0]) && CountFinished(jobs[1..]) >= FINISHED_KEPT) {
        assert Trimmed(jobs)[1..] == Trimmed(jobs[1..]);
      }
    }
  }

  lemma {:induction false} FewAreKept(jobs: seq<Job>)
    requires CountFinished(jobs) <= FINISHED_KEPT
    ensures Trimmed(jobs) == jobs
  {
    if jobs != [] {
      FewAreKept(jobs[1..]);
    }
  }

  /** The jobs of `jobs` that are finished, or those that are not. */
  function Part(jobs: seq<Job>, finished: bool): seq<Job> {
    if jobs == [] then []
    else (if Finished(jobs[0]) == finished then [jobs[0]] else []) + Part(jobs[1..], finished)
  }

  function LastOf<T>(s: seq<T>, n: nat): seq<T> {
    s[Max(|s| - n, 0)..]
  }

  lemma {:induction false} PartCount(jobs: seq<Job>)
    ensures |Part(jobs, true)| == CountFinished(jobs)
  {
    if jobs != [] {
      PartCount(jobs[1..]);
    }
  }

  /** Trimming keeps every unfinished job and the last fifty finished ones. */
  lemma {:induction false} TrimmedKeeps(jobs: seq<Job>)
    ensures Part(Trimmed(jobs), false) == Part(jobs, false)
    ensures Part(Trimmed(jobs), true) == LastOf(Part(jobs, true), FINISHED_KEPT)
  {
    PartCount(jobs);
    if jobs != [] {
      var rest := jobs[1..];
      TrimmedKeeps(rest);
      PartCount(rest);
      if Finished(jobs[0]) && CountFinished(rest) >= FINISHED_KEPT {
        DropTwice([jobs[0]] + Part(rest, true), 1, CountFinished(rest) - FINISHED_KEPT);
        assert Part(jobs, true)[1..] == Part(rest, true);
      } else {
        assert Trimmed(jobs)[1..] == Trimmed(rest);
        if Finished(jobs[0]) {
          assert Part(jobs, true)[0..] == Part(jobs, true);
          assert Part(rest, true)[0..] == Part(rest, true);
        }
      }
    }
  }

  lemma {:induction false} TrimmedMembers(jobs: seq<Job>, job: Job)
    requires job in Trimmed(jobs)
    ensures job in jobs
  {
    if Finished(jobs[0]) && CountFinished(jobs[1..]) >= FINISHED_KEPT {
      TrimmedMembers(jobs[1..], job);
    } else if job != jobs[0] {
      assert Trimmed(jobs)[1..] == Trimmed(jobs[1..]);
      TrimmedMembers(jobs[1..], job);
    }
  }

  lemma {:induction false} OpenIsKept(jobs: seq<Job>, job: Job)
    requires job in jobs && !Finished(job)
    ensures job in Trimmed(jobs)
  {
    if job != jobs[0] {
      OpenIsKept(jobs[1..], job);
    }
  }

  lemma {:induction false} TrimmedKeepsValid(jobs: seq<Job>, made: nat)
    requires ValidJobs(jobs, made)
    ensures ValidJobs(Trimmed(jobs), made)
  {
    hide Alone, Apart, CountFinished;
    if jobs != [] {
      var rest := jobs[1..];
      TrimmedKeepsValid(rest, made);
      forall i | 0 <= i < |Trimmed(rest)|
        ensures Apart(jobs[0], Trimmed(rest)[i])
      {
        TrimmedMembers(rest, Trimmed(rest)[i]);
      }
    }
  }

  lemma {:induction false} RemovingTheFirst(jobs: seq<Job>, at: nat)
    requires at < |jobs| && Finished(jobs[at]) && forall k | 0 <= k < at :: !Finished(jobs[k])
    requires CountFinished(jobs) > FINISHED_KEPT
    ensures Trimmed(jobs[..at] + jobs[at + 1..]) == Trimmed(jobs)
    ensures CountFinished(jobs[..at] + jobs[at + 1..]) == CountFinished(jobs) - 1
  {
    var left := jobs[..at] + jobs[at + 1..];
    if at == 0 {
      assert left == jobs[1..];
    } else {
      RemovingTheFirst(jobs[1..], at - 1);
      assert left[1..] == jobs[1..][..at - 1] + jobs[1..][at..];
    }
  }

  // Ending.

  lemma {:induction false} EndedAt(jobs: seq<Job>, id: nat, state: JobState, now: nat)
    ensures var i := Where(jobs, id);
            Ended(jobs, id, state, now) == if i < |jobs| then jobs[i := EndOf(jobs[i], state, now)] else jobs
  {
    if jobs != [] && jobs[0].id != id {
      EndedAt(jobs[1..], id, state, now);
    }
  }

  lemma {:induction false} EndedCount(jobs: seq<Job>, id: nat, state: JobState, now: nat)
    requires Final(state)
    ensures CountFinished(jobs) <= CountFinished(Ended(jobs, id, state, now))
  {
    if jobs != [] && jobs[0].id != id {
      EndedCount(jobs[1..], id, state, now);
      assert Ended(jobs, id, state, now)[1..] == Ended(jobs[1..], id, state, now);
    } else if jobs != [] {
      assert Ended(jobs, id, state, now)[1..] == jobs[1..];
    }
  }

  lemma EndedElsewhere(jobs: seq<Job>, id: nat, state: JobState, now: nat)
    requires forall i | 0 <= i < |jobs| :: jobs[i].id != id
    ensures Ended(jobs, id, state, now) == jobs
  {
    EndedAt(jobs, id, state, now);
  }

  predicate Distinct(jobs: seq<Job>) {
    forall i, j | 0 <= i < j < |jobs| :: jobs[i].id != jobs[j].id
  }

  lemma TrimmedStays(jobs: seq<Job>)
    ensures Trimmed(Trimmed(jobs)) == Trimmed(jobs)
  {
    TrimmedCount(jobs);
    FewAreKept(Trimmed(jobs));
  }

  lemma EndedCons(job: Job, rest: seq<Job>, id: nat, state: JobState, now: nat)
    requires job.id != id
    ensures Ended([job] + rest, id, state, now) == [job] + Ended(rest, id, state, now)
  {
    assert ([job] + rest)[1..] == rest;
  }

  lemma TrimmedCons(job: Job, rest: seq<Job>)
    ensures Trimmed([job] + rest)
            == if Finished(job) && CountFinished(rest) >= FINISHED_KEPT then Trimmed(rest) else [job] + Trimmed(rest)
  {
    assert ([job] + rest)[1..] == rest;
  }

  /** Trimming before a job ends changes nothing that trimming after it does not. */
  lemma {:induction false} TrimOnceAfterwards(jobs: seq<Job>, id: nat, state: JobState, now: nat)
    requires Final(state) && Distinct(jobs)
    ensures Trimmed(Ended(Trimmed(jobs), id, state, now)) == Trimmed(Ended(jobs, id, state, now))
  {
    if jobs != [] {
      var rest := jobs[1..];
      TrimOnceAfterwards(rest, id, state, now);
      if jobs[0].id == id {
        TrimOfTheFirst(jobs, id, state, now);
      } else {
        TrimOfALater(jobs, id, state, now);
      }
    }
  }

  /** The first job ends, if it has not: no other has its number. */
  lemma TrimOfTheFirst(jobs: seq<Job>, id: nat, state: JobState, now: nat)
    requires Final(state) && Distinct(jobs) && jobs != [] && jobs[0].id == id
    ensures Trimmed(Ended(Trimmed(jobs), id, state, now)) == Trimmed(Ended(jobs, id, state, now))
  {
    var rest := jobs[1..];
    TrimmedStays(jobs);
    if Finished(jobs[0]) {
      assert Ended(jobs, id, state, now) == jobs;
      NotInTrimmed(rest, id);
      if CountFinished(rest) >= FINISHED_KEPT {
        EndedElsewhere(Trimmed(rest), id, state, now);
      } else {
        assert Ended([jobs[0]] + Trimmed(rest), id, state, now) == [jobs[0]] + Trimmed(rest);
      }
    } else {
      var end := EndOf(jobs[0], state, now);
      assert ([jobs[0]] + Trimmed(rest))[1..] == Trimmed(rest);
      assert Ended(Trimmed(jobs), id, state, now) == [end] + Trimmed(rest);
      TrimmedCons(end, Trimmed(rest));
      TrimmedCons(end, rest);
      TrimmedCount(rest);
      TrimmedStays(rest);
    }
  }

  lemma TrimOfALater(jobs: seq<Job>, id: nat, state: JobState, now: nat)
    requires Final(state) && jobs != [] && jobs[0].id != id
    requires Trimmed(Ended(Trimmed(jobs[1..]), id, state, now)) == Trimmed(Ended(jobs[1..], id, state, now))
    ensures Trimmed(Ended(Trimmed(jobs), id, state, now)) == Trimmed(Ended(jobs, id, state, now))
  {
    var rest := jobs[1..];
    EndedCount(rest, id, state, now);
    TrimmedCons(jobs[0], Ended(rest, id, state, now));
    if !(Finished(jobs[0]) && CountFinished(rest) >= FINISHED_KEPT) {
      EndedCons(jobs[0], Trimmed(rest), id, state, now);
      TrimmedCons(jobs[0], Ended(Trimmed(rest), id, state, now));
      if Finished(jobs[0]) {
        FewAreKept(rest);
      }
    }
  }

  lemma NotInTrimmed(jobs: seq<Job>, id: nat)
    requires forall i | 0 <= i < |jobs| :: jobs[i].id != id
    ensures forall i | 0 <= i < |Trimmed(jobs)| :: Trimmed(jobs)[i].id != id
  {
    forall i | 0 <= i < |Trimmed(jobs)|
      ensures Trimmed(jobs)[i] in jobs
    {
      TrimmedMembers(jobs, Trimmed(jobs)[i]);
    }
  }
}
