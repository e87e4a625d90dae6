/**
 The queue of toasts (notice.rs), whose head is on screen. Every timer started has a number, the
 generation it began, and counts only while that is the latest.
 */
module Toasts {
  import opened Basics

  const QUEUE_CAPACITY := 20

  datatype Level = Info | Success | Warning | Error

  datatype Notice = Notice(level: Level, text: string)

  datatype Toast = Toast(notice: Notice, count: nat)

  /** A timer to start: the toast of `generation` goes after `after` seconds. */
  datatype Expiry = Expiry(generation: nat, after: nat)

  function Lifetime(level: Level): nat {
    match level
    case Info => 4
    case Success => 4
    case Warning => 6
    case Error => 8
  }

  // What each operation makes of the queue.

  /** The toast to drop, by place: the first behind the head that is no error, else the one next to the head. */
  function Victim(queue: seq<Toast>): (i: nat)
    ensures i <= |queue| && (|queue| > 1 ==> 1 <= i < |queue|)
    ensures i < |queue| && queue[i].notice.level.Error? ==>
              i == 1 && forall k | 1 <= k < |queue| :: queue[k].notice.level.Error?
    ensures i < |queue| && !queue[i].notice.level.Error? ==>
              forall k | 1 <= k < i :: queue[k].notice.level.Error?
  {
    if |queue| <= 1 then |queue|
    else
      var i := NotAnError(queue, 1);
      if i < |queue| then i else 1
  }

  function NotAnError(queue: seq<Toast>, from: nat): (i: nat)
    requires from <= |queue|
    ensures from <= i <= |queue|
    ensures i < |queue| ==> !queue[i].notice.level.Error?
    ensures forall k | from <= k < i :: queue[k].notice.level.Error?
    decreases |queue| - from
  {
    if from == |queue| || !queue[from].notice.level.Error? then from else NotAnError(queue, from + 1)
  }

  function WithoutAt<T>(s: seq<T>, i: nat): seq<T> {
    if i < |s| then s[..i] + s[i + 1..] else s
  }

  predicate SameAsLast(queue: seq<Toast>, notice: Notice) {
    queue != [] && queue[|queue| - 1].notice == notice
  }

  function Pushed(queue: seq<Toast>, notice: Notice): seq<Toast> {
    if SameAsLast(queue, notice) then
      var last := queue[|queue| - 1];
      queue[|queue| - 1 := last.(count := last.count + 1)]
    else
      var more := queue + [Toast(notice, 1)];
      if |more| > QUEUE_CAPACITY then WithoutAt(more, Victim(more)) else more
  }

  datatype State = State(queue: seq<Toast>, generation: nat)

  /** The state and the timer to start, if any. */
  datatype Step = Step(state: State, timer: Option<Expiry>)

  function Restarted(queue: seq<Toast>, generation: nat): Step {
    Step(State(queue, generation + 1),
         Some(Expiry(generation + 1, if queue == [] then 0 else Lifetime(queue[0].notice.level))))
  }

  function AfterPush(s: State, notice: Notice): Step {
    var queue := Pushed(s.queue, notice);
    if |queue| == 1 then Restarted(queue, s.generation) else Step(State(queue, s.generation), None)
  }

  function AfterExpiry(s: State, generation: nat): Step {
    if generation != s.generation || s.queue == [] then Step(s, None)
    else
      var queue := s.queue[1..];
      if queue == [] then Step(State(queue, s.generation), None) else Restarted(queue, s.generation)
  }

  /** A timer is started exactly when `starts`: with the next number, and for as long as the toast on screen stays. */
  predicate Starts(before: State, after: State, timer: Option<Expiry>, starts: bool)
    requires starts ==> after.queue != []
  {
    if starts
    then && after.generation == before.generation + 1
         && timer == Some(Expiry(after.generation, Lifetime(after.queue[0].notice.level)))
    else after.generation == before.generation && timer == None
  }

  /** The notice was pushed: it is the last to wait, unless it was the one of all that wait to make room. */
  predicate IsIn(before: seq<Toast>, after: seq<Toast>, notice: Notice)
    requires after != []
  {
    || after[|after| - 1].notice == notice
    || (|before| == QUEUE_CAPACITY && !notice.level.Error?
        && forall k | 1 <= k < |before| :: before[k].notice.level.Error?)
  }

  class ToastQueue {
    var queue: seq<Toast>
    var generation: nat
    /** The last timer started. */
    ghost var latest: Expiry

    function Contents(): State
      reads this
    {
      State(queue, generation)
    }

    /** The last timer started is the current one, for the toast on screen. */
    ghost predicate Valid()
      reads this
    {
      && |queue| <= QUEUE_CAPACITY
      && latest.generation == generation
      && (queue != [] ==> latest.after == Lifetime(queue[0].notice.level))
    }

    constructor ()
      ensures Valid() && Contents() == State([], 0)
    {
      queue, generation, latest := [], 0, Expiry(0, 0);
    }

    method Push(notice: Notice) returns (timer: Option<Expiry>)
      requires Valid()
      modifies this
      ensures Valid() && queue != [] && IsIn(old(queue), queue, notice)
      // The toast on screen stays on it.
      ensures old(queue) != [] ==> queue[0].notice == old(queue)[0].notice && queue[0].count >= old(queue)[0].count
      ensures Starts(old(Contents()), Contents(), timer,
                     old(queue) == [] || (|old(queue)| == 1 && old(queue)[0].notice == notice))
      ensures Step(Contents(), timer) == AfterPush(old(Contents()), notice)
    {
      PushKeepsWhatMatters(queue, notice);
      PushedIsIn(queue, notice);
      ghost var was := queue;
      if queue != [] && queue[|queue| - 1].notice == notice {
        var last := queue[|queue| - 1];
        queue := queue[|queue| - 1 := last.(count := last.count + 1)];
      } else {
        queue := queue + [Toast(notice, 1)];
        if |queue| > QUEUE_CAPACITY {
          DropOne();
        }
      }
      assert queue == Pushed(was, notice);
      hide Pushed;
      timer := None;
      if |queue| == 1 {
        var expiry := Restart();
        timer := Some(expiry);
      }
    }

    method DropOne()
      modifies this`queue
      ensures queue == WithoutAt(old(queue), Victim(old(queue)))
    {
      var i := 1;
      while i < |queue| && queue[i].notice.level.Error?
        invariant 1 <= i && (1 < |queue| ==> i <= |queue| && NotAnError(queue, i) == NotAnError(queue, 1))
      {
        i := i + 1;
      }
      if i < |queue| {
        queue := queue[..i] + queue[i + 1..];
      } else if 1 < |queue| {
        queue := queue[..1] + queue[2..];
      }
    }

    method Restart() returns (expiry: Expiry)
      modifies this`generation, this`latest
      ensures Step(Contents(), Some(expiry)) == Restarted(queue, old(generation)) && latest == expiry
    {
      generation := generation + 1;
      expiry := Expiry(generation, if queue == [] then 0 else Lifetime(queue[0].notice.level));
      latest := expiry;
    }

    method Expire(which: nat) returns (timer: Option<Expiry>)
      requires Valid()
      modifies this
      ensures Valid()
      // Only the latest timer does anything.
      ensures which != old(generation) ==> Contents() == old(Contents()) && timer == None
      ensures which == old(generation) && old(queue) != [] ==> queue == old(queue)[1..]
      ensures Starts(old(Contents()), Contents(), timer, which == old(generation) && |old(queue)| > 1)
      ensures Step(Contents(), timer) == AfterExpiry(old(Contents()), which)
    {
      if which != generation || queue == [] {
        return None;
      }
      queue := queue[1..];
      timer := None;
      if queue != [] {
        var expiry := Restart();
        timer := Some(expiry);
      }
    }

    method Dismiss() returns (timer: Option<Expiry>)
      requires Valid()
      modifies this
      ensures Valid() && (old(queue) != [] ==> queue == old(queue)[1..])
      ensures Starts(old(Contents()), Contents(), timer, |old(queue)| > 1)
      ensures Step(Contents(), timer) == AfterExpiry(old(Contents()), old(generation))
    {
      timer := Expire(generation);
    }
  }

  // Runs.

  datatype Event = Push(notice: Notice) | Expire(generation: nat) | Dismiss

  function After(s: State, e: Event): Step {
    match e
    case Push(notice) => AfterPush(s, notice)
    case Expire(generation) => AfterExpiry(s, generation)
    case Dismiss => AfterExpiry(s, s.generation)
  }

  /** A whole run: the state, the timers started, and the toasts that have been shown and have gone, or were dropped. */
  datatype Ran = Ran(state: State, timers: seq<Expiry>, gone: seq<Toast>, dropped: seq<Toast>)

  /** The toasts an event takes off the screen. */
  function Leaves(s: State, e: Event): seq<Toast> {
    if !e.Push? && s.queue != [] && (e.Expire? ==> e.generation == s.generation) then s.queue[..1] else []
  }

  /** The waiting toasts an event drops to make room. */
  function Dropped(s: State, e: Event): seq<Toast> {
    if e.Push? && !SameAsLast(s.queue, e.notice) && |s.queue| >= QUEUE_CAPACITY
    then var more := s.queue + [Toast(e.notice, 1)]; [more[Victim(more)]]
    else []
  }

  function Run(events: seq<Event>): Ran
    decreases |events|
  {
    if events == [] then Ran(State([], 0), [], [], [])
    else
      var r := Run(events[..|events| - 1]);
      var e := events[|events| - 1];
      var step := After(r.state, e);
      Ran(step.state, r.timers + (if step.timer.Some? then [step.timer.value] else []),
          r.gone + Leaves(r.state, e), r.dropped + Dropped(r.state, e))
  }

  /** How many notices some toasts stand for. */
  function Total(toasts: seq<Toast>): nat {
    if toasts == [] then 0 else toasts[0].count + Total(toasts[1..])
  }

  function Pushes(events: seq<Event>): nat
    decreases |events|
  {
    if events == [] then 0
    else Pushes(events[..|events| - 1]) + if events[|events| - 1].Push? then 1 else 0
  }

  lemma {:induction false} TotalConcat(a: seq<Toast>, b: seq<Toast>)
    ensures Total(a + b) == Total(a) + Total(b)
  {
    if a == [] {
      assert a + b == b;
    } else {
      TotalConcat(a[1..], b);
      assert (a + b)[1..] == a[1..] + b;
    }
  }

  lemma TotalAround(toasts: seq<Toast>, i: nat)
    requires i < |toasts|
    ensures Total(toasts) == Total(toasts[..i]) + toasts[i].count + Total(toasts[i + 1..])
    ensures Total(WithoutAt(toasts, i)) == Total(toasts[..i]) + Total(toasts[i + 1..])
  {
    assert toasts == toasts[..i] + ([toasts[i]] + toasts[i + 1..]);
    TotalConcat(toasts[..i], [toasts[i]] + toasts[i + 1..]);
    TotalConcat([toasts[i]], toasts[i + 1..]);
    TotalConcat(toasts[..i], toasts[i + 1..]);
    assert [toasts[i]][1..] == [];
  }

  /**
   What a push does to the queue: the toast on screen stays on it; a waiting one is dropped only
   when there is no room, an error only when all that wait are errors, and otherwise the oldest
   that is none.
   */
  lemma PushKeepsWhatMatters(queue: seq<Toast>, notice: Notice)
    requires |queue| <= QUEUE_CAPACITY
    ensures var after, more := Pushed(queue, notice), queue + [Toast(notice, 1)];
            && 1 <= |after| <= QUEUE_CAPACITY
            && (queue != [] ==> after[0].notice == queue[0].notice && after[0].count >= queue[0].count)
            && (|after| == 1 <==> queue == [] || (|queue| == 1 && queue[0].notice == notice))
            && if SameAsLast(queue, notice) then |after| == |queue|
               else if |queue| < QUEUE_CAPACITY then after == more
               else exists i :: 1 <= i < |more| && after == WithoutAt(more, i)
                                && (if more[i].notice.level.Error?
                                    then forall k | 1 <= k < |more| :: more[k].notice.level.Error?
                                    else forall k | 1 <= k < i :: more[k].notice.level.Error?)
  {
    if !SameAsLast(queue, notice) && |queue| == QUEUE_CAPACITY {
      var more := queue + [Toast(notice, 1)];
      assert Pushed(queue, notice) == WithoutAt(more, Victim(more));
    }
  }

  lemma PushedIsIn(queue: seq<Toast>, notice: Notice)
    requires |queue| <= QUEUE_CAPACITY
    ensures Pushed(queue, notice) != [] && IsIn(queue, Pushed(queue, notice), notice)
  {
    var more := queue + [Toast(notice, 1)];
    if !SameAsLast(queue, notice) && |queue| == QUEUE_CAPACITY && Victim(more) == |queue| {
      assert forall k | 1 <= k < |queue| :: more[k] == queue[k];
    }
  }

  lemma {:induction false} PushCounts(queue: seq<Toast>, notice: Notice)
    requires |queue| <= QUEUE_CAPACITY
    ensures Total(Pushed(queue, notice)) + Total(Dropped(State(queue, 0), Push(notice))) == Total(queue) + 1
  {
    var more := queue + [Toast(notice, 1)];
    TotalConcat(queue, [Toast(notice, 1)]);
    assert Total([Toast(notice, 1)]) == 1 by { assert [Toast(notice, 1)][1..] == []; }
    if SameAsLast(queue, notice) {
      var n := |queue| - 1;
      var last := queue[n];
      TotalAround(queue, n);
      TotalAround(Pushed(queue, notice), n);
      assert Pushed(queue, notice)[..n] == queue[..n];
      assert queue[n + 1..] == [] && Pushed(queue, notice)[n + 1..] == [];
    } else if |queue| == QUEUE_CAPACITY {
      var i := Victim(more);
      TotalAround(more, i);
      assert [more[i]][1..] == [];
    }
  }

  /** The timers are numbered from one, and the last is that of the toast on screen. */
  predicate TimersAreRight(r: Ran) {
    && |r.timers| == r.state.generation
    && (forall i | 0 <= i < |r.timers| :: r.timers[i].generation == i + 1)
    && (r.state.queue != [] ==>
          r.timers != [] && r.timers[|r.timers| - 1].after == Lifetime(r.state.queue[0].notice.level))
  }

  lemma StepKeepsTimers(r: Ran, e: Event)
    requires TimersAreRight(r) && |r.state.queue| <= QUEUE_CAPACITY
    ensures var step := After(r.state, e);
            && |step.state.queue| <= QUEUE_CAPACITY
            && TimersAreRight(Ran(step.state, r.timers + (if step.timer.Some? then [step.timer.value] else []), [], []))
  {
    if e.Push? {
      PushKeepsWhatMatters(r.state.queue, e.notice);
      hide Pushed;
    }
  }

  lemma {:induction false} RunKeepsTimers(events: seq<Event>)
    ensures TimersAreRight(Run(events)) && |Run(events).state.queue| <= QUEUE_CAPACITY
    decreases |events|
  {
    hide After;
    if events != [] {
      RunKeepsTimers(events[..|events| - 1]);
      StepKeepsTimers(Run(events[..|events| - 1]), events[|events| - 1]);
    }
  }

  /**
   Over any run, of all the timers started only the last can take the toast on screen away, and
   it runs for that toast's lifetime: any other changes nothing when it runs out.
   */
  lemma OnlyTheLastTimerCounts(events: seq<Event>, i: nat)
    requires i < |Run(events).timers|
    ensures var r := Run(events);
            && (i < |r.timers| - 1 ==> AfterExpiry(r.state, r.timers[i].generation) == Step(r.state, None))
            && (i == |r.timers| - 1 && r.state.queue != [] ==>
                  && r.timers[i].after == Lifetime(r.state.queue[0].notice.level)
                  && AfterExpiry(r.state, r.timers[i].generation).state.queue == r.state.queue[1..])
  {
    hide Run;
    RunKeepsTimers(events);
  }

  /** Over any run no notice is lost sight of: each is counted in the queue, among those shown, or
      among those dropped. */
  lemma {:induction false} EveryNoticeIsCounted(events: seq<Event>)
    ensures var r := Run(events);
            Total(r.state.queue) + Total(r.gone) + Total(r.dropped) == Pushes(events)
    decreases |events|
  {
    if events != [] {
      var r := Run(events[..|events| - 1]);
      var e := events[|events| - 1];
      EveryNoticeIsCounted(events[..|events| - 1]);
      RunKeepsTimers(events[..|events| - 1]);
      TotalConcat(r.gone, Leaves(r.state, e));
      TotalConcat(r.dropped, Dropped(r.state, e));
      StepCounts(r.state, e);
      hide After, Leaves, Dropped, Total;
    }
  }

  lemma StepCounts(s: State, e: Event)
    requires |s.queue| <= QUEUE_CAPACITY
    ensures Total(After(s, e).state.queue) + Total(Leaves(s, e)) + Total(Dropped(s, e))
            == Total(s.queue) + if e.Push? then 1 else 0
  {
    if e.Push? {
      PushCounts(s.queue, e.notice);
      assert Dropped(State(s.queue, 0), e) == Dropped(s, e);
    } else if s.queue != [] {
      assert s.queue[..1][1..] == [];
    }
  }
}
