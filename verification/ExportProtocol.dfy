/**
 An export while its query still runs (exporter.rs): the query sends its items down a channel
 of one, another thread, the writer, puts them in a temporary file, and a signal of its
 own tells the writer whether the query finished. The future that runs all this may be dropped
 at any point, in pieces and in any order.

 One step of one side at a time; which step comes next is left open. What the sink makes of
 the items is left open as `output` (ExportRun says it for the text formats).
 */
module ExportProtocol {
  import opened Basics
  import opened Stream

  datatype Setup = Setup(
    target: string,
    temp: string,
    /** The files there were before. */
    before: map<string, string>,
    /** The complete file for the items of a query. */
    output: seq<StreamItem> -> string
  )

  datatype Query = Streaming | Finished(ok: bool) | Dropped

  /** The signal that the query is over. */
  datatype Done = Unsent | Sent(ok: bool) | Gone

  datatype Outcome = Wrote | GaveUp | Failed

  datatype Writer =
    | Receiving
    /** An item is in hand, and whether to give up is still to be looked at. */
    | Handling(item: StreamItem)
    /** It is to be written, whatever happens meanwhile. */
    | Writing(item: StreamItem)
    | Waiting
    | Finishing
    | Flushed
    /** Not finished: the sink goes, and its temporary file with it. */
    | Removing(outcome: Outcome)
    | Ended(outcome: Outcome)

  datatype State = State(
    files: map<string, string>,
    query: Query,
    channel: Option<StreamItem>,
    done: Done,
    dropping: bool,
    abandoned: bool,
    writer: Writer,
    /** Every item the query sent, and every one the writer wrote. */
    sent: seq<StreamItem>,
    written: seq<StreamItem>,
    removalFailed: bool
  )

  datatype Step =
    // The query.
    | Send(item: StreamItem)
    | SendFails
    | QueryEnds(ok: bool)
    | SignalDone
    // Dropping the future.
    | StartDropping
    | DropQuery
    | SetAbandoned
    | DropSignal
    // The writer. Any of its writes may fail.
    | Receive
    | Look
    | Write(works: bool)
    | SeeClosed
    | HearDone
    | Spill(content: string)
    | Flush(works: bool)
    | Rename(works: bool)
    | Remove(works: bool)

  ghost predicate ValidSetup(c: Setup) {
    c.temp !in c.before && c.temp != c.target
  }

  function Start(c: Setup): State {
    State(c.before[c.temp := ""], Streaming, None, Unsent, false, false, Receiving, [], [], false)
  }

  /** Whether the writer still holds its end of the channel. */
  predicate Listening(s: State) {
    !s.writer.Ended?
  }

  /** What the query does, or the dropping of it. */
  function QueryTakes(s: State, step: Step): Option<State>
    requires !OfWriter(step)
  {
    match step
    case Send(item) =>
      if s.query.Streaming? && Listening(s) && s.channel.None?
      then Some(s.(channel := Some(item), sent := s.sent + [item])) else None
    case SendFails =>
      if s.query.Streaming? && !Listening(s) then Some(s.(query := Finished(false))) else None
    case QueryEnds(ok) =>
      if s.query.Streaming? then Some(s.(query := Finished(ok))) else None
    case SignalDone =>
      if s.query.Finished? && s.done.Unsent? && !s.dropping then Some(s.(done := Sent(s.query.ok))) else None
    case StartDropping =>
      Some(s.(dropping := true))
    case DropQuery =>
      if s.dropping && s.query.Streaming? then Some(s.(query := Dropped)) else None
    case SetAbandoned =>
      if s.dropping then Some(s.(abandoned := true)) else None
    case DropSignal =>
      if s.dropping && s.done.Unsent? then Some(s.(done := Gone)) else None
  }

  predicate OfWriter(step: Step) {
    IsWriterStep(step) || step.Spill?
  }

  /** What the writer does. */
  function WriterTakes(c: Setup, s: State, step: Step): Option<State>
    requires OfWriter(step)
  {
    match step
    case Receive =>
      if s.writer.Receiving? && s.channel.Some?
      then Some(s.(channel := None, writer := Handling(s.channel.value))) else None
    case Look =>
      if !s.writer.Handling? then None
      else if s.abandoned then Some(s.(writer := Removing(GaveUp)))
      else Some(s.(writer := Writing(s.writer.item)))
    case Write(works) =>
      if !s.writer.Writing? then None
      else if works then Some(s.(written := s.written + [s.writer.item], writer := Receiving))
      else Some(s.(writer := Removing(Failed)))
    case SeeClosed =>
      if s.writer.Receiving? && s.channel.None? && !s.query.Streaming? then Some(s.(writer := Waiting)) else None
    case HearDone =>
      if !s.writer.Waiting? || s.done.Unsent? then None
      else if s.done == Sent(true) then Some(s.(writer := Finishing))
      else Some(s.(writer := Removing(GaveUp)))
    case Spill(content) =>
      // The buffer is written out when it is full, and more of it as it fills.
      if s.writer.Writing? || s.writer.Finishing? then Some(s.(files := s.files[c.temp := content])) else None
    case Flush(works) =>
      if !s.writer.Finishing? then None
      else if works then Some(s.(files := s.files[c.temp := c.output(s.written)], writer := Flushed))
      else Some(s.(writer := Removing(Failed)))
    case Rename(works) =>
      if !s.writer.Flushed? || c.temp !in s.files then None
      else if works then
        Some(s.(files := s.files[c.target := s.files[c.temp]] - {c.temp}, writer := Ended(Wrote)))
      else Some(s.(writer := Removing(Failed)))
    case Remove(works) =>
      if !s.writer.Removing? then None
      else if works then Some(s.(files := s.files - {c.temp}, writer := Ended(s.writer.outcome)))
      else Some(s.(removalFailed := true, writer := Ended(s.writer.outcome)))
  }

  /** The state after `step`, if the step can be taken. */
  function Take(c: Setup, s: State, step: Step): Option<State> {
    if OfWriter(step) then WriterTakes(c, s, step) else QueryTakes(s, step)
  }

  /** The state after some steps, if every one of them can be taken. */
  function RunOn(c: Setup, s: State, steps: seq<Step>): Option<State>
    decreases |steps|
  {
    if steps == [] then Some(s)
    else
      match RunOn(c, s, steps[..|steps| - 1])
      case None => None
      case Some(t) => Take(c, t, steps[|steps| - 1])
  }

  /** The state after a whole run. */
  function Run(c: Setup, steps: seq<Step>): Option<State> {
    RunOn(c, Start(c), steps)
  }

  /** The target as it was. */
  predicate Untouched(c: Setup, s: State) {
    && (c.target in s.files <==> c.target in c.before)
    && (c.target in c.before ==> c.target in s.files && s.files[c.target] == c.before[c.target])
  }

  /** What holds after every step. */
  ghost predicate Inv(c: Setup, s: State) {
    ItemsInv(s) && SignalsInv(s) && FilesInv(c, s)
  }

  /** All the items sent are written, in hand or on their way, in order, until the writer gives up. */
  predicate ItemsInv(s: State) {
    s.writer.Removing? || s.writer == Ended(GaveUp) || s.writer == Ended(Failed)
    || s.sent == s.written + InHand(s.writer) + OnTheWay(s.channel)
  }

  /** The writer has seen the channel closed, and later heard that the query succeeded. */
  predicate SignalsInv(s: State) {
    && (s.done.Sent? ==> s.query == Finished(s.done.ok))
    && (s.writer.Waiting? || s.writer.Finishing? || s.writer.Flushed? || s.writer == Ended(Wrote) ==>
          s.channel.None? && !s.query.Streaming?)
    && (s.writer.Finishing? || s.writer.Flushed? || s.writer == Ended(Wrote) ==> s.done == Sent(true))
    && (s.writer.Removing? ==> s.writer.outcome != Wrote)
    && (s.writer == Ended(GaveUp) || s.writer == Removing(GaveUp) ==>
          s.abandoned || s.done == Sent(false) || s.done.Gone?)
    && (s.abandoned ==> s.dropping)
    && (s.query.Dropped? || s.done.Gone? ==> s.dropping)
  }

  /** Nobody else's file is touched, and the target only by the rename. */
  ghost predicate FilesInv(c: Setup, s: State) {
    OthersInv(c, s) && OwnFilesInv(c, s)
  }

  ghost predicate OthersInv(c: Setup, s: State) {
    s.files - {c.target, c.temp} == c.before - {c.target, c.temp}
  }

  ghost predicate OwnFilesInv(c: Setup, s: State) {
    && (if s.writer == Ended(Wrote)
        then c.target in s.files && s.files[c.target] == c.output(s.written)
        else Untouched(c, s))
    && (c.temp in s.files <==> !s.writer.Ended? || s.removalFailed)
    && (s.removalFailed ==> s.writer.Ended? && s.writer.outcome != Wrote)
    && (s.writer.Flushed? ==> c.temp in s.files && s.files[c.temp] == c.output(s.written))
    && (s.writer.Removing? ==> s.writer.outcome != Wrote)
  }

  function InHand(w: Writer): seq<StreamItem> {
    if w.Handling? || w.Writing? then [w.item] else []
  }

  function OnTheWay(channel: Option<StreamItem>): seq<StreamItem> {
    if channel.Some? then [channel.value] else []
  }

  lemma ItemsKept(s: State, c: Setup, step: Step)
    requires ItemsInv(s) && SignalsInv(s) && Take(c, s, step).Some?
    ensures ItemsInv(Take(c, s, step).value)
  {
    match step {
      case Receive =>
        assert s.written + [] + [s.channel.value] == s.written + [s.channel.value] + [];
      case Write(works) =>
        assert s.written + [s.writer.item] + OnTheWay(s.channel)
            == (s.written + [s.writer.item]) + [] + OnTheWay(s.channel);
      case Send(item) =>
        Assoc(s.written + InHand(s.writer), [], [item]);
      case _ =>
    }
  }

  lemma SignalsKept(s: State, c: Setup, step: Step)
    requires SignalsInv(s) && Take(c, s, step).Some?
    ensures SignalsInv(Take(c, s, step).value)
  {
    if OfWriter(step) {
      hide QueryTakes;
    } else {
      hide WriterTakes;
    }
  }

  lemma OthersKept(s: State, c: Setup, step: Step)
    requires OthersInv(c, s) && Take(c, s, step).Some?
    ensures OthersInv(c, Take(c, s, step).value)
  {
    var mine := {c.target, c.temp};
    if OfWriter(step) {
      hide QueryTakes;
      var t := WriterTakes(c, s, step).value;
      if step.Rename? && step.works {
        var u := s.files[c.target := s.files[c.temp]];
        assert (u - {c.temp}) - mine == u - mine == s.files - mine;
      } else if step.Remove? && step.works {
        assert (s.files - {c.temp}) - mine == s.files - mine;
      } else {
        assert t.files == s.files || t.files == s.files[c.temp := t.files[c.temp]];
        assert t.files - mine == s.files - mine;
      }
    } else {
      hide WriterTakes;
    }
  }

  lemma OwnFilesKept(s: State, c: Setup, step: Step)
    requires ValidSetup(c) && OwnFilesInv(c, s) && Take(c, s, step).Some?
    ensures OwnFilesInv(c, Take(c, s, step).value)
  {
    if step.Rename? || step.Remove? {
      FilesMoved(s, c, step);
      hide WriterTakes, QueryTakes, OwnFilesInv;
    } else if OfWriter(step) {
      FilesWritten(s, c, step);
      hide WriterTakes, QueryTakes, OwnFilesInv;
    } else {
      hide WriterTakes;
      var t := QueryTakes(s, step).value;
      assert t.files == s.files && t.writer == s.writer && t.written == s.written && t.removalFailed == s.removalFailed;
    }
  }

  lemma FilesMoved(s: State, c: Setup, step: Step)
    requires ValidSetup(c) && OwnFilesInv(c, s) && (step.Rename? || step.Remove?) && WriterTakes(c, s, step).Some?
    ensures OwnFilesInv(c, WriterTakes(c, s, step).value)
  {
  }

  lemma FilesWritten(s: State, c: Setup, step: Step)
    requires ValidSetup(c) && OwnFilesInv(c, s) && OfWriter(step) && !step.Rename? && !step.Remove?
    requires WriterTakes(c, s, step).Some?
    ensures OwnFilesInv(c, WriterTakes(c, s, step).value)
  {
  }

  lemma FilesKept(s: State, c: Setup, step: Step)
    requires ValidSetup(c) && FilesInv(c, s) && Take(c, s, step).Some?
    ensures FilesInv(c, Take(c, s, step).value)
  {
    hide Take, OthersInv, OwnFilesInv;
    OthersKept(s, c, step);
    OwnFilesKept(s, c, step);
  }

  lemma TakeKeepsInv(c: Setup, s: State, step: Step)
    requires ValidSetup(c) && Inv(c, s) && Take(c, s, step).Some?
    ensures Inv(c, Take(c, s, step).value)
  {
    hide Take, ItemsInv, SignalsInv, FilesInv;
    ItemsKept(s, c, step);
    SignalsKept(s, c, step);
    FilesKept(s, c, step);
  }

  lemma {:induction false} RunKeepsInv(c: Setup, steps: seq<Step>)
    requires ValidSetup(c) && Run(c, steps).Some?
    ensures Inv(c, Run(c, steps).value)
    decreases |steps|
  {
    hide Inv, Take;
    if steps == [] {
      StartInv(c);
    } else {
      RunKeepsInv(c, steps[..|steps| - 1]);
      TakeKeepsInv(c, Run(c, steps[..|steps| - 1]).value, steps[|steps| - 1]);
    }
  }

  lemma StartInv(c: Setup)
    requires ValidSetup(c)
    ensures Inv(c, Start(c))
  {
  }

  /**
   Whatever the interleaving, the target holds what it held before or the complete output; it
   is replaced only when the query succeeded and every item it sent was written. Every other
   file is as it was.
   */
  lemma TargetIsOldOrComplete(c: Setup, steps: seq<Step>)
    requires ValidSetup(c) && Run(c, steps).Some?
    ensures var s := Run(c, steps).value;
            && (s.writer != Ended(Wrote) ==> Untouched(c, s))
            && (s.writer == Ended(Wrote) ==>
                  && c.target in s.files && s.files[c.target] == c.output(s.sent)
                  && s.written == s.sent && s.query == Finished(true))
            && s.files - {c.target, c.temp} == c.before - {c.target}
  {
    hide Take, Run;
    RunKeepsInv(c, steps);
    var s := Run(c, steps).value;
    if s.writer == Ended(Wrote) {
      assert s.written + [] + [] == s.written;
    }
    assert c.before - {c.target, c.temp} == c.before - {c.target};
  }

  /** Once the writer has ended no temporary file remains, unless removing it failed. */
  lemma NoTemporaryFileRemains(c: Setup, steps: seq<Step>)
    requires ValidSetup(c) && Run(c, steps).Some?
    ensures var s := Run(c, steps).value;
            s.writer.Ended? ==> (c.temp in s.files <==> s.removalFailed) && (s.removalFailed ==> Untouched(c, s))
  {
    hide Take, Run;
    RunKeepsInv(c, steps);
  }

  /** Writing: the steps that only the writer takes. */
  predicate IsWriterStep(step: Step) {
    step.Receive? || step.Look? || step.Write? || step.SeeClosed? || step.HearDone? || step.Flush? || step.Rename?
      || step.Remove?
  }

  /** The steps of the side that runs the query, or of dropping it. */
  predicate IsQueryStep(step: Step) {
    step.QueryEnds? || step.SignalDone? || step.DropQuery? || step.DropSignal?
  }

  /**
   Nothing waits for ever: until the writer has ended either it can go on, or the query can,
   or, once the future is being dropped, the next piece of it can.
   */
  lemma NeverStuck(c: Setup, steps: seq<Step>) returns (next: Step)
    requires ValidSetup(c) && Run(c, steps).Some? && !Run(c, steps).value.writer.Ended?
    ensures Take(c, Run(c, steps).value, next).Some? && (IsWriterStep(next) || IsQueryStep(next))
  {
    hide Run;
    RunKeepsInv(c, steps);
    var s := Run(c, steps).value;
    match s.writer {
      case Receiving =>
        next := if s.channel.Some? then Receive
                else if !s.query.Streaming? then SeeClosed
                else if s.dropping then DropQuery else QueryEnds(true);
      case Handling(_) => next := Look;
      case Writing(_) => next := Write(true);
      case Waiting =>
        next := if !s.done.Unsent? then HearDone
                else if s.dropping then DropSignal else SignalDone;
      case Finishing => next := Flush(true);
      case Flushed => next := Rename(true);
      case Removing(_) => next := Remove(true);
    }
  }

  /** How many steps the writer has left once nothing more is sent. */
  function Left(s: State): nat {
    match s.writer
    case Handling(_) => 7 + (if s.channel.Some? then 3 else 0)
    case Writing(_) => 6 + (if s.channel.Some? then 3 else 0)
    case Receiving => 5 + (if s.channel.Some? then 3 else 0)
    case Waiting => 4
    case Finishing => 3
    case Flushed => 2
    case Removing(_) => 1
    case Ended(_) => 0
  }

  /** Once the query is over the writer needs at most ten steps but for filling its buffer: every one of
      them gets it nearer its end, and no other step takes it further away. */
  lemma WriterEnds(c: Setup, s: State, step: Step)
    requires !s.query.Streaming? && Take(c, s, step).Some?
    requires s.writer.Waiting? || s.writer.Finishing? || s.writer.Flushed? ==> s.channel.None?
    ensures !Take(c, s, step).value.query.Streaming?
    ensures Left(s) <= 10
    ensures IsWriterStep(step) ==> Left(Take(c, s, step).value) < Left(s)
    ensures !IsWriterStep(step) ==> Left(Take(c, s, step).value) == Left(s)
  {
    if !OfWriter(step) {
      hide WriterTakes;
    } else if s.writer.Receiving? || s.writer.Handling? || s.writer.Writing? {
      WriterGoesOn(c, s, step);
      hide WriterTakes, QueryTakes, Left;
      AtMostTen(s);
    } else {
      WriterFinishes(c, s, step);
      hide WriterTakes, QueryTakes, Left;
      AtMostTen(s);
    }
  }

  lemma AtMostTen(s: State)
    ensures Left(s) <= 10
  {
  }

  lemma WriterGoesOn(c: Setup, s: State, step: Step)
    requires OfWriter(step) && WriterTakes(c, s, step).Some?
    requires s.writer.Receiving? || s.writer.Handling? || s.writer.Writing?
    ensures var t := WriterTakes(c, s, step).value;
            t.query == s.query && (if step.Spill? then Left(t) == Left(s) else Left(t) < Left(s))
  {
    match step {
      case Receive =>
      case Look =>
      case Write(_) =>
      case SeeClosed =>
      case Spill(_) =>
      case _ =>
    }
  }

  lemma WriterFinishes(c: Setup, s: State, step: Step)
    requires OfWriter(step) && WriterTakes(c, s, step).Some?
    requires !(s.writer.Receiving? || s.writer.Handling? || s.writer.Writing?)
    ensures var t := WriterTakes(c, s, step).value;
            t.query == s.query && (if step.Spill? then Left(t) == Left(s) else Left(t) < Left(s))
  {
    match step {
      case HearDone =>
      case Flush(_) =>
      case Rename(_) =>
      case Remove(_) =>
      case Spill(_) =>
      case _ =>
    }
  }

  // After the future is dropped.

  lemma {:induction false} RunGoesOn(c: Setup, steps: seq<Step>, more: seq<Step>)
    requires Run(c, steps).Some?
    ensures Run(c, steps + more) == RunOn(c, Run(c, steps).value, more)
    decreases |more|
  {
    hide Take;
    if more == [] {
      assert steps + more == steps;
    } else {
      var n := |more| - 1;
      assert (steps + more)[..|steps + more| - 1] == steps + more[..n];
      RunGoesOn(c, steps, more[..n]);
    }
  }

  /** What has been written since the future was gone: the item being written then, at most. */
  predicate OneMoreAtMost(s: State, t: State) {
    && t.abandoned
    && if t.written == s.written then t.writer.Writing? ==> t.writer == s.writer
       else s.writer.Writing? && t.written == s.written + [s.writer.item] && !t.writer.Writing?
  }

  lemma StillOneMoreAtMost(c: Setup, s: State, t: State, step: Step)
    requires OneMoreAtMost(s, t) && Take(c, t, step).Some?
    ensures OneMoreAtMost(s, Take(c, t, step).value)
  {
    if OfWriter(step) {
      hide QueryTakes;
    } else {
      hide WriterTakes;
    }
  }

  /**
   Once the future is gone the writer writes no item but one it had looked at before, whatever
   is still on its way and however the run goes on.
   */
  lemma {:induction false} AbandonedWritesOneMoreAtMost(c: Setup, s: State, more: seq<Step>)
    requires s.abandoned && RunOn(c, s, more).Some?
    ensures OneMoreAtMost(s, RunOn(c, s, more).value)
    ensures |s.written| <= |RunOn(c, s, more).value.written| <= |s.written| + 1
    decreases |more|
  {
    hide Take;
    if more != [] {
      var n := |more| - 1;
      AbandonedWritesOneMoreAtMost(c, s, more[..n]);
      StillOneMoreAtMost(c, s, RunOn(c, s, more[..n]).value, more[n]);
    }
  }

  lemma {:induction false} FirstStep(c: Setup, s: State, step: Step, more: seq<Step>)
    requires Take(c, s, step).Some?
    ensures RunOn(c, s, [step] + more) == RunOn(c, Take(c, s, step).value, more)
    decreases |more|
  {
    hide Take;
    if more == [] {
      assert ([step] + more)[..0] == [] && [step] + more == [step];
    } else {
      var n := |more| - 1;
      FirstStep(c, s, step, more[..n]);
      assert ([step] + more)[..|[step] + more| - 1] == [step] + more[..n];
    }
  }

  lemma TwoSteps(c: Setup, s: State, first: Step, second: Step)
    requires Take(c, s, first).Some? && Take(c, Take(c, s, first).value, second).Some?
    ensures RunOn(c, s, [first, second]) == Take(c, Take(c, s, first).value, second)
  {
    hide Take;
    var t := Take(c, s, first).value;
    FirstStep(c, s, first, [second]);
    assert [first] + [second] == [first, second];
    assert RunOn(c, t, [second]) == Take(c, t, second) by { OneStep(c, t, second); }
  }

  lemma OneStep(c: Setup, s: State, step: Step)
    ensures RunOn(c, s, [step]) == Take(c, s, step)
  {
    assert [step][..0] == [];
  }

  /** It may be one: an item looked at before the future goes can be written after. */
  lemma OneIsWrittenAfter(c: Setup, s: State)
    requires s.writer.Writing? && s.dropping
    ensures var t := RunOn(c, s, [SetAbandoned, Write(true)]);
            Take(c, s, SetAbandoned).Some? && t.Some? && t.value.abandoned
              && t.value.written == s.written + [s.writer.item]
  {
    TwoSteps(c, s, SetAbandoned, Write(true));
  }

  /** A run gets there: the writer has looked at its item, and the future begins to be dropped. */
  lemma WritingWhenDropped(c: Setup, item: StreamItem)
    ensures var s := Run(c, [Send(item), Receive, Look, StartDropping]);
            s.Some? && s.value.writer == Writing(item) && s.value.dropping && !s.value.abandoned
              && s.value.written == []
  {
    var s0 := Start(c);
    var s1 := Take(c, s0, Send(item)).value;
    var s2 := Take(c, s1, Receive).value;
    FirstStep(c, s0, Send(item), [Receive, Look, StartDropping]);
    FirstStep(c, s1, Receive, [Look, StartDropping]);
    TwoSteps(c, s2, Look, StartDropping);
    assert [Send(item)] + [Receive, Look, StartDropping] == [Send(item), Receive, Look, StartDropping];
    assert [Receive] + [Look, StartDropping] == [Receive, Look, StartDropping];
    hide RunOn;
  }

  // What dropping leaves of the target.

  /**
   Whether the writer can still put the file in place: it was told that the query succeeded,
   has not given up, and no item is left for it to see that the future is gone.
   */
  predicate MayReplace(s: State) {
    && s.done == Sent(true)
    && match s.writer
       case Ended(outcome) => outcome == Wrote
       case Removing(_) => false
       case Handling(_) => !s.abandoned
       case Writing(_) => s.abandoned ==> s.channel.None?
       case Receiving => s.abandoned ==> s.channel.None?
       case _ => true
  }

  /** A step of the writer that leads on to the file in place. */
  function OnToTheEnd(s: State): Step {
    match s.writer
    case Receiving => if s.channel.Some? then Receive else SeeClosed
    case Handling(_) => Look
    case Writing(_) => Write(true)
    case Waiting => HearDone
    case Finishing => Flush(true)
    case _ => Rename(true)
  }

  lemma GoesOnToTheEnd(c: Setup, s: State)
    requires ValidSetup(c) && Inv(c, s) && MayReplace(s) && !s.writer.Ended?
    ensures var t := Take(c, s, OnToTheEnd(s));
            t.Some? && Inv(c, t.value) && MayReplace(t.value) && Left(t.value) < Left(s)
  {
    assert SignalsInv(s) && OwnFilesInv(c, s);
    hide Inv, ItemsInv, OthersInv, OwnFilesInv, QueryTakes;
    assert Take(c, s, OnToTheEnd(s)).Some? by { MayTakeIt(c, s); }
    TakeKeepsInv(c, s, OnToTheEnd(s));
  }

  lemma MayTakeIt(c: Setup, s: State)
    requires SignalsInv(s) && OwnFilesInv(c, s) && MayReplace(s) && !s.writer.Ended?
    ensures Take(c, s, OnToTheEnd(s)).Some?
  {
  }

  lemma {:induction false} CanReplace(c: Setup, s: State) returns (more: seq<Step>)
    requires ValidSetup(c) && Inv(c, s) && MayReplace(s)
    ensures RunOn(c, s, more).Some? && RunOn(c, s, more).value.writer == Ended(Wrote)
    decreases Left(s)
  {
    hide Take, Inv, OnToTheEnd, Left;
    if s.writer.Ended? {
      more := [];
    } else {
      GoesOnToTheEnd(c, s);
      var step := OnToTheEnd(s);
      var rest := CanReplace(c, Take(c, s, step).value);
      FirstStep(c, s, step, rest);
      more := [step] + rest;
    }
  }

  lemma StillCannot(c: Setup, s: State, step: Step)
    requires SignalsInv(s) && s.dropping && !MayReplace(s) && Take(c, s, step).Some?
    ensures var t := Take(c, s, step).value; t.dropping && !MayReplace(t)
  {
    if OfWriter(step) {
      hide QueryTakes;
    } else {
      hide WriterTakes;
    }
  }

  lemma {:induction false} NeverReplaces(c: Setup, s: State, more: seq<Step>)
    requires ValidSetup(c) && Inv(c, s) && s.dropping && !MayReplace(s) && RunOn(c, s, more).Some?
    ensures var t := RunOn(c, s, more).value; Inv(c, t) && t.dropping && !MayReplace(t)
    decreases |more|
  {
    hide Take, ItemsInv, SignalsInv, FilesInv, MayReplace;
    if more != [] {
      var n := |more| - 1;
      NeverReplaces(c, s, more[..n]);
      var t := RunOn(c, s, more[..n]).value;
      TakeKeepsInv(c, t, more[n]);
      StillCannot(c, t, more[n]);
    }
  }

  /**
   What dropping leaves of the target, exactly: from a state in which the future is being
   dropped some run puts the file in place if and only if the writer had been told of success
   before, has not given up and has no item left to look at once the future is gone.
   */
  lemma DroppedMayStillReplace(c: Setup, steps: seq<Step>)
    requires ValidSetup(c) && Run(c, steps).Some? && Run(c, steps).value.dropping
    ensures var s := Run(c, steps).value;
            MayReplace(s) <==> exists more :: RunOn(c, s, more).Some? && RunOn(c, s, more).value.writer == Ended(Wrote)
  {
    hide Run, Take, RunOn, ItemsInv, FilesInv;
    RunKeepsInv(c, steps);
    var s := Run(c, steps).value;
    if MayReplace(s) {
      var more := CanReplace(c, s);
    }
    forall more | RunOn(c, s, more).Some? && !MayReplace(s)
      ensures RunOn(c, s, more).value.writer != Ended(Wrote)
    {
      NeverReplaces(c, s, more);
    }
  }

  /** So a future dropped before the signal was sent never changes the target, however the run goes on. */
  lemma DroppedBeforeTheSignal(c: Setup, steps: seq<Step>, more: seq<Step>)
    requires ValidSetup(c) && Run(c, steps).Some? && Run(c, steps).value.dropping && !Run(c, steps).value.done.Sent?
    requires Run(c, steps + more).Some?
    ensures Untouched(c, Run(c, steps + more).value)
  {
    hide Take, RunOn, ItemsInv;
    RunKeepsInv(c, steps);
    RunGoesOn(c, steps, more);
    NeverReplaces(c, Run(c, steps).value, more);
  }

  /** And one dropped after it need not: the writer is waiting, and hears of success. */
  lemma DroppedAfterTheSignal(c: Setup)
    requires ValidSetup(c)
    ensures var s := Run(c, [QueryEnds(true), SignalDone, StartDropping, SetAbandoned]);
            s.Some? && s.value.abandoned && Untouched(c, s.value) && MayReplace(s.value)
  {
    hide RunOn, MayReplace, Untouched, Start, WriterTakes;
    var s0 := Start(c);
    var s1 := s0.(query := Finished(true));
    var s2 := s1.(done := Sent(true));
    assert Take(c, s0, QueryEnds(true)) == Some(s1) && Take(c, s1, SignalDone) == Some(s2) by { Starting(c); }
    FirstStep(c, s0, QueryEnds(true), [SignalDone, StartDropping, SetAbandoned]);
    FirstStep(c, s1, SignalDone, [StartDropping, SetAbandoned]);
    TwoSteps(c, s2, StartDropping, SetAbandoned);
    assert [QueryEnds(true)] + [SignalDone, StartDropping, SetAbandoned]
        == [QueryEnds(true), SignalDone, StartDropping, SetAbandoned];
    assert [SignalDone] + [StartDropping, SetAbandoned] == [SignalDone, StartDropping, SetAbandoned];
    ToldAtStart(c, s2.(dropping := true, abandoned := true));
  }

  lemma Starting(c: Setup)
    ensures var s := Start(c); s.query == Streaming && s.done == Unsent && !s.dropping
  {
  }

  lemma ToldAtStart(c: Setup, s: State)
    requires ValidSetup(c)
             && s == Start(c).(query := Finished(true), done := Sent(true), dropping := true, abandoned := true)
    ensures Untouched(c, s) && MayReplace(s)
  {
  }

  // What the caller is told.

  datatype Answer = Fine | WriteFailed | QueryFailed | Stopped

  /** The answer, once the query and the writer have both ended and the future is still there. */
  function AnswerOf(s: State): Option<Answer> {
    if !s.query.Finished? || !s.done.Sent? || !s.writer.Ended? || s.dropping then None
    else
      Some(match s.writer.outcome
           case Wrote => Fine
           case Failed => WriteFailed
           case GaveUp => if s.query.ok then Stopped else QueryFailed)
  }

  /**
   The caller is told that all went well exactly when the target was replaced by the complete
   output, and otherwise the target is unchanged. That it was stopped early is never the answer.
   */
  lemma AnswersAreSo(c: Setup, steps: seq<Step>)
    requires ValidSetup(c) && Run(c, steps).Some? && AnswerOf(Run(c, steps).value).Some?
    ensures var s := Run(c, steps).value;
            var answer := AnswerOf(s).value;
            && (answer == Fine <==> s.writer == Ended(Wrote))
            && (answer == Fine ==>
                  c.target in s.files && s.files[c.target] == c.output(s.sent) && s.query == Finished(true))
            && (answer != Fine ==> Untouched(c, s))
            // The writer's own failure is told; where it gave up, the query's.
            && (answer == WriteFailed <==> s.writer == Ended(Failed))
            && (answer == QueryFailed <==> s.writer == Ended(GaveUp))
            && (answer == QueryFailed ==> s.query == Finished(false))
            && answer != Stopped
  {
    hide Run, Take;
    RunKeepsInv(c, steps);
    TargetIsOldOrComplete(c, steps);
  }
}
