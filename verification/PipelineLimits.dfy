/** Where the pipeline does less than its manual says: a stop request while the writer is paused, and completion of the
    reader. */
module PipelineLimits {
  import opened Bytes
  import opened PipelineStore
  import opened Pipeline
  import opened PipelineRuns
  import opened PipelineTheorems

  // ----- a stop request while the writer is paused -----

  /** A stop that is visible from the start of a tenure ends the call exactly when the writer is not paused (and the
      pipeline not completed). */
  lemma {:induction false} StopEndsTenureIff(p: Pipe, data: seq<byte>)
    requires RepInv(p) && data != []
    ensures WriteEnter(p, data, Some(0)).outcome.WriteStops? <==> !p.writerPaused && !p.AnyCompleted()
    ensures WriteWait(p, data, Some(0)).outcome.WriteStops? <==> !p.writerPaused && !p.AnyCompleted()
  {
  }

  /** Nobody but the writer's own call helps it: no advance, no completion, no further call. */
  predicate Unaided(a: Action) { !a.StartWrite? && !a.StartAdvance? && !Completes(a) }

  ghost predicate UnaidedRun(actions: seq<Action>) {
    forall i :: 0 <= i < |actions| ==> Unaided(actions[i])
  }

  ghost predicate PausedCall(s: Sys) {
    Inv(s) && s.pipe.writerPaused && Unfinished(s.writer)
  }

  lemma {:induction false} StepKeepsPausedCall(s: Sys, a: Action)
    requires PausedCall(s) && Enabled(s, a) && Unaided(a)
    ensures PausedCall(Step(s, a))
    ensures Step(s, a).committed == s.committed && Step(s, a).writer.call == s.writer.call
  {
    hide Content, Readable, ReaderInv, CallOk, Fill;
    StepKeeps(s, a);
    if a.WriterRuns? {
      WriteKeeps(s.pipe, s.writer.call.Rest(), a.limit);
    }
  }

  /** However often the stop request is seen, a paused call neither returns nor commits anything until the reader
      advances or a side completes. */
  lemma {:induction false} PausedWriteNeverReturns(s: Sys, actions: seq<Action>)
    requires PausedCall(s) && Executes(s, actions) && UnaidedRun(actions)
    ensures var s' := After(s, actions);
            && PausedCall(s') && !s'.writer.WriterReturned?
            && s'.committed == s.committed && s'.writer.call == s.writer.call
    decreases |actions|
  {
    hide Step, Enabled, RepInv, WriterInv, ReaderInv;
    if actions != [] {
      StepKeeps(s, actions[0]);
      StepKeepsPausedCall(s, actions[0]);
      PausedWriteNeverReturns(Step(s, actions[0]), actions[1..]);
    }
  }

  /** On a completed pipeline the call can only throw. */
  ghost predicate DoomedCall(s: Sys) {
    && Inv(s) && s.pipe.AnyCompleted()
    && !s.writer.WriterReturned? && !s.writer.WriterNotifies?
  }

  lemma {:induction false} StepKeepsDoomedCall(s: Sys, a: Action)
    requires DoomedCall(s) && Enabled(s, a) && Unaided(a)
    ensures DoomedCall(Step(s, a))
  {
    hide Content, Readable, ReaderInv, CallOk, Fill;
    StepKeeps(s, a);
    if a.WriterRuns? {
      WriteKeeps(s.pipe, s.writer.call.Rest(), a.limit);
    }
  }

  lemma {:induction false} DoomedWriteNeverReturns(s: Sys, actions: seq<Action>)
    requires DoomedCall(s) && Executes(s, actions) && UnaidedRun(actions)
    ensures !After(s, actions).writer.WriterReturned?
    decreases |actions|
  {
    hide Step, Enabled, RepInv, WriterInv, ReaderInv;
    if actions != [] {
      StepKeeps(s, actions[0]);
      StepKeepsDoomedCall(s, actions[0]);
      DoomedWriteNeverReturns(Step(s, actions[0]), actions[1..]);
    }
  }

  /** The stop request is seen in the next tenure. */
  lemma {:induction false} StopAtOnce(s: Sys) returns (actions: seq<Action>)
    requires Inv(s) && (s.writer.WriterEnters? || s.writer.WriterParked? || s.writer.WriterWoken?)
    requires !s.pipe.writerPaused && !s.pipe.AnyCompleted()
    ensures Executes(s, actions) && UnaidedRun(actions)
    ensures After(s, actions).writer.WriterReturned? && After(s, actions).committed == s.committed
  {
    hide Content, Readable, ReaderInv, CallOk;
    assert Executes(s, []) && After(s, []) == s by { RunNothing(s); }
    actions := [];
    if s.writer.WriterParked? {
      RunSnoc(s, actions, WriterWakes);
      actions := actions + [WriterWakes];
    }
    var s1 := After(s, actions);
    StopEndsTenureIff(s1.pipe, s1.writer.call.Rest());
    RunSnoc(s, actions, WriterRuns(Some(0)));
    actions := actions + [WriterRuns(Some(0))];
  }

  /** A call can return on a stop request alone exactly when the writer is not paused and the pipeline not completed:
      a blocked write cannot be cancelled. */
  lemma {:induction false} CancelReturnsIff(s: Sys)
    requires Inv(s) && (s.writer.WriterEnters? || s.writer.WriterParked? || s.writer.WriterWoken?)
    ensures (exists actions :: Executes(s, actions) && UnaidedRun(actions) && After(s, actions).writer.WriterReturned?)
        <==> !s.pipe.writerPaused && !s.pipe.AnyCompleted()
  {
    hide Inv, Executes, After, UnaidedRun;
    if !s.pipe.writerPaused && !s.pipe.AnyCompleted() {
      var actions := StopAtOnce(s);
    } else {
      forall actions | Executes(s, actions) && UnaidedRun(actions) ensures !After(s, actions).writer.WriterReturned? {
        if s.pipe.writerPaused {
          PausedWriteNeverReturns(s, actions);
        } else {
          DoomedWriteNeverReturns(s, actions);
        }
      }
    }
  }

  /** Every pipeline reaches such a state: a long enough write is blocked, and no stop request ends it. */
  lemma {:induction false} BlockedWriteIgnoresStop(o: Options, arena: bool, input: seq<byte>) returns (actions: seq<Action>)
    requires OptionsOk(o) && |input| > MaxLive(o) * o.bufferSize
    ensures Executes(Initial(o, arena), actions) && PausedCall(After(Initial(o, arena), actions))
    ensures After(Initial(o, arena), actions).writer.call.input == input
    ensures forall more :: Executes(After(Initial(o, arena), actions), more) && UnaidedRun(more) ==>
              !After(After(Initial(o, arena), actions), more).writer.WriterReturned?
  {
    hide Initial, Executes, After, UnaidedRun, Inv, Fill, Readable, ShouldPause;
    actions := PauseWriter(o, arena, input);
    var s := After(Initial(o, arena), actions);
    forall more | Executes(s, more) && UnaidedRun(more) ensures !After(s, more).writer.WriterReturned? {
      PausedWriteNeverReturns(s, more);
    }
  }

  // ----- completion of the reader -----

  /** The store that `complete_reader` leaves behind: its counters are zero, its segments and buffers are all there. */
  ghost predicate Stale(s: Sys, st: Store) {
    && Inv(s) && s.pipe.readerCompleted && s.pipe.examined == 0
    && s.pipe.store == st.(buffered := 0, actual := 0)
  }

  lemma {:induction false} StepKeepsStale(s: Sys, a: Action, st: Store)
    requires Stale(s, st) && Enabled(s, a)
    ensures Stale(Step(s, a), st) && Step(s, a).committed == s.committed && Step(s, a).consumed == s.consumed
  {
    hide Content, Readable, ReaderInv, CallOk, Fill, Consume;
    StepKeeps(s, a);
    if a.WriterRuns? {
      WriteKeeps(s.pipe, s.writer.call.Rest(), a.limit);
    }
  }

  lemma {:induction false} RunKeepsStale(s: Sys, actions: seq<Action>, st: Store)
    requires Stale(s, st) && Executes(s, actions)
    ensures var s' := After(s, actions);
            Stale(s', st) && s'.committed == s.committed && s'.consumed == s.consumed
    decreases |actions|
  {
    hide Step, Enabled, RepInv, WriterInv, ReaderInv;
    if actions != [] {
      StepKeeps(s, actions[0]);
      StepKeepsStale(s, actions[0], st);
      RunKeepsStale(Step(s, actions[0]), actions[1..], st);
    }
  }

  /** What a woken read finds after the reader completed. */
  lemma {:induction false} StaleRead(p: Pipe, q: Pipe, minSize: nat, stop: bool)
    requires RepInv(p) && !p.readerCompleted
    requires q.store == p.store.(buffered := 0, actual := 0) && q.examined == 0
    ensures var r := ReadWait(q, minSize, stop).outcome;
            && (r.ReadParks? <==> !stop && !q.writerCompleted)
            && (r.ReadSnapshot? <==> !stop && q.writerCompleted)
            && (r.ReadSnapshot? ==> r.completed && Flat(DerefAll(q.store.mem, r.spans)) == Content(p.store))
  {
    hide Flat, Readable;
    SnapshotIsContent(p);
  }

  /** Completion of the reader discards nothing and makes no read eligible. In every later run the segments and their
      bytes are still there behind zero counters; a woken read goes back to sleep unless it is stopped or the writer
      completed, and if the writer completed it hands out the very bytes that were unread. */
  lemma {:induction false} ReaderCompletionKeepsBytes(s: Sys, actions: seq<Action>, minSize: nat, stop: bool)
    requires Inv(s) && !s.pipe.readerCompleted && Executes(s, [ReaderCompletes] + actions)
    ensures var s' := After(s, [ReaderCompletes] + actions);
            var r := ReadWait(s'.pipe, minSize, stop).outcome;
            && s'.pipe.store == s.pipe.store.(buffered := 0, actual := 0) && s'.pipe.examined == 0
            && s'.committed == s.committed && s'.consumed == s.consumed
            && (r.ReadParks? <==> !stop && !s'.pipe.writerCompleted)
            && (r.ReadSnapshot? <==> !stop && s'.pipe.writerCompleted)
            && (r.ReadSnapshot? ==> r.completed && Flat(DerefAll(s'.pipe.store.mem, r.spans)) == Content(s.pipe.store))
  {
    hide Content, Readable, ReaderInv, CallOk, Flat, ReadWait;
    var all := [ReaderCompletes] + actions;
    assert all[0] == ReaderCompletes && all[1..] == actions;
    StepKeeps(s, ReaderCompletes);
    var s1 := Step(s, ReaderCompletes);
    RunKeepsStale(s1, actions, s.pipe.store);
    StaleRead(s.pipe, After(s1, actions).pipe, minSize, stop);
  }

  predicate Asleep(r: Reader) { r.ReaderParked? || r.ReaderWoken? }

  lemma {:induction false} StepKeepsAsleep(s: Sys, a: Action, st: Store)
    requires Stale(s, st) && Enabled(s, a) && Asleep(s.reader) && !s.pipe.writerCompleted
    requires !a.WriterCompletes? && a != ReaderRuns(true)
    ensures Asleep(Step(s, a).reader) && !Step(s, a).pipe.writerCompleted
  {
    hide Content, Readable, ReaderInv, CallOk, Fill, Consume;
    if a.WriterRuns? {
      WriteKeeps(s.pipe, s.writer.call.Rest(), a.limit);
    }
  }

  /** A reader that sleeps when the reader side completes sleeps on, whatever notifications reach it, until it is stopped
      or the writer completes. */
  lemma {:induction false} CompletedReaderSleepsOn(s: Sys, actions: seq<Action>, st: Store)
    requires Stale(s, st) && Asleep(s.reader) && !s.pipe.writerCompleted && Executes(s, actions)
    requires forall i :: 0 <= i < |actions| ==> !actions[i].WriterCompletes? && actions[i] != ReaderRuns(true)
    ensures Asleep(After(s, actions).reader)
    decreases |actions|
  {
    hide Step, Enabled, RepInv, WriterInv, ReaderInv;
    if actions != [] {
      StepKeeps(s, actions[0]);
      StepKeepsStale(s, actions[0], st);
      StepKeepsAsleep(s, actions[0], st);
      CompletedReaderSleepsOn(Step(s, actions[0]), actions[1..], st);
    }
  }

  /** A run in which a read that slept through the completion of both sides ends with a snapshot of unread bytes. */
  lemma {:induction false} StaleSnapshot(o: Options, arena: bool) returns (actions: seq<Action>)
    requires OptionsOk(o) && o.bufferSize <= o.pauseThreshold
    ensures Executes(Initial(o, arena), actions)
    ensures var s := After(Initial(o, arena), actions);
            && s.pipe.readerCompleted && s.reader.ReaderHolds? && s.reader.snapshot.completed
            && Flat(s.reader.snapshot.pieces) == s.committed != []
  {
    hide Content, Readable, Executes, After, Initial, Flat, Consume, SnapshotOk, WriterInv;
    var init := Initial(o, arena);
    actions := SleepOverExamined(o, arena);
    var s := After(init, actions);
    assert s.consumed + Content(s.pipe.store) == Content(s.pipe.store);
    StaleRead(s.pipe, CompleteWriter(CompleteReader(s.pipe)), 0, false);
    RunSnoc(init, actions, ReaderCompletes);
    actions := actions + [ReaderCompletes];
    RunSnoc(init, actions, WriterCompletes);
    actions := actions + [WriterCompletes];
    RunSnoc(init, actions, DeliverData);
    actions := actions + [DeliverData];
    RunSnoc(init, actions, ReaderRuns(false));
    actions := actions + [ReaderRuns(false)];
  }

  /** The reader has examined the only byte without consuming it, and sleeps. */
  lemma {:induction false} SleepOverExamined(o: Options, arena: bool) returns (actions: seq<Action>)
    requires OptionsOk(o) && o.bufferSize <= o.pauseThreshold
    ensures Executes(Initial(o, arena), actions)
    ensures var s := After(Initial(o, arena), actions);
            && s.reader == ReaderParked(0) && s.committed == [0] && s.consumed == [] && s.owedData == 0
            && !s.pipe.AnyCompleted()
  {
    hide Content, Readable, Executes, After, Initial, Flat, Consume, SnapshotOk, WriterInv;
    var init := Initial(o, arena);
    actions := WriteOneByte(o, arena);
    var s := After(init, actions);
    assert s.consumed + Content(s.pipe.store) == Content(s.pipe.store);
    ContentLength(o, s.pipe.store);
    SnapshotIsContent(s.pipe);
    RunSnoc(init, actions, StartRead(0, false));
    actions := actions + [StartRead(0, false)];
    var s1 := After(init, actions);
    AdvanceKeeps(s1.pipe, 0, 1);
    RunSnoc(init, actions, StartAdvance(0, 1));
    actions := actions + [StartAdvance(0, 1)];
    var s2 := After(init, actions);
    ContentLength(o, s2.pipe.store);
    RunSnoc(init, actions, ReaderNotifiesWriter);
    actions := actions + [ReaderNotifiesWriter];
    RunSnoc(init, actions, StartRead(0, false));
    actions := actions + [StartRead(0, false)];
  }

  lemma {:induction false} WriteOneByte(o: Options, arena: bool) returns (actions: seq<Action>)
    requires OptionsOk(o) && o.bufferSize <= o.pauseThreshold
    ensures Executes(Initial(o, arena), actions)
    ensures var s := After(Initial(o, arena), actions);
            && s.reader.ReaderIdle? && s.committed == [0] && s.consumed == [] && s.owedData == 0
            && s.pipe.examined == 0 && !s.pipe.AnyCompleted() && !s.pipe.hasPendingRead && s.pipe.options == o
  {
    hide Content, Readable, Executes, After, EmptyStore, WriteWait, ReaderInv;
    var init := Initial(o, arena);
    FirstByte(o, arena);
    RunNothing(init);
    RunSnoc(init, [], StartWrite([0]));
    actions := [] + [StartWrite([0])];
    assert After(init, actions).writer.call.Rest() == [0];
    RunSnoc(init, actions, WriterRuns(None));
    actions := actions + [WriterRuns(None)];
  }

  lemma {:induction false} FirstByte(o: Options, arena: bool)
    requires OptionsOk(o) && o.bufferSize <= o.pauseThreshold
    ensures var p := Initial(o, arena).pipe;
            var w := WriteWait(p, [0], None);
            && w.outcome == WriteReleases(1, false)
            && w.pipe == p.(store := w.pipe.store, writerPaused := w.pipe.writerPaused)
  {
    var p := Initial(o, arena).pipe;
    assert !ShouldPause(o, p.store);
    hide Content, Readable, EmptyStore, ShouldPause, WriteWait;
    WriteKeeps(p, [0], None);
    SpuriousResume(p, [0]);
  }
}
