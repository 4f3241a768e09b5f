/** What holds over every run of the pipeline: stream integrity, stable snapshots, write and completion guarantees,
    wake-ups, and the exact condition for freedom from deadlock. */
module PipelineTheorems {
  import opened Bytes
  import opened PipelineStore
  import opened Pipeline
  import opened PipelineRuns

  lemma {:induction false} RunSnoc(s: Sys, actions: seq<Action>, a: Action)
    requires Inv(s) && Executes(s, actions) && Enabled(After(s, actions), a)
    ensures Executes(s, actions + [a]) && After(s, actions + [a]) == Step(After(s, actions), a)
    decreases |actions|
  {
    hide Inv, Step, Enabled;
    if actions == [] {
      assert ([a])[1..] == [];
      StepKeeps(s, a);
    } else {
      StepKeeps(s, actions[0]);
      RunSnoc(Step(s, actions[0]), actions[1..], a);
      assert (actions + [a])[0] == actions[0] && (actions + [a])[1..] == actions[1..] + [a];
    }
  }

  // ----- stream and storage -----

  /** Over every run before the reader completes: consumed bytes followed by stored bytes are the committed bytes;
      the counters, the segments and either allocator agree; no buffer was discarded. */
  lemma {:induction false} StreamIsIntact(o: Options, arena: bool, actions: seq<Action>)
    requires OptionsOk(o) && Executes(Initial(o, arena), actions)
    ensures var s := After(Initial(o, arena), actions);
            var st := s.pipe.store;
            !s.pipe.readerCompleted ==>
              && s.consumed + Content(st) == s.committed
              && st.buffered == |Content(st)| && s.pipe.examined <= st.buffered
              && (s.pipe.hasPendingRead ==> s.pipe.pendingSize <= st.buffered)
              && st.actual == |st.segments| * o.bufferSize <= o.pauseThreshold
              && (forall i :: 0 <= i < |st.segments| ==>
                    st.segments[i].readable.size > 0 && (i < |st.segments| - 1 ==> st.segments[i].Full()))
              && (if arena then
                    st.alloc.ArenaPool? && st.alloc.active == |st.segments| <= MaxPooled(o)
                  else
                    st.alloc.FixedPool? && |st.alloc.available| + |st.segments| == |st.mem| <= o.pauseThreshold / o.bufferSize)
  {
    OptionsKept(Initial(o, arena), actions);
  }

  /** In every reachable state, with either allocator: live buffers lie in memory and never overlap, nor do the readable
      and writable parts of one segment; the next allocation meets the capacity assertion and returns no live buffer;
      the next deallocation discards nothing. */
  lemma {:induction false} BuffersAreSafe(o: Options, arena: bool, actions: seq<Action>, i: nat, j: nat)
    requires OptionsOk(o) && Executes(Initial(o, arena), actions)
    requires !After(Initial(o, arena), actions).pipe.readerCompleted
    ensures var st := After(Initial(o, arena), actions).pipe.store;
            && (i < |st.segments| ==> InMemory(st.mem, BufferSpan(o, st.segments[i].buffer))
                                      && Disjoint(st.segments[i].readable, st.segments[i].writable))
            && (i < |st.segments| && j < |st.segments| && i != j ==>
                  Disjoint(BufferSpan(o, st.segments[i].buffer), BufferSpan(o, st.segments[j].buffer)))
            && (!HasWritableTail(st) && WriterCapacity(o, st) > 0 ==>
                  && Allocate(o, st.mem, st.alloc).buffer !in Buffers(st.segments)
                  && (st.alloc.ArenaPool? ==> st.alloc.active != MaxPooled(o)))
            && (st.segments != [] ==> !Discards(o, st.alloc))
  {
    OptionsKept(Initial(o, arena), actions);
    StoreIsSafe(o, After(Initial(o, arena), actions).pipe.store, i, j);
  }

  lemma {:induction false} StoreIsSafe(o: Options, st: Store, i: nat, j: nat)
    requires Readable(o, st)
    ensures i < |st.segments| ==> InMemory(st.mem, BufferSpan(o, st.segments[i].buffer))
                                  && Disjoint(st.segments[i].readable, st.segments[i].writable)
    ensures i < |st.segments| && j < |st.segments| && i != j ==>
              Disjoint(BufferSpan(o, st.segments[i].buffer), BufferSpan(o, st.segments[j].buffer))
    ensures !HasWritableTail(st) && WriterCapacity(o, st) > 0 ==>
              && Allocate(o, st.mem, st.alloc).buffer !in Buffers(st.segments)
              && (st.alloc.ArenaPool? ==> st.alloc.active != MaxPooled(o))
    ensures st.segments != [] ==> !Discards(o, st.alloc)
  {
    hide AllocOk, Allocate, Discards, Flat;
    var live := Buffers(st.segments);
    if i < |live| {
      LiveDisjoint(o, st.mem, st.alloc, live, i, if j < |live| then j else i);
    }
    if st.segments != [] {
      DeallocateKeeps(o, st.mem, st.alloc, live);
    }
    if !HasWritableTail(st) && WriterCapacity(o, st) > 0 {
      assert (|live| + 1) * o.bufferSize == |live| * o.bufferSize + o.bufferSize;
      AllocateKeeps(o, st.mem, st.alloc, live);
    }
  }

  lemma {:induction false} OptionsKept(s: Sys, actions: seq<Action>)
    requires Inv(s) && Executes(s, actions)
    ensures var s' := After(s, actions);
            s'.pipe.options == s.pipe.options && s'.pipe.store.alloc.ArenaPool? == s.pipe.store.alloc.ArenaPool?
    decreases |actions|
  {
    if actions != [] {
      var a := actions[0];
      StepKeeps(s, a);
      StepKeepsOptions(s, a);
      OptionsKept(Step(s, a), actions[1..]);
    }
  }

  /** What no step changes: the options, the kind of allocator, committed bytes, and completion of the writer. */
  ghost predicate Grows(s: Sys, s': Sys) {
    && s'.pipe.options == s.pipe.options
    && s'.pipe.store.alloc.ArenaPool? == s.pipe.store.alloc.ArenaPool?
    && s.committed <= s'.committed
    && (s.pipe.writerCompleted ==> s'.pipe.writerCompleted && s'.committed == s.committed)
  }

  lemma {:induction false} StepKeepsOptions(s: Sys, a: Action)
    requires Inv(s) && Enabled(s, a)
    ensures Grows(s, Step(s, a))
  {
    match a
    case WriterRuns(limit) => WriterRunsGrows(s, limit);
    case StartAdvance(consumed, examined) => StartAdvanceGrows(s, consumed, examined);
    case _ => hide Inv;
  }

  lemma {:induction false} WriterRunsGrows(s: Sys, limit: Option<nat>)
    requires Inv(s) && Enabled(s, WriterRuns(limit))
    ensures Grows(s, Step(s, WriterRuns(limit)))
  {
    hide Content, Readable, ReaderInv, CallOk, Fill, ShouldPause;
    WriteKeeps(s.pipe, s.writer.call.Rest(), limit);
    if !s.pipe.writerPaused && !s.pipe.AnyCompleted() {
      FillKeepsKind(s.pipe.options, s.pipe.store, false, s.writer.call.Rest(), limit);
    }
  }

  lemma {:induction false} StartAdvanceGrows(s: Sys, consumed: nat, examined: nat)
    requires Inv(s) && Enabled(s, StartAdvance(consumed, examined))
    ensures Grows(s, Step(s, StartAdvance(consumed, examined)))
  {
    hide Content, Readable, ReaderInv, WriterInv, Consume;
    AdvanceKeeps(s.pipe, consumed, examined);
    if Advance(s.pipe, consumed, examined).outcome.Advanced? {
      ConsumeKeepsKind(s.pipe.options, s.pipe.store, consumed);
    }
  }

  lemma {:induction false} FillKeepsKind(o: Options, st: Store, paused: bool, data: seq<byte>, limit: Option<nat>)
    requires Readable(o, st)
    ensures Fill(o, st, paused, data, limit).store.alloc.ArenaPool? == st.alloc.ArenaPool?
    decreases |data|
  {
    if !(data == [] || paused || limit == Some(0) || WriterCapacity(o, st) == 0) {
      var n := Min(|data|, WriterCapacity(o, st));
      var st' := Commit(o, st, data[..n]);
      CommitKeeps(o, st, data[..n]);
      FillKeepsKind(o, st', ShouldPause(o, st'), data[n..], FewerRounds(limit));
    }
  }

  lemma {:induction false} ConsumeKeepsKind(o: Options, st: Store, n: nat)
    requires Readable(o, st) && n <= st.buffered
    ensures Consume(o, st, n).alloc.ArenaPool? == st.alloc.ArenaPool?
    decreases |st.segments|
  {
    if n > 0 && n >= st.segments[0].readable.size {
      PopKeeps(o, st);
      ConsumeKeepsKind(o, Pop(o, st), n - st.segments[0].readable.size);
    }
  }

  predicate LeavesSnapshot(a: Action) {
    !a.StartAdvance? && !a.ReaderCompletes?
  }

  /** Between a read and its advance, whatever else runs, every span of the snapshot keeps its bytes. */
  lemma {:induction false} SnapshotStable(s: Sys, actions: seq<Action>)
    requires Inv(s) && s.reader.ReaderHolds? && !s.pipe.readerCompleted
    requires Executes(s, actions) && forall i :: 0 <= i < |actions| ==> LeavesSnapshot(actions[i])
    ensures var s' := After(s, actions);
            && s'.reader == s.reader && !s'.pipe.readerCompleted
            && forall i :: 0 <= i < |s.reader.snapshot.spans| ==>
                 Deref(s'.pipe.store.mem, s.reader.snapshot.spans[i]) == s.reader.snapshot.pieces[i]
    decreases |actions|
  {
    hide Content, Readable, StreamAt, CallOk;
    if actions != [] {
      StepKeeps(s, actions[0]);
      StepKeepsHolding(s, actions[0]);
      SnapshotStable(Step(s, actions[0]), actions[1..]);
    }
  }

  lemma {:induction false} StepKeepsHolding(s: Sys, a: Action)
    requires Inv(s) && Enabled(s, a) && s.reader.ReaderHolds? && !s.pipe.readerCompleted && LeavesSnapshot(a)
    ensures Step(s, a).reader == s.reader && !Step(s, a).pipe.readerCompleted
  {
  }

  // ----- calls of write -----

  lemma {:induction false} CommittedGrows(s: Sys, actions: seq<Action>)
    requires Inv(s) && Executes(s, actions)
    ensures s.committed <= After(s, actions).committed
    ensures s.pipe.writerCompleted ==> After(s, actions).committed == s.committed
    decreases |actions|
  {
    if actions != [] {
      StepKeeps(s, actions[0]);
      StepKeepsOptions(s, actions[0]);
      CommittedGrows(Step(s, actions[0]), actions[1..]);
    }
  }

  lemma {:induction false} CallPersists(s: Sys, actions: seq<Action>)
    requires Inv(s) && Executes(s, actions) && forall i :: 0 <= i < |actions| ==> !actions[i].StartWrite?
    requires !After(s, actions).writer.WriterIdle?
    ensures !s.writer.WriterIdle?
    ensures After(s, actions).writer.call == s.writer.call.(copied := After(s, actions).writer.call.copied)
    decreases |actions|
  {
    hide Content, RepInv, ReaderInv, CallOk;
    if actions != [] {
      StepKeeps(s, actions[0]);
      CallPersists(Step(s, actions[0]), actions[1..]);
    }
  }

  /** Whatever pauses, wake-ups and reads come between, a returning `write` appended exactly the first `copied`
      bytes of its input to the stream, and all of them unless its stop token was stopped. */
  lemma {:induction false} WriteGuarantee(s: Sys, input: seq<byte>, actions: seq<Action>)
    requires Inv(s) && s.writer.WriterIdle?
    requires Executes(s, [StartWrite(input)] + actions)
    requires forall i :: 0 <= i < |actions| ==> !actions[i].StartWrite?
    requires After(s, [StartWrite(input)] + actions).writer.WriterReturned?
    ensures var s' := After(s, [StartWrite(input)] + actions);
            var copied := s'.writer.call.copied;
            && copied <= |input|
            && s'.committed == s.committed + input[..copied]
            && (copied == |input| || s'.writer.stopped)
  {
    hide Content, RepInv, ReaderInv;
    var all := [StartWrite(input)] + actions;
    assert all[0] == StartWrite(input) && all[1..] == actions;
    StepKeeps(s, all[0]);
    var s1 := Step(s, all[0]);
    CallPersists(s1, actions);
    CommittedGrows(s1, actions);
    var s' := After(s1, actions);
    var c := s'.writer.call;
    assert s'.committed == s'.committed[..c.base] + s'.committed[c.base..];
  }

  /** A completed snapshot holds everything left, and nothing is ever added to the stream after it. */
  lemma {:induction false} CompletedIsFinal(s: Sys, actions: seq<Action>)
    requires Inv(s) && !s.pipe.readerCompleted && s.reader.ReaderHolds? && s.reader.snapshot.completed
    requires Executes(s, actions)
    ensures After(s, actions).committed == s.committed == s.consumed + Flat(s.reader.snapshot.pieces)
  {
    hide Content, Readable, SpansLive;
    CommittedGrows(s, actions);
    var n := s.reader.snapshot;
    assert s.committed == s.committed[..n.base] + s.committed[n.base..|s.committed|];
    assert s.consumed == (s.consumed + Content(s.pipe.store))[..n.base];
  }

  // ----- wake-ups -----

  predicate Uncancelled(a: Action) { a.WriterRuns? ==> a.limit.None? }

  /** A side sleeps with its condition true only while a notification for it is on the way. */
  ghost predicate WakeInv(s: Sys) {
    && (s.reader.ReaderParked? || s.reader.ReaderWoken? ==> s.pipe.readerWaiting)
    && (s.reader.ReaderParked? && s.pipe.DataAvailable(s.reader.minSize) ==>
          s.owedData > 0 || (s.writer.WriterNotifies? && s.writer.notify))
    && (s.writer.WriterParked? && !s.pipe.writerPaused ==>
          s.owedSpace > 0 || (s.reader.ReaderNotifies? && s.reader.notify))
  }

  /** With room for one buffer only, a stop is never seen after a commit in the same tenure. */
  predicate OneBuffer(o: Options) { o.pauseThreshold < 2 * o.bufferSize }

  lemma {:induction false} CommitFillsTail(o: Options, st: Store, piece: seq<byte>)
    requires Readable(o, st) && 0 < |piece| == WriterCapacity(o, st)
    ensures !HasWritableTail(Commit(o, st, piece)) && Commit(o, st, piece).actual >= o.bufferSize
  {
    GetSegmentKeeps(o, st);
    CommitKeeps(o, st, piece);
    var st' := Commit(o, st, piece);
    MulLe(1, |st'.segments|, o.bufferSize);
  }

  lemma {:induction false} StopsBeforeCommit(o: Options, st: Store, data: seq<byte>, limit: Option<nat>)
    requires Readable(o, st) && OneBuffer(o) && Fill(o, st, false, data, limit).stopped
    ensures Fill(o, st, false, data, limit).copied == 0
  {
    hide Readable, Commit;
    if !(data == [] || limit == Some(0) || WriterCapacity(o, st) == 0) && |data| > WriterCapacity(o, st) {
      CommitFillsTail(o, st, data[..WriterCapacity(o, st)]);
    }
  }

  lemma {:induction false} StepKeepsWake(s: Sys, a: Action)
    requires Inv(s) && Enabled(s, a) && WakeInv(s) && (Uncancelled(a) || OneBuffer(s.pipe.options))
    ensures WakeInv(Step(s, a))
  {
    hide Content, Readable, SnapshotOk, CallOk, ShouldPause, Fill, OneBuffer;
    match a
    case WriterRuns(limit) =>
      var data := s.writer.call.Rest();
      WriteKeeps(s.pipe, data, limit);
      var r := WriteWait(s.pipe, data, limit);
      if r.outcome.WriteStops? && limit.Some? {
        StopsBeforeCommit(s.pipe.options, s.pipe.store, data, limit);
      }
      if Copied(r.outcome) == 0 && !s.pipe.readerCompleted {
        ContentLength(s.pipe.options, s.pipe.store);
        ContentLength(s.pipe.options, r.pipe.store);
      }
    case StartAdvance(consumed, examined) => AdvanceKeeps(s.pipe, consumed, examined);
    case _ =>
  }

  /** No lost wake-up in any run whose writes are not cancelled (or whose pipeline has room for one buffer only),
      with any minimum sizes and positions. */
  lemma {:induction false} NoLostWakeups(s: Sys, actions: seq<Action>)
    requires Inv(s) && WakeInv(s) && Executes(s, actions)
    requires OneBuffer(s.pipe.options) || forall i :: 0 <= i < |actions| ==> Uncancelled(actions[i])
    ensures WakeInv(After(s, actions))
    decreases |actions|
  {
    hide Inv, WakeInv, Enabled, Step, OneBuffer;
    if actions != [] {
      StepKeeps(s, actions[0]);
      StepKeepsWake(s, actions[0]);
      StepKeepsOptions(s, actions[0]);
      NoLostWakeups(Step(s, actions[0]), actions[1..]);
    }
  }

  /** A cancelled write can leave the reader asleep over committed bytes. */
  lemma {:induction false} CancelledWriteLosesWakeup(o: Options, arena: bool) returns (actions: seq<Action>)
    requires OptionsOk(o) && !OneBuffer(o)
    ensures Executes(Initial(o, arena), actions) && !WakeInv(After(Initial(o, arena), actions))
    ensures var s := After(Initial(o, arena), actions);
            && s.reader.ReaderParked? && s.pipe.DataAvailable(s.reader.minSize) && s.committed != []
            && s.writer.WriterReturned? && s.writer.stopped && s.owedData == 0 && s.owedSpace == 0
  {
    hide Readable, Content, Executes, Fill;
    var init := Initial(o, arena);
    var input: seq<byte> := seq(o.bufferSize + 1, _ => 0);
    assert Executes(init, []) && After(init, []) == init by { RunNothing(init); }
    RunSnoc(init, [], StartRead(0, false));
    actions := [] + [StartRead(0, false)];
    RunSnoc(init, actions, StartWrite(input));
    actions := actions + [StartWrite(input)];
    var s := After(init, actions);
    assert s.writer.call.Rest() == input && s.pipe.store == EmptyStore(o, arena);
    FillOneThenStop(o, arena, input);
    RunSnoc(init, actions, WriterRuns(Some(1)));
    actions := actions + [WriterRuns(Some(1))];
  }

  lemma {:induction false} FillOneThenStop(o: Options, arena: bool, input: seq<byte>)
    requires OptionsOk(o) && !OneBuffer(o) && |input| == o.bufferSize + 1
    ensures Readable(o, EmptyStore(o, arena))
    ensures var r := Fill(o, EmptyStore(o, arena), false, input, Some(1));
            r.stopped && !r.paused && r.copied == o.bufferSize && r.store.buffered == o.bufferSize
  {
    EmptyStoreOk(o, arena);
    var st := EmptyStore(o, arena);
    hide AllocOk, Allocate, Flat;
    assert WriterCapacity(o, st) == o.bufferSize;
    var piece := input[..o.bufferSize];
    CommitKeeps(o, st, piece);
    var st' := Commit(o, st, piece);
    assert st'.actual == o.bufferSize && st'.buffered == o.bufferSize;
    assert !ShouldPause(o, st') && input[o.bufferSize..] != [];
  }

  lemma {:induction false} InitialHolds(o: Options, arena: bool)
    requires OptionsOk(o)
    ensures var init := Initial(o, arena);
            && WakeInv(init) && init.pipe.options == o
            && (o.bufferSize <= o.resumeThreshold ==> PauseInv(init))
  {
  }

  /** With cancellation allowed, the wake-up guarantee holds in every run exactly when at most one buffer fits. */
  lemma {:induction false} WakeupsWithCancellationIff(o: Options, arena: bool)
    requires OptionsOk(o)
    ensures (forall actions :: Executes(Initial(o, arena), actions) ==> WakeInv(After(Initial(o, arena), actions)))
        <==> OneBuffer(o)
  {
    InitialHolds(o, arena);
    hide Initial, Executes, After, WakeInv, Inv, OneBuffer;
    var init := Initial(o, arena);
    if OneBuffer(o) {
      forall actions | Executes(init, actions) ensures WakeInv(After(init, actions)) {
        NoLostWakeups(init, actions);
      }
    } else {
      var actions := CancelledWriteLosesWakeup(o, arena);
    }
  }

  // ----- backpressure -----

  /** The reader reads with no minimum and examines exactly what it consumes; writes are not cancelled. */
  predicate Plain(a: Action) {
    && Uncancelled(a)
    && (a.StartRead? ==> a.minSize == 0)
    && (a.StartAdvance? ==> a.consumed == a.examined)
  }

  ghost predicate PlainRun(actions: seq<Action>) {
    forall i :: 0 <= i < |actions| ==> Plain(actions[i])
  }

  predicate Deadlocked(s: Sys) {
    s.writer.WriterParked? && s.reader.ReaderParked? && s.owedData == 0 && s.owedSpace == 0
  }

  ghost predicate PauseInv(s: Sys) {
    && s.pipe.options.bufferSize <= s.pipe.options.resumeThreshold
    && s.pipe.examined == 0
    && (s.reader.ReaderParked? || s.reader.ReaderWoken? ==> s.reader.minSize == 0)
    && (!s.pipe.readerCompleted && s.pipe.writerPaused ==>
          s.pipe.store.actual + s.pipe.options.bufferSize > s.pipe.options.pauseThreshold)
  }

  lemma {:induction false} StepKeepsPause(s: Sys, a: Action)
    requires Inv(s) && Enabled(s, a) && PauseInv(s) && Plain(a)
    ensures PauseInv(Step(s, a))
  {
    hide Content, Readable, SnapshotOk, CallOk;
    match a
    case WriterRuns(limit) => WriteKeeps(s.pipe, s.writer.call.Rest(), limit);
    case StartAdvance(consumed, examined) => AdvanceKeeps(s.pipe, consumed, examined);
    case _ =>
  }

  lemma {:induction false} PausedHasBytes(s: Sys)
    requires Inv(s) && PauseInv(s) && s.pipe.writerPaused
    ensures s.pipe.store.buffered > 0
  {
    var st := s.pipe.store;
    assert st.segments != [];
    HeadAndRest(st.mem, st.segments);
    SegmentInMemory(s.pipe.options, st, 0);
  }

  lemma {:induction false} PlainRunKeeps(s: Sys, actions: seq<Action>)
    requires Inv(s) && WakeInv(s) && PauseInv(s) && Executes(s, actions) && PlainRun(actions)
    ensures WakeInv(After(s, actions)) && PauseInv(After(s, actions))
    decreases |actions|
  {
    hide Inv, WakeInv, PauseInv, Enabled, Step;
    if actions != [] {
      StepKeeps(s, actions[0]);
      StepKeepsWake(s, actions[0]);
      StepKeepsPause(s, actions[0]);
      PlainRunKeeps(Step(s, actions[0]), actions[1..]);
    }
  }

  /** In every plain run of a pipeline whose buffers fit under the resume threshold, a paused writer has buffered bytes
      in front of it. */
  lemma {:induction false} PausedMeansBuffered(o: Options, arena: bool, actions: seq<Action>)
    requires OptionsOk(o) && o.bufferSize <= o.resumeThreshold
    requires Executes(Initial(o, arena), actions) && PlainRun(actions)
    ensures var s := After(Initial(o, arena), actions);
            s.pipe.writerPaused ==> s.pipe.store.buffered > 0
  {
    InitialHolds(o, arena);
    hide Initial, Executes, After, WakeInv, PauseInv, Inv, PlainRun;
    PlainRunKeeps(Initial(o, arena), actions);
    if After(Initial(o, arena), actions).pipe.writerPaused {
      PausedHasBytes(After(Initial(o, arena), actions));
    }
  }

  /** No plain run of such a pipeline reaches a state with both sides asleep and no notification pending. */
  lemma {:induction false} NoDeadlockAfter(o: Options, arena: bool, actions: seq<Action>)
    requires OptionsOk(o) && o.bufferSize <= o.resumeThreshold
    requires Executes(Initial(o, arena), actions) && PlainRun(actions)
    ensures !Deadlocked(After(Initial(o, arena), actions))
  {
    InitialHolds(o, arena);
    PausedMeansBuffered(o, arena, actions);
    hide Initial, Executes, After, PlainRun;
    PlainRunKeeps(Initial(o, arena), actions);
  }

  lemma {:induction false} FlatBound(chunks: seq<seq<byte>>, b: nat)
    requires forall i :: 0 <= i < |chunks| ==> |chunks[i]| <= b
    ensures |Flat(chunks)| <= |chunks| * b
  {
    if chunks != [] {
      FlatBound(chunks[1..], b);
      assert |chunks| * b == |chunks[1..]| * b + b;
    }
  }

  /** Stored bytes never exceed the whole buffers that fit under the pause threshold. */
  lemma {:induction false} BufferedFits(o: Options, st: Store)
    requires Readable(o, st)
    ensures st.buffered <= |st.segments| * o.bufferSize <= MaxLive(o) * o.bufferSize
  {
    hide AllocOk, Flat;
    var chunks := Chunks(st.mem, st.segments);
    forall i | 0 <= i < |chunks| ensures |chunks[i]| <= o.bufferSize {
      SegmentInMemory(o, st, i);
    }
    FlatBound(chunks, o.bufferSize);
    CountFits(o, |st.segments|);
    MulLe(|st.segments|, MaxLive(o), o.bufferSize);
  }

  /** The writer sleeps on a pause that no advance will lift, and the reader is about to read. */
  ghost predicate WriterStuck(s: Sys) {
    && Inv(s) && s.pipe.options.bufferSize > s.pipe.options.resumeThreshold
    && s.writer.WriterParked? && s.pipe.writerPaused && s.owedData == 0 && s.owedSpace == 0
    && s.reader.ReaderIdle? && !s.pipe.AnyCompleted() && !s.pipe.hasPendingRead && s.pipe.examined == 0
  }

  lemma {:induction false} Extend(s: Sys, actions: seq<Action>, a: Action) returns (more: seq<Action>)
    requires Inv(s) && Executes(s, actions) && PlainRun(actions) && Enabled(After(s, actions), a) && Plain(a)
    ensures Executes(s, more) && PlainRun(more) && After(s, more) == Step(After(s, actions), a)
    ensures more == actions + [a]
  {
    RunSnoc(s, actions, a);
    more := actions + [a];
  }

  /** A write that is longer than the pipeline has room for is paused in the middle. */
  lemma {:induction false} PauseWriter(o: Options, arena: bool, input: seq<byte>) returns (actions: seq<Action>)
    requires OptionsOk(o) && |input| > MaxLive(o) * o.bufferSize
    ensures Executes(Initial(o, arena), actions) && PlainRun(actions)
    ensures forall i :: 0 <= i < |actions| ==> !actions[i].StartAdvance?
    ensures var s := After(Initial(o, arena), actions);
            && s.writer.WriterEnters? && s.writer.call.input == input && s.pipe.writerPaused
            && s.pipe.options == o && !s.pipe.AnyCompleted() && s.owedData == 0 && s.owedSpace == 0
            && s.reader.ReaderIdle? && !s.pipe.hasPendingRead && s.pipe.examined == 0
            && s.consumed == [] && s.committed == input[..s.writer.call.copied]
            && Readable(o, EmptyStore(o, arena)) && s.pipe.store == Fill(o, EmptyStore(o, arena), false, input, None).store
            && ShouldPause(o, s.pipe.store)
  {
    var init := Initial(o, arena);
    OverfullTenure(o, arena, input);
    RunNothing(init);
    hide Readable, Content, PlainRun, Executes, After, Fill, ShouldPause, MaxLive, EmptyStore, WriteWait;
    actions := Extend(init, [], StartWrite(input));
    assert After(init, actions).writer.call.Rest() == input;
    actions := Extend(init, actions, WriterRuns(None));
    actions := Extend(init, actions, WriterNotifiesReader);
  }

  lemma {:induction false} OverfullTenure(o: Options, arena: bool, input: seq<byte>)
    requires OptionsOk(o) && |input| > MaxLive(o) * o.bufferSize
    ensures Readable(o, EmptyStore(o, arena))
    ensures var p := Initial(o, arena).pipe;
            var st := Fill(o, EmptyStore(o, arena), false, input, None).store;
            var w := WriteWait(p, input, None);
            && w.pipe == p.(store := st, writerPaused := true) && ShouldPause(o, st)
            && w.outcome.WriteReleases? && !w.outcome.notify && w.outcome.copied < |input|
  {
    EmptyStoreOk(o, arena);
    hide Readable, Content, Fill, ShouldPause, MaxLive, EmptyStore, ReaderInv, WriterInv;
    var p := Initial(o, arena).pipe;
    WriteKeeps(p, input, None);
    var w := WriteWait(p, input, None);
    BufferedFits(o, w.pipe.store);
    ContentLength(o, w.pipe.store);
  }

  /** It gets stuck when the buffer size exceeds the resume threshold. */
  lemma {:induction false} StickWriter(o: Options, arena: bool) returns (actions: seq<Action>)
    requires OptionsOk(o) && o.bufferSize > o.resumeThreshold
    ensures Executes(Initial(o, arena), actions) && PlainRun(actions) && WriterStuck(After(Initial(o, arena), actions))
  {
    hide Readable, Content, PlainRun, Executes, Fill;
    actions := PauseWriter(o, arena, seq(MaxLive(o) * o.bufferSize + 1, _ => 0));
    actions := Extend(Initial(o, arena), actions, WriterRuns(None));
  }

  lemma {:induction false} RunNothing(s: Sys)
    requires Inv(s)
    ensures Executes(s, []) && After(s, []) == s && PlainRun([])
  {
  }

  /** The call of the writer is neither finished nor able to finish without another tenure. */
  predicate Unfinished(w: Writer) {
    || w.WriterEnters? || w.WriterParked? || w.WriterWoken?
    || (w.WriterNotifies? && w.call.copied < |w.call.input|)
  }

  /** The writer is paused in the middle of a call and the reader has examined everything there is. */
  ghost predicate BothStuck(s: Sys) {
    && Inv(s) && !s.pipe.AnyCompleted() && s.pipe.writerPaused && Unfinished(s.writer)
    && s.pipe.store.buffered == s.pipe.examined && !s.pipe.hasPendingRead && !s.reader.ReaderHolds?
  }

  /** A deadlock reached without a lost wake-up is of that kind. */
  lemma {:induction false} DeadlockIsStuck(s: Sys)
    requires Inv(s) && WakeInv(s) && Deadlocked(s) && s.reader.minSize == 0
    ensures BothStuck(s)
  {
  }

  predicate Completes(a: Action) { a.WriterCompletes? || a.ReaderCompletes? }

  lemma {:induction false} StepKeepsStuck(s: Sys, a: Action)
    requires BothStuck(s) && Enabled(s, a) && !Completes(a)
    ensures BothStuck(Step(s, a)) && Step(s, a).committed == s.committed && Step(s, a).consumed == s.consumed
  {
    hide Content, Readable, SnapshotOk, CallOk, Fill, Consume;
    StepKeeps(s, a);
    if a.WriterRuns? {
      WriteKeeps(s.pipe, s.writer.call.Rest(), a.limit);
    }
  }

  /** Once both sides are stuck, no spurious wake-up, read, advance or stop request helps: every run without a completion
      leaves them stuck, with nothing written and nothing consumed. */
  lemma {:induction false} StuckForGood(s: Sys, actions: seq<Action>)
    requires BothStuck(s) && Executes(s, actions) && forall i :: 0 <= i < |actions| ==> !Completes(actions[i])
    ensures var s' := After(s, actions);
            BothStuck(s') && s'.committed == s.committed && s'.consumed == s.consumed
    decreases |actions|
  {
    hide Step, Enabled, RepInv, WriterInv, ReaderInv;
    if actions != [] {
      StepKeeps(s, actions[0]);
      StepKeepsStuck(s, actions[0]);
      StuckForGood(Step(s, actions[0]), actions[1..]);
    }
  }

  /** From there the reader drains the pipeline and falls asleep too. */
  lemma {:induction false} DrainAndSleep(init: Sys, before: seq<Action>) returns (actions: seq<Action>)
    requires Inv(init) && Executes(init, before) && PlainRun(before) && WriterStuck(After(init, before))
    ensures Executes(init, actions) && PlainRun(actions)
    ensures Deadlocked(After(init, actions)) && BothStuck(After(init, actions))
  {
    hide Readable, Content, PlainRun, Executes;
    actions := before;
    var n := After(init, before).pipe.store.buffered;
    if n > 0 {
      var s := After(init, before);
      SnapshotIsContent(s.pipe);
      actions := Extend(init, actions, StartRead(0, false));
      var s1 := After(init, actions);
      AdvanceKeeps(s1.pipe, n, n);
      ContentLength(s1.pipe.options, s1.pipe.store);
      actions := Extend(init, actions, StartAdvance(n, n));
      var s2 := After(init, actions);
      ContentLength(s2.pipe.options, s2.pipe.store);
      actions := Extend(init, actions, ReaderNotifiesWriter);
    }
    actions := Extend(init, actions, StartRead(0, false));
  }

  /** Backpressure is deadlock free in every plain run exactly when one buffer fits under the resume threshold. */
  lemma {:induction false} DeadlockFreeIff(o: Options, arena: bool)
    requires OptionsOk(o)
    ensures (forall actions :: Executes(Initial(o, arena), actions) && PlainRun(actions) ==>
               !Deadlocked(After(Initial(o, arena), actions)))
        <==> o.bufferSize <= o.resumeThreshold
  {
    InitialHolds(o, arena);
    hide Initial, Executes, After, WakeInv, PauseInv, Inv, Deadlocked, PlainRun, WriterStuck;
    var init := Initial(o, arena);
    if o.bufferSize <= o.resumeThreshold {
      forall actions | Executes(init, actions) && PlainRun(actions) ensures !Deadlocked(After(init, actions)) {
        NoDeadlockAfter(o, arena, actions);
      }
    } else {
      var stuck := StickWriter(o, arena);
      var actions := DrainAndSleep(init, stuck);
    }
  }
}
