/** What a call on the pipeline answers, said without its code: how much a write tenure copies, when it stops, and what
    completion does to both sides. */
module PipelineOutcomes {
  import opened Bytes
  import opened PipelineStore
  import opened Pipeline
  import opened PipelineRuns
  import opened PipelineTheorems

  // ----- how much a tenure of write copies -----

  /** The free bytes of the tail and of the whole buffers that still fit under the pause threshold. */
  function Room(o: Options, st: Store): nat
    requires OptionsOk(o)
  {
    (if HasWritableTail(st) then st.segments[|st.segments| - 1].writable.size else 0)
    + AllocationCapacity(o, st) / o.bufferSize * o.bufferSize
  }

  /** What `k` rounds of the inner loop can copy: the rest of the tail or a buffer, then whole buffers. */
  function Reach(o: Options, st: Store, k: nat): nat {
    if k == 0 then 0 else WriterCapacity(o, st) + (k - 1) * o.bufferSize
  }

  lemma {:induction false} QuotientIs(x: nat, b: nat, q: nat)
    requires b > 0 && q * b <= x < q * b + b
    ensures x / b == q
  {
    var p := x / b;
    assert p * b <= x < p * b + b;
    assert (p + 1) * b == p * b + b && (q + 1) * b == q * b + b;
    if p < q {
      MulLe(p + 1, q, b);
    } else if q < p {
      MulLe(q + 1, p, b);
    }
  }

  lemma {:induction false} WholeBuffers(x: nat, b: nat)
    requires b > 0
    ensures if x < b then x / b * b == 0 else x / b * b >= b && (x - b) / b * b == x / b * b - b
  {
    if x < b {
      QuotientIs(x, b, 0);
    } else {
      var q := (x - b) / b;
      assert q * b <= x - b < q * b + b && (q + 1) * b == q * b + b;
      QuotientIs(x, b, q + 1);
    }
  }

  /** There is no room exactly when the writer should pause, and the next round never overruns the room. */
  lemma {:induction false} RoomIsCapacity(o: Options, st: Store)
    requires OptionsOk(o)
    ensures Room(o, st) == 0 <==> ShouldPause(o, st)
    ensures WriterCapacity(o, st) <= Room(o, st)
    ensures WriterCapacity(o, st) == 0 <==> Room(o, st) == 0
  {
    WholeBuffers(AllocationCapacity(o, st), o.bufferSize);
  }

  /** A new segment turns a buffer's worth of allocation into room in the tail. */
  lemma {:induction false} GetSegmentKeepsRoom(o: Options, st: Store)
    requires OptionsOk(o) && WriterCapacity(o, st) > 0
    ensures var st' := GetSegment(o, st);
            && Room(o, st') == Room(o, st) && HasWritableTail(st')
            && st'.segments[|st'.segments| - 1].writable.size == WriterCapacity(o, st)
  {
    hide Allocate;
    WholeBuffers(AllocationCapacity(o, st), o.bufferSize);
  }

  lemma {:induction false} CopyUsesRoom(o: Options, st: Store, data: seq<byte>)
    requires OptionsOk(o) && HasWritableTail(st) && |data| <= st.segments[|st.segments| - 1].writable.size
    requires InMemory(st.mem, st.segments[|st.segments| - 1].writable)
    ensures Room(o, CopyToTail(o, st, data)) == Room(o, st) - |data|
    ensures HasWritableTail(CopyToTail(o, st, data)) <==> |data| < st.segments[|st.segments| - 1].writable.size
  {
    hide MemCopy;
  }

  /** A round uses up as much room as it copies. */
  lemma {:induction false} CommitUsesRoom(o: Options, st: Store, piece: seq<byte>)
    requires Readable(o, st) && 0 < |piece| <= WriterCapacity(o, st)
    ensures OptionsOk(o) && Room(o, Commit(o, st, piece)) == Room(o, st) - |piece|
    ensures |piece| == WriterCapacity(o, st) ==> !HasWritableTail(Commit(o, st, piece))
  {
    ReadableOptions(o, st);
    hide Readable, GetSegment, CopyToTail, Room, WriterCapacity, HasWritableTail;
    GetSegmentKeeps(o, st);
    GetSegmentKeepsRoom(o, st);
    CopyToTailKeeps(o, GetSegment(o, st), piece);
    CopyUsesRoom(o, GetSegment(o, st), piece);
  }

  function Least(a: nat, b: nat, c: Option<nat>): nat {
    if c.Some? && c.value < Min(a, b) then c.value else Min(a, b)
  }

  /** How far a stop lets the inner loop get. */
  function StopReach(o: Options, st: Store, limit: Option<nat>): Option<nat> {
    if limit.Some? then Some(Reach(o, st, limit.value)) else None
  }

  lemma {:induction false} ReachShrinks(o: Options, st: Store, st': Store, limit: Option<nat>)
    requires limit != Some(0) && !HasWritableTail(st') && WriterCapacity(o, st') > 0
    ensures var before, after := StopReach(o, st, limit), StopReach(o, st', FewerRounds(limit));
            && (before.Some? <==> after.Some?)
            && (before.Some? ==> before.value == after.value + WriterCapacity(o, st))
            && (after == Some(0) <==> FewerRounds(limit) == Some(0))
  {
    if limit.Some? && limit.value > 1 {
      assert (limit.value - 1) * o.bufferSize == (limit.value - 2) * o.bufferSize + o.bufferSize;
    }
  }

  /** The inner loop copies all the data, or what there is room for, or what the rounds before a visible stop can take,
      whichever is least; it is stopped exactly in the last case, and it ends paused exactly when no room is left. */
  predicate FillIs(size: nat, room: nat, reach: Option<nat>, stopped: bool, r: FillResult, left: nat) {
    && r.copied == Least(size, room, reach)
    && (r.stopped <==> stopped || (reach.Some? && reach.value < Min(size, room)))
    && (r.paused <==> !stopped && left == 0)
    && left == room - r.copied
  }

  ghost predicate Exact(o: Options, st: Store, data: seq<byte>, limit: Option<nat>) {
    && Readable(o, st) && OptionsOk(o)
    && var r := Fill(o, st, false, data, limit);
       FillIs(|data|, Room(o, st), StopReach(o, st, limit), limit == Some(0), r, Room(o, r.store))
  }

  lemma {:induction false} FillExact(o: Options, st: Store, data: seq<byte>, limit: Option<nat>)
    requires Readable(o, st) && data != []
    ensures Exact(o, st, data, limit)
    decreases |data|
  {
    hide Readable, Fill, Commit, Exact, WriterCapacity, ShouldPause, FewerRounds;
    if limit == Some(0) || WriterCapacity(o, st) == 0 {
      ExactAtOnce(o, st, data, limit);
    } else {
      var n := Min(|data|, WriterCapacity(o, st));
      CommitKeeps(o, st, data[..n]);
      var st' := Commit(o, st, data[..n]);
      if n < |data| && !ShouldPause(o, st') {
        FillExact(o, st', data[n..], FewerRounds(limit));
        ExactRound(o, st, data, limit);
      } else {
        ExactLast(o, st, data, limit);
      }
    }
  }

  lemma {:induction false} ExactAtOnce(o: Options, st: Store, data: seq<byte>, limit: Option<nat>)
    requires Readable(o, st) && data != [] && (limit == Some(0) || WriterCapacity(o, st) == 0)
    ensures Exact(o, st, data, limit)
  {
    ReadableOptions(o, st);
    hide Readable, Fill, Room, WriterCapacity, ShouldPause;
    RoomIsCapacity(o, st);
    FillEndsAtOnce(o, st, data, limit);
  }

  lemma {:induction false} ExactRound(o: Options, st: Store, data: seq<byte>, limit: Option<nat>)
    requires Readable(o, st) && limit != Some(0) && 0 < WriterCapacity(o, st) < |data|
    requires var n := WriterCapacity(o, st);
             !ShouldPause(o, Commit(o, st, data[..n])) && Exact(o, Commit(o, st, data[..n]), data[n..], FewerRounds(limit))
    ensures Exact(o, st, data, limit)
  {
    FillRound(o, st, data, limit);
    hide Readable, Fill, Commit, Room, StopReach, FewerRounds, WriterCapacity, HasWritableTail, ShouldPause, FillIs;
    var n := WriterCapacity(o, st);
    var st' := Commit(o, st, data[..n]);
    CommitUsesRoom(o, st, data[..n]);
    RoomIsCapacity(o, st);
    RoomIsCapacity(o, st');
    ReachShrinks(o, st, st', limit);
    var rest := Fill(o, st', false, data[n..], FewerRounds(limit));
    FillIsMore(|data|, n, Room(o, st), StopReach(o, st, limit), StopReach(o, st', FewerRounds(limit)), rest, Room(o, rest.store));
  }

  lemma {:induction false} ExactLast(o: Options, st: Store, data: seq<byte>, limit: Option<nat>)
    requires Readable(o, st) && data != [] && limit != Some(0) && WriterCapacity(o, st) > 0
    requires var n := Min(|data|, WriterCapacity(o, st));
             n == |data| || ShouldPause(o, Commit(o, st, data[..n]))
    ensures Exact(o, st, data, limit)
  {
    FillRound(o, st, data, limit);
    ReadableOptions(o, st);
    hide Readable, Fill, Commit, Room, StopReach, WriterCapacity, HasWritableTail, ShouldPause;
    var n := Min(|data|, WriterCapacity(o, st));
    CommitUsesRoom(o, st, data[..n]);
    RoomIsCapacity(o, st);
    RoomIsCapacity(o, Commit(o, st, data[..n]));
    ReachCovers(o, st, limit);
  }

  lemma {:induction false} FillIsMore(
    size: nat, n: nat, room: nat, reach: Option<nat>, reach': Option<nat>, rest: FillResult, left: nat)
    requires n < size && n < room && FillIs(size - n, room - n, reach', reach' == Some(0), rest, left)
    requires (reach.Some? <==> reach'.Some?) && (reach.Some? ==> reach.value == reach'.value + n)
    ensures FillIs(size, room, reach, false, rest.(copied := n + rest.copied), left)
  {
  }

  lemma {:induction false} FillEndsAtOnce(o: Options, st: Store, data: seq<byte>, limit: Option<nat>)
    requires Readable(o, st) && data != [] && (limit == Some(0) || WriterCapacity(o, st) == 0)
    ensures Fill(o, st, false, data, limit) == FillResult(st, limit != Some(0), 0, limit == Some(0))
  {
    hide Readable;
  }

  /** One round and the rest of the loop. */
  lemma {:induction false} FillRound(o: Options, st: Store, data: seq<byte>, limit: Option<nat>)
    requires Readable(o, st) && data != [] && limit != Some(0) && WriterCapacity(o, st) > 0
    ensures var n := Min(|data|, WriterCapacity(o, st));
            var st' := Commit(o, st, data[..n]);
            && Readable(o, st')
            && var rest := Fill(o, st', ShouldPause(o, st'), data[n..], FewerRounds(limit));
               && Fill(o, st, false, data, limit) == rest.(copied := n + rest.copied)
               && (n == |data| || ShouldPause(o, st') ==> rest == FillResult(st', ShouldPause(o, st'), 0, false))
  {
    hide Readable, Commit, WriterCapacity, ShouldPause;
    CommitKeeps(o, st, data[..Min(|data|, WriterCapacity(o, st))]);
  }

  lemma {:induction false} ReachCovers(o: Options, st: Store, limit: Option<nat>)
    requires limit != Some(0)
    ensures StopReach(o, st, limit).Some? ==> StopReach(o, st, limit).value >= WriterCapacity(o, st)
  {
    if limit.Some? {
      MulLe(0, limit.value - 1, o.bufferSize);
    }
  }

  /** The answer of a write tenure, on entry or when woken. It throws exactly on a completed pipeline; paused, it goes back
      to sleep or, stopped, round the outer loop; otherwise it copies all that the data, the room and the stop allow. */
  lemma {:induction false} WriteOutcomeIs(p: Pipe, entering: bool, data: seq<byte>, limit: Option<nat>)
    requires RepInv(p) && data != []
    ensures var r := if entering then WriteEnter(p, data, limit) else WriteWait(p, data, limit);
            if p.AnyCompleted() then r == WriteStep(p, WriteThrows)
            else if p.writerPaused then r == WriteStep(p, if limit == Some(0) then WriteReleases(0, false) else WriteParks)
            else
              var room, reach := Room(p.options, p.store), StopReach(p.options, p.store, limit);
              var n := Least(|data|, room, reach);
              && r.pipe == p.(store := r.pipe.store, writerPaused := r.pipe.writerPaused)
              && Content(r.pipe.store) == Content(p.store) + data[..n]
              && (r.pipe.writerPaused <==> limit != Some(0) && room == n)
              && r.outcome == if limit == Some(0) || (reach.Some? && reach.value < Min(|data|, room)) then WriteStops(n)
                              else WriteReleases(n, p.readerWaiting && n > 0)
  {
    hide Fill, Readable, Content, ShouldPause, Room, StopReach;
    WriteKeeps(p, data, limit);
    if !p.AnyCompleted() && !p.writerPaused {
      FillExact(p.options, p.store, data, limit);
    }
  }

  // ----- over every run -----

  lemma {:induction false} StepThrowsIff(s: Sys, a: Action)
    requires Inv(s) && Enabled(s, a) && (s.writer.WriterThrew? ==> s.pipe.AnyCompleted())
    ensures Step(s, a).writer.WriterThrew? ==> Step(s, a).pipe.AnyCompleted()
  {
    hide Content, Readable, ReaderInv, CallOk, WriteWait, ShouldPause, Consume;
    if a.WriterRuns? {
      WriteKeeps(s.pipe, s.writer.call.Rest(), a.limit);
    }
  }

  lemma {:induction false} RunThrows(s: Sys, actions: seq<Action>)
    requires Inv(s) && Executes(s, actions) && (s.writer.WriterThrew? ==> s.pipe.AnyCompleted())
    ensures After(s, actions).writer.WriterThrew? ==> After(s, actions).pipe.AnyCompleted()
    decreases |actions|
  {
    hide Inv, Step, Enabled;
    if actions != [] {
      StepKeeps(s, actions[0]);
      StepThrowsIff(s, actions[0]);
      RunThrows(Step(s, actions[0]), actions[1..]);
    }
  }

  /** In every run a write has thrown only if a side completed. */
  lemma {:induction false} WriteThrowsOnlyWhenCompleted(o: Options, arena: bool, actions: seq<Action>)
    requires OptionsOk(o) && Executes(Initial(o, arena), actions)
    ensures var s := After(Initial(o, arena), actions);
            s.writer.WriterThrew? ==> s.pipe.writerCompleted || s.pipe.readerCompleted
  {
    hide Executes, After, Inv;
    RunThrows(Initial(o, arena), actions);
  }

  lemma {:induction false} RunWithoutStops(s: Sys, actions: seq<Action>)
    requires Inv(s) && Executes(s, actions) && forall i :: 0 <= i < |actions| ==> Uncancelled(actions[i])
    requires s.writer.WriterReturned? ==> !s.writer.stopped
    ensures After(s, actions).writer.WriterReturned? ==> !After(s, actions).writer.stopped
    decreases |actions|
  {
    hide Content, RepInv, ReaderInv, CallOk, WriteWait, ShouldPause, Consume;
    if actions != [] {
      StepKeeps(s, actions[0]);
      if actions[0].WriterRuns? {
        WriteKeeps(s.pipe, s.writer.call.Rest(), None);
      }
      RunWithoutStops(Step(s, actions[0]), actions[1..]);
    }
  }

  /** An uncancelled write that returns has appended its whole input, however often it was paused. */
  lemma {:induction false} UncancelledWriteIsWhole(s: Sys, input: seq<byte>, actions: seq<Action>)
    requires Inv(s) && s.writer.WriterIdle? && Executes(s, [StartWrite(input)] + actions)
    requires forall i :: 0 <= i < |actions| ==> !actions[i].StartWrite? && Uncancelled(actions[i])
    requires After(s, [StartWrite(input)] + actions).writer.WriterReturned?
    ensures After(s, [StartWrite(input)] + actions).committed == s.committed + input
  {
    hide Executes, After, Inv, Step;
    WriteGuarantee(s, input, actions);
    RunWithoutStops(s, [StartWrite(input)] + actions);
    assert input[..|input|] == input;
  }

  /** While a side sleeps on a completed pipeline, a `notify_all` for it is on the way. */
  ghost predicate Released(s: Sys) {
    && (s.pipe.writerCompleted && s.reader.ReaderParked? ==> s.owedData > 0)
    && (s.pipe.AnyCompleted() && s.writer.WriterParked? ==> s.owedSpace > 0)
  }

  lemma {:induction false} StepKeepsReleased(s: Sys, a: Action)
    requires Inv(s) && Enabled(s, a) && Released(s)
    ensures Released(Step(s, a))
  {
    hide Content, Readable, ReaderInv, CallOk, WriteWait, ShouldPause, Advance;
    match a
    case WriterRuns(limit) => WriteKeeps(s.pipe, s.writer.call.Rest(), limit);
    case StartAdvance(consumed, examined) => AdvanceKeeps(s.pipe, consumed, examined);
    case _ =>
  }

  lemma {:induction false} RunKeepsReleased(s: Sys, actions: seq<Action>)
    requires Inv(s) && Executes(s, actions) && Released(s)
    ensures Released(After(s, actions))
    decreases |actions|
  {
    hide Inv, Step, Enabled, Released;
    if actions != [] {
      StepKeeps(s, actions[0]);
      StepKeepsReleased(s, actions[0]);
      RunKeepsReleased(Step(s, actions[0]), actions[1..]);
    }
  }

  /** Completion wakes the sleepers it is meant for, in every run, cancelled or not: once its notifications are issued, no
      reader sleeps on a completed writer and no writer sleeps on a completed pipeline. */
  lemma {:induction false} CompletionWakesBothSides(o: Options, arena: bool, actions: seq<Action>)
    requires OptionsOk(o) && Executes(Initial(o, arena), actions)
    ensures var s := After(Initial(o, arena), actions);
            && (s.pipe.writerCompleted && s.owedData == 0 ==> !s.reader.ReaderParked?)
            && ((s.pipe.writerCompleted || s.pipe.readerCompleted) && s.owedSpace == 0 ==> !s.writer.WriterParked?)
  {
    hide Executes, After, Inv;
    RunKeepsReleased(Initial(o, arena), actions);
  }

  // ----- what a read leaves with the reader -----

  /** In a run a read that is not refused parks, is cancelled, or leaves the reader with all the stored bytes, marked
      completed exactly when the writer is. */
  lemma {:induction false} ReadStepIs(s: Sys, a: Action)
    requires Inv(s) && Enabled(s, a) && !s.pipe.readerCompleted
    requires a.ReaderRuns? || (a.StartRead? && !s.pipe.hasPendingRead)
    ensures var reader, minSize := Step(s, a).reader, if a.StartRead? then a.minSize else s.reader.minSize;
            if a.stop then reader == ReaderIdle
            else if !s.pipe.DataAvailable(minSize) then reader == ReaderParked(minSize)
            else
              && reader.ReaderHolds? && Flat(reader.snapshot.pieces) == Content(s.pipe.store)
              && reader.snapshot.base == |s.consumed| && (reader.snapshot.completed <==> s.pipe.writerCompleted)
  {
    hide Content, Readable, WriterInv, SnapshotOk, Flat, ReadFinish, RepInv;
    if a.StartRead? {
      ReadGuarantee(s.pipe, true, a.minSize, a.stop);
    } else {
      ReadGuarantee(s.pipe, false, s.reader.minSize, a.stop);
    }
  }
}
