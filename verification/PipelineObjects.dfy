/** The pipeline and its memory as objects that change in place: each method is proved to take the step that the
    specification functions describe. */
module PipelineObjects {
  import opened Bytes
  import opened PipelineStore
  import opened Pipeline
  import opened PipelineRuns

  ghost function Contents(blocks: seq<array<byte>>): (mem: Memory)
    reads blocks
    ensures |mem| == |blocks|
    ensures forall i :: 0 <= i < |blocks| ==> mem[i] == blocks[i][..]
  {
    if blocks == [] then [] else [blocks[0][..]] + Contents(blocks[1..])
  }

  /** A memory resource (either pool) with the blocks it took from `::operator new`. */
  class PoolMemory {
    const options: Options
    var blocks: seq<array<byte>>
    var alloc: Allocator

    ghost predicate Valid()
      reads this
    {
      OptionsOk(options) && forall i, j :: 0 <= i < j < |blocks| ==> blocks[i] != blocks[j]
    }

    ghost function Mem(): Memory
      reads this, blocks
    {
      Contents(blocks)
    }

    constructor (options: Options, arena: bool)
      requires OptionsOk(options)
      ensures Valid() && this.options == options && fresh(blocks)
      ensures Mem() == EmptyStore(options, arena).mem && alloc == EmptyStore(options, arena).alloc
    {
      this.options := options;
      if arena {
        var storage := new byte[options.bufferSize * MaxPooled(options)](_ => 0);
        blocks := [storage];
        alloc := ArenaPool(0, 0, 0);
      } else {
        blocks := [];
        alloc := FixedPool([]);
      }
      new;
      assert arena ==> blocks[0][..] == seq(options.bufferSize * MaxPooled(options), _ => 0);
    }

    /** `do_allocate`. */
    method AllocateBuffer() returns (buffer: Pointer)
      requires Valid()
      modifies this
      ensures Valid() && old(blocks) <= blocks && forall i :: |old(blocks)| <= i < |blocks| ==> fresh(blocks[i])
      ensures Allocation(Mem(), alloc, buffer) == old(Allocate(options, Mem(), alloc))
    {
      match alloc
      case FixedPool(available) =>
        if available == [] {
          var block := new byte[options.bufferSize](_ => 0);
          buffer := Pointer(|blocks|, 0);
          blocks := blocks + [block];
          assert block[..] == seq(options.bufferSize, _ => 0);
          assert Mem() == old(Mem()) + [block[..]];
        } else {
          buffer := available[|available| - 1];
          alloc := FixedPool(available[..|available| - 1]);
        }
      case ArenaPool(head, tail, active) =>
        buffer := Pointer(0, head);
        alloc := ArenaPool(RingNext(options, head), tail, active + 1);
    }

    /** `do_deallocate`. */
    method DeallocateBuffer(buffer: Pointer)
      requires Valid() && (alloc.ArenaPool? ==> alloc.active > 0)
      modifies this`alloc
      ensures Valid() && alloc == old(Deallocate(options, alloc, buffer))
    {
      match alloc
      case FixedPool(available) =>
        if |available| < MaxPooled(options) {
          alloc := FixedPool(available + [buffer]);
        }
      case ArenaPool(head, tail, active) =>
        alloc := ArenaPool(head, RingNext(options, tail), active - 1);
    }

    /** The `memcpy` of `copy_from`, in place. */
    method CopyIn(block: nat, offset: nat, data: seq<byte>)
      requires Valid() && InMemory(Mem(), Span(block, offset, |data|))
      modifies blocks[block]
      ensures Valid() && Mem() == old(MemCopy(Mem(), block, offset, data))
    {
      CopyInto(blocks[block], offset, data);
      assert forall i :: 0 <= i < |blocks| && i != block ==> blocks[i][..] == old(blocks[i][..]);
    }
  }

  class PipelineObject {
    const options: Options
    const memory: PoolMemory
    var segments: seq<Segment>
    var buffered: nat
    var actual: nat
    var examined: nat
    var pendingSize: nat
    var readerWaiting: bool
    var hasPendingRead: bool
    var writerCompleted: bool
    var readerCompleted: bool
    var writerPaused: bool

    ghost function Stored(): Store
      reads `segments, `buffered, `actual, memory, memory.blocks
    {
      Store(memory.Mem(), memory.alloc, segments, buffered, actual)
    }

    ghost function State(): Pipe
      reads this, memory, memory.blocks
    {
      Pipe(options, Stored(), examined, pendingSize, readerWaiting, hasPendingRead,
           writerCompleted, readerCompleted, writerPaused)
    }

    ghost predicate Linked()
      reads memory
    {
      memory.Valid() && memory.options == options
    }

    ghost predicate Valid()
      reads this, memory, memory.blocks
    {
      Linked() && RepInv(State())
    }

    constructor (options: Options, arena: bool)
      requires OptionsOk(options)
      ensures Valid() && State() == Initial(options, arena).pipe && fresh(memory) && fresh(memory.blocks)
    {
      this.options := options;
      memory := new PoolMemory(options, arena);
      segments, buffered, actual, examined, pendingSize := [], 0, 0, 0, 0;
      readerWaiting, hasPendingRead, writerCompleted, readerCompleted, writerPaused := false, false, false, false, false;
      new;
      assert State() == Initial(options, arena).pipe;
    }

    /** `get_segment`. */
    method ProvideSegment()
      requires Linked()
      modifies this`segments, this`actual, memory
      ensures Linked() && NoStrayBlocks()
      ensures Stored() == old(GetSegment(options, Stored()))
    {
      hide Allocate, Contents;
      if segments == [] || segments[|segments| - 1].Full() {
        ghost var st := Stored();
        var buffer := memory.AllocateBuffer();
        assert Allocation(memory.Mem(), memory.alloc, buffer) == Allocate(options, st.mem, st.alloc);
        assert NoStrayBlocks();
        segments := segments + [NewSegment(buffer, options.bufferSize)];
        actual := actual + options.bufferSize;
      }
    }

    /** `copy_from` on the tail: memory and both spans move together. */
    method CopyFrom(data: seq<byte>)
      requires Linked() && HasWritableTail(Stored()) && |data| <= segments[|segments| - 1].writable.size
      requires InMemory(memory.Mem(), segments[|segments| - 1].writable)
      modifies this`segments, this`buffered, memory.blocks[segments[|segments| - 1].writable.block]
      ensures Linked() && Stored() == old(CopyToTail(options, Stored(), data))
    {
      var last := |segments| - 1;
      var tail := segments[last];
      memory.CopyIn(tail.writable.block, tail.writable.offset, data);
      segments := segments[last := Grow(tail, |data|)];
      buffered := buffered + |data|;
    }

    /** The inner loop of `write`. */
    method FillSegments(data: seq<byte>, limit: Option<nat>) returns (copied: nat, stopped: bool)
      requires Linked() && Readable(options, Stored()) && !writerPaused
      modifies this`segments, this`actual, this`buffered, this`writerPaused, memory, memory.blocks
      ensures Linked() && NoStrayBlocks()
      ensures FillResult(Stored(), writerPaused, copied, stopped) == old(Fill(options, Stored(), false, data, limit))
    {
      hide Fill, Stored, Readable, Commit, WriterCapacity, ShouldPause, FillFrom, FewerRounds;
      FillStarts(options, Stored(), data, limit);
      ghost var target := FillFrom(options, Stored(), false, data, 0, limit);
      var rounds := limit;
      copied := 0;
      while copied < |data| && !writerPaused
        invariant copied <= |data| && Linked() && NoStrayBlocks() && Readable(options, Stored())
        invariant FillFrom(options, Stored(), writerPaused, data, copied, rounds) == target
        decreases |data| - copied, !writerPaused
      {
        FillUnfolds(options, Stored(), data, copied, rounds);
        if rounds == Some(0) {
          return copied, true;
        }
        var capacity := WriterCapacityNow();
        if capacity == 0 {
          writerPaused := true;
          return copied, false;
        }
        var count := Min(|data| - copied, capacity);
        CommitPiece(data[copied..copied + count]);
        ghost var st := Stored();
        copied := copied + count;
        writerPaused := ShouldPauseNow();
        rounds := FewerRounds(rounds);
        assert Stored() == st;
      }
      FillEnds(options, Stored(), writerPaused, data, copied, rounds);
      return copied, false;
    }

    /** Every block is one of the old ones or newly allocated. */
    twostate predicate NoStrayBlocks()
      reads memory
    {
      forall i :: 0 <= i < |memory.blocks| ==> memory.blocks[i] in old(memory.blocks) || fresh(memory.blocks[i])
    }

    /** One round of that loop. */
    method CommitPiece(piece: seq<byte>)
      requires Linked() && Readable(options, Stored()) && 0 < |piece| <= WriterCapacity(options, Stored())
      modifies this`segments, this`actual, this`buffered, memory, memory.blocks
      ensures Linked() && NoStrayBlocks()
      ensures Stored() == old(Commit(options, Stored(), piece)) && Readable(options, Stored())
    {
      hide Readable, Commit, CopyToTail, GetSegment, WriterCapacity;
      ghost var st := Stored();
      CommitParts(options, st, piece);
      ProvideSegment();
      assert Stored() == GetSegment(options, st);
      CopyFrom(piece);
    }

    method WriterCapacityNow() returns (n: nat)
      requires Linked()
      ensures n == WriterCapacity(options, Stored())
    {
      if segments != [] && !segments[|segments| - 1].Full() {
        return segments[|segments| - 1].writable.size;
      }
      var room := if actual < options.pauseThreshold then options.pauseThreshold - actual else 0;
      return if room >= options.bufferSize then options.bufferSize else 0;
    }

    method ShouldPauseNow() returns (b: bool)
      requires Linked()
      ensures b == ShouldPause(options, Stored())
    {
      var room := if actual < options.pauseThreshold then options.pauseThreshold - actual else 0;
      return (segments == [] || segments[|segments| - 1].Full()) && room < options.bufferSize;
    }

    /** A lock tenure of `write`; `entering` is false when the call wakes up inside its wait. */
    method WriteTenure(data: seq<byte>, entering: bool, limit: Option<nat>) returns (outcome: WriteOutcome)
      requires Valid() && data != []
      modifies this, memory, memory.blocks
      ensures Valid() && NoStrayBlocks()
      ensures WriteStep(State(), outcome)
           == old(if entering then WriteEnter(State(), data, limit) else WriteWait(State(), data, limit))
      ensures outcome.WriteThrows? <==> old(writerCompleted || readerCompleted)
      ensures outcome.WriteParks? <==> old(writerPaused) && limit != Some(0)
    {
      hide Fill, Readable, Content, ShouldPause;
      WriteKeeps(State(), data, limit);
      if entering && (writerCompleted || readerCompleted) {
        return WriteThrows;
      }
      if writerPaused {
        if limit == Some(0) {
          return WriteReleases(0, false);
        }
        return WriteParks;
      }
      if writerCompleted || readerCompleted {
        return WriteThrows;
      }
      var copied, stopped := FillSegments(data, limit);
      if stopped {
        return WriteStops(copied);
      }
      return WriteReleases(copied, readerWaiting && copied > 0);
    }

    /** The loop of `advance`: never on an empty deque, never below zero. */
    method ConsumeBytes(consumed: nat)
      requires Linked() && Readable(options, Stored()) && consumed <= buffered
      modifies this`segments, this`buffered, this`actual, memory`alloc
      ensures Linked() && Stored() == old(Consume(options, Stored(), consumed))
    {
      hide Consume, Readable;
      ghost var target := Consume(options, Stored(), consumed);
      var remaining: nat := consumed;
      while remaining > 0
        invariant Linked() && Readable(options, Stored()) && remaining <= buffered
        invariant Consume(options, Stored(), remaining) == target
        decreases remaining
      {
        ConsumeUnfolds(options, Stored(), remaining);
        var size := segments[0].readable.size;
        if remaining < size {
          segments := segments[0 := Shrink(segments[0], remaining)];
          buffered := buffered - remaining;
          return;
        }
        memory.DeallocateBuffer(segments[0].buffer);
        segments := segments[1..];
        remaining := remaining - size;
        buffered := buffered - size;
        actual := actual - options.bufferSize;
      }
      ConsumeNothing(options, Stored());
    }

    method AdvanceTo(consumed: nat, examinedTo: nat) returns (outcome: AdvanceOutcome)
      requires Valid()
      modifies this, memory`alloc
      ensures Valid()
      ensures AdvanceStep(State(), outcome) == old(Advance(State(), consumed, examinedTo))
    {
      hide Readable, Consume, Content;
      AdvanceKeeps(State(), consumed, examinedTo);
      if consumed > examinedTo {
        return InvalidArgument;
      }
      if readerCompleted {
        return ReaderIsCompleted;
      }
      if !hasPendingRead {
        return NoPendingRead;
      }
      if examinedTo > pendingSize {
        return ExaminedOutOfRange;
      }
      var wasPaused := writerPaused;
      ConsumeBytes(consumed);
      examined := examinedTo - consumed;
      if writerPaused && options.bufferSize <= options.resumeThreshold && actual < options.pauseThreshold {
        writerPaused := false;
      }
      pendingSize := 0;
      hasPendingRead := false;
      return Advanced(wasPaused && !writerPaused);
    }

    /** `make_readable_view`. */
    method MakeReadableView() returns (spans: seq<Span>, total: nat)
      ensures spans == ReadableSpans(segments) && total == TotalSize(spans)
    {
      spans, total := CollectSpans(segments);
    }

    /** The end of `read_at_least`, behind the wait. */
    method FinishRead(stop: bool) returns (outcome: ReadOutcome)
      modifies `hasPendingRead, `pendingSize
      ensures ReadStep(State(), outcome) == old(ReadFinish(State(), stop))
      ensures if stop then outcome == ReadCancelled
              else outcome.ReadSnapshot? && (outcome.completed <==> writerCompleted)
    {
      if stop {
        return ReadCancelled;
      }
      var spans, total := MakeReadableView();
      hasPendingRead := true;
      pendingSize := total;
      return ReadSnapshot(spans, writerCompleted);
    }

    /** The lock tenure of a read that wakes up inside its wait. */
    method ReadAgain(minSize: nat, stop: bool) returns (outcome: ReadOutcome)
      requires Valid()
      modifies this
      ensures Valid()
      ensures ReadStep(State(), outcome) == old(ReadWait(State(), minSize, stop))
      ensures outcome == ReadCancelled <==> stop
      ensures outcome.ReadSnapshot? ==> (outcome.completed <==> writerCompleted)
    {
      hide RepInv, ReadFinish;
      ReadKeepsRep(State(), minSize, stop);
      var available := writerCompleted || (buffered > examined && (minSize == 0 || buffered >= minSize));
      if !stop && !available {
        return ReadParks;
      }
      readerWaiting := false;
      outcome := FinishRead(stop);
    }

    /** The first lock tenure of `read_at_least`. */
    method ReadAtLeast(minSize: nat, stop: bool) returns (outcome: ReadOutcome)
      requires Valid()
      modifies this
      ensures Valid()
      ensures ReadStep(State(), outcome) == old(ReadEnter(State(), minSize, stop))
      ensures outcome == ReadThrows <==> old(hasPendingRead || readerCompleted)
      ensures outcome.ReadSnapshot? ==> (outcome.completed <==> writerCompleted)
    {
      hide ReadFinish, ReadWait, Readable;
      ReadKeepsRep(State(), minSize, stop);
      ReadThrowsIff(State(), minSize, stop);
      if hasPendingRead || readerCompleted {
        return ReadThrows;
      }
      if writerCompleted {
        outcome := FinishRead(stop);
      } else {
        readerWaiting := true;
        outcome := ReadAgain(minSize, stop);
      }
    }

    method FinishWriter()
      requires Valid()
      modifies this
      ensures Valid() && State() == old(CompleteWriter(State()))
    {
      hide Readable, Content;
      writerPaused := false;
      writerCompleted := true;
    }

    method FinishReader()
      requires Valid()
      modifies this
      ensures Valid() && State() == old(CompleteReader(State()))
    {
      hide Readable, Content;
      readerCompleted := true;
      hasPendingRead := false;
      writerPaused := false;
      pendingSize, buffered, actual, examined := 0, 0, 0, 0;
    }
  }

  lemma {:induction false} CommitParts(o: Options, st: Store, piece: seq<byte>)
    requires Readable(o, st) && 0 < |piece| <= WriterCapacity(o, st)
    ensures OptionsOk(o)
    ensures var grown := GetSegment(o, st);
            && HasWritableTail(grown) && |piece| <= grown.segments[|grown.segments| - 1].writable.size
            && InMemory(grown.mem, grown.segments[|grown.segments| - 1].writable)
            && Commit(o, st, piece) == CopyToTail(o, grown, piece) && Readable(o, Commit(o, st, piece))
  {
    hide Readable, CopyToTail, GetSegment;
    ReadableOptions(o, st);
    GetSegmentKeeps(o, st);
    CopyToTailKeeps(o, GetSegment(o, st), piece);
    CommitKeeps(o, st, piece);
  }

  /** The result of the whole fill, seen from the round in which `done` bytes have been copied. */
  ghost function FillFrom(o: Options, st: Store, paused: bool, data: seq<byte>, done: nat, limit: Option<nat>): FillResult
    requires Readable(o, st) && done <= |data|
  {
    var rest := Fill(o, st, paused, data[done..], limit);
    rest.(copied := done + rest.copied)
  }

  lemma {:induction false} FillStarts(o: Options, st: Store, data: seq<byte>, limit: Option<nat>)
    requires Readable(o, st)
    ensures FillFrom(o, st, false, data, 0, limit) == Fill(o, st, false, data, limit)
  {
  }

  /** One round of the recursion that specifies the inner loop of `write`. */
  lemma {:induction false} FillUnfolds(o: Options, st: Store, data: seq<byte>, done: nat, limit: Option<nat>)
    requires Readable(o, st) && done < |data|
    ensures var here := FillFrom(o, st, false, data, done, limit);
            var capacity := WriterCapacity(o, st);
            if limit == Some(0) then here == FillResult(st, false, done, true)
            else if capacity == 0 then here == FillResult(st, true, done, false)
            else
              var n := Min(|data| - done, capacity);
              var st' := Commit(o, st, data[done..done + n]);
              && n > 0 && Readable(o, st')
              && here == FillFrom(o, st', ShouldPause(o, st'), data, done + n, FewerRounds(limit))
  {
    hide Readable, Commit, WriterCapacity, ShouldPause;
    if limit != Some(0) && WriterCapacity(o, st) != 0 {
      var n := Min(|data| - done, WriterCapacity(o, st));
      assert data[done..][..n] == data[done..done + n] && data[done..][n..] == data[done + n..];
      CommitKeeps(o, st, data[done..done + n]);
    }
  }

  lemma {:induction false} FillEnds(o: Options, st: Store, paused: bool, data: seq<byte>, done: nat, limit: Option<nat>)
    requires Readable(o, st) && done <= |data| && (done == |data| || paused)
    ensures FillFrom(o, st, paused, data, done, limit) == FillResult(st, paused, done, false)
  {
  }

  /** One round of the recursion that specifies the loop of `advance`. */
  lemma {:induction false} ConsumeUnfolds(o: Options, st: Store, n: nat)
    requires Readable(o, st) && 0 < n <= st.buffered
    ensures st.segments != [] && (st.alloc.ArenaPool? ==> st.alloc.active > 0)
    ensures var size := st.segments[0].readable.size;
            && 0 < size <= st.buffered && o.bufferSize <= st.actual
            && if n < size then Consume(o, st, n) == Trim(st, n)
               else Readable(o, Pop(o, st)) && Consume(o, st, n) == Consume(o, Pop(o, st), n - size)
  {
    PopKeeps(o, st);
  }

  lemma {:induction false} ConsumeNothing(o: Options, st: Store)
    requires Readable(o, st)
    ensures Consume(o, st, 0) == st
  {
  }

  method CollectSpans(segments: seq<Segment>) returns (spans: seq<Span>, total: nat)
    ensures spans == ReadableSpans(segments) && total == TotalSize(spans)
  {
    spans, total := [], 0;
    for i := 0 to |segments|
      invariant spans + ReadableSpans(segments[i..]) == ReadableSpans(segments)
      invariant total == TotalSize(spans)
    {
      assert segments[i..][1..] == segments[i + 1..];
      if segments[i].readable.size != 0 {
        TotalSizeAppend(spans, segments[i].readable);
        spans := spans + [segments[i].readable];
        total := total + segments[i].readable.size;
      }
    }
  }

  lemma {:induction false} TotalSizeAppend(spans: seq<Span>, s: Span)
    ensures TotalSize(spans + [s]) == TotalSize(spans) + s.size
  {
    if spans != [] {
      TotalSizeAppend(spans[1..], s);
      assert (spans + [s])[1..] == spans[1..] + [s];
    }
  }
}
