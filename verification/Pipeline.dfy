/** The lock tenures of the pipeline's operations (src/pipeline/pipeline_impl.h). */
module Pipeline {
  import opened Bytes
  import opened PipelineStore

  datatype Pipe = Pipe(
    options: Options,
    store: Store,
    examined: nat,
    pendingSize: nat,
    readerWaiting: bool,
    hasPendingRead: bool,
    writerCompleted: bool,
    readerCompleted: bool,
    writerPaused: bool)
  {
    predicate AnyCompleted() { writerCompleted || readerCompleted }

    predicate DataAvailable(minSize: nat) {
      writerCompleted || (store.buffered > examined && (minSize == 0 || store.buffered >= minSize))
    }

    /** Compares the constant buffer size, not the buffered size, with the resume threshold. */
    predicate ShouldResume() {
      options.bufferSize <= options.resumeThreshold && store.actual < options.pauseThreshold
    }
  }

  /** Representation invariant, until the reader completes. */
  ghost predicate RepInv(p: Pipe) {
    && OptionsOk(p.options)
    && (p.AnyCompleted() ==> !p.writerPaused)
    && (!p.readerCompleted ==>
          && Readable(p.options, p.store)
          && p.examined <= p.store.buffered
          && (p.hasPendingRead ==> p.pendingSize <= p.store.buffered))
  }

  // ----- read_at_least -----

  datatype ReadOutcome =
    | ReadThrows
    | ReadParks
    | ReadCancelled
    | ReadSnapshot(spans: seq<Span>, completed: bool)

  datatype ReadStep = ReadStep(pipe: Pipe, outcome: ReadOutcome)

  /** `make_readable_view`: the non-empty readable parts. */
  function ReadableSpans(segments: seq<Segment>): seq<Span> {
    if segments == [] then []
    else (if segments[0].readable.size != 0 then [segments[0].readable] else []) + ReadableSpans(segments[1..])
  }

  function TotalSize(spans: seq<Span>): nat {
    if spans == [] then 0 else spans[0].size + TotalSize(spans[1..])
  }

  /** The first lock tenure of `read_at_least`, up to a wait or the end. */
  function ReadEnter(p: Pipe, minSize: nat, stop: bool): ReadStep {
    if p.hasPendingRead || p.readerCompleted then ReadStep(p, ReadThrows)
    else if p.writerCompleted then ReadFinish(p, stop)
    else ReadWait(p.(readerWaiting := true), minSize, stop)
  }

  /** The wait on `m_data_available`, entered or woken up from. */
  function ReadWait(p: Pipe, minSize: nat, stop: bool): ReadStep {
    if stop || p.DataAvailable(minSize) then ReadFinish(p.(readerWaiting := false), stop)
    else ReadStep(p, ReadParks)
  }

  function ReadFinish(p: Pipe, stop: bool): ReadStep {
    if stop then ReadStep(p, ReadCancelled)
    else
      var spans := ReadableSpans(p.store.segments);
      ReadStep(p.(hasPendingRead := true, pendingSize := TotalSize(spans)), ReadSnapshot(spans, p.writerCompleted))
  }

  function DerefAll(mem: Memory, spans: seq<Span>): (r: seq<seq<byte>>)
    ensures |r| == |spans|
  {
    seq(|spans|, i requires 0 <= i < |spans| => Deref(mem, spans[i]))
  }

  lemma {:induction false} ReadableSpansAll(segments: seq<Segment>)
    requires forall i :: 0 <= i < |segments| ==> segments[i].readable.size > 0
    ensures |ReadableSpans(segments)| == |segments|
    ensures forall i :: 0 <= i < |segments| ==> ReadableSpans(segments)[i] == segments[i].readable
  {
    if segments != [] {
      ReadableSpansAll(segments[1..]);
    }
  }

  lemma {:induction false} TotalSizeIsLength(mem: Memory, spans: seq<Span>)
    requires forall i :: 0 <= i < |spans| ==> InMemory(mem, spans[i])
    ensures TotalSize(spans) == |Flat(DerefAll(mem, spans))|
  {
    if spans != [] {
      TotalSizeIsLength(mem, spans[1..]);
      assert DerefAll(mem, spans)[1..] == DerefAll(mem, spans[1..]);
    }
  }

  /** A snapshot is the whole unconsumed content, span by span over the live segments. */
  lemma {:induction false} SnapshotIsContent(p: Pipe)
    requires RepInv(p) && !p.readerCompleted
    ensures var spans := ReadableSpans(p.store.segments);
            && Flat(DerefAll(p.store.mem, spans)) == Content(p.store)
            && TotalSize(spans) == p.store.buffered
            && |spans| == |p.store.segments|
            && forall i :: 0 <= i < |spans| ==> Covers(p.store, i, spans[i])
  {
    hide AllocOk, Flat;
    var spans := ReadableSpans(p.store.segments);
    ReadableSpansAll(p.store.segments);
    forall i | 0 <= i < |spans| ensures InMemory(p.store.mem, spans[i]) {
      SegmentInMemory(p.options, p.store, i);
    }
    TotalSizeIsLength(p.store.mem, spans);
    assert DerefAll(p.store.mem, spans) == Chunks(p.store.mem, p.store.segments);
  }

  lemma {:induction false} ReadKeepsRep(p: Pipe, minSize: nat, stop: bool)
    requires RepInv(p)
    ensures RepInv(ReadEnter(p, minSize, stop).pipe) && RepInv(ReadWait(p, minSize, stop).pipe)
  {
    hide Readable;
    if !p.readerCompleted {
      SnapshotIsContent(p);
    }
  }

  /** What `read_at_least` guarantees, on entry or when woken: enough new bytes unless completed, everything left when
      completed, and no trace of a cancelled call. */
  lemma {:induction false} ReadGuarantee(p: Pipe, entering: bool, minSize: nat, stop: bool)
    requires RepInv(p) && !p.readerCompleted && !p.hasPendingRead
    ensures var r := if entering then ReadEnter(p, minSize, stop) else ReadWait(p, minSize, stop);
            && r.outcome != ReadThrows
            && (r.outcome == ReadCancelled <==> stop)
            && (r.outcome == ReadParks <==> !stop && !p.DataAvailable(minSize))
            && (r.outcome.ReadSnapshot? ==>
                  && Flat(DerefAll(p.store.mem, r.outcome.spans)) == Content(p.store)
                  && (r.outcome.completed <==> p.writerCompleted)
                  && (!r.outcome.completed ==> minSize <= |Content(p.store)| && p.examined < |Content(p.store)|)
                  && r.pipe.hasPendingRead && r.pipe.pendingSize == |Content(p.store)|)
            && (!r.outcome.ReadSnapshot? ==> !r.pipe.hasPendingRead && r.pipe.pendingSize == p.pendingSize)
            && (r.pipe.readerWaiting <==>
                  if entering && p.writerCompleted then p.readerWaiting
                  else r.outcome == ReadParks && (entering || p.readerWaiting))
            && r.pipe == p.(readerWaiting := r.pipe.readerWaiting, hasPendingRead := r.pipe.hasPendingRead,
                            pendingSize := r.pipe.pendingSize)
  {
    SnapshotIsContent(p);
    assert p.(readerWaiting := true).DataAvailable(minSize) == p.DataAvailable(minSize);
  }

  /** A read throws exactly when another is pending or the reader completed, before it waits and without a change. */
  lemma {:induction false} ReadThrowsIff(p: Pipe, minSize: nat, stop: bool)
    ensures ReadEnter(p, minSize, stop).outcome == ReadThrows <==> p.hasPendingRead || p.readerCompleted
    ensures ReadEnter(p, minSize, stop).outcome == ReadThrows ==> ReadEnter(p, minSize, stop).pipe == p
    ensures ReadWait(p, minSize, stop).outcome != ReadThrows
  {
  }

  // ----- advance -----

  datatype AdvanceOutcome =
    | InvalidArgument
    | ReaderIsCompleted
    | NoPendingRead
    | ExaminedOutOfRange
    | Advanced(notify: bool)

  datatype AdvanceStep = AdvanceStep(pipe: Pipe, outcome: AdvanceOutcome)

  function Advance(p: Pipe, consumed: nat, examined: nat): AdvanceStep
    requires RepInv(p)
  {
    if consumed > examined then AdvanceStep(p, InvalidArgument)
    else if p.readerCompleted then AdvanceStep(p, ReaderIsCompleted)
    else if !p.hasPendingRead then AdvanceStep(p, NoPendingRead)
    else if examined > p.pendingSize then AdvanceStep(p, ExaminedOutOfRange)
    else
      var moved := p.(store := Consume(p.options, p.store, consumed), examined := examined - consumed,
                      pendingSize := 0, hasPendingRead := false);
      var resumes := p.writerPaused && moved.ShouldResume();
      AdvanceStep(moved.(writerPaused := p.writerPaused && !resumes), Advanced(resumes))
  }

  lemma {:induction false} AdvanceKeeps(p: Pipe, consumed: nat, examined: nat)
    requires RepInv(p)
    ensures var r := Advance(p, consumed, examined);
            && RepInv(r.pipe)
            && (r.outcome.Advanced? <==>
                  consumed <= examined <= p.pendingSize && !p.readerCompleted && p.hasPendingRead)
            && (r.outcome == InvalidArgument <==> consumed > examined)
            && (r.outcome == ReaderIsCompleted <==> consumed <= examined && p.readerCompleted)
            && (r.outcome == NoPendingRead <==> consumed <= examined && !p.readerCompleted && !p.hasPendingRead)
            && (r.outcome == ExaminedOutOfRange <==>
                  consumed <= examined && !p.readerCompleted && p.hasPendingRead && examined > p.pendingSize)
            && (!r.outcome.Advanced? ==> r.pipe == p)
            && (r.outcome.Advanced? ==>
                  && r.pipe == p.(store := r.pipe.store, writerPaused := r.pipe.writerPaused,
                                  examined := examined - consumed, pendingSize := 0, hasPendingRead := false)
                  && (r.pipe.writerPaused <==> p.writerPaused && !r.pipe.ShouldResume())
                  && consumed <= |Content(p.store)|
                  && Content(r.pipe.store) == Content(p.store)[consumed..]
                  && r.pipe.store.mem == p.store.mem
                  && r.pipe.store.actual <= p.store.actual
                  && (r.outcome.notify <==> p.writerPaused && !r.pipe.writerPaused))
  {
    hide Readable;
    if consumed <= examined && !p.readerCompleted && p.hasPendingRead && examined <= p.pendingSize {
      ConsumeKeeps(p.options, p.store, consumed);
      ContentLength(p.options, p.store);
    }
  }

  lemma {:induction false} ContentLength(o: Options, st: Store)
    requires Readable(o, st)
    ensures |Content(st)| == st.buffered
  {
  }

  // ----- write -----

  datatype WriteOutcome =
    | WriteThrows
    | WriteParks
    | WriteStops(copied: nat)
    | WriteReleases(copied: nat, notify: bool)

  datatype WriteStep = WriteStep(pipe: Pipe, outcome: WriteOutcome)

  /** A lock tenure of `write` from the top of the outer loop. */
  function WriteEnter(p: Pipe, data: seq<byte>, limit: Option<nat>): WriteStep
    requires RepInv(p) && data != []
  {
    if p.AnyCompleted() then WriteStep(p, WriteThrows) else WriteWait(p, data, limit)
  }

  /** The wait on `m_space_available`, entered or woken up from, and the inner loop behind it.
      A stop seen while paused skips the inner loop without returning. */
  function WriteWait(p: Pipe, data: seq<byte>, limit: Option<nat>): WriteStep
    requires RepInv(p) && data != []
  {
    if p.writerPaused then
      WriteStep(p, if limit == Some(0) then WriteReleases(0, false) else WriteParks)
    else if p.AnyCompleted() then WriteStep(p, WriteThrows)
    else
      var r := Fill(p.options, p.store, false, data, limit);
      WriteStep(p.(store := r.store, writerPaused := r.paused),
                if r.stopped then WriteStops(r.copied) else WriteReleases(r.copied, p.readerWaiting && r.copied > 0))
  }

  function Copied(w: WriteOutcome): nat {
    match w
    case WriteStops(n) => n
    case WriteReleases(n, _) => n
    case _ => 0
  }

  lemma {:induction false} WriteKeeps(p: Pipe, data: seq<byte>, limit: Option<nat>)
    requires RepInv(p) && data != []
    ensures var r := WriteWait(p, data, limit);
            var n := Copied(r.outcome);
            && RepInv(r.pipe)
            && n <= |data|
            && (n > 0 ==> !p.AnyCompleted())
            && (!p.readerCompleted ==> Content(r.pipe.store) == Content(p.store) + data[..n])
            && r.pipe == p.(store := r.pipe.store, writerPaused := r.pipe.writerPaused)
            && WriteEnter(p, data, limit) == r
            && (r.outcome.WriteThrows? <==> p.AnyCompleted())
            && (r.outcome.WriteParks? <==> p.writerPaused && limit != Some(0))
            && (r.outcome.WriteStops? ==> limit.Some?)
            && (r.outcome.WriteThrows? || r.outcome.WriteParks? ==> r.pipe == p)
            && (p.writerPaused ==> r.pipe == p)
            && (r.outcome.WriteReleases? && limit.None? ==> n == |data| || r.pipe.writerPaused)
            && (r.pipe.writerPaused && !p.writerPaused ==> ShouldPause(p.options, r.pipe.store))
            && (r.outcome.WriteReleases? ==> (r.outcome.notify <==> p.readerWaiting && n > 0))
            && (n == 0 ==> Content(r.pipe.store) == Content(p.store))
  {
    hide Readable, ShouldPause, Content, Fill;
    assert data[..0] == [];
    if !p.writerPaused && !p.AnyCompleted() {
      FillKeeps(p.options, p.store, false, data, limit);
      var r := Fill(p.options, p.store, false, data, limit);
      FilledCounters(p.options, p.store, r.store, data[..r.copied]);
    }
    assert Content(p.store) + [] == Content(p.store);
  }

  /** A resume without room re-pauses and changes no data; with room the writer makes progress. */
  lemma {:induction false} SpuriousResume(p: Pipe, data: seq<byte>)
    requires RepInv(p) && data != [] && !p.writerPaused && !p.AnyCompleted()
    ensures ShouldPause(p.options, p.store) ==>
              WriteWait(p, data, None) == WriteStep(p.(writerPaused := true), WriteReleases(0, false))
    ensures Copied(WriteWait(p, data, None).outcome) == 0 <==> ShouldPause(p.options, p.store)
  {
  }

  lemma {:induction false} FilledCounters(o: Options, st: Store, st': Store, data: seq<byte>)
    requires Readable(o, st) && Readable(o, st') && Content(st') == Content(st) + data
    ensures st'.buffered == st.buffered + |data|
  {
  }

  // ----- completion -----

  function CompleteWriter(p: Pipe): Pipe {
    p.(writerPaused := false, writerCompleted := true)
  }

  /** Zeroes the counters but leaves the segments in place. */
  function CompleteReader(p: Pipe): Pipe {
    p.(readerCompleted := true, hasPendingRead := false, writerPaused := false, pendingSize := 0, examined := 0,
       store := p.store.(buffered := 0, actual := 0))
  }
}
