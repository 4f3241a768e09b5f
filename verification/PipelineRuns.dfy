/** Every interleaving of one writer and one reader with the pipeline's lock tenures and notifications. */
module PipelineRuns {
  import opened Bytes
  import opened PipelineStore
  import opened Pipeline

  /** One call of `write`: its input, where its first byte sits in the committed stream, and its progress. */
  datatype Call = Call(input: seq<byte>, base: nat, copied: nat) {
    function Rest(): seq<byte>
      requires copied <= |input|
    {
      input[copied..]
    }
  }

  datatype Writer =
    | WriterIdle
    | WriterEnters(call: Call)
    | WriterParked(call: Call)
    | WriterWoken(call: Call)
    | WriterNotifies(call: Call, notify: bool)
    | WriterReturned(call: Call, stopped: bool)
    | WriterThrew(call: Call)

  /** What a read handed out: spans into live memory, and the bytes they held at that moment. */
  datatype Snapshot = Snapshot(spans: seq<Span>, pieces: seq<seq<byte>>, base: nat, completed: bool)

  datatype Reader =
    | ReaderIdle
    | ReaderParked(minSize: nat)
    | ReaderWoken(minSize: nat)
    | ReaderHolds(snapshot: Snapshot)
    | ReaderNotifies(notify: bool)

  /** `owedData` and `owedSpace` count the `notify_all` calls that completions still owe.
      `committed` and `consumed` record the bytes written and consumed so far. */
  datatype Sys = Sys(
    pipe: Pipe, writer: Writer, reader: Reader, owedData: nat, owedSpace: nat,
    committed: seq<byte>, consumed: seq<byte>)

  datatype Action =
    | StartWrite(input: seq<byte>)
    | WriterRuns(limit: Option<nat>)
    | WriterNotifiesReader
    | WriterFinishes
    | WriterWakes
    | StartRead(minSize: nat, stop: bool)
    | ReaderRuns(stop: bool)
    | ReaderWakes
    | StartAdvance(consumed: nat, examined: nat)
    | ReaderNotifiesWriter
    | WriterCompletes
    | ReaderCompletes
    | DeliverData
    | DeliverSpace

  predicate Enabled(s: Sys, a: Action) {
    match a
    case StartWrite(_) => s.writer.WriterIdle?
    case WriterRuns(_) => s.writer.WriterEnters? || s.writer.WriterWoken?
    case WriterNotifiesReader => s.writer.WriterNotifies?
    case WriterFinishes => s.writer.WriterReturned? || s.writer.WriterThrew?
    case WriterWakes => s.writer.WriterParked?
    case StartRead(_, _) => s.reader.ReaderIdle? || s.reader.ReaderHolds?
    case ReaderRuns(_) => s.reader.ReaderWoken?
    case ReaderWakes => s.reader.ReaderParked?
    case StartAdvance(_, _) => s.reader.ReaderIdle? || s.reader.ReaderHolds?
    case ReaderNotifiesWriter => s.reader.ReaderNotifies?
    case WriterCompletes => true
    case ReaderCompletes => true
    case DeliverData => s.owedData > 0
    case DeliverSpace => s.owedSpace > 0
  }

  function WakeReader(r: Reader): Reader {
    if r.ReaderParked? then ReaderWoken(r.minSize) else r
  }

  function WakeWriter(w: Writer): Writer {
    if w.WriterParked? then WriterWoken(w.call) else w
  }

  // ----- invariant -----

  ghost predicate CallOk(committed: seq<byte>, c: Call) {
    && c.copied <= |c.input| && c.base + c.copied == |committed|
    && committed[c.base..] == c.input[..c.copied]
  }

  /** The bytes of the current call are the end of the committed stream, and a return reports all of them
      unless the stop token was stopped. */
  ghost predicate WriterInv(s: Sys) {
    && (!s.writer.WriterIdle? ==> CallOk(s.committed, s.writer.call))
    && (s.writer.WriterReturned? ==> s.writer.call.copied == |s.writer.call.input| || s.writer.stopped)
    && (s.writer.WriterEnters? || s.writer.WriterParked? || s.writer.WriterWoken? ==>
          s.writer.call.copied < |s.writer.call.input|)
  }

  /** The snapshot's spans still lie over the live segments and still hold the bytes they held when read. */
  ghost predicate SpansLive(st: Store, n: Snapshot) {
    && |n.spans| == |n.pieces| <= |st.segments|
    && (forall i :: 0 <= i < |n.spans| ==> Covers(st, i, n.spans[i]) && Deref(st.mem, n.spans[i]) == n.pieces[i])
  }

  /** The snapshot's bytes are the committed stream from the snapshot's base on. */
  ghost predicate StreamAt(committed: seq<byte>, n: Snapshot) {
    && n.base + |Flat(n.pieces)| <= |committed|
    && Flat(n.pieces) == committed[n.base..n.base + |Flat(n.pieces)|]
    && (n.completed ==> n.base + |Flat(n.pieces)| == |committed|)
  }

  ghost predicate SnapshotOk(s: Sys, n: Snapshot) {
    && SpansLive(s.pipe.store, n)
    && StreamAt(s.committed, n)
    && n.base == |s.consumed|
    && s.pipe.hasPendingRead && s.pipe.pendingSize == |Flat(n.pieces)|
    && (n.completed ==> s.pipe.writerCompleted)
  }

  ghost predicate ReaderInv(s: Sys) {
    if s.reader.ReaderHolds? then SnapshotOk(s, s.reader.snapshot) else !s.pipe.hasPendingRead
  }

  ghost predicate Inv(s: Sys) {
    && RepInv(s.pipe)
    && WriterInv(s)
    && (!s.pipe.readerCompleted ==>
          && s.consumed + Content(s.pipe.store) == s.committed
          && ReaderInv(s))
  }

  // ----- steps -----

  function AfterWrite(s: Sys, c: Call, w: WriteStep): Sys
    requires c.copied + Copied(w.outcome) <= |c.input|
  {
    var n := Copied(w.outcome);
    var c' := c.(copied := c.copied + n);
    s.(pipe := w.pipe,
       committed := s.committed + c.input[c.copied..c.copied + n],
       writer := match w.outcome
                 case WriteThrows => WriterThrew(c')
                 case WriteParks => WriterParked(c')
                 case WriteStops(_) => WriterReturned(c', true)
                 case WriteReleases(_, notify) => WriterNotifies(c', notify))
  }

  function AfterRead(s: Sys, minSize: nat, r: ReadStep): Sys {
    s.(pipe := r.pipe,
       reader := match r.outcome
                 case ReadThrows => s.reader
                 case ReadParks => ReaderParked(minSize)
                 case ReadCancelled => ReaderIdle
                 case ReadSnapshot(spans, completed) =>
                   ReaderHolds(Snapshot(spans, DerefAll(r.pipe.store.mem, spans), |s.consumed|, completed)))
  }

  function AfterAdvance(s: Sys, consumed: nat, a: AdvanceStep): Sys
    requires a.outcome.Advanced? ==> consumed <= |Content(s.pipe.store)|
  {
    match a.outcome
    case Advanced(notify) =>
      s.(pipe := a.pipe, consumed := s.consumed + Content(s.pipe.store)[..consumed], reader := ReaderNotifies(notify))
    case _ => s
  }

  function Step(s: Sys, a: Action): Sys
    requires Inv(s) && Enabled(s, a)
  {
    match a
    case StartWrite(input) =>
      var c := Call(input, |s.committed|, 0);
      s.(writer := if input == [] then WriterReturned(c, false) else WriterEnters(c))
    case WriterRuns(limit) =>
      var c := s.writer.call;
      var w := if s.writer.WriterEnters? then WriteEnter(s.pipe, c.Rest(), limit)
               else WriteWait(s.pipe, c.Rest(), limit);
      WriteKeeps(s.pipe, c.Rest(), limit);
      AfterWrite(s, c, w)
    case WriterNotifiesReader =>
      var c := s.writer.call;
      s.(reader := if s.writer.notify then WakeReader(s.reader) else s.reader,
         writer := if c.copied == |c.input| then WriterReturned(c, false) else WriterEnters(c))
    case WriterFinishes => s.(writer := WriterIdle)
    case WriterWakes => s.(writer := WakeWriter(s.writer))
    case StartRead(minSize, stop) => AfterRead(s, minSize, ReadEnter(s.pipe, minSize, stop))
    case ReaderRuns(stop) => AfterRead(s, s.reader.minSize, ReadWait(s.pipe, s.reader.minSize, stop))
    case ReaderWakes => s.(reader := WakeReader(s.reader))
    case StartAdvance(consumed, examined) =>
      AdvanceKeeps(s.pipe, consumed, examined);
      AfterAdvance(s, consumed, Advance(s.pipe, consumed, examined))
    case ReaderNotifiesWriter =>
      s.(writer := if s.reader.notify then WakeWriter(s.writer) else s.writer, reader := ReaderIdle)
    case WriterCompletes =>
      s.(pipe := CompleteWriter(s.pipe), owedData := s.owedData + 1, owedSpace := s.owedSpace + 1)
    case ReaderCompletes =>
      s.(pipe := CompleteReader(s.pipe), owedData := s.owedData + 1, owedSpace := s.owedSpace + 1)
    case DeliverData => s.(owedData := s.owedData - 1, reader := WakeReader(s.reader))
    case DeliverSpace => s.(owedSpace := s.owedSpace - 1, writer := WakeWriter(s.writer))
  }

  lemma {:induction false} WriterRunsKeeps(s: Sys, limit: Option<nat>)
    requires Inv(s) && Enabled(s, WriterRuns(limit))
    ensures Inv(Step(s, WriterRuns(limit)))
  {
    WriterRunsKeepsCall(s, limit);
    WriterRunsKeepsStream(s, limit);
    hide Content, ReaderInv, RepInv, WriterInv, Step;
  }

  lemma {:induction false} WriterRunsKeepsCall(s: Sys, limit: Option<nat>)
    requires Inv(s) && Enabled(s, WriterRuns(limit))
    ensures WriterInv(Step(s, WriterRuns(limit)))
  {
    hide Content, ReaderInv, RepInv, WriteWait, CallOk, ShouldPause;
    var c := s.writer.call;
    var data := c.Rest();
    WriteKeeps(s.pipe, data, limit);
    var w := if s.writer.WriterEnters? then WriteEnter(s.pipe, data, limit) else WriteWait(s.pipe, data, limit);
    CallGrows(s.committed, c, Copied(w.outcome));
  }

  lemma {:induction false} WriterRunsKeepsStream(s: Sys, limit: Option<nat>)
    requires Inv(s) && Enabled(s, WriterRuns(limit))
    ensures var s' := Step(s, WriterRuns(limit));
            RepInv(s'.pipe) && (!s'.pipe.readerCompleted ==> s'.consumed + Content(s'.pipe.store) == s'.committed && ReaderInv(s'))
  {
    hide Content, SnapshotOk, RepInv, WriteWait, CallOk, ShouldPause;
    var c := s.writer.call;
    var data := c.Rest();
    WriteKeeps(s.pipe, data, limit);
    var w := if s.writer.WriterEnters? then WriteEnter(s.pipe, data, limit) else WriteWait(s.pipe, data, limit);
    var n := Copied(w.outcome);
    var s' := Step(s, WriterRuns(limit));
    assert data[..n] == c.input[c.copied..c.copied + n];
    if !s.pipe.readerCompleted {
      Associative(s.consumed, Content(s.pipe.store), data[..n]);
      if s.reader.ReaderHolds? {
        SnapshotSurvivesWrite(s, s', data, limit);
      }
    }
  }

  lemma {:induction false} SnapshotSurvivesWrite(s: Sys, s': Sys, data: seq<byte>, limit: Option<nat>)
    requires Inv(s) && data != [] && !s.pipe.readerCompleted && s.reader.ReaderHolds?
    requires s'.pipe == s.pipe || s'.pipe == WriteWait(s.pipe, data, limit).pipe
    requires s'.consumed == s.consumed && s.committed <= s'.committed
    requires s.pipe.writerCompleted ==> s'.committed == s.committed
    ensures SnapshotOk(s', s.reader.snapshot)
  {
    hide Content, SpansLive, StreamAt, Flat, RepInv, WriteWait, WriterInv, ShouldPause;
    WriteKeeps(s.pipe, data, limit);
    SpansSurviveWrite(s.pipe, data, limit, s.reader.snapshot);
    StreamGrows(s.committed, s'.committed, s.reader.snapshot);
  }

  lemma {:induction false} CallGrows(committed: seq<byte>, c: Call, n: nat)
    requires CallOk(committed, c) && c.copied + n <= |c.input|
    ensures CallOk(committed + c.input[c.copied..c.copied + n], c.(copied := c.copied + n))
  {
  }

  /** No write changes a byte that an outstanding snapshot refers to. */
  lemma {:induction false} SpansSurviveWrite(p: Pipe, data: seq<byte>, limit: Option<nat>, n: Snapshot)
    requires RepInv(p) && !p.readerCompleted && data != [] && SpansLive(p.store, n)
    ensures SpansLive(WriteWait(p, data, limit).pipe.store, n)
  {
    hide Covers, Deref, Readable, Fill;
    var st := WriteWait(p, data, limit).pipe.store;
    if !p.writerPaused && !p.AnyCompleted() {
      forall i | 0 <= i < |n.spans|
        ensures Covers(st, i, n.spans[i]) && Deref(st.mem, n.spans[i]) == n.pieces[i]
      {
        FillPreserves(p.options, p.store, false, data, limit, i, n.spans[i]);
      }
      CoversMeansLive(st, n);
    }
  }

  lemma {:induction false} CoversMeansLive(st: Store, n: Snapshot)
    requires forall i :: 0 <= i < |n.spans| ==> Covers(st, i, n.spans[i])
    ensures |n.spans| <= |st.segments|
  {
    if n.spans != [] {
      assert Covers(st, |n.spans| - 1, n.spans[|n.spans| - 1]);
    }
  }

  lemma {:induction false} StreamGrows(committed: seq<byte>, committed': seq<byte>, n: Snapshot)
    requires StreamAt(committed, n) && committed <= committed' && (n.completed ==> committed' == committed)
    ensures StreamAt(committed', n)
  {
  }

  lemma {:induction false} ReadKeeps(s: Sys, minSize: nat, r: ReadStep)
    requires Inv(s) && (s.reader.ReaderIdle? || s.reader.ReaderHolds? || s.reader.ReaderWoken?)
    requires (exists stop :: r == ReadEnter(s.pipe, minSize, stop))
          || (s.reader.ReaderWoken? && exists stop :: r == ReadWait(s.pipe, minSize, stop))
    ensures Inv(AfterRead(s, minSize, r))
  {
    hide Content, Flat, Readable, SpansLive, StreamAt, ReadableSpans, TotalSize, CallOk;
    if r.outcome.ReadSnapshot? && !s.pipe.readerCompleted {
      SnapshotTaken(s.pipe, s.consumed, s.committed, r.outcome.completed);
    }
  }

  /** A snapshot is the unconsumed part of the committed stream at the moment of the read. */
  lemma {:induction false} SnapshotTaken(p: Pipe, consumed: seq<byte>, committed: seq<byte>, completed: bool)
    requires RepInv(p) && !p.readerCompleted && consumed + Content(p.store) == committed
    ensures var spans := ReadableSpans(p.store.segments);
            var n := Snapshot(spans, DerefAll(p.store.mem, spans), |consumed|, completed);
            && SpansLive(p.store, n) && StreamAt(committed, n)
            && consumed + Flat(n.pieces) == committed
            && TotalSize(spans) == |Flat(n.pieces)| == p.store.buffered
  {
    hide Flat, Readable, Content;
    SnapshotIsContent(p);
    ContentLength(p.options, p.store);
    assert committed[|consumed|..|committed|] == Content(p.store);
  }

  lemma {:induction false} StartAdvanceKeeps(s: Sys, consumed: nat, examined: nat)
    requires Inv(s) && Enabled(s, StartAdvance(consumed, examined))
    ensures Inv(Step(s, StartAdvance(consumed, examined)))
  {
    hide Content, Flat, Readable;
    AdvanceKeeps(s.pipe, consumed, examined);
    var a := Advance(s.pipe, consumed, examined);
    if a.outcome.Advanced? {
      var content := Content(s.pipe.store);
      assert content == content[..consumed] + content[consumed..];
      Associative(s.consumed, content[..consumed], content[consumed..]);
    }
  }

  /** Every step keeps the invariant. */
  lemma {:induction false} StepKeeps(s: Sys, a: Action)
    requires Inv(s) && Enabled(s, a)
    ensures Inv(Step(s, a))
  {
    hide Content, Flat, Readable;
    match a
    case WriterRuns(limit) => WriterRunsKeeps(s, limit);
    case StartRead(minSize, stop) => ReadKeeps(s, minSize, ReadEnter(s.pipe, minSize, stop));
    case ReaderRuns(stop) => ReadKeeps(s, s.reader.minSize, ReadWait(s.pipe, s.reader.minSize, stop));
    case StartAdvance(consumed, examined) => StartAdvanceKeeps(s, consumed, examined);
    case _ =>
  }

  // ----- runs -----

  ghost predicate Executes(s: Sys, actions: seq<Action>)
    requires Inv(s)
    decreases |actions|
  {
    actions != [] ==>
      Enabled(s, actions[0]) && (StepKeeps(s, actions[0]); Executes(Step(s, actions[0]), actions[1..]))
  }

  ghost function After(s: Sys, actions: seq<Action>): (s': Sys)
    requires Inv(s) && Executes(s, actions)
    ensures Inv(s')
    decreases |actions|
  {
    if actions == [] then s
    else
      StepKeeps(s, actions[0]);
      After(Step(s, actions[0]), actions[1..])
  }

  /** The storage of a new pipeline with either allocator. */
  function EmptyStore(o: Options, arena: bool): Store
    requires OptionsOk(o)
  {
    if arena then Store([seq(o.bufferSize * MaxPooled(o), _ => 0)], ArenaPool(0, 0, 0), [], 0, 0)
    else Store([], FixedPool([]), [], 0, 0)
  }

  lemma {:induction false} EmptyStoreOk(o: Options, arena: bool)
    requires OptionsOk(o)
    ensures Readable(o, EmptyStore(o, arena)) && Content(EmptyStore(o, arena)) == []
  {
    var st := EmptyStore(o, arena);
    assert MaxPooled(o) > 0;
    if arena {
      assert RingWindow(o, st.alloc, Buffers([]), 0);
    }
  }

  function Initial(o: Options, arena: bool): (s: Sys)
    requires OptionsOk(o)
    ensures Inv(s)
  {
    EmptyStoreOk(o, arena);
    Sys(Pipe(o, EmptyStore(o, arena), 0, 0, false, false, false, false, false),
        WriterIdle, ReaderIdle, 0, 0, [], [])
  }
}
