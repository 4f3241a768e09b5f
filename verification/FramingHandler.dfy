/** The outer loop of the chat sample's handler on the pipeline object (samples/chat/connection_handler.h). */
module FramingHandler {
  import opened Bytes
  import opened PipelineStore
  import opened Pipeline
  import opened PipelineRuns
  import opened PipelineTheorems
  import opened PipelineObjects
  import SegmentedView
  import opened Framing
  import opened FramingRuns

  /** The read tenure of a round: a call of `read`, or its wake-up. */
  function RoundRead(p: Pipe, entering: bool): ReadStep {
    if entering then ReadEnter(p, 0, false) else ReadWait(p, 0, false)
  }

  /** The advance of a round that has seen these bytes. */
  function RoundAdvance(p: Pipe, seen: seq<byte>): AdvanceStep
    requires RepInv(p)
  {
    Advance(p, |seen| - |Tail(seen)|, |seen|)
  }

  /** The view over the spans that a read returned. */
  method ViewOf(memory: PoolMemory, spans: seq<Span>) returns (view: SegmentedView.SegmentedByteView)
    requires forall i :: 0 <= i < |spans| ==> InMemory(memory.Mem(), spans[i])
    ensures fresh(view) && view.Valid() && view.beginOffset == 0
    ensures view.Content() == Flat(DerefAll(memory.Mem(), spans))
  {
    assert Flat([]) == [];
    hide Flat, Contents;
    ghost var mem := memory.Mem();
    var pieces: seq<seq<byte>>, total := [], 0;
    for i := 0 to |spans|
      invariant pieces == DerefAll(mem, spans[..i])
      invariant total == |Flat(pieces)|
    {
      var s := spans[i];
      var piece := memory.blocks[s.block][s.offset..s.offset + s.size];
      assert piece == Deref(mem, s);
      FlatConcat(pieces, [piece]);
      FlatOne(piece);
      assert DerefAll(mem, spans[..i + 1]) == pieces + [piece];
      pieces := pieces + [piece];
      total := total + |piece|;
    }
    assert spans[..|spans|] == spans;
    view := new SegmentedView.SegmentedByteView(pieces, total, 0);
  }

  /** A read is pending whose spans hold all the stored bytes. */
  ghost predicate Pending(p: Pipe, spans: seq<Span>) {
    && RepInv(p) && !p.readerCompleted && p.hasPendingRead && p.pendingSize == |Content(p.store)|
    && (forall i :: 0 <= i < |spans| ==> InMemory(p.store.mem, spans[i]))
    && Flat(DerefAll(p.store.mem, spans)) == Content(p.store)
  }

  /** One round: read, hand over the complete lines, advance past them. A read that parks is continued by a round with
      `entering` false; only the handler completes its reader. */
  method HandleRead(pipe: PipelineObject, entering: bool)
    returns (read: ReadOutcome, handed: seq<seq<byte>>, advanced: Option<AdvanceOutcome>)
    requires pipe.Valid() && (entering || !pipe.readerCompleted)
    modifies pipe, pipe.memory`alloc
    ensures pipe.Valid() && read == old(RoundRead(pipe.State(), entering)).outcome
    ensures !read.ReadSnapshot? ==>
              handed == [] && advanced.None? && pipe.State() == old(RoundRead(pipe.State(), entering)).pipe
    ensures read.ReadSnapshot? ==>
              var p, seen := old(RoundRead(pipe.State(), entering)).pipe, old(Content(pipe.Stored()));
              && RepInv(p) && handed == Commands(seen) && Content(pipe.Stored()) == Tail(seen)
              && advanced.Some? && AdvanceStep(pipe.State(), advanced.value) == RoundAdvance(p, seen)
  {
    hide RepInv, Content, Pending, Commands, Tail, ReadWait, ReadEnter, RoundAdvance;
    ghost var p := pipe.State();
    if entering {
      read := pipe.ReadAtLeast(0, false);
    } else {
      read := pipe.ReadAgain(0, false);
    }
    handed, advanced := [], None;
    if read.ReadSnapshot? {
      RoundSees(p, entering);
      ghost var q := pipe.State();
      assert q.store == p.store && Pending(q, read.spans);
      var outcome: AdvanceOutcome;
      handed, outcome := HandleData(pipe, read.spans);
      advanced := Some(outcome);
    }
  }

  /** The part of a round behind a successful read. */
  method HandleData(pipe: PipelineObject, spans: seq<Span>) returns (handed: seq<seq<byte>>, outcome: AdvanceOutcome)
    requires pipe.Valid() && Pending(pipe.State(), spans)
    modifies pipe, pipe.memory`alloc
    ensures pipe.Valid() && outcome.Advanced?
    ensures handed == Commands(old(Content(pipe.Stored()))) && Content(pipe.Stored()) == Tail(old(Content(pipe.Stored())))
    ensures AdvanceStep(pipe.State(), outcome) == old(RoundAdvance(pipe.State(), Content(pipe.Stored())))
  {
    hide RepInv, Content, Commands, Tail, Advance, Contents, Flat, DerefAll, InMemory;
    ghost var p := pipe.State();
    ghost var seen := Content(p.store);
    RoundAdvances(p, spans);
    var data := ViewOf(pipe.memory, spans);
    assert data.Content() == seen && data.EndOffset() == |seen|;
    handed := ProcessRead(data);
    assert pipe.State() == p;
    assert data.beginOffset == |seen| - |Tail(seen)|;
    outcome := pipe.AdvanceTo(data.beginOffset, data.EndOffset());
  }

  /** The spans of a round's snapshot lie in memory and hold the stored bytes. */
  lemma {:induction false} RoundSees(p: Pipe, entering: bool)
    requires RepInv(p) && (entering || !p.readerCompleted) && RoundRead(p, entering).outcome.ReadSnapshot?
    ensures var r := RoundRead(p, entering);
            r.pipe.store == p.store && Pending(r.pipe, r.outcome.spans) && !p.readerCompleted
  {
    ReadKeepsRep(p, 0, false);
    SnapshotIsContent(p);
    ReadableSpansAll(p.store.segments);
    ContentLength(p.options, p.store);
    forall i | 0 <= i < |p.store.segments| ensures InMemory(p.store.mem, p.store.segments[i].readable) {
      SegmentInMemory(p.options, p.store, i);
    }
  }

  /** The advance of a round succeeds and leaves exactly the partial line. */
  lemma {:induction false} RoundAdvances(p: Pipe, spans: seq<Span>)
    requires Pending(p, spans)
    ensures RoundAdvance(p, Content(p.store)).outcome.Advanced?
    ensures Content(RoundAdvance(p, Content(p.store)).pipe.store) == Tail(Content(p.store))
  {
    hide RepInv, Content, Tail, Advance;
    var seen := Content(p.store);
    AdvanceKeeps(p, |seen| - |Tail(seen)|, |seen|);
    CompletePart(seen);
  }

  /** The read action of a round in a run. */
  function RoundAction(entering: bool): Action {
    if entering then StartRead(0, false) else ReaderRuns(false)
  }

  /** The read of a round is a step of a run that shows the handler all the stored bytes. */
  lemma {:induction false} RoundReads(s: Sys, entering: bool)
    requires Inv(s) && Enabled(s, RoundAction(entering)) && !s.pipe.readerCompleted
    requires RoundRead(s.pipe, entering).outcome.ReadSnapshot? && (s.reader.ReaderWoken? ==> s.reader.minSize == 0)
    ensures var s' := Step(s, RoundAction(entering));
            && s'.pipe == RoundRead(s.pipe, entering).pipe && s'.pipe.store == s.pipe.store
            && s'.reader.ReaderHolds? && Seen(s') == Content(s.pipe.store)
            && Pending(s'.pipe, s'.reader.snapshot.spans)
  {
    RoundSees(s.pipe, entering);
    hide Content, Flat, RepInv, WriterInv, ReaderInv, ReadEnter, ReadWait;
  }

  /** The advance of a round is a step that a handler's run takes there. */
  lemma {:induction false} RoundEnds(s: Sys)
    requires Inv(s) && s.reader.ReaderHolds? && Pending(s.pipe, s.reader.snapshot.spans)
    requires Seen(s) == Content(s.pipe.store)
    ensures var seen := Content(s.pipe.store);
            var a := StartAdvance(|seen| - |Tail(seen)|, |seen|);
            && Enabled(s, a) && HandlerAdvances(s, a)
            && Step(s, a).pipe == RoundAdvance(s.pipe, seen).pipe
            && Step(s, a).consumed == s.consumed + seen[..|seen| - |Tail(seen)|]
  {
    hide Inv, RepInv, Content, Pending, Tail, Seen, Advance, Flat, DerefAll, InMemory;
    RoundAdvances(s.pipe, s.reader.snapshot.spans);
  }
}
