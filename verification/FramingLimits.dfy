/** How long a line may be: the handler consumes no partial line, so a line has to fit into the pipeline. */
module FramingLimits {
  import opened Bytes
  import opened PipelineStore
  import opened Pipeline
  import opened PipelineRuns
  import opened PipelineTheorems
  import opened PipelineCapacity
  import opened Framing
  import opened FramingRuns

  /** Every line of the stream, with its newline, has at most `n` bytes, and so has what follows the last newline. */
  ghost predicate LinesFit(stream: seq<byte>, n: nat) {
    |Tail(stream)| <= n && forall i :: 0 <= i < |SplitLines(stream)| ==> |SplitLines(stream)[i]| + 1 <= n
  }

  /** What the writer has been asked to write so far. */
  ghost function Offered(s: Sys): seq<byte>
    requires Inv(s)
  {
    if s.writer.WriterIdle? then s.committed else s.committed + s.writer.call.Rest()
  }

  /** A newline-free stretch that starts a line and is not the end of the stream is shorter than the bound. */
  lemma {:induction false} StretchFits(before: seq<byte>, stretch: seq<byte>, rest: seq<byte>, n: nat)
    requires Tail(before) == [] && OneLine(stretch) && rest != [] && LinesFit(before + (stretch + rest), n)
    ensures |stretch| < n
  {
    var s := stretch + rest;
    SplitConcat(before, s);
    assert [] + s == s;
    IndexOfAnyConcat(stretch, rest, [LINE_FEED]);
    var found := IndexOfAny(rest, [LINE_FEED]);
    hide IndexOfAny, Tail;
    if found.Some? {
      SplitFirst(s, |stretch| + found.value);
      var i := |SplitLines(before)|;
      assert SplitLines(before + s)[i] == s[..|stretch| + found.value];
    } else {
      SplitNone(s);
    }
  }

  // ----- lines that fit -----

  /** Writes are not cancelled and reads have no minimum, as in the chat sample. */
  predicate Simple(a: Action) { Uncancelled(a) && (a.StartRead? ==> a.minSize == 0) }

  ghost predicate HandlerClient(s: Sys, actions: seq<Action>)
    requires Inv(s) && Executes(s, actions)
  {
    HandlerRun(s, actions) && forall i :: 0 <= i < |actions| ==> Simple(actions[i])
  }

  /** The bytes examined and not consumed hold no newline, only the head buffer is trimmed, and a pause means that
      there is no room. */
  ghost predicate LineInv(s: Sys) {
    && s.pipe.options.bufferSize <= s.pipe.options.resumeThreshold
    && (s.reader.ReaderParked? || s.reader.ReaderWoken? ==> s.reader.minSize == 0)
    && (!s.pipe.readerCompleted ==> LineOk(s.pipe))
  }

  ghost predicate LineOk(p: Pipe) {
    && p.examined <= |Content(p.store)| && OneLine(Content(p.store)[..p.examined])
    && UntrimmedFrom(p.store, 1)
    && (p.writerPaused ==> ShouldPause(p.options, p.store))
  }

  lemma {:induction false} WriterRunsKeepsLine(s: Sys, limit: Option<nat>)
    requires Inv(s) && Enabled(s, WriterRuns(limit)) && LineInv(s)
    ensures LineInv(Step(s, WriterRuns(limit)))
  {
    hide Content, Readable, ReaderInv, CallOk, Fill, ShouldPause, UntrimmedFrom, OneLine;
    var data := s.writer.call.Rest();
    WriteKeeps(s.pipe, data, limit);
    var p := WriteWait(s.pipe, data, limit).pipe;
    if !s.pipe.writerPaused && !s.pipe.AnyCompleted() {
      FillKeepsUntrimmed(s.pipe.options, s.pipe.store, false, data, limit, 1);
      assert Content(p.store)[..p.examined] == Content(s.pipe.store)[..p.examined];
    }
  }

  lemma {:induction false} AdvanceKeepsLineOk(p: Pipe, seen: seq<byte>)
    requires RepInv(p) && !p.readerCompleted && p.hasPendingRead && p.pendingSize == |seen| && LineOk(p)
    requires p.options.bufferSize <= p.options.resumeThreshold && seen <= Content(p.store)
    ensures LineOk(Advance(p, |seen| - |Tail(seen)|, |seen|).pipe)
  {
    hide Readable, Consume, UntrimmedFrom, Content, Tail, OneLine;
    var n := |seen| - |Tail(seen)|;
    AdvanceKeeps(p, n, |seen|);
    ConsumeKeepsUntrimmed(p.options, p.store, n);
    TailRemains(Content(p.store), seen);
  }

  lemma {:induction false} AdvanceKeepsLine(s: Sys, a: Action)
    requires Inv(s) && Enabled(s, a) && a.StartAdvance? && LineInv(s) && HandlerAdvances(s, a)
    ensures LineInv(Step(s, a))
  {
    hide Content, Readable, WriterInv, ReaderInv, Seen, Tail, LineOk, Advance;
    AdvanceKeeps(s.pipe, a.consumed, a.examined);
    StartAdvanceGrows(s, a.consumed, a.examined);
    if !s.pipe.readerCompleted {
      SeenIsPrefix(s);
      AdvanceKeepsLineOk(s.pipe, Seen(s));
    }
  }

  /** After the complete lines of a prefix, the rest of the prefix holds no newline. */
  lemma {:induction false} TailRemains(content: seq<byte>, seen: seq<byte>)
    requires seen <= content
    ensures var n := |seen| - |Tail(seen)|;
            |Tail(seen)| <= |content[n..]| && content[n..][..|Tail(seen)|] == Tail(seen) && OneLine(Tail(seen))
  {
    hide Tail, OneLine;
    var n := |seen| - |Tail(seen)|;
    CompletePart(seen);
    SplitRoundTrip(seen);
    assert content[n..][..|Tail(seen)|] == seen[n..];
  }

  lemma {:induction false} StepKeepsLine(s: Sys, a: Action)
    requires Inv(s) && Enabled(s, a) && LineInv(s) && HandlerAdvances(s, a) && Simple(a)
    ensures LineInv(Step(s, a))
  {
    match a
    case WriterRuns(limit) => WriterRunsKeepsLine(s, limit);
    case StartAdvance(consumed, examined) => AdvanceKeepsLine(s, a);
    case _ => hide Inv, Content, OneLine, UntrimmedFrom, ShouldPause;
  }

  lemma {:induction false} RunKeepsLine(s: Sys, actions: seq<Action>)
    requires Inv(s) && WakeInv(s) && LineInv(s) && Executes(s, actions) && HandlerClient(s, actions)
    ensures WakeInv(After(s, actions)) && LineInv(After(s, actions))
    decreases |actions|
  {
    hide Inv, WakeInv, LineInv, Enabled, Step, HandlerAdvances;
    if actions != [] {
      StepKeeps(s, actions[0]);
      StepKeepsWake(s, actions[0]);
      StepKeepsLine(s, actions[0]);
      RunKeepsLine(Step(s, actions[0]), actions[1..]);
    }
  }

  /** In a deadlock the pipeline is full of one partial line. */
  lemma {:induction false} DeadlockIsOneLine(s: Sys)
    requires Inv(s) && WakeInv(s) && LineInv(s) && Deadlocked(s)
    ensures !s.pipe.readerCompleted && OneLine(Content(s.pipe.store))
    ensures MaxLive(s.pipe.options) > 0
    ensures |Content(s.pipe.store)| >= (MaxLive(s.pipe.options) - 1) * s.pipe.options.bufferSize + 1
  {
    var p := s.pipe;
    DeadlockIsStuck(s);
    hide Readable, Content, UntrimmedFrom, WriterInv, ReaderInv;
    ContentLength(p.options, p.store);
    assert Content(p.store)[..p.examined] == Content(p.store);
    PausedIsFull(p.options, p.store);
    CountFits(p.options, 1);
    FullStore(p.options, p.store);
  }

  /** Lines that fit into all the buffers but one, and one byte more, never deadlock the pipeline. */
  lemma {:induction false} ShortLinesFlow(o: Options, arena: bool, actions: seq<Action>, n: nat)
    requires OptionsOk(o) && o.bufferSize <= o.resumeThreshold && n <= (MaxLive(o) - 1) * o.bufferSize + 1
    requires Executes(Initial(o, arena), actions) && HandlerClient(Initial(o, arena), actions)
    requires LinesFit(Offered(After(Initial(o, arena), actions)), n)
    ensures !Deadlocked(After(Initial(o, arena), actions))
  {
    var init := Initial(o, arena);
    var s := After(init, actions);
    StartsInLine(o, arena);
    RunKeepsLine(init, actions);
    OptionsKept(init, actions);
    hide Initial, Executes, After, HandlerRun, WakeInv, LineInv, LinesFit, Readable, Content, ReaderInv, MaxLive, Tail, OneLine;
    if Deadlocked(s) {
      DeadlockIsOneLine(s);
      RunFrames(init, actions);
      var rest := s.writer.call.Rest();
      Associative(s.consumed, Content(s.pipe.store), rest);
      StretchFits(s.consumed, Content(s.pipe.store), rest, n);
    }
  }

  lemma {:induction false} StartsInLine(o: Options, arena: bool)
    requires OptionsOk(o)
    ensures var init := Initial(o, arena);
            && WakeInv(init) && init.pipe.options == o && Tail(init.consumed) == []
            && (o.bufferSize <= o.resumeThreshold ==> LineInv(init))
  {
  }

  // ----- lines that do not fit -----

  lemma {:induction false} HandlerSnoc(s: Sys, actions: seq<Action>, a: Action)
    requires Inv(s) && Executes(s, actions) && HandlerRun(s, actions)
    requires Enabled(After(s, actions), a) && HandlerAdvances(After(s, actions), a)
    ensures Executes(s, actions + [a]) && HandlerRun(s, actions + [a])
    ensures After(s, actions + [a]) == Step(After(s, actions), a)
    decreases |actions|
  {
    RunSnoc(s, actions, a);
    hide Inv, Step, Enabled, HandlerAdvances;
    if actions == [] {
      assert ([a])[1..] == [];
      StepKeeps(s, a);
    } else {
      StepKeeps(s, actions[0]);
      HandlerSnoc(Step(s, actions[0]), actions[1..], a);
      assert (actions + [a])[0] == actions[0] && (actions + [a])[1..] == actions[1..] + [a];
    }
  }

  lemma {:induction false} Extend(s: Sys, actions: seq<Action>, a: Action) returns (more: seq<Action>)
    requires Inv(s) && Executes(s, actions) && HandlerClient(s, actions)
    requires Enabled(After(s, actions), a) && HandlerAdvances(After(s, actions), a) && Simple(a)
    ensures Executes(s, more) && HandlerClient(s, more) && After(s, more) == Step(After(s, actions), a)
  {
    HandlerSnoc(s, actions, a);
    more := actions + [a];
  }

  lemma {:induction false} NoAdvances(s: Sys, actions: seq<Action>)
    requires Inv(s) && Executes(s, actions) && forall i :: 0 <= i < |actions| ==> !actions[i].StartAdvance?
    ensures HandlerRun(s, actions)
    decreases |actions|
  {
    hide Inv, Step, Enabled;
    if actions != [] {
      StepKeeps(s, actions[0]);
      NoAdvances(Step(s, actions[0]), actions[1..]);
    }
  }

  /** The writer is about to run into a pause, and the reader has looked at everything and consumed the complete lines. */
  ghost predicate Exhausted(s: Sys, input: seq<byte>) {
    && Inv(s) && s.writer.WriterEnters? && s.reader.ReaderIdle? && s.owedData == 0 && s.owedSpace == 0
    && !s.pipe.AnyCompleted() && !s.pipe.hasPendingRead && s.pipe.store.buffered == s.pipe.examined
    && (s.pipe.writerPaused || ShouldPause(s.pipe.options, s.pipe.store))
    && Offered(s) == input
  }

  /** From there both sides fall asleep. */
  lemma {:induction false} FallAsleep(init: Sys, before: seq<Action>, input: seq<byte>) returns (actions: seq<Action>)
    requires Inv(init) && Executes(init, before) && HandlerClient(init, before)
    requires Exhausted(After(init, before), input)
    ensures Executes(init, actions) && HandlerClient(init, actions)
    ensures Deadlocked(After(init, actions)) && BothStuck(After(init, actions)) && Offered(After(init, actions)) == input
  {
    hide Executes, After, HandlerClient, Readable, Content, ReaderInv, ShouldPause, Fill, CallOk;
    actions := before;
    var s := After(init, before);
    if !s.pipe.writerPaused {
      SpuriousResume(s.pipe, s.writer.call.Rest());
      actions := Extend(init, actions, WriterRuns(None));
      assert Offered(After(init, actions)) == input;
      actions := Extend(init, actions, WriterNotifiesReader);
    }
    var s1 := After(init, actions);
    assert s1.writer.WriterEnters? && s1.pipe.writerPaused && Offered(s1) == input;
    actions := Extend(init, actions, WriterRuns(None));
    assert Offered(After(init, actions)) == input;
    actions := Extend(init, actions, StartRead(0, false));
  }

  /** What the paused write leaves in the pipeline, and what is left of it once the complete lines are consumed. */
  ghost function FilledStore(o: Options, arena: bool, input: seq<byte>): (st: Store)
    requires OptionsOk(o)
    ensures Readable(o, st)
  {
    EmptyStoreOk(o, arena);
    FillKeeps(o, EmptyStore(o, arena), false, input, None);
    Fill(o, EmptyStore(o, arena), false, input, None).store
  }

  ghost function Partial(o: Options, st: Store): (r: Store)
    requires Readable(o, st)
    ensures Readable(o, r) && Content(r) == Tail(Content(st))
  {
    PartialIsTail(o, st);
    Consume(o, st, |Content(st)| - |Tail(Content(st))|)
  }

  lemma {:induction false} PartialIsTail(o: Options, st: Store)
    requires Readable(o, st)
    ensures var n := |Content(st)| - |Tail(Content(st))|;
            && n <= st.buffered
            && Readable(o, Consume(o, st, n)) && Content(Consume(o, st, n)) == Tail(Content(st))
  {
    hide Readable, Content, Consume, Tail;
    ContentLength(o, st);
    ConsumeKeeps(o, st, |Content(st)| - |Tail(Content(st))|);
    CompletePart(Content(st));
  }

  /** The handler reads and advances once. */
  lemma {:induction false} Exhaust(o: Options, arena: bool, input: seq<byte>) returns (actions: seq<Action>)
    requires OptionsOk(o) && |input| > MaxLive(o) * o.bufferSize
    requires o.bufferSize > o.resumeThreshold || ShouldPause(o, Partial(o, FilledStore(o, arena, input)))
    ensures Executes(Initial(o, arena), actions) && HandlerClient(Initial(o, arena), actions)
    ensures Exhausted(After(Initial(o, arena), actions), input)
  {
    hide Executes, After, HandlerRun, Initial, EmptyStore, Fill, MaxLive, Readable, Content, ReaderInv, Partial, ShouldPause;
    var init := Initial(o, arena);
    actions := PauseWriter(o, arena, input);
    var s := After(init, actions);
    NoAdvances(init, actions);
    assert HandlerClient(init, actions);
    assert Offered(s) == input && s.pipe.store == FilledStore(o, arena, input);
    if s.pipe.store.buffered > 0 {
      actions := OneRound(init, actions, input);
    } else {
      NothingPartial(o, s.pipe.store);
    }
  }

  lemma {:induction false} NothingPartial(o: Options, st: Store)
    requires Readable(o, st) && st.buffered == 0
    ensures Partial(o, st) == st
  {
  }

  lemma {:induction false} OneRound(init: Sys, before: seq<Action>, input: seq<byte>) returns (actions: seq<Action>)
    requires Inv(init) && Executes(init, before) && HandlerClient(init, before)
    requires var s := After(init, before);
             && s.writer.WriterEnters? && s.reader.ReaderIdle? && s.owedData == 0 && s.owedSpace == 0
             && !s.pipe.AnyCompleted() && !s.pipe.hasPendingRead && s.pipe.examined == 0 && s.pipe.store.buffered > 0
             && s.pipe.writerPaused && Offered(s) == input
             && (s.pipe.options.bufferSize > s.pipe.options.resumeThreshold
                 || ShouldPause(s.pipe.options, Partial(s.pipe.options, s.pipe.store)))
    ensures Executes(init, actions) && HandlerClient(init, actions) && Exhausted(After(init, actions), input)
  {
    hide Executes, After, HandlerClient, Readable, Content, Tail, ShouldPause, CallOk, Consume, SnapshotOk, ReadableSpans, TotalSize;
    var s := After(init, before);
    var st := s.pipe.store;
    SnapshotIsContent(s.pipe);
    actions := Extend(init, before, StartRead(0, false));
    var s1 := After(init, actions);
    var x, y := |Content(st)| - |Tail(Content(st))|, |Content(st)|;
    assert Seen(s1) == Content(st);
    AdvanceKeeps(s1.pipe, x, y);
    actions := Extend(init, actions, StartAdvance(x, y));
    var s2 := After(init, actions);
    ContentLength(s2.pipe.options, s2.pipe.store);
    assert s2.pipe.store == Partial(s.pipe.options, st);
    actions := Extend(init, actions, ReaderNotifiesWriter);
  }

  lemma {:induction false} JoinConcat(a: seq<seq<byte>>, b: seq<seq<byte>>)
    ensures JoinLines(a + b) == JoinLines(a) + JoinLines(b)
  {
    if a == [] {
      assert a + b == b;
    } else {
      JoinConcat(a[1..], b);
      assert (a + b)[0] == a[0] && (a + b)[1..] == a[1..] + b;
      Associative(a[0] + [LINE_FEED], JoinLines(a[1..]), JoinLines(b));
    }
  }

  /** `k` empty lines. */
  function EmptyLines(k: nat): (r: seq<seq<byte>>)
    ensures |r| == k && forall i :: 0 <= i < k ==> r[i] == []
  {
    seq(k, _ => [])
  }

  lemma {:induction false} EmptyLinesLength(k: nat)
    ensures |JoinLines(EmptyLines(k))| == k
  {
    if k > 0 {
      assert EmptyLines(k)[1..] == EmptyLines(k - 1);
      EmptyLinesLength(k - 1);
    }
  }

  lemma {:induction false} JoinedLinesFit(lines: seq<seq<byte>>, n: nat)
    requires forall i :: 0 <= i < |lines| ==> OneLine(lines[i]) && |lines[i]| + 1 <= n
    ensures LinesFit(JoinLines(lines), n)
  {
    hide SplitLines, Tail, JoinLines;
    SplitOfJoin(lines);
  }

  /** A line that starts at the last byte of a buffer and does not fit into that byte and the other buffers. */
  function LongLine(o: Options): (line: seq<byte>)
    requires OptionsOk(o) && MaxLive(o) > 0
    ensures |line| == (MaxLive(o) - 1) * o.bufferSize + 1 && OneLine(line)
  {
    seq((MaxLive(o) - 1) * o.bufferSize + 1, _ => 0)
  }

  function LongLines(o: Options): seq<seq<byte>>
    requires OptionsOk(o) && MaxLive(o) > 0
  {
    EmptyLines(o.bufferSize - 1) + [LongLine(o)]
  }

  /** All but the last newline fills the buffers exactly. */
  lemma {:induction false} LongLinesLayout(o: Options)
    requires OptionsOk(o) && MaxLive(o) > 0
    ensures var input, all := JoinLines(LongLines(o)), MaxLive(o) * o.bufferSize;
            && |input| == all + 1
            && input[..all] == JoinLines(EmptyLines(o.bufferSize - 1)) + LongLine(o)
            && Tail(input[..all]) == LongLine(o)
  {
    var empty, line := JoinLines(EmptyLines(o.bufferSize - 1)), LongLine(o);
    EmptyLinesLength(o.bufferSize - 1);
    JoinConcat(EmptyLines(o.bufferSize - 1), [line]);
    JoinCons(line, []);
    assert [line] + [] == [line] && JoinLines([]) == [];
    assert MaxLive(o) * o.bufferSize == (MaxLive(o) - 1) * o.bufferSize + o.bufferSize;
    SplitOfJoin(EmptyLines(o.bufferSize - 1));
    hide JoinLines, MaxLive, LongLine, EmptyLines, Tail;
    assert JoinLines(LongLines(o)) == empty + (line + [LINE_FEED]);
    assert JoinLines(LongLines(o))[..MaxLive(o) * o.bufferSize] == empty + line;
    SplitConcat(empty, line);
    assert [] + line == line;
    SplitNone(line);
  }

  /** A paused store of which nothing was consumed is full. */
  lemma {:induction false} PausedFromFresh(o: Options, st: Store)
    requires Readable(o, st) && ShouldPause(o, st) && UntrimmedFrom(st, 0) && MaxLive(o) > 0
    ensures !HasWritableTail(st) && |Content(st)| == MaxLive(o) * o.bufferSize
  {
    PausedIsFull(o, st);
    UntrimmedLess(st);
    hide Readable, UntrimmedFrom, MaxLive, Content;
    FullStore(o, st);
    ContentLength(o, st);
  }

  lemma {:induction false} FilledIsPrefix(o: Options, arena: bool, input: seq<byte>)
    requires OptionsOk(o)
    ensures UntrimmedFrom(FilledStore(o, arena, input), 0) && Content(FilledStore(o, arena, input)) <= input
  {
    EmptyStoreOk(o, arena);
    assert UntrimmedFrom(EmptyStore(o, arena), 0);
    hide Fill, Readable, Content, EmptyStore, UntrimmedFrom;
    FillKeeps(o, EmptyStore(o, arena), false, input, None);
    FillKeepsUntrimmed(o, EmptyStore(o, arena), false, input, None, 0);
    var r := Fill(o, EmptyStore(o, arena), false, input, None);
    assert [] + input[..r.copied] == input[..r.copied];
  }

  /** A write that is too long fills every buffer. */
  lemma {:induction false} FullFill(o: Options, arena: bool, input: seq<byte>)
    requires OptionsOk(o) && MaxLive(o) > 0 && |input| > MaxLive(o) * o.bufferSize
    ensures var st := FilledStore(o, arena, input);
            && UntrimmedFrom(st, 0) && !HasWritableTail(st)
            && Content(st) <= input && |Content(st)| == MaxLive(o) * o.bufferSize
  {
    OverfullTenure(o, arena, input);
    FilledIsPrefix(o, arena, input);
    assert ShouldPause(o, FilledStore(o, arena, input));
    hide FilledStore, Readable, Content, MaxLive, UntrimmedFrom, HasWritableTail, ShouldPause;
    PausedFromFresh(o, FilledStore(o, arena, input));
  }

  lemma {:induction false} UntrimmedLess(st: Store)
    requires UntrimmedFrom(st, 0)
    ensures UntrimmedFrom(st, 1)
  {
  }

  /** After the empty lines are consumed there is still no room. */
  lemma {:induction false} LongLineStays(o: Options, arena: bool)
    requires OptionsOk(o) && MaxLive(o) > 0
    ensures ShouldPause(o, Partial(o, FilledStore(o, arena, JoinLines(LongLines(o)))))
  {
    hide FilledStore, LongLines, LongLine, JoinLines, Readable, Content, Tail, UntrimmedFrom, Consume, MaxLive;
    var st := FilledStore(o, arena, JoinLines(LongLines(o)));
    LongLinesLayout(o);
    FullFill(o, arena, JoinLines(LongLines(o)));
    assert Content(st) == JoinLines(LongLines(o))[..MaxLive(o) * o.bufferSize];
    UntrimmedLess(st);
    ContentLength(o, st);
    ConsumeKeepsUntrimmed(o, st, |Content(st)| - |Tail(Content(st))|);
    StaysFull(o, Partial(o, st));
  }

  lemma {:induction false} StaysFull(o: Options, st: Store)
    requires Readable(o, st) && !HasWritableTail(st) && |Content(st)| > (MaxLive(o) - 1) * o.bufferSize
    ensures ShouldPause(o, st)
  {
    BufferedFits(o, st);
    NoRoomLeft(o, |st.segments|, |Content(st)|);
    hide AllocOk, Content, MaxLive;
  }

  lemma {:induction false} NoRoomLeft(o: Options, m: nat, size: nat)
    requires OptionsOk(o) && (MaxLive(o) - 1) * o.bufferSize < size <= m * o.bufferSize
    ensures m * o.bufferSize + o.bufferSize > o.pauseThreshold
  {
    var q, b := MaxLive(o), o.bufferSize;
    assert q * b + b > o.pauseThreshold;
    if m < q {
      MulLe(m, q - 1, b);
    } else {
      MulLe(q, m, b);
    }
  }

  /** The chat handler never deadlocks on streams whose lines have at most `n` bytes, newline included, exactly when a
      buffer fits under the resume threshold and `n` bytes fit into all the buffers but one, and one byte more: a line
      may start at the last byte of a buffer. */
  lemma {:induction false} LongLinesDeadlockIff(o: Options, arena: bool, n: nat)
    requires OptionsOk(o) && n > 0
    ensures (forall actions :: Executes(Initial(o, arena), actions) && HandlerClient(Initial(o, arena), actions)
                               && LinesFit(Offered(After(Initial(o, arena), actions)), n) ==>
               !Deadlocked(After(Initial(o, arena), actions)))
        <==> o.bufferSize <= o.resumeThreshold && n <= (MaxLive(o) - 1) * o.bufferSize + 1
  {
    hide Initial, Executes, After, HandlerClient, LinesFit, Deadlocked, BothStuck;
    var init := Initial(o, arena);
    if o.bufferSize <= o.resumeThreshold && n <= (MaxLive(o) - 1) * o.bufferSize + 1 {
      forall actions | Executes(init, actions) && HandlerClient(init, actions) && LinesFit(Offered(After(init, actions)), n)
        ensures !Deadlocked(After(init, actions))
      {
        ShortLinesFlow(o, arena, actions, n);
      }
    } else {
      var actions := DeadlockingRun(o, arena, n);
    }
  }

  /** The run in which a line that is too long, though within the bound, puts both sides to sleep for good. */
  lemma {:induction false} DeadlockingRun(o: Options, arena: bool, n: nat) returns (actions: seq<Action>)
    requires OptionsOk(o) && n > 0
    requires o.bufferSize > o.resumeThreshold || n > (MaxLive(o) - 1) * o.bufferSize + 1
    ensures Executes(Initial(o, arena), actions) && HandlerClient(Initial(o, arena), actions)
    ensures LinesFit(Offered(After(Initial(o, arena), actions)), n)
    ensures Deadlocked(After(Initial(o, arena), actions)) && BothStuck(After(Initial(o, arena), actions))
  {
    hide Initial, Executes, After, HandlerClient, LinesFit, Deadlocked, BothStuck, FilledStore, Partial, Exhausted, JoinLines, LongLines;
    var input: seq<byte>;
    if o.bufferSize > o.resumeThreshold {
      EmptyLinesLength(MaxLive(o) * o.bufferSize + 1);
      input := JoinLines(EmptyLines(MaxLive(o) * o.bufferSize + 1));
      JoinedLinesFit(EmptyLines(MaxLive(o) * o.bufferSize + 1), n);
    } else {
      CountFits(o, 1);
      LongLinesFit(o, n);
      LongLinesLayout(o);
      LongLineStays(o, arena);
      input := JoinLines(LongLines(o));
    }
    actions := Exhaust(o, arena, input);
    actions := FallAsleep(Initial(o, arena), actions, input);
  }

  lemma {:induction false} LongLinesFit(o: Options, n: nat)
    requires OptionsOk(o) && MaxLive(o) > 0 && n > (MaxLive(o) - 1) * o.bufferSize + 1
    ensures LinesFit(JoinLines(LongLines(o)), n)
  {
    MulLe(0, MaxLive(o) - 1, o.bufferSize);
    hide MaxLive, LinesFit, JoinLines, LongLine, EmptyLines;
    assert forall line :: line in LongLines(o) ==> OneLine(line) && |line| + 1 <= n;
    JoinedLinesFit(LongLines(o), n);
  }

  // ----- the whole stream -----

  /** The handler ran along these actions and handed over every line of the stream; only its tail is not consumed. */
  ghost predicate Delivers(init: Sys, actions: seq<Action>, stream: seq<byte>) {
    && Inv(init) && Executes(init, actions) && HandlerRun(init, actions)
    && Emitted(init, actions) == Commands(stream)
    && After(init, actions).consumed + Tail(stream) == stream
  }

  /** Once the handler has advanced past a completed snapshot, the lines it handed over are those of the whole stream. */
  lemma {:induction false} AllLinesDelivered(o: Options, arena: bool, before: seq<Action>) returns (all: seq<Action>)
    requires OptionsOk(o) && Executes(Initial(o, arena), before) && HandlerRun(Initial(o, arena), before)
    requires var s := After(Initial(o, arena), before);
             !s.pipe.readerCompleted && s.reader.ReaderHolds? && s.reader.snapshot.completed
    ensures var s := After(Initial(o, arena), before);
            all == before + [StartAdvance(|Seen(s)| - |Tail(Seen(s))|, |Seen(s)|)] && Delivers(Initial(o, arena), all, s.committed)
  {
    hide Executes, After, HandlerRun, Delivers, Tail, Seen, Inv;
    all := DeliveredFrom(Initial(o, arena), before);
  }

  lemma {:induction false} DeliveredFrom(init: Sys, before: seq<Action>) returns (all: seq<Action>)
    requires Inv(init) && init.consumed == [] && Executes(init, before) && HandlerRun(init, before)
    requires var s := After(init, before);
             !s.pipe.readerCompleted && s.reader.ReaderHolds? && s.reader.snapshot.completed
    ensures var s := After(init, before);
            all == before + [StartAdvance(|Seen(s)| - |Tail(Seen(s))|, |Seen(s)|)] && Delivers(init, all, s.committed)
  {
    hide Executes, After, Emitted, HandlerRun, HandlerAdvances, Inv, Commands, Tail, Seen, Step, Enabled;
    var s := After(init, before);
    var a := StartAdvance(|Seen(s)| - |Tail(Seen(s))|, |Seen(s)|);
    all := before + [a];
    NothingYet();
    LastAdvance(s, a);
    HandlerSnoc(init, before, a);
    RunFrames(init, before);
    RunFrames(init, all);
    assert [] + Emitted(init, all) == Emitted(init, all);
    WholeLines(s.consumed, Seen(s));
  }

  lemma {:induction false} NothingYet()
    ensures Commands([]) == [] && Tail([]) == []
  {
  }

  lemma {:induction false} WholeLines(consumed: seq<byte>, seen: seq<byte>)
    requires Tail(consumed) == []
    ensures var n := |seen| - |Tail(seen)|;
            && Commands(consumed + seen[..n]) == Commands(consumed + seen)
            && consumed + seen[..n] + Tail(consumed + seen) == consumed + seen
  {
    hide Commands, Tail;
    var n := |seen| - |Tail(seen)|;
    CompletePart(seen);
    CommandsConcat(consumed, seen);
    CommandsConcat(consumed, seen[..n]);
    Associative(consumed, seen[..n], Tail(seen));
    assert seen[..n] + seen[n..] == seen;
  }

  lemma {:induction false} LastAdvance(s: Sys, a: Action)
    requires Inv(s) && !s.pipe.readerCompleted && s.reader.ReaderHolds? && s.reader.snapshot.completed
    requires a == StartAdvance(|Seen(s)| - |Tail(Seen(s))|, |Seen(s)|)
    ensures Enabled(s, a) && HandlerAdvances(s, a) && !Step(s, a).pipe.readerCompleted
    ensures Step(s, a).consumed == s.consumed + Seen(s)[..a.consumed] && s.committed == s.consumed + Seen(s)
  {
    hide RepInv, WriterInv, ReaderInv, Tail, Content, Seen, Advance;
    SeenIsAll(s);
    AdvanceKeeps(s.pipe, a.consumed, a.examined);
  }

  /** A completed snapshot holds all the stored bytes. */
  lemma {:induction false} SeenIsAll(s: Sys)
    requires Inv(s) && !s.pipe.readerCompleted && s.reader.ReaderHolds? && s.reader.snapshot.completed
    ensures Seen(s) == Content(s.pipe.store) && s.committed == s.consumed + Seen(s)
    ensures s.pipe.hasPendingRead && s.pipe.pendingSize == |Seen(s)|
  {
    hide RepInv, SpansLive, Flat, WriterInv, Content;
    SeenIsPrefix(s);
    var n := s.reader.snapshot;
    assert s.committed[n.base..|s.committed|] == Content(s.pipe.store);
  }
}
