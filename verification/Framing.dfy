/** Line framing of the chat sample over pipeline reads (samples/chat/connection_handler.h). */
module Framing {
  import opened Bytes
  import opened SegmentedView

  /** The newline-terminated lines of a stream, without their newlines. */
  function SplitLines(s: seq<byte>): seq<seq<byte>>
    decreases |s|
  {
    match IndexOfAny(s, [LINE_FEED])
    case None => []
    case Some(i) => [s[..i]] + SplitLines(s[i + 1..])
  }

  /** What follows the last newline. */
  function Tail(s: seq<byte>): (t: seq<byte>)
    ensures |t| <= |s|
    decreases |s|
  {
    match IndexOfAny(s, [LINE_FEED])
    case None => s
    case Some(i) => Tail(s[i + 1..])
  }

  function JoinLines(lines: seq<seq<byte>>): seq<byte> {
    if lines == [] then [] else lines[0] + [LINE_FEED] + JoinLines(lines[1..])
  }

  /** The first line of a stream and the rest. */
  lemma {:induction false} SplitFirst(s: seq<byte>, i: nat)
    requires IndexOfAny(s, [LINE_FEED]) == Some(i)
    ensures SplitLines(s) == [s[..i]] + SplitLines(s[i + 1..])
    ensures Tail(s) == Tail(s[i + 1..])
  {
  }

  lemma {:induction false} SplitNone(s: seq<byte>)
    requires IndexOfAny(s, [LINE_FEED]).None?
    ensures SplitLines(s) == [] && Tail(s) == s
  {
  }

  lemma {:induction false} JoinCons(line: seq<byte>, rest: seq<seq<byte>>)
    ensures JoinLines([line] + rest) == line + [LINE_FEED] + JoinLines(rest)
  {
  }

  predicate OneLine(line: seq<byte>) { LINE_FEED !in line }

  /** Splitting loses nothing: joining the lines and appending the tail gives the stream back. */
  lemma {:induction false} SplitRoundTrip(s: seq<byte>)
    ensures JoinLines(SplitLines(s)) + Tail(s) == s
    ensures OneLine(Tail(s))
    ensures forall i :: 0 <= i < |SplitLines(s)| ==> OneLine(SplitLines(s)[i])
    decreases |s|
  {
    var found := IndexOfAny(s, [LINE_FEED]);
    hide IndexOfAny, SplitLines, Tail, JoinLines;
    if found.Some? {
      var i := found.value;
      SplitFirst(s, i);
      SplitRoundTrip(s[i + 1..]);
      var line, rest, tail := s[..i], SplitLines(s[i + 1..]), Tail(s);
      JoinCons(line, rest);
      Associative(line + [LINE_FEED], JoinLines(rest), tail);
      assert s == line + [LINE_FEED] + s[i + 1..];
      assert JoinLines(SplitLines(s)) + tail == s;
    } else {
      SplitNone(s);
      JoinNothing();
      assert [] + s == s;
    }
  }

  lemma {:induction false} JoinNothing()
    ensures JoinLines([]) == []
  {
  }

  function StripReturn(line: seq<byte>): seq<byte> {
    if line != [] && line[|line| - 1] == CARRIAGE_RETURN then line[..|line| - 1] else line
  }

  /** Stripping undoes one appended carriage return and otherwise changes nothing. */
  lemma {:induction false} StripsOneReturn(line: seq<byte>)
    ensures StripReturn(line + [CARRIAGE_RETURN]) == line
    ensures StripReturn(line) == line || StripReturn(line) + [CARRIAGE_RETURN] == line
    ensures StripReturn(line) == line <==> line == [] || line[|line| - 1] != CARRIAGE_RETURN
  {
  }

  /** The lines that reach `parse_command`: one trailing carriage return removed, empty lines skipped. */
  function Handed(lines: seq<seq<byte>>): seq<seq<byte>> {
    if lines == [] then []
    else (if StripReturn(lines[0]) != [] then [StripReturn(lines[0])] else []) + Handed(lines[1..])
  }

  function Commands(s: seq<byte>): seq<seq<byte>> { Handed(SplitLines(s)) }

  lemma {:induction false} HandedConcat(a: seq<seq<byte>>, b: seq<seq<byte>>)
    ensures Handed(a + b) == Handed(a) + Handed(b)
  {
    if a == [] {
      assert a + b == b;
    } else {
      HandedConcat(a[1..], b);
      hide StripReturn;
      assert (a + b)[0] == a[0] && (a + b)[1..] == a[1..] + b;
      var first := if StripReturn(a[0]) != [] then [StripReturn(a[0])] else [];
      assert Handed(a) == first + Handed(a[1..]);
      assert Handed(a + b) == first + (Handed(a[1..]) + Handed(b));
      Associative(first, Handed(a[1..]), Handed(b));
    }
  }

  /** Splitting a stream at any point: the tail of the first part joins the second. */
  lemma {:induction false} SplitConcat(a: seq<byte>, b: seq<byte>)
    ensures SplitLines(a + b) == SplitLines(a) + SplitLines(Tail(a) + b)
    ensures Tail(a + b) == Tail(Tail(a) + b)
    decreases |a|
  {
    hide IndexOfAny, SplitLines, Tail;
    IndexOfAnyConcat(a, b, [LINE_FEED]);
    var found := IndexOfAny(a, [LINE_FEED]);
    if found.Some? {
      var i := found.value;
      assert (a + b)[..i] == a[..i] && (a + b)[i + 1..] == a[i + 1..] + b;
      SplitConcat(a[i + 1..], b);
      SplitFirst(a, i);
      SplitFirst(a + b, i);
      Associative([a[..i]], SplitLines(a[i + 1..]), SplitLines(Tail(a) + b));
      assert SplitLines(a + b) == SplitLines(a) + SplitLines(Tail(a) + b);
    } else {
      SplitNone(a);
      assert SplitLines(a) + SplitLines(a + b) == SplitLines(a + b);
    }
  }

  /** Without a pending tail, the commands of a concatenation are the commands of the parts. */
  lemma {:induction false} CommandsConcat(a: seq<byte>, b: seq<byte>)
    requires Tail(a) == []
    ensures Commands(a + b) == Commands(a) + Commands(b)
    ensures Tail(a + b) == Tail(b)
  {
    SplitConcat(a, b);
    assert [] + b == b;
    HandedConcat(SplitLines(a), SplitLines(b));
  }

  /** A stream is its complete lines followed by its tail; the complete lines alone have the same commands. */
  lemma {:induction false} CompletePart(s: seq<byte>)
    ensures var n := |s| - |Tail(s)|;
            && s[n..] == Tail(s)
            && Commands(s[..n]) == Commands(s)
            && Tail(s[..n]) == []
    decreases |s|
  {
    var n := |s| - |Tail(s)|;
    SplitRoundTrip(s);
    var joined := JoinLines(SplitLines(s));
    assert s[n..] == Tail(s) && s[..n] == joined;
    SplitOfJoin(SplitLines(s));
  }

  lemma {:induction false} SplitOfJoin(lines: seq<seq<byte>>)
    requires forall i :: 0 <= i < |lines| ==> OneLine(lines[i])
    ensures SplitLines(JoinLines(lines)) == lines && Tail(JoinLines(lines)) == []
  {
    if lines == [] {
    } else {
      var first, rest := lines[0], JoinLines(lines[1..]);
      SplitOfJoin(lines[1..]);
      var s := first + [LINE_FEED] + rest;
      assert JoinLines(lines) == s;
      FirstNewline(first, rest);
      SplitFirst(s, |first|);
      hide SplitLines, Tail, JoinLines, IndexOfAny;
      assert s[..|first|] == first && s[|first| + 1..] == rest;
      assert SplitLines(s) == [first] + lines[1..] == lines;
    }
  }

  lemma {:induction false} FirstNewline(first: seq<byte>, rest: seq<byte>)
    requires OneLine(first)
    ensures IndexOfAny(first + [LINE_FEED] + rest, [LINE_FEED]) == Some(|first|)
  {
    Associative(first, [LINE_FEED], rest);
    IndexOfAnyConcat(first, [LINE_FEED] + rest, [LINE_FEED]);
  }

  /** The inner loop of `process_incoming_data`: hands over the complete lines of a read, however it is segmented, and
      leaves the view on the tail. */
  method ProcessRead(data: SegmentedByteView) returns (handed: seq<seq<byte>>)
    requires data.Valid()
    modifies data
    ensures data.Valid()
    ensures handed == Commands(old(data.Content()))
    ensures data.Content() == Tail(old(data.Content()))
    ensures data.EndOffset() == old(data.EndOffset())
  {
    hide Flat, IndexOfAny, Commands, Tail, StripReturn;
    handed := [];
    ghost var all := data.Content();
    assert [] + Commands(all) == Commands(all);
    while true
      invariant data.Valid() && data.EndOffset() == old(data.EndOffset())
      invariant handed + Commands(data.Content()) == Commands(all)
      invariant Tail(data.Content()) == Tail(all)
      decreases data.size
    {
      ghost var content := data.Content();
      var newLine := data.PositionOf(LINE_FEED);
      if newLine.Missing? {
        NoLineLeft(content);
        assert handed + [] == handed;
        return;
      }
      ghost var i := newLine.offset - data.beginOffset;
      var line := TakeLine(data, newLine.offset);
      LineUnfolds(content, i);
      Associative(handed, if line != [] then [line] else [], Commands(content[i + 1..]));
      handed := handed + if line != [] then [line] else [];
      var ok := data.SliceInPlace(Between(newLine.offset + 1, data.EndOffset()));
      assert data.Content() == content[i + 1..];
    }
  }

  /** One line of the view: up to the newline, without a trailing carriage return. */
  method TakeLine(data: SegmentedByteView, newLine: nat) returns (line: seq<byte>)
    requires data.Valid() && data.beginOffset <= newLine <= data.EndOffset()
    ensures line == StripReturn(data.Content()[..newLine - data.beginOffset])
  {
    var sliced := data.Slice(UpTo(newLine));
    var view := sliced.value;
    if view.size != 0 {
      var last := view.AtFromEnd(1);
      if last == Ok(CARRIAGE_RETURN) {
        var shorter := view.Slice(UpTo(newLine - 1));
        view := shorter.value;
      }
    }
    line := view.ToString();
  }

  lemma {:induction false} NoLineLeft(content: seq<byte>)
    requires IndexOfAny(content, [LINE_FEED]).None?
    ensures Commands(content) == [] && Tail(content) == content
  {
  }

  lemma {:induction false} LineUnfolds(content: seq<byte>, i: nat)
    requires IndexOfAny(content, [LINE_FEED]) == Some(i)
    ensures var line := StripReturn(content[..i]);
            Commands(content) == (if line != [] then [line] else []) + Commands(content[i + 1..])
    ensures Tail(content) == Tail(content[i + 1..])
  {
  }
}

/** Line framing over every run of the pipeline. */
module FramingRuns {
  import opened Bytes
  import opened PipelineStore
  import opened Pipeline
  import opened PipelineRuns
  import opened Framing

  function Seen(s: Sys): seq<byte> {
    if s.reader.ReaderHolds? then Flat(s.reader.snapshot.pieces) else []
  }

  /** The handler advances past the complete lines of the snapshot it holds and has examined all of it. */
  predicate HandlerAdvances(s: Sys, a: Action) {
    a.StartAdvance? ==>
      && s.reader.ReaderHolds?
      && a.consumed == |Seen(s)| - |Tail(Seen(s))|
      && a.examined == |Seen(s)|
  }

  ghost predicate HandlerRun(s: Sys, actions: seq<Action>)
    requires Inv(s) && Executes(s, actions)
    decreases |actions|
  {
    actions != [] ==>
      HandlerAdvances(s, actions[0]) && (StepKeeps(s, actions[0]); HandlerRun(Step(s, actions[0]), actions[1..]))
  }

  /** The lines handed to `parse_command` over a run: those of each snapshot, when it is advanced. */
  ghost function Emitted(s: Sys, actions: seq<Action>): seq<seq<byte>>
    requires Inv(s) && Executes(s, actions)
    decreases |actions|
  {
    if actions == [] then []
    else
      StepKeeps(s, actions[0]);
      (if actions[0].StartAdvance? then Commands(Seen(s)) else []) + Emitted(Step(s, actions[0]), actions[1..])
  }

  /** One step: the commands of the consumed stream grow by what the step emits, and no partial line is consumed. */
  lemma {:induction false} StepFrames(s: Sys, a: Action)
    requires Inv(s) && Enabled(s, a) && HandlerAdvances(s, a) && !Step(s, a).pipe.readerCompleted
    requires Tail(s.consumed) == []
    ensures Tail(Step(s, a).consumed) == []
    ensures Commands(Step(s, a).consumed) == Commands(s.consumed) + if a.StartAdvance? then Commands(Seen(s)) else []
  {
    hide Content, Flat, Readable, Commands, Tail, SpansLive, CallOk;
    if a.StartAdvance? {
      var seen := Seen(s);
      AdvanceKeeps(s.pipe, a.consumed, a.examined);
      CompletePart(seen);
      SeenIsPrefix(s);
      var part := seen[..a.consumed];
      assert Content(s.pipe.store)[..a.consumed] == part;
      CommandsConcat(s.consumed, part);
    } else {
      assert Commands(s.consumed) + [] == Commands(s.consumed);
      StepConsumesOnlyByAdvance(s, a);
    }
  }

  lemma {:induction false} StepConsumesOnlyByAdvance(s: Sys, a: Action)
    requires Inv(s) && Enabled(s, a) && !a.StartAdvance?
    ensures Step(s, a).consumed == s.consumed
  {
  }

  /** The snapshot is a prefix of the stored bytes. */
  lemma {:induction false} SeenIsPrefix(s: Sys)
    requires Inv(s) && s.reader.ReaderHolds? && !s.pipe.readerCompleted
    ensures Seen(s) <= Content(s.pipe.store)
    ensures s.pipe.hasPendingRead && s.pipe.pendingSize == |Seen(s)|
  {
  }

  lemma {:induction false} ReaderStaysIncomplete(s: Sys, actions: seq<Action>)
    requires Inv(s) && Executes(s, actions) && !After(s, actions).pipe.readerCompleted
    ensures !s.pipe.readerCompleted
    decreases |actions|
  {
    hide Content, Flat, Readable, SnapshotOk, CallOk;
    if actions != [] {
      StepKeeps(s, actions[0]);
      ReaderStaysIncomplete(Step(s, actions[0]), actions[1..]);
      if actions[0].WriterRuns? {
        WriteKeeps(s.pipe, s.writer.call.Rest(), actions[0].limit);
      } else if actions[0].StartAdvance? {
        AdvanceKeeps(s.pipe, actions[0].consumed, actions[0].examined);
      }
    }
  }

  lemma {:induction false} RunFrames(s: Sys, actions: seq<Action>)
    requires Inv(s) && Executes(s, actions) && HandlerRun(s, actions) && !After(s, actions).pipe.readerCompleted
    requires Tail(s.consumed) == []
    ensures Tail(After(s, actions).consumed) == []
    ensures Commands(After(s, actions).consumed) == Commands(s.consumed) + Emitted(s, actions)
    decreases |actions|
  {
    hide Inv, Enabled, Step, Commands, Tail, HandlerAdvances;
    if actions == [] {
      assert Commands(s.consumed) + [] == Commands(s.consumed);
    } else {
      StepKeeps(s, actions[0]);
      var s1 := Step(s, actions[0]);
      ReaderStaysIncomplete(s1, actions[1..]);
      StepFrames(s, actions[0]);
      RunFrames(s1, actions[1..]);
      var now := if actions[0].StartAdvance? then Commands(Seen(s)) else [];
      assert Commands(s.consumed) + (now + Emitted(s1, actions[1..])) == (Commands(s.consumed) + now) + Emitted(s1, actions[1..]);
    }
  }

  /** Framing does not depend on chunking: for any writes, segments and reads, the lines handed over so far are those of
      the consumed stream, and together with the completed snapshot they are those of the whole committed stream. */
  lemma {:induction false} FramingIndependentOfChunks(o: Options, arena: bool, actions: seq<Action>)
    requires OptionsOk(o) && Executes(Initial(o, arena), actions) && HandlerRun(Initial(o, arena), actions)
    requires !After(Initial(o, arena), actions).pipe.readerCompleted
    ensures var s := After(Initial(o, arena), actions);
            var emitted := Emitted(Initial(o, arena), actions);
            && emitted == Commands(s.consumed)
            && (s.reader.ReaderHolds? && s.reader.snapshot.completed ==>
                  emitted + Commands(Seen(s)) == Commands(s.committed))
  {
    var init := Initial(o, arena);
    assert Commands([]) == [] && Tail([]) == [];
    RunFrames(init, actions);
    var s := After(init, actions);
    assert Commands(init.consumed) + Emitted(init, actions) == Emitted(init, actions);
    if s.reader.ReaderHolds? && s.reader.snapshot.completed {
      WholeStream(s);
    }
  }

  lemma {:induction false} WholeStream(s: Sys)
    requires Inv(s) && !s.pipe.readerCompleted && s.reader.ReaderHolds? && s.reader.snapshot.completed
    requires Tail(s.consumed) == []
    ensures Commands(s.committed) == Commands(s.consumed) + Commands(Seen(s))
  {
    hide Content, Flat, Readable, SpansLive, Commands, Tail;
    var n := s.reader.snapshot;
    assert s.committed[n.base..|s.committed|] == Content(s.pipe.store);
    assert Seen(s) == Content(s.pipe.store);
    CommandsConcat(s.consumed, Seen(s));
  }
}
