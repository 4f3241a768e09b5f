/** How much room a pipeline leaves for data that its reader has not consumed. */
module PipelineCapacity {
  import opened Bytes
  import opened PipelineStore
  import opened Pipeline
  import opened PipelineRuns
  import opened PipelineTheorems

  /** From segment `k` on, nothing of a buffer has been consumed yet. */
  predicate UntrimmedFrom(st: Store, k: nat) {
    forall i :: k <= i < |st.segments| ==> st.segments[i].readable.offset == st.segments[i].buffer.offset
  }

  lemma {:induction false} CommitKeepsUntrimmed(o: Options, st: Store, piece: seq<byte>, k: nat)
    requires Readable(o, st) && 0 < |piece| <= WriterCapacity(o, st) && UntrimmedFrom(st, k)
    ensures UntrimmedFrom(Commit(o, st, piece), k)
  {
    hide Readable, Allocate, MemCopy;
  }

  lemma {:induction false} FillKeepsUntrimmed(o: Options, st: Store, paused: bool, data: seq<byte>, limit: Option<nat>, k: nat)
    requires Readable(o, st) && UntrimmedFrom(st, k)
    ensures UntrimmedFrom(Fill(o, st, paused, data, limit).store, k)
    decreases |data|
  {
    hide Readable, UntrimmedFrom, WriterCapacity, Commit, ShouldPause;
    if !(data == [] || paused || limit == Some(0) || WriterCapacity(o, st) == 0) {
      var n := Min(|data|, WriterCapacity(o, st));
      CommitKeeps(o, st, data[..n]);
      CommitKeepsUntrimmed(o, st, data[..n], k);
      var st' := Commit(o, st, data[..n]);
      FillKeepsUntrimmed(o, st', ShouldPause(o, st'), data[n..], FewerRounds(limit), k);
    }
  }

  /** Consuming trims only the head, and gives the tail no room. */
  lemma {:induction false} ConsumeKeepsUntrimmed(o: Options, st: Store, n: nat)
    requires Readable(o, st) && n <= st.buffered && UntrimmedFrom(st, 1)
    ensures UntrimmedFrom(Consume(o, st, n), 1)
    ensures !HasWritableTail(st) ==> !HasWritableTail(Consume(o, st, n))
    decreases |st.segments|
  {
    if n > 0 && n >= st.segments[0].readable.size {
      PopKeeps(o, st);
      hide Readable, Deallocate;
      ConsumeKeepsUntrimmed(o, Pop(o, st), n - st.segments[0].readable.size);
    }
  }

  lemma {:induction false} FlatOfFull(chunks: seq<seq<byte>>, b: nat)
    requires forall i :: 0 <= i < |chunks| ==> |chunks[i]| == b
    ensures |Flat(chunks)| == |chunks| * b
  {
    if chunks != [] {
      FlatOfFull(chunks[1..], b);
      assert |chunks| * b == |chunks[1..]| * b + b;
    }
  }

  /** Without room in the tail, all the segments but a trimmed head are full of unread bytes. */
  lemma {:induction false} FullStore(o: Options, st: Store)
    requires Readable(o, st) && !HasWritableTail(st) && UntrimmedFrom(st, 1) && st.segments != []
    ensures st.buffered >= (|st.segments| - 1) * o.bufferSize + 1
    ensures UntrimmedFrom(st, 0) ==> st.buffered == |st.segments| * o.bufferSize
  {
    forall i | 0 <= i < |st.segments| ensures InMemory(st.mem, st.segments[i].readable) && SegmentOk(o, st.segments[i]) && st.segments[i].Full() {
      SegmentInMemory(o, st, i);
    }
    hide AllocOk, Flat;
    HeadAndRest(st.mem, st.segments);
    var chunks := Chunks(st.mem, st.segments);
    var rest := Chunks(st.mem, st.segments[1..]);
    FlatOfFull(rest, o.bufferSize);
    if UntrimmedFrom(st, 0) {
      FlatOfFull(chunks, o.bufferSize);
    }
  }

  /** A paused store holds as many segments as fit. */
  lemma {:induction false} PausedIsFull(o: Options, st: Store)
    requires Readable(o, st) && ShouldPause(o, st)
    ensures |st.segments| == MaxLive(o)
  {
    hide AllocOk, Content, MaxLive;
    CountIs(o, |st.segments|);
  }

  lemma {:induction false} CountIs(o: Options, m: nat)
    requires OptionsOk(o) && m * o.bufferSize <= o.pauseThreshold < m * o.bufferSize + o.bufferSize
    ensures m == MaxLive(o)
  {
    CountFits(o, m);
    var q, b := MaxLive(o), o.bufferSize;
    assert q * b <= o.pauseThreshold && (m + 1) * b == m * b + b;
    if m < q {
      MulLe(m + 1, q, b);
    }
  }
}
