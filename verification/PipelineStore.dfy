/** The storage of a pipeline: memory, segments over it, and the two pool allocators
    (src/pipeline/data_segment.h and src/pipeline/custom_allocators). */
module PipelineStore {
  import opened Bytes

  // ----- memory -----

  /** Memory is a table of allocated blocks; a pointer names a block and an offset in it. */
  type Memory = seq<seq<byte>>

  datatype Pointer = Pointer(block: nat, offset: nat)

  datatype Span = Span(block: nat, offset: nat, size: nat)

  predicate InMemory(mem: Memory, s: Span) {
    s.block < |mem| && s.offset + s.size <= |mem[s.block]|
  }

  function Deref(mem: Memory, s: Span): (bytes: seq<byte>)
    ensures InMemory(mem, s) ==> |bytes| == s.size
  {
    if InMemory(mem, s) then mem[s.block][s.offset..s.offset + s.size] else []
  }

  predicate Disjoint(a: Span, b: Span) {
    a.block != b.block || a.offset + a.size <= b.offset || b.offset + b.size <= a.offset
  }

  function MemCopy(mem: Memory, block: nat, offset: nat, data: seq<byte>): Memory
    requires InMemory(mem, Span(block, offset, |data|))
  {
    mem[block := Patch(mem[block], offset, data)]
  }

  predicate SameShape(a: Memory, b: Memory) {
    |a| == |b| && forall k :: 0 <= k < |a| ==> |a[k]| == |b[k]|
  }

  lemma {:induction false} MemCopyElsewhere(mem: Memory, block: nat, offset: nat, data: seq<byte>, s: Span)
    requires InMemory(mem, Span(block, offset, |data|)) && Disjoint(s, Span(block, offset, |data|))
    ensures Deref(MemCopy(mem, block, offset, data), s) == Deref(mem, s)
  {
  }

  lemma {:induction false} MemCopyAppends(mem: Memory, s: Span, data: seq<byte>)
    requires InMemory(mem, Span(s.block, s.offset, s.size + |data|))
    ensures Deref(MemCopy(mem, s.block, s.offset + s.size, data), Span(s.block, s.offset, s.size + |data|))
         == Deref(mem, s) + data
  {
  }

  // ----- options -----

  datatype Options = Options(bufferSize: nat, pauseThreshold: nat, resumeThreshold: nat)

  /** The options that `validate_options` accepts. */
  predicate OptionsOk(o: Options) {
    o.bufferSize > 0 && o.pauseThreshold > 0 && o.resumeThreshold <= o.pauseThreshold
  }

  function MaxPooled(o: Options): nat
    requires OptionsOk(o)
  {
    o.pauseThreshold / o.bufferSize + if o.pauseThreshold % o.bufferSize != 0 then 1 else 0
  }

  /** How many whole buffers fit under the pause threshold. */
  function MaxLive(o: Options): nat
    requires OptionsOk(o)
  {
    o.pauseThreshold / o.bufferSize
  }

  /** The pool is sized to the least number of buffers that reach the pause threshold. */
  lemma {:induction false} PoolReachesThreshold(o: Options)
    requires OptionsOk(o)
    ensures 0 < MaxPooled(o) && (MaxPooled(o) - 1) * o.bufferSize < o.pauseThreshold <= MaxPooled(o) * o.bufferSize
  {
    var b, p := o.bufferSize, o.pauseThreshold;
    assert p == p / b * b + p % b;
    assert (p / b + 1) * b == p / b * b + b;
    if p % b == 0 {
      assert (p / b - 1) * b == p / b * b - b;
    }
  }

  lemma {:induction false} CountFits(o: Options, n: nat)
    requires OptionsOk(o) && n * o.bufferSize <= o.pauseThreshold
    ensures n <= MaxLive(o) <= MaxPooled(o)
  {
    var b, p := o.bufferSize, o.pauseThreshold;
    assert (p / b + 1) * b == p / b * b + b > p;
    if n > p / b {
      MulLe(p / b + 1, n, b);
    }
  }

  lemma MulLe(a: nat, b: nat, c: nat)
    requires a <= b
    ensures a * c <= b * c
  {
  }

  // ----- allocators -----

  /** `fixed_pool_resource` keeps a free list; `arena_pool_resource` moves byte offsets around one block. */
  datatype Allocator =
    | FixedPool(available: seq<Pointer>)
    | ArenaPool(head: nat, tail: nat, active: nat)

  /** `arena_pool_resource::advance`. */
  function RingNext(o: Options, offset: nat): nat
    requires OptionsOk(o)
  {
    var next := offset + o.bufferSize;
    if next == o.bufferSize * MaxPooled(o) then 0 else next
  }

  datatype Allocation = Allocation(mem: Memory, alloc: Allocator, buffer: Pointer)

  /** `do_allocate` of either resource. `::operator new` extends the block table. */
  function Allocate(o: Options, mem: Memory, alloc: Allocator): Allocation
    requires OptionsOk(o)
  {
    match alloc
    case FixedPool(available) =>
      if available == [] then
        Allocation(mem + [seq(o.bufferSize, _ => 0)], alloc, Pointer(|mem|, 0))
      else
        Allocation(mem, FixedPool(available[..|available| - 1]), available[|available| - 1])
    case ArenaPool(head, tail, active) =>
      Allocation(mem, ArenaPool(RingNext(o, head), tail, active + 1), Pointer(0, head))
  }

  /** `do_deallocate` discards a buffer only when the free list is full. */
  predicate Discards(o: Options, alloc: Allocator)
    requires OptionsOk(o)
  {
    alloc.FixedPool? && |alloc.available| >= MaxPooled(o)
  }

  function Deallocate(o: Options, alloc: Allocator, buffer: Pointer): Allocator
    requires OptionsOk(o)
    requires alloc.ArenaPool? ==> alloc.active > 0
  {
    match alloc
    case FixedPool(available) =>
      if |available| < MaxPooled(o) then FixedPool(available + [buffer]) else alloc
    case ArenaPool(head, tail, active) =>
      ArenaPool(head, RingNext(o, tail), active - 1)
  }

  predicate Distinct(s: seq<Pointer>) {
    forall i, j :: 0 <= i < j < |s| ==> s[i] != s[j]
  }

  predicate WholeBlock(mem: Memory, p: Pointer) {
    p.offset == 0 && p.block < |mem|
  }

  /** Fixed pool: free and live buffers are different whole blocks, and together they are every block ever created. */
  predicate FixedOk(o: Options, mem: Memory, available: seq<Pointer>, live: seq<Pointer>)
    requires OptionsOk(o)
  {
    && (forall k :: 0 <= k < |mem| ==> |mem[k]| == o.bufferSize)
    && Distinct(available) && Distinct(live)
    && (forall i :: 0 <= i < |available| ==> WholeBlock(mem, available[i]) && available[i] !in live)
    && (forall i :: 0 <= i < |live| ==> WholeBlock(mem, live[i]))
    && |available| + |live| == |mem| <= MaxLive(o)
  }

  function RingIndex(size: nat, start: nat, i: nat): nat
    requires start < size && i <= size
  {
    if start + i < size then start + i else start + i - size
  }

  /** Arena: the live buffers are the ring window from tail to head, oldest first. */
  predicate RingWindow(o: Options, alloc: Allocator, live: seq<Pointer>, start: nat)
    requires OptionsOk(o) && alloc.ArenaPool?
  {
    var size := MaxPooled(o);
    && start < size && |live| <= size
    && alloc.active == |live|
    && alloc.tail == start * o.bufferSize
    && alloc.head == RingIndex(size, start, |live|) * o.bufferSize
    && forall i :: 0 <= i < |live| ==> live[i] == Pointer(0, RingIndex(size, start, i) * o.bufferSize)
  }

  ghost predicate AllocOk(o: Options, mem: Memory, alloc: Allocator, live: seq<Pointer>)
    requires OptionsOk(o)
  {
    match alloc
    case FixedPool(available) => FixedOk(o, mem, available, live)
    case ArenaPool(_, _, _) =>
      && |mem| == 1 && |mem[0]| == o.bufferSize * MaxPooled(o)
      && exists start: nat :: RingWindow(o, alloc, live, start)
  }

  lemma {:induction false} SlotsApart(i: nat, j: nat, size: nat, b: nat)
    requires i != j && i < size && j < size
    ensures i * b + b <= j * b || j * b + b <= i * b
    ensures i * b + b <= b * size
  {
    MulLe(i + 1, size, b);
    if i < j {
      MulLe(i + 1, j, b);
    } else {
      MulLe(j + 1, i, b);
    }
  }

  function BufferSpan(o: Options, p: Pointer): Span {
    Span(p.block, p.offset, o.bufferSize)
  }

  /** Live buffers lie in memory and never overlap, whichever allocator issued them. */
  lemma {:induction false} LiveDisjoint(o: Options, mem: Memory, alloc: Allocator, live: seq<Pointer>, i: nat, j: nat)
    requires OptionsOk(o) && AllocOk(o, mem, alloc, live)
    requires i < |live| && j < |live|
    ensures InMemory(mem, BufferSpan(o, live[i]))
    ensures i != j ==> Disjoint(BufferSpan(o, live[i]), BufferSpan(o, live[j]))
  {
    match alloc
    case FixedPool(available) =>
    case ArenaPool(_, _, _) =>
      var start: nat :| RingWindow(o, alloc, live, start);
      var size := MaxPooled(o);
      var other := if i != j then RingIndex(size, start, j) else if RingIndex(size, start, i) == 0 then 1 else 0;
      if size > 1 {
        SlotsApart(RingIndex(size, start, i), other, size, o.bufferSize);
      }
  }

  /** An allocation under the pause threshold keeps the allocator sound and never returns a live buffer;
      in the arena the capacity assertion holds. */
  lemma {:induction false} AllocateKeeps(o: Options, mem: Memory, alloc: Allocator, live: seq<Pointer>)
    requires OptionsOk(o) && AllocOk(o, mem, alloc, live)
    requires (|live| + 1) * o.bufferSize <= o.pauseThreshold
    ensures var a := Allocate(o, mem, alloc);
            && AllocOk(o, a.mem, a.alloc, live + [a.buffer])
            && a.buffer !in live
            && |mem| <= |a.mem| && a.mem[..|mem|] == mem
            && (alloc.ArenaPool? ==> alloc.active != MaxPooled(o))
  {
    CountFits(o, |live| + 1);
    match alloc
    case FixedPool(available) =>
      if available == [] {
        FixedCreate(o, mem, live);
      } else {
        FixedReissue(o, mem, available, live);
      }
    case ArenaPool(head, tail, active) =>
      var start: nat :| RingWindow(o, alloc, live, start);
      RingAllocate(o, alloc, live, start);
  }

  lemma {:induction false} FixedCreate(o: Options, mem: Memory, live: seq<Pointer>)
    requires OptionsOk(o) && FixedOk(o, mem, [], live) && |live| + 1 <= MaxLive(o)
    ensures FixedOk(o, mem + [seq(o.bufferSize, _ => 0)], [], live + [Pointer(|mem|, 0)])
    ensures Pointer(|mem|, 0) !in live
  {
  }

  lemma {:induction false} FixedReissue(o: Options, mem: Memory, available: seq<Pointer>, live: seq<Pointer>)
    requires OptionsOk(o) && FixedOk(o, mem, available, live) && available != []
    ensures FixedOk(o, mem, available[..|available| - 1], live + [available[|available| - 1]])
    ensures available[|available| - 1] !in live
  {
  }

  lemma {:induction false} RingAllocate(o: Options, alloc: Allocator, live: seq<Pointer>, start: nat)
    requires OptionsOk(o) && alloc.ArenaPool? && RingWindow(o, alloc, live, start) && |live| < MaxPooled(o)
    ensures RingWindow(o, Allocate(o, [], alloc).alloc, live + [Pointer(0, alloc.head)], start)
    ensures Pointer(0, alloc.head) !in live
  {
    var size, b := MaxPooled(o), o.bufferSize;
    var h := RingIndex(size, start, |live|);
    RingStep(o, h);
    assert RingIndex(size, start, |live| + 1) == if h + 1 == size then 0 else h + 1;
    forall i | 0 <= i < |live| ensures live[i] != Pointer(0, alloc.head) {
      SlotsApart(RingIndex(size, start, i), h, size, b);
    }
  }

  /** Advancing a byte offset by one buffer advances the slot index around the ring. */
  lemma {:induction false} RingStep(o: Options, slot: nat)
    requires OptionsOk(o) && slot < MaxPooled(o)
    ensures RingNext(o, slot * o.bufferSize) == (if slot + 1 == MaxPooled(o) then 0 else slot + 1) * o.bufferSize
  {
    var size, b := MaxPooled(o), o.bufferSize;
    assert slot * b + b == (slot + 1) * b;
    if slot + 1 != size {
      MulLe(slot + 2, size, b);
      assert (slot + 2) * b == (slot + 1) * b + b;
    }
  }

  /** Freeing the oldest live buffer keeps the allocator sound and never discards the buffer. */
  lemma {:induction false} DeallocateKeeps(o: Options, mem: Memory, alloc: Allocator, live: seq<Pointer>)
    requires OptionsOk(o) && AllocOk(o, mem, alloc, live) && live != []
    ensures !Discards(o, alloc)
    ensures alloc.ArenaPool? ==> alloc.active > 0
    ensures AllocOk(o, mem, Deallocate(o, alloc, live[0]), live[1..])
  {
    match alloc
    case FixedPool(available) =>
      assert live == [live[0]] + live[1..];
    case ArenaPool(head, tail, active) =>
      var start: nat :| RingWindow(o, alloc, live, start);
      var size := MaxPooled(o);
      RingStep(o, start);
      var next := if start + 1 == size then 0 else start + 1;
      assert RingWindow(o, Deallocate(o, alloc, live[0]), live[1..], next);
  }

  // ----- segments -----

  /** `data_segment`: a buffer with a readable part followed by a writable part. */
  datatype Segment = Segment(buffer: Pointer, capacity: nat, readable: Span, writable: Span) {
    predicate Full() { writable.size == 0 }
  }

  function NewSegment(buffer: Pointer, size: nat): Segment {
    Segment(buffer, size, Span(buffer.block, buffer.offset, 0), Span(buffer.block, buffer.offset, size))
  }

  /** The readable part ends where the writable part begins, and both lie in the buffer. */
  predicate SegmentOk(o: Options, s: Segment) {
    && s.capacity == o.bufferSize
    && s.readable.block == s.writable.block == s.buffer.block
    && s.buffer.offset <= s.readable.offset
    && s.readable.offset + s.readable.size == s.writable.offset
    && s.writable.offset + s.writable.size == s.buffer.offset + s.capacity
  }

  /** `copy_from` on the spans; the bytes go to the start of the writable part. */
  function Grow(s: Segment, count: nat): Segment
    requires count <= s.writable.size
  {
    s.(readable := s.readable.(size := s.readable.size + count),
       writable := Span(s.writable.block, s.writable.offset + count, s.writable.size - count))
  }

  /** `advance_read`. */
  function Shrink(s: Segment, count: nat): Segment
    requires count <= s.readable.size
  {
    s.(readable := Span(s.readable.block, s.readable.offset + count, s.readable.size - count))
  }

  function Buffers(segments: seq<Segment>): (r: seq<Pointer>)
    ensures |r| == |segments|
  {
    seq(|segments|, i requires 0 <= i < |segments| => segments[i].buffer)
  }

  /** The readable bytes of each segment, as `make_readable_view` lists them. */
  function Chunks(mem: Memory, segments: seq<Segment>): (r: seq<seq<byte>>)
    ensures |r| == |segments|
  {
    seq(|segments|, i requires 0 <= i < |segments| => Deref(mem, segments[i].readable))
  }

  /** The unconsumed bytes of the stream. */
  function Unread(mem: Memory, segments: seq<Segment>): seq<byte> {
    Flat(Chunks(mem, segments))
  }

  // ----- the segment deque and its counters -----

  datatype Store = Store(mem: Memory, alloc: Allocator, segments: seq<Segment>, buffered: nat, actual: nat)

  function Content(st: Store): seq<byte> { Unread(st.mem, st.segments) }

  /** The counters, the non-full-tail rule and allocator ownership agree with the segments. */
  ghost predicate StoreOk(o: Options, st: Store) {
    && OptionsOk(o)
    && AllocOk(o, st.mem, st.alloc, Buffers(st.segments))
    && (forall i :: 0 <= i < |st.segments| ==> SegmentOk(o, st.segments[i]))
    && (forall i :: 0 <= i < |st.segments| - 1 ==> st.segments[i].Full())
    && st.actual == |st.segments| * o.bufferSize <= o.pauseThreshold
    && st.buffered == |Content(st)|
  }

  /** Between operations every segment also has something to read. */
  ghost predicate Readable(o: Options, st: Store) {
    StoreOk(o, st) && forall i :: 0 <= i < |st.segments| ==> st.segments[i].readable.size > 0
  }

  predicate HasWritableTail(st: Store) {
    st.segments != [] && !st.segments[|st.segments| - 1].Full()
  }

  function AllocationCapacity(o: Options, st: Store): nat {
    if st.actual < o.pauseThreshold then o.pauseThreshold - st.actual else 0
  }

  function WriterCapacity(o: Options, st: Store): nat {
    if HasWritableTail(st) then st.segments[|st.segments| - 1].writable.size
    else if AllocationCapacity(o, st) >= o.bufferSize then o.bufferSize
    else 0
  }

  predicate ShouldPause(o: Options, st: Store) {
    !HasWritableTail(st) && AllocationCapacity(o, st) < o.bufferSize
  }

  /** The writer has no capacity exactly when it should pause. */
  lemma {:induction false} NoCapacityMeansPause(o: Options, st: Store)
    requires OptionsOk(o)
    ensures WriterCapacity(o, st) == 0 <==> ShouldPause(o, st)
  {
  }

  lemma {:induction false} SegmentInMemory(o: Options, st: Store, i: nat)
    requires StoreOk(o, st) && i < |st.segments|
    ensures InMemory(st.mem, st.segments[i].readable)
    ensures InMemory(st.mem, st.segments[i].writable)
  {
    LiveDisjoint(o, st.mem, st.alloc, Buffers(st.segments), i, i);
  }

  /** `get_segment`: appends a segment over a newly allocated buffer unless the tail has room. */
  function GetSegment(o: Options, st: Store): Store
    requires OptionsOk(o)
  {
    if HasWritableTail(st) then st
    else
      var a := Allocate(o, st.mem, st.alloc);
      Store(a.mem, a.alloc, st.segments + [NewSegment(a.buffer, o.bufferSize)], st.buffered, st.actual + o.bufferSize)
  }

  lemma {:induction false} GetSegmentKeeps(o: Options, st: Store)
    requires Readable(o, st) && WriterCapacity(o, st) > 0
    ensures var st' := GetSegment(o, st);
            && StoreOk(o, st') && HasWritableTail(st')
            && st'.segments[|st'.segments| - 1].writable.size == WriterCapacity(o, st)
            && Content(st') == Content(st)
            && st.segments <= st'.segments && |st'.segments| <= |st.segments| + 1
            && (forall i :: 0 <= i < |st.segments| ==>
                  Deref(st'.mem, st.segments[i].readable) == Deref(st.mem, st.segments[i].readable))
  {
    hide AllocOk, Allocate, Flat;
    if !HasWritableTail(st) {
      var st' := GetSegment(o, st);
      var added := st'.segments[|st.segments|];
      assert (|st.segments| + 1) * o.bufferSize == |st.segments| * o.bufferSize + o.bufferSize;
      AllocateKeeps(o, st.mem, st.alloc, Buffers(st.segments));
      assert Buffers(st'.segments) == Buffers(st.segments) + [added.buffer];
      forall i | 0 <= i < |st.segments|
        ensures Deref(st'.mem, st.segments[i].readable) == Deref(st.mem, st.segments[i].readable)
      {
        SegmentInMemory(o, st, i);
        assert st'.mem[..|st.mem|][st.segments[i].readable.block] == st.mem[st.segments[i].readable.block];
      }
      assert Deref(st'.mem, added.readable) == [];
      assert Chunks(st'.mem, st'.segments) == Chunks(st.mem, st.segments) + [[]];
      FlatConcat(Chunks(st.mem, st.segments), [[]]);
      FlatOne([]);
      assert Content(st') == Content(st) + [];
    }
  }

  /** `copy_from` on the tail segment. */
  function CopyToTail(o: Options, st: Store, data: seq<byte>): Store
    requires HasWritableTail(st) && |data| <= st.segments[|st.segments| - 1].writable.size
    requires InMemory(st.mem, st.segments[|st.segments| - 1].writable)
  {
    var last := |st.segments| - 1;
    var tail := st.segments[last];
    Store(MemCopy(st.mem, tail.writable.block, tail.writable.offset, data), st.alloc,
          st.segments[last := Grow(tail, |data|)], st.buffered + |data|, st.actual)
  }

  /** The bytes a copy overwrites belong to no readable part. */
  lemma {:induction false} WritableIsNotReadable(o: Options, st: Store, data: seq<byte>, i: nat, s: Span)
    requires StoreOk(o, st) && HasWritableTail(st) && |data| <= st.segments[|st.segments| - 1].writable.size
    requires i < |st.segments| && Covers(st, i, s)
    ensures InMemory(st.mem, st.segments[|st.segments| - 1].writable)
    ensures Deref(CopyToTail(o, st, data).mem, s) == Deref(st.mem, s)
  {
    var last := |st.segments| - 1;
    var w := st.segments[last].writable;
    SegmentInMemory(o, st, last);
    LiveDisjoint(o, st.mem, st.alloc, Buffers(st.segments), i, last);
    MemCopyElsewhere(st.mem, w.block, w.offset, data, s);
  }

  /** Span `s` is a prefix of the readable part of segment `i`, as in a snapshot taken earlier. */
  predicate Covers(st: Store, i: nat, s: Span) {
    && i < |st.segments|
    && s.block == st.segments[i].readable.block && s.offset == st.segments[i].readable.offset
    && s.size <= st.segments[i].readable.size
  }

  lemma {:induction false} AllocFrame(o: Options, mem: Memory, mem': Memory, alloc: Allocator, live: seq<Pointer>)
    requires OptionsOk(o) && AllocOk(o, mem, alloc, live) && SameShape(mem, mem')
    ensures AllocOk(o, mem', alloc, live)
  {
  }

  lemma {:induction false} CopyToTailKeeps(o: Options, st: Store, data: seq<byte>)
    requires StoreOk(o, st) && HasWritableTail(st) && |data| <= st.segments[|st.segments| - 1].writable.size
    ensures InMemory(st.mem, st.segments[|st.segments| - 1].writable)
    ensures StoreOk(o, CopyToTail(o, st, data)) && Content(CopyToTail(o, st, data)) == Content(st) + data
  {
    hide AllocOk, Flat;
    var last := |st.segments| - 1;
    var tail := st.segments[last];
    SegmentInMemory(o, st, last);
    var st' := CopyToTail(o, st, data);
    AllocFrame(o, st.mem, st'.mem, st.alloc, Buffers(st.segments));
    assert Buffers(st'.segments) == Buffers(st.segments);
    CopyToTailContent(o, st, data);
  }

  lemma {:induction false} CopyToTailContent(o: Options, st: Store, data: seq<byte>)
    requires StoreOk(o, st) && HasWritableTail(st) && |data| <= st.segments[|st.segments| - 1].writable.size
    requires InMemory(st.mem, st.segments[|st.segments| - 1].writable)
    ensures Content(CopyToTail(o, st, data)) == Content(st) + data
  {
    var last := |st.segments| - 1;
    assert SegmentOk(o, st.segments[last]);
    hide StoreOk, Flat, InMemory, Disjoint;
    var st' := CopyToTail(o, st, data);
    var chunks, chunks' := Chunks(st.mem, st.segments), Chunks(st'.mem, st'.segments);
    forall i | 0 <= i < last ensures chunks'[i] == chunks[i] {
      WritableIsNotReadable(o, st, data, i, st.segments[i].readable);
    }
    TailChunkGrows(o, st, data);
    LastChunkGrows(chunks, chunks', data);
  }

  lemma {:induction false} TailChunkGrows(o: Options, st: Store, data: seq<byte>)
    requires StoreOk(o, st) && HasWritableTail(st) && |data| <= st.segments[|st.segments| - 1].writable.size
    requires InMemory(st.mem, st.segments[|st.segments| - 1].writable)
    ensures var st', last := CopyToTail(o, st, data), |st.segments| - 1;
            Deref(st'.mem, st'.segments[last].readable) == Deref(st.mem, st.segments[last].readable) + data
  {
    assert SegmentOk(o, st.segments[|st.segments| - 1]);
    hide StoreOk, Deref, MemCopy;
    MemCopyAppends(st.mem, st.segments[|st.segments| - 1].readable, data);
  }

  lemma {:induction false} LastChunkGrows(chunks: seq<seq<byte>>, chunks': seq<seq<byte>>, data: seq<byte>)
    requires |chunks'| == |chunks| > 0
    requires forall i :: 0 <= i < |chunks| - 1 ==> chunks'[i] == chunks[i]
    requires chunks'[|chunks| - 1] == chunks[|chunks| - 1] + data
    ensures Flat(chunks') == Flat(chunks) + data
  {
    var last := |chunks| - 1;
    FlatAt(chunks, last);
    FlatAt(chunks', last);
    assert chunks[..last] == chunks'[..last] && chunks[..last + 1] == chunks && chunks'[..last + 1] == chunks';
    Associative(Flat(chunks[..last]), chunks[last], data);
    assert Flat(chunks') == Flat(chunks[..last]) + (chunks[last] + data);
  }

  lemma {:induction false} ReadableOptions(o: Options, st: Store)
    requires Readable(o, st)
    ensures OptionsOk(o)
  {
  }

  /** One round of the inner loop of `write`: the piece lands in one segment. */
  function Commit(o: Options, st: Store, piece: seq<byte>): Store
    requires Readable(o, st) && 0 < |piece| <= WriterCapacity(o, st)
  {
    GetSegmentKeeps(o, st);
    CopyToTailKeeps(o, GetSegment(o, st), piece);
    CopyToTail(o, GetSegment(o, st), piece)
  }

  lemma {:induction false} CommitKeeps(o: Options, st: Store, piece: seq<byte>)
    requires Readable(o, st) && 0 < |piece| <= WriterCapacity(o, st)
    ensures Readable(o, Commit(o, st, piece))
    ensures Content(Commit(o, st, piece)) == Content(st) + piece
    ensures Commit(o, st, piece).actual >= st.actual
  {
    GetSegmentKeeps(o, st);
    CopyToTailKeeps(o, GetSegment(o, st), piece);
  }

  /** A commit leaves every byte of an earlier snapshot where it was. */
  lemma {:induction false} CommitPreserves(o: Options, st: Store, piece: seq<byte>, i: nat, s: Span)
    requires Readable(o, st) && 0 < |piece| <= WriterCapacity(o, st) && Covers(st, i, s)
    ensures Covers(Commit(o, st, piece), i, s)
    ensures Deref(Commit(o, st, piece).mem, s) == Deref(st.mem, s)
  {
    var grown := GetSegment(o, st);
    GetSegmentKeeps(o, st);
    SegmentInMemory(o, st, i);
    PrefixUnchanged(st.mem, grown.mem, st.segments[i].readable, s);
    WritableIsNotReadable(o, grown, piece, i, s);
  }

  lemma {:induction false} PrefixUnchanged(mem: Memory, mem': Memory, whole: Span, s: Span)
    requires InMemory(mem, whole) && Deref(mem, whole) == Deref(mem', whole) && whole.size > 0
    requires s.block == whole.block && s.offset == whole.offset && s.size <= whole.size
    ensures Deref(mem', s) == Deref(mem, s)
  {
    var n := s.size;
    assert InMemory(mem', whole);
    SliceOfSlice(mem[s.block], s.offset, s.offset + whole.size, 0, n);
    SliceOfSlice(mem'[s.block], s.offset, s.offset + whole.size, 0, n);
  }

  datatype FillResult = FillResult(store: Store, paused: bool, copied: nat, stopped: bool)

  /** The inner loop of `write` under one lock tenure; `limit` is the number of rounds after which the
      stop token is seen stopped, if it is. */
  function Fill(o: Options, st: Store, paused: bool, data: seq<byte>, limit: Option<nat>): FillResult
    requires Readable(o, st)
    decreases |data|
  {
    if data == [] || paused then FillResult(st, paused, 0, false)
    else if limit == Some(0) then FillResult(st, paused, 0, true)
    else
      var capacity := WriterCapacity(o, st);
      if capacity == 0 then FillResult(st, true, 0, false)
      else
        var n := Min(|data|, capacity);
        var st' := Commit(o, st, data[..n]);
        CommitKeeps(o, st, data[..n]);
        var rest := Fill(o, st', ShouldPause(o, st'), data[n..], FewerRounds(limit));
        rest.(copied := n + rest.copied)
  }

  function FewerRounds(limit: Option<nat>): Option<nat> {
    if limit.Some? && limit.value > 0 then Some(limit.value - 1) else limit
  }

  lemma {:induction false} FillKeeps(o: Options, st: Store, paused: bool, data: seq<byte>, limit: Option<nat>)
    requires Readable(o, st)
    ensures var r := Fill(o, st, paused, data, limit);
            && Readable(o, r.store)
            && r.copied <= |data|
            && Content(r.store) == Content(st) + data[..r.copied]
            && (r.stopped ==> limit.Some?)
            && (!r.stopped ==> r.copied == |data| || r.paused)
            && (r.paused && !paused ==> ShouldPause(o, r.store))
            && (paused ==> r.copied == 0)
    decreases |data|
  {
    hide Readable, StoreOk, Content, WriterCapacity, ShouldPause, Commit;
    if data == [] || paused || limit == Some(0) {
      assert Content(st) + data[..0] == Content(st);
    } else {
      var capacity := WriterCapacity(o, st);
      ReadableOptions(o, st);
      NoCapacityMeansPause(o, st);
      if capacity == 0 {
        assert Content(st) + data[..0] == Content(st);
      } else {
        var n := Min(|data|, capacity);
        var st' := Commit(o, st, data[..n]);
        CommitKeeps(o, st, data[..n]);
        FillKeeps(o, st', ShouldPause(o, st'), data[n..], FewerRounds(limit));
        var rest := Fill(o, st', ShouldPause(o, st'), data[n..], FewerRounds(limit));
        Associative(Content(st), data[..n], data[n..][..rest.copied]);
        PrefixThen(data, n, rest.copied);
      }
    }
  }

  lemma {:induction false} FillPreserves(
    o: Options, st: Store, paused: bool, data: seq<byte>, limit: Option<nat>, i: nat, s: Span)
    requires Readable(o, st) && Covers(st, i, s)
    ensures Covers(Fill(o, st, paused, data, limit).store, i, s)
    ensures Deref(Fill(o, st, paused, data, limit).store.mem, s) == Deref(st.mem, s)
    decreases |data|
  {
    if data == [] || paused || limit == Some(0) || WriterCapacity(o, st) == 0 {
    } else {
      var n := Min(|data|, WriterCapacity(o, st));
      var st' := Commit(o, st, data[..n]);
      CommitKeeps(o, st, data[..n]);
      CommitPreserves(o, st, data[..n], i, s);
      FillPreserves(o, st', ShouldPause(o, st'), data[n..], FewerRounds(limit), i, s);
    }
  }

  /** `pop_front` of the deque: the segment's destructor returns its buffer. */
  function Pop(o: Options, st: Store): Store
    requires Readable(o, st) && st.segments != []
  {
    PopKeeps(o, st);
    var head := st.segments[0];
    Store(st.mem, Deallocate(o, st.alloc, head.buffer), st.segments[1..],
          st.buffered - head.readable.size, st.actual - o.bufferSize)
  }

  lemma {:induction false} PopKeeps(o: Options, st: Store)
    requires Readable(o, st) && st.segments != []
    ensures st.alloc.ArenaPool? ==> st.alloc.active > 0
    ensures !Discards(o, st.alloc)
    ensures st.segments[0].readable.size <= st.buffered && o.bufferSize <= st.actual
    ensures var head := st.segments[0];
            var st' := Store(st.mem, Deallocate(o, st.alloc, head.buffer), st.segments[1..],
                             st.buffered - head.readable.size, st.actual - o.bufferSize);
            Readable(o, st') && Content(st') == Content(st)[head.readable.size..]
  {
    hide AllocOk, Deallocate, Discards, SegmentOk, Unread, InMemory;
    var head := st.segments[0];
    SegmentInMemory(o, st, 0);
    DeallocateKeeps(o, st.mem, st.alloc, Buffers(st.segments));
    assert Buffers(st.segments)[1..] == Buffers(st.segments[1..]) && Buffers(st.segments)[0] == head.buffer;
    HeadAndRest(st.mem, st.segments);
    assert |st.segments| * o.bufferSize == |st.segments[1..]| * o.bufferSize + o.bufferSize;
  }

  lemma {:induction false} HeadAndRest(mem: Memory, segments: seq<Segment>)
    requires segments != []
    ensures Unread(mem, segments) == Deref(mem, segments[0].readable) + Unread(mem, segments[1..])
    ensures Unread(mem, segments)[|Deref(mem, segments[0].readable)|..] == Unread(mem, segments[1..])
  {
    var chunks := Chunks(mem, segments);
    assert chunks[0] == Deref(mem, segments[0].readable) && chunks[1..] == Chunks(mem, segments[1..]);
    assert Flat(chunks) == chunks[0] + Flat(chunks[1..]);
  }

  /** `advance_read` on the head segment. */
  function Trim(st: Store, n: nat): Store
    requires st.segments != [] && n <= st.segments[0].readable.size && n <= st.buffered
  {
    st.(segments := st.segments[0 := Shrink(st.segments[0], n)], buffered := st.buffered - n)
  }

  lemma {:induction false} TrimKeeps(o: Options, st: Store, n: nat)
    requires Readable(o, st) && st.segments != [] && n < st.segments[0].readable.size
    ensures n <= st.buffered
    ensures Readable(o, Trim(st, n)) && Content(Trim(st, n)) == Content(st)[n..]
  {
    hide AllocOk, Deallocate, Discards, Flat;
    PopKeeps(o, st);
    SegmentInMemory(o, st, 0);
    var st' := Trim(st, n);
    assert Buffers(st'.segments) == Buffers(st.segments);
    HeadAndRest(st.mem, st.segments);
    HeadAndRest(st.mem, st'.segments);
    assert st'.segments[1..] == st.segments[1..];
    var head, rest := Deref(st.mem, st.segments[0].readable), Unread(st.mem, st.segments[1..]);
    assert Deref(st.mem, st'.segments[0].readable) == head[n..];
    assert (head + rest)[n..] == head[n..] + rest;
  }

  /** The loop of `advance`. */
  function Consume(o: Options, st: Store, n: nat): Store
    requires Readable(o, st) && n <= st.buffered
    decreases |st.segments|
  {
    if n == 0 then st
    else
      var size := st.segments[0].readable.size;
      if n < size then Trim(st, n) else (PopKeeps(o, st); Consume(o, Pop(o, st), n - size))
  }

  /** Consuming never meets an empty deque or an underflow and removes exactly the first `n` bytes. */
  lemma {:induction false} ConsumeKeeps(o: Options, st: Store, n: nat)
    requires Readable(o, st) && n <= st.buffered
    ensures var st' := Consume(o, st, n);
            && Readable(o, st') && Content(st') == Content(st)[n..]
            && st'.mem == st.mem && st'.actual <= st.actual && st'.buffered == st.buffered - n
    decreases |st.segments|
  {
    if n > 0 {
      var size := st.segments[0].readable.size;
      if n < size {
        TrimKeeps(o, st, n);
      } else {
        PopKeeps(o, st);
        ConsumeKeeps(o, Pop(o, st), n - size);
        assert Content(st)[size..][n - size..] == Content(st)[n..];
      }
    }
  }
}
