/** Every interleaving of any number of threads over one channel: order, completion and wake-ups. */
module ChannelRuns {
  import opened Channel

  /** Where a thread is. `peek` marks a `wait_to_read` caller. After unlocking, a thread may still owe a notification;
      a completing thread owes `notify_all` to the readers and then to the writers. */
  datatype Thread =
    | Idle
    | ReaderParked(peek: bool)
    | ReaderWoken(peek: bool)
    | WriterParked(item: Item)
    | WriterWoken(item: Item)
    | OwesReader
    | OwesWriter
    | OwesAll
    | OwesAllWriters

  datatype Kind = KOther | KReaderParked | KReaderWoken | KWriterParked | KWriterWoken | KOwesReader | KOwesWriter | KOwesAll | KOwesAllWriters

  function KindOf(t: Thread): Kind {
    match t
    case Idle => KOther
    case ReaderParked(_) => KReaderParked
    case ReaderWoken(_) => KReaderWoken
    case WriterParked(_) => KWriterParked
    case WriterWoken(_) => KWriterWoken
    case OwesReader => KOwesReader
    case OwesWriter => KOwesWriter
    case OwesAll => KOwesAll
    case OwesAllWriters => KOwesAllWriters
  }

  type Threads = map<nat, Thread>

  function Those(ts: Threads, k: Kind): set<nat> {
    set t | t in ts && KindOf(ts[t]) == k
  }

  /** How many threads are in a place. */
  function Count(ts: Threads, k: Kind): nat { |Those(ts, k)| }

  function One(b: bool): nat { if b then 1 else 0 }

  lemma {:induction false} Without(s: set<nat>, t: nat)
    ensures |s| == |s - {t}| + One(t in s)
  {
  }

  lemma {:induction false} SameElsewhere(ts: Threads, t: nat, to: Thread, k: Kind)
    requires t in ts
    ensures Those(ts[t := to], k) - {t} == Those(ts, k) - {t}
  {
  }

  lemma {:induction false} CountMove(ts: Threads, t: nat, to: Thread, k: Kind)
    requires t in ts
    ensures Count(ts[t := to], k) + One(KindOf(ts[t]) == k) == Count(ts, k) + One(KindOf(to) == k)
  {
    assert t in Those(ts, k) <==> KindOf(ts[t]) == k;
    assert t in Those(ts[t := to], k) <==> KindOf(to) == k;
    hide Those, KindOf;
    Without(Those(ts, k), t);
    Without(Those(ts[t := to], k), t);
    SameElsewhere(ts, t, to, k);
  }

  /** `enqueued` and `dequeued` record the values pushed and taken so far. */
  datatype Sys = Sys(chan: Chan, threads: Threads, enqueued: seq<Item>, dequeued: seq<Item>)

  datatype Action =
    | Push(t: nat, item: Item, wait: bool, stop: bool)
    | PushAgain(t: nat, stop: bool)
    | Read(t: nat, peek: bool, wait: bool, stop: bool)
    | ReadAgain(t: nat, stop: bool)
    | NotifyReader(t: nat, target: nat)
    | NotifyWriter(t: nat, target: nat)
    | Complete(t: nat)
    | NotifyAll(t: nat)
    | Wake(t: nat)

  /** `notify_one` wakes one parked thread if there is any. */
  predicate NotifyTarget(ts: Threads, parked: Kind, target: nat) {
    Those(ts, parked) != {} ==> target in Those(ts, parked)
  }

  predicate Enabled(s: Sys, a: Action) {
    && a.t in s.threads
    && match a
       case Push(t, _, _, _) => s.threads[t].Idle?
       case PushAgain(t, _) => s.threads[t].WriterWoken?
       case Read(t, _, _, _) => s.threads[t].Idle?
       case ReadAgain(t, _) => s.threads[t].ReaderWoken?
       case NotifyReader(t, target) => s.threads[t].OwesReader? && NotifyTarget(s.threads, KReaderParked, target)
       case NotifyWriter(t, target) => s.threads[t].OwesWriter? && NotifyTarget(s.threads, KWriterParked, target)
       case Complete(t) => s.threads[t].Idle?
       case NotifyAll(t) => s.threads[t].OwesAll? || s.threads[t].OwesAllWriters?
       case Wake(t) => s.threads[t].ReaderParked? || s.threads[t].WriterParked?
  }

  function Woken(t: Thread): Thread {
    match t
    case ReaderParked(peek) => ReaderWoken(peek)
    case WriterParked(item) => WriterWoken(item)
    case _ => t
  }

  function WakeOne(ts: Threads, parked: Kind, target: nat): Threads {
    if target in ts && KindOf(ts[target]) == parked then ts[target := Woken(ts[target])] else ts
  }

  function WakeAll(ts: Threads, parked: Kind): Threads {
    map t | t in ts :: if KindOf(ts[t]) == parked then Woken(ts[t]) else ts[t]
  }

  function AfterPush(s: Sys, t: nat, item: Item, r: PushStep): Sys {
    match r.outcome
    case Pushed(notify) =>
      s.(chan := r.chan, enqueued := s.enqueued + [item], threads := s.threads[t := if notify then OwesReader else Idle])
    case PushRefused => s.(chan := r.chan, threads := s.threads[t := Idle])
    case PushParks => s.(chan := r.chan, threads := s.threads[t := WriterParked(item)])
  }

  function AfterRead(s: Sys, t: nat, peek: bool, r: ReadStep): Sys {
    match r.outcome
    case Got(item, notify) =>
      s.(chan := r.chan, dequeued := s.dequeued + [item], threads := s.threads[t := if notify then OwesWriter else Idle])
    case ReadParks => s.(chan := r.chan, threads := s.threads[t := ReaderParked(peek)])
    case _ => s.(chan := r.chan, threads := s.threads[t := Idle])
  }

  function Step(s: Sys, a: Action): Sys
    requires Inv(s) && Enabled(s, a)
  {
    WaitersCounted(s, a.t);
    match a
    case Push(t, item, wait, stop) => AfterPush(s, t, item, PushEnter(s.chan, item, wait, stop))
    case PushAgain(t, stop) => AfterPush(s, t, s.threads[t].item, PushResume(s.chan, s.threads[t].item, stop))
    case Read(t, peek, wait, stop) => AfterRead(s, t, peek, ReadEnter(s.chan, peek, peek || wait, stop))
    case ReadAgain(t, stop) => AfterRead(s, t, s.threads[t].peek, ReadResume(s.chan, s.threads[t].peek, stop))
    case NotifyReader(t, target) => s.(threads := WakeOne(s.threads[t := Idle], KReaderParked, target))
    case NotifyWriter(t, target) => s.(threads := WakeOne(s.threads[t := Idle], KWriterParked, target))
    case Complete(t) => s.(chan := s.chan.(completed := true), threads := s.threads[t := OwesAll])
    case NotifyAll(t) =>
      if s.threads[t].OwesAll? then s.(threads := WakeAll(s.threads[t := OwesAllWriters], KReaderParked))
      else s.(threads := WakeAll(s.threads[t := Idle], KWriterParked))
    case Wake(t) => s.(threads := s.threads[t := Woken(s.threads[t])])
  }

  // ----- order, capacity and waiter counts, over all runs -----

  /** First in, first out; a bounded queue never exceeds its capacity; the waiter counters count the waiters. */
  ghost predicate Inv(s: Sys) {
    && s.dequeued + s.chan.queue == s.enqueued
    && (s.chan.capacity > 0 ==> |s.chan.queue| <= s.chan.capacity)
    && s.chan.readWaiters == Count(s.threads, KReaderParked) + Count(s.threads, KReaderWoken)
    && s.chan.writeWaiters == Count(s.threads, KWriterParked) + Count(s.threads, KWriterWoken)
    && (Count(s.threads, KWriterParked) > 0 ==> s.chan.capacity > 0)
    && (Count(s.threads, KWriterWoken) > 0 ==> s.chan.capacity > 0)
    && (Count(s.threads, KOwesAll) + Count(s.threads, KOwesAllWriters) > 0 ==> s.chan.completed)
  }

  lemma {:induction false} CountPositive(ts: Threads, t: nat)
    requires t in ts
    ensures Count(ts, KindOf(ts[t])) > 0
  {
    assert t in Those(ts, KindOf(ts[t]));
  }

  lemma {:induction false} WaitersCounted(s: Sys, t: nat)
    requires Inv(s) && t in s.threads
    ensures s.threads[t].WriterWoken? ==> s.chan.writeWaiters > 0
    ensures s.threads[t].ReaderWoken? ==> s.chan.readWaiters > 0
    ensures s.threads[t].OwesAll? || s.threads[t].OwesAllWriters? ==> s.chan.completed
  {
    CountPositive(s.threads, t);
  }

  /** All the counts after one thread moves. */
  ghost predicate Moved(ts: Threads, ts': Threads, from: Kind, to: Kind) {
    forall k :: Count(ts', k) + One(from == k) == Count(ts, k) + One(to == k)
  }

  lemma {:induction false} MoveOne(ts: Threads, t: nat, to: Thread)
    requires t in ts
    ensures Moved(ts, ts[t := to], KindOf(ts[t]), KindOf(to))
    ensures Count(ts, KindOf(ts[t])) > 0
  {
    CountPositive(ts, t);
    forall k ensures Count(ts[t := to], k) + One(KindOf(ts[t]) == k) == Count(ts, k) + One(KindOf(to) == k) {
      CountMove(ts, t, to, k);
    }
  }

  lemma {:induction false} MoveAll(ts: Threads, parked: Kind)
    requires parked == KReaderParked || parked == KWriterParked
    ensures var ts' := WakeAll(ts, parked);
            var woken := if parked == KReaderParked then KReaderWoken else KWriterWoken;
            && Count(ts', parked) == 0
            && Count(ts', woken) == Count(ts, parked) + Count(ts, woken)
            && forall k :: k != parked && k != woken ==> Count(ts', k) == Count(ts, k)
  {
    var ts' := WakeAll(ts, parked);
    var woken := if parked == KReaderParked then KReaderWoken else KWriterWoken;
    forall k ensures Those(ts', k) == if k == parked then {} else if k == woken then Those(ts, parked) + Those(ts, woken) else Those(ts, k) {
      WokenThose(ts, parked, k);
    }
    assert Those(ts, parked) !! Those(ts, woken);
    hide Those, WakeAll;
  }

  lemma {:induction false} WokenThose(ts: Threads, parked: Kind, k: Kind)
    requires parked == KReaderParked || parked == KWriterParked
    ensures Those(WakeAll(ts, parked), k)
         == var woken := if parked == KReaderParked then KReaderWoken else KWriterWoken;
            if k == parked then {} else if k == woken then Those(ts, parked) + Those(ts, woken) else Those(ts, k)
  {
  }

  /** The counts after `notify_one` by thread `t`. */
  lemma {:induction false} NotifyCounts(ts: Threads, t: nat, parked: Kind, target: nat)
    requires t in ts && NotifyTarget(ts, parked, target)
    requires (parked == KReaderParked && ts[t].OwesReader?) || (parked == KWriterParked && ts[t].OwesWriter?)
    ensures var ts' := WakeOne(ts[t := Idle], parked, target);
            var woken := if parked == KReaderParked then KReaderWoken else KWriterWoken;
            var n := One(Count(ts, parked) > 0);
            forall k :: Count(ts', k)
                     == Count(ts, k) - One(k == KindOf(ts[t])) + One(k == KOther) - (if k == parked then n else 0)
                        + (if k == woken then n else 0)
  {
    var ts1 := ts[t := Idle];
    MoveOne(ts, t, Idle);
    SameElsewhere(ts, t, Idle, parked);
    assert Those(ts1, parked) == Those(ts, parked);
    if Those(ts, parked) != {} {
      assert target in Those(ts1, parked);
      MoveOne(ts1, target, Woken(ts1[target]));
    } else {
      assert Count(ts, parked) == 0 && target !in Those(ts1, parked);
    }
  }

  /** While a reader is parked, notifications on the way and woken readers cover the queue; while a writer is parked,
      they cover the free capacity; after completion somebody still owes the sleepers a `notify_all`. */
  ghost predicate WakeInv(s: Sys) {
    var ts, c := s.threads, s.chan;
    && (Count(ts, KReaderParked) > 0 ==>
          && Count(ts, KOwesReader) + Count(ts, KReaderWoken) >= |c.queue|
          && (c.completed ==> Count(ts, KOwesAll) > 0))
    && (Count(ts, KWriterParked) > 0 ==>
          if c.completed then Count(ts, KOwesAll) + Count(ts, KOwesAllWriters) > 0
          else Count(ts, KOwesWriter) + Count(ts, KWriterWoken) >= c.capacity - |c.queue|)
  }

  /** No cancellation and no `wait_to_read`. */
  predicate Clean(a: Action) {
    match a
    case Push(_, _, _, stop) => !stop
    case PushAgain(_, stop) => !stop
    case Read(_, peek, _, stop) => !stop && !peek
    case ReadAgain(_, stop) => !stop
    case _ => true
  }

  ghost predicate NoPeekers(s: Sys) {
    forall t :: t in s.threads && (s.threads[t].ReaderParked? || s.threads[t].ReaderWoken?) ==> !s.threads[t].peek
  }

  predicate PushRuns(s: Sys, t: nat, item: Item, stop: bool, r: PushStep) {
    && t in s.threads
    && if s.threads[t].Idle? then
         r == PushEnter(s.chan, item, true, stop) || r == PushEnter(s.chan, item, false, stop)
       else
         s.threads[t] == WriterWoken(item) && s.chan.writeWaiters > 0 && r == PushResume(s.chan, item, stop)
  }

  predicate ReadRuns(s: Sys, t: nat, peek: bool, stop: bool, r: ReadStep) {
    && t in s.threads
    && if s.threads[t].Idle? then
         r == ReadEnter(s.chan, peek, true, stop) || r == ReadEnter(s.chan, peek, false, stop)
       else
         s.threads[t] == ReaderWoken(peek) && s.chan.readWaiters > 0 && r == ReadResume(s.chan, peek, stop)
  }

  lemma {:induction false} PushKeeps(s: Sys, t: nat, item: Item, stop: bool, r: PushStep)
    requires Inv(s) && PushRuns(s, t, item, stop, r)
    ensures Inv(AfterPush(s, t, item, r))
    ensures WakeInv(s) && !stop ==> WakeInv(AfterPush(s, t, item, r))
    ensures s.chan.completed ==> AfterPush(s, t, item, r).enqueued == s.enqueued
  {
    hide Count;
    MoveOne(s.threads, t, AfterPush(s, t, item, r).threads[t]);
    assert s.dequeued + (s.chan.queue + [item]) == (s.dequeued + s.chan.queue) + [item];
  }

  lemma {:induction false} ReadKeeps(s: Sys, t: nat, peek: bool, stop: bool, r: ReadStep)
    requires Inv(s) && ReadRuns(s, t, peek, stop, r)
    ensures Inv(AfterRead(s, t, peek, r))
  {
    hide Count;
    MoveOne(s.threads, t, AfterRead(s, t, peek, r).threads[t]);
    if s.chan.queue != [] {
      assert s.dequeued + s.chan.queue == (s.dequeued + [s.chan.queue[0]]) + s.chan.queue[1..];
    }
  }

  lemma {:induction false} ReadKeepsWake(s: Sys, t: nat, r: ReadStep)
    requires Inv(s) && ReadRuns(s, t, false, false, r) && WakeInv(s)
    ensures WakeInv(AfterRead(s, t, false, r))
  {
    hide Count;
    MoveOne(s.threads, t, AfterRead(s, t, false, r).threads[t]);
  }

  lemma {:induction false} NotifyKeeps(s: Sys, t: nat, parked: Kind, target: nat)
    requires Inv(s) && t in s.threads && NotifyTarget(s.threads, parked, target)
    requires (parked == KReaderParked && s.threads[t].OwesReader?) || (parked == KWriterParked && s.threads[t].OwesWriter?)
    ensures var s' := s.(threads := WakeOne(s.threads[t := Idle], parked, target));
            Inv(s') && (WakeInv(s) ==> WakeInv(s'))
  {
    hide Count, WakeOne, NotifyTarget;
    NotifyCounts(s.threads, t, parked, target);
  }

  lemma {:induction false} NotifyAllKeeps(s: Sys, t: nat, parked: Kind)
    requires Inv(s) && t in s.threads
    requires (parked == KReaderParked && s.threads[t].OwesAll?) || (parked == KWriterParked && s.threads[t].OwesAllWriters?)
    requires s.chan.completed
    ensures var to := if parked == KReaderParked then OwesAllWriters else Idle;
            var s' := s.(threads := WakeAll(s.threads[t := to], parked));
            Inv(s') && (WakeInv(s) ==> WakeInv(s'))
  {
    hide Count, WakeAll;
    var to := if parked == KReaderParked then OwesAllWriters else Idle;
    MoveOne(s.threads, t, to);
    MoveAll(s.threads[t := to], parked);
  }

  lemma {:induction false} WakeKeeps(s: Sys, t: nat, to: Thread)
    requires Inv(s) && t in s.threads
    requires (s.threads[t].ReaderParked? && to.ReaderWoken?) || (s.threads[t].WriterParked? && to.WriterWoken?)
    ensures var s' := s.(threads := s.threads[t := to]);
            Inv(s') && (WakeInv(s) ==> WakeInv(s'))
  {
    hide Count;
    MoveOne(s.threads, t, to);
  }

  lemma {:induction false} CompleteKeeps(s: Sys, t: nat)
    requires Inv(s) && t in s.threads && s.threads[t].Idle?
    ensures var s' := s.(chan := s.chan.(completed := true), threads := s.threads[t := OwesAll]);
            Inv(s') && (WakeInv(s) ==> WakeInv(s'))
  {
    hide Count;
    MoveOne(s.threads, t, OwesAll);
  }

  /** Every step of every thread keeps order, capacity and the waiter counts; a clean step keeps the wake-up guarantee. */
  lemma {:induction false} StepKeeps(s: Sys, a: Action)
    requires Inv(s) && Enabled(s, a)
    ensures Inv(Step(s, a))
    ensures WakeInv(s) && NoPeekers(s) && Clean(a) ==> WakeInv(Step(s, a))
    ensures s.chan.completed ==> Step(s, a).enqueued == s.enqueued
  {
    WaitersCounted(s, a.t);
    hide Inv, WakeInv, Count, Those, WakeOne, WakeAll, NotifyTarget;
    match a
    case Push(t, item, wait, stop) => PushKeeps(s, t, item, stop, PushEnter(s.chan, item, wait, stop));
    case PushAgain(t, stop) => PushKeeps(s, t, s.threads[t].item, stop, PushResume(s.chan, s.threads[t].item, stop));
    case Read(t, peek, wait, stop) =>
      var r := ReadEnter(s.chan, peek, peek || wait, stop);
      ReadKeeps(s, t, peek, stop, r);
      if WakeInv(s) && !stop && !peek {
        ReadKeepsWake(s, t, r);
      }
    case ReadAgain(t, stop) =>
      var r := ReadResume(s.chan, s.threads[t].peek, stop);
      ReadKeeps(s, t, s.threads[t].peek, stop, r);
      if WakeInv(s) && !stop && !s.threads[t].peek {
        ReadKeepsWake(s, t, r);
      }
    case NotifyReader(t, target) => NotifyKeeps(s, t, KReaderParked, target);
    case NotifyWriter(t, target) => NotifyKeeps(s, t, KWriterParked, target);
    case Complete(t) => CompleteKeeps(s, t);
    case NotifyAll(t) => NotifyAllKeeps(s, t, if s.threads[t].OwesAll? then KReaderParked else KWriterParked);
    case Wake(t) => WakeKeeps(s, t, Woken(s.threads[t]));
  }

  lemma {:induction false} StepKeepsReaders(s: Sys, a: Action)
    requires Inv(s) && Enabled(s, a) && NoPeekers(s) && Clean(a)
    ensures NoPeekers(Step(s, a))
  {
  }

  // ----- runs -----

  ghost predicate Executes(s: Sys, actions: seq<Action>)
    requires Inv(s)
    decreases |actions|
  {
    actions != [] ==>
      Enabled(s, actions[0]) && (StepKeeps(s, actions[0]); Executes(Step(s, actions[0]), actions[1..]))
  }

  ghost function After(s: Sys, actions: seq<Action>): (s': Sys)
    requires Inv(s) && Executes(s, actions)
    ensures Inv(s')
    decreases |actions|
  {
    if actions == [] then s
    else
      StepKeeps(s, actions[0]);
      After(Step(s, actions[0]), actions[1..])
  }

  /** A new channel and a set of idle threads. */
  function Initial(capacity: nat, threads: set<nat>): (s: Sys)
    ensures Inv(s)
  {
    var ts := map t | t in threads :: Idle;
    assert forall k :: k != KOther ==> Those(ts, k) == {};
    Sys(Chan([], capacity, 0, 0, false), ts, [], [])
  }

  /** Over all runs, cancelled or not: first in, first out, within capacity, and nothing enters after completion. */
  lemma {:induction false} FifoAndCompletion(s: Sys, actions: seq<Action>)
    requires Inv(s) && Executes(s, actions)
    ensures var s' := After(s, actions);
            && s'.dequeued + s'.chan.queue == s'.enqueued
            && (s'.chan.capacity > 0 ==> |s'.chan.queue| <= s'.chan.capacity)
            && (s.chan.completed ==> s'.chan.completed && s'.enqueued == s.enqueued)
    decreases |actions|
  {
    hide Count, Those, Step, Enabled;
    if actions != [] {
      StepKeeps(s, actions[0]);
      StepKeepsCompletion(s, actions[0]);
      FifoAndCompletion(Step(s, actions[0]), actions[1..]);
    }
  }

  lemma {:induction false} StepKeepsCompletion(s: Sys, a: Action)
    requires Inv(s) && Enabled(s, a)
    ensures s.chan.completed ==> Step(s, a).chan.completed
    ensures s.dequeued <= Step(s, a).dequeued
  {
  }

  lemma {:induction false} DequeuedGrows(s: Sys, actions: seq<Action>)
    requires Inv(s) && Executes(s, actions)
    ensures s.dequeued <= After(s, actions).dequeued
    decreases |actions|
  {
    if actions != [] {
      StepKeeps(s, actions[0]);
      StepKeepsCompletion(s, actions[0]);
      DequeuedGrows(Step(s, actions[0]), actions[1..]);
    }
  }

  /** A waiting read that reports an empty channel found it completed and drained, and so it stays. */
  lemma {:induction false} EmptyIsFinal(s: Sys, t: nat, stop: bool, r: ReadStep, actions: seq<Action>)
    requires Inv(s) && ReadRuns(s, t, false, stop, r) && r.outcome == ChannelEmpty
    requires s.threads[t].Idle? ==> r == ReadEnter(s.chan, false, true, stop)
    requires Inv(AfterRead(s, t, false, r)) && Executes(AfterRead(s, t, false, r), actions)
    ensures s.chan.completed && s.chan.queue == []
    ensures var s' := After(AfterRead(s, t, false, r), actions);
            s'.chan.completed && s'.chan.queue == [] && s'.dequeued == s.enqueued
  {
    hide Count, Those;
    var s1 := AfterRead(s, t, false, r);
    FifoAndCompletion(s1, actions);
    DequeuedGrows(s1, actions);
    var s' := After(s1, actions);
    assert s1.dequeued + [] == s1.dequeued;
  }

  // ----- wake-ups -----

  /** No thread sleeps with its condition true and no wake-up on the way. */
  ghost predicate NoForgottenSleeper(s: Sys) {
    && (Count(s.threads, KReaderParked) > 0 && s.chan.CanRead() ==>
          Count(s.threads, KOwesReader) + Count(s.threads, KReaderWoken) + Count(s.threads, KOwesAll) > 0)
    && (Count(s.threads, KWriterParked) > 0 && s.chan.CanWrite() ==>
          Count(s.threads, KOwesWriter) + Count(s.threads, KWriterWoken)
          + Count(s.threads, KOwesAll) + Count(s.threads, KOwesAllWriters) > 0)
  }

  lemma {:induction false} NoLostWakeups(s: Sys, actions: seq<Action>)
    requires Inv(s) && WakeInv(s) && NoPeekers(s) && Executes(s, actions)
    requires forall i :: 0 <= i < |actions| ==> Clean(actions[i])
    ensures WakeInv(After(s, actions)) && NoForgottenSleeper(After(s, actions))
    decreases |actions|
  {
    if actions != [] {
      hide Inv, WakeInv, NoPeekers, Enabled, Step, NoForgottenSleeper;
      StepKeeps(s, actions[0]);
      StepKeepsReaders(s, actions[0]);
      NoLostWakeups(Step(s, actions[0]), actions[1..]);
    }
  }

  /** While a thread sleeps on a completed channel, somebody still owes it a `notify_all`. */
  ghost predicate Released(s: Sys) {
    s.chan.completed ==>
      && (Count(s.threads, KReaderParked) > 0 ==> Count(s.threads, KOwesAll) > 0)
      && (Count(s.threads, KWriterParked) > 0 ==> Count(s.threads, KOwesAll) + Count(s.threads, KOwesAllWriters) > 0)
  }

  lemma {:induction false} MoveKeepsReleased(s: Sys, s': Sys, t: nat, to: Thread)
    requires Inv(s) && Released(s) && t in s.threads && s'.threads == s.threads[t := to]
    requires !s.threads[t].OwesAll? && !s.threads[t].OwesAllWriters?
    requires s'.chan.completed ==> to.OwesAll? || (s.chan.completed && !to.ReaderParked? && !to.WriterParked?)
    ensures Released(s')
  {
    hide Count, Inv;
    MoveOne(s.threads, t, to);
  }

  lemma {:induction false} NotifyKeepsReleased(s: Sys, t: nat, parked: Kind, target: nat)
    requires Released(s) && t in s.threads && NotifyTarget(s.threads, parked, target)
    requires (parked == KReaderParked && s.threads[t].OwesReader?) || (parked == KWriterParked && s.threads[t].OwesWriter?)
    ensures Released(s.(threads := WakeOne(s.threads[t := Idle], parked, target)))
  {
    hide Count, WakeOne, NotifyTarget;
    NotifyCounts(s.threads, t, parked, target);
  }

  lemma {:induction false} NotifyAllKeepsReleased(s: Sys, t: nat, parked: Kind)
    requires Released(s) && t in s.threads
    requires (parked == KReaderParked && s.threads[t].OwesAll?) || (parked == KWriterParked && s.threads[t].OwesAllWriters?)
    ensures var to := if parked == KReaderParked then OwesAllWriters else Idle;
            Released(s.(threads := WakeAll(s.threads[t := to], parked)))
  {
    hide Count, WakeAll;
    var to := if parked == KReaderParked then OwesAllWriters else Idle;
    MoveOne(s.threads, t, to);
    MoveAll(s.threads[t := to], parked);
  }

  lemma {:induction false} StepKeepsReleased(s: Sys, a: Action)
    requires Inv(s) && Enabled(s, a) && Released(s)
    ensures Released(Step(s, a))
  {
    WaitersCounted(s, a.t);
    hide Inv, Released, Count, Those, WakeOne, WakeAll, NotifyTarget;
    match a
    case NotifyReader(t, target) => NotifyKeepsReleased(s, t, KReaderParked, target);
    case NotifyWriter(t, target) => NotifyKeepsReleased(s, t, KWriterParked, target);
    case NotifyAll(t) => NotifyAllKeepsReleased(s, t, if s.threads[t].OwesAll? then KReaderParked else KWriterParked);
    case _ => MoveKeepsReleased(s, Step(s, a), a.t, Step(s, a).threads[a.t]);
  }

  lemma {:induction false} RunKeepsReleased(s: Sys, actions: seq<Action>)
    requires Inv(s) && Released(s) && Executes(s, actions)
    ensures Released(After(s, actions))
    decreases |actions|
  {
    hide Inv, Released, Enabled, Step;
    if actions != [] {
      StepKeeps(s, actions[0]);
      StepKeepsReleased(s, actions[0]);
      RunKeepsReleased(Step(s, actions[0]), actions[1..]);
    }
  }

  /** `complete_writer` wakes everyone: in every run, cancelled or not, once the channel is completed and both
      `notify_all` calls are done, no thread sleeps. */
  lemma {:induction false} CompletionWakesEveryone(capacity: nat, threads: set<nat>, actions: seq<Action>, t: nat)
    requires Executes(Initial(capacity, threads), actions)
    ensures var s := After(Initial(capacity, threads), actions);
            s.chan.completed && (forall u :: u in s.threads ==> !s.threads[u].OwesAll? && !s.threads[u].OwesAllWriters?) ==>
              t in s.threads ==> !s.threads[t].ReaderParked? && !s.threads[t].WriterParked?
  {
    var s := After(Initial(capacity, threads), actions);
    RunKeepsReleased(Initial(capacity, threads), actions);
    if t in s.threads && forall u :: u in s.threads ==> !s.threads[u].OwesAll? && !s.threads[u].OwesAllWriters? {
      CountPositive(s.threads, t);
      NoneOf(s.threads, KOwesAll);
      NoneOf(s.threads, KOwesAllWriters);
    }
  }

  /** Which of the two ways to drop a wake-up a client uses. */
  predicate Permitted(a: Action, stops: bool, peeks: bool) {
    match a
    case Push(_, _, _, stop) => stops || !stop
    case PushAgain(_, stop) => stops || !stop
    case Read(_, peek, _, stop) => (stops || !stop) && (peeks || !peek)
    case ReadAgain(_, stop) => stops || !stop
    case _ => true
  }

  ghost predicate PermittedRun(actions: seq<Action>, stops: bool, peeks: bool) {
    forall i :: 0 <= i < |actions| ==> Permitted(actions[i], stops, peeks)
  }

  lemma {:induction false} RunSnoc(s: Sys, actions: seq<Action>, a: Action, stops: bool, peeks: bool) returns (more: seq<Action>)
    requires Inv(s) && Executes(s, actions) && PermittedRun(actions, stops, peeks)
    requires Enabled(After(s, actions), a) && Permitted(a, stops, peeks)
    ensures Executes(s, more) && PermittedRun(more, stops, peeks) && After(s, more) == Step(After(s, actions), a)
    ensures more == actions + [a]
    decreases |actions|
  {
    hide Inv, Step, Enabled, Permitted;
    more := actions + [a];
    if actions == [] {
      assert more[1..] == [];
      StepKeeps(s, a);
    } else {
      StepKeeps(s, actions[0]);
      var rest := RunSnoc(Step(s, actions[0]), actions[1..], a, stops, peeks);
      assert more[0] == actions[0] && more[1..] == rest;
    }
  }

  /** Two readers sleep and one item arrives. */
  lemma {:induction false} TwoSleepersOneItem(
    capacity: nat, threads: set<nat>, a: nat, b: nat, c: nat, item: Item, stops: bool, peeks: bool)
    returns (actions: seq<Action>)
    requires {a, b, c} <= threads && a != b && b != c && a != c
    ensures var init := Initial(capacity, threads);
            && Executes(init, actions) && PermittedRun(actions, stops, peeks)
            && After(init, actions).chan == Chan([item], capacity, 2, 0, false)
            && After(init, actions).threads
               == init.threads[a := ReaderParked(peeks)][b := ReaderParked(false)][c := OwesReader]
  {
    hide Inv, Executes, Those, PermittedRun;
    var init := Initial(capacity, threads);
    RunNothing(init, stops, peeks);
    actions := RunSnoc(init, [], Read(a, peeks, true, false), stops, peeks);
    assert After(init, actions).chan == Chan([], capacity, 1, 0, false);
    assert After(init, actions).threads == init.threads[a := ReaderParked(peeks)];
    actions := RunSnoc(init, actions, Read(b, false, true, false), stops, peeks);
    assert After(init, actions).chan == Chan([], capacity, 2, 0, false);
    actions := RunSnoc(init, actions, Push(c, item, true, false), stops, peeks);
  }

  /** The item wakes the first sleeper, which uses up the wake-up but leaves the item; the second sleeps on. */
  lemma {:induction false} DroppedWakeup(capacity: nat, threads: set<nat>, a: nat, b: nat, c: nat, item: Item, stops: bool, peeks: bool)
    returns (actions: seq<Action>)
    requires {a, b, c} <= threads && a != b && b != c && a != c && (stops || peeks)
    ensures Executes(Initial(capacity, threads), actions) && PermittedRun(actions, stops, peeks)
    ensures !NoForgottenSleeper(After(Initial(capacity, threads), actions))
    ensures var s := After(Initial(capacity, threads), actions);
            && b in s.threads && s.threads[b] == ReaderParked(false) && s.chan.queue == [item]
            && forall t :: t in s.threads && t != b ==> s.threads[t].Idle?
  {
    hide Inv, Executes, Those, PermittedRun;
    var init := Initial(capacity, threads);
    actions := TwoSleepersOneItem(capacity, threads, a, b, c, item, stops, peeks);
    var s := After(init, actions);
    InThose(s.threads, a);
    actions := RunSnoc(init, actions, NotifyReader(c, a), stops, peeks);
    assert After(init, actions).threads
        == init.threads[a := ReaderWoken(peeks)][b := ReaderParked(false)][c := Idle];
    actions := RunSnoc(init, actions, ReadAgain(a, stops), stops, peeks);
    var s' := After(init, actions);
    assert s'.threads == init.threads[a := Idle][b := ReaderParked(false)][c := Idle];
    assert s'.chan.queue == [item];
    OneSleeperForgotten(s', b);
  }

  lemma {:induction false} OneSleeperForgotten(s: Sys, b: nat)
    requires s.chan.queue != [] && b in s.threads && s.threads[b] == ReaderParked(false)
    requires forall t :: t in s.threads && t != b ==> s.threads[t] == Idle
    ensures !NoForgottenSleeper(s)
  {
    CountPositive(s.threads, b);
    forall k | k != KOther && k != KReaderParked ensures Count(s.threads, k) == 0 {
      NoneOf(s.threads, k);
    }
  }

  lemma {:induction false} RunNothing(s: Sys, stops: bool, peeks: bool)
    requires Inv(s)
    ensures Executes(s, []) && After(s, []) == s && PermittedRun([], stops, peeks)
  {
  }

  lemma {:induction false} InThose(ts: Threads, t: nat)
    requires t in ts
    ensures t in Those(ts, KindOf(ts[t]))
  {
  }

  lemma {:induction false} NoneOf(ts: Threads, k: Kind)
    requires forall t :: t in ts ==> KindOf(ts[t]) != k
    ensures Count(ts, k) == 0
  {
  }

  /** With at least three threads, no sleeper is ever forgotten exactly when the clients neither pass stop tokens
      to waiting calls nor use `wait_to_read`. */
  lemma {:induction false} NoForgottenSleeperIff(
    capacity: nat, threads: set<nat>, a: nat, b: nat, c: nat, item: Item, stops: bool, peeks: bool)
    requires {a, b, c} <= threads && a != b && b != c && a != c
    ensures (forall actions :: Executes(Initial(capacity, threads), actions) && PermittedRun(actions, stops, peeks) ==>
               NoForgottenSleeper(After(Initial(capacity, threads), actions)))
        <==> !stops && !peeks
  {
    hide NoForgottenSleeper;
    var init := Initial(capacity, threads);
    if stops || peeks {
      var actions := DroppedWakeup(capacity, threads, a, b, c, item, stops, peeks);
    } else {
      forall k | k != KOther ensures Count(init.threads, k) == 0 {
        NoneOf(init.threads, k);
      }
      forall actions | Executes(init, actions) && PermittedRun(actions, false, false)
        ensures NoForgottenSleeper(After(init, actions))
      {
        forall i | 0 <= i < |actions| ensures Clean(actions[i]) {
          assert Permitted(actions[i], false, false);
        }
        NoLostWakeups(init, actions);
      }
    }
  }
}
