/** The lock tenures of the bounded queue (src/channel/channel_impl.h). */
module Channel {

  type Item(==, !new)

  /** The fields that `m_mutex` protects; capacity 0 means unbounded. */
  datatype Chan = Chan(queue: seq<Item>, capacity: nat, readWaiters: nat, writeWaiters: nat, completed: bool) {
    predicate Full() { capacity > 0 && |queue| >= capacity }

    predicate CanRead() { completed || queue != [] }

    predicate CanWrite() { completed || !Full() }
  }

  datatype PushOutcome = Pushed(notify: bool) | PushRefused | PushParks

  datatype PushStep = PushStep(chan: Chan, outcome: PushOutcome)

  /** `emplace` from taking the lock to a wait or the end. */
  function PushEnter(c: Chan, item: Item, wait: bool, stop: bool): PushStep {
    if wait && !stop && !c.completed && c.Full() then
      PushStep(c.(writeWaiters := c.writeWaiters + 1), PushParks)
    else
      PushFinish(c, item, wait && stop)
  }

  /** A waiter on `m_not_full` that holds the lock again. */
  function PushResume(c: Chan, item: Item, stop: bool): PushStep
    requires c.writeWaiters > 0
  {
    if !stop && !c.CanWrite() then PushStep(c, PushParks)
    else PushFinish(c.(writeWaiters := c.writeWaiters - 1), item, stop)
  }

  function PushFinish(c: Chan, item: Item, stop: bool): PushStep {
    if stop || c.completed || c.Full() then PushStep(c, PushRefused)
    else PushStep(c.(queue := c.queue + [item]), Pushed(c.readWaiters != 0))
  }

  /** `Ready` is the success of `wait_to_read`, which leaves the queue alone. */
  datatype ReadOutcome = Got(item: Item, notify: bool) | Ready | ChannelEmpty | RequestCancelled | ReadParks

  datatype ReadStep = ReadStep(chan: Chan, outcome: ReadOutcome)

  /** `read`, or `wait_to_read` when `peek`, from taking the lock to a wait or the end. */
  function ReadEnter(c: Chan, peek: bool, wait: bool, stop: bool): ReadStep {
    if wait && !stop && !c.completed && c.queue == [] then
      ReadStep(c.(readWaiters := c.readWaiters + 1), ReadParks)
    else
      ReadFinish(c, peek, wait && stop)
  }

  /** A waiter on `m_not_empty` that holds the lock again. */
  function ReadResume(c: Chan, peek: bool, stop: bool): ReadStep
    requires c.readWaiters > 0
  {
    if !stop && !c.CanRead() then ReadStep(c, ReadParks)
    else ReadFinish(c.(readWaiters := c.readWaiters - 1), peek, stop)
  }

  function ReadFinish(c: Chan, peek: bool, stop: bool): ReadStep {
    if stop then ReadStep(c, RequestCancelled)
    else if c.queue == [] then ReadStep(c, ChannelEmpty)
    else if peek then ReadStep(c, Ready)
    else ReadStep(c.(queue := c.queue[1..]), Got(c.queue[0], c.writeWaiters != 0))
  }

  /** When a push succeeds, waits or is refused, on entry and when woken: a waiting push ignores neither a stop nor a full
      queue, a push that does not wait ignores the stop token. */
  lemma {:induction false} PushOutcomeIs(c: Chan, item: Item, wait: bool, stop: bool)
    ensures var r := PushEnter(c, item, wait, stop);
            && (r.outcome.Pushed? <==> !(wait && stop) && !c.completed && !c.Full())
            && (r.outcome.PushParks? <==> wait && !stop && !c.completed && c.Full())
            && (r.outcome.Pushed? ==> r.outcome.notify == (c.readWaiters > 0))
            && r.chan == if r.outcome.Pushed? then c.(queue := c.queue + [item])
                         else if r.outcome.PushParks? then c.(writeWaiters := c.writeWaiters + 1)
                         else c
    ensures c.writeWaiters > 0 ==>
              var r := PushResume(c, item, stop);
              var c' := c.(writeWaiters := c.writeWaiters - 1);
              && (r.outcome.Pushed? <==> !stop && !c.completed && !c.Full())
              && (r.outcome.PushParks? <==> !stop && !c.completed && c.Full())
              && (r.outcome.Pushed? ==> r.outcome.notify == (c.readWaiters > 0))
              && r.chan == if r.outcome.Pushed? then c'.(queue := c.queue + [item])
                           else if r.outcome.PushParks? then c
                           else c'
  {
  }

  /** When a read gets an item, is ready, waits, finds the channel empty or is cancelled, on entry and when woken. */
  lemma {:induction false} ReadOutcomeIs(c: Chan, peek: bool, wait: bool, stop: bool)
    ensures var r := ReadEnter(c, peek, wait, stop);
            && (r.outcome == RequestCancelled <==> wait && stop)
            && (r.outcome.Got? <==> !peek && !(wait && stop) && c.queue != [])
            && (r.outcome == Ready <==> peek && !(wait && stop) && c.queue != [])
            && (r.outcome == ReadParks <==> wait && !stop && !c.completed && c.queue == [])
            && (r.outcome == ChannelEmpty <==> c.queue == [] && !(wait && stop) && (!wait || c.completed))
            && (r.outcome.Got? ==> r.outcome.item == c.queue[0] && r.outcome.notify == (c.writeWaiters > 0))
            && r.chan == if r.outcome.Got? then c.(queue := c.queue[1..])
                         else if r.outcome == ReadParks then c.(readWaiters := c.readWaiters + 1)
                         else c
    ensures c.readWaiters > 0 ==>
              var r := ReadResume(c, peek, stop);
              var c' := c.(readWaiters := c.readWaiters - 1);
              && (r.outcome == RequestCancelled <==> stop)
              && (r.outcome.Got? <==> !peek && !stop && c.queue != [])
              && (r.outcome == Ready <==> peek && !stop && c.queue != [])
              && (r.outcome == ReadParks <==> !stop && !c.completed && c.queue == [])
              && (r.outcome == ChannelEmpty <==> !stop && c.completed && c.queue == [])
              && (r.outcome.Got? ==> r.outcome.item == c.queue[0] && r.outcome.notify == (c.writeWaiters > 0))
              && r.chan == if r.outcome.Got? then c'.(queue := c.queue[1..])
                           else if r.outcome == ReadParks then c
                           else c'
  {
  }

  /** After completion no call waits and no value enters; the values already queued can still be read, and then every
      read reports an empty channel. */
  lemma {:induction false} AfterCompletion(c: Chan, item: Item, peek: bool, wait: bool, stop: bool)
    requires c.completed
    ensures PushEnter(c, item, wait, stop) == PushStep(c, PushRefused)
    ensures c.writeWaiters > 0 ==>
              PushResume(c, item, stop) == PushStep(c.(writeWaiters := c.writeWaiters - 1), PushRefused)
    ensures !ReadEnter(c, peek, wait, stop).outcome.ReadParks?
    ensures c.readWaiters > 0 ==> !ReadResume(c, peek, stop).outcome.ReadParks?
    ensures !(wait && stop) ==> (ReadEnter(c, peek, wait, stop).outcome == ChannelEmpty <==> c.queue == [])
  {
  }

  /** The channel object: each method is one lock tenure. A call that parks is continued by the matching
      `Resume` method once its condition variable wakes it. */
  class ChannelObject {
    var queue: seq<Item>
    var readWaiters: nat
    var writeWaiters: nat
    const capacity: nat
    var writerCompleted: bool

    constructor (capacity: nat)
      ensures State() == Chan([], capacity, 0, 0, false)
    {
      this.capacity := capacity;
      queue, readWaiters, writeWaiters, writerCompleted := [], 0, 0, false;
    }

    ghost function State(): Chan
      reads this
    {
      Chan(queue, capacity, readWaiters, writeWaiters, writerCompleted)
    }

    predicate Full()
      reads this
    {
      capacity > 0 && |queue| >= capacity
    }

    method Emplace(item: Item, wait: bool, stop: bool) returns (outcome: PushOutcome)
      modifies this
      ensures PushStep(State(), outcome) == old(PushEnter(State(), item, wait, stop))
      ensures queue == if outcome.Pushed? then old(queue) + [item] else old(queue)
      ensures outcome.Pushed? <==> !(wait && stop) && !writerCompleted && !old(Full())
      ensures outcome.PushParks? <==> wait && !stop && !writerCompleted && old(Full())
      ensures capacity > 0 && |old(queue)| <= capacity ==> |queue| <= capacity
      ensures outcome == PushRefused ==> unchanged(this)
    {
      if wait {
        if !stop && !writerCompleted && Full() {
          writeWaiters := writeWaiters + 1;
          return PushParks;
        }
        if !(!stop && !writerCompleted && !Full()) {
          return PushRefused;
        }
      } else if writerCompleted || Full() {
        return PushRefused;
      }
      queue := queue + [item];
      return Pushed(readWaiters != 0);
    }

    method EmplaceResume(item: Item, stop: bool) returns (outcome: PushOutcome)
      requires writeWaiters > 0
      modifies this
      ensures PushStep(State(), outcome) == old(PushResume(State(), item, stop))
      ensures queue == if outcome.Pushed? then old(queue) + [item] else old(queue)
      ensures outcome.Pushed? <==> !stop && !writerCompleted && !old(Full())
      ensures outcome.PushParks? <==> !stop && !writerCompleted && old(Full())
      ensures capacity > 0 && |old(queue)| <= capacity ==> |queue| <= capacity
    {
      if !stop && !(writerCompleted || !Full()) {
        return PushParks;
      }
      writeWaiters := writeWaiters - 1;
      if !(!stop && !writerCompleted && !Full()) {
        return PushRefused;
      }
      queue := queue + [item];
      return Pushed(readWaiters != 0);
    }

    method Read(wait: bool, stop: bool) returns (outcome: ReadOutcome)
      modifies this
      ensures ReadStep(State(), outcome) == old(ReadEnter(State(), false, wait, stop))
      ensures old(queue) == if outcome.Got? then [outcome.item] + queue else queue
      ensures outcome.Got? <==> !(wait && stop) && old(queue) != []
      ensures outcome == RequestCancelled <==> wait && stop
      ensures outcome == ReadParks <==> wait && !stop && !writerCompleted && old(queue) == []
      ensures outcome == ChannelEmpty || outcome == RequestCancelled ==> unchanged(this)
    {
      if wait {
        if !stop && !writerCompleted && queue == [] {
          readWaiters := readWaiters + 1;
          return ReadParks;
        }
        if stop {
          return RequestCancelled;
        }
      }
      if queue == [] {
        return ChannelEmpty;
      }
      var item := queue[0];
      queue := queue[1..];
      return Got(item, writeWaiters != 0);
    }

    method ReadAgain(stop: bool) returns (outcome: ReadOutcome)
      requires readWaiters > 0
      modifies this
      ensures ReadStep(State(), outcome) == old(ReadResume(State(), false, stop))
      ensures old(queue) == if outcome.Got? then [outcome.item] + queue else queue
      ensures outcome.Got? <==> !stop && old(queue) != []
      ensures outcome == RequestCancelled <==> stop
      ensures outcome == ReadParks <==> !stop && !writerCompleted && old(queue) == []
    {
      if !stop && !(writerCompleted || queue != []) {
        return ReadParks;
      }
      readWaiters := readWaiters - 1;
      if stop {
        return RequestCancelled;
      }
      if queue == [] {
        return ChannelEmpty;
      }
      var item := queue[0];
      queue := queue[1..];
      return Got(item, writeWaiters != 0);
    }

    /** `wait_to_read`: waits like `read` and leaves the queue alone. */
    method WaitToRead(stop: bool) returns (outcome: ReadOutcome)
      modifies this
      ensures ReadStep(State(), outcome) == old(ReadEnter(State(), true, true, stop))
      ensures queue == old(queue) && (outcome == Ready <==> !stop && queue != [])
      ensures outcome == RequestCancelled <==> stop
      ensures outcome == ReadParks <==> !stop && !writerCompleted && queue == []
    {
      if !stop && !writerCompleted && queue == [] {
        readWaiters := readWaiters + 1;
        return ReadParks;
      }
      outcome := if stop then RequestCancelled else if queue == [] then ChannelEmpty else Ready;
    }

    method WaitToReadAgain(stop: bool) returns (outcome: ReadOutcome)
      requires readWaiters > 0
      modifies this
      ensures ReadStep(State(), outcome) == old(ReadResume(State(), true, stop))
      ensures queue == old(queue) && (outcome == Ready <==> !stop && queue != [])
      ensures outcome == RequestCancelled <==> stop
      ensures outcome == ReadParks <==> !stop && !writerCompleted && queue == []
    {
      if !stop && !(writerCompleted || queue != []) {
        return ReadParks;
      }
      readWaiters := readWaiters - 1;
      outcome := if stop then RequestCancelled else if queue == [] then ChannelEmpty else Ready;
    }

    method CompleteWriter()
      modifies this
      ensures State() == old(State().(completed := true))
    {
      writerCompleted := true;
    }
  }
}
