# A verified model of xtd's pipeline, channel, cache and line framing

`xtd` is a header-only C++ concurrency library. This project models the parts whose correctness is hardest to see from
the code, and proves what they promise over every input and every interleaving.

- **Pipeline** (`PipelineStore`, `Pipeline`, `PipelineRuns`, `PipelineTheorems`, `PipelineOutcomes`, `PipelineLimits`,
  `PipelineCapacity`, `PipelineObjects`): a segmented byte queue with `read_at_least`/`advance`, pause and resume of the
  writer, and buffers recycled by a free list or a ring.
  Memory is a table of blocks and a span names a range of one block, so "no write changes a byte that a reader can see"
  is a statement about memory, not about values.
- **Channel** (`Channel`, `ChannelRuns`): a queue for any number of producers and consumers, with waiter counts and a
  `notify_one` that is issued after unlocking.
- **Concurrent cache** (`CacheEntries`, `ShardedCache`, `CacheRuns`, `CacheHistory`, `CacheLimits`): sharded maps with expiry
  times, and `get_or_create` with its in-flight table.
- **Segmented view** (`Bytes`, `SegmentedView`): slicing, indexing, searching and copying over a list of spans.
- **Line framing** (`Framing`, `FramingRuns`, `FramingLimits`, `FramingHandler`): the line loop of the chat sample, over
  the view, over the pipeline object and over pipeline runs.

## How it is built

Each operation that runs under a lock is split at the points where the lock is released: a wait on a condition variable,
a notification after unlocking, the end of the call. Such a *lock tenure* is a function from state to state and outcome
(`Pipeline.WriteWait`, `Channel.PushEnter`, ...). Two things are then proved about it.

- The classes (`PipelineObject`, `PoolMemory`, `ChannelObject`, `ConcurrentCache`, `SegmentedByteView`) work in place as
  the source does, and every method is proved to take exactly the step that the function describes, or, for the cache and
  the view, to agree with one map or with one flat byte sequence.
- The `...Runs` modules put the tenures into a step system with parked threads, woken threads (including spurious
  wake-ups), and notifications that are still on the way. A run is any sequence of enabled actions; the main results
  quantify over all of them.

Stop tokens appear as inputs: `stop` says what a tenure observes, and `limit` gives the round of the inner write loop at
which a stop becomes visible. Clock readings, factory results, hash functions and item values are parameters.

## Where the code differs from its documentation

The model follows the code. Each difference is stated as a theorem.

- `should_resume_writer` compares the constant buffer size with the resume threshold
  (`src/pipeline/pipeline_impl.h:116`), where `src/pipeline/pipeline.md:921` says the buffered size.
  `PipelineTheorems.DeadlockFreeIff`: backpressure is free of deadlock exactly when
  `buffer_size <= resume_writer_threshold`.
- A cancelled `write` can return after a commit without notifying the reader (`src/pipeline/pipeline_impl.h:280-282`).
  `PipelineTheorems.WakeupsWithCancellationIff`: with cancellation allowed no wake-up is lost exactly when
  `pause_writer_threshold < 2 * buffer_size`. Without cancellation none is lost under any options (`NoLostWakeups`).
- `src/pipeline/pipeline.md:240` and `src/pipeline/pipeline.md:1056` say that a blocked write can be cancelled. A stop
  seen while the writer is paused only makes the outer loop go round again (`src/pipeline/pipeline_impl.h:265-289`).
  `PipelineLimits.CancelReturnsIff`: a call can return on a stop request alone exactly when the writer is not paused and
  the pipeline not completed. `PipelineLimits.BlockedWriteIgnoresStop` reaches the failing state on every pipeline.
- `src/pipeline/pipeline.md:900` says that a read becomes eligible when the reader completes, and
  `src/pipeline/pipeline.md:938` that completion of the reader discards buffered bytes. `complete_reader` zeroes the
  counters and leaves the segments in place (`src/pipeline/pipeline_impl.h:327-337`), and the read predicate ignores
  reader completion (`src/pipeline/pipeline_impl.h:61-65`). `PipelineLimits.ReaderCompletionKeepsBytes`: a woken read goes
  back to sleep exactly when it is not stopped and the writer not completed, and when the writer completed it hands out
  the unread bytes; `PipelineLimits.StaleSnapshot` is a run that does. The representation invariant is stated until the reader completes.
- A channel waiter that was woken and then sees a stop, or that came from `wait_to_read`, uses up a wake-up without
  taking an item. `ChannelRuns.NoForgottenSleeperIff`: the wake-up guarantee holds exactly when clients use neither.
- `get` looks again with its expiry test negated (`src/cache/concurrent_cache.h:192`), where
  `src/cache/concurrent_cache.md:245-246` says that expired entries are removed. `ShardedCache.ConcurrentCache.Get`: used
  by one thread, `get` never changes the map. `CacheLimits.GetEvictsNothingIff`: beside other threads it evicts nothing
  exactly when the clients do not use `get`, or let nothing expire, or store nothing, or are one thread; in all other
  cases `CacheLimits.GetCanDropFresh` evicts an entry that was just renewed.

## Model

| member | source | states |
|---|---|---|
| `PipelineTheorems.StreamIsIntact` | src/pipeline/pipeline_impl.h:157-314 | In every run until the reader completes: consumed bytes followed by the readable bytes of the segments are exactly the committed bytes; the byte, buffer, examined and pending counters agree with the segments; every segment is non-empty and only the last may have room; the arena's live count is the segment count, and the fixed pool has created no more than pause/buffer size buffers, each of them free or live |
| `PipelineTheorems.BuffersAreSafe` | src/pipeline/pipeline_impl.h:189-255 | In every reachable state, with either allocator: live buffers lie in memory and are pairwise disjoint, the readable and writable parts of a segment are disjoint, the next allocation passes the arena's capacity assertion and returns no live buffer, and the next deallocation never takes the discard path |
| `PipelineTheorems.SnapshotStable` | src/pipeline/pipeline_impl.h:180-255 | From a read until its advance, whatever writes, wake-ups, completions of the writer and refused calls come between, every span of the snapshot still holds in memory the bytes it held when read |
| `PipelineTheorems.WriteGuarantee` | src/pipeline/pipeline_impl.h:257-314 | Across any number of pauses and resumes, a `write` that returns has appended exactly the first `copied` bytes of its input to the stream, and all of them unless its token was stopped |
| `PipelineTheorems.CompletedIsFinal` | src/pipeline/pipeline_impl.h:157-187 | A completed snapshot holds everything that is left of the stream, and no later run adds a byte |
| `PipelineTheorems.NoLostWakeups` | src/pipeline/pipeline_impl.h:157-341 | In every run with uncancelled writes (or with room for one buffer only), a side sleeps with its condition true only while a notification for it is on the way |
| `PipelineTheorems.CancelledWriteLosesWakeup` | src/pipeline/pipeline_impl.h:275-310 | For every options with room for two buffers there is a run in which a cancelled write has returned, the reader is parked over committed bytes that satisfy its condition, and no notification is on the way |
| `PipelineTheorems.WakeupsWithCancellationIff` | src/pipeline/pipeline_impl.h:275-310 | With cancellation allowed, no run loses a wake-up if and only if the pause threshold is below two buffers |
| `PipelineTheorems.PausedMeansBuffered` | src/pipeline/pipeline_impl.h:114-151 | In every run of a new pipeline with uncancelled writes, minimum size 0 and consumed equal to examined, a paused writer has buffered bytes in front of it, when the buffer size is at most the resume threshold |
| `PipelineTheorems.NoDeadlockAfter` | src/pipeline/pipeline_impl.h:235-311 | Runs with uncancelled writes, minimum size 0 and consumed equal to examined never reach a state with both sides asleep and no notification pending, when the buffer size is at most the resume threshold |
| `PipelineTheorems.DrainAndSleep` | src/pipeline/pipeline_impl.h:114-118 | A writer stuck on a pause that no advance lifts: the reader drains the pipeline and falls asleep too, with nothing left to read |
| `PipelineTheorems.StuckForGood` | src/pipeline/pipeline_impl.h:157-314 | Once the writer is paused in a call and the reader has examined everything, every run without a completion, with any stops, reads, advances and spurious wake-ups, leaves it so with nothing committed and nothing consumed |
| `PipelineTheorems.DeadlockIsStuck` | src/pipeline/pipeline_impl.h:157-314 | A deadlock that no lost wake-up caused is a state of that kind, so it is for good |
| `PipelineTheorems.DeadlockFreeIff` | src/pipeline/pipeline_impl.h:114-151 | Backpressure is deadlock free over all such runs if and only if the buffer size is at most the resume threshold, for every accepted options and either allocator |
| `PipelineOutcomes.FillExact` | src/pipeline/pipeline_impl.h:275-305 | The inner loop copies exactly the least of the data, the room (the rest of the tail and the whole buffers under the pause threshold) and what the rounds before a visible stop can take; it is stopped exactly in the last case and ends paused exactly when no room is left |
| `PipelineOutcomes.WriteOutcomeIs` | src/pipeline/pipeline_impl.h:265-311 | The answer of a write tenure, entering or woken: throws exactly on a completed pipeline; paused, it parks or, stopped, goes round; otherwise it appends exactly that many bytes and notifies exactly a waiting reader that got some |
| `PipelineOutcomes.WriteThrowsOnlyWhenCompleted` | src/pipeline/pipeline_impl.h:269-278 | In every run a write has thrown only if a side completed |
| `PipelineOutcomes.UncancelledWriteIsWhole` | src/pipeline/pipeline_impl.h:257-314 | An uncancelled write that returns has appended its whole input, however often it was paused |
| `PipelineOutcomes.CompletionWakesBothSides` | src/pipeline/pipeline_impl.h:316-341 | In every run, cancelled or not, once the notifications of a completion are issued, no reader sleeps on a completed writer and no writer sleeps on a completed pipeline |
| `PipelineOutcomes.ReadStepIs` | src/pipeline/pipeline_impl.h:157-187 | In a run, a read that is not refused is cancelled iff stopped, parks iff no data is available, and otherwise leaves the reader with all the stored bytes, marked completed exactly when the writer is |
| `PipelineLimits.StopEndsTenureIff` | src/pipeline/pipeline_impl.h:268-282 | A stop visible from the start of a tenure ends the call exactly when the writer is not paused and the pipeline not completed |
| `PipelineLimits.PausedWriteNeverReturns` | src/pipeline/pipeline_impl.h:265-289 | Over every run without an advance or a completion, however often a stop is seen, a paused call neither returns nor commits a byte and stays paused |
| `PipelineLimits.CancelReturnsIff` | src/pipeline/pipeline_impl.h:265-289 | A call in progress can return without an advance, a completion or a further call if and only if the writer is not paused and the pipeline not completed |
| `PipelineLimits.BlockedWriteIgnoresStop` | src/pipeline/pipeline_impl.h:257-314 | On every pipeline, a write longer than the whole buffers under the pause threshold reaches a state from which no stop request makes it return |
| `PipelineLimits.ReaderCompletionKeepsBytes` | src/pipeline/pipeline_impl.h:327-341 | In every run after the reader completes, counters stay zero while segments and bytes stay in place; a woken read parks iff it is not stopped and the writer not completed, and hands out a snapshot, marked completed, iff it is not stopped and the writer completed, of exactly the bytes that were unread |
| `PipelineLimits.CompletedReaderSleepsOn` | src/pipeline/pipeline_impl.h:53-67 | A reader asleep when the reader side completes sleeps on over every run in which it is not stopped and the writer does not complete, whatever notifications reach it |
| `PipelineLimits.StaleSnapshot` | src/pipeline/pipeline_impl.h:157-187 | A run in which a read that slept through both completions ends with a non-empty snapshot of unread bytes |
| `PipelineRuns.StepKeeps` | src/pipeline/pipeline_impl.h:157-341 | Every action of writer, reader and pending notifications keeps the system invariant: representation, stream equation, progress of the current write, and the outstanding snapshot |
| `PipelineRuns.SpansSurviveWrite` | src/pipeline/pipeline_impl.h:265-305 | A write tenure leaves every span of an outstanding snapshot over its live segment with its bytes unchanged |
| `PipelineRuns.SnapshotTaken` | src/pipeline/read_result.h:21-50 | A snapshot is exactly the unconsumed part of the committed stream at the moment of the read, and its size is the pending read size |
| `Pipeline.ReadGuarantee` | src/pipeline/pipeline_impl.h:53-187 | A read, entering or woken: cancelled iff stopped, parks iff no data; a snapshot flattens to the whole content and is completed iff the writer is; unless completed it has at least the minimum size and more than was examined; only a snapshot sets the pending state, and nothing else changes but the waiting flag |
| `Pipeline.ReadThrowsIff` | src/pipeline/pipeline_impl.h:161-168 | A read throws exactly when another is pending or the reader completed, without a change, and never after waiting |
| `Pipeline.SnapshotIsContent` | src/pipeline/read_result.h:21-41 | The readable spans, one per live segment, flatten to the stored content and their sizes sum to the byte counter |
| `Pipeline.AdvanceKeeps` | src/pipeline/pipeline_impl.h:189-247 | `advance` succeeds exactly on valid positions with a pending read and reports each of its four errors on exactly its condition, changing nothing; on success it drops exactly the consumed prefix, keeps the invariant, lifts a pause exactly when the writer may resume, notifies exactly then, and changes nothing else |
| `Pipeline.WriteKeeps` | src/pipeline/pipeline_impl.h:265-314 | A write tenure, entering or woken alike, throws iff the pipeline is completed, parks iff paused and not stopped, appends exactly the bytes it reports, keeps the invariant, changes nothing when it throws, parks or finds the writer paused, pauses only without room, and notifies iff a waiting reader got bytes |
| `Pipeline.SpuriousResume` | src/pipeline/pipeline_impl.h:126-151 | A resumed writer copies nothing exactly when the pause condition holds, and then it re-pauses without any other change |
| `PipelineStore.NoCapacityMeansPause` | src/pipeline/pipeline_impl.h:126-151 | Zero available capacity is equivalent to the pause condition |
| `PipelineStore.PoolReachesThreshold` | src/pipeline/pipeline_impl.h:373-375 | The pool size is the least number of buffers that together reach the pause threshold |
| `PipelineStore.AllocateKeeps` | src/pipeline/custom_allocators/arena_pool_resource.h:52-84 | Under the pause threshold an allocation returns no live buffer, never fails the capacity assertion, moves no existing block, and keeps the ring window (arena) or the free/live partition (fixed pool) |
| `PipelineStore.DeallocateKeeps` | src/pipeline/custom_allocators/fixed_pool_resource.h:68-91 | Freeing the oldest live buffer keeps the ring window or the partition and never discards the buffer |
| `PipelineStore.LiveDisjoint` | src/pipeline/custom_allocators/arena_pool_resource.h:51-84 | Live buffers of either allocator lie in memory and never overlap |
| `PipelineStore.GetSegmentKeeps` | src/pipeline/pipeline_impl.h:249-255 | With capacity left, `get_segment` yields a tail whose room is that capacity, keeps the storage invariant and changes no readable byte |
| `PipelineStore.CopyToTailKeeps` | src/pipeline/data_segment.h:95-103 | Copying into the tail appends exactly the data to the content and keeps the storage invariant |
| `PipelineStore.CommitPreserves` | src/pipeline/pipeline_impl.h:291-296 | One round of the write loop leaves every byte of an earlier snapshot where it was |
| `PipelineStore.FillKeeps` | src/pipeline/pipeline_impl.h:275-305 | The inner write loop appends exactly the reported prefix, ends early only when stopped or paused, and pauses only without room |
| `PipelineStore.PopKeeps` | src/pipeline/pipeline_impl.h:226-230 | Dropping the head segment never underflows a counter, never discards a buffer, and removes exactly its readable bytes |
| `PipelineStore.TrimKeeps` | src/pipeline/data_segment.h:78-87 | Consuming part of the head segment removes exactly that many bytes from the front of the content |
| `PipelineStore.ConsumeKeeps` | src/pipeline/pipeline_impl.h:216-231 | The consuming loop never meets an empty deque or underflows, removes exactly the first n bytes and touches no memory |
| `PipelineCapacity.FullStore` | src/pipeline/data_segment.h:78-103 | When the tail has no room, every segment but a partly consumed head is full of unread bytes |
| `PipelineCapacity.PausedIsFull` | src/pipeline/pipeline_impl.h:146-151 | The pause condition holds only with exactly pause/buffer size segments |
| `PipelineObjects.PoolMemory.AllocateBuffer` | src/pipeline/custom_allocators/fixed_pool_resource.h:40-66 | In place, takes the allocation step of either resource; only new blocks are added |
| `PipelineObjects.PoolMemory.DeallocateBuffer` | src/pipeline/custom_allocators/arena_pool_resource.h:86-95 | In place, takes the deallocation step of either resource |
| `PipelineObjects.PoolMemory.CopyIn` | src/pipeline/data_segment.h:99-99 | Overwrites exactly the addressed range of one block and no other block |
| `PipelineObjects.PipelineObject.ProvideSegment` | src/pipeline/pipeline_impl.h:249-255 | In place, takes the step of `get_segment` on memory, allocator, deque and counter |
| `PipelineObjects.PipelineObject.CopyFrom` | src/pipeline/data_segment.h:95-103 | In place, moves memory, both spans and the byte counter together |
| `PipelineObjects.PipelineObject.FillSegments` | src/pipeline/pipeline_impl.h:275-305 | The inner write loop on arrays and counters computes the recursive specification, whose meaning `FillKeeps` gives |
| `PipelineObjects.PipelineObject.WriteTenure` | src/pipeline/pipeline_impl.h:265-311 | A write tenure on the object keeps it valid, takes the specified step, throws exactly on a completed pipeline, and parks exactly when paused and not stopped |
| `PipelineObjects.PipelineObject.ConsumeBytes` | src/pipeline/pipeline_impl.h:216-231 | The loop of `advance` on the object computes the recursive specification without touching an empty deque |
| `PipelineObjects.PipelineObject.AdvanceTo` | src/pipeline/pipeline_impl.h:189-247 | `advance` on the object keeps it valid and takes the specified step, all four errors included |
| `PipelineObjects.PipelineObject.MakeReadableView` | src/pipeline/read_result.h:21-41 | The loop lists the non-empty readable spans in order and their total size |
| `PipelineObjects.PipelineObject.ReadAtLeast` | src/pipeline/pipeline_impl.h:157-187 | The first tenure of a read on the object keeps it valid, takes the specified step, throws exactly when a read is pending or the reader completed, and marks a snapshot completed exactly when the writer is |
| `PipelineObjects.PipelineObject.ReadAgain` | src/pipeline/pipeline_impl.h:170-187 | The tenure of a woken read on the object keeps it valid, takes the specified step, is cancelled exactly when stopped, and marks a snapshot completed exactly when the writer is |
| `PipelineObjects.PipelineObject.FinishWriter` | src/pipeline/pipeline_impl.h:316-325 | Completes the writer, lifts a pause and keeps the object valid |
| `PipelineObjects.PipelineObject.FinishReader` | src/pipeline/pipeline_impl.h:327-341 | Completes the reader, zeroes the counters, leaves the segments and keeps the object valid |
| `ChannelRuns.StepKeeps` | src/channel/channel_impl.h:73-181 | Every step of every thread keeps FIFO order, capacity and exact waiter counts; a step without stop or `wait_to_read` keeps the wake-up guarantee; nothing is enqueued after completion |
| `ChannelRuns.FifoAndCompletion` | src/channel/channel_impl.h:73-181 | In every run, cancelled or not: values taken followed by the queue are the values put in, in order; a bounded queue never exceeds its capacity; completion is permanent and nothing enters after it |
| `ChannelRuns.EmptyIsFinal` | src/channel/channel_impl.h:135-181 | A waiting read that reports an empty channel found it completed and drained, and it stays so in every later run, with everything ever enqueued dequeued |
| `ChannelRuns.NoLostWakeups` | src/channel/channel_impl.h:78-181 | In every run without stops and `wait_to_read`: while a reader is parked, notifications on the way plus woken readers cover the queue; while a writer is parked, they cover the free capacity; so nobody sleeps with its condition true and no wake-up coming |
| `ChannelRuns.DroppedWakeup` | src/channel/channel_impl.h:129-146 | With stops or with `wait_to_read` there is a run that leaves a reader parked over a queued item while every other thread is idle, so that no wake-up is coming |
| `ChannelRuns.NoForgottenSleeperIff` | src/channel/channel_impl.h:78-181 | For any capacity and any set of at least three threads, no run forgets a sleeper if and only if clients use neither stops nor `wait_to_read` |
| `ChannelRuns.CompletionWakesEveryone` | src/channel/channel_impl.h:119-127 | In every run, cancelled or not, once `complete_writer` has completed the channel and issued both `notify_all` calls, no thread is asleep |
| `Channel.PushOutcomeIs` | src/channel/channel_impl.h:78-117 | A push, entering or woken, succeeds iff it is not a stopped wait, the channel is open and not full; it parks iff it waits unstopped on a full open channel; success appends the item and notifies iff a reader waits; nothing else changes but the waiter count |
| `Channel.ReadOutcomeIs` | src/channel/channel_impl.h:129-181 | A `read` or `wait_to_read`, entering or woken, is cancelled iff it is a stopped wait, gets the oldest item (or is ready) iff not cancelled and the queue is not empty, parks iff it waits unstopped on an empty open channel, and reports empty otherwise; success notifies iff a writer waits |
| `Channel.ChannelObject.Emplace` | src/channel/channel_impl.h:78-117 | The first tenure of `emplace`, waiting or not, takes the specified step: it appends the item exactly when the channel is open with room and no waiting call is stopped, parks exactly when it waits on a full open channel, and changes nothing when it refuses |
| `Channel.ChannelObject.EmplaceResume` | src/channel/channel_impl.h:78-117 | The tenure of a woken `emplace`: appends exactly when not stopped, open and not full, and parks again exactly when still full, open and not stopped |
| `Channel.ChannelObject.Read` | src/channel/channel_impl.h:135-181 | The first tenure of `read`, waiting or not: takes the oldest item exactly when there is one and no waiting call is stopped, is cancelled exactly as a stopped wait, parks exactly when waiting on an empty open channel, and changes nothing on an error |
| `Channel.ChannelObject.ReadAgain` | src/channel/channel_impl.h:135-181 | The tenure of a woken `read`: takes the oldest item exactly when there is one and it is not stopped, is cancelled exactly when stopped, and parks again exactly when still empty, open and not stopped |
| `Channel.ChannelObject.WaitToRead` | src/channel/channel_impl.h:129-153 | The first tenure of `wait_to_read` leaves the queue alone, succeeds exactly over an item and not stopped, is cancelled exactly when stopped, and parks exactly on an empty open channel |
| `Channel.ChannelObject.WaitToReadAgain` | src/channel/channel_impl.h:129-153 | The tenure of a woken `wait_to_read`, with the same guarantees |
| `Channel.AfterCompletion` | src/channel/channel_impl.h:73-181 | On a completed channel every push is refused without a change, no call waits, and a read that is not stopped reports an empty channel exactly when the queue is drained |
| `CacheRuns.StampedeProtection` | src/cache/concurrent_cache.h:277-340 | In every reachable state at most one thread is between registering and removing a key; the in-flight table holds a key exactly while one is; no promise is fulfilled twice; every waiter's promise is for its key and is fulfilled or has a thread bound to fulfil it |
| `CacheRuns.OwnerAndWaitersAgree` | src/cache/concurrent_cache.h:289-340 | The owner and every waiter of one promise end with the same value or the same exception, whatever runs between them |
| `CacheRuns.ReturnedValueWasLive` | src/cache/concurrent_cache.h:264-341 | Every value that `get_or_create` returns, by fast path, recheck, ownership or waiting, was mapped to its key in some state between the start and the end of that call, by an entry that had not expired there or that a factory had made and that was published just then, beside any inserts, erases, purges and gets |
| `CacheRuns.FactoryRunsOnlyOnMiss` | src/cache/concurrent_cache.h:268-300 | A factory runs, and a call waits for another's, only for a key that had no live entry in some state of that call |
| `CacheHistory.LookupIs` | src/cache/concurrent_cache.h:268-300 | The fast path and the locked recheck return exactly a live value; otherwise the recheck joins the factory in flight exactly when there is one and registers one exactly when there is none |
| `CacheHistory.MissInFlightEndsByPromise` | src/cache/concurrent_cache.h:287-295 | Over every run, a call that finds no live entry while its key is in flight is still waiting for that promise or has ended with exactly its value or exception |
| `CacheHistory.EveryEntryHasOrigin` | src/cache/concurrent_cache.h:212-341 | In every state of every run, every entry was inserted under its key by some call or made by a factory that ran for its key, with its expiry time counted from that moment |
| `CacheHistory.ReturnedValueHasOrigin` | src/cache/concurrent_cache.h:264-341 | Every value that `get_or_create` returns was inserted under its key or made by a factory that ran for it |
| `CacheHistory.ThrownExceptionHasOrigin` | src/cache/concurrent_cache.h:330-337 | Every exception that `get_or_create` throws, to the owner or to a waiter, was thrown by a factory that ran for its key |
| `CacheHistory.StoresAreExact` | src/cache/concurrent_cache.h:212-254 | A publication leaves a live entry alone and otherwise maps its key to the made entry; an insertion and an erasure change exactly their key |
| `CacheHistory.PurgeRunIsUnexpired` | src/cache/concurrent_cache.h:355-383 | The shard by shard purge, run alone, leaves exactly the entries that are live when it reads the clock, as `PurgeExpired` does on the single map |
| `CacheRuns.StepKeeps` | src/cache/concurrent_cache.h:120-128 | Every step of every thread keeps the ownership, promise and in-flight invariants, removal after an exception included |
| `CacheRuns.PurgeKeepsLive` | src/cache/concurrent_cache.h:355-383 | With a monotone clock a purge never removes or changes a live entry, even one inserted after the purge read the clock, and never adds one |
| `CacheLimits.RaceFreeRunsEvictNothing` | src/cache/concurrent_cache.h:178-198 | In every run in which no thread stores under a key that a `get` has found expired and is about to look at again, no `get` evicts anything |
| `CacheLimits.SafeRunsEvictNothing` | src/cache/concurrent_cache.h:178-198 | In every run of clients that do not use `get`, or let nothing expire, or store nothing, or are one thread, no `get` evicts anything |
| `CacheLimits.GetEvictsNothingIff` | src/cache/concurrent_cache.h:178-198 | No run of the clients makes `get` evict an entry if and only if they do not use `get`, or use no time-to-live, or neither insert nor create, or there is at most one thread |
| `CacheLimits.GetCanDropFresh` | src/cache/concurrent_cache.h:186-195 | For all other clients, a run in which `get` evicts an entry that never expires and was stored by another thread after the first look, by `insert_or_assign` or by `get_or_create` |
| `CacheEntries.ExpiryAt` | src/cache/concurrent_cache.h:112-118 | An entry stored at `now` is expired at a later reading exactly when its time-to-live is not zero and has passed |
| `ShardedCache.MergedAt` | src/cache/concurrent_cache.h:104-110 | The single map that the shards stand for holds a key exactly when the key's own shard does, with the same entry |
| `ShardedCache.LiveKeysAdd` | src/cache/concurrent_cache.h:385-402 | Live keys and entries of the shards add up without overlap |
| `ShardedCache.CountLive` | src/cache/concurrent_cache.h:394-398 | The inner loop of `size` counts exactly the live keys of a shard |
| `ShardedCache.PurgeShard` | src/cache/concurrent_cache.h:364-379 | The inner loop of `purge_expired` keeps exactly the live entries and counts the others |
| `ShardedCache.ConcurrentCache.constructor` | src/cache/concurrent_cache.h:160-170 | A new cache stands for the empty map |
| `ShardedCache.ConcurrentCache.Contains` | src/cache/concurrent_cache.h:200-207 | True exactly for live keys of the single map |
| `ShardedCache.ConcurrentCache.Get` | src/cache/concurrent_cache.h:178-198 | Returns the live value or nothing; the map changes exactly when an entry expired at the first look is live at the second, hence never with a monotone clock |
| `ShardedCache.ConcurrentCache.InsertOrAssign` | src/cache/concurrent_cache.h:209-230 | Maps the key to the new entry, in its own shard only, and returns the value |
| `ShardedCache.ConcurrentCache.Erase` | src/cache/concurrent_cache.h:240-254 | Removes exactly that key and reports whether it was mapped, live or not |
| `ShardedCache.ConcurrentCache.GetOrCreate` | src/cache/concurrent_cache.h:263-341 | Used by one thread, with the clock read at the lookup, the locked recheck, the creation and the publication: runs the factory exactly when the key is live at neither look, returns the value then mapped, and changes no other key |
| `ShardedCache.ConcurrentCache.PurgeExpired` | src/cache/concurrent_cache.h:355-383 | Leaves exactly the live part of the single map and returns exactly the number of entries removed |
| `ShardedCache.ConcurrentCache.Size` | src/cache/concurrent_cache.h:385-402 | The number of live keys of the single map |
| `ShardedCache.ConcurrentCache.Empty` | src/cache/concurrent_cache.h:404-420 | True exactly when no key of the single map is live |
| `SegmentedView.CollectSlice` | src/pipeline/segmented_byte_view.h:124-159 | The slicing loop collects spans that flatten to exactly the requested range |
| `SegmentedView.SegmentedByteView.MakeSliceSegments` | src/pipeline/segmented_byte_view.h:50-160 | Accepted exactly when the range is ordered and inside the view; the result flattens to that range |
| `SegmentedView.SegmentedByteView.Slice` | src/pipeline/segmented_byte_view.h:76-255 | All four overloads: accepted exactly when the denoted absolute range lies in the view, and the result shows exactly that range |
| `SegmentedView.SegmentedByteView.SliceInPlace` | src/pipeline/segmented_byte_view.h:162-275 | All four overloads in place: the same slice, or no change at all on rejection |
| `SegmentedView.NestedSlice` | src/pipeline/segmented_byte_view.h:119-174 | A slice of a slice is the slice of the parent over the inner absolute range |
| `SegmentedView.SegmentedByteView.At` | src/pipeline/segmented_byte_view.h:308-327 | The byte at that index of the flattened view, or out of range; the end of the loop is unreachable |
| `SegmentedView.SegmentedByteView.AtPosition` | src/pipeline/segmented_byte_view.h:297-306 | The byte at that absolute position, or out of range |
| `SegmentedView.SegmentedByteView.AtFromEnd` | src/pipeline/segmented_byte_view.h:277-295 | The byte at that distance from the end, or out of range; the end of the loop is unreachable |
| `SegmentedView.SegmentedByteView.PositionOf` | src/pipeline/segmented_byte_view.h:329-351 | The absolute position of the first such byte of the flattened view, or missing |
| `SegmentedView.SegmentedByteView.PositionOfAny` | src/pipeline/segmented_byte_view.h:359-385 | The absolute position of the first byte of the flattened view that is one of the values, or missing |
| `SegmentedView.SegmentedByteView.PositionOfSequence` | src/pipeline/segmented_byte_view.h:401-463 | For any segmentation, the begin offset plus the least index at which the pattern occurs in the flattened view; missing exactly when the pattern is empty or absent |
| `SegmentedView.SearchStartingIn` | src/pipeline/segmented_byte_view.h:414-457 | The search of one segment and of the window around its end finds the first occurrence that starts in the segment, however many segments it spans |
| `SegmentedView.AcrossBoundary` | src/pipeline/segmented_byte_view.h:433-457 | Occurrences that start in a segment without ending in it are exactly those of the boundary window |
| `SegmentedView.SegmentedByteView.CopyTo` | src/pipeline/segmented_byte_view.h:474-505 | Writes exactly the longest prefix of the flattened view that fits, leaves the rest of the destination alone, and returns the count |
| `SegmentedView.SegmentedByteView.ToString` | src/pipeline/segmented_byte_view.h:557-573 | The flattened bytes |
| `Framing.SplitRoundTrip` | samples/chat/connection_handler.h:100-127 | The reference: lines joined with newlines and followed by the tail give the stream back; no line and no tail holds a newline |
| `Framing.SplitOfJoin` | samples/chat/connection_handler.h:100-127 | The converse: splitting joined lines gives the lines, with no tail |
| `Framing.SplitConcat` | samples/chat/connection_handler.h:100-127 | Splitting a stream at any point and carrying the tail over gives the same lines |
| `Framing.CompletePart` | samples/chat/connection_handler.h:103-122 | Consuming up to the tail keeps all the commands and leaves exactly the tail |
| `Framing.ProcessRead` | samples/chat/connection_handler.h:102-120 | The line loop over a segmented read hands over exactly the non-empty lines without their carriage return, in order, and leaves the view on the tail, so that its begin and end are the positions to advance to |
| `Framing.StripsOneReturn` | samples/chat/connection_handler.h:109-113 | Stripping undoes exactly one appended carriage return and leaves a line that has none as it is |
| `Framing.TakeLine` | samples/chat/connection_handler.h:106-116 | The line before the newline without one trailing carriage return |
| `FramingRuns.RunFrames` | samples/chat/connection_handler.h:100-127 | Over any run the lines handed over extend those of the consumed stream, and no partial line is consumed |
| `FramingRuns.FramingIndependentOfChunks` | samples/chat/connection_handler.h:100-145 | For any writes, segments and reads, the lines handed to `parse_command` are those of the consumed stream, and with the completed snapshot they are those of the whole committed stream |
| `FramingHandler.HandleRead` | samples/chat/connection_handler.h:100-122 | A round of the handler on the pipeline object, from `read` through the line loop to `advance`: hands over exactly the commands of the stored bytes, the advance succeeds, and exactly the partial line stays stored |
| `FramingHandler.RoundReads` | samples/chat/connection_handler.h:100-102 | The read of such a round is a step of a run and shows the handler all the stored bytes |
| `FramingHandler.RoundEnds` | samples/chat/connection_handler.h:122-122 | The advance of such a round is the step that the framing theorems take, with the same pipeline state and the same consumed bytes |
| `FramingLimits.AllLinesDelivered` | samples/chat/connection_handler.h:122-126 | After the advance past a completed snapshot, the lines handed over are those of the whole committed stream, and only its tail is not consumed |
| `FramingLimits.ShortLinesFlow` | samples/chat/connection_handler.h:100-127 | With uncancelled writes the handler never deadlocks with its writer if every line, newline included, fits into all the buffers but one and one byte more, and a buffer fits under the resume threshold |
| `FramingLimits.DeadlockingRun` | samples/chat/connection_handler.h:100-127 | Otherwise there is a run with lines within the bound that puts both sides to sleep for good |
| `FramingLimits.LongLinesDeadlockIff` | samples/chat/connection_handler.h:100-127 | The handler is deadlock free on all streams with lines of at most n bytes if and only if the buffer size is at most the resume threshold and n is at most (pause/buffer size - 1) * buffer size + 1 |

## Left out

- Logging, sinks, serialisation and transports, benchmarks and the other samples: formatting and system calls.
- `samples/chat/server.h` and `src/pipeline/pipe_utils.h`: sockets, epoll and file I/O.
- `commands_parser`, the replies and broadcasts of `process_command`, and the handler's stop requests: the framing
  theorems end at the lines handed to `parse_command`, for a handler that is not stopped.
- Endpoint wrappers (`pipe_reader.h`, `pipe_writer.h`, `channel_reader.h`, `channel_writer.h`), typed and pointer
  overloads of `write`, `copy_to` and the searches, `as_string_view`, and the `read_all` generator: thin wrappers.
- `std::pmr::unsynchronized_pool_resource` as the pipeline's allocator. The two pool resources are one class with an
  allocator variant rather than two implementations of an interface.
- `::operator new` appends a zero-filled block to the block table; allocation failure, `::operator delete` on destruction,
  addresses and alignment are not modelled.
- `size_t` wrap-around and overflow of the arena's size product: sizes are natural numbers.
- Pipelines with several readers or several writers at once: the source documents one of each.
- Liveness: no fairness is assumed, so the model says which states can be reached, not that a call returns.
- `validate_options` messages: `OptionsOk` is its acceptance condition.
- Errors inside `get_or_create` other than an exception of the factory, and the lifetime of values: a value stands for the
  shared pointer to it.
- Shard mutexes in the concurrent cache runs: each step touches one key or one shard under one lock, so the runs use a
  single map with a shard function, and `ShardedCache` relates the shards to that map.
- `Channel.ChannelObject.Emplace`: the item is a value, so construction in place, moves and copies are not modelled.
- Real clocks and hash quality: the clock is a parameter, monotone where stated, and equal keys hash equally.
