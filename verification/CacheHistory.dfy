/** Where the entries of the cache and the answers of `get_or_create` come from, over every run. */
module CacheHistory {
  import opened Bytes
  import opened CacheEntries
  import opened CacheRuns
  import ShardedCache

  // ----- how a call ends -----

  /** What a lookup of `get_or_create` does: a live entry is returned at once; otherwise the locked recheck joins the
      factory in flight, or registers one when there is none. Neither touches the map. */
  lemma {:induction false} LookupIs(s: Sys, a: Action)
    requires Inv(s) && Enabled(s, a) && (a.FastGet? || a.Register?)
    ensures var pc, s' := s.threads[a.t], Step(s, a);
            var pc' := s'.threads[a.t];
            && s'.values == s.values
            && (pc'.Done? <==> s.Fresh(pc.key))
            && (pc'.Done? ==> pc'.outcome == Returned(s.values[pc.key].value))
            && (pc'.Waiting? <==> a.Register? && !s.Fresh(pc.key) && pc.key in s.inFlight)
            && (pc'.Waiting? ==> pc'.id == s.inFlight[pc.key])
            && (pc'.Running? <==> a.Register? && !s.Fresh(pc.key) && pc.key !in s.inFlight)
            && (!pc'.Running? ==> s'.inFlight == s.inFlight && s'.promises == s.promises)
  {
    hide Inv, PcOk;
  }

  /** The call waits for the promise, or has ended with its result. */
  ghost predicate EndsByPromise(s: Sys, t: nat, k: Key, id: nat, since: nat) {
    && t in s.threads && id < |s.promises|
    && (s.threads[t] == Waiting(k, id, since)
        || (s.promises[id].result.Some? && s.threads[t] == Done(k, s.promises[id].result.value, since)))
  }

  lemma {:induction false} StepEndsByPromise(s: Sys, a: Action, t: nat, k: Key, id: nat, since: nat)
    requires Inv(s) && Enabled(s, a) && EndsByPromise(s, t, k, id, since) && a != Return(t)
    ensures EndsByPromise(Step(s, a), t, k, id, since)
  {
    StepCounts(s, a);
    if s.promises[id].result.Some? {
      StepKeepsResult(s, a, id);
    }
    PublicationsGrow(s, a, id);
    if a.t == t && s.threads[t].Waiting? && !a.Tick? {
      ConcludesWithResult(s, a);
    }
    hide Inv, PcOk;
  }

  lemma {:induction false} RunEndsByPromise(h: seq<Sys>, actions: seq<Action>, t: nat, k: Key, id: nat, since: nat)
    requires h != [] && Inv(h[|h| - 1]) && Executes(h[|h| - 1], actions) && EndsByPromise(h[|h| - 1], t, k, id, since)
    requires forall i :: 0 <= i < |actions| ==> actions[i] != Return(t)
    ensures var r := Trace(h, actions);
            EndsByPromise(r[|r| - 1], t, k, id, since)
    decreases |actions|
  {
    hide Inv, Step, Enabled, EndsByPromise;
    if actions != [] {
      var s := h[|h| - 1];
      StepKeeps(s, actions[0]);
      StepEndsByPromise(s, actions[0], t, k, id, since);
      RunEndsByPromise(h + [Step(s, actions[0])], actions[1..], t, k, id, since);
    }
  }

  /** A call that finds no live entry while its key is in flight ends only through that promise: over every run it is
      still waiting for it, or has ended with exactly its value or exception. */
  lemma {:induction false} MissInFlightEndsByPromise(s: Sys, t: nat, actions: seq<Action>)
    requires Inv(s) && t in s.threads && s.threads[t].Missed?
    requires !s.Fresh(s.threads[t].key) && s.threads[t].key in s.inFlight
    requires Inv(Step(s, Register(t))) && Executes(Step(s, Register(t)), actions)
    requires forall i :: 0 <= i < |actions| ==> actions[i] != Return(t)
    ensures var k := s.threads[t].key;
            EndsByPromise(LastState(Step(s, Register(t)), actions), t, k, s.inFlight[k], s.threads[t].since)
  {
    AtPlace(s, t);
    var s1 := Step(s, Register(t));
    var k := s.threads[t].key;
    assert EndsByPromise(s1, t, k, s.inFlight[k], s.threads[t].since);
    hide Inv, Step, Executes, EndsByPromise;
    RunEndsByPromise([s1], actions, t, k, s.inFlight[k], s.threads[t].since);
  }

  // ----- where entries come from -----

  /** Action `j` inserted the entry under the key, or was the return of a factory that made it for the key; its expiry
      time counts from that moment. */
  ghost predicate Origin(h: seq<Sys>, acts: seq<Action>, j: nat, k: Key, e: Entry) {
    && j < |acts| && j < |h|
    && match acts[j]
       case InsertCall(_, key, made, ttl) => key == k && e == Entry(made, ExpiryAt(h[j].now, ttl))
       case FactoryReturns(t, made, ttl) =>
         t in h[j].threads && h[j].threads[t].Running? && h[j].threads[t].key == k && e == Entry(made, ExpiryAt(h[j].now, ttl))
       case _ => false
  }

  ghost predicate HasOrigin(h: seq<Sys>, acts: seq<Action>, k: Key, e: Entry) {
    exists j: nat :: Origin(h, acts, j, k, e)
  }

  ghost predicate Holding(pc: Pc) { pc.Made? || pc.Inserting? }

  ghost predicate StateHasOrigin(h: seq<Sys>, acts: seq<Action>, s: Sys) {
    && (forall k :: k in s.values ==> HasOrigin(h, acts, k, s.values[k]))
    && (forall t :: t in s.threads && Holding(s.threads[t]) ==> HasOrigin(h, acts, s.threads[t].key, s.threads[t].entry))
  }

  ghost predicate OriginInv(h: seq<Sys>, acts: seq<Action>) {
    && |h| == |acts| + 1 && Inv(h[|h| - 1])
    && forall i :: 0 <= i < |h| ==> StateHasOrigin(h, acts, h[i])
  }

  lemma {:induction false} OriginsGrow(h: seq<Sys>, acts: seq<Action>, s': Sys, a: Action)
    requires |h| == |acts| + 1
    ensures forall k, e :: HasOrigin(h, acts, k, e) ==> HasOrigin(h + [s'], acts + [a], k, e)
  {
    forall k, e | HasOrigin(h, acts, k, e) ensures HasOrigin(h + [s'], acts + [a], k, e) {
      var j: nat :| Origin(h, acts, j, k, e);
      assert Origin(h + [s'], acts + [a], j, k, e);
    }
  }

  /** The step's own contribution. */
  lemma {:induction false} NewOrigin(h: seq<Sys>, acts: seq<Action>, a: Action)
    requires |h| == |acts| + 1 && Inv(h[|h| - 1]) && Enabled(h[|h| - 1], a) && (a.InsertCall? || a.FactoryReturns?)
    ensures var s' := Step(h[|h| - 1], a);
            var pc := s'.threads[a.t];
            Holding(pc) && HasOrigin(h + [s'], acts + [a], pc.key, pc.entry)
  {
    var s := h[|h| - 1];
    AtPlace(s, a.t);
    hide Inv, PcOk;
    var s' := Step(s, a);
    assert Origin(h + [s'], acts + [a], |acts|, s'.threads[a.t].key, s'.threads[a.t].entry);
  }

  /** Every other entry was there before. */
  lemma {:induction false} EntriesAreOld(s: Sys, a: Action)
    requires Inv(s) && Enabled(s, a)
    ensures var s' := Step(s, a);
            && (forall k :: k in s'.values ==>
                  || (k in s.values && s'.values[k] == s.values[k])
                  || (Holding(s.threads[a.t]) && s.threads[a.t].key == k && s.threads[a.t].entry == s'.values[k]))
            && (a.t in s'.threads && Holding(s'.threads[a.t]) ==>
                  a.InsertCall? || a.FactoryReturns? || s'.threads[a.t] == s.threads[a.t])
  {
    hide Inv, PcOk;
  }

  lemma {:induction false} StepKeepsOrigin(h: seq<Sys>, acts: seq<Action>, a: Action)
    requires OriginInv(h, acts) && Enabled(h[|h| - 1], a)
    ensures OriginInv(h + [Step(h[|h| - 1], a)], acts + [a])
  {
    var s := h[|h| - 1];
    var s' := Step(s, a);
    StepKeeps(s, a);
    StepCounts(s, a);
    EntriesAreOld(s, a);
    OriginsGrow(h, acts, s', a);
    if a.InsertCall? || a.FactoryReturns? {
      NewOrigin(h, acts, a);
    }
    hide Inv, Step, HasOrigin, Enabled;
    assert StateHasOrigin(h, acts, s);
    assert StateHasOrigin(h + [s'], acts + [a], s');
    forall i | 0 <= i < |h + [s']| ensures StateHasOrigin(h + [s'], acts + [a], (h + [s'])[i]) {
      if i < |h| {
        assert StateHasOrigin(h, acts, h[i]);
      }
    }
  }

  lemma {:induction false} RunKeepsOrigin(h: seq<Sys>, acts: seq<Action>, actions: seq<Action>)
    requires OriginInv(h, acts) && Executes(h[|h| - 1], actions)
    ensures OriginInv(Trace(h, actions), acts + actions)
    decreases |actions|
  {
    hide Inv, Step, Enabled, StateHasOrigin;
    if actions == [] {
      assert acts + [] == acts;
    } else {
      var s := h[|h| - 1];
      StepKeeps(s, actions[0]);
      StepKeepsOrigin(h, acts, actions[0]);
      RunKeepsOrigin(h + [Step(s, actions[0])], acts + [actions[0]], actions[1..]);
      assert acts + [actions[0]] + actions[1..] == acts + actions;
    }
  }

  /** In every state of every run, every entry was inserted by some call or made by a factory that ran for its key. */
  lemma {:induction false} EveryEntryHasOrigin(
    shardOf: Key -> nat, shards: nat, now: nat, threads: set<nat>, actions: seq<Action>, i: nat, k: Key)
    requires Executes(Initial(shardOf, shards, now, threads), actions)
    ensures var r := Trace([Initial(shardOf, shards, now, threads)], actions);
            i < |r| && k in r[i].values ==> HasOrigin(r, actions, k, r[i].values[k])
  {
    var s0 := Initial(shardOf, shards, now, threads);
    assert OriginInv([s0], []);
    hide Executes, Trace, Inv, HasOrigin;
    RunKeepsOrigin([s0], [], actions);
    assert [] + actions == actions;
    var r := Trace([s0], actions);
    if i < |r| {
      assert StateHasOrigin(r, actions, r[i]);
    }
  }

  /** Every value that `get_or_create` returns was inserted under its key or made by a factory that ran for it. */
  lemma {:induction false} ReturnedValueHasOrigin(
    shardOf: Key -> nat, shards: nat, now: nat, threads: set<nat>, actions: seq<Action>, t: nat) returns (e: Entry)
    requires Executes(Initial(shardOf, shards, now, threads), actions)
    requires var s := LastState(Initial(shardOf, shards, now, threads), actions);
             t in s.threads && s.threads[t].Done? && s.threads[t].outcome.Returned?
    ensures var r := Trace([Initial(shardOf, shards, now, threads)], actions);
            var pc := r[|r| - 1].threads[t];
            HasOrigin(r, actions, pc.key, e) && e.value == pc.outcome.value
  {
    hide Executes, Trace, Inv, HasOrigin, StartedAt, Initial;
    ReturnedValueWasLive(shardOf, shards, now, threads, actions, t);
    var r := Trace([Initial(shardOf, shards, now, threads)], actions);
    var pc := r[|r| - 1].threads[t];
    var i: nat :| pc.since <= i && ServedAt(r, i, pc.key, pc.outcome.value);
    EveryEntryHasOrigin(shardOf, shards, now, threads, actions, i, pc.key);
    e := r[i].values[pc.key];
  }

  // ----- where exceptions come from -----

  /** Action `j` was the failure with this exception of a factory that ran for the key. */
  ghost predicate Failure(h: seq<Sys>, acts: seq<Action>, j: nat, k: Key, e: Error) {
    && j < |acts| && j < |h| && acts[j].FactoryThrows? && acts[j].error == e
    && acts[j].t in h[j].threads && h[j].threads[acts[j].t].Running? && h[j].threads[acts[j].t].key == k
  }

  ghost predicate HasFailure(h: seq<Sys>, acts: seq<Action>, k: Key, e: Error) {
    exists j: nat :: Failure(h, acts, j, k, e)
  }

  predicate Carries(pc: Pc, e: Error) {
    || ((pc.Failing? || pc.Unregistering?) && pc.error == e)
    || (pc.Done? && pc.outcome == Threw(e))
  }

  ghost predicate FailureInv(h: seq<Sys>, acts: seq<Action>) {
    && |h| == |acts| + 1 && Inv(h[|h| - 1])
    && var s := h[|h| - 1];
       && (forall t, e :: t in s.threads && Carries(s.threads[t], e) ==> HasFailure(h, acts, s.threads[t].key, e))
       && (forall id, e :: 0 <= id < |s.promises| && s.promises[id].result == Some(Threw(e)) ==>
             HasFailure(h, acts, s.promises[id].key, e))
  }

  lemma {:induction false} FailuresGrow(h: seq<Sys>, acts: seq<Action>, s': Sys, a: Action)
    requires |h| == |acts| + 1
    ensures forall k, e :: HasFailure(h, acts, k, e) ==> HasFailure(h + [s'], acts + [a], k, e)
  {
    forall k, e | HasFailure(h, acts, k, e) ensures HasFailure(h + [s'], acts + [a], k, e) {
      var j: nat :| Failure(h, acts, j, k, e);
      assert Failure(h + [s'], acts + [a], j, k, e);
    }
  }

  /** An exception that a step shows was thrown in that step, or was carried by the stepping thread or its promise. */
  lemma {:induction false} ExceptionsAreOld(s: Sys, a: Action, e: Error)
    requires Inv(s) && Enabled(s, a) && a.t in Step(s, a).threads && Carries(Step(s, a).threads[a.t], e)
    ensures var pc, pc' := s.threads[a.t], Step(s, a).threads[a.t];
            || (a.FactoryThrows? && a.error == e && pc.Running? && pc.key == pc'.key)
            || (Carries(pc, e) && pc.key == pc'.key)
            || (pc.Waiting? && pc.id < |s.promises| && pc.key == pc'.key && s.promises[pc.id].key == pc.key
                && s.promises[pc.id].result == Some(Threw(e)))
  {
    hide Inv;
    AtPlace(s, a.t);
  }

  lemma {:induction false} ResultsAreOld(s: Sys, a: Action, id: nat, e: Error)
    requires Inv(s) && Enabled(s, a) && id < |Step(s, a).promises| && Step(s, a).promises[id].result == Some(Threw(e))
    ensures var p := Step(s, a).promises[id];
            || (id < |s.promises| && s.promises[id].key == p.key && s.promises[id].result == Some(Threw(e)))
            || (Carries(s.threads[a.t], e) && s.threads[a.t].key == p.key)
  {
    hide Inv;
    AtPlace(s, a.t);
  }

  lemma {:induction false} StepKeepsFailures(h: seq<Sys>, acts: seq<Action>, a: Action)
    requires FailureInv(h, acts) && Enabled(h[|h| - 1], a)
    ensures FailureInv(h + [Step(h[|h| - 1], a)], acts + [a])
  {
    var s := h[|h| - 1];
    var s' := Step(s, a);
    StepKeeps(s, a);
    StepCounts(s, a);
    FailuresGrow(h, acts, s', a);
    hide Inv, Step, Enabled, Carries, HasFailure;
    forall t, e | t in s'.threads && Carries(s'.threads[t], e) ensures HasFailure(h + [s'], acts + [a], s'.threads[t].key, e) {
      if t == a.t {
        ExceptionsAreOld(s, a, e);
        if a.FactoryThrows? && a.error == e && s.threads[t].Running? && s.threads[t].key == s'.threads[t].key {
          ThrownNow(h, acts, s', a);
        }
      }
    }
    forall id, e | 0 <= id < |s'.promises| && s'.promises[id].result == Some(Threw(e))
      ensures HasFailure(h + [s'], acts + [a], s'.promises[id].key, e)
    {
      ResultsAreOld(s, a, id, e);
    }
  }

  lemma {:induction false} ThrownNow(h: seq<Sys>, acts: seq<Action>, s': Sys, a: Action)
    requires |h| == |acts| + 1 && a.FactoryThrows? && a.t in h[|h| - 1].threads && h[|h| - 1].threads[a.t].Running?
    ensures HasFailure(h + [s'], acts + [a], h[|h| - 1].threads[a.t].key, a.error)
  {
    assert Failure(h + [s'], acts + [a], |acts|, h[|h| - 1].threads[a.t].key, a.error);
  }

  lemma {:induction false} RunKeepsFailures(h: seq<Sys>, acts: seq<Action>, actions: seq<Action>)
    requires FailureInv(h, acts) && Executes(h[|h| - 1], actions)
    ensures FailureInv(Trace(h, actions), acts + actions)
    decreases |actions|
  {
    hide Inv, Step, Enabled, Carries, HasFailure;
    if actions == [] {
      assert acts + [] == acts;
    } else {
      var s := h[|h| - 1];
      StepKeeps(s, actions[0]);
      StepKeepsFailures(h, acts, actions[0]);
      RunKeepsFailures(h + [Step(s, actions[0])], acts + [actions[0]], actions[1..]);
      assert acts + [actions[0]] + actions[1..] == acts + actions;
    }
  }

  /** Every exception that `get_or_create` throws, as owner or as waiter, was thrown by a factory that ran for its key. */
  lemma {:induction false} ThrownExceptionHasOrigin(
    shardOf: Key -> nat, shards: nat, now: nat, threads: set<nat>, actions: seq<Action>, t: nat)
    requires Executes(Initial(shardOf, shards, now, threads), actions)
    requires var s := LastState(Initial(shardOf, shards, now, threads), actions);
             t in s.threads && s.threads[t].Done? && s.threads[t].outcome.Threw?
    ensures var r := Trace([Initial(shardOf, shards, now, threads)], actions);
            var pc := r[|r| - 1].threads[t];
            HasFailure(r, actions, pc.key, pc.outcome.error)
  {
    var s0 := Initial(shardOf, shards, now, threads);
    assert FailureInv([s0], []);
    hide Executes, Trace, Inv, HasFailure;
    RunKeepsFailures([s0], [], actions);
    assert [] + actions == actions;
    var r := Trace([s0], actions);
    assert Carries(r[|r| - 1].threads[t], r[|r| - 1].threads[t].outcome.error);
  }

  // ----- stores -----

  /** A publication leaves every live entry alone, maps its key, and touches no other key; an insertion and an erasure
      change exactly their key. */
  lemma {:induction false} StoresAreExact(s: Sys, a: Action, k: Key)
    requires Inv(s) && Enabled(s, a) && (a.Publish? || a.InsertLocked? || a.Erase?)
    ensures var s' := Step(s, a);
            var key := if a.Erase? then a.key else s.threads[a.t].key;
            && (k != key ==> (k in s'.values <==> k in s.values) && (k in s.values ==> s'.values[k] == s.values[k]))
            && (a.Erase? ==> key !in s'.values)
            && (a.InsertLocked? ==> key in s'.values && s'.values[key] == s.threads[a.t].entry)
            && (a.Publish? ==> key in s'.values && key !in s'.inFlight)
            && (a.Publish? && s.Fresh(key) ==> s'.values == s.values)
            && (a.Publish? && !s.Fresh(key) ==> s'.values[key] == s.threads[a.t].entry)
  {
    AtPlace(s, a.t);
    hide Inv, PcOk;
  }

  /** The map after the first `n` shards are purged. */
  function PurgedUpTo(values: map<Key, Entry>, shardOf: Key -> nat, n: nat, cutoff: nat): map<Key, Entry> {
    if n == 0 then values else Purged(PurgedUpTo(values, shardOf, n - 1, cutoff), shardOf, n - 1, cutoff)
  }

  lemma {:induction false} PurgedUpToIs(values: map<Key, Entry>, shardOf: Key -> nat, n: nat, cutoff: nat, k: Key)
    ensures var m := PurgedUpTo(values, shardOf, n, cutoff);
            && (k in m <==> k in values && !(shardOf(k) < n && values[k].Expired(cutoff)))
            && (k in m ==> m[k] == values[k])
  {
    if n > 0 {
      PurgedUpToIs(values, shardOf, n - 1, cutoff, k);
    }
  }

  /** The shard by shard purge, when nothing comes between, is the purge of the single map. */
  lemma {:induction false} PurgeIsUnexpired(values: map<Key, Entry>, shardOf: Key -> nat, n: nat, cutoff: nat)
    requires forall k :: shardOf(k) < n
    ensures PurgedUpTo(values, shardOf, n, cutoff) == ShardedCache.Unexpired(values, cutoff)
  {
    var m := PurgedUpTo(values, shardOf, n, cutoff);
    forall k ensures (k in m <==> k in ShardedCache.Unexpired(values, cutoff)) && (k in m ==> m[k] == values[k]) {
      PurgedUpToIs(values, shardOf, n, cutoff, k);
    }
  }

  /** Thread `t` purges the remaining shards without interruption. */
  lemma {:induction false} FinishPurge(s: Sys, t: nat, values: map<Key, Entry>) returns (actions: seq<Action>)
    requires Inv(s) && t in s.threads && s.threads[t].Purging? && s.threads[t].shard < s.shards
    requires s.values == PurgedUpTo(values, s.shardOf, s.threads[t].shard, s.threads[t].cutoff)
    ensures Executes(s, actions)
    ensures var s' := LastState(s, actions);
            && s'.threads == s.threads[t := Idle]
            && s'.values == PurgedUpTo(values, s.shardOf, s.shards, s.threads[t].cutoff)
    decreases s.shards - s.threads[t].shard
  {
    hide Inv, Executes, LastState, PurgedUpTo, Step;
    var a := PurgeShard(t);
    StepKeeps(s, a);
    PurgeStep(s, t, values);
    var s1 := Step(s, a);
    var rest: seq<Action> := [];
    if s.threads[t].shard + 1 < s.shards {
      rest := FinishPurge(s1, t, values);
    } else {
      RunNothing(s1);
    }
    RunCons(s, a, rest);
    actions := [a] + rest;
  }

  lemma {:induction false} PurgeStep(s: Sys, t: nat, values: map<Key, Entry>)
    requires Inv(s) && t in s.threads && s.threads[t].Purging?
    requires s.values == PurgedUpTo(values, s.shardOf, s.threads[t].shard, s.threads[t].cutoff)
    ensures var s', pc := Step(s, PurgeShard(t)), s.threads[t];
            && s'.values == PurgedUpTo(values, s.shardOf, pc.shard + 1, pc.cutoff)
            && s'.shards == s.shards && s'.shardOf == s.shardOf
            && s'.threads == s.threads[t := if pc.shard + 1 < s.shards then Purging(pc.cutoff, pc.shard + 1) else Idle]
  {
    hide Inv, PcOk;
  }

  lemma {:induction false} RunCons(s: Sys, a: Action, rest: seq<Action>)
    requires Inv(s) && Enabled(s, a) && Inv(Step(s, a)) && Executes(Step(s, a), rest)
    ensures Executes(s, [a] + rest) && LastState(s, [a] + rest) == LastState(Step(s, a), rest)
  {
    assert ([a] + rest)[0] == a && ([a] + rest)[1..] == rest;
    TraceSuffix([s, Step(s, a)], [Step(s, a)], rest);
    hide Inv, Step, Enabled;
    assert [s] + [Step(s, a)] == [s, Step(s, a)];
  }

  lemma {:induction false} TraceSuffix(h: seq<Sys>, g: seq<Sys>, actions: seq<Action>)
    requires h != [] && g != [] && h[|h| - 1] == g[|g| - 1] && Inv(h[|h| - 1]) && Executes(h[|h| - 1], actions)
    ensures var r, q := Trace(h, actions), Trace(g, actions);
            r[|r| - 1] == q[|q| - 1]
    decreases |actions|
  {
    hide Inv, Step, Enabled;
    if actions != [] {
      var s := h[|h| - 1];
      StepKeeps(s, actions[0]);
      TraceSuffix(h + [Step(s, actions[0])], g + [Step(s, actions[0])], actions[1..]);
    }
  }

  /** `purge_expired` run alone leaves exactly the entries that are live when it reads the clock, as the single map does. */
  lemma {:induction false} PurgeRunIsUnexpired(s: Sys, t: nat) returns (actions: seq<Action>)
    requires Inv(s) && t in s.threads && s.threads[t].Idle? && s.shards > 0 && forall k :: s.shardOf(k) < s.shards
    ensures Executes(s, actions)
    ensures LastState(s, actions).values == ShardedCache.Unexpired(s.values, s.now)
    ensures LastState(s, actions).threads == s.threads
  {
    hide Inv, Executes, LastState;
    StepKeeps(s, PurgeCall(t));
    var s1 := Step(s, PurgeCall(t));
    var rest := FinishPurge(s1, t, s.values);
    PurgeIsUnexpired(s.values, s.shardOf, s.shards, s.now);
    RunCons(s, PurgeCall(t), rest);
    actions := [PurgeCall(t)] + rest;
    assert s1.threads[t := Idle] == s.threads;
  }
}
