/** What the negated expiry test in `get` does to the cache (src/cache/concurrent_cache.h), and which clients notice. */
module CacheLimits {
  import opened Bytes
  import opened CacheEntries
  import opened CacheRuns

  /** The map that the second half of `get` leaves, thread by thread. */
  ghost predicate Evicts(s: Sys, t: nat) {
    Inv(s) && Enabled(s, GetLocked(t)) && Step(s, GetLocked(t)).values != s.values
  }

  lemma {:induction false} EvictsOnlyLive(s: Sys, t: nat)
    requires Inv(s) && Enabled(s, GetLocked(t))
    ensures Evicts(s, t) <==> s.Fresh(s.threads[t].key)
    ensures Evicts(s, t) ==> Step(s, GetLocked(t)).values == s.values - {s.threads[t].key}
  {
    if s.Fresh(s.threads[t].key) {
      assert s.threads[t].key !in Step(s, GetLocked(t)).values;
    }
  }

  // ----- races -----

  /** The step stores an entry under a key that some `get` has found expired and is about to look at again. */
  ghost predicate Races(s: Sys, a: Action) {
    && Enabled(s, a) && (a.InsertLocked? || a.Publish?)
    && exists u :: u in s.threads && s.threads[u] == Dropping(s.threads[a.t].key)
  }

  ghost predicate RaceFree(s: Sys, actions: seq<Action>)
    requires Inv(s) && Executes(s, actions)
    decreases |actions|
  {
    actions != [] ==>
      !Races(s, actions[0]) && (StepKeeps(s, actions[0]); RaceFree(Step(s, actions[0]), actions[1..]))
  }

  /** Every `get` that is about to look again would find its key missing or expired. */
  ghost predicate Harmless(s: Sys) {
    forall t :: t in s.threads && s.threads[t].Dropping? ==> !s.Fresh(s.threads[t].key)
  }

  lemma {:induction false} StepKeepsHarmless(s: Sys, a: Action)
    requires Inv(s) && Enabled(s, a) && Harmless(s) && !Races(s, a)
    ensures Harmless(Step(s, a))
  {
    hide Inv, PcOk;
    var s' := Step(s, a);
    forall t | t in s'.threads && s'.threads[t].Dropping? ensures !s'.Fresh(s'.threads[t].key) {
      if t != a.t {
        assert s.threads[t] == s'.threads[t];
      }
    }
  }

  /** In a run without such a race no `get` evicts anything, whatever else the clients do: an entry that was found
      expired stays in the map, or is removed by somebody else. */
  lemma {:induction false} RaceFreeRunsEvictNothing(h: seq<Sys>, actions: seq<Action>, t: nat)
    requires h != [] && Inv(h[|h| - 1]) && Harmless(h[|h| - 1])
    requires Executes(h[|h| - 1], actions) && RaceFree(h[|h| - 1], actions)
    ensures var r := Trace(h, actions);
            Harmless(r[|r| - 1]) && !Evicts(r[|r| - 1], t)
    decreases |actions|
  {
    var s := h[|h| - 1];
    if actions == [] {
      if Enabled(s, GetLocked(t)) {
        EvictsOnlyLive(s, t);
      }
    } else {
      hide Inv, Step, Enabled, Harmless, Evicts;
      StepKeeps(s, actions[0]);
      StepKeepsHarmless(s, actions[0]);
      RaceFreeRunsEvictNothing(h + [Step(s, actions[0])], actions[1..], t);
    }
  }

  // ----- clients -----

  /** What the clients of a cache do: whether they call `get`, use times-to-live other than zero, insert, and create. */
  datatype Client = Client(gets: bool, expires: bool, inserts: bool, creates: bool)

  predicate Permitted(a: Action, c: Client) {
    match a
    case Get(_, _) => c.gets
    case InsertCall(_, _, _, ttl) => c.inserts && (c.expires || ttl == 0)
    case Call(_, _) => c.creates
    case FactoryReturns(_, _, ttl) => c.expires || ttl == 0
    case _ => true
  }

  ghost predicate PermittedRun(actions: seq<Action>, c: Client) {
    forall i :: 0 <= i < |actions| ==> Permitted(actions[i], c)
  }

  predicate Eternal(e: Entry) { e.expiresAt.None? }

  /** Why a client may be safe: nobody is inside a `get`, nothing expires, nothing is stored, or there is one thread. */
  ghost predicate NoGets(s: Sys) {
    forall t :: t in s.threads ==> !s.threads[t].Dropping?
  }

  ghost predicate NothingExpires(s: Sys) {
    && NoGets(s)
    && (forall k :: k in s.values ==> Eternal(s.values[k]))
    && (forall t :: t in s.threads && (s.threads[t].Made? || s.threads[t].Inserting?) ==> Eternal(s.threads[t].entry))
  }

  ghost predicate NothingStored(s: Sys) {
    s.values == map[] && forall t :: t in s.threads ==> s.threads[t].Idle? || s.threads[t].Purging?
  }

  ghost predicate OneThread(s: Sys) {
    Harmless(s) && forall t, u :: t in s.threads && u in s.threads ==> t == u
  }

  ghost predicate Safe(s: Sys, c: Client) {
    || (!c.gets && NoGets(s))
    || (!c.expires && NothingExpires(s))
    || (!c.inserts && !c.creates && NothingStored(s))
    || OneThread(s)
  }

  lemma {:induction false} StepKeepsNoGets(s: Sys, a: Action)
    requires Inv(s) && Enabled(s, a) && NoGets(s) && !a.Get?
    ensures NoGets(Step(s, a))
  {
    hide Inv, PcOk;
    StepCounts(s, a);
  }

  lemma {:induction false} StepKeepsNothingExpires(s: Sys, a: Action, c: Client)
    requires Inv(s) && Enabled(s, a) && NothingExpires(s) && Permitted(a, c) && !c.expires
    ensures NothingExpires(Step(s, a))
  {
    hide Inv, PcOk;
    StepCounts(s, a);
    var s' := Step(s, a);
    forall t | t in s'.threads
      ensures !s'.threads[t].Dropping? && (s'.threads[t].Made? || s'.threads[t].Inserting? ==> Eternal(s'.threads[t].entry))
    {
      if t != a.t {
        assert s'.threads[t] == s.threads[t];
      }
    }
  }

  lemma {:induction false} StepKeepsNothingStored(s: Sys, a: Action, c: Client)
    requires Inv(s) && Enabled(s, a) && NothingStored(s) && Permitted(a, c) && !c.inserts && !c.creates
    ensures NothingStored(Step(s, a))
  {
    hide Inv, PcOk;
    StepCounts(s, a);
    assert Step(s, a).values == map[];
  }

  lemma {:induction false} StepKeepsOneThread(s: Sys, a: Action)
    requires Inv(s) && Enabled(s, a) && OneThread(s)
    ensures OneThread(Step(s, a))
  {
    StepCounts(s, a);
    hide Step, Inv;
    StepKeepsHarmless(s, a);
  }

  lemma {:induction false} StepKeepsSafe(s: Sys, a: Action, c: Client)
    requires Inv(s) && Enabled(s, a) && Permitted(a, c) && Safe(s, c)
    ensures Safe(Step(s, a), c)
  {
    hide Inv, Step, NoGets, NothingExpires, NothingStored, OneThread;
    if !c.gets && NoGets(s) {
      StepKeepsNoGets(s, a);
    } else if !c.expires && NothingExpires(s) {
      StepKeepsNothingExpires(s, a, c);
    } else if !c.inserts && !c.creates && NothingStored(s) {
      StepKeepsNothingStored(s, a, c);
    } else {
      StepKeepsOneThread(s, a);
    }
  }

  lemma {:induction false} SafeRunsEvictNothing(h: seq<Sys>, actions: seq<Action>, c: Client, t: nat)
    requires h != [] && Inv(h[|h| - 1]) && Safe(h[|h| - 1], c)
    requires Executes(h[|h| - 1], actions) && PermittedRun(actions, c)
    ensures var r := Trace(h, actions);
            !Evicts(r[|r| - 1], t)
    decreases |actions|
  {
    var s := h[|h| - 1];
    if actions == [] {
      if Enabled(s, GetLocked(t)) {
        EvictsOnlyLive(s, t);
      }
    } else {
      hide Inv, Step, Enabled, Safe, Evicts;
      StepKeeps(s, actions[0]);
      StepKeepsSafe(s, actions[0], c);
      SafeRunsEvictNothing(h + [Step(s, actions[0])], actions[1..], c, t);
    }
  }

  // ----- a client that loses an entry -----

  ghost predicate Reaches(s0: Sys, actions: seq<Action>, c: Client, s: Sys) {
    Inv(s0) && Executes(s0, actions) && PermittedRun(actions, c) && LastState(s0, actions) == s
  }

  lemma {:induction false} Extend(s0: Sys, actions: seq<Action>, c: Client, s: Sys, a: Action) returns (more: seq<Action>)
    requires Reaches(s0, actions, c, s) && Inv(s) && Enabled(s, a) && Permitted(a, c)
    ensures Reaches(s0, more, c, Step(s, a))
  {
    hide Inv, Step, Enabled, Executes, LastState;
    more := RunSnoc(s0, actions, a);
  }

  /** The same threads at the same time, with one more entry in the map. */
  ghost predicate Stored(s: Sys, s': Sys, k: Key, v: Value, ttl: nat) {
    && Inv(s') && s'.threads == s.threads && s'.now == s.now && s'.inFlight == s.inFlight
    && s'.values == s.values[k := Entry(v, Expiry(s, ttl))]
  }

  lemma {:induction false} InsertRun(s0: Sys, before: seq<Action>, c: Client, s: Sys, t: nat, k: Key, v: Value, ttl: nat)
    returns (actions: seq<Action>, s': Sys)
    requires Reaches(s0, before, c, s) && Inv(s) && c.inserts && (c.expires || ttl == 0)
    requires t in s.threads && s.threads[t].Idle?
    ensures Reaches(s0, actions, c, s') && Stored(s, s', k, v, ttl)
  {
    hide Inv, Reaches;
    actions := Extend(s0, before, c, s, InsertCall(t, k, v, ttl));
    StepKeeps(s, InsertCall(t, k, v, ttl));
    var s1 := Step(s, InsertCall(t, k, v, ttl));
    actions := Extend(s0, actions, c, s1, InsertLocked(t));
    StepKeeps(s1, InsertLocked(t));
    s' := Step(s1, InsertLocked(t));
    assert s'.threads == s.threads;
  }

  /** `get_or_create` by a thread that finds neither an entry nor another factory. */
  lemma {:induction false} CreateRun(s0: Sys, before: seq<Action>, c: Client, s: Sys, t: nat, k: Key, v: Value, ttl: nat)
    returns (actions: seq<Action>, s': Sys)
    requires Reaches(s0, before, c, s) && Inv(s) && c.creates && (c.expires || ttl == 0)
    requires t in s.threads && s.threads[t].Idle? && !s.Fresh(k) && k !in s.inFlight
    ensures Reaches(s0, actions, c, s') && Stored(s, s', k, v, ttl)
  {
    hide Inv, Reaches;
    var made: Sys;
    actions, made := FactoryRun(s0, before, c, s, t, k, v, ttl);
    AtPlace(made, t);
    actions := Extend(s0, actions, c, made, Publish(t));
    StepKeeps(made, Publish(t));
    var s1 := Step(made, Publish(t));
    AtPlace(s1, t);
    actions := Extend(s0, actions, c, s1, SetValue(t));
    StepKeeps(s1, SetValue(t));
    var s2 := Step(s1, SetValue(t));
    actions := Extend(s0, actions, c, s2, Return(t));
    StepKeeps(s2, Return(t));
    s' := Step(s2, Return(t));
    assert s'.threads == s.threads && s'.inFlight == s.inFlight;
  }

  lemma {:induction false} FactoryRun(s0: Sys, before: seq<Action>, c: Client, s: Sys, t: nat, k: Key, v: Value, ttl: nat)
    returns (actions: seq<Action>, s': Sys)
    requires Reaches(s0, before, c, s) && Inv(s) && c.creates && (c.expires || ttl == 0)
    requires t in s.threads && s.threads[t].Idle? && !s.Fresh(k) && k !in s.inFlight
    ensures Reaches(s0, actions, c, s') && Inv(s') && s'.values == s.values && s'.now == s.now
    ensures t in s'.threads && s'.threads[t].Made? && s'.threads[t].key == k && s'.threads[t].entry == Entry(v, Expiry(s, ttl))
    ensures s'.threads == s.threads[t := s'.threads[t]] && s'.inFlight - {k} == s.inFlight
  {
    hide Inv, Reaches;
    actions := Extend(s0, before, c, s, Call(t, k));
    StepKeeps(s, Call(t, k));
    var s1 := Step(s, Call(t, k));
    actions := Extend(s0, actions, c, s1, FastGet(t));
    StepKeeps(s1, FastGet(t));
    var s2 := Step(s1, FastGet(t));
    actions := Extend(s0, actions, c, s2, Register(t));
    StepKeeps(s2, Register(t));
    var s3 := Step(s2, Register(t));
    actions := Extend(s0, actions, c, s3, FactoryReturns(t, v, ttl));
    StepKeeps(s3, FactoryReturns(t, v, ttl));
    s' := Step(s3, FactoryReturns(t, v, ttl));
    assert s'.threads == s.threads[t := s'.threads[t]];
  }

  lemma {:induction false} StoreRun(s0: Sys, before: seq<Action>, c: Client, s: Sys, t: nat, k: Key, v: Value, ttl: nat)
    returns (actions: seq<Action>, s': Sys)
    requires Reaches(s0, before, c, s) && Inv(s) && (c.inserts || c.creates) && (c.expires || ttl == 0)
    requires t in s.threads && s.threads[t].Idle? && !s.Fresh(k) && k !in s.inFlight
    ensures Reaches(s0, actions, c, s') && Stored(s, s', k, v, ttl)
  {
    hide Inv, Reaches, Stored;
    if c.inserts {
      actions, s' := InsertRun(s0, before, c, s, t, k, v, ttl);
    } else {
      actions, s' := CreateRun(s0, before, c, s, t, k, v, ttl);
    }
  }

  /** Thread `a` sees an expired entry, thread `b` replaces it with one that never expires, and `a` evicts that one. */
  lemma {:induction false} GetCanDropFresh(
    s0: Sys, a: nat, b: nat, k: Key, stale: Value, renewed: Value, c: Client) returns (actions: seq<Action>)
    requires Inv(s0) && a in s0.threads && b in s0.threads && a != b && s0.threads[a].Idle? && s0.threads[b].Idle?
    requires s0.values == map[] && s0.inFlight == map[]
    requires c.gets && c.expires && (c.inserts || c.creates)
    ensures Executes(s0, actions) && PermittedRun(actions, c)
    ensures var s := LastState(s0, actions);
            && Evicts(s, a) && s.threads[a] == Dropping(k)
            && k in s.values && s.values[k] == Entry(renewed, None) && k !in Step(s, GetLocked(a)).values
  {
    var s: Sys;
    actions, s := FindExpired(s0, a, b, k, stale, c);
    hide Inv, Executes, LastState, PermittedRun, Step, Evicts;
    var s': Sys;
    actions, s' := StoreRun(s0, actions, c, s, b, k, renewed, 0);
    assert s'.Fresh(k) && s'.values[k] == Entry(renewed, None) && Enabled(s', GetLocked(a));
    EvictsOnlyLive(s', a);
  }

  /** Thread `b` stores an entry that expires, and thread `a` finds it expired. */
  lemma {:induction false} FindExpired(s0: Sys, a: nat, b: nat, k: Key, stale: Value, c: Client)
    returns (actions: seq<Action>, s: Sys)
    requires Inv(s0) && a in s0.threads && b in s0.threads && a != b && s0.threads[a].Idle? && s0.threads[b].Idle?
    requires s0.values == map[] && s0.inFlight == map[]
    requires c.gets && c.expires && (c.inserts || c.creates)
    ensures Reaches(s0, actions, c, s) && Inv(s) && s.threads == s0.threads[a := Dropping(k)]
    ensures !s.Fresh(k) && s.inFlight == map[]
  {
    assert Reaches(s0, [], c, s0) by { RunNothing(s0); }
    hide Inv, Reaches;
    var s1: Sys;
    actions, s1 := StoreRun(s0, [], c, s0, b, k, stale, 1);
    actions := Extend(s0, actions, c, s1, Tick(b, 1));
    StepKeeps(s1, Tick(b, 1));
    var s2 := Step(s1, Tick(b, 1));
    assert s2.threads == s0.threads && k in s2.values && !s2.Fresh(k) && s2.inFlight == map[];
    actions := Extend(s0, actions, c, s2, Get(a, k));
    StepKeeps(s2, Get(a, k));
    s := Step(s2, Get(a, k));
  }

  ghost predicate NeverEvicts(s0: Sys, c: Client)
    requires Inv(s0)
  {
    forall actions, t :: Executes(s0, actions) && PermittedRun(actions, c) ==> !Evicts(LastState(s0, actions), t)
  }

  /** No run of a client makes `get` evict an entry exactly when the client does not use `get`, or no entry ever expires,
      or nothing is ever stored, or there is only one thread. */
  lemma {:induction false} GetEvictsNothingIff(
    shardOf: Key -> nat, shards: nat, now: nat, threads: set<nat>, c: Client, k: Key, stale: Value, renewed: Value)
    ensures NeverEvicts(Initial(shardOf, shards, now, threads), c)
        <==> !(c.gets && c.expires && (c.inserts || c.creates) && |threads| > 1)
  {
    var s0 := Initial(shardOf, shards, now, threads);
    if c.gets && c.expires && (c.inserts || c.creates) && |threads| > 1 {
      var a :| a in threads;
      assert |threads - {a}| > 0;
      var b :| b in threads - {a};
      hide Executes, LastState, PermittedRun, Evicts;
      var actions := GetCanDropFresh(s0, a, b, k, stale, renewed, c);
    } else {
      AtMostOne(threads);
      assert Safe(s0, c);
      hide Inv, Safe, Evicts, PermittedRun, Initial;
      forall actions, t | Executes(s0, actions) && PermittedRun(actions, c) ensures !Evicts(LastState(s0, actions), t) {
        SafeRunsEvictNothing([s0], actions, c, t);
      }
    }
  }

  lemma {:induction false} AtMostOne(s: set<nat>)
    ensures |s| <= 1 ==> forall t, u :: t in s && u in s ==> t == u
  {
    forall t, u | |s| <= 1 && t in s && u in s ensures t == u {
      assert |s - {t}| == |s| - 1;
      assert u in s - {t} || u == t;
    }
  }
}
