/** `get_or_create` with stampede protection, interleaved with every other cache operation
    (src/cache/concurrent_cache.h). */
module CacheRuns {
  import opened Bytes
  import opened CacheEntries

  /** What a call gives back: a value, or the exception of the factory. */
  datatype Outcome = Returned(value: Value) | Threw(error: Error)

  /** The value that an owner published, and the state of the run in which it was first mapped. */
  datatype Publication = Publication(value: Value, at: nat)

  /** A `factory_state`: who registered it, what was published for it, and how its promise was fulfilled. */
  datatype Promise = Promise(
    key: Key, owner: nat, published: Option<Publication>, fulfilments: nat, result: Option<Outcome>)

  /** Where a thread is. `since` is the state of the run in which its call started. */
  datatype Pc =
    | Idle
    | Starting(key: Key, since: nat)
    | Missed(key: Key, since: nat)
    | Waiting(key: Key, id: nat, since: nat)
    | Running(key: Key, id: nat, since: nat)
    | Made(key: Key, id: nat, entry: Entry, since: nat)
    | Publishing(key: Key, id: nat, since: nat)
    | Failing(key: Key, id: nat, error: Error, since: nat)
    | Unregistering(key: Key, id: nat, error: Error, since: nat)
    | Done(key: Key, outcome: Outcome, since: nat)
    | Inserting(key: Key, entry: Entry)
    | Dropping(key: Key)
    | Purging(cutoff: nat, shard: nat)
  {
    /** Between registering and removing the in-flight entry. */
    predicate Registered() { Running? || Made? || Failing? || Unregistering? }

    /** Bound to fulfil its promise and has not yet done so. */
    predicate Unfulfilled() { Running? || Made? || Failing? || Publishing? }
  }

  datatype Sys = Sys(
    shardOf: Key -> nat, shards: nat,
    values: map<Key, Entry>, inFlight: map<Key, nat>, promises: seq<Promise>,
    now: nat, step: nat, threads: map<nat, Pc>)
  {
    /** The key is mapped to an entry that has not expired. */
    predicate Fresh(k: Key) { k in values && !values[k].Expired(now) }
  }

  datatype Action =
    | Tick(t: nat, delta: nat)
    | Call(t: nat, key: Key)
    | FastGet(t: nat)
    | Register(t: nat)
    | FactoryReturns(t: nat, made: Value, ttl: nat)
    | FactoryThrows(t: nat, error: Error)
    | Publish(t: nat)
    | SetValue(t: nat)
    | SetException(t: nat)
    | RemoveInFlight(t: nat)
    | Await(t: nat)
    | Return(t: nat)
    | InsertCall(t: nat, key: Key, made: Value, ttl: nat)
    | InsertLocked(t: nat)
    | Erase(t: nat, key: Key)
    | Get(t: nat, key: Key)
    | GetLocked(t: nat)
    | PurgeCall(t: nat)
    | PurgeShard(t: nat)

  predicate Enabled(s: Sys, a: Action) {
    && a.t in s.threads
    && var pc := s.threads[a.t];
       match a
       case Tick(_, _) => true
       case Call(_, _) => pc.Idle?
       case FastGet(_) => pc.Starting?
       case Register(_) => pc.Missed?
       case FactoryReturns(_, _, _) => pc.Running?
       case FactoryThrows(_, _) => pc.Running?
       case Publish(_) => pc.Made?
       case SetValue(_) => pc.Publishing?
       case SetException(_) => pc.Failing?
       case RemoveInFlight(_) => pc.Unregistering?
       case Await(_) => pc.Waiting? && pc.id < |s.promises| && s.promises[pc.id].result.Some?
       case Return(_) => pc.Done?
       case InsertCall(_, _, _, _) => pc.Idle?
       case InsertLocked(_) => pc.Inserting?
       case Erase(_, _) => pc.Idle?
       case Get(_, _) => pc.Idle?
       case GetLocked(_) => pc.Dropping?
       case PurgeCall(_) => pc.Idle?
       case PurgeShard(_) => pc.Purging?
  }

  // ----- invariant -----

  /** What a thread's place says about the promise it refers to. */
  ghost predicate PcOk(s: Sys, t: nat, pc: Pc) {
    && (pc.Waiting? || pc.Registered() || pc.Publishing? ==> pc.id < |s.promises| && s.promises[pc.id].key == pc.key)
    && (pc.Registered() || pc.Publishing? ==> s.promises[pc.id].owner == t)
    && (pc.Registered() ==> pc.key in s.inFlight && s.inFlight[pc.key] == pc.id)
    && (pc.Unfulfilled() ==> s.promises[pc.id].fulfilments == 0)
    && (pc.Unregistering? ==> s.promises[pc.id].result == Some(Threw(pc.error)))
    && (pc.Publishing? ==> s.promises[pc.id].published.Some?)
    && (pc.Purging? ==> pc.cutoff <= s.now)
  }

  /** A promise is fulfilled at most once, and until then one thread is bound to fulfil it. */
  ghost predicate PromiseOk(s: Sys, id: nat, p: Promise) {
    && p.fulfilments <= 1
    && (p.result.Some? <==> p.fulfilments == 1)
    && (p.fulfilments == 0 ==>
          p.owner in s.threads && s.threads[p.owner].Unfulfilled() && s.threads[p.owner].id == id)
    && (p.result.Some? && p.result.value.Returned? ==> p.published.Some? && p.published.value.value == p.result.value.value)
  }

  /** An in-flight entry belongs to one thread between registering and removing it. */
  ghost predicate InFlightOk(s: Sys, k: Key, id: nat) {
    && id < |s.promises| && s.promises[id].key == k && s.promises[id].published.None?
    && s.promises[id].owner in s.threads
    && var pc := s.threads[s.promises[id].owner];
       pc.Registered() && pc.key == k && pc.id == id
  }

  ghost predicate Inv(s: Sys) {
    && (forall t :: t in s.threads ==> PcOk(s, t, s.threads[t]))
    && (forall id :: 0 <= id < |s.promises| ==> PromiseOk(s, id, s.promises[id]))
    && (forall k :: k in s.inFlight ==> InFlightOk(s, k, s.inFlight[k]))
  }

  // ----- steps -----

  function Move(s: Sys, t: nat, pc: Pc): Sys {
    s.(threads := s.threads[t := pc], step := s.step + 1)
  }

  function Expiry(s: Sys, ttl: nat): Option<nat> {
    ExpiryAt(s.now, ttl)
  }

  function Fulfil(s: Sys, id: nat, o: Outcome): Sys
    requires id < |s.promises|
  {
    var p := s.promises[id];
    s.(promises := s.promises[id := p.(fulfilments := p.fulfilments + 1, result := Some(o))])
  }

  function Step(s: Sys, a: Action): Sys
    requires Inv(s) && Enabled(s, a)
  {
    var t := a.t;
    var pc := s.threads[t];
    assert PcOk(s, t, pc);
    match a
    case Tick(_, delta) => s.(now := s.now + delta, step := s.step + 1)
    case Call(_, key) => Move(s, t, Starting(key, s.step))
    case FastGet(_) =>
      Move(s, t, if s.Fresh(pc.key) then Done(pc.key, Returned(s.values[pc.key].value), pc.since)
                 else Missed(pc.key, pc.since))
    case Register(_) =>
      if s.Fresh(pc.key) then Move(s, t, Done(pc.key, Returned(s.values[pc.key].value), pc.since))
      else if pc.key in s.inFlight then Move(s, t, Waiting(pc.key, s.inFlight[pc.key], pc.since))
      else
        var id := |s.promises|;
        Move(s, t, Running(pc.key, id, pc.since))
          .(promises := s.promises + [Promise(pc.key, t, None, 0, None)], inFlight := s.inFlight[pc.key := id])
    case FactoryReturns(_, made, ttl) => Move(s, t, Made(pc.key, pc.id, Entry(made, Expiry(s, ttl)), pc.since))
    case FactoryThrows(_, error) => Move(s, t, Failing(pc.key, pc.id, error, pc.since))
    case Publish(_) =>
      var values := if s.Fresh(pc.key) then s.values else s.values[pc.key := pc.entry];
      var p := s.promises[pc.id].(published := Some(Publication(values[pc.key].value, s.step + 1)));
      Move(s, t, Publishing(pc.key, pc.id, pc.since))
        .(values := values, promises := s.promises[pc.id := p], inFlight := s.inFlight - {pc.key})
    case SetValue(_) =>
      var v := s.promises[pc.id].published.value.value;
      Fulfil(Move(s, t, Done(pc.key, Returned(v), pc.since)), pc.id, Returned(v))
    case SetException(_) =>
      Fulfil(Move(s, t, Unregistering(pc.key, pc.id, pc.error, pc.since)), pc.id, Threw(pc.error))
    case RemoveInFlight(_) =>
      Move(s, t, Done(pc.key, Threw(pc.error), pc.since))
        .(inFlight := if pc.key in s.inFlight && s.inFlight[pc.key] == pc.id then s.inFlight - {pc.key} else s.inFlight)
    case Await(_) => Move(s, t, Done(pc.key, s.promises[pc.id].result.value, pc.since))
    case Return(_) => Move(s, t, Idle)
    case InsertCall(_, key, made, ttl) => Move(s, t, Inserting(key, Entry(made, Expiry(s, ttl))))
    case InsertLocked(_) => Move(s, t, Idle).(values := s.values[pc.key := pc.entry])
    case Erase(_, key) => Move(s, t, Idle).(values := s.values - {key})
    case Get(_, key) => Move(s, t, if key in s.values && !s.Fresh(key) then Dropping(key) else Idle)
    case GetLocked(_) => Move(s, t, Idle).(values := if s.Fresh(pc.key) then s.values - {pc.key} else s.values)
    case PurgeCall(_) => Move(s, t, Purging(s.now, 0))
    case PurgeShard(_) =>
      Move(s, t, if pc.shard + 1 < s.shards then Purging(pc.cutoff, pc.shard + 1) else Idle)
        .(values := Purged(s.values, s.shardOf, pc.shard, pc.cutoff))
  }

  function Purged(values: map<Key, Entry>, shardOf: Key -> nat, shard: nat, cutoff: nat): map<Key, Entry> {
    map k | k in values && !(shardOf(k) == shard && values[k].Expired(cutoff)) :: values[k]
  }

  /** A step that leaves the promises and the in-flight table alone and moves `t` between places that say nothing new. */
  lemma {:induction false} QuietStep(s: Sys, s': Sys, t: nat)
    requires Inv(s) && t in s.threads
    requires s'.promises == s.promises && s'.inFlight == s.inFlight && s.now <= s'.now
    requires t in s'.threads && PcOk(s', t, s'.threads[t])
    requires s'.threads == s.threads[t := s'.threads[t]] || s'.threads == s.threads
    requires s.threads[t].Unfulfilled() == s'.threads[t].Unfulfilled()
    requires s.threads[t].Registered() == s'.threads[t].Registered()
    requires s.threads[t].Unfulfilled() || s.threads[t].Registered() ==>
               s.threads[t].id == s'.threads[t].id && s.threads[t].key == s'.threads[t].key
    ensures Inv(s')
  {
  }

  lemma {:induction false} RegisterKeeps(s: Sys, t: nat)
    requires Inv(s) && Enabled(s, Register(t)) && !s.Fresh(s.threads[t].key) && s.threads[t].key !in s.inFlight
    ensures Inv(Step(s, Register(t)))
  {
  }

  lemma {:induction false} PublishKeeps(s: Sys, t: nat)
    requires Inv(s) && Enabled(s, Publish(t))
    ensures Inv(Step(s, Publish(t)))
  {
  }

  lemma {:induction false} FulfilKeeps(s: Sys, a: Action)
    requires Inv(s) && Enabled(s, a) && (a.SetValue? || a.SetException?)
    ensures Inv(Step(s, a))
  {
  }

  lemma {:induction false} RemoveInFlightKeeps(s: Sys, t: nat)
    requires Inv(s) && Enabled(s, RemoveInFlight(t))
    ensures Inv(Step(s, RemoveInFlight(t)))
  {
  }

  lemma {:induction false} AtPlace(s: Sys, t: nat)
    requires Inv(s) && t in s.threads
    ensures PcOk(s, t, s.threads[t])
    ensures s.threads[t].Missed? && s.threads[t].key in s.inFlight ==>
              InFlightOk(s, s.threads[t].key, s.inFlight[s.threads[t].key])
  {
  }

  lemma {:induction false} AtInFlight(s: Sys, k: Key)
    requires Inv(s) && k in s.inFlight
    ensures InFlightOk(s, k, s.inFlight[k])
  {
  }

  lemma {:induction false} AtPromise(s: Sys, id: nat)
    requires Inv(s) && id < |s.promises|
    ensures PromiseOk(s, id, s.promises[id])
  {
  }

  /** Every step of every thread keeps the invariant. */
  lemma {:induction false} StepKeeps(s: Sys, a: Action)
    requires Inv(s) && Enabled(s, a)
    ensures Inv(Step(s, a))
  {
    hide Inv, PromiseOk;
    var pc := s.threads[a.t];
    AtPlace(s, a.t);
    if a.Register? && !s.Fresh(pc.key) && pc.key !in s.inFlight {
      RegisterKeeps(s, a.t);
    } else if a.Publish? {
      PublishKeeps(s, a.t);
    } else if a.SetValue? || a.SetException? {
      FulfilKeeps(s, a);
    } else if a.RemoveInFlight? {
      RemoveInFlightKeeps(s, a.t);
    } else {
      QuietStep(s, Step(s, a), a.t);
    }
  }

  // ----- runs -----

  /** An empty cache and a set of idle threads. */
  function Initial(shardOf: Key -> nat, shards: nat, now: nat, threads: set<nat>): (s: Sys)
    ensures Inv(s)
  {
    Sys(shardOf, shards, map[], map[], [], now, 0, map t | t in threads :: Idle)
  }

  ghost predicate Executes(s: Sys, actions: seq<Action>)
    requires Inv(s)
    decreases |actions|
  {
    actions != [] ==>
      Enabled(s, actions[0]) && (StepKeeps(s, actions[0]); Executes(Step(s, actions[0]), actions[1..]))
  }

  /** `history` extended by the states that the actions lead through. */
  ghost function Trace(history: seq<Sys>, actions: seq<Action>): (r: seq<Sys>)
    requires history != [] && Inv(history[|history| - 1]) && Executes(history[|history| - 1], actions)
    ensures r != [] && Inv(r[|r| - 1])
    decreases |actions|
  {
    if actions == [] then history
    else
      var s := history[|history| - 1];
      StepKeeps(s, actions[0]);
      Trace(history + [Step(s, actions[0])], actions[1..])
  }

  ghost function LastState(s0: Sys, actions: seq<Action>): (s: Sys)
    requires Inv(s0) && Executes(s0, actions)
    ensures Inv(s)
  {
    var r := Trace([s0], actions);
    r[|r| - 1]
  }

  // ----- stampede protection -----

  /** At most one thread is between registering and removing a key, so at most one runs its factory. */
  ghost predicate OneOwnerPerKey(s: Sys) {
    forall t, u :: t in s.threads && u in s.threads && SameKeyRegistered(s.threads[t], s.threads[u]) ==> t == u
  }

  predicate SameKeyRegistered(a: Pc, b: Pc) {
    a.Registered() && b.Registered() && a.key == b.key
  }

  /** A key is in flight exactly while some thread is between registering and removing it. */
  ghost predicate InFlightExactlyOwned(s: Sys) {
    forall k :: k in s.inFlight <==> exists t :: t in s.threads && s.threads[t].Registered() && s.threads[t].key == k
  }

  /** A waiter's promise is for its key and is fulfilled, or some thread is still bound to fulfil it. */
  ghost predicate WaiterServed(s: Sys, pc: Pc)
    requires pc.Waiting?
  {
    && pc.id < |s.promises|
    && var p := s.promises[pc.id];
       && p.key == pc.key
       && (p.result.None? ==>
             p.owner in s.threads && s.threads[p.owner].Unfulfilled() && s.threads[p.owner].id == pc.id)
  }

  ghost predicate Protected(s: Sys) {
    && OneOwnerPerKey(s)
    && InFlightExactlyOwned(s)
    && (forall id :: 0 <= id < |s.promises| ==> s.promises[id].fulfilments <= 1)
    && (forall t :: t in s.threads && s.threads[t].Waiting? ==> WaiterServed(s, s.threads[t]))
  }

  /** Stampede protection holds in every state of every run. */
  lemma {:induction false} StampedeProtection(
    shardOf: Key -> nat, shards: nat, now: nat, threads: set<nat>, actions: seq<Action>)
    requires Executes(Initial(shardOf, shards, now, threads), actions)
    ensures var r := Trace([Initial(shardOf, shards, now, threads)], actions);
            forall i :: 0 <= i < |r| ==> Protected(r[i])
  {
    hide Protected;
    InvMeansProtected(Initial(shardOf, shards, now, threads));
    TraceProtected([Initial(shardOf, shards, now, threads)], actions);
  }

  lemma {:induction false} TraceProtected(h: seq<Sys>, actions: seq<Action>)
    requires h != [] && Inv(h[|h| - 1]) && Executes(h[|h| - 1], actions)
    requires forall i :: 0 <= i < |h| ==> Protected(h[i])
    ensures forall i :: 0 <= i < |Trace(h, actions)| ==> Protected(Trace(h, actions)[i])
    decreases |actions|
  {
    hide Inv, Step, Enabled, Protected;
    if actions != [] {
      var s := h[|h| - 1];
      StepKeeps(s, actions[0]);
      InvMeansProtected(Step(s, actions[0]));
      TraceProtected(h + [Step(s, actions[0])], actions[1..]);
    }
  }

  lemma {:induction false} InvMeansProtected(s: Sys)
    requires Inv(s)
    ensures Protected(s)
  {
  }

  /** The steps by which a call learns the outcome of its promise: the owner's two and the waiter's. */
  predicate Concludes(a: Action) { a.SetValue? || a.RemoveInFlight? || a.Await? }

  /** A fulfilled promise never changes again. */
  lemma {:induction false} StepKeepsResult(s: Sys, a: Action, id: nat)
    requires Inv(s) && Enabled(s, a) && id < |s.promises| && s.promises[id].result.Some?
    ensures id < |Step(s, a).promises| && Step(s, a).promises[id].result == s.promises[id].result
  {
    hide Inv;
    AtPlace(s, a.t);
    AtPromise(s, id);
  }

  lemma {:induction false} ResultIsFinal(h: seq<Sys>, actions: seq<Action>, id: nat)
    requires h != [] && Inv(h[|h| - 1]) && Executes(h[|h| - 1], actions)
    requires id < |h[|h| - 1].promises| && h[|h| - 1].promises[id].result.Some?
    ensures var r := Trace(h, actions);
            id < |r[|r| - 1].promises| && r[|r| - 1].promises[id].result == h[|h| - 1].promises[id].result
    decreases |actions|
  {
    hide Inv, Step, Enabled;
    if actions != [] {
      var s := h[|h| - 1];
      StepKeeps(s, actions[0]);
      StepKeepsResult(s, actions[0], id);
      ResultIsFinal(h + [Step(s, actions[0])], actions[1..], id);
    }
  }

  /** A call that concludes by a promise ends with the promise's result. */
  lemma {:induction false} ConcludesWithResult(s: Sys, a: Action)
    requires Inv(s) && Enabled(s, a) && Concludes(a)
    ensures var s', id := Step(s, a), s.threads[a.t].id;
            && id < |s'.promises| && s'.promises[id].result.Some?
            && a.t in s'.threads && s'.threads[a.t].Done? && s'.threads[a.t].outcome == s'.promises[id].result.value
  {
  }

  /** Every two calls that conclude by one promise, the owner's and any waiter's, end with the same value or exception,
      whatever runs between them. */
  lemma {:induction false} OwnerAndWaitersAgree(s: Sys, a: Action, actions: seq<Action>, b: Action)
    requires Inv(s) && Enabled(s, a) && Concludes(a)
    requires Inv(Step(s, a)) && Executes(Step(s, a), actions)
    requires var s2 := LastState(Step(s, a), actions);
             Enabled(s2, b) && Concludes(b) && s2.threads[b.t].id == s.threads[a.t].id
    ensures Step(LastState(Step(s, a), actions), b).threads[b.t].outcome == Step(s, a).threads[a.t].outcome
  {
    hide Inv, Step, Executes;
    var id := s.threads[a.t].id;
    ConcludesWithResult(s, a);
    ResultIsFinal([Step(s, a)], actions, id);
    var s2 := LastState(Step(s, a), actions);
    ConcludesWithResult(s2, b);
    StepKeepsResult(s2, b, id);
  }

  // ----- linearization -----

  /** State `i` follows a publication by thread `t` of the entry that its factory made for the key. */
  ghost predicate PublishedBy(h: seq<Sys>, i: nat, t: nat, k: Key) {
    && 0 < i < |h| && k in h[i].values && t in h[i - 1].threads
    && h[i - 1].threads[t].Made? && h[i - 1].threads[t].key == k && h[i - 1].threads[t].entry == h[i].values[k]
  }

  /** In state `i` the key is mapped to the value by an entry that has not expired or was published just then. */
  ghost predicate ServedAt(h: seq<Sys>, i: nat, k: Key, v: Value) {
    && i < |h| && k in h[i].values && h[i].values[k].value == v
    && (h[i].Fresh(k) || exists t :: PublishedBy(h, i, t, k))
  }

  /** The same at some state of the run from `from` on. */
  ghost predicate ServedSince(h: seq<Sys>, from: nat, k: Key, v: Value) {
    exists i: nat :: from <= i && ServedAt(h, i, k, v)
  }

  /** At some state of the run from `from` on, the key had no live entry. */
  ghost predicate MissedSince(h: seq<Sys>, from: nat, k: Key) {
    exists i: nat :: from <= i < |h| && !h[i].Fresh(k)
  }

  /** Thread `t` was idle in state `since` and started a call for the key there. */
  ghost predicate StartedAt(h: seq<Sys>, since: nat, t: nat, k: Key) {
    && since + 1 < |h|
    && t in h[since].threads && h[since].threads[t].Idle?
    && t in h[since + 1].threads && h[since + 1].threads[t] == Starting(k, since)
  }

  predicate InCall(pc: Pc) {
    pc.Starting? || pc.Missed? || pc.Waiting? || pc.Registered() || pc.Publishing? || pc.Done?
  }

  ghost predicate PcLinear(h: seq<Sys>, s: Sys, t: nat, pc: Pc) {
    && (InCall(pc) ==> StartedAt(h, pc.since, t, pc.key))
    && ((pc.Waiting? || pc.Publishing?) && pc.id < |s.promises| && s.promises[pc.id].published.Some? ==>
          pc.since <= s.promises[pc.id].published.value.at)
    && (pc.Done? && pc.outcome.Returned? ==> ServedSince(h, pc.since, pc.key, pc.outcome.value))
    && (pc.Missed? || pc.Waiting? || pc.Registered() || pc.Publishing? ==> MissedSince(h, pc.since, pc.key))
  }

  ghost predicate PromiseLinear(h: seq<Sys>, p: Promise) {
    p.published.Some? ==> ServedAt(h, p.published.value.at, p.key, p.published.value.value)
  }

  ghost predicate LinearInv(h: seq<Sys>) {
    && h != [] && Inv(h[|h| - 1])
    && var s := h[|h| - 1];
       && s.step == |h| - 1
       && (forall t :: t in s.threads ==> PcLinear(h, s, t, s.threads[t]))
       && (forall id :: 0 <= id < |s.promises| ==> PromiseLinear(h, s.promises[id]))
  }

  lemma {:induction false} HistoryGrows(h: seq<Sys>, s': Sys)
    ensures forall i: nat, k, v :: ServedAt(h, i, k, v) ==> ServedAt(h + [s'], i, k, v)
    ensures forall since: nat, k, v :: ServedSince(h, since, k, v) ==> ServedSince(h + [s'], since, k, v)
    ensures forall since: nat, t: nat, k :: StartedAt(h, since, t, k) ==> StartedAt(h + [s'], since, t, k)
    ensures forall since: nat, k :: MissedSince(h, since, k) ==> MissedSince(h + [s'], since, k)
  {
    var h' := h + [s'];
    forall i: nat, k, v | ServedAt(h, i, k, v) ensures ServedAt(h', i, k, v) {
      if !h[i].Fresh(k) {
        var t :| PublishedBy(h, i, t, k);
        assert PublishedBy(h', i, t, k);
      }
    }
    forall since: nat, k, v | ServedSince(h, since, k, v) ensures ServedSince(h', since, k, v) {
      var i: nat :| since <= i && ServedAt(h, i, k, v);
      assert ServedAt(h', i, k, v);
    }
    forall since: nat, k | MissedSince(h, since, k) ensures MissedSince(h', since, k) {
      var i: nat :| since <= i < |h| && !h[i].Fresh(k);
      assert !h'[i].Fresh(k);
    }
  }

  /** A publication, once recorded, stays; a new one is dated by the state that the step leads to. */
  lemma {:induction false} PublicationsGrow(s: Sys, a: Action, id: nat)
    requires Inv(s) && Enabled(s, a) && id < |s.promises|
    ensures id < |Step(s, a).promises|
    ensures var before, after := s.promises[id].published, Step(s, a).promises[id].published;
            after == before || (before.None? && after.Some? && after.value.at == s.step + 1)
  {
    hide Inv, PromiseOk;
    AtPlace(s, a.t);
    if s.threads[a.t].Made? {
      AtInFlight(s, s.threads[a.t].key);
    }
  }

  /** The facts about other threads survive a step. */
  lemma {:induction false} OthersStayLinear(h: seq<Sys>, a: Action, u: nat)
    requires LinearInv(h) && Enabled(h[|h| - 1], a) && u in h[|h| - 1].threads
    requires u != a.t || a.Tick?
    ensures var s := h[|h| - 1];
            PcLinear(h + [Step(s, a)], Step(s, a), u, s.threads[u])
  {
    hide Inv, PromiseLinear, Step, Enabled, ServedSince, MissedSince, ServedAt;
    var s := h[|h| - 1];
    var pc := s.threads[u];
    HistoryGrows(h, Step(s, a));
    AtPlace(s, u);
    assert PcLinear(h, s, u, pc);
    if pc.Waiting? || pc.Publishing? {
      PublicationsGrow(s, a, pc.id);
    }
  }

  ghost predicate MoverLinear(h: seq<Sys>, a: Action)
    requires h != [] && Inv(h[|h| - 1]) && Enabled(h[|h| - 1], a)
  {
    var s' := Step(h[|h| - 1], a);
    a.t in s'.threads && PcLinear(h + [s'], s', a.t, s'.threads[a.t])
  }

  /** A lookup that succeeds returns a value mapped now. */
  lemma {:induction false} LookupStaysLinear(h: seq<Sys>, a: Action)
    requires LinearInv(h) && Enabled(h[|h| - 1], a) && (a.FastGet? || a.Register?)
    ensures MoverLinear(h, a)
  {
    hide Inv;
    var n := |h| - 1;
    var s := h[n];
    var pc := s.threads[a.t];
    HistoryGrows(h, Step(s, a));
    AtPlace(s, a.t);
    assert PcLinear(h, s, a.t, pc);
    if s.Fresh(pc.key) {
      assert ServedAt(h + [Step(s, a)], n, pc.key, s.values[pc.key].value);
    }
  }

  /** An owner or a waiter returns the published value, which was mapped after its call started. */
  lemma {:induction false} PromiseStaysLinear(h: seq<Sys>, a: Action)
    requires LinearInv(h) && Enabled(h[|h| - 1], a) && (a.SetValue? || a.Await?)
    ensures MoverLinear(h, a)
  {
    hide Inv;
    var s := h[|h| - 1];
    var pc := s.threads[a.t];
    HistoryGrows(h, Step(s, a));
    AtPlace(s, a.t);
    assert PcLinear(h, s, a.t, pc);
    var p := s.promises[pc.id];
    AtPromise(s, pc.id);
    assert PromiseLinear(h, p);
    if p.published.Some? {
      assert ServedAt(h + [Step(s, a)], p.published.value.at, pc.key, p.published.value.value);
    }
  }

  lemma {:induction false} MoverStaysLinear(h: seq<Sys>, a: Action)
    requires LinearInv(h) && Enabled(h[|h| - 1], a) && !a.Tick?
    ensures MoverLinear(h, a)
  {
    if a.FastGet? || a.Register? {
      LookupStaysLinear(h, a);
    } else if a.SetValue? || a.Await? {
      PromiseStaysLinear(h, a);
    } else if a.Call? || a.Publish? {
      CallAndPublishStayLinear(h, a);
    } else {
      var s := h[|h| - 1];
      AtPlace(s, a.t);
      hide Inv, ServedSince, PcLinear, PcOk;
      assert PcLinear(h, s, a.t, s.threads[a.t]);
      var s' := Step(s, a);
      SameCall(h, s, s', a.t, s.threads[a.t], s'.threads[a.t]);
    }
  }

  lemma {:induction false} SameCall(h: seq<Sys>, s: Sys, s': Sys, t: nat, pc: Pc, pc': Pc)
    requires PcLinear(h, s, t, pc) && !pc'.Waiting? && !pc'.Publishing?
    requires InCall(pc') ==> InCall(pc) && pc'.since == pc.since && pc'.key == pc.key
    requires pc'.Done? ==> pc'.outcome.Threw?
    requires pc'.Missed? || pc'.Registered() ==> pc.Registered()
    ensures PcLinear(h + [s'], s', t, pc')
  {
    HistoryGrows(h, s');
    hide ServedSince, MissedSince;
  }

  lemma {:induction false} CallAndPublishStayLinear(h: seq<Sys>, a: Action)
    requires LinearInv(h) && Enabled(h[|h| - 1], a) && (a.Call? || a.Publish?)
    ensures MoverLinear(h, a)
  {
    hide Inv;
    var s := h[|h| - 1];
    HistoryGrows(h, Step(s, a));
    AtPlace(s, a.t);
    assert PcLinear(h, s, a.t, s.threads[a.t]);
  }

  /** A publication leaves a live entry under its key, or puts there the entry that its factory made. */
  lemma {:induction false} PublicationServes(h: seq<Sys>, a: Action)
    requires h != [] && Inv(h[|h| - 1]) && Enabled(h[|h| - 1], a) && a.Publish?
    ensures var s' := Step(h[|h| - 1], a);
            var k := h[|h| - 1].threads[a.t].key;
            k in s'.values && ServedAt(h + [s'], |h|, k, s'.values[k].value)
  {
    var s := h[|h| - 1];
    AtPlace(s, a.t);
    hide Inv;
    if !s.Fresh(s.threads[a.t].key) {
      assert PublishedBy(h + [Step(s, a)], |h|, a.t, s.threads[a.t].key);
    }
  }

  lemma {:induction false} PromisesStayLinear(h: seq<Sys>, a: Action, id: nat)
    requires LinearInv(h) && Enabled(h[|h| - 1], a) && id < |Step(h[|h| - 1], a).promises|
    ensures PromiseLinear(h + [Step(h[|h| - 1], a)], Step(h[|h| - 1], a).promises[id])
  {
    hide Inv, PcLinear;
    var s := h[|h| - 1];
    var s' := Step(s, a);
    HistoryGrows(h, s');
    AtPlace(s, a.t);
    if id < |s.promises| {
      assert PromiseLinear(h, s.promises[id]);
    }
    if a.Publish? {
      PublicationServes(h, a);
    }
  }

  lemma {:induction false} LinearStep(h: seq<Sys>, a: Action)
    requires LinearInv(h) && Enabled(h[|h| - 1], a)
    ensures LinearInv(h + [Step(h[|h| - 1], a)])
  {
    var s := h[|h| - 1];
    var s' := Step(s, a);
    StepKeeps(s, a);
    StepCounts(s, a);
    hide Inv, PcLinear, PromiseLinear, Step;
    forall u | u in s'.threads ensures PcLinear(h + [s'], s', u, s'.threads[u]) {
      if u != a.t || a.Tick? {
        OthersStayLinear(h, a, u);
      } else {
        MoverStaysLinear(h, a);
      }
    }
    forall id | 0 <= id < |s'.promises| ensures PromiseLinear(h + [s'], s'.promises[id]) {
      PromisesStayLinear(h, a, id);
    }
  }

  lemma {:induction false} StepCounts(s: Sys, a: Action)
    requires Inv(s) && Enabled(s, a)
    ensures Step(s, a).step == s.step + 1
    ensures Step(s, a).threads.Keys == s.threads.Keys
    ensures forall u :: u in s.threads && (u != a.t || a.Tick?) ==> Step(s, a).threads[u] == s.threads[u]
  {
    hide Inv, PcOk;
  }

  lemma {:induction false} LinearRun(h: seq<Sys>, actions: seq<Action>)
    requires LinearInv(h) && Executes(h[|h| - 1], actions)
    ensures LinearInv(Trace(h, actions))
    decreases |actions|
  {
    if actions != [] {
      StepKeeps(h[|h| - 1], actions[0]);
      LinearStep(h, actions[0]);
      LinearRun(h + [Step(h[|h| - 1], actions[0])], actions[1..]);
    }
  }

  lemma {:induction false} StartsLinear(s0: Sys)
    requires Inv(s0) && s0.step == 0 && s0.promises == [] && forall t :: t in s0.threads ==> s0.threads[t].Idle?
    ensures LinearInv([s0])
  {
  }

  /** Every value that `get_or_create` returns, on any path, was mapped to its key at some state between the start and
      the end of that call, by an entry that was live there or that a factory had made and was published just then,
      whatever inserts, erases, purges and gets run beside it. */
  lemma {:induction false} ReturnedValueWasLive(
    shardOf: Key -> nat, shards: nat, now: nat, threads: set<nat>, actions: seq<Action>, t: nat)
    requires Executes(Initial(shardOf, shards, now, threads), actions)
    requires var s := LastState(Initial(shardOf, shards, now, threads), actions);
             t in s.threads && s.threads[t].Done? && s.threads[t].outcome.Returned?
    ensures var r := Trace([Initial(shardOf, shards, now, threads)], actions);
            var pc := r[|r| - 1].threads[t];
            StartedAt(r, pc.since, t, pc.key) && ServedSince(r, pc.since, pc.key, pc.outcome.value)
  {
    hide Executes, Trace, Inv, ServedSince, MissedSince, StartedAt;
    var s0 := Initial(shardOf, shards, now, threads);
    StartsLinear(s0);
    LinearRun([s0], actions);
    var r := Trace([s0], actions);
    assert PcLinear(r, r[|r| - 1], t, r[|r| - 1].threads[t]);
  }

  /** A factory runs, and a call waits for another's, only for a key that had no live entry in some state of the call. */
  lemma {:induction false} FactoryRunsOnlyOnMiss(
    shardOf: Key -> nat, shards: nat, now: nat, threads: set<nat>, actions: seq<Action>, t: nat)
    requires Executes(Initial(shardOf, shards, now, threads), actions)
    requires var s := LastState(Initial(shardOf, shards, now, threads), actions);
             t in s.threads && (s.threads[t].Running? || s.threads[t].Waiting?)
    ensures var r := Trace([Initial(shardOf, shards, now, threads)], actions);
            var pc := r[|r| - 1].threads[t];
            StartedAt(r, pc.since, t, pc.key) && MissedSince(r, pc.since, pc.key)
  {
    hide Executes, Trace, Inv, ServedSince, MissedSince, StartedAt;
    var s0 := Initial(shardOf, shards, now, threads);
    StartsLinear(s0);
    LinearRun([s0], actions);
    var r := Trace([s0], actions);
    assert PcLinear(r, r[|r| - 1], t, r[|r| - 1].threads[t]);
  }

  // ----- purge -----

  /** With a monotone clock a purge never removes a live entry, even one inserted after the purge read the clock. */
  lemma {:induction false} PurgeKeepsLive(s: Sys, t: nat, k: Key)
    requires Inv(s) && Enabled(s, PurgeShard(t))
    ensures s.Fresh(k) ==> Step(s, PurgeShard(t)).Fresh(k) && Step(s, PurgeShard(t)).values[k] == s.values[k]
    ensures k in Step(s, PurgeShard(t)).values ==> k in s.values && Step(s, PurgeShard(t)).values[k] == s.values[k]
  {
  }

  lemma {:induction false} RunSnoc(s0: Sys, actions: seq<Action>, a: Action) returns (more: seq<Action>)
    requires Inv(s0) && Executes(s0, actions) && Enabled(LastState(s0, actions), a)
    ensures Executes(s0, more) && LastState(s0, more) == Step(LastState(s0, actions), a)
    ensures more == actions + [a]
  {
    more := actions + [a];
    TraceSnoc([s0], actions, a);
  }

  lemma {:induction false} TraceSnoc(h: seq<Sys>, actions: seq<Action>, a: Action)
    requires h != [] && Inv(h[|h| - 1]) && Executes(h[|h| - 1], actions)
    requires var r := Trace(h, actions);
             Enabled(r[|r| - 1], a)
    ensures Executes(h[|h| - 1], actions + [a])
    ensures var r := Trace(h, actions);
            Trace(h, actions + [a]) == r + [Step(r[|r| - 1], a)]
    decreases |actions|
  {
    hide Inv, Enabled, Step;
    var s := h[|h| - 1];
    if actions == [] {
      StepKeeps(s, a);
      assert [a][1..] == [];
    } else {
      StepKeeps(s, actions[0]);
      TraceSnoc(h + [Step(s, actions[0])], actions[1..], a);
      assert (actions + [a])[0] == actions[0] && (actions + [a])[1..] == actions[1..] + [a];
    }
  }

  lemma {:induction false} RunNothing(s: Sys)
    requires Inv(s)
    ensures Executes(s, []) && LastState(s, []) == s
  {
  }
}
