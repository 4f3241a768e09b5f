/** Cache entries and the sharded map, used by one thread (src/cache/concurrent_cache.h). */
module CacheEntries {
  import opened Bytes

  type Key(==, !new)
  type Value(==, !new)
  type Error(==, !new)

  /** `entry`: no expiry time stands for `no_expiration_time`. */
  datatype Entry = Entry(value: Value, expiresAt: Option<nat>) {
    predicate Expired(now: nat) { expiresAt.Some? && now >= expiresAt.value }
  }

  /** `expiration_time`: a zero time-to-live never expires. */
  function ExpiryAt(now: nat, ttl: nat): (r: Option<nat>)
    ensures forall value, later: nat :: Entry(value, r).Expired(later) <==> ttl > 0 && later >= now + ttl
  {
    if ttl == 0 then None else Some(now + ttl)
  }
}

module ShardedCache {
  import opened Bytes
  import opened CacheEntries

  type Entries = map<Key, Entry>

  function LiveKeys(m: Entries, now: nat): set<Key> {
    set k | k in m && !m[k].Expired(now)
  }

  function Unexpired(m: Entries, now: nat): Entries {
    map k | k in m && !m[k].Expired(now) :: m[k]
  }

  /** Every key sits only in its hash's shard. */
  ghost predicate WellSharded(shards: seq<Entries>, hash: Key -> nat) {
    && shards != []
    && forall i, k :: 0 <= i < |shards| && k in shards[i] ==> hash(k) % |shards| == i
  }

  /** The one map that the first `n` shards stand for. */
  ghost function Merged(shards: seq<Entries>, n: nat): Entries
    requires n <= |shards|
  {
    if n == 0 then map[] else Merged(shards, n - 1) + shards[n - 1]
  }

  /** The merged map has a key exactly when the key's own shard has it, with the same entry. */
  lemma {:induction false} MergedAt(shards: seq<Entries>, hash: Key -> nat, n: nat, k: Key)
    requires WellSharded(shards, hash) && n <= |shards|
    ensures var i := hash(k) % |shards|;
            && (k in Merged(shards, n) <==> i < n && k in shards[i])
            && (k in Merged(shards, n) ==> Merged(shards, n)[k] == shards[i][k])
  {
    if n > 0 {
      MergedAt(shards, hash, n - 1, k);
    }
  }

  lemma {:induction false} MergedIs(shards: seq<Entries>, hash: Key -> nat, m: Entries)
    requires WellSharded(shards, hash)
    requires forall k :: var i := hash(k) % |shards|; (k in m <==> k in shards[i]) && (k in m ==> m[k] == shards[i][k])
    ensures Merged(shards, |shards|) == m
  {
    forall k ensures (k in Merged(shards, |shards|) <==> k in m) && (k in m ==> Merged(shards, |shards|)[k] == m[k]) {
      MergedAt(shards, hash, |shards|, k);
    }
  }

  /** The live keys of the first `n + 1` shards: the shards are disjoint. */
  lemma {:induction false} LiveKeysAdd(shards: seq<Entries>, hash: Key -> nat, n: nat, now: nat)
    requires WellSharded(shards, hash) && n < |shards|
    ensures |LiveKeys(Merged(shards, n + 1), now)| == |LiveKeys(Merged(shards, n), now)| + |LiveKeys(shards[n], now)|
    ensures |Merged(shards, n + 1).Keys| == |Merged(shards, n).Keys| + |shards[n].Keys|
  {
    var before, next := Merged(shards, n), shards[n];
    forall k ensures !(k in before && k in next) {
      MergedAt(shards, hash, n, k);
    }
    assert LiveKeys(before + next, now) == LiveKeys(before, now) + LiveKeys(next, now);
    assert LiveKeys(before, now) !! LiveKeys(next, now);
    assert (before + next).Keys == before.Keys + next.Keys;
    assert before.Keys !! next.Keys;
  }

  function LiveAmong(m: Entries, keys: set<Key>, now: nat): set<Key> {
    set k | k in keys && k in m && !m[k].Expired(now)
  }

  lemma {:induction false} LiveAmongWithout(m: Entries, keys: set<Key>, k: Key, now: nat)
    requires k in keys && k in m
    ensures |LiveAmong(m, keys, now)| == |LiveAmong(m, keys - {k}, now)| + if m[k].Expired(now) then 0 else 1
  {
    var all, rest := LiveAmong(m, keys, now), LiveAmong(m, keys - {k}, now);
    if m[k].Expired(now) {
      assert all == rest;
    } else {
      assert all == rest + {k} && k !in rest;
    }
  }

  /** The inner loop of `size`. */
  method CountLive(shard: Entries, now: nat) returns (count: nat)
    ensures count == |LiveKeys(shard, now)|
  {
    count := 0;
    var left := shard.Keys;
    assert LiveAmong(shard, left, now) == LiveKeys(shard, now);
    while left != {}
      invariant left <= shard.Keys
      invariant count + |LiveAmong(shard, left, now)| == |LiveKeys(shard, now)|
      decreases |left|
    {
      var k :| k in left;
      LiveAmongWithout(shard, left, k, now);
      left := left - {k};
      if !shard[k].Expired(now) {
        count := count + 1;
      }
    }
    assert LiveAmong(shard, {}, now) == {};
  }

  /** The inner loop of `purge_expired`: drops the expired entries of one shard and counts them. */
  method PurgeShard(shard: Entries, now: nat) returns (kept: Entries, removed: nat)
    ensures kept == Unexpired(shard, now)
    ensures removed + |kept.Keys| == |shard.Keys|
  {
    kept, removed := shard, 0;
    var left := shard.Keys;
    while left != {}
      invariant left <= kept.Keys <= shard.Keys
      invariant forall k :: k in kept ==> kept[k] == shard[k]
      invariant forall k :: k in shard && k !in left ==> (k in kept <==> !shard[k].Expired(now))
      invariant removed + |kept.Keys| == |shard.Keys|
      decreases |left|
    {
      var k :| k in left;
      left := left - {k};
      if shard[k].Expired(now) {
        ghost var before := kept.Keys;
        kept := kept - {k};
        assert kept.Keys == before - {k};
        removed := removed + 1;
      }
    }
    assert kept == Unexpired(shard, now);
  }

  class ConcurrentCache {
    var shards: seq<Entries>
    const hash: Key -> nat

    constructor (shardCount: nat, hash: Key -> nat)
      requires shardCount > 0
      ensures Valid() && View() == map[] && this.hash == hash && |shards| == shardCount
    {
      this.hash := hash;
      shards := seq(shardCount, _ => map[]);
      new;
      MergedIs(shards, hash, map[]);
    }

    ghost predicate Valid()
      reads this
    {
      WellSharded(shards, hash)
    }

    /** The single map that the cache refines. */
    ghost function View(): Entries
      reads this
    {
      Merged(shards, |shards|)
    }

    function ShardFor(key: Key): (i: nat)
      requires shards != []
      reads this
      ensures i < |shards|
    {
      hash(key) % |shards|
    }

    method Contains(key: Key, now: nat) returns (r: bool)
      requires Valid()
      ensures r <==> key in LiveKeys(View(), now)
    {
      MergedAt(shards, hash, |shards|, key);
      var shard := shards[ShardFor(key)];
      r := key in shard && !shard[key].Expired(now);
    }

    /** `get` looks again under the exclusive lock with the expiry test negated: an entry that expired before the first
        look is removed only if it is live again at the second, so never when the clock does not run backwards. */
    method Get(key: Key, now: nat, later: nat) returns (r: Option<Value>)
      requires Valid()
      modifies this
      ensures Valid()
      ensures r == if key in old(LiveKeys(View(), now)) then Some(old(View())[key].value) else None
      ensures View() == if key in old(View()) && old(View())[key].Expired(now) && !old(View())[key].Expired(later)
                        then old(View()) - {key} else old(View())
      ensures now <= later ==> View() == old(View())
    {
      MergedAt(shards, hash, |shards|, key);
      var i := ShardFor(key);
      if key !in shards[i] {
        return None;
      }
      if shards[i][key].Expired(now) {
        if !shards[i][key].Expired(later) {
          ghost var target := View() - {key};
          shards := shards[i := shards[i] - {key}];
          AfterUpdate(old(shards), shards, hash, key, target);
        }
        return None;
      }
      return Some(shards[i][key].value);
    }

    method InsertOrAssign(key: Key, value: Value, ttl: nat, now: nat) returns (r: Value)
      requires Valid()
      modifies this
      ensures Valid() && r == value
      ensures View() == old(View())[key := Entry(value, ExpiryAt(now, ttl))]
    {
      var i := ShardFor(key);
      var entry := Entry(value, ExpiryAt(now, ttl));
      ghost var target := View()[key := entry];
      shards := shards[i := shards[i][key := entry]];
      AfterUpdate(old(shards), shards, hash, key, target);
      r := shards[i][key].value;
    }

    method Erase(key: Key) returns (r: bool)
      requires Valid()
      modifies this
      ensures Valid()
      ensures r <==> key in old(View())
      ensures View() == old(View()) - {key}
    {
      var i := ShardFor(key);
      MergedAt(shards, hash, |shards|, key);
      if key !in shards[i] {
        assert View() - {key} == View();
        return false;
      }
      ghost var target := View() - {key};
      shards := shards[i := shards[i] - {key}];
      AfterUpdate(old(shards), shards, hash, key, target);
      return true;
    }

    /** `get_or_create` with no other thread: the clock is read at the lookup, at the locked recheck, after the factory,
        and at the publication. */
    method GetOrCreate(
      key: Key, made: Value, ttl: nat, now: nat, rechecked: nat, created: nat, published: nat) returns (r: Value, ran: bool)
      requires Valid()
      modifies this
      ensures Valid()
      ensures ran <==> key !in old(LiveKeys(View(), now)) && key !in old(LiveKeys(View(), rechecked))
      ensures key in View() && r == View()[key].value
      ensures !ran || key in old(LiveKeys(View(), published)) ==> View() == old(View())
      ensures ran && key !in old(LiveKeys(View(), published)) ==>
                View() == old(View())[key := Entry(made, ExpiryAt(created, ttl))]
      ensures now <= rechecked ==> (ran <==> key !in old(LiveKeys(View(), now)))
      ensures ran && rechecked <= published ==> r == made
    {
      MergedAt(shards, hash, |shards|, key);
      var i := ShardFor(key);
      if key in shards[i] && !shards[i][key].Expired(now) {
        return shards[i][key].value, false;
      }
      if key in shards[i] && !shards[i][key].Expired(rechecked) {
        return shards[i][key].value, false;
      }
      ran := true;
      if key in shards[i] && !shards[i][key].Expired(published) {
        r := shards[i][key].value;
      } else {
        r := InsertOrAssign(key, made, ttl, created);
      }
    }

    /** Removes exactly the expired entries, in every shard, and says how many there were. */
    method PurgeExpired(now: nat) returns (result: nat)
      requires Valid()
      modifies this
      ensures Valid()
      ensures View() == Unexpired(old(View()), now)
      ensures result + |View().Keys| == |old(View()).Keys|
    {
      result := 0;
      ghost var before := shards;
      for i := 0 to |shards|
        invariant |shards| == |before|
        invariant forall j :: 0 <= j < |shards| ==> shards[j] == if j < i then Unexpired(before[j], now) else before[j]
        invariant WellSharded(shards, hash)
        invariant result + |Merged(shards, i).Keys| == |Merged(before, i).Keys|
      {
        ghost var current := shards;
        var kept, removed := PurgeShard(shards[i], now);
        shards := shards[i := kept];
        SamePrefix(current, shards, i);
        LiveKeysAdd(before, hash, i, now);
        LiveKeysAdd(shards, hash, i, now);
        result := result + removed;
      }
      forall k ensures var j := hash(k) % |shards|;
                       var m := Unexpired(Merged(before, |before|), now);
                       (k in m <==> k in shards[j]) && (k in m ==> m[k] == shards[j][k])
      {
        MergedAt(before, hash, |before|, k);
      }
      MergedIs(shards, hash, Unexpired(Merged(before, |before|), now));
    }

    method Size(now: nat) returns (result: nat)
      requires Valid()
      ensures result == |LiveKeys(View(), now)|
    {
      result := 0;
      for i := 0 to |shards|
        invariant result == |LiveKeys(Merged(shards, i), now)|
      {
        var count := CountLive(shards[i], now);
        LiveKeysAdd(shards, hash, i, now);
        result := result + count;
      }
    }

    method Empty(now: nat) returns (r: bool)
      requires Valid()
      ensures r <==> LiveKeys(View(), now) == {}
    {
      for i := 0 to |shards|
        invariant LiveKeys(Merged(shards, i), now) == {}
      {
        var count := CountLive(shards[i], now);
        if count != 0 {
          var k :| k in LiveKeys(shards[i], now);
          MergedAt(shards, hash, |shards|, k);
          assert k in LiveKeys(View(), now);
          return false;
        }
        LiveKeysAdd(shards, hash, i, now);
      }
      return true;
    }
  }

  lemma {:induction false} SamePrefix(a: seq<Entries>, b: seq<Entries>, n: nat)
    requires n <= |a| && n <= |b| && a[..n] == b[..n]
    ensures Merged(a, n) == Merged(b, n)
  {
    if n > 0 {
      assert a[..n - 1] == a[..n][..n - 1] && b[..n - 1] == b[..n][..n - 1] && a[n - 1] == a[..n][n - 1];
      SamePrefix(a, b, n - 1);
    }
  }

  /** A change of one key in its own shard changes the merged map in that key only. */
  lemma {:induction false} AfterUpdate(before: seq<Entries>, after: seq<Entries>, hash: Key -> nat, key: Key, target: Entries)
    requires WellSharded(before, hash)
    requires var i := hash(key) % |before|;
             && |after| == |before|
             && (forall j :: 0 <= j < |before| && j != i ==> after[j] == before[j])
             && after[i] - {key} == before[i] - {key}
             && target - {key} == Merged(before, |before|) - {key}
             && (key in after[i] <==> key in target) && (key in target ==> after[i][key] == target[key])
    ensures WellSharded(after, hash) && Merged(after, |after|) == target
  {
    var i := hash(key) % |before|;
    var m := Merged(before, |before|);
    forall j, k | 0 <= j < |after| && k in after[j] ensures hash(k) % |after| == j {
      if k != key && j == i {
        assert k in (after[i] - {key});
      }
    }
    forall k ensures var j := hash(k) % |after|; (k in target <==> k in after[j]) && (k in target ==> target[k] == after[j][k]) {
      MergedAt(before, hash, |before|, k);
      if k != key {
        assert k in target <==> k in (target - {key});
        assert k in m <==> k in (m - {key});
        assert k in after[i] <==> k in (after[i] - {key});
        assert k in before[i] <==> k in (before[i] - {key});
        assert k in target ==> target[k] == (target - {key})[k] == (m - {key})[k] == m[k];
        assert k in after[i] ==> after[i][k] == (after[i] - {key})[k] == (before[i] - {key})[k] == before[i][k];
      }
    }
    MergedIs(after, hash, target);
  }
}
