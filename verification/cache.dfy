/**
  The sharded in-memory cache: an array of `numShards` maps from key to
  entry. Every operation routes a key to the shard `ShardIndex(key, numShards)`.
  Each operation runs atomically here; the shard locks are not modelled.
 */
module Cache {
  import opened Partitioner
  import opened Expiry

  /** One nanosecond-based second, as Go's `time.Second`. */
  const Second: int := 1_000_000_000

  /** A shard count that `ShardIndex` can divide by. */
  predicate ShardCountOk(n: int)
  {
    0 < n && n % Modulus != 0
  }

  /** Every key stored in shard `i` is routed to `i`. */
  ghost predicate Routed<T>(s: seq<map<Key, Item<T>>>, n: int)
    requires ShardCountOk(n)
  {
    forall i, k :: 0 <= i < |s| && k in s[i] ==> ShardIndex(k, n) == i
  }

  /** The shards `s` hold exactly the entries of `c`, each in the shard its key is routed to. */
  ghost predicate Represents<T>(s: seq<map<Key, Item<T>>>, n: int, c: map<Key, Item<T>>)
    requires ShardCountOk(n) && |s| == n
  {
    forall k :: (k in c <==> k in s[ShardIndex(k, n)]) && (k in c ==> c[k] == s[ShardIndex(k, n)][k])
  }

  /** Replacing shard `i` by a map of keys routed to `i`, and the contents
      by one that differs only on keys routed to `i` and agrees there with
      the new shard, keeps the shards routed and representing the contents. */
  lemma ReplaceShard<T>(s: seq<map<Key, Item<T>>>, n: int, c: map<Key, Item<T>>, i: int, m: map<Key, Item<T>>, c': map<Key, Item<T>>)
    requires ShardCountOk(n) && |s| == n && 0 <= i < n
    requires Routed(s, n) && Represents(s, n, c)
    requires forall k :: k in m ==> ShardIndex(k, n) == i
    requires forall k :: ShardIndex(k, n) == i ==> (k in c' <==> k in m) && (k in m ==> c'[k] == m[k])
    requires forall k :: ShardIndex(k, n) != i ==> (k in c' <==> k in c) && (k in c ==> c'[k] == c[k])
    ensures Routed(s[i := m], n) && Represents(s[i := m], n, c')
  {
  }

  /** The entries of shard `i` that are expired at `now` are the entries of
      the whole contents that are routed to `i` and expired at `now`. */
  lemma ShardExpiredKeys<T>(s: seq<map<Key, Item<T>>>, n: int, c: map<Key, Item<T>>, i: int, now: int)
    requires ShardCountOk(n) && |s| == n && 0 <= i < n
    requires Routed(s, n) && Represents(s, n, c)
    ensures ExpiredKeys(s[i], now) == set k | k in c && ShardIndex(k, n) == i && Expired(c[k], now)
  {
  }

  /** One step of a sweep over the pending keys: taking `key` out of the
      pending set removes it from the map exactly when it is expired. */
  lemma SweepStep<T>(m: map<Key, Item<T>>, expired: set<Key>, pending: set<Key>, key: Key)
    requires key in pending
    ensures m - (expired - (pending - {key})) ==
            if key in expired then (m - (expired - pending)) - {key} else m - (expired - pending)
  {
  }

  /** The entries of `c` that a sweep of shards `0 .. i - 1` at `now` deletes. */
  ghost function SweptBelow<T>(c: map<Key, Item<T>>, n: int, now: int, i: int): (s: set<Key>)
    requires ShardCountOk(n)
  {
    set k | k in c && ShardIndex(k, n) < i && Expired(c[k], now)
  }

  /** Sweeping shard `i` after shards `0 .. i - 1` deletes what a sweep of
      shards `0 .. i` deletes; once every shard is swept, that is every
      expired entry. */
  lemma SweptBelowStep<T>(c: map<Key, Item<T>>, n: int, now: int, i: int)
    requires ShardCountOk(n)
    ensures var rest := c - SweptBelow(c, n, now, i);
      rest - (set k | k in rest && ShardIndex(k, n) == i && Expired(rest[k], now)) == c - SweptBelow(c, n, now, i + 1)
    ensures SweptBelow(c, n, now, n) == ExpiredKeys(c, now)
  {
  }

  class InMemoryCache<T> {
    /** The shard count, fixed at construction. */
    const numShards: int
    /** The sweep period of the background eviction; kept, never used by the sequential model. */
    const evictTime: int
    /** Go's zero value of `T`, which `Get` returns for a missing key. */
    const zero: T
    /** One map per shard. */
    const shards: array<map<Key, Item<T>>>

    /** The abstract contents: every key in the cache with its entry. */
    ghost var Contents: map<Key, Item<T>>

    /** Shard count usable for routing, each shard holds only keys routed
        to it, and the shards together hold exactly `Contents`. */
    ghost predicate Valid()
      reads this, shards
    {
      && ShardCountOk(numShards)
      && shards.Length == numShards
      && Routed(shards[..], numShards)
      && Represents(shards[..], numShards, Contents)
    }

    /** Allocates `numShards` empty shards. */
    constructor (numShards: int, evictTime: int, zero: T)
      requires ShardCountOk(numShards)
      ensures Valid() && fresh(shards)
      ensures this.numShards == numShards && this.evictTime == evictTime && this.zero == zero
      ensures shards.Length == numShards
      ensures forall i :: 0 <= i < shards.Length ==> shards[i] == map[]
      ensures Contents == map[]
    {
      var a := new map<Key, Item<T>>[numShards];
      for i := 0 to numShards
        invariant forall j :: 0 <= j < i ==> a[j] == map[]
      {
        a[i] := map[];
      }
      this.numShards := numShards;
      this.evictTime := evictTime;
      this.zero := zero;
      shards := a;
      Contents := map[];
    }

    /** Inserts `key`, or overwrites its entry in place: either way the entry
        becomes `(value, now, ttl)`, which resets its expiry clock. Only the
        owning shard changes, and in it only the entry for `key`. */
    method Set(key: Key, value: T, ttl: int, now: int)
      requires Valid()
      modifies this, shards
      ensures Valid()
      ensures Contents == old(Contents)[key := Item(value, now, ttl)]
      ensures shards[ShardIndex(key, numShards)] == old(shards[ShardIndex(key, numShards)])[key := Item(value, now, ttl)]
      ensures forall j :: 0 <= j < shards.Length && j != ShardIndex(key, numShards) ==> shards[j] == old(shards[j])
    {
      var index := ShardIndex(key, numShards);
      var shard := shards[index];
      ghost var entry := Item(value, now, ttl);
      ReplaceShard(shards[..], numShards, Contents, index, shard[key := entry], Contents[key := entry]);
      if key in shard {
        var item := shard[key];
        shards[index] := shard[key := item.(value := value, createdAt := now, ttl := ttl)];
      } else {
        shards[index] := shard[key := Item(value, now, ttl)];
      }
      Contents := Contents[key := entry];
    }

    /** Looks `key` up without any expiry check: an entry past its ttl that
        no sweep has deleted yet is still returned. A missing key gives the
        zero value and `false`. */
    method Get(key: Key) returns (x: T, ok: bool)
      requires Valid()
      ensures ok <==> key in Contents
      ensures ok ==> x == Contents[key].value
      ensures !ok ==> x == zero
    {
      var shard := shards[ShardIndex(key, numShards)];
      if key !in shard {
        return zero, false;
      }
      return shard[key].value, true;
    }

    /** Deletes from shard `shardIndex` every entry expired at `now`; every
        other shard is untouched. */
    method EvictExpiredItems(shardIndex: int, now: int)
      requires Valid() && 0 <= shardIndex < numShards
      modifies this, shards
      ensures Valid()
      ensures shards[shardIndex] == Sweep(old(shards[shardIndex]), now)
      ensures forall j :: 0 <= j < shards.Length && j != shardIndex ==> shards[j] == old(shards[j])
      ensures Contents == old(Contents) - ExpiredKeys(old(shards[shardIndex]), now)
    {
      ghost var before := shards[shardIndex];
      var pending := shards[shardIndex].Keys;
      while pending != {}
        invariant Valid()
        invariant pending <= before.Keys
        invariant shards[shardIndex] == before - (ExpiredKeys(before, now) - pending)
        invariant forall j :: 0 <= j < shards.Length && j != shardIndex ==> shards[j] == old(shards[j])
        invariant Contents == old(Contents) - (ExpiredKeys(before, now) - pending)
        decreases pending
      {
        var key :| key in pending;
        SweepStep(before, ExpiredKeys(before, now), pending, key);
        SweepStep(old(Contents), ExpiredKeys(before, now), pending, key);
        var item := shards[shardIndex][key];
        if now - item.createdAt > item.ttl {
          ReplaceShard(shards[..], numShards, Contents, shardIndex, shards[shardIndex] - {key}, Contents - {key});
          shards[shardIndex] := shards[shardIndex] - {key};
          Contents := Contents - {key};
        }
        pending := pending - {key};
      }
    }

    /** One tick of every shard's background sweep at time `now`: shards
        are swept one after another, and the result is the whole cache
        swept at `now`. */
    method SweepAllShards(now: int)
      requires Valid()
      modifies this, shards
      ensures Valid()
      ensures Contents == Sweep(old(Contents), now)
    {
      for i := 0 to numShards
        invariant Valid()
        invariant Contents == old(Contents) - SweptBelow(old(Contents), numShards, now, i)
        invariant forall j :: i <= j < shards.Length ==> shards[j] == old(shards[j])
      {
        ShardExpiredKeys(shards[..], numShards, Contents, i, now);
        SweptBelowStep(old(Contents), numShards, now, i);
        EvictExpiredItems(i, now);
      }
      SweptBelowStep(old(Contents), numShards, now, numShards);
    }
  }
}
