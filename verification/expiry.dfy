/**
  Cache entries and the expiry rule of the sweep. Times are integers
  (nanoseconds, as Go's `time.Duration` counts them); the caller's clock
  reading is passed in as `now`.
 */
module Expiry {
  import opened Partitioner

  /** One cached entry: the value, when it was last written, and its time to live. */
  datatype Item<T> = Item(value: T, createdAt: int, ttl: int)

  /** An entry is expired once its age is strictly greater than its ttl;
      an entry whose age equals its ttl is still live. */
  predicate Expired<T>(item: Item<T>, now: int)
  {
    now - item.createdAt > item.ttl
  }

  /** The keys of `m` whose entries a sweep at `now` deletes. */
  function ExpiredKeys<T>(m: map<Key, Item<T>>, now: int): (s: set<Key>)
    ensures s <= m.Keys
  {
    set k | k in m && Expired(m[k], now)
  }

  /** What a sweep at `now` leaves of a shard's map. */
  function Sweep<T>(m: map<Key, Item<T>>, now: int): (r: map<Key, Item<T>>)
  {
    m - ExpiredKeys(m, now)
  }

  /** A sweep keeps exactly the live entries, unchanged, and deletes every
      expired one; in particular an entry whose age equals its ttl survives. */
  lemma SweepKeepsLive<T>(m: map<Key, Item<T>>, now: int, k: Key)
    requires k in m
    ensures k in Sweep(m, now) <==> now - m[k].createdAt <= m[k].ttl
    ensures k in Sweep(m, now) ==> Sweep(m, now)[k] == m[k]
    ensures m[k].createdAt + m[k].ttl == now ==> k in Sweep(m, now)
  {
  }

  /** A sweep never adds keys nor changes the entries it keeps. */
  lemma SweepIsSubmap<T>(m: map<Key, Item<T>>, now: int)
    ensures Sweep(m, now).Keys <= m.Keys
    ensures forall k :: k in Sweep(m, now) ==> Sweep(m, now)[k] == m[k] && !Expired(m[k], now)
  {
  }

  /** Sweeping twice at the same time deletes nothing more. */
  lemma SweepIdempotent<T>(m: map<Key, Item<T>>, now: int)
    ensures Sweep(Sweep(m, now), now) == Sweep(m, now)
  {
  }

  /** Expiry is monotone in time: once an earlier sweep has run, a later
      one leaves what the later sweep alone would have left. This is why a
      periodic sweep only needs its most recent tick to be described. */
  lemma SweepLaterSubsumes<T>(m: map<Key, Item<T>>, earlier: int, later: int)
    requires earlier <= later
    ensures Sweep(Sweep(m, earlier), later) == Sweep(m, later)
  {
  }

  /** Writing an entry at `now` and then sweeping at `later`: the entry
      survives exactly when `later - now <= ttl`, and every other key fares
      as it would have without the write. This is the reset of the expiry
      clock that an overwrite performs. */
  lemma SweepAfterWrite<T>(m: map<Key, Item<T>>, k: Key, v: T, now: int, ttl: int, later: int)
    ensures k in Sweep(m[k := Item(v, now, ttl)], later) <==> later - now <= ttl
    ensures later - now <= ttl ==> Sweep(m[k := Item(v, now, ttl)], later)[k].value == v
    ensures Sweep(m[k := Item(v, now, ttl)], later) - {k} == Sweep(m, later) - {k}
  {
  }
}
