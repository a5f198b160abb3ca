# gcache: a sharded in-memory TTL cache, modelled in Dafny

`gcache` is a generic in-process key/value cache. Keys are strings and values
have one type `T` per cache. Each entry has its own time to live (ttl). To
reduce lock contention, the entries are spread over `numShards` independent
shards. A key's shard is the 32-bit FNV-1a hash of its bytes modulo the shard
count. A background task per shard periodically deletes the entries whose age
exceeds their ttl. `Get` does no expiry check of its own.

The model has four modules:

- `Partitioner` (`partitioner.dfy`): FNV-1a as a function on byte sequences and
  as the source's loop, proved equal. It also holds `ShardIndex`.
- `Expiry` (`expiry.dfy`): the entry record, the expiry rule
  `now - createdAt > ttl`, and `Sweep`, which gives what a sweep leaves of a map.
  Lemmas about sweeps are here too.
- `Cache` (`cache.dfy`): the class `InMemoryCache<T>`.
  - Its state is a `const shards: array<map<Key, Item<T>>>` of length
    `numShards`.
  - A ghost `Contents` map is the abstract view.
  - The invariant `Valid()` says two things. Every key in shard `i` is routed
    to `i`. The shards together hold exactly `Contents`.
  - The methods are the constructor, `Set`, `Get`, `EvictExpiredItems`, and
    `SweepAllShards`. `SweepAllShards` is one tick of every shard's
    background sweep.
- `CacheScenarios` (`scenarios.dfy`): client methods. They replay the
  repository's test, an overwrite that resets the expiry clock, and a stale read.

Keys are `seq<bv8>`, because Go indexes strings by byte. Times and durations
are `int` nanoseconds. Each operation that reads the clock takes the reading
as a parameter `now`.

## Model

| member | source | states |
|---|---|---|
| `Partitioner.ComputeFnv32` | gcache.go:127-139 | The loop starts at the offset basis 2166136261 and, for each byte in order, XORs it in and multiplies by 16777619 with 32-bit wraparound. The result equals the prefix-recursive `Fnv32` and the left fold `HashFrom(OffsetBasis, key)`. |
| `Partitioner.Fnv32IsFold` | gcache.go:133-137 | The recursive definition of the hash agrees with folding the bytes one by one, first to last, from the offset basis. |
| `Partitioner.Fnv32Concat` | gcache.go:134-137 | The hash can be streamed: hashing `a + b` equals folding `b` onto the hash of `a`. |
| `Partitioner.Fnv32KnownValues` | gcache.go:127-139 | The empty key hashes to the offset basis 0x811c9dc5. "a" hashes to 0xe40c292c and "foobar" to 0xbf9cf968, the published FNV-1a 32-bit digests. |
| `Partitioner.ShardIndex` | gcache.go:28-31 | For a shard count the source can divide by, the shard index is in `[0, numShards)`. It is also below `uint32(numShards)`. It depends only on the key and the shard count. |
| `Expiry.SweepKeepsLive` | gcache.go:97-100 | A sweep keeps a key exactly when `now - createdAt <= ttl`, and keeps its entry unchanged. An entry whose age equals its ttl survives. |
| `Expiry.SweepIsSubmap` | gcache.go:97-101 | A sweep adds no key and changes no entry it keeps. Every kept entry is live at `now`. |
| `Expiry.SweepIdempotent` | gcache.go:90-102 | A second sweep at the same time deletes nothing more. |
| `Expiry.SweepLaterSubsumes` | gcache.go:77-88 | A sweep at `earlier` followed by one at `later >= earlier` leaves what the later sweep alone leaves. So repeated ticks are described by the latest one. |
| `Expiry.SweepAfterWrite` | gcache.go:40-50 | After writing `(v, now, ttl)` for `k`, a sweep at `later` keeps `k` (with value `v`) exactly when `later - now <= ttl`. For every other key the sweep does what it would have done without the write. |
| `Cache.InMemoryCache.constructor` | gcache.go:104-125 | Builds exactly `numShards` shards, all empty, with an empty cache and the invariant established. `numShards` and `evictTime` are stored. |
| `Cache.InMemoryCache.Set` | gcache.go:33-51 | Inserting and overwriting both leave the entry `(value, now, ttl)`, so the expiry clock is reset. Only shard `ShardIndex(key)` changes, and in it only `key`. All other shards are unchanged. The routing invariant is preserved. |
| `Cache.InMemoryCache.Get` | gcache.go:53-66 | Changes nothing. The result is `found` exactly when the key is in the cache, with its stored value even if that entry is past its ttl (no clock input). Otherwise it is the zero value and `false`. |
| `Cache.InMemoryCache.EvictExpiredItems` | gcache.go:90-102 | Shard `shardIndex` becomes the old shard minus exactly its entries with `now - createdAt > ttl`. Other shards are untouched. The cache loses exactly those keys. The invariant is preserved. |
| `Cache.InMemoryCache.SweepAllShards` | gcache.go:71-88 | One tick of all per-shard sweeps at `now` leaves the cache equal to `Sweep(old contents, now)`. Every expired entry is deleted and every live one is kept. |
| `CacheScenarios.EvictedThenRewritten` | gcache_test.go:9-32 | Four shards, a one-second sweep, and "foo" written with a two-second ttl. The entry survives the 2s tick (age equals ttl) and is gone after the 3s tick. Written again, it is found with value "bar". |
| `CacheScenarios.OverwriteResetsExpiry` | gcache.go:40-43 | An overwrite at 1.5s keeps the key alive through a sweep at 3s, which is past the first write's ttl. The second value is returned. |
| `CacheScenarios.StaleReadBeforeSweep` | gcache.go:53-66 | With no sweep in between, `Get` returns an entry past its ttl as found, and reading twice gives the same answer. |

## Left out

- `Stop` (gcache.go:68-70), the `context` fields, and the goroutines and
  tickers of `StartEviction`/`startShardEviction` (gcache.go:71-88) are
  concurrency and timer plumbing. One tick of every shard's ticker is the
  explicit call `SweepAllShards(now)`. Cancellation and the claim that no
  sweep runs after `Stop` are not modelled.
- The `sync.RWMutex` of every shard is not modelled. Each operation is
  atomic and sequential.
- `time.Now()` is the parameter `now`. Time values are unbounded integers, so
  the monotonic clock, `int64` overflow of times and durations, and the
  saturation of `time.Time.Sub` are not modelled.
- `evictTime` is stored but plays no part, because ticker periods are not modelled.
- `Cache.InMemoryCache.constructor`: the source does not check the shard
  count. A count of 0 makes the first `Set`/`Get` divide by zero. Go's
  `uint32(numShards)` truncates modulo 2^32, so a multiple of 2^32 also
  divides by zero. The constructor therefore requires `0 < numShards` and
  `numShards % 2^32 != 0` (`ShardCountOk`) instead of modelling the panic.
- The source keeps `*cacheItem` pointers and overwrites their fields in
  place. The model replaces the map entry by a record with the new fields.
  The pointers never leave a shard, so no caller can tell the difference.
  Aliasing of items is not modelled.
- Go's `Get` returns the zero value of `T` for a missing key. Dafny has no
  expression for a type's default value, so the cache's `zero` is given to
  the constructor.
- Go's map iteration order in `evictExpiredItems` is unspecified. The model
  picks each next key by an arbitrary choice, and the result is proved
  independent of the order.
- FNV-1a's XOR and multiply are the one function `Step`, which the loop
  applies per byte. The 32-bit wraparound is the `bv32` multiplication
  itself. No separate lemma relates it to integer arithmetic modulo 2^32.
