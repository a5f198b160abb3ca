/**
  Clients of the cache that replay the repository's test and the documented
  behaviour of overwrites and stale reads, with the clock passed explicitly
  and each ticker tick of the background eviction written as a call to
  `SweepAllShards`.
 */
module CacheScenarios {
  import opened Partitioner
  import opened Expiry
  import opened Cache

  /** The key "foo" as bytes. */
  const Foo: Key := [0x66, 0x6f, 0x6f]

  /** Four shards, a one-second sweep; "foo" is written with a two-second
      ttl at time 0. The ticks at 1s and 2s keep it (at 2s its age equals
      its ttl), the tick at 3s deletes it, so `Get` misses. Written again at
      3s, it is found with its new value. */
  method EvictedThenRewritten() returns (foundAfterExpiry: bool, value: string, found: bool)
    ensures !foundAfterExpiry
    ensures found && value == "bar"
  {
    var cache := new InMemoryCache<string>(4, Second, "");
    cache.Set(Foo, "bar", 2 * Second, 0);
    cache.SweepAllShards(1 * Second);
    cache.SweepAllShards(2 * Second);
    SweepKeepsLive(cache.Contents, 3 * Second, Foo);
    cache.SweepAllShards(3 * Second);
    var stale;
    stale, foundAfterExpiry := cache.Get(Foo);
    cache.Set(Foo, "bar", 2 * Second, 3 * Second);
    value, found := cache.Get(Foo);
  }

  /** Overwriting resets the expiry clock: "k" is written with a two-second
      ttl at 0 and overwritten at 1.5s; a sweep at 3s (past the first
      write's ttl, within the second's) keeps it, with the second value. */
  method OverwriteResetsExpiry(key: Key, v1: int, v2: int) returns (value: int, found: bool)
    ensures found && value == v2
  {
    var cache := new InMemoryCache<int>(4, Second, 0);
    cache.Set(key, v1, 2 * Second, 0);
    cache.Set(key, v2, 2 * Second, 3 * Second / 2);
    SweepKeepsLive(cache.Contents, 3 * Second, key);
    cache.SweepAllShards(3 * Second);
    value, found := cache.Get(key);
  }

  /** `Get` makes no expiry check: an entry long past its ttl is still
      returned as long as no sweep has run, and reading changes nothing. */
  method StaleReadBeforeSweep(key: Key, v: int) returns (value: int, found: bool, again: int, foundAgain: bool)
    ensures found && value == v
    ensures foundAgain && again == v
  {
    var cache := new InMemoryCache<int>(8, Second, 0);
    cache.Set(key, v, 1, 0);
    value, found := cache.Get(key);
    again, foundAgain := cache.Get(key);
  }
}
