/**
  The partitioner of the sharded cache: the 32-bit FNV-1a hash of a key's
  bytes, reduced modulo the shard count. It is pure, so a key is routed to
  the same shard for the whole life of a cache.
 */
module Partitioner {

  /** Go indexes a string by byte, so a key is the sequence of its bytes. */
  type Key = seq<bv8>

  /** FNV-1a 32-bit offset basis. */
  const OffsetBasis: bv32 := 2166136261
  /** FNV-1a 32-bit prime. */
  const Prime: bv32 := 16777619
  /** 2^32, the number of distinct `uint32` values. */
  const Modulus: int := 0x1_0000_0000

  /** One round of FNV-1a: XOR the byte in, then multiply by the prime.
      `bv32` arithmetic wraps around modulo 2^32, as Go's `uint32` does. */
  function Step(hash: bv32, b: bv8): bv32
  {
    (hash ^ (b as bv32)) * Prime
  }

  /** The hash of a key, defined on its prefixes: one more round over the
      hash of everything but the last byte. This is the shape of the loop
      invariant of `ComputeFnv32`. */
  function Fnv32(key: Key): bv32
  {
    if |key| == 0 then OffsetBasis else Step(Fnv32(key[..|key| - 1]), key[|key| - 1])
  }

  /** Reference definition: fold the bytes in order, from the first one,
      starting from the running hash `hash`. */
  function HashFrom(hash: bv32, bytes: Key): bv32
    decreases |bytes|
  {
    if |bytes| == 0 then hash else HashFrom(Step(hash, bytes[0]), bytes[1..])
  }

  /** Folding one more byte onto a sequence is one more round. */
  lemma {:induction false} HashFromSnoc(hash: bv32, bytes: Key, b: bv8)
    ensures HashFrom(hash, bytes + [b]) == Step(HashFrom(hash, bytes), b)
    decreases |bytes|
  {
    if |bytes| == 0 {
      assert bytes + [b] == [b];
      assert [b][1..] == [];
    } else {
      assert (bytes + [b])[0] == bytes[0];
      assert (bytes + [b])[1..] == bytes[1..] + [b];
      HashFromSnoc(Step(hash, bytes[0]), bytes[1..], b);
    }
  }

  /** The hash is streamable: hashing `a + b` is hashing `a` and then folding
      the bytes of `b` onto that intermediate hash. */
  lemma {:induction false} Fnv32Concat(a: Key, b: Key)
    ensures Fnv32(a + b) == HashFrom(Fnv32(a), b)
    decreases |b|
  {
    if |b| == 0 {
      assert a + b == a;
    } else {
      var init, last := b[..|b| - 1], b[|b| - 1];
      assert b == init + [last];
      assert (a + b)[..|a + b| - 1] == a + init;
      assert (a + b)[|a + b| - 1] == last;
      Fnv32Concat(a, init);
      HashFromSnoc(Fnv32(a), init, last);
    }
  }

  /** The prefix definition agrees with the byte-by-byte fold from the
      offset basis: for each byte in order, XOR then multiply. */
  lemma {:induction false} Fnv32IsFold(key: Key)
    ensures Fnv32(key) == HashFrom(OffsetBasis, key)
  {
    Fnv32Concat([], key);
    assert [] + key == key;
  }

  /** Known values of 32-bit FNV-1a: the empty key hashes to the offset
      basis; "a" and "foobar" hash to their published digests. */
  lemma Fnv32KnownValues()
    ensures Fnv32([]) == 0x811c9dc5
    ensures Fnv32([0x61]) == 0xe40c292c
    ensures Fnv32([0x66, 0x6f, 0x6f, 0x62, 0x61, 0x72]) == 0xbf9cf968
  {
    var foobar: Key := [0x66, 0x6f, 0x6f, 0x62, 0x61, 0x72];
    assert foobar[..1] == [0x66] && Fnv32(foobar[..1]) == 0xe30c2799;
    assert foobar[..2][..1] == foobar[..1] && Fnv32(foobar[..2]) == 0x6222e842;
    assert foobar[..3][..2] == foobar[..2] && Fnv32(foobar[..3]) == 0xa9f37ed7;
    assert foobar[..4][..3] == foobar[..3] && Fnv32(foobar[..4]) == 0x3f5076ef;
    assert foobar[..5][..4] == foobar[..4] && Fnv32(foobar[..5]) == 0x39aaa18a;
    assert foobar[..6] == foobar && foobar[..6][..5] == foobar[..5];
  }

  /** The loop of the source: start at the offset basis, and for each byte
      XOR it in and multiply by the prime. */
  method ComputeFnv32(key: Key) returns (hash: bv32)
    ensures hash == Fnv32(key)
    ensures hash == HashFrom(OffsetBasis, key)
  {
    hash := OffsetBasis;
    for i := 0 to |key|
      invariant hash == Fnv32(key[..i])
    {
      assert key[..i + 1][..i] == key[..i];
      hash := Step(hash, key[i]);
    }
    assert key[..|key|] == key;
    Fnv32IsFold(key);
  }

  /** The shard that owns `key`: the hash modulo `uint32(numShards)`. Go's
      conversion to `uint32` truncates `numShards` modulo 2^32, and a
      truncated value of 0 is a division by zero, so it is excluded. */
  function ShardIndex(key: Key, numShards: int): (i: nat)
    requires 0 < numShards && numShards % Modulus != 0
    ensures i < numShards
    ensures i < numShards % Modulus
  {
    (Fnv32(key) as int) % (numShards % Modulus)
  }
}
