/** Keys as the hash tables see them: a name and its 64-bit hash. */
module Keys {
  import opened Arith

  type Hash = h: int | 0 <= h < 0x1_0000_0000_0000_0000

  /** A key together with the 64-bit value the table's hash function assigns to it. */
  datatype Key = Key(name: string, hash: Hash)

  lemma Pow2Of64()
    ensures Pow2(64) == 0x1_0000_0000_0000_0000
  {
    hide Pow2;
    Pow2Of32();
    Pow2Add(32, 32);
  }

  lemma Pow2Of32()
    ensures Pow2(32) == 0x1_0000_0000
  {
    assert Pow2(1) == 2 && Pow2(4) == 16;
    hide Pow2;
    Pow2Add(4, 4);
    assert Pow2(8) == 0x100;
    Pow2Add(8, 8);
    assert Pow2(16) == 0x1_0000;
    Pow2Add(16, 16);
  }

  /** The number of a key's bucket among 2^log: the high bits of its hash. */
  function BucketId(k: Key, log: nat): nat { if log <= 64 then Shr(k.hash, 64 - log) else k.hash }

  lemma BucketIdBound(k: Key, log: nat)
    requires log <= 64
    ensures BucketId(k, log) < Pow2(log)
  {
    Pow2Of64();
    ShrBound(k.hash, log, 64 - log);
  }

  /** The hashes of a bucket are one interval: the buckets part the range of hashes in order. */
  lemma BucketIdIs(k: Key, log: nat, b: nat)
    requires log <= 64
    ensures BucketId(k, log) == b <==> Shl(b, 64 - log) <= k.hash < Shl(b + 1, 64 - log)
  {
    ShrInterval(k.hash, 64 - log, b);
  }

  /** Doubling the table k times refines every bucket into 2^k consecutive ones. */
  lemma BucketIdFiner(x: Key, log: nat, k: nat)
    requires log + k <= 64
    ensures Shr(BucketId(x, log + k), k) == BucketId(x, log)
  {
    ShrShr(x.hash, 64 - log - k, k);
  }
}
