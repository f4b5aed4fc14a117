/** The bucket array of a dense set. A bucket is empty, holds the chain of entries at home in it, or
    hosts a single entry displaced from one of its neighbours. */
module DenseBuckets {
  import opened Arith
  import opened Keys
  import opened Members
  import opened Bags

  /** `disp` is 1 for an entry to the right of its home, -1 to the left, 0 for a home chain. */
  datatype Bucket = Bucket(chain: seq<Node>, disp: int)

  const EMPTY := Bucket([], 0)

  ghost predicate BucketOk(b: Bucket, i: nat, log: nat) {
    && -1 <= b.disp <= 1
    && (b.disp == 0 ==> AllHome(b.chain, i, log))
    && (b.disp != 0 ==> |b.chain| == 1 && BucketId(b.chain[0].key, log) == i - b.disp)
  }

  ghost predicate AllHome(chain: seq<Node>, i: nat, log: nat) {
    forall c | 0 <= c < |chain| :: BucketId(chain[c].key, log) == i
  }

  ghost predicate TableOk(t: seq<Bucket>, log: nat) {
    |t| == Pow2(log) && forall i | 0 <= i < |t| :: BucketOk(t[i], i, log)
  }

  // ---- contents -------------------------------------------------------------------------

  ghost function Contents(t: seq<Bucket>): multiset<Node> {
    if t == [] then multiset{} else Contents(t[..|t| - 1]) + multiset(t[|t| - 1].chain)
  }

  lemma {:induction false} ContentsUpdate(t: seq<Bucket>, i: nat, b: Bucket)
    requires i < |t|
    ensures Contents(t[i := b]) + multiset(t[i].chain) == Contents(t) + multiset(b.chain)
  {
    var last := |t| - 1;
    if i == last {
      assert t[i := b][..last] == t[..last];
    } else {
      assert t[i := b][..last] == t[..last][i := b];
      ContentsUpdate(t[..last], i, b);
      AlsoMore(Contents(t[..last][i := b]), multiset(t[i].chain), Contents(t[..last]), multiset(b.chain),
               multiset(t[last].chain));
    }
  }

  lemma {:induction false} ContentsMember(t: seq<Bucket>, x: Node)
    ensures x in Contents(t) <==> exists i | 0 <= i < |t| :: x in t[i].chain
  {
    if t != [] {
      var last := |t| - 1;
      ContentsMember(t[..last], x);
      if i :| 0 <= i < |t| && x in t[i].chain {
        assert i < last ==> x in t[..last][i].chain;
      }
    }
  }

  lemma {:induction false} ContentsAppend(t: seq<Bucket>, u: seq<Bucket>)
    ensures Contents(t + u) == Contents(t) + Contents(u)
  {
    if u == [] {
      assert t + u == t;
    } else {
      var last := |u| - 1;
      assert (t + u)[..|t + u| - 1] == t + u[..last];
      ContentsAppend(t, u[..last]);
    }
  }

  function Empties(n: nat): (r: seq<Bucket>)
    ensures |r| == n && forall i | 0 <= i < n :: r[i] == EMPTY
  {
    if n == 0 then [] else Empties(n - 1) + [EMPTY]
  }

  lemma {:induction false} NoContents(t: seq<Bucket>)
    requires forall i | 0 <= i < |t| :: t[i].chain == []
    ensures Contents(t) == multiset{}
  {
    if t != [] {
      NoContents(t[..|t| - 1]);
    }
  }

  // ---- one chain ------------------------------------------------------------------------

  /** Delete: the node at `c` goes; a bucket whose first node goes is no longer marked displaced. */
  function Remove(b: Bucket, c: nat): Bucket
    requires c < |b.chain|
  {
    Bucket(b.chain[..c] + b.chain[c + 1..], if c == 0 then 0 else b.disp)
  }

  lemma RemoveContents(b: Bucket, c: nat)
    requires c < |b.chain|
    ensures multiset(Remove(b, c).chain) + multiset{b.chain[c]} == multiset(b.chain)
  {
    assert b.chain == b.chain[..c] + [b.chain[c]] + b.chain[c + 1..];
  }

  lemma RemoveKeeps(b: Bucket, c: nat, i: nat, log: nat)
    requires BucketOk(b, i, log) && c < |b.chain|
    ensures BucketOk(Remove(b, c), i, log)
  {
  }

  // ---- expiry ---------------------------------------------------------------------------

  /** ExpireIfNeeded at position `c` of a chain: due nodes go until one stays. */
  ghost function DropAt(b: Bucket, c: nat, now: nat): Bucket
    decreases |b.chain|
  {
    if c < |b.chain| && Due(b.chain[c], now) then DropAt(Remove(b, c), c, now) else b
  }

  lemma {:induction false} DropAtKeeps(b: Bucket, c: nat, now: nat, i: nat, log: nat)
    requires BucketOk(b, i, log)
    ensures BucketOk(DropAt(b, c, now), i, log)
    decreases |b.chain|
  {
    if c < |b.chain| && Due(b.chain[c], now) {
      RemoveKeeps(b, c, i, log);
      DropAtKeeps(Remove(b, c), c, now, i, log);
    }
  }

  /** What stands before `c` stays, what is now at `c` is not due, and nothing is new. */
  lemma {:induction false} DropAtChain(b: Bucket, c: nat, now: nat)
    requires c <= |b.chain|
    ensures var r := DropAt(b, c, now);
            && c <= |r.chain| <= |b.chain| && r.chain[..c] == b.chain[..c]
            && (c < |r.chain| ==> !Due(r.chain[c], now))
            && (forall x | x in r.chain :: x in b.chain)
            && (r.disp == b.disp || (r.disp == 0 && c == 0))
            && (r.chain == [] && b.chain != [] ==> r.disp == 0)
            && Reaped(multiset(b.chain), multiset(r.chain), now)
    decreases |b.chain|
  {
    if c < |b.chain| && Due(b.chain[c], now) {
      DropAtChain(Remove(b, c), c, now);
      RemoveContents(b, c);
      ReapedTwice(multiset(b.chain), multiset(Remove(b, c).chain), multiset(DropAt(b, c, now).chain), now);
    }
  }

  /** The table after some due entries have gone: no bucket has gained anything. */
  ghost predicate Expired(t: seq<Bucket>, t': seq<Bucket>, now: nat) {
    && |t'| == |t|
    && (forall i, x | 0 <= i < |t| && x in t'[i].chain :: x in t[i].chain)
    && Reaped(Contents(t), Contents(t'), now)
  }

  lemma ExpiredTwice(a: seq<Bucket>, b: seq<Bucket>, c: seq<Bucket>, now: nat)
    requires Expired(a, b, now) && Expired(b, c, now)
    ensures Expired(a, c, now)
  {
    hide Contents, Reaped;
    ReapedTwice(Contents(a), Contents(b), Contents(c), now);
  }

  lemma ExpiredBucket(t: seq<Bucket>, i: nat, b: Bucket, now: nat)
    requires i < |t| && Reaped(multiset(t[i].chain), multiset(b.chain), now)
    ensures Expired(t, t[i := b], now)
  {
    hide Contents;
    ContentsUpdate(t, i, b);
    var (m, m', u, v) := (Contents(t), Contents(t[i := b]), multiset(t[i].chain), multiset(b.chain));
    forall x: Node ensures m'[x] <= m[x] && (m'[x] < m[x] ==> Due(x, now)) {
      assert (m' + u)[x] == (m + v)[x];
    }
    forall x | x in b.chain ensures x in t[i].chain {
      assert v[x] <= u[x];
    }
  }

  // ---- TTL tags -------------------------------------------------------------------------

  ghost predicate NoTtl(chain: seq<Node>) { forall x | x in chain :: !x.ttl }

  /** The first `n` buckets hold no entry with a TTL. */
  ghost predicate NoTtlBelow(t: seq<Bucket>, n: nat) {
    forall i | 0 <= i < |t| && i < n :: NoTtl(t[i].chain)
  }

  lemma ExpiredNoTtl(t: seq<Bucket>, t': seq<Bucket>, n: nat, now: nat)
    requires Expired(t, t', now) && NoTtlBelow(t, n)
    ensures NoTtlBelow(t', n)
  {
    hide Contents, Reaped;
    forall i | 0 <= i < |t'| && i < n ensures NoTtl(t'[i].chain) {
      assert NoTtl(t[i].chain);
    }
  }
}
