/** Rebuilding the bucket array in place for another capacity. */
module DenseRehash {
  import opened Arith
  import opened Keys
  import opened Members
  import opened DenseBuckets

  ghost predicate Settled(b: Bucket, j: nat, log: nat) { b.disp == 0 && AllHome(b.chain, j, log) }

  // ---- growing, from the last bucket to the first ---------------------------------------

  /** The buckets from `i` on are settled for capacity 2^to, those before `i` are as they were for capacity
      2^from, and the first one hosts no displaced entry. */
  ghost predicate Growing(t: seq<Bucket>, i: nat, from: nat, to: nat) {
    && from < to <= 64 && |t| == Pow2(to) && i <= Pow2(from) <= |t| && |t| > 0 && t[0].disp == 0
    && (forall j | 0 <= j < i :: BucketOk(t[j], j, from))
    && (forall j | i <= j < |t| :: Settled(t[j], j, to))
  }

  /** The same while bucket `i` is being walked, which is left aside. */
  ghost predicate Apart(t: seq<Bucket>, i: nat, from: nat, to: nat) {
    && from < to <= 64 && |t| == Pow2(to) && i < Pow2(from) <= |t| && (i != 0 ==> t[0].disp == 0)
    && (forall j | 0 <= j < i :: BucketOk(t[j], j, from))
    && (forall j | i < j < |t| :: Settled(t[j], j, to))
  }

  lemma ApartUpdate(t: seq<Bucket>, i: nat, b: Bucket, from: nat, to: nat)
    requires Apart(t, i, from, to)
    ensures Apart(t[i := b], i, from, to)
  {
    hide Pow2, BucketOk, Settled;
  }

  /** A bucket walked up to position `c`: the nodes before it stay; `disp` is its mark at the start. */
  ghost predicate Walked(b: Bucket, i: nat, c: nat, disp: int, from: nat, to: nat) {
    && c <= |b.chain| && -1 <= disp <= 1
    && (forall d | 0 <= d < c :: BucketId(b.chain[d].key, to) == i)
    && (forall d | c <= d < |b.chain| :: BucketId(b.chain[d].key, from) == i - disp)
    && (disp != 0 ==> |b.chain| <= 1)
    && (b.disp == 0 || (b.disp == disp && c == 0 && b.chain != []))
  }

  lemma WalkStart(t: seq<Bucket>, i: nat, from: nat, to: nat)
    requires Growing(t, i + 1, from, to)
    ensures Apart(t, i, from, to) && Walked(t[i], i, 0, t[i].disp, from, to)
  {
    hide Pow2, BucketId;
  }

  lemma WalkEnd(t: seq<Bucket>, i: nat, from: nat, to: nat, disp: int)
    requires Apart(t, i, from, to) && Walked(t[i], i, |t[i].chain|, disp, from, to)
    ensures Growing(t, i, from, to)
  {
    hide Pow2, BucketId;
  }

  /** Where an entry found in bucket `i` goes: to a bucket that is settled, or to the first one. */
  lemma Destination(k: Key, i: nat, from: nat, to: nat)
    requires from < to <= 64 && BucketId(k, from) >= i - 1
    ensures BucketId(k, to) >= i || BucketId(k, to) == BucketId(k, from) == 0
    ensures BucketId(k, to) < Pow2(to)
  {
    var (o, n, e) := (BucketId(k, from), BucketId(k, to), to - from);
    BucketIdFiner(k, from, e);
    BucketIdBound(k, to);
    ShrInterval(n, e, o);
    ShlGrows(o, e - 1);
    assert Shl(o, e) == 2 * Shl(o, e - 1);
    if n == 0 {
      ShlGrows(o, e);
    }
  }

  /** Pushing a node to its new home while bucket `i` is walked. */
  lemma PushApart(t: seq<Bucket>, i: nat, from: nat, to: nat, x: Node, t': seq<Bucket>)
    requires Apart(t, i, from, to) && BucketId(x.key, from) >= i - 1 && BucketId(x.key, to) != i
    requires BucketId(x.key, to) < |t| && t' == t[BucketId(x.key, to) := Bucket([x] + t[BucketId(x.key, to)].chain, 0)]
    ensures t[BucketId(x.key, to)].disp == 0 && Apart(t', i, from, to)
  {
    hide Pow2, BucketId;
    Destination(x.key, i, from, to);
  }

  /** The node at `c` stays. */
  lemma StayWalked(b: Bucket, i: nat, c: nat, disp: int, from: nat, to: nat)
    requires Walked(b, i, c, disp, from, to) && c < |b.chain| && BucketId(b.chain[c].key, to) == i
    ensures Walked(if c == 0 then b.(disp := 0) else b, i, c + 1, disp, from, to)
  {
    hide BucketId;
  }

  lemma RemoveWalked(b: Bucket, i: nat, c: nat, disp: int, from: nat, to: nat)
    requires Walked(b, i, c, disp, from, to) && c < |b.chain|
    ensures Walked(Remove(b, c), i, c, disp, from, to)
  {
    hide BucketId;
  }

  lemma {:induction false} DropWalked(b: Bucket, i: nat, c: nat, disp: int, from: nat, to: nat, now: nat)
    requires Walked(b, i, c, disp, from, to)
    ensures Walked(DropAt(b, c, now), i, c, disp, from, to)
    decreases |b.chain|
  {
    hide BucketId, Walked, Remove;
    if c < |b.chain| && Due(b.chain[c], now) {
      RemoveWalked(b, i, c, disp, from, to);
      DropShorter(b, c);
      DropWalked(Remove(b, c), i, c, disp, from, to, now);
    }
  }

  lemma DropShorter(b: Bucket, c: nat)
    requires c < |b.chain|
    ensures |Remove(b, c).chain| == |b.chain| - 1
  {
  }

  /** The buckets gain 2^to - 2^from empty ones. */
  lemma StartGrowing(t: seq<Bucket>, more: seq<Bucket>, from: nat, to: nat)
    requires from < to <= 64 && TableOk(t, from) && |t| + |more| == Pow2(to) && t[0].disp == 0
    requires forall j | 0 <= j < |more| :: more[j] == EMPTY
    ensures Growing(t + more, |t|, from, to)
  {
    hide BucketId;
  }

  lemma GrowthDone(t: seq<Bucket>, from: nat, to: nat)
    requires Growing(t, 0, from, to)
    ensures TableOk(t, to) && forall j | 0 <= j < |t| :: t[j].disp == 0
  {
    hide BucketId, Pow2;
  }

  // ---- shrinking, from the first bucket to the last --------------------------------------

  /** The buckets before `i` are settled for capacity 2^to, those from `i` on are as they were. */
  ghost predicate Shrinking(t: seq<Bucket>, i: nat, from: nat, to: nat) {
    && to < from <= 64 && |t| == Pow2(from) && i <= |t|
    && (forall j | 0 <= j < i :: Settled(t[j], j, to))
    && (forall j | i <= j < |t| :: BucketOk(t[j], j, from))
  }

  /** An entry of bucket `i` goes to a bucket that has been dealt with, or to the one just emptied. */
  lemma ShrinkDestination(k: Key, i: nat, from: nat, to: nat)
    requires to < from <= 64 && BucketId(k, from) <= i + 1
    ensures BucketId(k, to) <= i
  {
    var (o, n, e) := (BucketId(k, from), BucketId(k, to), from - to);
    BucketIdFiner(k, to, e);
    ShrShr(o, 1, e - 1);
    ShrBelowSelf(Shr(o, 1), e - 1);
    assert Shr(o, 1) == o / 2;
  }

  lemma ShrinkTake(t: seq<Bucket>, i: nat, from: nat, to: nat)
    requires Shrinking(t, i, from, to) && i < |t|
    ensures Shrinking(t[i := EMPTY], i + 1, from, to)
    ensures forall c | 0 <= c < |t[i].chain| :: BucketId(t[i].chain[c].key, from) <= i + 1
  {
    hide BucketId, Pow2;
  }

  lemma ShrinkPush(t: seq<Bucket>, i: nat, from: nat, to: nat, x: Node)
    requires Shrinking(t, i + 1, from, to) && BucketId(x.key, from) <= i + 1
    ensures BucketId(x.key, to) <= i && t[BucketId(x.key, to)].disp == 0
    ensures Shrinking(t[BucketId(x.key, to) := Bucket([x] + t[BucketId(x.key, to)].chain, 0)], i + 1, from, to)
  {
    hide BucketId, Pow2;
    ShrinkDestination(x.key, i, from, to);
  }

  lemma {:induction false} ShrBelowSelf(x: nat, k: nat)
    ensures Shr(x, k) <= x
  {
    if k > 0 {
      ShrBelowSelf(x / 2, k - 1);
    }
  }

  lemma ShrinkDone(t: seq<Bucket>, from: nat, to: nat, n: nat)
    requires Shrinking(t, |t|, from, to) && n == Pow2(to)
    ensures n <= |t| && TableOk(t[..n], to) && forall j | n <= j < |t| :: t[j] == EMPTY
  {
    hide BucketId;
    Pow2Mono(to, from);
    forall j | n <= j < |t| ensures t[j].chain == [] {
      if t[j].chain != [] {
        BucketIdBound(t[j].chain[0].key, to);
      }
    }
  }
}
