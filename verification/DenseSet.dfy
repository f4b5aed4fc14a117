/** The dense set: home chains and one-step displacement. */
module DenseSet {
  import opened Arith
  import opened Keys
  import opened Members
  import opened Bags
  import opened DenseBuckets
  import opened DenseRehash

  const MIN_LOG := 2           // kMinSizeShift
  const MAX_LOG := 32          // bucket numbers are 32 bits wide

  datatype Room = Done | Full | Grown

  datatype Loc = Nowhere | At(bucket: nat, pos: nat)

  class Set {
    var entries: seq<Bucket>
    var capacityLog: nat
    var size: nat
    var timeNow: nat
    var expirationUsed: bool
    var reaperCursor: nat
    var reaperTtlSeen: bool
    var reaperPassLog: nat
    ghost var aside: nat       // entries that are momentarily in no bucket

    ghost predicate Shaped()
      reads this
    {
      && capacityLog <= MAX_LOG && (entries != [] ==> MIN_LOG <= capacityLog && TableOk(entries, capacityLog))
      && size == |Contents(entries)| && aside == 0
    }

    /** Whoever finds `expirationUsed` unset may rely on there being no TTL, and so may a reaper pass that
        has seen none for the buckets it has left behind. */
    ghost predicate TtlOk()
      reads this
    {
      && (!expirationUsed ==> NoTtlBelow(entries, |entries|))
      && (!reaperTtlSeen ==> NoTtlBelow(entries, reaperCursor))
    }

    ghost predicate Valid()
      reads this
    {
      Shaped() && TtlOk() && Unique(Contents(entries))
    }

    ghost function Members(): multiset<Node>
      reads this
    {
      Contents(entries)
    }

    constructor ()
      ensures Valid() && Members() == multiset{} && entries == [] && capacityLog == 0 && timeNow == 0
      ensures !expirationUsed && reaperCursor == 0 && !reaperTtlSeen && reaperPassLog == 0
    {
      entries, capacityLog, size, timeNow := [], 0, 0, 0;
      expirationUsed, reaperCursor, reaperTtlSeen, reaperPassLog := false, 0, false, 0;
      aside := 0;
    }

    // ---- removal ------------------------------------------------------------------------

    ghost predicate Counted()
      reads this
    {
      size == |Contents(entries)| + aside
    }

    method Delete(i: nat, c: nat)
      requires Counted() && i < |entries| && c < |entries[i].chain|
      modifies this`entries, this`size
      ensures Counted() && entries == old(entries)[i := Remove(old(entries)[i], c)]
      ensures Members() + multiset{old(entries)[i].chain[c]} == old(Members())
    {
      hide Contents, Remove;
      var b := Remove(entries[i], c);
      RemoveContents(entries[i], c);
      ContentsUpdate(entries, i, b);
      Swap(Contents(entries[i := b]), multiset(entries[i].chain), Contents(entries), multiset(b.chain),
           multiset{entries[i].chain[c]}, multiset{});
      entries := entries[i := b];
      assert Contents(entries) + multiset{old(entries)[i].chain[c]} == Contents(old(entries));
      size := size - 1;
    }

    /** Removes the due nodes at position `c` of a bucket. */
    method ExpireIfNeeded(i: nat, c: nat)
      requires Counted() && i < |entries| && c <= |entries[i].chain|
      modifies this`entries, this`size
      ensures Counted() && entries == old(entries)[i := DropAt(old(entries)[i], c, timeNow)]
      ensures Expired(old(entries), entries, timeNow)
      ensures old(Shaped()) ==> Shaped()
      ensures size + |old(entries)[i].chain| == old(size) + |entries[i].chain|
    {
      hide Contents, Remove, DropAt, BucketOk, Expired;
      Undropped(i, c);
      while c < |entries[i].chain| && entries[i].chain[c].ttl
        invariant Counted() && |entries| == |old(entries)| && c <= |entries[i].chain|
        invariant entries == old(entries)[i := entries[i]]
        invariant size + |old(entries)[i].chain| == old(size) + |entries[i].chain|
        invariant DropAt(entries[i], c, timeNow) == DropAt(old(entries)[i], c, timeNow)
        decreases |entries[i].chain|
      {
        if entries[i].chain[c].expiry > timeNow {
          break;
        }
        DropStep(entries[i], c, timeNow);
        Delete(i, c);
      }
      DropEnd(entries[i], c, timeNow);
      DropAtChain(old(entries)[i], c, timeNow);
      ExpiredBucket(old(entries), i, entries[i], timeNow);
      if old(Shaped()) {
        DropAtKeeps(old(entries)[i], c, timeNow, i, capacityLog);
      }
    }

    /** Expiry cannot invalidate a set. */
    lemma StillValid(was: seq<Bucket>)
      requires Shaped() && Expired(was, entries, timeNow) && Unique(Contents(was))
      requires !expirationUsed ==> NoTtlBelow(was, |was|)
      requires !reaperTtlSeen ==> NoTtlBelow(was, reaperCursor)
      ensures Valid()
    {
      hide Contents, TableOk, Reaped, Unique;
      ReapedUnique(Contents(was), Contents(entries), timeNow);
      if !expirationUsed {
        ExpiredNoTtl(was, entries, |was|, timeNow);
      }
      if !reaperTtlSeen {
        ExpiredNoTtl(was, entries, reaperCursor, timeNow);
      }
    }

    // ---- lookup -------------------------------------------------------------------------

    /** Expires the head of a bucket and says whether it then holds the key. */
    method HeadIs(i: nat, k: Key) returns (r: bool)
      requires Shaped() && i < |entries|
      modifies this`entries, this`size
      ensures Shaped() && entries == old(entries)[i := DropAt(old(entries)[i], 0, timeNow)]
      ensures Expired(old(entries), entries, timeNow)
      ensures r <==> |entries[i].chain| > 0 && entries[i].chain[0].key == k
      ensures r ==> !Due(entries[i].chain[0], timeNow)
    {
      hide Contents, TableOk, DropAt;
      DropAtChain(entries[i], 0, timeNow);
      ExpireIfNeeded(i, 0);
      r := |entries[i].chain| > 0 && entries[i].chain[0].key == k;
    }

    /** The same for a neighbour, if it hosts an entry displaced in that direction. */
    method DisplacedIs(i: nat, disp: int, k: Key) returns (r: bool)
      requires Shaped() && i < |entries|
      modifies this`entries, this`size
      ensures Shaped() && |entries| == |old(entries)| && entries == old(entries)[i := entries[i]]
      ensures Expired(old(entries), entries, timeNow)
      ensures r ==> |entries[i].chain| > 0 && entries[i].chain[0].key == k && !Due(entries[i].chain[0], timeNow)
      ensures !r && entries[i].disp == disp && entries[i].chain != [] ==> entries[i].chain[0].key != k
    {
      hide Contents, TableOk, DropAt, Reaped;
      NothingExpired(entries, timeNow);
      Undropped(i, 0);
      r := false;
      if entries[i].disp == disp {
        r := HeadIs(i, k);
      }
    }

    /** Whether the walk along a home chain meets the key behind the head. */
    method FindInChain(i: nat, k: Key) returns (r: Loc)
      requires Shaped() && i < |entries| && (entries[i].chain != [] ==> entries[i].chain[0].key != k)
      modifies this`entries, this`size
      ensures Shaped() && |entries| == |old(entries)| && entries == old(entries)[i := entries[i]]
      ensures Expired(old(entries), entries, timeNow)
      ensures r.At? ==> r.bucket == i && r.pos < |entries[i].chain| && entries[i].chain[r.pos].key == k
                        && !Due(entries[i].chain[r.pos], timeNow)
      ensures r.Nowhere? ==> forall c | 0 <= c < |entries[i].chain| :: entries[i].chain[c].key != k
    {
      hide Contents, TableOk, DropAt, Reaped;
      Undropped(i, 0);
      NothingExpired(entries, timeNow);
      var c := 1;
      while c < |entries[i].chain|
        invariant Shaped() && |entries| == |old(entries)| && entries == old(entries)[i := entries[i]]
        invariant Expired(old(entries), entries, timeNow) && c >= 1
        invariant forall d | 0 <= d < c && d < |entries[i].chain| :: entries[i].chain[d].key != k
        decreases |entries[i].chain| - c
      {
        ghost var was := entries;
        DropAtChain(entries[i], c, timeNow);
        ExpireIfNeeded(i, c);
        ExpiredTwice(old(entries), was, entries, timeNow);
        assert forall d | 0 <= d < c :: entries[i].chain[..c][d] == was[i].chain[..c][d];
        if c >= |entries[i].chain| {
          break;
        }
        if entries[i].chain[c].key == k {
          return At(i, c);
        }
        c := c + 1;
      }
      return Nowhere;
    }

    /** DenseSet::Find2: finds a key exactly when it is stored and not due. What it does not find is not
        there any more. */
    method Find2(k: Key) returns (r: Loc)
      requires Shaped() && entries != []
      modifies this`entries, this`size
      ensures Shaped() && |entries| == |old(entries)| && Expired(old(entries), entries, timeNow)
      ensures r.At? ==> r.bucket < |entries| && r.pos < |entries[r.bucket].chain|
                        && entries[r.bucket].chain[r.pos].key == k && !Due(entries[r.bucket].chain[r.pos], timeNow)
      ensures r.Nowhere? ==> !HasKey(Members(), k)
    {
      hide Contents, TableOk, DropAt, Expired, BucketId, Pow2, HasKey;
      var bid := BucketId(k, capacityLog);
      HomeInTable(k);
      var hit := HeadIs(bid, k);
      if hit {
        return At(bid, 0);
      }
      if bid > 0 {
        ghost var was := entries;
        hit := DisplacedIs(bid - 1, -1, k);
        ExpiredTwice(old(entries), was, entries, timeNow);
        if hit {
          return At(bid - 1, 0);
        }
      }
      if bid + 1 < |entries| {
        ghost var was := entries;
        hit := DisplacedIs(bid + 1, 1, k);
        ExpiredTwice(old(entries), was, entries, timeNow);
        if hit {
          return At(bid + 1, 0);
        }
      }
      ghost var was := entries;
      r := FindInChain(bid, k);
      ExpiredTwice(old(entries), was, entries, timeNow);
      if r.Nowhere? {
        NotAnywhere(k, bid);
      }
    }

    lemma HomeInTable(k: Key)
      requires Shaped() && entries != []
      ensures BucketId(k, capacityLog) < |entries|
    {
      BucketIdBound(k, capacityLog);
    }

    /** A key that is neither in its home chain nor displaced next to it is not stored. */
    lemma NotAnywhere(k: Key, bid: nat)
      requires Shaped() && entries != [] && bid == BucketId(k, capacityLog) < |entries|
      requires forall c | 0 <= c < |entries[bid].chain| :: entries[bid].chain[c].key != k
      requires bid > 0 && entries[bid - 1].disp == -1 ==> entries[bid - 1].chain != [] ==>
                 entries[bid - 1].chain[0].key != k
      requires bid + 1 < |entries| && entries[bid + 1].disp == 1 ==>
                 entries[bid + 1].chain != [] ==> entries[bid + 1].chain[0].key != k
      ensures !HasKey(Members(), k)
    {
      hide Contents, BucketId, Pow2;
      if HasKey(Members(), k) {
        var x :| x in Members() && x.key == k;
        ContentsMember(entries, x);
        var i :| 0 <= i < |entries| && x in entries[i].chain;
        var c :| 0 <= c < |entries[i].chain| && entries[i].chain[c] == x;
      }
    }

    // ---- growth -------------------------------------------------------------------------

    /** PushFront. A bucket that hosts a displaced entry is never pushed to. */
    method PushFront(i: nat, x: Node, linked: bool)
      requires i < |entries| && entries[i].disp == 0
      modifies this`entries, this`expirationUsed, this`reaperTtlSeen
      ensures entries == old(entries)[i := Bucket([x] + old(entries)[i].chain, 0)]
      ensures Members() == old(Members()) + multiset{x}
      ensures x.ttl && !(linked && old(entries)[i].chain != []) ==> expirationUsed && reaperTtlSeen
      ensures !x.ttl || (linked && old(entries)[i].chain != []) ==>
                expirationUsed == old(expirationUsed) && reaperTtlSeen == old(reaperTtlSeen)
    {
      hide Contents;
      var b := Bucket([x] + entries[i].chain, 0);
      ContentsUpdate(entries, i, b);
      assert multiset(b.chain) == multiset{x} + multiset(entries[i].chain);
      CancelBoth(Contents(entries[i := b]), Contents(entries) + multiset{x}, multiset(entries[i].chain), multiset{});
      // an entry that already has a link is hooked in as it is
      if x.ttl && !(linked && entries[i].chain != []) {
        expirationUsed, reaperTtlSeen := true, true;
      }
      entries := entries[i := b];
    }

    /** One bucket of Grow: every entry that stays is at home, every other one is pushed to its home. */
    method GrowBucket(i: nat, ghost from: nat)
      requires Counted() && Growing(entries, i + 1, from, capacityLog) && LiveFrom(entries, i + 1, timeNow)
      modifies this`entries, this`size, this`expirationUsed, this`reaperTtlSeen
      ensures Counted() && Growing(entries, i, from, capacityLog) && LiveFrom(entries, i, timeNow)
      ensures Reaped(old(Members()), Members(), timeNow)
      ensures old(expirationUsed) ==> expirationUsed
    {
      hide Contents, DropAt, Remove, BucketId, Pow2, Reaped, Walked, Apart, Growing;
      WalkStart(entries, i, from, capacityLog);
      GrowingLength(entries, i + 1, from, capacityLog);
      ghost var disp := entries[i].disp;
      var c: nat := 0;
      NothingReaped(Members(), timeNow);
      while c < |entries[i].chain|
        invariant Counted() && |entries| == |old(entries)| && c <= |entries[i].chain|
        invariant Apart(entries, i, from, capacityLog) && Walked(entries[i], i, c, disp, from, capacityLog)
        invariant LiveFrom(entries, i + 1, timeNow) && AllLive(entries[i].chain[..c], timeNow)
        invariant Reaped(old(Members()), Members(), timeNow)
        invariant old(expirationUsed) ==> expirationUsed
        decreases |entries[i].chain| - c
      {
        ghost var was := Members();
        c := GrowStep(i, c, disp, from);
        ReapedTwice(old(Members()), was, Members(), timeNow);
        WalkedBound(entries[i], i, c, disp, from, capacityLog);
      }
      WalkEnd(entries, i, from, capacityLog, disp);
      assert entries[i].chain[..c] == entries[i].chain;
    }

    /** One turn of the walk along a chain. */
    method GrowStep(i: nat, c: nat, ghost disp: int, ghost from: nat) returns (c': nat)
      requires Counted() && i < |entries| && c < |entries[i].chain|
      requires Apart(entries, i, from, capacityLog) && Walked(entries[i], i, c, disp, from, capacityLog)
      requires LiveFrom(entries, i + 1, timeNow) && AllLive(entries[i].chain[..c], timeNow)
      modifies this`entries, this`size, this`expirationUsed, this`reaperTtlSeen
      ensures Counted() && |entries| == |old(entries)|
      ensures Apart(entries, i, from, capacityLog) && Walked(entries[i], i, c', disp, from, capacityLog)
      ensures LiveFrom(entries, i + 1, timeNow) && c' <= |entries[i].chain| && AllLive(entries[i].chain[..c'], timeNow)
      ensures Reaped(old(Members()), Members(), timeNow)
      ensures old(expirationUsed) ==> expirationUsed
      ensures |entries[i].chain| - c' < |old(entries)[i].chain| - c
    {
      hide Contents, DropAt, Remove, BucketId, Pow2, Reaped, LiveFrom, AllLive, Apart;
      c' := c;
      LiveUpdate(entries, i, i, DropAt(entries[i], c, timeNow), timeNow);
      ApartUpdate(entries, i, DropAt(entries[i], c, timeNow), from, capacityLog);
      DropWalked(entries[i], i, c, disp, from, capacityLog, timeNow);
      DropAtChain(entries[i], c, timeNow);
      DropPrefix(entries[i], c, timeNow);
      ExpireIfNeeded(i, c);
      if c >= |entries[i].chain| {
        return;
      }
      if BucketId(entries[i].chain[c].key, capacityLog) != i {
        GrowMove(i, c, disp, from);
        return;
      }
      StayWalked(entries[i], i, c, disp, from, capacityLog);
      OneMoreLive(entries[i].chain, c, timeNow);
      ghost var was := entries;
      if c == 0 {
        LiveUpdate(entries, i, i, entries[i].(disp := 0), timeNow);
        ApartUpdate(entries, i, entries[i].(disp := 0), from, capacityLog);
        entries := entries[i := entries[i].(disp := 0)];
        SameChainsSameContents(was, i, entries[i]);
      }
      c' := c + 1;
    }

    /** An entry in the wrong chain is pushed to its home. */
    method GrowMove(i: nat, c: nat, ghost disp: int, ghost from: nat)
      requires Counted() && i < |entries| && c < |entries[i].chain|
               && BucketId(entries[i].chain[c].key, capacityLog) != i
      requires Apart(entries, i, from, capacityLog) && Walked(entries[i], i, c, disp, from, capacityLog)
      requires LiveFrom(entries, i + 1, timeNow) && !Due(entries[i].chain[c], timeNow)
      modifies this`entries, this`expirationUsed, this`reaperTtlSeen
      ensures Counted() && |entries| == |old(entries)| && Members() == old(Members())
      ensures Apart(entries, i, from, capacityLog) && Walked(entries[i], i, c, disp, from, capacityLog)
      ensures LiveFrom(entries, i + 1, timeNow) && entries[i] == Remove(old(entries)[i], c)
      ensures c <= |entries[i].chain| == |old(entries)[i].chain| - 1
              && entries[i].chain[..c] == old(entries)[i].chain[..c]
      ensures old(expirationUsed) ==> expirationUsed
    {
      hide Contents, Remove, BucketId, Pow2, LiveFrom;
      var x := entries[i].chain[c];
      var bid := BucketId(x.key, capacityLog);
      var linked := c + 1 < |entries[i].chain|;
      RemoveWalked(entries[i], i, c, disp, from, capacityLog);
      DropShorter(entries[i], c);
      RemovePrefix(entries[i], c);
      LiveUpdate(entries, i, i, Remove(entries[i], c), timeNow);
      Unlink(i, c);
      Destination(x.key, i, from, capacityLog);
      LiveUpdate(entries, i, bid, Bucket([x] + entries[bid].chain, 0), timeNow);
      PushApart(entries, i, from, capacityLog, x, entries[bid := Bucket([x] + entries[bid].chain, 0)]);
      PushFront(bid, x, linked);
    }

    /** Takes a node out of a chain without dropping it. */
    method Unlink(i: nat, c: nat)
      requires i < |entries| && c < |entries[i].chain|
      modifies this`entries
      ensures entries == old(entries)[i := Remove(old(entries)[i], c)]
      ensures Members() + multiset{old(entries)[i].chain[c]} == old(Members())
    {
      hide Contents, Remove;
      var b := Remove(entries[i], c);
      RemoveContents(entries[i], c);
      ContentsUpdate(entries, i, b);
      Swap(Contents(entries[i := b]), multiset(entries[i].chain), Contents(entries), multiset(b.chain),
           multiset{entries[i].chain[c]}, multiset{});
      entries := entries[i := b];
      assert Contents(entries) + multiset{old(entries)[i].chain[c]} == Contents(old(entries));
    }

    /** DenseSet::Grow, with the extension of the bucket array that comes before it. */
    method Grow(newLog: nat)
      requires Shaped() && entries != [] && capacityLog < newLog <= MAX_LOG
      modifies this`entries, this`size, this`capacityLog, this`expirationUsed, this`aside
      modifies this`reaperCursor, this`reaperTtlSeen, this`reaperPassLog
      ensures Shaped() && capacityLog == newLog && |entries| == Pow2(newLog) && reaperCursor == 0
      ensures Reaped(old(Members()), Members(), timeNow)
      ensures forall x | x in Members() && Due(x, timeNow) ::
                old(entries)[0].disp != 0 && old(entries)[0].chain != [] && x == old(entries)[0].chain[0]
      ensures old(expirationUsed) ==> expirationUsed
    {
      hide Contents, BucketId, Pow2, Reaped, Growing, Remove, AllHome, BucketOk;
      ghost var from := capacityLog;
      var prevSize, first := |entries|, entries[0];
      reaperCursor, reaperTtlSeen, reaperPassLog := 0, false, 0;
      SetAside();
      ghost var rest := Members();
      Extend(newLog);
      GrowBuckets(prevSize, from);
      AllLiveFrom(entries, timeNow);
      GrowthDone(entries, from, newLog);
      if first.disp != 0 {
        BucketIdBound(first.chain[0].key, newLog);
        ReapedMore(rest, Members(), multiset{first.chain[0]}, timeNow);
        PutBack(first.chain[0]);
      }
    }

    /** A displaced entry in the first bucket is set aside until the end. */
    method SetAside()
      requires Shaped() && entries != []
      modifies this`entries, this`aside
      ensures Counted() && TableOk(entries, capacityLog) && |entries| == |old(entries)| && entries[0].disp == 0
      ensures aside == if old(entries)[0].disp != 0 then 1 else 0
      ensures old(entries)[0].disp != 0 ==>
                && old(entries)[0].chain != []
                && Members() + multiset{old(entries)[0].chain[0]} == old(Members())
      ensures old(entries)[0].disp == 0 ==> entries == old(entries)
    {
      hide Contents, BucketId, Pow2, Remove;
      if entries[0].disp != 0 {
        RemoveKeeps(entries[0], 0, 0, capacityLog);
        RemoveClears(entries[0]);
        Unlink(0, 0);
        aside := 1;
      }
    }

    method PutBack(x: Node)
      requires Counted() && aside == 1 && TableOk(entries, capacityLog) && BucketId(x.key, capacityLog) < |entries|
      requires entries[BucketId(x.key, capacityLog)].disp == 0 && MIN_LOG <= capacityLog <= MAX_LOG
      modifies this`entries, this`aside, this`expirationUsed, this`reaperTtlSeen
      ensures Shaped() && |entries| == |old(entries)| && Members() == old(Members()) + multiset{x}
      ensures old(expirationUsed) ==> expirationUsed
    {
      hide Contents, BucketId, Pow2, BucketOk;
      PushKeeps(entries, capacityLog, x);
      PushFront(BucketId(x.key, capacityLog), x, false);
      aside := 0;
    }

    method GrowBuckets(prevSize: nat, ghost from: nat)
      requires Counted() && Growing(entries, prevSize, from, capacityLog) && LiveFrom(entries, prevSize, timeNow)
      modifies this`entries, this`size, this`expirationUsed, this`reaperTtlSeen
      ensures Counted() && Growing(entries, 0, from, capacityLog) && LiveFrom(entries, 0, timeNow)
      ensures Reaped(old(Members()), Members(), timeNow)
      ensures old(expirationUsed) ==> expirationUsed
    {
      hide Contents, Growing, Reaped, LiveFrom;
      NothingReaped(Members(), timeNow);
      for i := prevSize downto 0
        invariant Counted() && Growing(entries, i, from, capacityLog) && LiveFrom(entries, i, timeNow)
        invariant Reaped(old(Members()), Members(), timeNow)
        invariant old(expirationUsed) ==> expirationUsed
      {
        ghost var was := Members();
        GrowBucket(i, from);
        ReapedTwice(old(Members()), was, Members(), timeNow);
      }
    }

    /** Extends the bucket array with empty buckets. */
    method Extend(newLog: nat)
      requires Counted() && capacityLog < newLog <= MAX_LOG && TableOk(entries, capacityLog) && entries[0].disp == 0
      modifies this`entries, this`capacityLog
      ensures Counted() && Members() == old(Members()) && capacityLog == newLog
      ensures Growing(entries, |old(entries)|, old(capacityLog), newLog) && LiveFrom(entries, |old(entries)|, timeNow)
    {
      hide Contents, BucketId, Pow2, Growing, BucketOk;
      Pow2Mono(capacityLog, newLog);
      ghost var from := capacityLog;
      var more := Empties(Pow2(newLog) - |entries|);
      StartGrowing(entries, more, capacityLog, newLog);
      ContentsAppend(entries, more);
      NoContents(more);
      entries, capacityLog := entries + more, newLog;
    }

    /** DenseSet::Reserve. */
    method Reserve(sz: nat)
      requires Valid() && sz <= 0x1_0000_0000
      modifies this`entries, this`size, this`capacityLog, this`expirationUsed, this`aside
      modifies this`reaperCursor, this`reaperTtlSeen, this`reaperPassLog
      ensures Valid() && |entries| >= sz
      ensures var wanted := Pow2(CeilLog(if sz < 4 then 4 else sz));
              |entries| == if wanted > |old(entries)| then wanted else |old(entries)|
      ensures Reaped(old(Members()), Members(), timeNow)
    {
      hide Contents, BucketId, Pow2, Reaped, BucketOk, Unique;
      NothingReaped(Members(), timeNow);
      var log := CeilLog(if sz < 4 then 4 else sz);
      LogInRange(sz);
      if Pow2(log) > |entries| {
        if entries == [] {
          NoContents(entries);
          EmptyTable(log);
          entries, capacityLog := Empties(Pow2(log)), log;
          reaperCursor, reaperTtlSeen, reaperPassLog := 0, false, 0;
        } else {
          LogBelow(capacityLog, log);
          Grow(log);
        }
        NoTtlMembers(old(entries));
        ValidAfterRehash(old(Members()), old(expirationUsed));
      }
    }

    /** What a rehash leaves is valid: nothing is new, and the reaper starts over. */
    lemma ValidAfterRehash(m: multiset<Node>, used: bool)
      requires Shaped() && reaperCursor == 0 && Unique(m) && Reaped(m, Members(), timeNow)
      requires used ==> expirationUsed
      requires !used ==> forall x | x in m :: !x.ttl
      ensures Valid()
    {
      hide Contents, TableOk, Unique;
      ReapedUnique(m, Members(), timeNow);
      if !expirationUsed {
        forall x | x in Members() ensures !x.ttl {
          assert Members()[x] <= m[x];
        }
        NoTtlMembers(entries);
      }
    }

    // ---- insertion ----------------------------------------------------------------------

    /** DenseSet::FindEmptyAround: the home bucket or one of its neighbours, if it is empty. */
    method FindEmptyAround(bid: nat) returns (r: Loc)
      requires Shaped() && bid < |entries|
      modifies this`entries, this`size
      ensures Shaped() && |entries| == |old(entries)| && Expired(old(entries), entries, timeNow)
      ensures r.At? ==> r.bucket < |entries| && entries[r.bucket].chain == [] && -1 <= r.bucket - bid <= 1
      ensures r == At(bid, 0) || entries[bid].chain != []
      ensures r.Nowhere? || r.bucket < bid ==> bid + 1 < |entries| ==> entries[bid + 1].chain != []
      ensures r.Nowhere? ==> bid > 0 ==> entries[bid - 1].chain != []
    {
      hide Contents, TableOk, DropAt, Reaped;
      ExpireIfNeeded(bid, 0);
      if entries[bid].chain == [] {
        return At(bid, 0);
      }
      if bid + 1 < |entries| {
        ghost var was := entries;
        ExpireIfNeeded(bid + 1, 0);
        ExpiredTwice(old(entries), was, entries, timeNow);
        if entries[bid + 1].chain == [] {
          return At(bid + 1, 0);
        }
      }
      if bid > 0 {
        ghost var was := entries;
        ExpireIfNeeded(bid - 1, 0);
        ExpiredTwice(old(entries), was, entries, timeNow);
        if entries[bid - 1].chain == [] {
          return At(bid - 1, 0);
        }
      }
      return Nowhere;
    }

    /** The entry takes the place of a displaced one, which goes home in turn, and so on; each turn leaves
        one displaced entry less. */
    method Cascade(x: Node) returns (last: Node)
      requires Shaped() && entries != []
      modifies this`entries, this`expirationUsed, this`reaperTtlSeen
      ensures TableOk(entries, capacityLog) && |entries| == |old(entries)|
      ensures BucketId(last.key, capacityLog) < |entries| && entries[BucketId(last.key, capacityLog)].disp == 0
      ensures Members() + multiset{last} == old(Members()) + multiset{x}
      ensures old(expirationUsed) ==> expirationUsed
      ensures old(reaperTtlSeen) ==> reaperTtlSeen
    {
      hide Contents, BucketId, Pow2, Remove, TableOk, Hosts;
      var bid: nat := BucketId(x.key, capacityLog);
      HomeInTable(x.key);
      last := x;
      while entries[bid].chain != [] && entries[bid].disp != 0
        invariant |entries| == |old(entries)| && TableOk(entries, capacityLog)
        invariant bid == BucketId(last.key, capacityLog) < |entries|
        invariant Members() + multiset{last} == old(Members()) + multiset{x}
        invariant old(expirationUsed) ==> expirationUsed
        invariant old(reaperTtlSeen) ==> reaperTtlSeen
        decreases Hosts(entries)
      {
        var out, disp := entries[bid].chain[0], entries[bid].disp;
        TakePlace(entries, capacityLog, last);
        Exchange(bid, last);
        BucketIdBound(out.key, capacityLog);
        last, bid := out, bid - disp;
      }
      Unhosted(entries, bid, capacityLog);
    }

    /** Pops the lone entry of a bucket and pushes another. */
    method Exchange(i: nat, x: Node)
      requires i < |entries| && |entries[i].chain| == 1
      modifies this`entries, this`expirationUsed, this`reaperTtlSeen
      ensures entries == old(entries)[i := Bucket([x], 0)]
      ensures Members() + multiset{old(entries)[i].chain[0]} == old(Members()) + multiset{x}
      ensures old(expirationUsed) ==> expirationUsed
      ensures old(reaperTtlSeen) ==> reaperTtlSeen
    {
      hide Contents;
      ghost var was := entries;
      Unlink(i, 0);
      PushFront(i, x, false);
      assert [x] + [] == [x];
      assert entries == was[i := Bucket([x], 0)];
    }

    /** Pushes an entry onto its home chain, moving displaced entries out of the way. */
    method PushHome(x: Node)
      requires Shaped() && entries != []
      modifies this`entries, this`size, this`expirationUsed, this`reaperCursor, this`reaperTtlSeen
      ensures Shaped() && Members() == old(Members()) + multiset{x} && |entries| == |old(entries)|
      ensures old(TtlOk()) ==> TtlOk()
    {
      hide Contents, BucketId, Pow2, TableOk, NoTtlBelow;
      HomeInTable(x.key);
      var bid := BucketId(x.key, capacityLog);
      var last := x;
      if entries[bid].chain != [] && entries[bid].disp != 0 {
        reaperCursor, reaperTtlSeen := 0, false;
        if x.ttl {
          expirationUsed, reaperTtlSeen := true, true;
        }
        last := Cascade(x);
      } else {
        Unhosted(entries, bid, capacityLog);
      }
      PushKeeps(entries, capacityLog, last);
      PushFront(BucketId(last.key, capacityLog), last, false);
      size := size + 1;
      if old(TtlOk()) {
        TtlAfterPush(old(entries), old(expirationUsed), old(reaperCursor), old(reaperTtlSeen), x, bid);
      }
    }

    /** Either the reaper starts over, or one bucket has gained the entry. */
    lemma TtlAfterPush(was: seq<Bucket>, used: bool, cursor: nat, seen: bool, x: Node, i: nat)
      requires !used ==> NoTtlBelow(was, |was|)
      requires !seen ==> NoTtlBelow(was, cursor)
      requires used || x.ttl ==> expirationUsed
      requires Members() == Contents(was) + multiset{x}
      requires reaperCursor == 0 || (
                 && reaperCursor == cursor && (seen || x.ttl ==> reaperTtlSeen) && i < |was| == |entries|
                 && entries == was[i := entries[i]] && entries[i].chain == [x] + was[i].chain)
      ensures TtlOk()
    {
      hide Contents, BucketId;
      NoTtlMembers(was);
      NoTtlMembers(entries);
      if reaperCursor != 0 && !reaperTtlSeen {
        forall j | 0 <= j < |entries| && j < reaperCursor ensures NoTtl(entries[j].chain) {
          assert NoTtl(was[j].chain);
        }
      }
    }

    /** Puts an entry into an empty bucket that is its home or next to it. */
    method Place(i: nat, bid: nat, x: Node)
      requires Shaped() && TtlOk() && i < |entries| && entries[i].chain == []
      requires bid == BucketId(x.key, capacityLog) && -1 <= i - bid <= 1
      modifies this`entries, this`size, this`expirationUsed, this`reaperTtlSeen
      ensures Shaped() && TtlOk() && Members() == old(Members()) + multiset{x} && |entries| == |old(entries)|
      ensures entries[i].chain == [x]
    {
      hide Contents, BucketId, Pow2, NoTtlBelow;
      PushFront(i, x, false);
      assert entries[i].chain == [x];
      if i != bid {
        SameChainsSameContents(entries, i, entries[i].(disp := i - bid));
        entries := entries[i := entries[i].(disp := i - bid)];
      }
      size := size + 1;
      TtlAfterPush(old(entries), old(expirationUsed), old(reaperCursor), old(reaperTtlSeen), x, i);
    }

    /** DenseSet::AddUnique. The entry is added, and nothing but due entries goes. */
    method AddUnique(x: Node)
      requires Valid() && capacityLog + 2 <= MAX_LOG && !HasKey(Members(), x.key)
      modifies this`entries, this`size, this`capacityLog, this`expirationUsed, this`aside
      modifies this`reaperCursor, this`reaperTtlSeen, this`reaperPassLog
      ensures Valid() && x in Members()
      ensures Reaped(old(Members()), Members() - multiset{x}, timeNow)
      ensures Roomy(if old(entries) == [] then MIN_LOG else old(capacityLog), old(size), x)
      ensures old(entries) == [] || EmptyNear(old(entries), BucketId(x.key, old(capacityLog))) ==>
                Alone(x) && capacityLog == if old(entries) == [] then MIN_LOG else old(capacityLog)
    {
      hide Contents, BucketId, Pow2, TableOk, Reaped, Unique, HasKey, NoTtlBelow, EmptyNear, Alone;
      NothingReaped(Members(), timeNow);
      if entries == [] {
        FirstBuckets();
        HomeInTable(x.key);
        AllEmptyNear(entries, BucketId(x.key, capacityLog));
      }
      ghost var (log, near) := (capacityLog, EmptyNear(entries, BucketId(x.key, capacityLog)));
      var j := 0;
      while j < 2
        invariant Valid() && entries != [] && j <= 2 && capacityLog == log + j && log + 2 <= MAX_LOG
        invariant Reaped(old(Members()), Members(), timeNow) && size <= old(size)
        invariant j > 0 ==> old(size) >= Pow2(capacityLog - 1)
        invariant near ==> j == 0 && EmptyNear(entries, BucketId(x.key, capacityLog))
      {
        var more := MakeRoom(x, old(Members()));
        if more.Done? {
          NumberOfBuckets();
          return;
        }
        if more.Full? {
          break;
        }
        j := j + 1;
      }
      ghost var mid := Members();
      PushHome(x);
      AddedUnique(old(Members()), mid, x, timeNow);
      NumberOfBuckets();
    }

    lemma NumberOfBuckets()
      requires Shaped() && entries != []
      ensures |entries| == Pow2(capacityLog)
    {
    }

    /** The table is doubled at most twice, and only when it had as many entries as buckets; afterwards the entry
        has a bucket of its own, or there are as many buckets as entries, or it has been doubled twice. */
    ghost predicate Roomy(log: nat, was: nat, x: Node)
      reads this
    {
      && log <= capacityLog <= log + 2 && |entries| == Pow2(capacityLog)
      && (capacityLog > log ==> was >= Pow2(capacityLog - 1))
      && (capacityLog == log + 2 || size <= |entries| || Alone(x))
    }

    lemma NowAlone(i: nat, x: Node)
      requires i < |entries| && entries[i].chain == [x]
      ensures Alone(x)
    {
    }

    ghost predicate Alone(x: Node)
      reads this
    {
      exists i | 0 <= i < |entries| :: entries[i].chain == [x]
    }

    method FirstBuckets()
      requires Valid() && entries == []
      modifies this`entries, this`capacityLog
      ensures Valid() && entries != [] && Members() == old(Members()) && capacityLog == MIN_LOG
      ensures forall i | 0 <= i < |entries| :: entries[i].chain == []
    {
      hide BucketId, BucketOk;
      EmptyTable(MIN_LOG);
      capacityLog := MIN_LOG;
      entries := Empties(Pow2(MIN_LOG));
    }

    /** One turn of the loop in AddUnique: an empty bucket nearby, or a larger table. */
    method MakeRoom(x: Node, ghost m: multiset<Node>) returns (r: Room)
      requires Valid() && entries != [] && capacityLog < MAX_LOG && !HasKey(m, x.key) && Reaped(m, Members(), timeNow)
      modifies this`entries, this`size, this`capacityLog, this`expirationUsed, this`aside
      modifies this`reaperCursor, this`reaperTtlSeen, this`reaperPassLog
      ensures Valid() && entries != []
      ensures r.Done? ==> x in Members() && Reaped(m, Members() - multiset{x}, timeNow)
      ensures !r.Done? ==> Reaped(m, Members(), timeNow)
      ensures capacityLog == old(capacityLog) + if r.Grown? then 1 else 0
      ensures r.Done? ==> Alone(x)
      ensures EmptyNear(old(entries), BucketId(x.key, old(capacityLog))) ==> r.Done?
      ensures !r.Done? ==> size <= old(size)
      ensures r.Grown? ==> old(size) >= |old(entries)| == Pow2(old(capacityLog))
      ensures r.Full? ==> size < |entries|
    {
      hide Contents, BucketId, Pow2, TableOk, Reaped, Unique, HasKey, NoTtlBelow, Expired, EmptyNear, Alone;
      HomeInTable(x.key);
      NumberOfBuckets();
      var bid := BucketId(x.key, capacityLog);
      ghost var was := entries;
      var spot := FindEmptyAround(bid);
      StillValid(was);
      ExpiredReaped(m, was, entries, timeNow);
      SpotNear(was, entries, bid, timeNow, spot);
      if spot.At? {
        ghost var mid := Members();
        Place(spot.bucket, bid, x);
        NowAlone(spot.bucket, x);
        AddedUnique(m, mid, x, timeNow);
        return Done;
      }
      if size < |entries| {
        return Full;
      }
      ghost var (mid, used, es) := (Members(), expirationUsed, entries);
      Grow(capacityLog + 1);
      NoTtlMembers(es);
      FewerReaped(mid, Members(), timeNow);
      ReapedTwice(m, mid, Members(), timeNow);
      ValidAfterRehash(mid, used);
      return Grown;
    }

    // ---- shrinking ----------------------------------------------------------------------

    /** DenseSet::ShrinkBucket: the whole chain is taken out before its entries are pushed again. */
    method ShrinkBucket(i: nat, ghost from: nat)
      requires Counted() && aside == 0 && Shrinking(entries, i, from, capacityLog) && i < |entries|
      requires LiveBelow(entries, i, timeNow)
      modifies this`entries, this`size, this`expirationUsed, this`reaperTtlSeen, this`aside
      ensures Counted() && aside == 0 && Shrinking(entries, i + 1, from, capacityLog) && |entries| == |old(entries)|
      ensures LiveBelow(entries, i + 1, timeNow)
      ensures Reaped(old(Members()), Members(), timeNow)
      ensures old(expirationUsed) ==> expirationUsed
    {
      hide Contents, BucketId, Pow2, Reaped, Settled, BucketOk;
      var chain := entries[i].chain;
      ShrinkTake(entries, i, from, capacityLog);
      NothingReaped(Members(), timeNow);
      ghost var m := Members();
      TakenOut(entries, i);
      entries := entries[i := EMPTY];
      aside := |chain|;
      while chain != []
        invariant Shrinking(entries, i + 1, from, capacityLog) && |entries| == |old(entries)|
        invariant Counted() && aside == |chain|
        invariant forall c | 0 <= c < |chain| :: BucketId(chain[c].key, from) <= i + 1
        invariant LiveBelow(entries, i + 1, timeNow)
        invariant Reaped(m, Members() + multiset(chain), timeNow)
        invariant old(expirationUsed) ==> expirationUsed
        decreases |chain|
      {
        var x := chain[0];
        assert chain == [x] + chain[1..];
        ghost var now := Members();
        if x.ttl && x.expiry <= timeNow {
          size := size - 1;
          assert now + multiset(chain[1..]) + multiset{x} == now + multiset(chain);
          DropOne(m, now + multiset(chain[1..]), x, timeNow);
        } else {
          ShrinkPush(entries, i, from, capacityLog, x);
          PushFront(BucketId(x.key, capacityLog), x, false);
          assert Members() + multiset(chain[1..]) == now + multiset(chain);
        }
        chain := chain[1..];
        aside := aside - 1;
      }
      assert Members() + multiset(chain) == Members();
    }

    /** DenseSet::Shrink. */
    method Shrink(newLog: nat)
      requires Valid() && entries != [] && MIN_LOG <= newLog < capacityLog
      modifies this`entries, this`size, this`capacityLog, this`expirationUsed, this`aside
      modifies this`reaperCursor, this`reaperTtlSeen, this`reaperPassLog
      ensures Valid() && |entries| == Pow2(newLog) && Reaped(old(Members()), Members(), timeNow)
      ensures forall x | x in Members() :: !Due(x, timeNow)
    {
      hide Contents, BucketId, Pow2, Reaped, BucketOk, Settled, Unique, NoTtlBelow;
      ghost var from := capacityLog;
      var prevSize := |entries|;
      reaperCursor, reaperTtlSeen, reaperPassLog := 0, false, 0;
      capacityLog := newLog;
      NothingReaped(Members(), timeNow);
      for i := 0 to prevSize
        invariant Counted() && aside == 0 && |entries| == prevSize && capacityLog == newLog && reaperCursor == 0
        invariant Shrinking(entries, i, from, newLog) && LiveBelow(entries, i, timeNow)
        invariant Reaped(old(Members()), Members(), timeNow)
        invariant old(expirationUsed) ==> expirationUsed
      {
        ghost var was := Members();
        ShrinkBucket(i, from);
        ReapedTwice(old(Members()), was, Members(), timeNow);
      }
      AllLiveBelow(entries, timeNow);
      ShrinkDone(entries, from, newLog, Pow2(newLog));
      CutOff(entries, Pow2(newLog));
      entries := entries[..Pow2(newLog)];
      NoTtlMembers(old(entries));
      ValidAfterRehash(old(Members()), old(expirationUsed));
    }

    // ---- the operations of the set ------------------------------------------------------

    /** FindInternal: a key is found exactly when it is stored and not due. */
    method Find(k: Key) returns (r: Option)
      requires Valid()
      modifies this`entries, this`size
      ensures Valid() && Reaped(old(Members()), Members(), timeNow)
      ensures r.Some? ==> r.node.key == k && r.node in Members() && r.node in old(Members()) && !Due(r.node, timeNow)
      ensures r.None? ==> !HasKey(Members(), k) && forall x | x in old(Members()) && x.key == k :: Due(x, timeNow)
    {
      hide Contents, TableOk, Unique, NoTtlBelow;
      if entries == [] {
        NothingReaped(Members(), timeNow);
        NoContents(entries);
        return None;
      }
      ghost var was := entries;
      var loc := Find2(k);
      StillValid(was);
      if loc.Nowhere? {
        WasDue(Contents(was), Members(), k, timeNow);
        return None;
      }
      var x := entries[loc.bucket].chain[loc.pos];
      ContentsMember(entries, x);
      assert Contents(was)[x] >= Members()[x];
      return Some(x);
    }

    /** Puts another object with the same key into a slot, with its own TTL tag. */
    method Overwrite(i: nat, c: nat, y: Node)
      requires Valid() && i < |entries| && c < |entries[i].chain| && entries[i].chain[c].key == y.key
      modifies this`entries, this`expirationUsed, this`reaperTtlSeen
      ensures Valid() && Exchanged(old(Members()), Members(), old(entries)[i].chain[c], y)
      ensures if y.ttl then expirationUsed && reaperTtlSeen
              else expirationUsed == old(expirationUsed) && reaperTtlSeen == old(reaperTtlSeen)
    {
      hide Contents, TableOk, NoTtlBelow, Unique, Exchanged, WithNode;
      if y.ttl {
        expirationUsed, reaperTtlSeen := true, true;
      } else {
        WithNodeTtl(entries, i, c, y, |entries|);
        WithNodeTtl(entries, i, c, y, reaperCursor);
      }
      WithNodeOk(entries, i, c, y, capacityLog);
      entries := WithNode(entries, i, c, y);
    }

    /** DenseSet::AddOrReplaceObj. */
    method AddOrReplace(x: Node) returns (was: Option)
      requires Valid() && capacityLog + 2 <= MAX_LOG
      modifies this`entries, this`size, this`capacityLog, this`expirationUsed, this`aside
      modifies this`reaperCursor, this`reaperTtlSeen, this`reaperPassLog
      ensures Valid() && x in Members()
      ensures was.Some? ==> was.node.key == x.key && was.node in old(Members()) && !Due(was.node, timeNow)
                            && Reaped(old(Members()), Members() - multiset{x} + multiset{was.node}, timeNow)
      ensures was.None? ==> Reaped(old(Members()), Members() - multiset{x}, timeNow)
                            && forall y | y in old(Members()) && y.key == x.key :: Due(y, timeNow)
    {
      hide Contents, TableOk, Unique, NoTtlBelow, Reaped;
      ghost var m := Members();
      NothingReaped(m, timeNow);
      if entries != [] {
        ghost var es := entries;
        var loc := Find2(x.key);
        StillValid(es);
        ExpiredReaped(m, es, entries, timeNow);
        if loc.At? {
          was := Some(entries[loc.bucket].chain[loc.pos]);
          ContentsMember(entries, was.node);
          InBefore(m, Members(), was.node, timeNow);
          Overwrite(loc.bucket, loc.pos, x);
          return;
        }
        WasDue(m, Members(), x.key, timeNow);
      } else {
        NoContents(entries);
      }
      ghost var mid := Members();
      AddUnique(x);
      ReapedTwice(m, mid, Members() - multiset{x}, timeNow);
      return None;
    }

    /** EraseInternal. */
    method Erase(k: Key) returns (was: Option)
      requires Valid()
      modifies this`entries, this`size
      ensures Valid() && !HasKey(Members(), k)
      ensures was.Some? ==> was.node.key == k && was.node in old(Members()) && !Due(was.node, timeNow)
                            && Reaped(old(Members()), Members() + multiset{was.node}, timeNow)
      ensures was.None? ==> Reaped(old(Members()), Members(), timeNow)
                            && forall y | y in old(Members()) && y.key == k :: Due(y, timeNow)
    {
      hide Contents, TableOk, Unique, NoTtlBelow, Reaped;
      ghost var m := Members();
      NothingReaped(m, timeNow);
      if entries == [] {
        NoContents(entries);
        return None;
      }
      ghost var es := entries;
      var loc := Find2(k);
      StillValid(es);
      ExpiredReaped(m, es, entries, timeNow);
      if loc.Nowhere? {
        WasDue(m, Members(), k, timeNow);
        return None;
      }
      was := Some(entries[loc.bucket].chain[loc.pos]);
      ghost var mid := entries;
      ContentsMember(entries, was.node);
      InBefore(m, Members(), was.node, timeNow);
      Delete(loc.bucket, loc.pos);
      ValidAfterDelete(mid, loc.bucket, loc.pos);
    }

    lemma ValidAfterDelete(was: seq<Bucket>, i: nat, c: nat)
      requires i < |was| && c < |was[i].chain| && entries == was[i := Remove(was[i], c)] && Counted() && aside == 0
      requires MIN_LOG <= capacityLog <= MAX_LOG && TableOk(was, capacityLog) && Unique(Contents(was))
      requires Members() + multiset{was[i].chain[c]} == Contents(was)
      requires !expirationUsed ==> NoTtlBelow(was, |was|)
      requires !reaperTtlSeen ==> NoTtlBelow(was, reaperCursor)
      ensures Valid() && !HasKey(Members(), was[i].chain[c].key)
    {
      hide Contents, BucketId, Pow2, NoTtlBelow, Unique;
      RemoveKeeps(was[i], c, i, capacityLog);
      OneLess(Members(), was[i].chain[c]);
      OverwriteTtl(was, i, entries[i], |was|);
      OverwriteTtl(was, i, entries[i], reaperCursor);
    }

    /** IteratorBase::SetExpiryTime on the entry of a key. */
    method SetExpiryTime(k: Key, expiry: nat) returns (was: Option)
      requires Valid()
      modifies this`entries, this`size, this`expirationUsed, this`reaperTtlSeen
      ensures Valid()
      ensures was.Some? ==> was.node.key == k && was.node in old(Members()) && !Due(was.node, timeNow)
      ensures was.Some? ==> var x := was.node.(ttl := true, expiry := expiry);
                            && x in Members()
                            && Reaped(old(Members()), Members() - multiset{x} + multiset{was.node}, timeNow)
      ensures was.Some? ==> expirationUsed && reaperTtlSeen
      ensures was.None? ==> Reaped(old(Members()), Members(), timeNow)
                            && forall y | y in old(Members()) && y.key == k :: Due(y, timeNow)
    {
      hide Contents, TableOk, Unique, NoTtlBelow, Reaped;
      ghost var m := Members();
      NothingReaped(m, timeNow);
      if size == 0 {
        return None;
      }
      ghost var es := entries;
      assert entries != [] by {
        NoContents([]);
      }
      var loc := Find2(k);
      StillValid(es);
      ExpiredReaped(m, es, entries, timeNow);
      if loc.Nowhere? {
        WasDue(m, Members(), k, timeNow);
        return None;
      }
      was := Some(entries[loc.bucket].chain[loc.pos]);
      ContentsMember(entries, was.node);
      InBefore(m, Members(), was.node, timeNow);
      Overwrite(loc.bucket, loc.pos, was.node.(ttl := true, expiry := expiry));
    }

    /** DenseSet::ClearStep: empties a range of buckets, and gives up the array with the last entry. The
        capacity and the reaper's position stay as they are. The end is computed in 32 bits. */
    method ClearStep(start: nat, count: nat) returns (end: nat)
      requires Valid() && start < 0x1_0000_0000 && count < 0x1_0000_0000
      modifies this`entries, this`size, this`expirationUsed
      ensures Valid() && Members() <= old(Members())
      ensures end == Smaller(|old(entries)|, (start + count) % 0x1_0000_0000)
      ensures var left := EmptyRange(old(entries), start, end);
              && Members() == Contents(left)
              && if size == 0 then entries == [] && !expirationUsed
                 else entries == left && expirationUsed == old(expirationUsed)
    {
      hide Contents, BucketOk, Unique, Pow2, NoTtlBelow;
      end := Smaller(|entries|, (start + count) % 0x1_0000_0000);
      var i := start;
      assert entries == EmptyRange(entries, start, i);
      while i < end
        invariant Valid() && Members() <= old(Members()) && expirationUsed == old(expirationUsed)
        invariant start <= i && (i <= end || i == start) && entries == EmptyRange(old(entries), start, i)
      {
        TakenOut(entries, i);
        EmptyOk(entries, i, capacityLog);
        FewerUnique(Contents(entries[i := EMPTY]), Contents(entries));
        OverwriteTtl(entries, i, EMPTY, |entries|);
        OverwriteTtl(entries, i, EMPTY, reaperCursor);
        size := size - |entries[i].chain|;
        entries := entries[i := EMPTY];
        i := i + 1;
      }
      assert entries == EmptyRange(old(entries), start, end);
      if size == 0 {
        NoContents([]);
        NoTtlMembers([]);
        OverEmpty(reaperCursor);
        entries, expirationUsed := [], false;
      }
    }

    lemma Undropped(i: nat, c: nat)
      requires i < |entries|
      ensures entries == entries[i := entries[i]]
    {
    }
  }

  /** The table without the entries of the buckets [start, end). */
  function EmptyRange(t: seq<Bucket>, start: nat, end: nat): seq<Bucket> {
    seq(|t|, i requires 0 <= i < |t| => if start <= i < end then EMPTY else t[i])
  }

  lemma GrowingLength(t: seq<Bucket>, i: nat, from: nat, to: nat)
    requires Growing(t, i, from, to)
    ensures i <= |t|
  {
  }

  lemma WalkedBound(b: Bucket, i: nat, c: nat, disp: int, from: nat, to: nat)
    requires Walked(b, i, c, disp, from, to)
    ensures c <= |b.chain|
  {
  }

  lemma SameChainsSameContents(t: seq<Bucket>, i: nat, b: Bucket)
    requires i < |t| && b.chain == t[i].chain
    ensures Contents(t[i := b]) == Contents(t)
  {
    ContentsUpdate(t, i, b);
    CancelBoth(Contents(t[i := b]), Contents(t), multiset(b.chain), multiset{});
  }

  lemma RemoveClears(b: Bucket)
    requires b.chain != []
    ensures Remove(b, 0).disp == 0
  {
  }

  /** Pushing an entry onto the chain of its home. */
  lemma PushKeeps(t: seq<Bucket>, log: nat, x: Node)
    requires TableOk(t, log) && BucketId(x.key, log) < |t| && t[BucketId(x.key, log)].disp == 0
    ensures TableOk(t[BucketId(x.key, log) := Bucket([x] + t[BucketId(x.key, log)].chain, 0)], log)
  {
    hide BucketId, Pow2;
  }

  lemma EmptyTable(log: nat)
    ensures TableOk(Empties(Pow2(log)), log) && Contents(Empties(Pow2(log))) == multiset{}
  {
    NoContents(Empties(Pow2(log)));
  }

  /** How many buckets host a displaced entry. */
  ghost function Hosts(t: seq<Bucket>): nat {
    if t == [] then 0 else Hosts(t[..|t| - 1]) + if t[|t| - 1].disp != 0 then 1 else 0
  }

  lemma {:induction false} HostsUpdate(t: seq<Bucket>, i: nat, b: Bucket)
    requires i < |t|
    ensures Hosts(t[i := b]) + (if t[i].disp != 0 then 1 else 0) == Hosts(t) + if b.disp != 0 then 1 else 0
  {
    var last := |t| - 1;
    if i == last {
      assert t[i := b][..last] == t[..last];
    } else {
      assert t[i := b][..last] == t[..last][i := b];
      HostsUpdate(t[..last], i, b);
    }
  }

  /** An entry replaces the displaced one that occupies its home. */
  lemma TakePlace(t: seq<Bucket>, log: nat, x: Node)
    requires TableOk(t, log) && BucketId(x.key, log) < |t| && t[BucketId(x.key, log)].disp != 0
    ensures var i := BucketId(x.key, log);
            && TableOk(t[i := Bucket([x], 0)], log) && Hosts(t[i := Bucket([x], 0)]) < Hosts(t)
            && |t| == Pow2(log) && |t[i].chain| == 1 && BucketId(t[i].chain[0].key, log) == i - t[i].disp
  {
    hide BucketId, Pow2;
    HostsUpdate(t, BucketId(x.key, log), Bucket([x], 0));
  }

  lemma Unhosted(t: seq<Bucket>, i: nat, log: nat)
    requires TableOk(t, log) && i < |t| && (t[i].chain == [] || t[i].disp == 0)
    ensures t[i].disp == 0
  {
    hide BucketId;
  }

  /** Bucket `bid` or one next to it is empty. */
  ghost predicate EmptyNear(t: seq<Bucket>, bid: nat) {
    exists i: int | bid - 1 <= i <= bid + 1 && 0 <= i < |t| :: t[i].chain == []
  }

  lemma StillEmptyNear(t: seq<Bucket>, t': seq<Bucket>, bid: nat, now: nat)
    requires Expired(t, t', now) && EmptyNear(t, bid)
    ensures EmptyNear(t', bid)
  {
    hide Reaped, Contents;
    var i: int :| bid - 1 <= i <= bid + 1 && 0 <= i < |t| && t[i].chain == [];
    FirstIsIn(t'[i].chain);
  }

  /** The search finds an empty bucket if there was one. */
  lemma SpotNear(t: seq<Bucket>, t': seq<Bucket>, bid: nat, now: nat, spot: Loc)
    requires Expired(t, t', now) && bid < |t'| && (spot == At(bid, 0) || t'[bid].chain != [])
    requires spot.Nowhere? ==> bid + 1 < |t'| ==> t'[bid + 1].chain != []
    requires spot.Nowhere? ==> bid > 0 ==> t'[bid - 1].chain != []
    ensures EmptyNear(t, bid) ==> spot.At?
  {
    hide Expired;
    if EmptyNear(t, bid) {
      StillEmptyNear(t, t', bid, now);
      var i: int :| bid - 1 <= i <= bid + 1 && 0 <= i < |t'| && t'[i].chain == [];
    }
  }

  lemma FirstIsIn(s: seq<Node>)
    ensures s == [] || s[0] in s
  {
  }

  lemma AllEmptyNear(t: seq<Bucket>, bid: nat)
    requires bid < |t| && forall i | 0 <= i < |t| :: t[i].chain == []
    ensures EmptyNear(t, bid)
  {
    assert t[bid].chain == [];
  }

  /** The first `n` buckets hold nothing that is due. */
  ghost predicate LiveBelow(t: seq<Bucket>, n: nat, now: nat) {
    forall i | 0 <= i < n && i < |t| :: AllLive(t[i].chain, now)
  }

  /** Bucket `i` and those behind it hold nothing that is due. */
  ghost predicate LiveFrom(t: seq<Bucket>, i: nat, now: nat) {
    forall j | i <= j < |t| :: AllLive(t[j].chain, now)
  }

  lemma LiveUpdate(t: seq<Bucket>, i: nat, k: nat, b: Bucket, now: nat)
    requires LiveFrom(t, i + 1, now) && k < |t|
    requires k > i ==> exists x :: !Due(x, now) && b.chain == [x] + t[k].chain
    ensures LiveFrom(t[k := b], i + 1, now)
  {
  }

  lemma OneMoreLive(s: seq<Node>, c: nat, now: nat)
    requires c < |s| && AllLive(s[..c], now) && !Due(s[c], now)
    ensures AllLive(s[..c + 1], now)
  {
    assert s[..c + 1] == s[..c] + [s[c]];
  }

  lemma AllLiveFrom(t: seq<Bucket>, now: nat)
    requires LiveFrom(t, 0, now)
    ensures forall x | x in Contents(t) :: !Due(x, now)
  {
    AllLiveBelow(t, now);
  }

  lemma {:induction false} DropPrefix(b: Bucket, c: nat, now: nat)
    requires c <= |b.chain|
    ensures var r := DropAt(b, c, now).chain;
            c <= |r| && r[..c] == b.chain[..c] && (c < |r| ==> !Due(r[c], now))
    decreases |b.chain|
  {
    if c < |b.chain| && Due(b.chain[c], now) {
      RemovePrefix(b, c);
      DropPrefix(Remove(b, c), c, now);
    }
  }

  lemma RemovePrefix(b: Bucket, c: nat)
    requires c < |b.chain|
    ensures c <= |Remove(b, c).chain| && Remove(b, c).chain[..c] == b.chain[..c]
  {
  }

  lemma AllLiveBelow(t: seq<Bucket>, now: nat)
    requires LiveBelow(t, |t|, now)
    ensures forall x | x in Contents(t) :: !Due(x, now)
  {
    hide Contents;
    forall x | x in Contents(t) ensures !Due(x, now) {
      ContentsMember(t, x);
    }
  }

  lemma ExpiredReaped(m: multiset<Node>, t: seq<Bucket>, t': seq<Bucket>, now: nat)
    requires Reaped(m, Contents(t), now) && Expired(t, t', now)
    ensures Reaped(m, Contents(t'), now) && |Contents(t')| <= |Contents(t)|
  {
    ReapedTwice(m, Contents(t), Contents(t'), now);
    FewerReaped(Contents(t), Contents(t'), now);
  }

  lemma TakenOut(t: seq<Bucket>, i: nat)
    requires i < |t|
    ensures Contents(t[i := EMPTY]) + multiset(t[i].chain) == Contents(t)
  {
    ContentsUpdate(t, i, EMPTY);
  }

  lemma CutOff(t: seq<Bucket>, n: nat)
    requires n <= |t| && forall j | n <= j < |t| :: t[j] == EMPTY
    ensures Contents(t[..n]) == Contents(t)
  {
    assert t == t[..n] + t[n..];
    ContentsAppend(t[..n], t[n..]);
    NoContents(t[n..]);
  }

  function WithNode(t: seq<Bucket>, i: nat, c: nat, y: Node): (t': seq<Bucket>)
    requires i < |t| && c < |t[i].chain|
    ensures |t'| == |t|
  {
    t[i := t[i].(chain := t[i].chain[c := y])]
  }

  lemma WithNodeOk(t: seq<Bucket>, i: nat, c: nat, y: Node, log: nat)
    requires TableOk(t, log) && Unique(Contents(t)) && i < |t| && c < |t[i].chain| && t[i].chain[c].key == y.key
    ensures var t' := WithNode(t, i, c, y);
            && TableOk(t', log) && Unique(Contents(t')) && |Contents(t')| == |Contents(t)|
            && Exchanged(Contents(t), Contents(t'), t[i].chain[c], y)
  {
    hide Contents, BucketId, Pow2, Unique, Exchanged;
    var (b, x) := (t[i].(chain := t[i].chain[c := y]), t[i].chain[c]);
    ChainUpdate(t[i].chain, c, y);
    ContentsUpdate(t, i, b);
    Swap(Contents(t[i := b]), multiset(t[i].chain), Contents(t), multiset(b.chain), multiset{x}, multiset{y});
    ContentsMember(t, x);
    Replaced(Contents(t), Contents(t[i := b]), x, y);
  }

  lemma WithNodeTtl(t: seq<Bucket>, i: nat, c: nat, y: Node, n: nat)
    requires i < |t| && c < |t[i].chain| && !y.ttl
    ensures NoTtlBelow(t, n) ==> NoTtlBelow(WithNode(t, i, c, y), n)
  {
    OverwriteTtl(t, i, WithNode(t, i, c, y)[i], n);
  }

  lemma OverwriteTtl(t: seq<Bucket>, i: nat, b: Bucket, n: nat)
    requires i < |t| && forall y | y in b.chain :: y in t[i].chain || !y.ttl
    ensures NoTtlBelow(t, n) ==> NoTtlBelow(t[i := b], n)
  {
    var t' := t[i := b];
    if NoTtlBelow(t, n) {
      forall j | 0 <= j < |t'| && j < n ensures NoTtl(t'[j].chain) {
        assert NoTtl(t[j].chain);
      }
    }
  }

  lemma EmptyOk(t: seq<Bucket>, i: nat, log: nat)
    requires TableOk(t, log) && i < |t|
    ensures TableOk(t[i := EMPTY], log)
  {
    hide BucketId, Pow2;
  }

  lemma OverEmpty(n: nat)
    ensures NoTtlBelow([], n)
  {
  }

  lemma LogInRange(sz: nat)
    requires sz <= 0x1_0000_0000
    ensures MIN_LOG <= CeilLog(if sz < 4 then 4 else sz) <= MAX_LOG
  {
    var log := CeilLog(if sz < 4 then 4 else sz);
    Pow2Of32();
    if log > 0 {
      LogBelow(log - 1, MAX_LOG);
    }
  }

  /** Tags on entries and on buckets say the same. */
  lemma NoTtlMembers(t: seq<Bucket>)
    ensures NoTtlBelow(t, |t|) <==> forall x | x in Contents(t) :: !x.ttl
  {
    hide Contents;
    if NoTtlBelow(t, |t|) {
      forall x | x in Contents(t) ensures !x.ttl {
        ContentsMember(t, x);
      }
    }
    if forall x | x in Contents(t) :: !x.ttl {
      forall i | 0 <= i < |t| ensures NoTtl(t[i].chain) {
        forall x | x in t[i].chain ensures !x.ttl {
          ContentsMember(t, x);
        }
      }
    }
  }

  lemma NothingExpired(t: seq<Bucket>, now: nat)
    ensures Expired(t, t, now)
  {
  }

  lemma DropStep(b: Bucket, c: nat, now: nat)
    requires c < |b.chain| && Due(b.chain[c], now)
    ensures DropAt(b, c, now) == DropAt(Remove(b, c), c, now) && c <= |Remove(b, c).chain| == |b.chain| - 1
  {
  }

  lemma DropEnd(b: Bucket, c: nat, now: nat)
    requires c < |b.chain| ==> !Due(b.chain[c], now)
    ensures DropAt(b, c, now) == b
  {
  }
}
