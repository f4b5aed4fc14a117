/** The hash table segment: home, neighbour and stash placement with a lossy stash index. */
module DashSegment {
  import opened Keys
  import opened DashBucket
  import opened DashState
  import opened DashSteps
  import opened DashSwap

  /** Segment::Iterator: a physical bucket and a slot, or nothing. */
  datatype Pos = NoPos | At(bid: nat, slot: nat)

  ghost predicate EntryAt(b: seq<Bucket>, p: Pos, e: Entry) {
    && p.At? && p.bid < |b| && p.slot < |b[p.bid].slots|
    && b[p.bid].slots[p.slot].Used? && b[p.bid].slots[p.slot].entry == e
  }

  ghost predicate KeyAt(b: seq<Bucket>, p: Pos, k: Key) {
    && p.At? && p.bid < |b| && p.slot < |b[p.bid].slots|
    && b[p.bid].slots[p.slot].Used? && b[p.bid].slots[p.slot].entry.key == k
  }

  /** First used slot with the key, its fingerprint and the given probe flag. */
  method FindByFp(b: Bucket, k: Key, probe: bool) returns (sid: nat)
    ensures sid <= |b.slots|
    ensures sid < |b.slots| ==>
              && b.slots[sid].Used? && b.slots[sid].fp == Fp(k.hash) && b.slots[sid].probe == probe
              && b.slots[sid].entry.key == k
    ensures sid == |b.slots| ==>
              forall j | 0 <= j < |b.slots| ::
                !(b.slots[j].Used? && b.slots[j].fp == Fp(k.hash) && b.slots[j].probe == probe
                  && b.slots[j].entry.key == k)
  {
    sid := 0;
    while sid < |b.slots|
      invariant sid <= |b.slots|
      invariant forall j | 0 <= j < sid ::
        !(b.slots[j].Used? && b.slots[j].fp == Fp(k.hash) && b.slots[j].probe == probe && b.slots[j].entry.key == k)
    {
      var c := b.slots[sid];
      if c.Used? && c.fp == Fp(k.hash) && c.probe == probe && c.entry.key == k {
        return;
      }
      sid := sid + 1;
    }
  }

  /** CheckIfMovesToOther: bucket `from` has an owned (or, if not `own`, a probing) slot and
      bucket `to` has room. */
  predicate Moves(b: seq<Bucket>, own: bool, from: nat, to: nat)
    requires from < |b| && to < |b|
  {
    FirstByProbe(b[from].slots, !own) < |b[from].slots| && !IsFull(b[to])
  }

  /** The stash bucket an insertion into bucket `bid` tries as its `i`-th. */
  function StashBid(n: nat, bid: nat, i: nat): (r: nat)
    ensures n <= r < n + STASH_NUM
  {
    n + (bid + i) % STASH_NUM
  }

  /** How many stash buckets the insertion finds full before one with room. */
  function StashWithRoom(b: seq<Bucket>, n: nat, bid: nat, i: nat): (r: nat)
    requires |b| == n + STASH_NUM && i <= STASH_NUM
    ensures i <= r <= STASH_NUM
    ensures r < STASH_NUM ==> !IsFull(b[StashBid(n, bid, r)])
    ensures forall k | i <= k < r :: IsFull(b[StashBid(n, bid, k)])
    decreases STASH_NUM - i
  {
    if i == STASH_NUM || !IsFull(b[StashBid(n, bid, i)]) then i else StashWithRoom(b, n, bid, i + 1)
  }

  /** An insertion that spreads its load prefers the emptier of home and neighbour. */
  function FirstTried(b: seq<Bucket>, n: nat, k: Key, spread: bool): (r: nat)
    requires |b| == n + STASH_NUM && n >= 2
    ensures r < n
  {
    var bid := Home(k.hash, n);
    var nid := NextBid(bid, n);
    if spread && Size(b[bid].slots) > Size(b[nid].slots) then nid else bid
  }

  predicate StashFull(b: seq<Bucket>, n: nat) { forall i | n <= i < |b| :: IsFull(b[i]) }

  /** Home and neighbour are full, neither can pass an entry on, and the stash is full. */
  predicate NoRoom(b: seq<Bucket>, n: nat, k: Key)
    requires |b| == n + STASH_NUM && n >= 2
  {
    var bid := Home(k.hash, n);
    var nid := NextBid(bid, n);
    && IsFull(b[bid]) && IsFull(b[nid])
    && !Moves(b, true, nid, NextBid(nid, n)) && !Moves(b, false, bid, PrevBid(bid, n))
    && StashFull(b, n)
  }

  /** The buckets whose slots an insertion changes; all of them when it must fail. */
  function Touches(b: seq<Bucket>, n: nat, k: Key, spread: bool): seq<nat>
    requires |b| == n + STASH_NUM && n >= 2
  {
    var bid := Home(k.hash, n);
    var nid := NextBid(bid, n);
    var first := FirstTried(b, n, k, spread);
    if !IsFull(b[first]) then [first]
    else if !spread && !IsFull(b[nid]) then [nid]
    else if Moves(b, true, nid, NextBid(nid, n)) then [nid, NextBid(nid, n)]
    else if Moves(b, false, bid, PrevBid(bid, n)) then [bid, PrevBid(bid, n)]
    else
      var i := StashWithRoom(b, n, bid, 0);
      if i < STASH_NUM then [StashBid(n, bid, i)] else seq(|b|, i => i)
  }

  function NewBuckets(n: nat, s: nat): seq<Bucket> { seq(n + STASH_NUM, _ => EmptyBucket(s)) }

  class Segment {
    const bucketNum: nat
    const slotNum: nat
    var buckets: seq<Bucket>
    var localDepth: nat

    ghost predicate Valid()
      reads this
    {
      Inv(buckets, bucketNum, slotNum)
    }

    constructor (bucketNum: nat, slotNum: nat, depth: nat)
      requires bucketNum >= 2 && slotNum >= 1
      ensures this.bucketNum == bucketNum && this.slotNum == slotNum && localDepth == depth
      ensures Valid() && Contents(buckets) == multiset{} && buckets == NewBuckets(bucketNum, slotNum)
    {
      this.bucketNum, this.slotNum, localDepth := bucketNum, slotNum, depth;
      buckets := NewBuckets(bucketNum, slotNum);
      new;
      EmptySegment(buckets, bucketNum, slotNum);
    }

    /** Segment::Clear: frees every slot and forgets every stash pointer. */
    method Clear()
      requires Valid()
      modifies this`buckets
      ensures Valid() && Contents(buckets) == multiset{}
    {
      var i := 0;
      while i < |buckets|
        invariant i <= |buckets| == bucketNum + STASH_NUM
        invariant forall j | 0 <= j < i :: buckets[j] == EmptyBucket(slotNum)
      {
        buckets := buckets[i := EmptyBucket(slotNum)];
        i := i + 1;
      }
      EmptySegment(buckets, bucketNum, slotNum);
    }

    /** Looks in the stash buckets that pointers with the key's fingerprint name. */
    method IterateStash(refs: seq<StashRef>, probe: bool, k: Key) returns (r: Pos)
      requires Valid()
      requires forall j | 0 <= j < |refs| :: refs[j].Ref? && refs[j].probe == probe ==> refs[j].pos < STASH_NUM
      ensures r.At? ==> KeyAt(buckets, r, k)
      ensures r.NoPos? ==> forall p | Ref(p, Fp(k.hash), probe) in refs :: !InStash(buckets, bucketNum, p, k)
    {
      var i := 0;
      while i < |refs|
        invariant i <= |refs|
        invariant forall p | Ref(p, Fp(k.hash), probe) in refs[..i] :: !InStash(buckets, bucketNum, p, k)
      {
        var c := refs[i];
        if c.Ref? && c.fp == Fp(k.hash) && c.probe == probe {
          var sid := FindByFp(buckets[bucketNum + c.pos], k, false);
          if sid < slotNum {
            return At(bucketNum + c.pos, sid);
          }
          StashBucketMiss(buckets, bucketNum, slotNum, c.pos, k);
        }
        assert refs[..i + 1] == refs[..i] + [c];
        i := i + 1;
      }
      assert refs[..i] == refs;
      r := NoPos;
    }

    /** Segment::FindIt: finds the key exactly when some slot of the segment holds it. */
    method FindIt(k: Key) returns (r: Pos)
      requires Valid()
      ensures r.At? ==> KeyAt(buckets, r, k)
      ensures r.At? <==> Stores(buckets, k)
    {
      var n, b := bucketNum, buckets;
      var home := Home(k.hash, n);
      var nid := NextBid(home, n);
      var sid := FindByFp(b[home], k, false);
      if sid < slotNum {
        assert Holds(b[home], k);
        return At(home, sid);
      }
      sid := FindByFp(b[nid], k, true);
      if sid < slotNum {
        assert Holds(b[nid], k);
        return At(nid, sid);
      }
      RegularMiss(b, n, slotNum, k);
      if !b[home].present {
        StashMiss(b, n, slotNum, k);
        return NoPos;
      }
      if b[home].overflow > 0 {
        for i := 0 to STASH_NUM
          invariant forall p | 0 <= p < i :: !InStash(b, n, p, k)
        {
          sid := FindByFp(b[n + i], k, false);
          if sid < slotNum {
            assert Holds(b[n + i], k);
            return At(n + i, sid);
          }
          StashBucketMiss(b, n, slotNum, i, k);
        }
        NowhereElse(b, n, slotNum, k);
        return NoPos;
      }
      PointersInRange(b, n, slotNum, home);
      r := IterateStash(b[home].refs, false, k);
      if r.At? {
        assert Holds(b[r.bid], k);
        return;
      }
      r := IterateStash(b[nid].refs, true, k);
      if r.NoPos? {
        StashMiss(b, n, slotNum, k);
      } else {
        assert Holds(b[r.bid], k);
      }
    }

    /** Moves one owned entry to the next bucket, or one probing entry back to the previous one. The
        source picks it from the raw probe bitmap, so the bucket it moves from has to be full. */
    method MoveToOther(own: bool, from: nat, to: nat) returns (slot: int)
      requires Valid() && from < bucketNum && IsFull(buckets[from])
      requires to == if own then NextBid(from, bucketNum) else PrevBid(from, bucketNum)
      modifies this`buckets
      ensures Moved(old(buckets), buckets, bucketNum, slotNum, own, from, to, slot)
    {
      var src := FirstByProbe(buckets[from].slots, !own);
      var dst := FindEmptySlot(buckets[to].slots);
      slot := -1;
      if src < slotNum && dst < slotNum {
        MoveKeeps(buckets, bucketNum, slotNum, own, from, to);
        buckets := MoveSlot(buckets, from, src, to, dst, own);
        slot := src;
      }
    }

    /** Segment::InsertUniq: home or neighbour, then displacement, then the stash. Fails without a
        trace exactly when there is no room, or adds exactly the entry where `Touches` foretells. */
    method InsertUniq(e: Entry, spread: bool) returns (r: Pos)
      requires Valid()
      modifies this`buckets
      ensures Valid()
      ensures r.NoPos? ==> buckets == old(buckets)
      ensures r.At? ==> Inserted(old(buckets), buckets, bucketNum, slotNum, e, r)
      ensures Foretold(old(buckets), buckets, bucketNum, e.key, spread, r)
      ensures r.NoPos? <==> NoRoom(old(buckets), bucketNum, e.key)
      ensures r.At? ==> r.slot == SlotTaken(old(buckets), bucketNum, e.key, r.bid)
    {
      hide IndexOk, AllPlaced, Stashed, Contents, FindEmptySlot, FirstByProbe, NoRoom;
      NoRoomIsAll(buckets, bucketNum, slotNum, e.key, spread);
      var bid := Home(e.key.hash, bucketNum);
      var nid := NextBid(bid, bucketNum);
      var probe := spread && Size(buckets[bid].slots) > Size(buckets[nid].slots);
      var first := if probe then nid else bid;
      var slot := FindEmptySlot(buckets[first].slots);
      if slot < slotNum {
        InsertDirect(buckets, bucketNum, slotNum, first, slot, e, probe);
        buckets := WithSlot(buckets, first, slot, Cell(e, probe));
        ForetoldDirect(old(buckets), buckets, bucketNum, e.key, spread, slot);
        return At(first, slot);
      }
      if !spread {
        slot := FindEmptySlot(buckets[nid].slots);
        if slot < slotNum {
          InsertDirect(buckets, bucketNum, slotNum, nid, slot, e, true);
          buckets := WithSlot(buckets, nid, slot, Cell(e, true));
          ForetoldNext(old(buckets), buckets, bucketNum, e.key, slot);
          return At(nid, slot);
        }
      }
      // The home bucket and its neighbour are full.
      r := InsertDisplacing(e, bid, nid);
      if r.NoPos? {
        r := InsertStash(e, bid);
        ForetoldStash(old(buckets), buckets, bucketNum, e.key, spread, r);
      } else {
        ForetoldDisplaced(old(buckets), buckets, bucketNum, e.key, spread, r);
      }
    }

    method InsertDisplacing(e: Entry, bid: nat, nid: nat) returns (r: Pos)
      requires Valid() && bid == Home(e.key.hash, bucketNum) && nid == NextBid(bid, bucketNum)
      requires IsFull(buckets[bid]) && IsFull(buckets[nid])
      modifies this`buckets
      ensures r.NoPos? ==> buckets == old(buckets)
      ensures r.At? ==> Inserted(old(buckets), buckets, bucketNum, slotNum, e, r)
      ensures Displaced(old(buckets), buckets, bucketNum, bid, nid, r)
      ensures r.At? ==> r.slot == FirstByProbe(old(buckets)[r.bid].slots, r.bid == bid)
    {
      var after, prev := NextBid(nid, bucketNum), PrevBid(bid, bucketNum);
      ghost var b := buckets;
      var slot := MoveToOther(true, nid, after);
      if slot >= 0 {
        InsertAfterMove(b, buckets, bucketNum, slotNum, nid, after, slot, e, true);
        buckets := WithSlot(buckets, nid, slot, Cell(e, true));
        return At(nid, slot);
      }
      slot := MoveToOther(false, bid, prev);
      if slot >= 0 {
        InsertAfterMove(b, buckets, bucketNum, slotNum, bid, prev, slot, e, false);
        buckets := WithSlot(buckets, bid, slot, Cell(e, false));
        return At(bid, slot);
      }
      r := NoPos;
    }

    method InsertStash(e: Entry, bid: nat) returns (r: Pos)
      requires Valid() && bid == Home(e.key.hash, bucketNum)
      modifies this`buckets
      ensures r.NoPos? ==> buckets == old(buckets)
      ensures r.At? ==> Inserted(old(buckets), buckets, bucketNum, slotNum, e, r)
      ensures InStashOrder(old(buckets), buckets, bucketNum, bid, r)
      ensures r.At? ==> !IsFull(old(buckets)[r.bid]) && r.slot == FindEmptySlot(old(buckets)[r.bid].slots)
    {
      hide IndexOk, Contents, AllPlaced, PutStash;
      var i := 0;
      while i < STASH_NUM
        invariant i <= STASH_NUM && buckets == old(buckets)
        invariant forall k | 0 <= k < i :: IsFull(buckets[StashBid(bucketNum, bid, k)])
      {
        var pos := (bid + i) % STASH_NUM;
        var slot := FindEmptySlot(buckets[bucketNum + pos].slots);
        assert bucketNum + pos == StashBid(bucketNum, bid, i);
        if slot < slotNum {
          StashInsert(buckets, bucketNum, slotNum, pos, slot, e);
          buckets := PutStash(buckets, bucketNum, slotNum, pos, slot, e);
          return At(bucketNum + pos, slot);
        }
        i := i + 1;
      }
      r := NoPos;
    }

    /** The two calls of a versioned insertion, one after the other: the insertion changes the slots of no
        bucket that CVCOnInsert did not name, puts the entry into the first one it named, and fails exactly when
        it named all. */
    method InsertForetold(e: Entry) returns (bids: seq<nat>, r: Pos)
      requires Valid()
      modifies this`buckets
      ensures Valid() && (r.NoPos? <==> |bids| == |buckets|) && (r.NoPos? ==> buckets == old(buckets))
      ensures r.At? ==> Inserted(old(buckets), buckets, bucketNum, slotNum, e, r)
      ensures r.At? ==> |bids| > 0 && r.bid == bids[0] && OnlyTouched(old(buckets), buckets, bids)
      ensures r.At? && e !in old(Contents(buckets)) ==>
                forall i | i in bids :: i < |buckets| == |old(buckets)| && buckets[i].slots != old(buckets)[i].slots
    {
      hide IndexOk, AllPlaced, Stashed, Contents, Inserted, OnlyTouched, NoRoom;
      bids := CVCOnInsert(e.key);
      r := InsertUniq(e, true);
      if r.At? && e !in old(Contents(buckets)) {
        NamedChange(old(buckets), buckets, bucketNum, slotNum, e, r);
      }
    }

    /** Segment::CVCOnInsert: names the buckets a spreading insertion of the key will change. */
    method CVCOnInsert(k: Key) returns (bids: seq<nat>)
      requires Valid()
      ensures bids == Touches(buckets, bucketNum, k, true)
    {
      hide IndexOk, AllPlaced, Stashed, FindEmptySlot, FirstByProbe, Size;
      var n, b := bucketNum, buckets;
      var bid := Home(k.hash, n);
      var nid := NextBid(bid, n);
      var first := if Size(b[bid].slots) > Size(b[nid].slots) then nid else bid;
      if !IsFull(b[first]) {
        return [first];
      }
      if Moves(b, true, nid, NextBid(nid, n)) {
        return [nid, NextBid(nid, n)];
      }
      if Moves(b, false, bid, PrevBid(bid, n)) {
        return [bid, PrevBid(bid, n)];
      }
      for i := 0 to STASH_NUM
        invariant forall j | 0 <= j < i :: IsFull(b[StashBid(n, bid, j)])
      {
        if !IsFull(b[StashBid(n, bid, i)]) {
          return [StashBid(n, bid, i)];
        }
      }
      bids := seq(|b|, i => i);
    }

    method Delete(bid: nat, slot: nat)
      requires Valid() && bid < |buckets| && slot < slotNum && buckets[bid].slots[slot].Used?
      modifies this`buckets
      ensures Valid()
      ensures Contents(buckets) + multiset{old(buckets[bid].slots[slot].entry)} == old(Contents(buckets))
      ensures SameSlots(old(WithSlot(buckets, bid, slot, Free)), buckets)
    {
      if bid >= bucketNum {
        TakeSlots(buckets, bucketNum, slotNum, bid - bucketNum, slot);
        DropStash(buckets, bucketNum, slotNum, bid - bucketNum, slot);
        buckets := TakeStash(buckets, bucketNum, slotNum, bid - bucketNum, slot);
      } else {
        DropRegular(buckets, bucketNum, slotNum, bid, slot);
        buckets := WithSlot(buckets, bid, slot, Free);
      }
    }

    /** Copies a stash entry to its home bucket or the neighbour and drops the home's reference; the
        caller frees the stash slot. Slots in `mask` are those the caller has yet to free. */
    method TryMoveFromStash(pos: nat, slot: nat, ghost mask: set<nat>) returns (r: Pos)
      requires Shape(buckets, bucketNum, slotNum) && pos < STASH_NUM && slot < slotNum && slot !in mask
      requires buckets[bucketNum + pos].slots[slot].Used?
               && Inv(Cleared(buckets, bucketNum + pos, mask), bucketNum, slotNum)
      modifies this`buckets
      ensures Unloaded(old(buckets), buckets, bucketNum, slotNum, pos, slot, mask, r)
      ensures r.At? ==> r == FirstFree(old(buckets), bucketNum, old(buckets)[bucketNum + pos].slots[slot].entry.key)
    {
      var k := buckets[bucketNum + pos].slots[slot].entry.key;
      var bid, probe := Home(k.hash, bucketNum), false;
      var j := FindEmptySlot(buckets[bid].slots);
      if j == slotNum {
        bid, probe := NextBid(bid, bucketNum), true;
        j := FindEmptySlot(buckets[bid].slots);
      }
      if j == slotNum {
        return NoPos;
      }
      UnloadStep(buckets, bucketNum, slotNum, pos, slot, mask, bid, j, probe);
      buckets := Unload(buckets, bucketNum, slotNum, pos, slot, bid, j, probe);
      r := At(bid, j);
    }

    /** Segment::BumpUp: makes an entry harder to evict. `canBump` is the policy; `staleBump` is what
        it answers for the leftover key of a free slot. */
    method BumpUp(bid: nat, slot: nat, canBump: Key -> bool, staleBump: bool) returns (r: Pos)
      requires Valid() && bid < |buckets| && slot < slotNum && buckets[bid].slots[slot].Used?
      modifies this`buckets
      ensures Bumped(old(buckets), buckets, bucketNum, slotNum, bid, slot,
                     old(MayRise(buckets, bucketNum, slotNum, bid, slot, canBump, staleBump)), r)
    {
      hide IndexOk, AllPlaced, Stashed, Contents;
      r := At(bid, slot);
      if !canBump(buckets[bid].slots[slot].entry.key) {
        NothingTraded(buckets, buckets, bid, slot);
        return;
      }
      if bid >= bucketNum {
        r := BumpStash(bid - bucketNum, slot, canBump, staleBump);
        return;
      }
      r := BumpRegular(bid, slot, canBump, staleBump);
    }

    method BumpRegular(bid: nat, slot: nat, canBump: Key -> bool, staleBump: bool) returns (r: Pos)
      requires Valid() && bid < bucketNum && slot < slotNum && buckets[bid].slots[slot].Used?
      requires canBump(buckets[bid].slots[slot].entry.key)
      modifies this`buckets
      ensures Bumped(old(buckets), buckets, bucketNum, slotNum, bid, slot,
                     old(MayRise(buckets, bucketNum, slotNum, bid, slot, canBump, staleBump)), r)
    {
      hide IndexOk, AllPlaced, Stashed, Contents;
      r := At(bid, slot);
      NothingTraded(buckets, buckets, bid, slot);
      if slot > 0 && SlotCanBump(buckets[bid].slots[slot - 1], canBump, staleBump) {
        BumpRegularSwap(buckets, bucketNum, slotNum, bid, slot);
        buckets := SwapSlots(buckets, bid, slot - 1, slot);
        r := At(bid, slot - 1);
      }
    }

    method BumpStash(pos: nat, slot: nat, canBump: Key -> bool, staleBump: bool) returns (r: Pos)
      requires Valid() && pos < STASH_NUM && slot < slotNum && buckets[bucketNum + pos].slots[slot].Used?
      requires canBump(buckets[bucketNum + pos].slots[slot].entry.key)
      modifies this`buckets
      ensures Bumped(old(buckets), buckets, bucketNum, slotNum, bucketNum + pos, slot,
                     old(MayRise(buckets, bucketNum, slotNum, bucketNum + pos, slot, canBump, staleBump)), r)
    {
      hide IndexOk, AllPlaced, Stashed, Contents, MayRise, Bumped;
      var e := buckets[bucketNum + pos].slots[slot].entry;
      var target := Home(e.key.hash, bucketNum);
      var nid := NextBid(target, bucketNum);
      ClearedNone(buckets, bucketNum + pos);
      ghost var b := buckets;
      r := TryMoveFromStash(pos, slot, {});
      if r.At? {
        BumpUnloaded(b, buckets, bucketNum, slotNum, pos, slot, r);
        RisesWithRoom(b, buckets, bucketNum, slotNum, pos, slot, r, canBump, staleBump);
        buckets := WithSlot(buckets, bucketNum + pos, slot, Free);
        return;
      }
      r := BumpSwap(pos, slot, target, nid, canBump, staleBump);
    }

    /** Both candidate buckets are full: exchanges the stash entry with the last entry of the bucket
        whose pointer slots announced it, unless that one must not leave. */
    method BumpSwap(pos: nat, slot: nat, target: nat, nid: nat, canBump: Key -> bool, staleBump: bool) returns (r: Pos)
      requires Valid() && pos < STASH_NUM && slot < slotNum && buckets[bucketNum + pos].slots[slot].Used?
      requires target == Home(buckets[bucketNum + pos].slots[slot].entry.key.hash, bucketNum)
      requires nid == NextBid(target, bucketNum) && IsFull(buckets[target]) && IsFull(buckets[nid])
      requires canBump(buckets[bucketNum + pos].slots[slot].entry.key)
      modifies this`buckets
      ensures Bumped(old(buckets), buckets, bucketNum, slotNum, bucketNum + pos, slot,
                     old(MayRise(buckets, bucketNum, slotNum, bucketNum + pos, slot, canBump, staleBump)), r)
    {
      hide IndexOk, Contents, AllPlaced, Exchange, Refreshed, HeldByNext, MayRise, Bumped;
      RisesBySwap(buckets, bucketNum, slotNum, pos, slot, canBump, staleBump);
      var inNext := HeldByNext(buckets, bucketNum, slotNum, pos, slot);
      HeldIsTold(buckets, bucketNum, slotNum, pos, slot);
      var swap := if inNext then nid else target;
      if canBump(buckets[swap].slots[slotNum - 1].entry.key) {
        BumpExchange(buckets, bucketNum, slotNum, pos, slot, swap, inNext);
        buckets := Exchange(buckets, bucketNum, slotNum, pos, slot, swap, slotNum - 1, inNext);
        r := At(swap, slotNum - 1);
      } else {
        BumpRefused(buckets, bucketNum, slotNum, pos, slot);
        buckets := Refreshed(buckets, bucketNum, slotNum, pos, slot);
        r := At(bucketNum + pos, slot);
      }
    }

    /** Segment::UnloadStash: moves stash entries back to regular buckets until none that is left has
        room in its home bucket or the neighbour. */
    method UnloadStash() returns (moved: nat)
      requires Valid()
      modifies this`buckets
      ensures Valid() && Contents(buckets) == old(Contents(buckets))
      ensures StashSize(buckets, bucketNum) + moved == old(StashSize(buckets, bucketNum))
      ensures StuckBelow(buckets, bucketNum, STASH_NUM)
    {
      hide IndexOk, AllPlaced, Stashed, Contents, Size, IsFull, AllStuck, FullStays, StuckBelow;
      EmptyPrefixStuck(buckets, bucketNum);
      moved := 0;
      for pos := 0 to STASH_NUM
        invariant Valid() && Contents(buckets) == old(Contents(buckets))
        invariant StashSize(buckets, bucketNum) + moved == old(StashSize(buckets, bucketNum))
        invariant StuckBelow(buckets, bucketNum, pos)
      {
        ghost var b := buckets;
        var k := UnloadBucket(pos);
        StillStuck(b, buckets, bucketNum, slotNum, pos);
        SumChanges(b, buckets, bucketNum, slotNum, pos, 0);
        moved := moved + k;
      }
    }

    method UnloadBucket(pos: nat) returns (moved: nat)
      requires Valid() && pos < STASH_NUM
      modifies this`buckets
      ensures Valid() && Contents(buckets) == old(Contents(buckets))
      ensures FullStays(old(buckets), buckets, bucketNum) && OtherStash(old(buckets), buckets, bucketNum, pos)
      ensures AllStuck(buckets, bucketNum, buckets[bucketNum + pos].slots)
      ensures Size(buckets[bucketNum + pos].slots) + moved == old(Size(buckets[bucketNum + pos].slots))
    {
      hide IndexOk, AllPlaced, Stashed, Contents, IsFull, Size, Stuck, AllStuck, Home, FindEmptySlot;
      var bid := bucketNum + pos;
      var mask: set<nat> := {};
      ghost var was := buckets[bid].slots;
      moved := 0;
      ClearedNone(buckets, bid);
      NoneStuck(buckets, bucketNum);
      var slot := 0;
      assert ClearSlots(was, mask)[..slot] == [];
      while slot < slotNum
        invariant slot <= slotNum && (forall j | j in mask :: j < slot)
        invariant Masked(old(buckets), buckets, bucketNum, slotNum, pos, mask) && buckets[bid].slots == was
        invariant FullStays(old(buckets), buckets, bucketNum) && OtherStash(old(buckets), buckets, bucketNum, pos)
        invariant AllStuck(buckets, bucketNum, ClearSlots(was, mask)[..slot])
        invariant Size(ClearSlots(was, mask)) + moved == Size(was)
      {
        ghost var b := buckets;
        var ok := UnloadSlot(pos, slot, mask);
        StayStuck(b, buckets, bucketNum, ClearSlots(was, mask)[..slot]);
        OneMoreStuck(buckets, bucketNum, was, mask, slot, ok);
        if ok {
          moved := moved + 1;
          mask := mask + {slot};
        }
        slot := slot + 1;
      }
      ghost var b := buckets;
      buckets := Cleared(buckets, bid, mask);
      assert buckets[bid].slots[..slot] == buckets[bid].slots;
      StayStuck(b, buckets, bucketNum, buckets[bid].slots);
    }

    method UnloadSlot(pos: nat, slot: nat, ghost mask: set<nat>) returns (ok: bool)
      requires pos < STASH_NUM && slot < slotNum && slot !in mask && |buckets| == bucketNum + STASH_NUM
      requires Shape(buckets, bucketNum, slotNum) && Inv(Cleared(buckets, bucketNum + pos, mask), bucketNum, slotNum)
      modifies this`buckets
      ensures |buckets| == bucketNum + STASH_NUM
      ensures Masked(old(Cleared(buckets, bucketNum + pos, mask)), buckets, bucketNum, slotNum, pos,
                     if ok then mask + {slot} else mask)
      ensures FullStays(old(buckets), buckets, bucketNum) && StashKept(old(buckets), buckets, bucketNum)
      ensures ok ==> old(buckets[bucketNum + pos].slots[slot].Used?)
      ensures !ok ==> Stuck(buckets, bucketNum, old(buckets[bucketNum + pos].slots[slot]))
    {
      hide IndexOk, AllPlaced, Stashed, Contents;
      ok := false;
      if buckets[bucketNum + pos].slots[slot].Used? {
        ghost var b := buckets;
        var r := TryMoveFromStash(pos, slot, mask);
        ok := r.At?;
        UnloadedFull(b, buckets, bucketNum, slotNum, pos, slot, mask, r);
      }
    }

    /** Segment::ShiftRight: makes room at the front of a bucket, evicting the last entry if any. */
    method ShiftRight(bid: nat) returns (deleted: bool)
      requires Valid() && bid < |buckets|
      modifies this`buckets
      ensures Valid()
      ensures deleted == old(buckets[bid].slots[slotNum - 1].Used?)
      ensures Contents(buckets) + OneEntry(old(buckets[bid].slots[slotNum - 1])) == old(Contents(buckets))
      ensures SameSlots(old(Shifted(buckets, bid)), buckets)
    {
      hide IndexOk, AllPlaced, Stashed, Contents;
      deleted := buckets[bid].slots[slotNum - 1].Used?;
      if deleted {
        Delete(bid, slotNum - 1);
      }
      ShiftKeeps(buckets, bucketNum, slotNum, bid);
      buckets := Shifted(buckets, bid);
    }

    /** The used slots of bucket `i` that satisfy `want`, in order. */
    method ForEachSlot(i: nat, want: Slot -> bool) returns (found: seq<Pos>)
      requires i < |buckets|
      ensures forall p | p in found :: p.At? && p.bid == i
      ensures forall j | 0 <= j < |buckets[i].slots| ::
                At(i, j) in found <==> buckets[i].slots[j].Used? && want(buckets[i].slots[j])
      ensures forall p | p in found :: p.slot < |buckets[i].slots|
      ensures NoDuplicates(found)
    {
      found := [];
      var j := 0;
      while j < |buckets[i].slots|
        invariant j <= |buckets[i].slots|
        invariant forall p | p in found :: p.At? && p.bid == i && p.slot < j
        invariant forall k | 0 <= k < j :: At(i, k) in found <==> buckets[i].slots[k].Used? && want(buckets[i].slots[k])
        invariant NoDuplicates(found)
      {
        if buckets[i].slots[j].Used? && want(buckets[i].slots[j]) {
          found := found + [At(i, j)];
        }
        j := j + 1;
      }
    }

    /** Segment::TraverseLogicalBucket: reports every entry at home in bucket `bid` exactly once,
        wherever in the segment it lives, and nothing else. */
    method TraverseLogicalBucket(bid: nat) returns (found: seq<Pos>)
      requires Valid() && bid < bucketNum
      ensures NoDuplicates(found)
      ensures forall p :: p in found <==> HomedAt(buckets, bucketNum, p, bid)
    {
      var n := bucketNum;
      var nid := NextBid(bid, n);
      found := ForEachSlot(bid, (s: Slot) => s.Used? && !s.probe);
      var more := ForEachSlot(nid, (s: Slot) => s.Used? && s.probe);
      Disjoint(found, more);
      found := found + more;
      RegularHomes(buckets, n, slotNum, bid, found);
      if !buckets[bid].present {
        NothingStashed(buckets, n, slotNum, bid);
        return;
      }
      for j := n to n + STASH_NUM
        invariant NoDuplicates(found)
        invariant forall p | p in found :: p.At? && p.bid < j
        invariant forall p: Pos | p.At? && p.bid < j :: p in found <==> HomedAt(buckets, n, p, bid)
      {
        more := ForEachSlot(j, (s: Slot) => s.Used? && Home(s.entry.key.hash, n) == bid);
        Disjoint(found, more);
        found := found + more;
      }
    }
  }

  ghost predicate NoDuplicates(ps: seq<Pos>) {
    forall x, y | 0 <= x < y < |ps| :: ps[x] != ps[y]
  }

  /** Position `p` holds an entry whose home is bucket `bid`. */
  ghost predicate HomedAt(b: seq<Bucket>, n: nat, p: Pos, bid: nat)
    requires n > 0
  {
    && p.At? && p.bid < |b| && p.slot < |b[p.bid].slots| && b[p.bid].slots[p.slot].Used?
    && Home(b[p.bid].slots[p.slot].entry.key.hash, n) == bid
  }

  lemma Disjoint(a: seq<Pos>, c: seq<Pos>)
    requires NoDuplicates(a) && NoDuplicates(c)
    requires forall p, q | p in a && q in c :: p != q
    ensures NoDuplicates(a + c)
  {
    forall x, y | 0 <= x < y < |a + c| ensures (a + c)[x] != (a + c)[y] {
      if x < |a| && y >= |a| {
        assert a[x] in a && c[y - |a|] in c;
      }
    }
  }

  /** The owned slots of a bucket and the probing slots of the next are its regular entries. */
  lemma RegularHomes(b: seq<Bucket>, n: nat, s: nat, bid: nat, found: seq<Pos>)
    requires Shape(b, n, s) && AllPlaced(b, n) && bid < n
    requires forall p | p in found ::
               && p.At? && p.slot < s && (p.bid == bid || p.bid == NextBid(bid, n))
               && b[p.bid].slots[p.slot].Used? && (b[p.bid].slots[p.slot].probe <==> p.bid != bid)
    requires forall j | 0 <= j < s :: b[bid].slots[j].Used? && !b[bid].slots[j].probe ==> At(bid, j) in found
    requires var x := NextBid(bid, n);
             forall j | 0 <= j < s :: b[x].slots[j].Used? && b[x].slots[j].probe ==> At(x, j) in found
    ensures forall p: Pos | p.At? && p.bid < n :: p in found <==> HomedAt(b, n, p, bid)
  {
    hide Home;
    forall p: Pos | p.At? && p.bid < n ensures p in found <==> HomedAt(b, n, p, bid) {
      if p.slot < s {
        assert Placed(b[p.bid].slots[p.slot], p.bid, n);
        assert NextBid(PrevBid(p.bid, n), n) == p.bid && PrevBid(NextBid(bid, n), n) == bid;
      }
    }
  }

  /** Without the presence bit, no stash bucket holds an entry of the home. */
  lemma NothingStashed(b: seq<Bucket>, n: nat, s: nat, bid: nat)
    requires Inv(b, n, s) && bid < n && !b[bid].present
    ensures forall p: Pos | p.At? && p.bid >= n :: !HomedAt(b, n, p, bid)
  {
    hide IndexOk, AllPlaced;
    forall p: Pos | p.At? && p.bid >= n ensures !HomedAt(b, n, p, bid) {
      if HomedAt(b, n, p, bid) {
        StashReachable(b, n, s, p.bid - n, p.slot);
      }
    }
  }

  /** The entry of slot `j` of bucket `i`, if there is one. */
  ghost function EntryIn(b: seq<Bucket>, i: nat, j: nat): multiset<Entry> {
    if i < |b| && j < |b[i].slots| then OneEntry(b[i].slots[j]) else multiset{}
  }

  /** Position `r` and slot `slot` of bucket `bid` exchange what they hold; no other slot changes. */
  ghost predicate Traded(b: seq<Bucket>, c: seq<Bucket>, bid: nat, slot: nat, r: Pos)
    requires r.At?
  {
    && EntryIn(c, r.bid, r.slot) == EntryIn(b, bid, slot) && EntryIn(c, bid, slot) == EntryIn(b, r.bid, r.slot)
    && forall i: nat, j: nat | !(i == bid && j == slot) && !(i == r.bid && j == r.slot) ::
         EntryIn(c, i, j) == EntryIn(b, i, j)
  }

  /** Home has no pointer to stash bucket `pos` with the key's fingerprint, and the neighbour has one on its behalf. */
  ghost predicate ToldByNext(b: seq<Bucket>, n: nat, pos: nat, k: Key)
    requires 0 < n <= |b|
  {
    var h := Home(k.hash, n);
    Ref(pos, Fp(k.hash), false) !in b[h].refs && Ref(pos, Fp(k.hash), true) in b[NextBid(h, n)].refs
  }

  /** The first free slot of the home bucket, or else of the neighbour. */
  ghost function FirstFree(b: seq<Bucket>, n: nat, k: Key): Pos
    requires 0 < n <= |b|
  {
    var h := Home(k.hash, n);
    if !IsFull(b[h]) then At(h, FindEmptySlot(b[h].slots))
    else At(NextBid(h, n), FindEmptySlot(b[NextBid(h, n)].slots))
  }

  /** Bumping sends an entry one slot forward in its bucket, or out of the stash: to a free slot of its home
      bucket or the neighbour, or else to the last slot of the bucket whose pointer announced it. */
  ghost predicate Rises(b: seq<Bucket>, n: nat, s: nat, bid: nat, slot: nat, r: Pos)
    requires r.At?
  {
    if bid < n then r.bid == bid && r.slot + 1 == slot
    else
      && Shape(b, n, s) && bid < |b| && slot < s && b[bid].slots[slot].Used?
      && var k := b[bid].slots[slot].entry.key;
         var (h, x) := (Home(k.hash, n), NextBid(Home(k.hash, n), n));
         if !IsFull(b[h]) || !IsFull(b[x]) then r == FirstFree(b, n, k)
         else r == At(if ToldByNext(b, n, bid - n, k) then x else h, s - 1)
  }

  /** The policy lets the entry rise, and what it would push back may be pushed back. */
  ghost predicate MayRise(b: seq<Bucket>, n: nat, s: nat, bid: nat, slot: nat, canBump: Key -> bool, staleBump: bool)
    requires Shape(b, n, s) && bid < |b| && slot < s && b[bid].slots[slot].Used?
  {
    var k := b[bid].slots[slot].entry.key;
    && canBump(k)
    && if bid < n then slot > 0 && SlotCanBump(b[bid].slots[slot - 1], canBump, staleBump)
       else
         var h := Home(k.hash, n);
         var x := NextBid(h, n);
         || !IsFull(b[h]) || !IsFull(b[x])
         || SlotCanBump(b[if ToldByNext(b, n, bid - n, k) then x else h].slots[s - 1], canBump, staleBump)
  }

  predicate SlotCanBump(c: Slot, canBump: Key -> bool, staleBump: bool) {
    if c.Used? then canBump(c.entry.key) else staleBump
  }

  /** The segment stores what it stored and is sound; the entry has changed places with what was at
      the result, which is a better place exactly when the entry may rise. */
  ghost predicate Bumped(b: seq<Bucket>, c: seq<Bucket>, n: nat, s: nat, bid: nat, slot: nat, rise: bool, r: Pos) {
    && Inv(c, n, s) && Contents(c) == Contents(b) && r.At? && Traded(b, c, bid, slot, r)
    && if rise then Rises(b, n, s, bid, slot, r) else r == At(bid, slot)
  }

  lemma HeldIsTold(b: seq<Bucket>, n: nat, s: nat, pos: nat, slot: nat)
    requires Shape(b, n, s) && pos < STASH_NUM && slot < s && b[n + pos].slots[slot].Used?
    ensures HeldByNext(b, n, s, pos, slot) <==> ToldByNext(b, n, pos, b[n + pos].slots[slot].entry.key)
  {
    hide AnyRef, FindEmptySlot;
  }

  lemma RisesWithRoom(b: seq<Bucket>, c: seq<Bucket>, n: nat, s: nat, pos: nat, slot: nat, r: Pos,
                      canBump: Key -> bool, staleBump: bool)
    requires Shape(b, n, s) && pos < STASH_NUM && slot < s && b[n + pos].slots[slot].Used?
    requires Unloaded(b, c, n, s, pos, slot, {}, r) && r.At? && canBump(b[n + pos].slots[slot].entry.key)
    ensures MayRise(b, n, s, n + pos, slot, canBump, staleBump)
  {
    hide Inv, Contents, Cleared, HeldByNext;
    assert !IsFull(b[r.bid]);
  }

  lemma RisesBySwap(b: seq<Bucket>, n: nat, s: nat, pos: nat, slot: nat, canBump: Key -> bool, staleBump: bool)
    requires Shape(b, n, s) && pos < STASH_NUM && slot < s && b[n + pos].slots[slot].Used?
    requires canBump(b[n + pos].slots[slot].entry.key)
    requires var h := Home(b[n + pos].slots[slot].entry.key.hash, n); IsFull(b[h]) && IsFull(b[NextBid(h, n)])
    ensures var h := Home(b[n + pos].slots[slot].entry.key.hash, n);
            var to := if HeldByNext(b, n, s, pos, slot) then NextBid(h, n) else h;
            && b[to].slots[s - 1].Used?
            && (MayRise(b, n, s, n + pos, slot, canBump, staleBump) <==> canBump(b[to].slots[s - 1].entry.key))
  {
    hide HeldByNext, ToldByNext;
    HeldIsTold(b, n, s, pos, slot);
  }

  lemma NothingTraded(b: seq<Bucket>, c: seq<Bucket>, bid: nat, slot: nat)
    requires SameSlots(b, c)
    ensures Traded(b, c, bid, slot, At(bid, slot))
  {
  }

  lemma BumpUnloaded(b: seq<Bucket>, c: seq<Bucket>, n: nat, s: nat, pos: nat, slot: nat, r: Pos)
    requires Inv(b, n, s) && pos < STASH_NUM && slot < s && b[n + pos].slots[slot].Used?
    requires Unloaded(b, c, n, s, pos, slot, {}, r) && r.At? && r == FirstFree(b, n, b[n + pos].slots[slot].entry.key)
    ensures Bumped(b, WithSlot(c, n + pos, slot, Free), n, s, n + pos, slot, true, r)
  {
    hide IndexOk, AllPlaced, Stashed, Contents;
    ClearedNone(b, n + pos);
    ClearedNone(c, n + pos);
    ClearedOne(c, n + pos, {}, slot);
    assert {} + {slot} == {slot};
    var e := b[n + pos].slots[slot].entry;
    TwoSlots(b, WithSlot(c, n + pos, slot, Free), n + pos, slot, r, Free, Cell(e, r.bid != Home(e.key.hash, n)));
  }

  /** Two slots have been rewritten so that their entries change places. */
  lemma TwoSlots(b: seq<Bucket>, c: seq<Bucket>, bid: nat, slot: nat, r: Pos, x: Slot, y: Slot)
    requires r.At? && bid < |b| && slot < |b[bid].slots| && r.bid < |b| && r.slot < |b[r.bid].slots|
    requires !(r.bid == bid && r.slot == slot) && SameSlots(WithSlot(WithSlot(b, r.bid, r.slot, y), bid, slot, x), c)
    requires OneEntry(y) == OneEntry(b[bid].slots[slot]) && OneEntry(x) == OneEntry(b[r.bid].slots[r.slot])
    ensures Traded(b, c, bid, slot, r)
  {
    hide OneEntry;
  }

  lemma BumpRefused(b: seq<Bucket>, n: nat, s: nat, pos: nat, slot: nat)
    requires Inv(b, n, s) && pos < STASH_NUM && slot < s && b[n + pos].slots[slot].Used?
    ensures Bumped(b, Refreshed(b, n, s, pos, slot), n, s, n + pos, slot, false, At(n + pos, slot))
  {
    RefreshedKeeps(b, n, s, pos, slot);
    NothingTraded(b, Refreshed(b, n, s, pos, slot), n + pos, slot);
  }

  lemma BumpExchange(b: seq<Bucket>, n: nat, s: nat, pos: nat, slot: nat, to: nat, probe: bool)
    requires Inv(b, n, s) && pos < STASH_NUM && slot < s && b[n + pos].slots[slot].Used?
    requires var h := Home(b[n + pos].slots[slot].entry.key.hash, n);
             && to == (if probe then NextBid(h, n) else h) && b[to].slots[s - 1].Used?
             && IsFull(b[h]) && IsFull(b[NextBid(h, n)])
             && (probe <==> ToldByNext(b, n, pos, b[n + pos].slots[slot].entry.key))
    ensures Bumped(b, Exchange(b, n, s, pos, slot, to, s - 1, probe), n, s, n + pos, slot, true, At(to, s - 1))
  {
    hide IndexOk, AllPlaced, Stashed, Contents, Exchange;
    ExchangeKeeps(b, n, s, pos, slot, to, s - 1, probe);
    ExchangeSlots(b, n, s, pos, slot, to, s - 1, probe);
    TwoSlots(b, Exchange(b, n, s, pos, slot, to, s - 1, probe), n + pos, slot, At(to, s - 1),
             Cell(b[to].slots[s - 1].entry, false), Cell(b[n + pos].slots[slot].entry, probe));
  }

  lemma BumpRegularSwap(b: seq<Bucket>, n: nat, s: nat, bid: nat, slot: nat)
    requires Inv(b, n, s) && bid < n && 0 < slot < s
    ensures Bumped(b, SwapSlots(b, bid, slot - 1, slot), n, s, bid, slot, true, At(bid, slot - 1))
  {
    hide IndexOk, AllPlaced, Stashed, Contents;
    SwapKeeps(b, n, s, bid, slot - 1, slot);
    TwoSlots(b, SwapSlots(b, bid, slot - 1, slot), bid, slot, At(bid, slot - 1),
             b[bid].slots[slot - 1], b[bid].slots[slot]);
  }

  /** Once the slots in `mask` of stash bucket `pos` are freed, the segment is sound and stores what
      `b` stores. */
  ghost predicate Masked(b: seq<Bucket>, c: seq<Bucket>, n: nat, s: nat, pos: nat, mask: set<nat>) {
    && pos < STASH_NUM && Shape(c, n, s)
    && Inv(Cleared(c, n + pos, mask), n, s)
    && Contents(Cleared(c, n + pos, mask)) == Contents(b)
  }

  // ---- emptying the stash ---------------------------------------------------------------

  /** An entry of the stash finds its home bucket and the neighbour full. */
  ghost predicate Stuck(b: seq<Bucket>, n: nat, c: Slot) {
    0 < n <= |b| && (c.Used? ==> var h := Home(c.entry.key.hash, n); IsFull(b[h]) && IsFull(b[NextBid(h, n)]))
  }

  ghost predicate AllStuck(b: seq<Bucket>, n: nat, slots: seq<Slot>) {
    forall j | 0 <= j < |slots| :: Stuck(b, n, slots[j])
  }

  lemma NoneStuck(b: seq<Bucket>, n: nat)
    ensures AllStuck(b, n, [])
  {
  }

  ghost predicate FullStays(b: seq<Bucket>, c: seq<Bucket>, n: nat) {
    n <= |b| == |c| && forall i | 0 <= i < n :: IsFull(b[i]) ==> IsFull(c[i])
  }

  ghost predicate StashKept(b: seq<Bucket>, c: seq<Bucket>, n: nat) {
    |b| == |c| && forall i | n <= i < |b| :: c[i].slots == b[i].slots
  }

  ghost predicate OtherStash(b: seq<Bucket>, c: seq<Bucket>, n: nat, pos: nat) {
    |b| == |c| && forall i | n <= i < |b| && i != n + pos :: c[i].slots == b[i].slots
  }

  lemma StayStuck(b: seq<Bucket>, c: seq<Bucket>, n: nat, slots: seq<Slot>)
    requires AllStuck(b, n, slots) && FullStays(b, c, n)
    ensures AllStuck(c, n, slots)
  {
    hide IsFull;
    forall j | 0 <= j < |slots| ensures Stuck(c, n, slots[j]) {
      assert Stuck(b, n, slots[j]);
    }
  }

  /** No entry of the first `k` stash buckets can leave the stash. */
  ghost predicate StuckBelow(b: seq<Bucket>, n: nat, k: nat) {
    n + k <= |b| && forall i | n <= i < n + k :: AllStuck(b, n, b[i].slots)
  }

  lemma EmptyPrefixStuck(b: seq<Bucket>, n: nat)
    requires n <= |b|
    ensures StuckBelow(b, n, 0)
  {
  }

  lemma StillStuck(b: seq<Bucket>, c: seq<Bucket>, n: nat, s: nat, pos: nat)
    requires Shape(b, n, s) && Shape(c, n, s) && FullStays(b, c, n) && OtherStash(b, c, n, pos)
    requires pos < STASH_NUM && StuckBelow(b, n, pos) && AllStuck(c, n, c[n + pos].slots)
    ensures StuckBelow(c, n, pos + 1)
  {
    hide IsFull;
    forall i | n <= i < n + pos ensures AllStuck(c, n, c[i].slots) {
      StayStuck(b, c, n, b[i].slots);
    }
  }

  /** How many entries the stash buckets hold. */
  ghost function StashSize(b: seq<Bucket>, n: nat): nat { SizeFrom(b, n) }

  ghost function SizeFrom(b: seq<Bucket>, i: nat): nat
    decreases |b| - i
  {
    if i < |b| then Size(b[i].slots) + SizeFrom(b, i + 1) else 0
  }

  lemma {:induction false} SumChanges(b: seq<Bucket>, c: seq<Bucket>, n: nat, s: nat, pos: nat, p: nat)
    requires Shape(b, n, s) && Shape(c, n, s) && OtherStash(b, c, n, pos) && pos < STASH_NUM && p <= STASH_NUM
    ensures SizeFrom(c, n + p) + (if p <= pos then Size(b[n + pos].slots) else 0)
         == SizeFrom(b, n + p) + (if p <= pos then Size(c[n + pos].slots) else 0)
    decreases STASH_NUM - p
  {
    hide Size;
    if p < STASH_NUM {
      SumChanges(b, c, n, s, pos, p + 1);
      assert p != pos ==> c[n + p].slots == b[n + p].slots;
    }
  }

  /** One slot further, the slot has been marked in the mask or its entry is stuck. */
  lemma OneMoreStuck(b: seq<Bucket>, n: nat, slots: seq<Slot>, mask: set<nat>, j: nat, ok: bool)
    requires j < |slots| && 0 < n <= |b| && (forall x | x in mask :: x < j)
             && AllStuck(b, n, ClearSlots(slots, mask)[..j])
    requires if ok then slots[j].Used? else Stuck(b, n, slots[j])
    ensures AllStuck(b, n, ClearSlots(slots, if ok then mask + {j} else mask)[..j + 1])
    ensures ok ==> Size(ClearSlots(slots, mask + {j})) + 1 == Size(ClearSlots(slots, mask))
  {
    hide IsFull, Size;
    var now, next := ClearSlots(slots, mask), ClearSlots(slots, if ok then mask + {j} else mask);
    assert next == now[j := if ok then Free else slots[j]];
    assert next[..j + 1] == now[..j] + [if ok then Free else slots[j]];
    if ok {
      SizeUpdate(now, j);
    }
  }

  lemma {:induction false} SizeUpdate(slots: seq<Slot>, j: nat)
    requires j < |slots| && slots[j].Used?
    ensures Size(slots[j := Free]) + 1 == Size(slots)
  {
    if j > 0 {
      assert slots[j := Free][1..] == slots[1..][j - 1 := Free];
      SizeUpdate(slots[1..], j - 1);
    } else {
      assert slots[j := Free][1..] == slots[1..];
    }
  }

  lemma UnloadedFull(b: seq<Bucket>, c: seq<Bucket>, n: nat, s: nat, pos: nat, slot: nat, mask: set<nat>, r: Pos)
    requires Shape(b, n, s) && pos < STASH_NUM && slot < s && b[n + pos].slots[slot].Used?
    requires Unloaded(b, c, n, s, pos, slot, mask, r)
    ensures FullStays(b, c, n) && StashKept(b, c, n)
    ensures r.NoPos? ==> Stuck(c, n, b[n + pos].slots[slot])
  {
    hide Inv, Contents, Cleared, FindEmptySlot;
    assert r.At? ==> !IsFull(b[r.bid]);
  }

  /** An attempt to unload a stash slot: it fails only when home and neighbour are full; otherwise
      the segment is as good as before once the stash slot is freed. */
  ghost predicate Unloaded(b: seq<Bucket>, c: seq<Bucket>, n: nat, s: nat, pos: nat, slot: nat, mask: set<nat>, r: Pos)
    requires Shape(b, n, s) && pos < STASH_NUM && slot < s && b[n + pos].slots[slot].Used?
  {
    var e := b[n + pos].slots[slot].entry;
    var h := Home(e.key.hash, n);
    if r.NoPos? then c == b && IsFull(b[h]) && IsFull(b[NextBid(h, n)])
    else
      && Shape(c, n, s) && r.bid < n && r.slot < s
      && (r.bid == h || r.bid == NextBid(h, n)) && b[r.bid].slots[r.slot].Free?
      && SameSlots(WithSlot(b, r.bid, r.slot, Cell(e, r.bid != h)), c)
      && Inv(Cleared(c, n + pos, mask + {slot}), n, s)
      && Contents(Cleared(c, n + pos, mask + {slot})) == Contents(Cleared(b, n + pos, mask))
  }

  lemma UnloadStep(b: seq<Bucket>, n: nat, s: nat, pos: nat, slot: nat, mask: set<nat>, to: nat, j: nat, probe: bool)
    requires Shape(b, n, s) && pos < STASH_NUM && slot < s && slot !in mask && b[n + pos].slots[slot].Used?
    requires Inv(Cleared(b, n + pos, mask), n, s)
    requires var h := Home(b[n + pos].slots[slot].entry.key.hash, n);
             to == (if probe then NextBid(h, n) else h) && j < s && b[to].slots[j].Free?
    ensures Unloaded(b, Unload(b, n, s, pos, slot, to, j, probe), n, s, pos, slot, mask, At(to, j))
  {
    UnloadMasked(b, n, s, pos, slot, mask, to, j, probe);
    UnloadShape(b, n, s, pos, slot, to, j, probe);
  }

  ghost predicate Inserted(b: seq<Bucket>, c: seq<Bucket>, n: nat, s: nat, e: Entry, r: Pos) {
    Inv(c, n, s) && Contents(c) == Contents(b) + multiset{e} && EntryAt(c, r, e)
  }

  /** Slots outside the listed buckets hold what they held. */
  ghost predicate OnlyTouched(b: seq<Bucket>, c: seq<Bucket>, t: seq<nat>) {
    |c| == |b| && forall i | 0 <= i < |b| :: i !in t ==> c[i].slots == b[i].slots
  }

  /** The slot an insertion takes in a bucket: the first free one, or in a full bucket that of the entry that
      gives way. */
  function SlotTaken(b: seq<Bucket>, n: nat, k: Key, bid: nat): nat
    requires bid < |b| && n > 0
  {
    if IsFull(b[bid]) then FirstByProbe(b[bid].slots, bid == Home(k.hash, n)) else FindEmptySlot(b[bid].slots)
  }

  /** The outcome of an insertion is the one `Touches` computes beforehand. */
  ghost predicate Foretold(b: seq<Bucket>, c: seq<Bucket>, n: nat, k: Key, spread: bool, r: Pos)
    requires |b| == n + STASH_NUM && n >= 2
  {
    var t := Touches(b, n, k, spread);
    && (r.NoPos? <==> |t| == |b|)
    && (r.At? ==> r.bid == t[0] && OnlyTouched(b, c, t))
  }

  /** If only one bucket has other slots than before, and it was full, nothing was added. */
  lemma FullStaysFull(b: seq<Bucket>, c: seq<Bucket>, n: nat, s: nat, x: nat)
    requires Shape(b, n, s) && Shape(c, n, s) && x < |b| && IsFull(b[x])
    requires forall i | 0 <= i < |b| && i != x :: c[i].slots == b[i].slots
    ensures |Contents(c)| <= |Contents(b)|
  {
    hide Contents, FindEmptySlot;
    ContentsUpdate(b, x, c[x]);
    SameSlotsContents(b[x := c[x]], c);
    SizeIsEntries(b[x].slots);
    SizeIsEntries(c[x].slots);
    assert |Contents(c) + EntriesOf(b[x].slots)| == |Contents(b) + EntriesOf(c[x].slots)|;
  }

  /** One bucket, or a full one and another that takes an entry from it. */
  lemma TouchesShape(b: seq<Bucket>, n: nat, s: nat, k: Key)
    requires Shape(b, n, s) && |Touches(b, n, k, true)| != |b|
    ensures var t := Touches(b, n, k, true);
            && 1 <= |t| <= 2 && t[0] < |b|
            && (|t| == 2 ==> t[1] < |b| && t[1] != t[0] && IsFull(b[t[0]]))
  {
    hide FindEmptySlot, FirstByProbe;
  }

  /** A new entry changes every bucket that was named. */
  lemma NamedChange(b: seq<Bucket>, c: seq<Bucket>, n: nat, s: nat, e: Entry, r: Pos)
    requires Inv(b, n, s) && Inserted(b, c, n, s, e, r) && r.At? && Foretold(b, c, n, e.key, true, r)
    requires e !in Contents(b)
    ensures forall i | i in Touches(b, n, e.key, true) :: i < |b| == |c| && c[i].slots != b[i].slots
  {
    hide Contents, IndexOk, AllPlaced, Stashed, FindEmptySlot, FirstByProbe, Touches, IsFull;
    var t := Touches(b, n, e.key, true);
    TouchesShape(b, n, s, e.key);
    ContentsMember(b, e);
    if |t| == 2 && c[t[1]].slots == b[t[1]].slots {
      FullStaysFull(b, c, n, s, t[0]);
    }
  }

  ghost predicate Displaced(b: seq<Bucket>, c: seq<Bucket>, n: nat, bid: nat, nid: nat, r: Pos)
    requires bid < n <= |b| && nid < n
  {
    var after, prev := NextBid(nid, n), PrevBid(bid, n);
    if Moves(b, true, nid, after) then r.At? && r.bid == nid && OnlyTouched(b, c, [nid, after])
    else if Moves(b, false, bid, prev) then r.At? && r.bid == bid && OnlyTouched(b, c, [bid, prev])
    else r.NoPos?
  }

  ghost predicate InStashOrder(b: seq<Bucket>, c: seq<Bucket>, n: nat, bid: nat, r: Pos)
    requires |b| == n + STASH_NUM
  {
    var i := StashWithRoom(b, n, bid, 0);
    if i < STASH_NUM
    then r.At? && r.bid == StashBid(n, bid, i) && OnlyTouched(b, c, [r.bid])
    else r.NoPos?
  }

  lemma ForetoldDirect(b: seq<Bucket>, c: seq<Bucket>, n: nat, k: Key, spread: bool, slot: nat)
    requires |b| == n + STASH_NUM && n >= 2
    requires var first := FirstTried(b, n, k, spread); !IsFull(b[first]) && OnlyTouched(b, c, [first])
    ensures Foretold(b, c, n, k, spread, At(FirstTried(b, n, k, spread), slot))
  {
  }

  lemma ForetoldNext(b: seq<Bucket>, c: seq<Bucket>, n: nat, k: Key, slot: nat)
    requires |b| == n + STASH_NUM && n >= 2
    requires var bid := Home(k.hash, n);
             var nid := NextBid(bid, n);
             IsFull(b[bid]) && !IsFull(b[nid]) && OnlyTouched(b, c, [nid])
    ensures Foretold(b, c, n, k, false, At(NextBid(Home(k.hash, n), n), slot))
  {
  }

  /** Once the home bucket and its neighbour are full, what is left to try does not depend on how
      the insertion spreads. */
  lemma ForetoldDisplaced(b: seq<Bucket>, c: seq<Bucket>, n: nat, k: Key, spread: bool, r: Pos)
    requires |b| == n + STASH_NUM && n >= 2 && r.At?
    requires var bid := Home(k.hash, n);
             var nid := NextBid(bid, n);
             IsFull(b[bid]) && IsFull(b[nid]) && Displaced(b, c, n, bid, nid, r)
    ensures Foretold(b, c, n, k, spread, r)
  {
  }

  lemma ForetoldStash(b: seq<Bucket>, c: seq<Bucket>, n: nat, k: Key, spread: bool, r: Pos)
    requires |b| == n + STASH_NUM && n >= 2
    requires var bid := Home(k.hash, n);
             var nid := NextBid(bid, n);
             && IsFull(b[bid]) && IsFull(b[nid])
             && Displaced(b, b, n, bid, nid, NoPos)
             && InStashOrder(b, c, n, bid, r)
    ensures Foretold(b, c, n, k, spread, r)
  {
  }

  /** The insertion tries every stash bucket. */
  lemma TriesWholeStash(b: seq<Bucket>, n: nat, bid: nat)
    requires |b| == n + STASH_NUM
    ensures StashWithRoom(b, n, bid, 0) == STASH_NUM <==> StashFull(b, n)
  {
    hide IsFull, StashBid;
    var r := StashWithRoom(b, n, bid, 0);
    if r == STASH_NUM {
      forall i | n <= i < |b| ensures IsFull(b[i]) {
        var k := WhenTried(n, bid, i);
        assert IsFull(b[StashBid(n, bid, k)]);
      }
    }
  }

  lemma WhenTried(n: nat, bid: nat, i: nat) returns (k: nat)
    requires n <= i < n + STASH_NUM
    ensures k < STASH_NUM && StashBid(n, bid, k) == i
  {
    k := (i - n + STASH_NUM - bid % STASH_NUM) % STASH_NUM;
  }

  /** Spreading or not, an insertion is foretold to fail exactly when there is no room. */
  lemma NoRoomIsAll(b: seq<Bucket>, n: nat, s: nat, k: Key, spread: bool)
    requires Shape(b, n, s)
    ensures |Touches(b, n, k, spread)| == |b| <==> NoRoom(b, n, k)
  {
    hide FindEmptySlot, StashFull, Moves;
    TriesWholeStash(b, n, Home(k.hash, n));
  }

  lemma InsertDirect(b: seq<Bucket>, n: nat, s: nat, i: nat, j: nat, e: Entry, probe: bool)
    requires Inv(b, n, s) && i < n && j < s && b[i].slots[j].Free?
    requires Home(e.key.hash, n) == if probe then PrevBid(i, n) else i
    ensures var c := WithSlot(b, i, j, Cell(e, probe));
            Inserted(b, c, n, s, e, At(i, j)) && OnlyTouched(b, c, [i])
  {
    AddRegular(b, n, s, i, j, e, probe);
  }

  lemma InsertAfterMove(b: seq<Bucket>, d: seq<Bucket>, n: nat, s: nat, from: nat, to: nat, slot: nat, e: Entry,
                        own: bool)
    requires Moved(b, d, n, s, own, from, to, slot) && from < n
    requires Home(e.key.hash, n) == if own then PrevBid(from, n) else from
    ensures var c := WithSlot(d, from, slot, Cell(e, own));
            Inserted(b, c, n, s, e, At(from, slot)) && OnlyTouched(b, c, [from, to])
  {
    AddRegular(d, n, s, from, slot, e, own);
  }

  lemma StashInsert(b: seq<Bucket>, n: nat, s: nat, pos: nat, j: nat, e: Entry)
    requires Inv(b, n, s) && pos < STASH_NUM && j < s && b[n + pos].slots[j].Free?
    ensures var c := PutStash(b, n, s, pos, j, e);
            Inserted(b, c, n, s, e, At(n + pos, j)) && OnlyTouched(b, c, [n + pos])
  {
    AddStash(b, n, s, pos, j, e);
  }

  /** The entry is in the other bucket, which is not its own if it was, and no other slot has changed. */
  ghost predicate EntryMoved(b: seq<Bucket>, c: seq<Bucket>, own: bool, from: nat, slot: nat, to: nat, dst: nat) {
    && from < |b| && to < |b| && slot < |b[from].slots| && dst < |b[to].slots| && b[from].slots[slot].Used?
    && SameSlots(WithSlot(WithSlot(b, to, dst, b[from].slots[slot].(probe := own)), from, slot, Free), c)
  }

  /** What moving an entry from bucket `from` to bucket `to` does: it succeeds exactly when it can,
      keeps the contents, frees the slot it returns and leaves all other buckets alone. */
  ghost predicate Moved(b: seq<Bucket>, c: seq<Bucket>, n: nat, s: nat, own: bool, from: nat, to: nat, slot: int) {
    && Inv(c, n, s) && Contents(c) == Contents(b)
    && from < |b| == |c| && to < |b|
    && (slot >= 0 <==> Moves(b, own, from, to))
    && (slot < 0 ==> c == b)
    && (slot >= 0 ==> slot < s && c[from].slots[slot].Free? && slot == FirstByProbe(b[from].slots, !own))
    && (slot >= 0 ==> EntryMoved(b, c, own, from, slot, to, FindEmptySlot(b[to].slots)))
    && (forall i | 0 <= i < |c| :: i != from && i != to ==> c[i] == b[i])
  }

  lemma MoveKeeps(b: seq<Bucket>, n: nat, s: nat, own: bool, from: nat, to: nat)
    requires Inv(b, n, s) && from < n && IsFull(b[from])
    requires to == (if own then NextBid(from, n) else PrevBid(from, n)) && Moves(b, own, from, to)
    ensures var src, dst := FirstByProbe(b[from].slots, !own), FindEmptySlot(b[to].slots);
            Moved(b, MoveSlot(b, from, src, to, dst, own), n, s, own, from, to, src)
  {
    hide IndexOk, Stashed, Contents, Home;
    var src, dst := FirstByProbe(b[from].slots, !own), FindEmptySlot(b[to].slots);
    assert Placed(b[from].slots[src], from, n);
    MoveRegular(b, n, s, from, src, to, dst, own);
  }

  lemma EmptySegment(b: seq<Bucket>, n: nat, s: nat)
    requires n >= 2 && s >= 1 && |b| == n + STASH_NUM
    requires forall i | 0 <= i < |b| :: b[i] == EmptyBucket(s)
    ensures Inv(b, n, s) && Contents(b) == multiset{}
  {
    var none := [Unset, Unset, Unset, Unset];
    RefEmpty(none, false);
    RefEmpty(none, true);
    forall h | 0 <= h < n ensures IndexOk(b, h, n, Stashed(b, h, n)) {
      EmptyStash(b, h, n, s, 0);
      assert b[h].refs == none && b[NextBid(h, n)].refs == none;
      assert Pointed(b, h, n) == multiset{};
    }
    EmptyContents(b);
  }

  lemma {:induction false} EmptySlots(slots: seq<Slot>, h: nat, n: nat)
    requires n > 0 && forall j | 0 <= j < |slots| :: slots[j].Free?
    ensures forall pos :: SpotsOf(slots, h, pos, n) == multiset{}
    ensures EntriesOf(slots) == multiset{}
  {
    if slots != [] {
      EmptySlots(slots[1..], h, n);
    }
  }

  lemma {:induction false} EmptyStash(b: seq<Bucket>, h: nat, n: nat, s: nat, p: nat)
    requires n > 0 && forall i | 0 <= i < |b| :: b[i] == EmptyBucket(s)
    ensures StashedFrom(b, h, n, p) == multiset{}
    decreases |b| - p
  {
    if n + p < |b| {
      EmptyStash(b, h, n, s, p + 1);
      EmptySlots(EmptyBucket(s).slots, h, n);
    }
  }

  lemma {:induction false} EmptyContents(b: seq<Bucket>)
    requires forall i, j | 0 <= i < |b| && 0 <= j < |b[i].slots| :: b[i].slots[j].Free?
    ensures Contents(b) == multiset{}
  {
    if b != [] {
      EmptySlots(b[0].slots, 0, 1);
      EmptyContents(b[1..]);
    }
  }

  /** Both sets of pointers that speak for bucket `h` name stash buckets. */
  lemma PointersInRange(b: seq<Bucket>, n: nat, s: nat, h: nat)
    requires Inv(b, n, s) && h < n
    ensures forall j | 0 <= j < STASH_FP_LEN ::
              b[h].refs[j].Ref? && !b[h].refs[j].probe ==> b[h].refs[j].pos < STASH_NUM
    ensures var x := b[NextBid(h, n)];
            forall j | 0 <= j < STASH_FP_LEN :: x.refs[j].Ref? && x.refs[j].probe ==> x.refs[j].pos < STASH_NUM
  {
    forall j | 0 <= j < STASH_FP_LEN && b[h].refs[j].Ref? && !b[h].refs[j].probe
      ensures b[h].refs[j].pos < STASH_NUM
    {
      PointerInRange(b, n, s, h, b[h].refs[j]);
    }
    var x := b[NextBid(h, n)];
    forall j | 0 <= j < STASH_FP_LEN && x.refs[j].Ref? && x.refs[j].probe
      ensures x.refs[j].pos < STASH_NUM
    {
      PointerInRange(b, n, s, h, x.refs[j]);
    }
  }

  lemma RegularMiss(b: seq<Bucket>, n: nat, s: nat, k: Key)
    requires Shape(b, n, s) && AllPlaced(b, n)
    requires var h := Home(k.hash, n);
             && (forall j | 0 <= j < s :: !(b[h].slots[j].Used? && b[h].slots[j].fp == Fp(k.hash)
                                            && !b[h].slots[j].probe && b[h].slots[j].entry.key == k))
             && var x := b[NextBid(h, n)];
                forall j | 0 <= j < s :: !(x.slots[j].Used? && x.slots[j].fp == Fp(k.hash)
                                           && x.slots[j].probe && x.slots[j].entry.key == k)
    ensures forall i | 0 <= i < n :: !Holds(b[i], k)
  {
    forall i | 0 <= i < n ensures !Holds(b[i], k) {
      forall j | 0 <= j < s ensures !(b[i].slots[j].Used? && b[i].slots[j].entry.key == k) {
        assert Placed(b[i].slots[j], i, n);
        assert NextBid(PrevBid(i, n), n) == i;
      }
    }
  }

  lemma StashBucketMiss(b: seq<Bucket>, n: nat, s: nat, p: nat, k: Key)
    requires Shape(b, n, s) && AllPlaced(b, n) && p < STASH_NUM
    requires var x := b[n + p];
             forall j | 0 <= j < s :: !(x.slots[j].Used? && x.slots[j].fp == Fp(k.hash)
                                        && !x.slots[j].probe && x.slots[j].entry.key == k)
    ensures !InStash(b, n, p, k)
  {
    var i := n + p;
    forall j | 0 <= j < s ensures !(b[i].slots[j].Used? && b[i].slots[j].entry.key == k) {
      assert Placed(b[i].slots[j], i, n);
    }
  }

  lemma NowhereElse(b: seq<Bucket>, n: nat, s: nat, k: Key)
    requires Shape(b, n, s)
    requires forall i | 0 <= i < n :: !Holds(b[i], k)
    requires forall p | 0 <= p < STASH_NUM :: !InStash(b, n, p, k)
    ensures !Stores(b, k)
  {
    if i :| 0 <= i < |b| && Holds(b[i], k) {
      if i >= n {
        assert InStash(b, n, i - n, k);
      }
    }
  }

  /** When the home bucket announces nothing that leads to `k`, the stash does not hold `k`. */
  lemma StashMiss(b: seq<Bucket>, n: nat, s: nat, k: Key)
    requires Inv(b, n, s)
    requires forall i | 0 <= i < n :: !Holds(b[i], k)
    requires var h := Home(k.hash, n);
             || !b[h].present
             || (&& b[h].overflow == 0
                 && (forall p | Ref(p, Fp(k.hash), false) in b[h].refs :: !InStash(b, n, p, k))
                 && (forall p | Ref(p, Fp(k.hash), true) in b[NextBid(h, n)].refs :: !InStash(b, n, p, k)))
    ensures !Stores(b, k)
  {
    forall p | 0 <= p < STASH_NUM ensures !InStash(b, n, p, k) {
      if InStash(b, n, p, k) {
        var j :| 0 <= j < s && b[n + p].slots[j].Used? && b[n + p].slots[j].entry.key == k;
        StashReachable(b, n, s, p, j);
      }
    }
    NowhereElse(b, n, s, k);
  }
}
