/** Splitting a segment: the entries whose next hash bit is set move to a new segment. */
module DashSplit {
  import opened Keys
  import opened DashBucket
  import opened DashState
  import opened DashSteps
  import opened DashSwap
  import opened DashSegment
  import opened Arith

  /** The `depth` most significant bits of a 64-bit hash. */
  function Prefix(h: Hash, depth: nat): nat {
    if depth >= 64 then h else Shr(h, 64 - depth)
  }

  /** A segment of local depth `depth` keeps the keys whose bit number `depth` is clear. */
  predicate IsMine(h: Hash, depth: nat) { Prefix(h, depth) % 2 == 0 }

  ghost predicate AllMine(slots: seq<Slot>, depth: nat) {
    forall j | 0 <= j < |slots| :: slots[j].Used? ==> IsMine(slots[j].entry.key.hash, depth)
  }

  ghost predicate NoneMine(m: multiset<Entry>, depth: nat) {
    forall e | e in m :: !IsMine(e.key.hash, depth)
  }

  /** The entries `m`, none of which belongs to the source, have gone from it to the destination. */
  ghost predicate Gone(src: multiset<Entry>, dst: multiset<Entry>, src': multiset<Entry>, dst': multiset<Entry>,
                       m: multiset<Entry>, depth: nat) {
    src' + m == src && dst' == dst + m && NoneMine(m, depth)
  }

  lemma GoneOne(src: multiset<Entry>, dst: multiset<Entry>, src': multiset<Entry>, dst': multiset<Entry>,
                src'': multiset<Entry>, dst'': multiset<Entry>, m: multiset<Entry>, e: Entry, depth: nat)
    requires Gone(src, dst, src', dst', m, depth) && !IsMine(e.key.hash, depth)
    requires src'' + multiset{e} == src' && dst'' == dst' + multiset{e}
    ensures Gone(src, dst, src'', dst'', m + multiset{e}, depth)
  {
    assert src'' + (m + multiset{e}) == (src'' + multiset{e}) + m;
    assert dst + (m + multiset{e}) == (dst + m) + multiset{e};
  }

  /** Both segments are sound once the slots in `mask` of bucket `bid` are freed, and then `m` has
      gone from one to the other. */
  ghost predicate Halfway(src: multiset<Entry>, dst: multiset<Entry>, b: seq<Bucket>, d: seq<Bucket>,
                          n: nat, s: nat, n': nat, s': nat, bid: nat, mask: set<nat>, m: multiset<Entry>, depth: nat) {
    && Shape(b, n, s) && bid < |b| && Inv(Cleared(b, bid, mask), n, s) && Inv(d, n', s')
    && Gone(src, dst, Contents(Cleared(b, bid, mask)), Contents(d), m, depth)
  }

  lemma StepRegular(src: multiset<Entry>, dst: multiset<Entry>, b: seq<Bucket>, d: seq<Bucket>, d': seq<Bucket>,
                    n: nat, s: nat, n': nat, s': nat, bid: nat, mask: set<nat>, m: multiset<Entry>, depth: nat,
                    j: nat, r: Pos)
    requires Halfway(src, dst, b, d, n, s, n', s', bid, mask, m, depth) && bid < n && j < s && j !in mask
    requires b[bid].slots[j].Used? && !IsMine(b[bid].slots[j].entry.key.hash, depth)
    requires Inserted(d, d', n', s', b[bid].slots[j].entry, r)
    ensures Halfway(src, dst, b, d', n, s, n', s', bid, mask + {j}, m + multiset{b[bid].slots[j].entry}, depth)
  {
    var v, e := Cleared(b, bid, mask), b[bid].slots[j].entry;
    assert v[bid].slots[j] == b[bid].slots[j];
    DropRegular(v, n, s, bid, j);
    ClearedOne(b, bid, mask, j);
    GoneOne(src, dst, Contents(v), Contents(d), Contents(WithSlot(v, bid, j, Free)), Contents(d'), m, e, depth);
  }

  // ---- the entries that have to go, one after the other ---------------------------------

  /** Which entries of a segment have to go: those of the upper half, or all. */
  datatype Part = Upper(depth: nat) | All

  predicate Goes(w: Part, h: Hash) { w.All? || !IsMine(h, w.depth) }

  /** The entries that have to go from the first `j` slots, in order. */
  ghost function SlotsGoing(slots: seq<Slot>, w: Part, j: nat): seq<Entry>
    requires j <= |slots|
  {
    if j == 0 then [] else
      SlotsGoing(slots, w, j - 1)
      + if slots[j - 1].Used? && Goes(w, slots[j - 1].entry.key.hash) then [slots[j - 1].entry] else []
  }

  /** The entries that have to go from the first `i` buckets, in order. */
  ghost function Going(b: seq<Bucket>, w: Part, i: nat): seq<Entry>
    requires i <= |b|
  {
    if i == 0 then [] else Going(b, w, i - 1) + SlotsGoing(b[i - 1].slots, w, |b[i - 1].slots|)
  }

  lemma {:induction false} SlotsGoingPrefix(slots: seq<Slot>, w: Part, i: nat, j: nat)
    requires i <= j <= |slots|
    ensures SlotsGoing(slots, w, i) <= SlotsGoing(slots, w, j)
  {
    if i < j {
      SlotsGoingPrefix(slots, w, i, j - 1);
    }
  }

  lemma {:induction false} GoingPrefix(b: seq<Bucket>, w: Part, i: nat, j: nat)
    requires i <= j <= |b|
    ensures Going(b, w, i) <= Going(b, w, j)
  {
    if i < j {
      GoingPrefix(b, w, i, j - 1);
    }
  }

  /** InsertUniq, which fills the home bucket first, has put the entry into the segment. */
  ghost predicate Placed(d: seq<Bucket>, d': seq<Bucket>, n: nat, s: nat, e: Entry) {
    Shape(d, n, s) && exists r: Pos ::
      Inserted(d, d', n, s, e, r) && Foretold(d, d', n, e.key, false, r) && r.slot == SlotTaken(d, n, e.key, r.bid)
  }

  ghost function Front(es: seq<Entry>): seq<Entry>
    requires es != []
  {
    es[..|es| - 1]
  }

  ghost function Last(es: seq<Entry>): Entry
    requires es != []
  {
    es[|es| - 1]
  }

  /** Insertions of `es`, one after the other, lead from segment `d0` to segment `d`. */
  ghost predicate FillsTo(d0: seq<Bucket>, es: seq<Entry>, d: seq<Bucket>, n: nat, s: nat)
    decreases |es|
  {
    if es == [] then d == d0 else exists c :: FillsTo(d0, Front(es), c, n, s) && Placed(c, d, n, s, Last(es))
  }

  /** One of the entries finds no room in the segment that the ones before it have filled. */
  ghost predicate Overflows(d0: seq<Bucket>, es: seq<Entry>, n: nat, s: nat) {
    exists k: nat, d :: StuckAt(d0, es, k, d, n, s)
  }

  ghost predicate StuckAt(d0: seq<Bucket>, es: seq<Entry>, k: nat, d: seq<Bucket>, n: nat, s: nat) {
    k < |es| && FillsTo(d0, es[..k], d, n, s) && Shape(d, n, s) && NoRoom(d, n, es[k].key)
  }

  lemma OneMorePlaced(d0: seq<Bucket>, es: seq<Entry>, d: seq<Bucket>, d': seq<Bucket>, n: nat, s: nat, e: Entry)
    requires FillsTo(d0, es, d, n, s) && Placed(d, d', n, s, e)
    ensures FillsTo(d0, es + [e], d', n, s)
  {
    var all := es + [e];
    hide Placed;
    assert FillsTo(d0, Front(all), d, n, s) && Placed(d, d', n, s, Last(all)) by {
      assert Front(all) == es && Last(all) == e;
    }
  }

  lemma OneTooMany(d0: seq<Bucket>, es: seq<Entry>, d: seq<Bucket>, n: nat, s: nat, e: Entry, all: seq<Entry>)
    requires FillsTo(d0, es, d, n, s) && Shape(d, n, s) && NoRoom(d, n, e.key) && es + [e] <= all
    ensures Overflows(d0, all, n, s)
  {
    assert all[..|es|] == es && all[|es|] == e;
    assert StuckAt(d0, all, |es|, d, n, s);
  }

  lemma StillOverflows(d0: seq<Bucket>, es: seq<Entry>, n: nat, s: nat, all: seq<Entry>)
    requires Overflows(d0, es, n, s) && es <= all
    ensures Overflows(d0, all, n, s)
  {
    var k: nat, d :| StuckAt(d0, es, k, d, n, s);
    assert all[..k] == es[..k];
    assert StuckAt(d0, all, k, d, n, s);
  }

  /** Moves one entry of a regular bucket if it belongs to the other half; fails when the destination
      has no room for it. */
  method SplitSlot(seg: Segment, dest: Segment, bid: nat, j: nat, ghost mask: set<nat>, ghost src: multiset<Entry>,
                   ghost dst: multiset<Entry>, ghost m: multiset<Entry>, depth: nat,
                   ghost d0: seq<Bucket>, ghost es: seq<Entry>)
    returns (ok: bool, moved: bool, ghost m': multiset<Entry>)
    requires seg != dest && bid < seg.bucketNum && j < seg.slotNum && j !in mask && dest.Valid()
    requires Halfway(src, dst, seg.buckets, dest.buckets, seg.bucketNum, seg.slotNum, dest.bucketNum, dest.slotNum,
                     bid, mask, m, depth)
    requires FillsTo(d0, es, dest.buckets, dest.bucketNum, dest.slotNum)
    modifies dest`buckets
    ensures ok ==> Halfway(src, dst, seg.buckets, dest.buckets, seg.bucketNum, seg.slotNum,
                           dest.bucketNum, dest.slotNum, bid, if moved then mask + {j} else mask, m', depth)
    ensures moved <==> seg.buckets[bid].slots[j].Used? && !IsMine(seg.buckets[bid].slots[j].entry.key.hash, depth)
    ensures ok ==> FillsTo(d0, es + if moved then [seg.buckets[bid].slots[j].entry] else [],
                           dest.buckets, dest.bucketNum, dest.slotNum)
    ensures !ok ==> moved && FillsTo(d0, es, dest.buckets, dest.bucketNum, dest.slotNum) && dest.Valid()
                    && NoRoom(dest.buckets, dest.bucketNum, seg.buckets[bid].slots[j].entry.key)
  {
    hide FillsTo;
    var c := seg.buckets[bid].slots[j];
    ok, moved, m' := true, c.Used? && !IsMine(c.entry.key.hash, depth), m;
    if moved {
      ghost var d := dest.buckets;
      var r := dest.InsertUniq(c.entry, false);
      ok := r.At?;
      if ok {
        StepRegular(src, dst, seg.buckets, d, dest.buckets, seg.bucketNum, seg.slotNum, dest.bucketNum, dest.slotNum,
                    bid, mask, m, depth, j, r);
        OneMorePlaced(d0, es, d, dest.buckets, dest.bucketNum, dest.slotNum, c.entry);
        m' := m + multiset{c.entry};
      }
    } else {
      assert es + [] == es;
    }
  }

  /** Moves the entries of regular bucket `bid` that belong to the other half. */
  method SplitBucket(seg: Segment, dest: Segment, bid: nat, ghost src: multiset<Entry>, ghost dst: multiset<Entry>,
                     ghost m: multiset<Entry>, depth: nat, ghost d0: seq<Bucket>, ghost es: seq<Entry>)
    returns (ok: bool, ghost m': multiset<Entry>)
    requires seg != dest && seg.Valid() && dest.Valid() && bid < seg.bucketNum
    requires FillsTo(d0, es, dest.buckets, dest.bucketNum, dest.slotNum)
    requires Gone(src, dst, Contents(seg.buckets), Contents(dest.buckets), m, depth)
    modifies seg`buckets, dest`buckets
    ensures ok ==> Halfway(src, dst, seg.buckets, dest.buckets, seg.bucketNum, seg.slotNum,
                           dest.bucketNum, dest.slotNum, bid, {}, m', depth)
    ensures var all := es + SlotsGoing(old(seg.buckets)[bid].slots, Upper(depth), seg.slotNum);
            if ok then FillsTo(d0, all, dest.buckets, dest.bucketNum, dest.slotNum)
            else Overflows(d0, all, dest.bucketNum, dest.slotNum)
    ensures ok ==> AllMine(seg.buckets[bid].slots, depth)
    ensures ok ==> |seg.buckets| == |old(seg.buckets)|
                   && forall i | 0 <= i < |seg.buckets| :: i != bid ==> seg.buckets[i] == old(seg.buckets)[i]
  {
    hide Gone, Contents, Overflows, NoRoom, FillsTo;
    var mask: set<nat> := {};
    ok, m' := true, m;
    ClearedNone(seg.buckets, bid);
    ghost var slots, w := seg.buckets[bid].slots, Upper(depth);
    NoSlotYet(es, slots, w);
    var j := 0;
    while j < seg.slotNum
      invariant j <= seg.slotNum && seg.buckets == old(seg.buckets) && (forall x | x in mask :: x < j)
      invariant Halfway(src, dst, seg.buckets, dest.buckets, seg.bucketNum, seg.slotNum, dest.bucketNum, dest.slotNum,
                        bid, mask, m', depth)
      invariant AllMine(ClearSlots(seg.buckets[bid].slots, mask)[..j], depth)
      invariant FillsTo(d0, es + SlotsGoing(slots, w, j), dest.buckets, dest.bucketNum, dest.slotNum)
    {
      var moved;
      ghost var now := es + SlotsGoing(slots, w, j);
      ok, moved, m' := SplitSlot(seg, dest, bid, j, mask, src, dst, m', depth, d0, now);
      OneSlotFurther(es, slots, w, j);
      if !ok {
        OneTooMany(d0, now, dest.buckets, dest.bucketNum, dest.slotNum, slots[j].entry,
                   es + SlotsGoing(slots, w, seg.slotNum));
        return;
      }
      MineOrFreed(seg.buckets[bid].slots, mask, j, moved, depth);
      if moved {
        mask := mask + {j};
      }
      j := j + 1;
    }
    ClearedNone(Cleared(seg.buckets, bid, mask), bid);
    seg.buckets := Cleared(seg.buckets, bid, mask);
    assert seg.buckets[bid].slots[..j] == seg.buckets[bid].slots;
  }

  lemma OneSlotFurther(es: seq<Entry>, slots: seq<Slot>, w: Part, j: nat)
    requires j < |slots|
    ensures var now := es + SlotsGoing(slots, w, j);
            var next := now + if slots[j].Used? && Goes(w, slots[j].entry.key.hash) then [slots[j].entry] else [];
            es + SlotsGoing(slots, w, j + 1) == next <= es + SlotsGoing(slots, w, |slots|)
  {
    SlotsGoingPrefix(slots, w, j + 1, |slots|);
  }

  lemma NoSlotYet(es: seq<Entry>, slots: seq<Slot>, w: Part)
    ensures es + SlotsGoing(slots, w, 0) == es
  {
  }

  // ---- the stash ------------------------------------------------------------------------

  ghost predicate MineUpTo(b: seq<Bucket>, k: nat, depth: nat) {
    k <= |b| && forall i | 0 <= i < k :: AllMine(b[i].slots, depth)
  }

  lemma StepStash(src: multiset<Entry>, dst: multiset<Entry>, b: seq<Bucket>, d: seq<Bucket>, d': seq<Bucket>,
                  n: nat, s: nat, n': nat, s': nat, pos: nat, mask: set<nat>, m: multiset<Entry>, depth: nat,
                  j: nat, r: Pos)
    requires Halfway(src, dst, b, d, n, s, n', s', n + pos, mask, m, depth) && j < s && j !in mask
    requires b[n + pos].slots[j].Used? && !IsMine(b[n + pos].slots[j].entry.key.hash, depth)
    requires Inserted(d, d', n', s', b[n + pos].slots[j].entry, r)
    ensures var e := b[n + pos].slots[j].entry;
            var c := WithoutPtr(b, Home(e.key.hash, n), n, pos, Fp(e.key.hash));
            Halfway(src, dst, c, d', n, s, n', s', n + pos, mask + {j}, m + multiset{e}, depth) && SameSlots(b, c)
  {
    hide IndexOk, Contents, AllPlaced;
    var v, e := Cleared(b, n + pos, mask), b[n + pos].slots[j].entry;
    var c := WithoutPtr(b, Home(e.key.hash, n), n, pos, Fp(e.key.hash));
    assert v[n + pos].slots[j] == b[n + pos].slots[j];
    DropStash(v, n, s, pos, j);
    WithoutPtrFrame(b, n, s, pos, Home(e.key.hash, n), Fp(e.key.hash));
    ForgetCommutes(b, n, s, pos, mask, Home(e.key.hash, n), Fp(e.key.hash));
    ClearedOne(c, n + pos, mask, j);
    GoneOne(src, dst, Contents(v), Contents(d), Contents(TakeStash(v, n, s, pos, j)), Contents(d'), m, e, depth);
  }

  lemma ForgetCommutes(b: seq<Bucket>, n: nat, s: nat, pos: nat, mask: set<nat>, h: nat, fp: nat)
    requires Shape(b, n, s) && pos < STASH_NUM && h < n && |WithoutPtr(b, h, n, pos, fp)| == |b|
    ensures Cleared(WithoutPtr(b, h, n, pos, fp), n + pos, mask) == WithoutPtr(Cleared(b, n + pos, mask), h, n, pos, fp)
  {
  }

  /** Handles one stash slot: an entry of the other half leaves, one of this half goes back to a
      regular bucket if there is room. */
  method SplitStashSlot(seg: Segment, dest: Segment, pos: nat, j: nat, ghost mask: set<nat>, ghost src: multiset<Entry>,
                        ghost dst: multiset<Entry>, ghost m: multiset<Entry>, depth: nat,
                        ghost d0: seq<Bucket>, ghost es: seq<Entry>)
    returns (ok: bool, freed: bool, ghost m': multiset<Entry>)
    requires seg != dest && pos < STASH_NUM && j < seg.slotNum && j !in mask && dest.Valid()
    requires Halfway(src, dst, seg.buckets, dest.buckets, seg.bucketNum, seg.slotNum, dest.bucketNum, dest.slotNum,
                     seg.bucketNum + pos, mask, m, depth)
    requires MineUpTo(seg.buckets, seg.bucketNum + pos, depth)
    requires FillsTo(d0, es, dest.buckets, dest.bucketNum, dest.slotNum)
    modifies seg`buckets, dest`buckets
    ensures ok ==> Halfway(src, dst, seg.buckets, dest.buckets, seg.bucketNum, seg.slotNum,
                           dest.bucketNum, dest.slotNum, seg.bucketNum + pos, if freed then mask + {j} else mask,
                           m', depth)
    ensures ok ==> MineUpTo(seg.buckets, seg.bucketNum + pos, depth)
    ensures ok ==> SameStash(old(seg.buckets), seg.buckets, seg.bucketNum)
    ensures var c := old(seg.buckets)[seg.bucketNum + pos].slots[j];
            var leaves := c.Used? && Goes(Upper(depth), c.entry.key.hash);
            if ok then FillsTo(d0, es + if leaves then [c.entry] else [], dest.buckets, dest.bucketNum, dest.slotNum)
            else leaves && FillsTo(d0, es, dest.buckets, dest.bucketNum, dest.slotNum) && dest.Valid()
                 && NoRoom(dest.buckets, dest.bucketNum, c.entry.key)
    ensures ok && !freed && seg.buckets[seg.bucketNum + pos].slots[j].Used? ==>
              IsMine(seg.buckets[seg.bucketNum + pos].slots[j].entry.key.hash, depth)
  {
    hide Gone, Contents, NoRoom, Foretold, Inserted, IndexOk, AllPlaced, UnsetStashPtr, FillsTo;
    var c := seg.buckets[seg.bucketNum + pos].slots[j];
    ok, freed, m' := true, false, m;
    assert es + [] == es;
    if c.Free? {
      return;
    }
    if IsMine(c.entry.key.hash, depth) {
      var r := seg.TryMoveFromStash(pos, j, mask);
      freed := r.At?;
      return;
    }
    ghost var d := dest.buckets;
    var r := dest.InsertUniq(c.entry, false);
    if r.NoPos? {
      return false, true, m;
    }
    OneMorePlaced(d0, es, d, dest.buckets, dest.bucketNum, dest.slotNum, c.entry);
    StepStash(src, dst, seg.buckets, d, dest.buckets, seg.bucketNum, seg.slotNum, dest.bucketNum, dest.slotNum,
              pos, mask, m, depth, j, r);
    var home, fp := Home(c.entry.key.hash, seg.bucketNum), Fp(c.entry.key.hash);
    seg.buckets := WithoutPtr(seg.buckets, home, seg.bucketNum, pos, fp);
    freed, m' := true, m + multiset{c.entry};
  }

  method SplitStash(seg: Segment, dest: Segment, pos: nat, ghost src: multiset<Entry>, ghost dst: multiset<Entry>,
                    ghost m: multiset<Entry>, depth: nat, ghost d0: seq<Bucket>, ghost es: seq<Entry>)
    returns (ok: bool, ghost m': multiset<Entry>)
    requires seg != dest && seg.Valid() && dest.Valid() && pos < STASH_NUM
    requires FillsTo(d0, es, dest.buckets, dest.bucketNum, dest.slotNum)
    requires Gone(src, dst, Contents(seg.buckets), Contents(dest.buckets), m, depth)
    requires MineUpTo(seg.buckets, seg.bucketNum + pos, depth)
    modifies seg`buckets, dest`buckets
    ensures ok ==> Halfway(src, dst, seg.buckets, dest.buckets, seg.bucketNum, seg.slotNum,
                           dest.bucketNum, dest.slotNum, seg.bucketNum + pos, {}, m', depth)
    ensures var all := es + SlotsGoing(old(seg.buckets)[seg.bucketNum + pos].slots, Upper(depth), seg.slotNum);
            if ok then FillsTo(d0, all, dest.buckets, dest.bucketNum, dest.slotNum)
            else Overflows(d0, all, dest.bucketNum, dest.slotNum)
    ensures ok ==> MineUpTo(seg.buckets, seg.bucketNum + pos + 1, depth)
    ensures ok ==> |seg.buckets| == |old(seg.buckets)|
                   && forall i | seg.bucketNum + pos < i < |seg.buckets| ::
                        seg.buckets[i].slots == old(seg.buckets)[i].slots
  {
    hide Gone, Contents, Overflows, NoRoom, FillsTo;
    var bid := seg.bucketNum + pos;
    var mask: set<nat> := {};
    ok, m' := true, m;
    ClearedNone(seg.buckets, bid);
    ghost var slots, w := seg.buckets[bid].slots, Upper(depth);
    NoSlotYet(es, slots, w);
    var j := 0;
    while j < seg.slotNum
      invariant j <= seg.slotNum && (forall x | x in mask :: x < j)
      invariant Halfway(src, dst, seg.buckets, dest.buckets, seg.bucketNum, seg.slotNum, dest.bucketNum, dest.slotNum,
                        bid, mask, m', depth)
      invariant MineUpTo(seg.buckets, bid, depth) && AllMine(ClearSlots(seg.buckets[bid].slots, mask)[..j], depth)
      invariant SameStash(old(seg.buckets), seg.buckets, seg.bucketNum)
      invariant FillsTo(d0, es + SlotsGoing(slots, w, j), dest.buckets, dest.bucketNum, dest.slotNum)
    {
      var freed;
      ghost var now := es + SlotsGoing(slots, w, j);
      ok, freed, m' := SplitStashSlot(seg, dest, pos, j, mask, src, dst, m', depth, d0, now);
      OneSlotFurther(es, slots, w, j);
      if !ok {
        OneTooMany(d0, now, dest.buckets, dest.bucketNum, dest.slotNum, slots[j].entry,
                   es + SlotsGoing(slots, w, seg.slotNum));
        return;
      }
      MineOrFreed(seg.buckets[bid].slots, mask, j, freed, depth);
      if freed {
        mask := mask + {j};
      }
      j := j + 1;
    }
    ClearedNone(Cleared(seg.buckets, bid, mask), bid);
    seg.buckets := Cleared(seg.buckets, bid, mask);
    assert seg.buckets[bid].slots[..j] == seg.buckets[bid].slots;
  }

  /** The stash holds what it held. */
  ghost predicate SameStash(b: seq<Bucket>, c: seq<Bucket>, n: nat) {
    |c| == |b| && forall i | n <= i < |b| :: c[i].slots == b[i].slots
  }

  lemma MineOrFreed(slots: seq<Slot>, mask: set<nat>, j: nat, freed: bool, depth: nat)
    requires j < |slots| && (forall x | x in mask :: x < j) && AllMine(ClearSlots(slots, mask)[..j], depth)
    requires !freed && slots[j].Used? ==> IsMine(slots[j].entry.key.hash, depth)
    ensures AllMine(ClearSlots(slots, if freed then mask + {j} else mask)[..j + 1], depth)
  {
    var now, next := ClearSlots(slots, mask), ClearSlots(slots, if freed then mask + {j} else mask);
    var upto := next[..j + 1];
    forall x | 0 <= x < |upto| ensures upto[x].Used? ==> IsMine(upto[x].entry.key.hash, depth) {
      if x < j {
        assert upto[x] == now[..j][x];
      }
    }
  }

  // ---- the whole split ------------------------------------------------------------------

  /** The source keeps exactly its entries of one half and the destination gains exactly the rest. */
  ghost predicate Parted(src: multiset<Entry>, dst: multiset<Entry>, src': multiset<Entry>, dst': multiset<Entry>,
                         depth: nat)
  {
    forall e: Entry ::
      && src'[e] == (if IsMine(e.key.hash, depth) then src[e] else 0)
      && dst'[e] == dst[e] + (if IsMine(e.key.hash, depth) then 0 else src[e])
  }

  lemma PartedAtEnd(b: seq<Bucket>, src: multiset<Entry>, dst: multiset<Entry>, dst': multiset<Entry>,
                    m: multiset<Entry>, depth: nat)
    requires Gone(src, dst, Contents(b), dst', m, depth) && MineUpTo(b, |b|, depth)
    ensures Parted(src, dst, Contents(b), dst', depth)
  {
    hide Contents;
    var src' := Contents(b);
    forall e: Entry
      ensures src'[e] == (if IsMine(e.key.hash, depth) then src[e] else 0)
      ensures dst'[e] == dst[e] + (if IsMine(e.key.hash, depth) then 0 else src[e])
    {
      assert src[e] == src'[e] + m[e];
      if IsMine(e.key.hash, depth) {
        assert e !in m;
      } else {
        ContentsMember(b, e);
      }
    }
  }

  lemma AllFreed(src: multiset<Entry>, dst: multiset<Entry>, b: seq<Bucket>, d: seq<Bucket>, n: nat, s: nat,
                 n': nat, s': nat, bid: nat, m: multiset<Entry>, depth: nat)
    requires Halfway(src, dst, b, d, n, s, n', s', bid, {}, m, depth)
    ensures Inv(b, n, s) && Inv(d, n', s') && Gone(src, dst, Contents(b), Contents(d), m, depth)
  {
    hide Inv, Gone, Contents, Cleared;
    ClearedNone(b, bid);
  }

  lemma OneMoreMine(b: seq<Bucket>, c: seq<Bucket>, i: nat, depth: nat)
    requires MineUpTo(b, i, depth) && i < |b| == |c| && AllMine(c[i].slots, depth)
    requires forall x | 0 <= x < |b| && x != i :: c[x] == b[x]
    ensures MineUpTo(c, i + 1, depth)
  {
    hide AllMine;
  }

  lemma LengthOk(b: seq<Bucket>, n: nat, s: nat)
    requires Inv(b, n, s)
    ensures |b| == n + STASH_NUM && forall i | 0 <= i < |b| :: |b[i].slots| == s
  {
    hide IndexOk, AllPlaced;
  }

  lemma NoneYet(b: seq<Bucket>, depth: nat)
    ensures MineUpTo(b, 0, depth)
  {
  }

  /** The stash buckets of a segment `b` whose regular buckets have been split. */
  method SplitStashes(seg: Segment, dest: Segment, ghost src: multiset<Entry>, ghost dst: multiset<Entry>,
                      ghost m: multiset<Entry>, ghost b: seq<Bucket>, ghost d0: seq<Bucket>)
    returns (ok: bool, ghost m': multiset<Entry>)
    requires seg != dest && seg.Valid() && dest.Valid() && |seg.buckets| == |b| == seg.bucketNum + STASH_NUM
    requires forall x | 0 <= x < |b| :: |b[x].slots| == seg.slotNum
    requires Gone(src, dst, Contents(seg.buckets), Contents(dest.buckets), m, seg.localDepth)
    requires MineUpTo(seg.buckets, seg.bucketNum, seg.localDepth)
    requires forall x | seg.bucketNum <= x < |b| :: seg.buckets[x].slots == b[x].slots
    requires FillsTo(d0, Going(b, Upper(seg.localDepth), seg.bucketNum), dest.buckets, dest.bucketNum, dest.slotNum)
    modifies seg`buckets, dest`buckets
    ensures ok ==> seg.Valid() && dest.Valid() && MineUpTo(seg.buckets, |seg.buckets|, seg.localDepth)
    ensures ok ==> Gone(src, dst, Contents(seg.buckets), Contents(dest.buckets), m', seg.localDepth)
    ensures var all := Going(b, Upper(seg.localDepth), |b|);
            if ok then FillsTo(d0, all, dest.buckets, dest.bucketNum, dest.slotNum)
            else Overflows(d0, all, dest.bucketNum, dest.slotNum)
  {
    hide Inv, Gone, Contents, MineUpTo, AllMine, Overflows, FillsTo, SlotsGoing, Halfway, Shape;
    ghost var w := Upper(seg.localDepth);
    ok, m' := true, m;
    var i := 0;
    while i < STASH_NUM
      invariant i <= STASH_NUM && seg.Valid() && dest.Valid() && ok
      invariant Gone(src, dst, Contents(seg.buckets), Contents(dest.buckets), m', seg.localDepth)
      invariant MineUpTo(seg.buckets, seg.bucketNum + i, seg.localDepth) && |seg.buckets| == |b|
      invariant forall x | seg.bucketNum + i <= x < |b| :: seg.buckets[x].slots == b[x].slots
      invariant FillsTo(d0, Going(b, w, seg.bucketNum + i), dest.buckets, dest.bucketNum, dest.slotNum)
    {
      ok, m' := SplitStash(seg, dest, i, src, dst, m', seg.localDepth, d0, Going(b, w, seg.bucketNum + i));
      if !ok {
        GoingPrefix(b, w, seg.bucketNum + i + 1, |b|);
        StillOverflows(d0, Going(b, w, seg.bucketNum + i + 1), dest.bucketNum, dest.slotNum, Going(b, w, |b|));
        return;
      }
      AllFreed(src, dst, seg.buckets, dest.buckets, seg.bucketNum, seg.slotNum, dest.bucketNum, dest.slotNum,
               seg.bucketNum + i, m', seg.localDepth);
      i := i + 1;
    }
  }

  /** Segment::Split. The entries of the upper half are inserted into the destination one after the other, in the
      order of their slots. The result is false when one of them finds no room there, which the source rules out by
      assertion; otherwise both segments are sound and share the entries by the bit the new local depth adds. */
  method Split(seg: Segment, dest: Segment) returns (ok: bool)
    requires seg != dest && seg.Valid() && dest.Valid()
    modifies seg, dest`buckets, dest`localDepth
    ensures seg.localDepth == old(seg.localDepth) + 1 == dest.localDepth
    ensures ok ==> seg.Valid() && dest.Valid()
    ensures ok ==> Parted(old(Contents(seg.buckets)), old(Contents(dest.buckets)),
                          Contents(seg.buckets), Contents(dest.buckets), seg.localDepth)
    ensures var all := Going(old(seg.buckets), Upper(seg.localDepth), |old(seg.buckets)|);
            if ok then FillsTo(old(dest.buckets), all, dest.buckets, dest.bucketNum, dest.slotNum)
            else Overflows(old(dest.buckets), all, dest.bucketNum, dest.slotNum)
  {
    hide Inv, Gone, Contents, MineUpTo, AllMine, Overflows, FillsTo, SlotsGoing, Halfway, Shape;
    ghost var b, d0, w := seg.buckets, dest.buckets, Upper(seg.localDepth + 1);
    NothingPlaced(d0, dest.bucketNum, dest.slotNum);
    LengthOk(b, seg.bucketNum, seg.slotNum);
    NoneYet(b, seg.localDepth + 1);
    seg.localDepth := seg.localDepth + 1;
    dest.localDepth := seg.localDepth;
    ghost var src, dst := Contents(seg.buckets), Contents(dest.buckets);
    ghost var m: multiset<Entry> := multiset{};
    ok := true;
    GoneNone(src, dst, seg.localDepth);
    var i := 0;
    while i < seg.bucketNum
      invariant i <= seg.bucketNum && seg.Valid() && dest.Valid()
      invariant seg.localDepth == old(seg.localDepth) + 1 == dest.localDepth
      invariant Gone(src, dst, Contents(seg.buckets), Contents(dest.buckets), m, seg.localDepth)
      invariant MineUpTo(seg.buckets, i, seg.localDepth) && |seg.buckets| == |b|
      invariant forall x | i <= x < |b| :: seg.buckets[x].slots == b[x].slots
      invariant FillsTo(d0, Going(b, w, i), dest.buckets, dest.bucketNum, dest.slotNum)
    {
      ghost var bs := seg.buckets;
      ok, m := SplitBucket(seg, dest, i, src, dst, m, seg.localDepth, d0, Going(b, w, i));
      if !ok {
        GoingPrefix(b, w, i + 1, |b|);
        StillOverflows(d0, Going(b, w, i + 1), dest.bucketNum, dest.slotNum, Going(b, w, |b|));
        return;
      }
      AllFreed(src, dst, seg.buckets, dest.buckets, seg.bucketNum, seg.slotNum, dest.bucketNum, dest.slotNum,
               i, m, seg.localDepth);
      OneMoreMine(bs, seg.buckets, i, seg.localDepth);
      i := i + 1;
    }
    ok, m := SplitStashes(seg, dest, src, dst, m, b, d0);
    if ok {
      PartedAtEnd(seg.buckets, src, dst, Contents(dest.buckets), m, seg.localDepth);
    }
  }

  // ---- when a split cannot fail ---------------------------------------------------------

  lemma {:induction false} SizeIsContents(b: seq<Bucket>, i: nat)
    requires i <= |b|
    ensures |Contents(b[i..])| == SizeFrom(b, i)
    decreases |b| - i
  {
    if i < |b| {
      assert b[i..][1..] == b[i + 1..];
      SizeIsContents(b, i + 1);
      SizeIsEntries(b[i].slots);
    }
  }

  lemma FullStashCount(b: seq<Bucket>, n: nat, s: nat)
    requires Shape(b, n, s) && StashFull(b, n)
    ensures SizeFrom(b, n) == STASH_NUM * s
  {
    hide FindEmptySlot;
    assert forall i | n <= i < |b| :: Size(b[i].slots) == s;
    assert SizeFrom(b, n + 4) == 0;
    assert SizeFrom(b, n + 2) == 2 * s;
  }

  lemma {:induction false} TwoFullCount(b: seq<Bucket>, n: nat, s: nat, x: nat, y: nat, i: nat)
    requires Shape(b, n, s) && x < n && y < n && x != y && IsFull(b[x]) && IsFull(b[y]) && i <= n
    ensures SizeFrom(b, i) >= SizeFrom(b, n) + (if i <= x then s else 0) + (if i <= y then s else 0)
    decreases n - i
  {
    hide FindEmptySlot, Size;
    if i < n {
      TwoFullCount(b, n, s, x, y, i + 1);
      assert i == x || i == y ==> Size(b[i].slots) == s;
    }
  }

  /** A segment that has no room for an entry, and with it stores no more than `total`. */
  lemma FullIsLarge(d: seq<Bucket>, n: nat, s: nat, e: Entry, total: multiset<Entry>)
    requires Shape(d, n, s) && NoRoom(d, n, e.key) && Contents(d) + multiset{e} <= total
    ensures |total| > (STASH_NUM + 2) * s
  {
    hide Contents, IsFull, Moves, SizeFrom;
    var h := Home(e.key.hash, n);
    TwoFullCount(d, n, s, h, NextBid(h, n), 0);
    FullStashCount(d, n, s);
    SizeIsContents(d, 0);
    assert d[0..] == d;
    SmallerBag(Contents(d) + multiset{e}, total);
  }

  lemma NothingPlaced(d0: seq<Bucket>, n: nat, s: nat)
    ensures FillsTo(d0, [], d0, n, s)
  {
  }

  lemma PlacedContents(d: seq<Bucket>, d': seq<Bucket>, n: nat, s: nat, e: Entry)
    requires Placed(d, d', n, s, e)
    ensures Contents(d') == Contents(d) + multiset{e}
  {
    hide Contents, Foretold, SlotTaken, Inv;
  }

  /** The segment holds what it held and the entries inserted. */
  lemma {:induction false} FilledContents(d0: seq<Bucket>, es: seq<Entry>, d: seq<Bucket>, n: nat, s: nat)
    requires FillsTo(d0, es, d, n, s)
    ensures Contents(d) == Contents(d0) + multiset(es)
    decreases |es|
  {
    hide Contents, Placed;
    if es == [] {
      assert Contents(d0) + multiset([]) == Contents(d0);
    } else {
      var c :| FillsTo(d0, Front(es), c, n, s) && Placed(c, d, n, s, Last(es));
      FilledContents(d0, Front(es), c, n, s);
      PlacedContents(c, d, n, s, Last(es));
      assert es == Front(es) + [Last(es)];
    }
  }

  /** An overflow takes more entries than the stash and two regular buckets have slots for. */
  lemma OverflowIsLarge(d0: seq<Bucket>, es: seq<Entry>, n: nat, s: nat)
    requires Overflows(d0, es, n, s)
    ensures |Contents(d0)| + |es| > (STASH_NUM + 2) * s
  {
    hide Contents, NoRoom, FillsTo;
    var k: nat, d :| StuckAt(d0, es, k, d, n, s);
    FilledContents(d0, es[..k], d, n, s);
    FullIsLarge(d, n, s, es[k], Contents(d) + multiset{es[k]});
  }

  /** Nothing goes that is not there. */
  lemma {:induction false} GoingIsThere(b: seq<Bucket>, w: Part, i: nat)
    requires i <= |b|
    ensures multiset(Going(b, w, i)) <= Contents(b[..i])
  {
    hide Contents, SlotsGoing;
    if i > 0 {
      GoingIsThere(b, w, i - 1);
      SlotsAreThere(b[i - 1].slots, w, |b[i - 1].slots|);
      var slots := b[i - 1].slots;
      assert slots[..|slots|] == slots;
      assert b[..i] == b[..i - 1] + [b[i - 1]];
      ContentsAppend(b[..i - 1], b[i - 1]);
      var (was, now) := (Going(b, w, i - 1), SlotsGoing(slots, w, |slots|));
      BothSmaller(multiset(was), Contents(b[..i - 1]), multiset(now), EntriesOf(slots));
      assert multiset(was + now) == multiset(was) + multiset(now);
    }
  }

  lemma {:induction false} SlotsAreThere(slots: seq<Slot>, w: Part, j: nat)
    requires j <= |slots|
    ensures multiset(SlotsGoing(slots, w, j)) <= EntriesOf(slots[..j])
  {
    hide EntriesOf, Goes;
    if j > 0 {
      SlotsAreThere(slots, w, j - 1);
      var (x, was) := (slots[j - 1], SlotsGoing(slots, w, j - 1));
      assert slots[..j] == slots[..j - 1] + [x];
      EntriesAppend(slots[..j - 1], x);
      var now := if x.Used? && Goes(w, x.entry.key.hash) then [x.entry] else [];
      assert SlotsGoing(slots, w, j) == was + now;
      hide SlotsGoing;
      assert multiset(now) <= OneEntry(x);
      BothSmaller(multiset(was), EntriesOf(slots[..j - 1]), multiset(now), OneEntry(x));
      assert multiset(was + now) == multiset(was) + multiset(now);
    }
  }

  lemma BothSmaller<T>(a: multiset<T>, b: multiset<T>, x: multiset<T>, y: multiset<T>)
    requires a <= b && x <= y
    ensures a + x <= b + y
  {
  }

  lemma {:induction false} EntriesAppend(slots: seq<Slot>, x: Slot)
    ensures EntriesOf(slots + [x]) == EntriesOf(slots) + OneEntry(x)
  {
    if slots == [] {
      assert [x][1..] == [];
    } else {
      assert (slots + [x])[1..] == slots[1..] + [x];
      EntriesAppend(slots[1..], x);
    }
  }

  lemma {:induction false} ContentsAppend(b: seq<Bucket>, x: Bucket)
    ensures Contents(b + [x]) == Contents(b) + EntriesOf(x.slots)
  {
    if b == [] {
      assert [x][1..] == [];
    } else {
      assert (b + [x])[1..] == b[1..] + [x];
      ContentsAppend(b[1..], x);
    }
  }

  lemma PartsAreSmaller(src: multiset<Entry>, low: multiset<Entry>, high: multiset<Entry>, depth: nat)
    requires Parted(src, multiset{}, low, high, depth)
    ensures low <= src && high <= src
  {
  }

  lemma SmallerBag<T>(a: multiset<T>, b: multiset<T>)
    requires a <= b
    ensures |a| <= |b|
  {
    assert b == a + (b - a);
  }

  lemma GoneNone(src: multiset<Entry>, dst: multiset<Entry>, depth: nat)
    ensures Gone(src, dst, src, dst, multiset{}, depth)
  {
    assert src + multiset{} == src && dst + multiset{} == dst;
  }
}
