/** The dash table: a directory of segments indexed by the high bits of the hash. */
module DashTable {
  import opened Arith
  import opened Keys
  import opened DashBucket
  import opened DashState
  import opened DashSegment
  import opened DashDirectory
  import opened DashView
  import DashSplit

  function Prefix(h: Hash, g: nat): nat { DashSplit.Prefix(h, g) }

  function Deepest(a: nat, b: nat): nat { if a < b then b else a }

  ghost function Members(d: seq<Segment>): set<Segment> { set s | s in d }

  datatype InsertResult =
    | Added(pos: Pos)
    | Duplicate(pos: Pos)
    | NoGrowth              // the policy forbids a deeper segment
    | NoRoom                // a split could not place an entry, which the source excludes by assertion

  class Table {
    const bucketNum: nat
    const slotNum: nat
    const initialDepth: nat
    var globalDepth: nat
    var dir: seq<Segment>
    var uniqueSegments: nat

    ghost function TheView(): View<Segment>
      reads this, dir
    {
      View(globalDepth, dir,
           seq(|dir|, i requires 0 <= i < |dir| reads this, dir => dir[i].localDepth),
           seq(|dir|, i requires 0 <= i < |dir| reads this, dir => Contents(dir[i].buckets)))
    }

    ghost predicate Valid()
      reads this, dir
    {
      && bucketNum >= 2 && slotNum >= 1
      && ViewOk(TheView())
      && (forall i | 0 <= i < |dir| :: SegmentOk(dir[i]))
      && uniqueSegments == |Members(dir)|
    }

    ghost predicate SegmentOk(s: Segment)
      reads s
    {
      s.Valid() && s.bucketNum == bucketNum && s.slotNum == slotNum && s.localDepth >= initialDepth
    }

    /** The entries of a segment whose bit number `depth` is set, inserted one after the other into a new segment, do
        not all find room there. */
    ghost predicate Overfull(b: seq<Bucket>, depth: nat) {
      DashSplit.Overflows(NewBuckets(bucketNum, slotNum), DashSplit.Going(b, DashSplit.Upper(depth), |b|),
                          bucketNum, slotNum)
    }

    /** The entries whose hashes begin with the same `depth` bits as the key's make up this segment, and it has no
        room for the key. */
    ghost predicate PackedAt(v: View<Segment>, k: Key, depth: nat, b: seq<Bucket>) {
      && Inv(b, bucketNum, slotNum) && DashSegment.NoRoom(b, bucketNum, k)
      && forall x: Entry ::
           Contents(b)[x] == if Prefix(x.key.hash, depth) == Prefix(k.hash, depth) then Count(v, x) else 0
    }

    ghost predicate Packed(v: View<Segment>, k: Key, depth: nat) {
      exists b :: PackedAt(v, k, depth, b)
    }

    /** Nor does its upper half fit into a segment of its own. */
    ghost predicate JammedAt(v: View<Segment>, k: Key, depth: nat, b: seq<Bucket>) {
      PackedAt(v, k, depth, b) && Overfull(b, depth + 1)
    }

    /** This is so for some depth below the limit. */
    ghost predicate Jammed(v: View<Segment>, k: Key, limit: nat) {
      exists depth: nat, b | depth < limit :: JammedAt(v, k, depth, b)
    }

    constructor (bucketNum: nat, slotNum: nat, capacityLog: nat)
      requires bucketNum >= 2 && slotNum >= 1 && capacityLog <= 64
      ensures Valid() && globalDepth == initialDepth == capacityLog
      ensures forall e: Entry :: Count(TheView(), e) == 0
      ensures fresh(dir)
    {
      hide Contents, IndexOk, AllPlaced, Pow2;
      this.bucketNum, this.slotNum, initialDepth := bucketNum, slotNum, capacityLog;
      globalDepth, uniqueSegments := capacityLog, Pow2(capacityLog);
      dir := [];
      new;
      while |dir| < Pow2(capacityLog)
        invariant |dir| <= Pow2(capacityLog) && globalDepth == capacityLog && uniqueSegments == Pow2(capacityLog)
        invariant forall i | 0 <= i < |dir| ::
                    && fresh(dir[i]) && SegmentOk(dir[i]) && dir[i].localDepth == capacityLog
                    && Contents(dir[i].buckets) == multiset{}
        invariant forall i, j | 0 <= i < j < |dir| :: dir[i] != dir[j]
      {
        var s := new Segment(bucketNum, slotNum, capacityLog);
        dir := dir + [s];
      }
      AfterCollapse();
    }

    /** DashTable::Find: one segment decides, because the key cannot be anywhere else. */
    method Find(k: Key) returns (slot: nat, r: Pos)
      requires Valid()
      ensures slot == Prefix(k.hash, globalDepth) < |dir| && (r.At? ==> KeyAt(dir[slot].buckets, r, k))
      ensures r.At? <==> HasKey(TheView(), k)
    {
      hide Inv, Stores, Contents, DashSplit.Prefix;
      HashBound(k.hash, globalDepth);
      slot := Prefix(k.hash, globalDepth);
      r := dir[slot].FindIt(k);
      StoredIsCounted(TheView(), dir[slot].buckets, k);
    }

    /** DashTable::IncreaseDepth: grows the directory in place, from its end. */
    method IncreaseDepth(newDepth: nat)
      requires Valid() && globalDepth < newDepth <= 64
      modifies this`dir, this`globalDepth
      ensures Valid() && globalDepth == newDepth
      ensures SameCounts(old(TheView()), TheView()) && Grew(old(TheView()), TheView())
      ensures Replicated(old(dir), dir, old(globalDepth), newDepth - old(globalDepth))
      ensures forall i | 0 <= i < |dir| :: dir[i] in old(dir)
    {
      hide Shl, Shr, Pow2, ViewOk, Replicated, Inv, Contents;
      Pow2Mono(globalDepth, newDepth);
      DirLength(TheView());
      var k, prev := newDepth - globalDepth, dir;
      dir := prev + Copies(prev[0], Pow2(newDepth) - |prev|);
      FillStart(prev, dir, globalDepth, k);
      var i: nat := |prev|;
      while i > 0
        modifies this`dir
        invariant FilledFrom(prev, dir, globalDepth, k, i)
      {
        i := i - 1;
        FillBounds(globalDepth, k, i);
        var offs := Shl(i, k);
        ghost var now := dir;
        dir := dir[..offs] + Copies(dir[i], Pow2(k)) + dir[offs + Pow2(k)..];
        FillRound(prev, now, globalDepth, k, i, dir);
      }
      globalDepth := newDepth;
      AllReplicated(prev, dir, old(globalDepth), k);
      Deepened(old(TheView()), old(globalDepth), k);
    }

    /** The table is sound after the fill, and every segment is still named. */
    lemma Deepened(v: View<Segment>, g: nat, k: nat)
      requires ViewOk(v) && v.g == g && globalDepth == g + k <= 64 && Replicated(v.ids, dir, g, k)
      requires forall i | 0 <= i < |v.ids| :: v.ds[i] == v.ids[i].localDepth && v.cs[i] == Contents(v.ids[i].buckets)
      requires forall i | 0 <= i < |v.ids| :: SegmentOk(v.ids[i])
      requires bucketNum >= 2 && slotNum >= 1 && uniqueSegments == |Members(v.ids)|
      ensures Valid() && SameCounts(v, TheView()) && Grew(v, TheView())
      ensures forall i | 0 <= i < |dir| :: dir[i] in v.ids
    {
      hide Shr, Pow2, Contents, SameChunk;
      GrewDeeper(v, TheView(), k);
      GrowView(v, TheView(), k);
      SameMembers(v.ids, dir, g, k);
    }

    /** Makes the directory slots [from, to) name the segment. */
    method PointTo(from: nat, to: nat, segment: Segment)
      requires from <= to <= |dir|
      modifies this`dir
      ensures |dir| == |old(dir)|
      ensures forall j | 0 <= j < |dir| :: dir[j] == if from <= j < to then segment else old(dir)[j]
    {
      var i := from;
      while i < to
        invariant from <= i <= to && |dir| == |old(dir)|
        invariant forall j | 0 <= j < |dir| :: dir[j] == if from <= j < i then segment else old(dir)[j]
      {
        dir := dir[i := segment];
        i := i + 1;
      }
    }

    /** DashTable::Split: halves the chunk of a segment that is shallower than the directory. */
    method Split(segId: nat) returns (ok: bool)
      requires Valid() && segId < |dir| && dir[segId].localDepth < globalDepth
      modifies this`dir, this`uniqueSegments, dir[segId]
      ensures ok ==> Valid() && SameCounts(old(TheView()), TheView()) && Grew(old(TheView()), TheView())
      ensures ok ==> |dir| == |old(dir)| && dir[segId].localDepth == old(dir[segId].localDepth) + 1
      ensures ok ==> forall i | 0 <= i < |dir| :: dir[i] in old(dir) || fresh(dir[i])
      ensures ok ==> uniqueSegments == old(uniqueSegments) + 1
      ensures ok ==> Contents(dir[segId].buckets) <= old(Contents(dir[segId].buckets))
      ensures !ok ==> Overfull(old(dir[segId].buckets), old(dir[segId].localDepth) + 1)
    {
      hide Shl, Shr, Pow2, ViewOk, SameCounts, Contents, Grew, Inv, ChunkStart, DashSplit.Overflows, DashSplit.FillsTo;
      ghost var v := TheView();
      var source := dir[segId];
      var k := globalDepth - source.localDepth;
      ChunkBounds(v, segId);
      var start, end := ChunkStart(segId, k), ChunkStart(segId, k) + Pow2(k);
      var targetId := start + Pow2(k - 1);
      var target := new Segment(bucketNum, slotNum, source.localDepth + 1);
      ok := DashSplit.Split(source, target);
      if !ok {
        return;
      }
      DashSplit.PartsAreSmaller(v.cs[segId], Contents(source.buckets), Contents(target.buckets), source.localDepth);
      PointTo(targetId, end, target);
      uniqueSegments := uniqueSegments + 1;
      AfterSplit(v, segId, target);
    }

    lemma AfterSplit(v: View<Segment>, s: nat, target: Segment)
      requires ViewOk(v) && s < |v.ids| && v.ds[s] < v.g == globalDepth && target !in v.ids
      requires var k := v.g - v.ds[s];
               var (lo, hi) := (ChunkStart(s, k) + Pow2(k - 1), ChunkStart(s, k) + Pow2(k));
               |dir| == |v.ids| && forall j | 0 <= j < |dir| :: dir[j] == if lo <= j < hi then target else v.ids[j]
      requires forall j | 0 <= j < |v.ids| :: SegmentOk(v.ids[j])
      requires forall j | 0 <= j < |v.ids| && v.ids[j] != v.ids[s] ::
                 v.ids[j].localDepth == v.ds[j] && Contents(v.ids[j].buckets) == v.cs[j]
      requires SegmentOk(target) && target.localDepth == v.ds[s] + 1 == v.ids[s].localDepth
      requires DashSplit.Parted(v.cs[s], multiset{}, Contents(v.ids[s].buckets), Contents(target.buckets), v.ds[s] + 1)
      requires bucketNum >= 2 && slotNum >= 1 && uniqueSegments == |Members(v.ids)| + 1
      ensures Valid() && SameCounts(v, TheView()) && Grew(v, TheView())
      ensures dir[s].localDepth == v.ds[s] + 1
    {
      hide Shl, Shr, Pow2, ChunkStart, Contents, DashSplit.Parted, SameCounts, Inv, InSlot, SameChunk;
      var w := TheView();
      SlotsAfterSplit(v, s, target);
      assert SplitView(v, w, s, target, Contents(v.ids[s].buckets), Contents(target.buckets));
      hide SplitView, ViewOk, Grew;
      SplitGrew(v, w, s, target, Contents(v.ids[s].buckets), Contents(target.buckets));
      SplitKeeps(v, w, s, target, Contents(v.ids[s].buckets), Contents(target.buckets));
      BothHalves(v, s, target, dir);
    }

    lemma SlotsAfterSplit(v: View<Segment>, s: nat, target: Segment)
      requires ViewOk(v) && s < |v.ids| && v.ds[s] < v.g
      requires var k := v.g - v.ds[s];
               var (lo, hi) := (ChunkStart(s, k) + Pow2(k - 1), ChunkStart(s, k) + Pow2(k));
               |dir| == |v.ids| && forall j | 0 <= j < |dir| :: dir[j] == if lo <= j < hi then target else v.ids[j]
      ensures var k := v.g - v.ds[s];
              forall j | 0 <= j < |v.ids| ::
                && (v.ids[j] == v.ids[s] <==> SameChunk(s, j, k))
                && dir[j] == if SameChunk(s, j, k) && Shr(j, k - 1) % 2 == 1 then target else v.ids[j]
    {
      hide Shl, Shr, Pow2, ChunkStart, InSlot, SameChunk;
      forall j | 0 <= j < |v.ids|
        ensures v.ids[j] == v.ids[s] <==> SameChunk(s, j, v.g - v.ds[s])
        ensures dir[j] ==
                if SameChunk(s, j, v.g - v.ds[s]) && Shr(j, v.g - v.ds[s] - 1) % 2 == 1 then target else v.ids[j]
      {
        assert v.ids[s] == v.ids[j] <==> SameChunk(s, j, v.g - v.ds[s]);
        UpperHalf(s, j, v.g - v.ds[s]);
      }
    }

    /** Only the segment the hash of `e` selects has changed, and it now holds `now`. */
    lemma OneSegmentChanged(v: View<Segment>, e: Entry, now: multiset<Entry>)
      requires ViewOk(v) && v.g == globalDepth && v.ids == dir
      requires var p := Prefix(e.key.hash, v.g);
               && p < |v.ids| && Contents(dir[p].buckets) == now
               && (forall x | x in now :: x == e || x in v.cs[p])
               && forall j | 0 <= j < |v.ids| :: v.ids[j].localDepth == v.ds[j] && SegmentOk(v.ids[j])
                                                 && (v.ids[j] != v.ids[p] ==> Contents(v.ids[j].buckets) == v.cs[j])
      requires bucketNum >= 2 && slotNum >= 1 && uniqueSegments == |Members(v.ids)|
      ensures Valid()
      ensures var (p, w) := (Prefix(e.key.hash, v.g), TheView());
              && w.ds == v.ds
              && Count(w, e) == now[e]
              && forall x: Entry | x != e && now[x] == v.cs[p][x] :: Count(w, x) == Count(v, x)
    {
      hide Contents, DirOk, InSlot, Inv, DashSplit.Prefix;
      ViewLengths(v);
      ChangeKeeps(v, TheView(), e, now);
    }

    /** The segment the key's hash selects has no room for it. */
    ghost predicate Full(k: Key)
      reads this, dir
    {
      var p := Prefix(k.hash, globalDepth);
      p < |dir| && Shape(dir[p].buckets, bucketNum, slotNum) && DashSegment.NoRoom(dir[p].buckets, bucketNum, k)
    }

    /** The segment of the key has become deeper one level at a time, only where it was packed, and the directory
        with it only as far as it had to. */
    ghost predicate DeepenedFor(v: View<Segment>, w: View<Segment>, more: int, k: Key) {
      var (p, q) := (Prefix(k.hash, v.g), Prefix(k.hash, w.g));
      && p < |v.ds| && q < |w.ds|
      && v.ds[p] + more == w.ds[q] >= v.ds[p] && w.g == Deepest(v.g, w.ds[q])
      && forall d | v.ds[p] <= d < w.ds[q] :: Packed(v, k, d)
    }

    lemma NotDeepened(k: Key)
      requires Valid()
      ensures SameCounts(TheView(), TheView()) && Grew(TheView(), TheView())
      ensures Prefix(k.hash, globalDepth) < |dir| && DeepenedFor(TheView(), TheView(), 0, k)
    {
      hide DashSplit.Prefix, InSlot, Packed, Contents;
      var v := TheView();
      Unchanged(v);
      DirLength(v);
      HashBound(k.hash, globalDepth);
      ShallowerThanDir(v, Prefix(k.hash, v.g));
    }

    /** One level more, where the segment was packed. */
    lemma OneDeeper(v: View<Segment>, w: View<Segment>, x: View<Segment>, more: int, k: Key, b: seq<Bucket>)
      requires DeepenedFor(v, w, more, k) && Prefix(k.hash, x.g) < |x.ds|
      requires PackedAt(v, k, w.ds[Prefix(k.hash, w.g)], b)
      requires x.ds[Prefix(k.hash, x.g)] == w.ds[Prefix(k.hash, w.g)] + 1
      requires x.g == Deepest(w.g, x.ds[Prefix(k.hash, x.g)])
      ensures DeepenedFor(v, x, more + 1, k)
    {
      hide DashSplit.Prefix, PackedAt;
    }

    /** One attempt to insert: an existing key is reported with its place, a full segment is left as it is. */
    method TryInsert(e: Entry) returns (r: InsertResult)
      requires Valid()
      modifies dir
      ensures Valid()
      ensures r.Added? ==> Plus(old(TheView()), TheView(), e)
      ensures !r.Added? ==> unchanged(dir)
      ensures r.Duplicate? <==> old(HasKey(TheView(), e.key))
      ensures Prefix(e.key.hash, globalDepth) < |dir|
      ensures r.Added? ==> EntryAt(dir[Prefix(e.key.hash, globalDepth)].buckets, r.pos, e)
      ensures r.Duplicate? ==> KeyAt(dir[Prefix(e.key.hash, globalDepth)].buckets, r.pos, e.key)
      ensures r.Added? || r.Duplicate? || r.NoGrowth?
      ensures r.NoGrowth? ==> Full(e.key)
      ensures forall i | 0 <= i < |dir| :: dir[i].localDepth == old(dir[i].localDepth)
    {
      hide Contents, IndexOk, AllPlaced, DashSplit.Prefix, ViewOk, Stores, DashSegment.NoRoom, Foretold;
      ghost var v := TheView();
      var slot, pos := Find(e.key);
      if pos.At? {
        return Duplicate(pos);
      }
      var target := dir[slot];
      pos := target.InsertUniq(e, true);
      if pos.NoPos? {
        return NoGrowth;
      }
      OneSegmentChanged(v, e, Contents(target.buckets));
      PlusOne(v, TheView(), e);
      r := Added(pos);
    }

    /** The growth step of an insertion: the segment of the key becomes one level deeper. */
    method MakeRoom(k: Key, limit: nat) returns (r: Growth)
      requires Valid() && limit <= 64 && Prefix(k.hash, globalDepth) < |dir|
      modifies this, dir[Prefix(k.hash, globalDepth)]
      ensures !r.Failed? ==> Valid() && SameCounts(old(TheView()), TheView()) && Prefix(k.hash, globalDepth) < |dir|
      ensures !r.Failed? ==> Grew(old(TheView()), TheView())
      ensures r.Refused? ==> unchanged(this) && unchanged(dir[Prefix(k.hash, globalDepth)])
      ensures r.Deeper? ==>
                dir[Prefix(k.hash, globalDepth)].localDepth
                == old(dir[Prefix(k.hash, globalDepth)].localDepth) + 1 <= 64
      ensures !r.Failed? ==> forall i | 0 <= i < |dir| :: dir[i] in old(dir) || fresh(dir[i])
      ensures r.Refused? <==> old(dir[Prefix(k.hash, globalDepth)].localDepth) >= limit
      ensures r.Deeper? ==>
                Contents(dir[Prefix(k.hash, globalDepth)].buckets)
                <= old(Contents(dir[Prefix(k.hash, globalDepth)].buckets))
      ensures r.Deeper? ==> uniqueSegments == old(uniqueSegments) + 1
                            && globalDepth == Deepest(old(globalDepth), dir[Prefix(k.hash, globalDepth)].localDepth)
      ensures r.Failed? ==> Overfull(old(dir[Prefix(k.hash, globalDepth)].buckets),
                                     old(dir[Prefix(k.hash, globalDepth)].localDepth) + 1)
    {
      hide ViewOk, Contents, Inv, DashSplit.Prefix, Shr, Replicated, Grew, HasKey, SameCounts, Overfull;
      ghost var v := TheView();
      var target := dir[Prefix(k.hash, globalDepth)];
      if target.localDepth >= limit {
        Unchanged(v);
        return Refused;
      }
      if target.localDepth == globalDepth {
        ghost var was, g := dir, globalDepth;
        IncreaseDepth(globalDepth + 1);
        SlotFollows(was, dir, g, k);
      } else {
        Unchanged(v);
      }
      ShallowerThanDir(TheView(), Prefix(k.hash, globalDepth));
      ghost var w := TheView();
      var ok := Split(Prefix(k.hash, globalDepth));
      if !ok {
        return Failed;
      }
      SameTwice(v, w, TheView());
      GrewTwice(v, w, TheView());
      r := Deeper;
    }

    /** MakeRoom for an entry that found its segment full, since the table stood for `v`. */
    method GrowFor(k: Key, limit: nat, ghost v: View<Segment>, ghost unique: nat) returns (r: Growth)
      requires Valid() && limit <= 64 && Full(k) && Prefix(k.hash, globalDepth) < |dir|
      requires SameCounts(v, TheView()) && Grew(v, TheView())
      requires DeepenedFor(v, TheView(), uniqueSegments - unique, k)
      modifies this, dir[Prefix(k.hash, globalDepth)]
      ensures r.Refused? ==> unchanged(this) && unchanged(dir[Prefix(k.hash, globalDepth)])
      ensures r.Refused? <==> old(dir[Prefix(k.hash, globalDepth)].localDepth) >= limit
      ensures !r.Failed? ==> Valid() && SameCounts(v, TheView()) && Grew(v, TheView())
      ensures !r.Failed? ==> DeepenedFor(v, TheView(), uniqueSegments - unique, k)
      ensures !r.Failed? ==> Prefix(k.hash, globalDepth) < |dir|
      ensures !r.Failed? ==> forall i | 0 <= i < |dir| :: dir[i] in old(dir) || fresh(dir[i])
      ensures r.Deeper? ==> old(dir[Prefix(k.hash, globalDepth)].localDepth)
                            < dir[Prefix(k.hash, globalDepth)].localDepth <= 64
      ensures r.Failed? ==> Jammed(v, k, limit)
    {
      hide ViewOk, Contents, Inv, DashSplit.Prefix, Grew, Full, Overfull, DeepenedFor, PackedAt, SameCounts;
      ghost var w, more := TheView(), uniqueSegments - unique;
      ghost var (b, depth) := (dir[Prefix(k.hash, globalDepth)].buckets, dir[Prefix(k.hash, globalDepth)].localDepth);
      FullIsPacked(v, k);
      r := MakeRoom(k, limit);
      if r.Failed? {
        assert JammedAt(v, k, depth, b);
      } else if r.Deeper? {
        GrewTwice(v, w, TheView());
        SameTwice(v, w, TheView());
        OneDeeper(v, w, TheView(), more, k, b);
      } else {
        assert TheView() == w;
      }
    }

    /** DashTable::InsertInternal for keys that may exist: splits the target segment, deepening the
        directory when needed, until the entry fits. The policy refuses segments deeper than `limit`. A split
        fails only if entries that agree in their first bits overfill a segment. */
    method Insert(e: Entry, limit: nat) returns (r: InsertResult)
      requires Valid() && limit <= 64
      modifies this, dir
      ensures !r.NoRoom? ==> Valid()
      ensures r.Duplicate? <==> old(HasKey(TheView(), e.key))
      ensures r.Added? ==> forall x: Entry :: Count(TheView(), x) == old(Count(TheView(), x)) + if x == e then 1 else 0
      ensures r.Duplicate? ==> TheView() == old(TheView())
      ensures r.NoGrowth? ==> SameCounts(old(TheView()), TheView())
      ensures r.Added? || r.Duplicate? ==> Prefix(e.key.hash, globalDepth) < |dir|
      ensures r.Added? ==> EntryAt(dir[Prefix(e.key.hash, globalDepth)].buckets, r.pos, e)
      ensures r.Duplicate? ==>
                var b := dir[Prefix(e.key.hash, globalDepth)].buckets;
                KeyAt(b, r.pos, e.key) && Count(old(TheView()), b[r.pos.bid].slots[r.pos.slot].entry) > 0
      ensures !r.NoRoom? ==> Grew(old(TheView()), TheView())
      ensures !r.NoRoom? ==> DeepenedFor(old(TheView()), TheView(), uniqueSegments - old(uniqueSegments), e.key)
      ensures !r.NoRoom? ==> forall i | 0 <= i < |dir| :: dir[i] in old(dir) || fresh(dir[i])
      ensures r.NoGrowth? ==> Full(e.key) && dir[Prefix(e.key.hash, globalDepth)].localDepth >= limit
      ensures r.NoRoom? ==> Jammed(old(TheView()), e.key, limit)
    {
      hide Valid, TheView, Contents, DashSplit.Prefix, Count, Grew, Full, DeepenedFor, Jammed, HasKey, SameCounts, Plus;
      ghost var v := TheView();
      NotDeepened(e.key);
      while true
        invariant Valid() && SameCounts(v, TheView()) && Grew(v, TheView())
        invariant DeepenedFor(v, TheView(), uniqueSegments - old(uniqueSegments), e.key)
        invariant Prefix(e.key.hash, globalDepth) < |dir|
        invariant forall i | 0 <= i < |dir| :: dir[i] in old(dir) || fresh(dir[i])
        invariant TheView() == v || !HasKey(v, e.key)
        decreases 64 - dir[Prefix(e.key.hash, globalDepth)].localDepth
      {
        ghost var w := TheView();
        SameKeys(v, w, e.key);
        r := TryInsert(e);
        if r.Added? {
          NowAdded(v, w, TheView(), e, uniqueSegments - old(uniqueSegments));
          return;
        }
        assert TheView() == w;
        if r.Duplicate? {
          StoredIsHere(Prefix(e.key.hash, globalDepth), r.pos);
          return;
        }
        var grown := GrowFor(e.key, limit, v, old(uniqueSegments));
        if grown.Failed? {
          return NoRoom;
        }
        if grown.Refused? {
          return NoGrowth;
        }
      }
    }

    lemma NowAdded(v: View<Segment>, w: View<Segment>, x: View<Segment>, e: Entry, more: int)
      requires SameCounts(v, w) && Grew(v, w) && DeepenedFor(v, w, more, e.key) && Plus(w, x, e)
      ensures Grew(v, x) && DeepenedFor(v, x, more, e.key)
      ensures forall y: Entry :: Count(x, y) == Count(v, y) + if y == e then 1 else 0
    {
      hide Count, DashSplit.Prefix, Packed;
      SameDepths(v, w, x);
    }

    /** What a position of the table points to is counted. */
    lemma StoredIsHere(slot: nat, pos: Pos)
      requires Valid() && slot < |dir| && pos.At? && pos.bid < |dir[slot].buckets|
      requires pos.slot < |dir[slot].buckets[pos.bid].slots| && dir[slot].buckets[pos.bid].slots[pos.slot].Used?
      ensures Count(TheView(), dir[slot].buckets[pos.bid].slots[pos.slot].entry) > 0
    {
      hide Contents, IndexOk, AllPlaced, DirOk, InSlot, Count;
      var e := dir[slot].buckets[pos.bid].slots[pos.slot].entry;
      ContentsMember(dir[slot].buckets, e);
      assert e in TheView().cs[slot];
      CountedAnywhere(TheView(), slot, e);
    }

    /** The segment of a key holds exactly the entries that agree with it in as many bits as the segment is deep. */
    lemma KeySegment(v: View<Segment>, k: Key)
      requires Valid() && SameCounts(v, TheView())
      ensures var p := Prefix(k.hash, globalDepth);
              && p < |dir| && Inv(dir[p].buckets, bucketNum, slotNum)
              && forall x: Entry ::
                   Contents(dir[p].buckets)[x]
                   == if Prefix(x.key.hash, dir[p].localDepth) == Prefix(k.hash, dir[p].localDepth)
                      then Count(v, x) else 0
    {
      hide Contents, Inv, DirOk, InSlot, DashSplit.Prefix, Count, Shr;
      var (w, p) := (TheView(), Prefix(k.hash, globalDepth));
      HashBound(k.hash, globalDepth);
      DirLength(w);
      ShallowerThanDir(w, p);
      DashView.PrefixShr(k.hash, globalDepth, dir[p].localDepth);
      forall x: Entry
        ensures Contents(dir[p].buckets)[x]
                == if Prefix(x.key.hash, dir[p].localDepth) == Prefix(k.hash, dir[p].localDepth)
                   then Count(v, x) else 0
      {
        SegmentHolds(w, p, x);
      }
    }

    lemma FullIsPacked(v: View<Segment>, k: Key)
      requires Valid() && SameCounts(v, TheView()) && Full(k)
      ensures Prefix(k.hash, globalDepth) < |dir|
      ensures var s := dir[Prefix(k.hash, globalDepth)]; PackedAt(v, k, s.localDepth, s.buckets)
    {
      hide Contents, Inv, ViewOk, DashSplit.Prefix, Count, SameCounts, DashSegment.NoRoom;
      KeySegment(v, k);
    }

    /** DashTable::Erase: removes one entry with the key, if there is one. */
    method Erase(k: Key) returns (n: nat, ghost gone: Entry)
      requires Valid()
      modifies dir
      ensures Valid()
      ensures n == 0 <==> old(!HasKey(TheView(), k))
      ensures n == 0 ==> TheView() == old(TheView())
      ensures n != 0 ==> n == 1 && gone.key == k && Plus(TheView(), old(TheView()), gone)
    {
      hide Contents, IndexOk, AllPlaced, DashSplit.Prefix, ViewOk, Stores;
      ghost var v := TheView();
      gone := Entry(k, "");
      var slot, pos := Find(k);
      if pos.NoPos? {
        return 0, gone;
      }
      var target := dir[slot];
      gone := target.buckets[pos.bid].slots[pos.slot].entry;
      target.Delete(pos.bid, pos.slot);
      OneSegmentChanged(v, gone, Contents(target.buckets));
      MinusOne(v, TheView(), gone, Contents(target.buckets));
      n := 1;
    }

    /** DashTable::BumpUp: the segment reorders its slots; the table holds what it held. */
    method BumpUp(segId: nat, bid: nat, slot: nat, canBump: Key -> bool, staleBump: bool) returns (r: Pos)
      requires Valid() && segId < |dir| && bid < |dir[segId].buckets| && slot < slotNum
      requires dir[segId].buckets[bid].slots[slot].Used?
      modifies dir[segId]
      ensures Valid() && TheView() == old(TheView())
      ensures Bumped(old(dir[segId].buckets), dir[segId].buckets, bucketNum, slotNum, bid, slot,
                     old(MayRise(dir[segId].buckets, bucketNum, slotNum, bid, slot, canBump, staleBump)), r)
    {
      hide Contents, IndexOk, AllPlaced, ViewOk, Traded, MayRise;
      ghost var v := TheView();
      r := dir[segId].BumpUp(bid, slot, canBump, staleBump);
      Reordered(v, segId);
    }

    /** The step of InsertInternal that frees stash slots. */
    method UnloadStash(segId: nat) returns (moved: nat)
      requires Valid() && segId < |dir|
      modifies dir[segId]
      ensures Valid() && TheView() == old(TheView())
      ensures StashSize(dir[segId].buckets, bucketNum) + moved == old(StashSize(dir[segId].buckets, bucketNum))
      ensures StuckBelow(dir[segId].buckets, bucketNum, STASH_NUM)
    {
      hide Contents, Inv, ViewOk, StashSize, StuckBelow;
      ghost var v := TheView();
      moved := dir[segId].UnloadStash();
      Reordered(v, segId);
    }

    lemma Reordered(v: View<Segment>, s: nat)
      requires ViewOk(v) && v.g == globalDepth && v.ids == dir && s < |dir|
      requires forall j | 0 <= j < |dir| ::
                 && SegmentOk(dir[j]) && dir[j].localDepth == v.ds[j]
                 && (dir[j] != dir[s] ==> Contents(dir[j].buckets) == v.cs[j])
      requires Contents(dir[s].buckets) == v.cs[s]
      requires bucketNum >= 2 && slotNum >= 1 && uniqueSegments == |Members(v.ids)|
      ensures Valid() && TheView() == v
    {
      hide Contents, Inv, DirOk, InSlot;
      ViewLengths(v);
      forall j | 0 <= j < |dir| ensures Contents(dir[j].buckets) == v.cs[j] {
      }
      assert TheView().ds == v.ds && TheView().cs == v.cs;
    }

    /** DashTable::FindBuddyId: the slot that differs in the lowest bit the segment's depth uses, if the
        segment there has the same depth. */
    method FindBuddyId(segId: nat) returns (buddy: nat)
      requires Valid() && segId < |dir|
      ensures buddy != segId ==> Twins(TheView(), segId, buddy)
      ensures buddy == segId <==> dir[segId].localDepth <= 1 || !exists y: nat :: Twins(TheView(), segId, y)
    {
      hide Contents, Inv, Pow2, Shr, InSlot;
      var depth := dir[segId].localDepth;
      if depth <= 1 {
        return segId;
      }
      ghost var v := TheView();
      assert v.ds[segId] == depth;
      var k := globalDepth - depth;
      FlipBit(segId, k, globalDepth);
      buddy := if Shr(segId, k) % 2 == 0 then segId + Pow2(k) else segId - Pow2(k);
      if dir[buddy].localDepth != depth {
        NoTwin(v, segId, buddy, k);
        buddy := segId;
      }
    }

    /** Empties every segment, one representative per chunk. */
    method ClearSegments()
      requires Valid()
      modifies dir
      ensures Valid() && TheView().ds == old(TheView()).ds
      ensures forall i | 0 <= i < |dir| :: Contents(dir[i].buckets) == multiset{}
    {
      hide Contents, Inv, ViewOk, Pow2, ChunkStart;
      ghost var v := TheView();
      DirLength(v);
      FirstChunk(v);
      var i := 0;
      while i < |dir|
        invariant i <= |dir| && (i < |dir| ==> v.ds[i] <= globalDepth && ChunkStart(i, globalDepth - v.ds[i]) == i)
        invariant forall j | 0 <= j < |dir| :: SegmentOk(dir[j]) && dir[j].localDepth == v.ds[j]
        invariant forall j | 0 <= j < i :: Contents(dir[j].buckets) == multiset{}
      {
        NextChunk(v, i);
        var next := i + Pow2(globalDepth - dir[i].localDepth);
        dir[i].Clear();
        i := next;
      }
      EmptiedView(v, TheView());
    }

    /** DashTable::Clear: drops all entries and collapses the directory to its initial depth. There are
        always enough segments to fill it, because none is shallower than that. */
    method Clear()
      requires Valid()
      modifies this, dir
      ensures Valid() && globalDepth == initialDepth && uniqueSegments == |dir| == Pow2(initialDepth)
      ensures forall i | 0 <= i < |dir| :: dir[i] in old(dir) && dir[i].localDepth == initialDepth
      ensures forall e: Entry :: Count(TheView(), e) == 0
    {
      hide Contents, Inv, DirOk, Pow2, DashSplit.Prefix, InSlot;
      ClearSegments();
      DirLength(TheView());
      FirstChunk(TheView());
      if globalDepth > initialDepth {
        Collapse();
      } else {
        AllDistinct(TheView());
        assert forall i | 0 <= i < |dir| :: dir[i].localDepth == TheView().ds[i];
        DistinctCount(dir);
        NothingCounted(TheView());
      }
    }

    method Collapse()
      requires Valid() && globalDepth > initialDepth
      requires forall i | 0 <= i < |dir| :: Contents(dir[i].buckets) == multiset{}
      modifies this, dir
      ensures Valid() && globalDepth == initialDepth && uniqueSegments == |dir| == Pow2(initialDepth)
      ensures forall i | 0 <= i < |dir| :: dir[i] in old(dir) && dir[i].localDepth == initialDepth
      ensures forall e: Entry :: Count(TheView(), e) == 0
    {
      hide Contents, Inv, ViewOk, Pow2, Shl, ChunkStart, Count, SegmentOk;
      ghost var v := TheView();
      DirLength(v);
      var newSize := Pow2(initialDepth);
      var dest := KeepFirst(v, newSize);
      EnoughSegments(v.g, initialDepth, dest);
      globalDepth, uniqueSegments := initialDepth, newSize;
      dir := dir[..newSize];
      AfterCollapse();
    }

    /** The loop of the collapse. */
    method KeepFirst(ghost v: View<Segment>, newSize: nat) returns (dest: nat)
      requires v == TheView() && ViewOk(v) && AllEmpty(dir) && globalDepth > initialDepth
               && newSize == Pow2(initialDepth)
      modifies this`dir, dir
      ensures Collapsing(v, dest, |v.ids|, newSize) && AllEmpty(v.ids)
    {
      hide Contents, Inv, ViewOk, Pow2, Shl, ChunkStart, SegmentOk;
      FirstChunk(v);
      var src: nat := 0;
      dest := 0;
      while src < |dir|
        invariant Collapsing(v, dest, src, newSize) && AllEmpty(v.ids)
      {
        dest, src := CollapseStep(v, dest, src, newSize);
      }
    }

    lemma AfterCollapse()
      requires bucketNum >= 2 && slotNum >= 1 && globalDepth == initialDepth <= 64
      requires uniqueSegments == |dir| == Pow2(initialDepth)
      requires forall i, j | 0 <= i < j < |dir| :: dir[i] != dir[j]
      requires forall i | 0 <= i < |dir| ::
                 SegmentOk(dir[i]) && dir[i].localDepth == initialDepth && Contents(dir[i].buckets) == multiset{}
      ensures Valid() && forall e: Entry :: Count(TheView(), e) == 0
    {
      hide Contents, Inv, Pow2;
      EmptyDirectory(TheView());
      DistinctCount(dir);
    }

    /** Keeps the segment at slot `src` if one is still wanted, and goes on to the next chunk. */
    method CollapseStep(ghost v: View<Segment>, dest: nat, src: nat, newSize: nat) returns (dest': nat, src': nat)
      requires ViewOk(v) && Collapsing(v, dest, src, newSize) && src < |dir| && AllEmpty(v.ids)
      modifies this`dir, dir[src]
      ensures Collapsing(v, dest', src', newSize) && src' > src && AllEmpty(v.ids)
    {
      hide Contents, Inv, ViewOk, Pow2, Shl, ChunkStart;
      NextChunk(v, src);
      assert initialDepth <= v.ds[src] by {
        assert SegmentOk(v.ids[src]);
      }
      NextDest(v, dest, src, initialDepth);
      KeepNext(v.ids, dir, dest, src, src + Pow2(v.g - v.ds[src]));
      hide KeptInFront;
      var seg := dir[src];
      dest', src' := dest, src + Pow2(globalDepth - seg.localDepth);
      if dest < newSize {
        seg.localDepth := initialDepth;
        dir := dir[dest := seg];
        dest' := dest + 1;
      }
    }

    /** The collapse loop: `dest` segments have been kept, in front; the chunks from slot `src` on are
        untouched; and what lies before `src` is at most what `dest` chunks of initial depth span. */
    ghost predicate Collapsing(v: View<Segment>, dest: nat, src: nat, newSize: nat)
      reads this, v.ids
    {
      && |v.ids| == |v.ds| == |dir| && dest <= newSize && KeptInFront(v.ids, dir, dest, src)
      && globalDepth == v.g > initialDepth && newSize == Pow2(initialDepth)
      && (src < |dir| ==> v.ds[src] <= v.g && ChunkStart(src, v.g - v.ds[src]) == src)
      && (dest < newSize ==> src <= Shl(dest, v.g - initialDepth))
      && (forall x | src <= x < |v.ids| :: v.ids[x].localDepth == v.ds[x])
      && (forall a | 0 <= a < dest :: dir[a].localDepth == initialDepth)
    }

    ghost predicate AllEmpty(ids: seq<Segment>)
      reads ids
    {
      forall x | 0 <= x < |ids| :: SegmentOk(ids[x]) && Contents(ids[x].buckets) == multiset{}
    }

    /** DashTable::Merge of a segment with its buddy. Declined when it would go below the initial depth.
        When an entry of the buddy finds no room the source rolls back; only this is promised then. */
    method Merge(keepId: nat, buddyId: nat) returns (r: MergeResult)
      requires Valid() && keepId < buddyId && Twins(TheView(), keepId, buddyId) && dir[keepId].localDepth > 1
      modifies this`dir, this`uniqueSegments, dir[keepId], dir[buddyId]
      ensures r.Declined? <==> old(dir[keepId].localDepth) - 1 < initialDepth
      ensures r.Declined? ==> Valid() && TheView() == old(TheView())
      ensures r.Merged? ==> Valid() && SameCounts(old(TheView()), TheView())
      ensures r.Merged? ==> uniqueSegments == old(uniqueSegments) - 1
      ensures r.Merged? ==> MergeView(old(TheView()), TheView(), keepId, buddyId)
      ensures forall i | 0 <= i < |dir| :: dir[i] in old(dir)
      ensures r.RolledBack? ==> DashSplit.Overflows(old(dir[keepId].buckets), AllOf(old(dir[buddyId].buckets)),
                                                    bucketNum, slotNum)
    {
      hide Shl, Shr, Pow2, ViewOk, SameCounts, Contents, Inv, ChunkStart, MergeView, DashSplit.Overflows;
      ghost var v := TheView();
      var keep, buddy := dir[keepId], dir[buddyId];
      if keep.localDepth - 1 < initialDepth {
        return Declined;
      }
      TwinsApart(v, keepId, buddyId);
      assert uniqueSegments > 0 by {
        assert keep in Members(dir);
      }
      keep.localDepth := keep.localDepth - 1;
      var ok := Drain(buddy, keep);
      if !ok {
        return RolledBack;
      }
      var k := globalDepth - buddy.localDepth;
      var start := ChunkStart(buddyId, k);
      PointTo(start, start + Pow2(k), keep);
      uniqueSegments := uniqueSegments - 1;
      AfterMerge(v, keepId, buddyId);
      r := Merged;
    }

    lemma AfterMerge(v: View<Segment>, x: nat, y: nat)
      requires ViewOk(v) && Twins(v, x, y) && v.g == globalDepth && v.ds[x] > initialDepth
      requires var (lo, k) := (ChunkStart(y, v.g - v.ds[y]), v.g - v.ds[y]);
               && |dir| == |v.ids|
               && forall j | 0 <= j < |dir| :: dir[j] == if lo <= j < lo + Pow2(k) then v.ids[x] else v.ids[j]
      requires forall j | 0 <= j < |v.ids| && v.ids[j] != v.ids[x] && v.ids[j] != v.ids[y] ::
                 SegmentOk(v.ids[j]) && v.ids[j].localDepth == v.ds[j] && Contents(v.ids[j].buckets) == v.cs[j]
      requires SegmentOk(v.ids[x]) && v.ids[x].localDepth == v.ds[x] - 1
      requires Contents(v.ids[x].buckets) == v.cs[x] + v.cs[y]
      requires bucketNum >= 2 && slotNum >= 1 && uniqueSegments == |Members(v.ids)| - 1
      ensures Valid() && SameCounts(v, TheView()) && MergeView(v, TheView(), x, y)
    {
      hide Shl, Shr, Pow2, ChunkStart, Contents, SameCounts, Inv, InSlot;
      forall j | 0 <= j < |v.ids|
        ensures dir[j] == if SameChunk(x, j, v.g - v.ds[x] + 1) then v.ids[x] else v.ids[j]
        ensures SameChunk(x, j, v.g - v.ds[x] + 1) <==> v.ids[j] == v.ids[x] || v.ids[j] == v.ids[y]
      {
        ChunkIsInterval(v.ids, v.ds, v.g, y, j);
        InTwins(v.ids, v.ds, v.g, x, y, j);
      }
      assert MergeView(v, TheView(), x, y);
      MergeKeeps(v, TheView(), x, y);
      OneGone(v, x, y, dir);
    }
  }

  /** `dest` segments stand in front, all different, and none of them is met from slot `src` on. */
  ghost predicate KeptInFront<T>(ids: seq<T>, d: seq<T>, dest: nat, src: nat) {
    && |d| == |ids| && dest <= src <= |ids|
    && (forall x | src <= x < |ids| :: d[x] == ids[x])
    && (forall a | 0 <= a < dest :: d[a] in ids)
    && (forall a, x | 0 <= a < dest && src <= x < |ids| :: d[a] != ids[x])
    && (forall a, b | 0 <= a < b < dest :: d[a] != d[b])
  }

  lemma KeepNext<T>(ids: seq<T>, d: seq<T>, dest: nat, src: nat, src': nat)
    requires KeptInFront(ids, d, dest, src) && src < src' <= |ids|
    requires forall j | 0 <= j < |ids| :: ids[j] == ids[src] <==> src <= j < src'
    ensures d[src] == ids[src] && KeptInFront(ids, d, dest, src')
            && KeptInFront(ids, d[dest := ids[src]], dest + 1, src')
    ensures forall a | 0 <= a < dest :: d[a] != ids[src]
    ensures forall x | src' <= x < |ids| :: ids[x] != ids[src]
  {
  }

  lemma FirstChunk<T>(v: View<T>)
    requires ViewOk(v)
    ensures |v.ids| > 0 && |v.ids| == |v.ds| && v.ds[0] <= v.g && ChunkStart(0, v.g - v.ds[0]) == 0
  {
    ChunkIsInterval(v.ids, v.ds, v.g, 0, 0);
  }

  /** NextSeg from the start of a chunk: the chunk's slots, and the start of the next chunk. */
  lemma NextChunk<T>(v: View<T>, i: nat)
    requires ViewOk(v) && i < |v.ids| && ChunkStart(i, v.g - v.ds[i]) == i
    ensures var n := i + Pow2(v.g - v.ds[i]);
            && i < n <= |v.ids| == |v.ds| && v.ds[i] <= v.g
            && (forall j | 0 <= j < |v.ids| :: v.ids[j] == v.ids[i] <==> i <= j < n)
            && (n < |v.ids| ==> v.ds[n] <= v.g && ChunkStart(n, v.g - v.ds[n]) == n)
  {
    hide ChunkStart, Shr, Shl, InSlot;
    NextIsStart(v.ids, v.ds, v.g, i);
  }

  /** A chunk is no longer than one of initial depth. */
  lemma NextDest(v: View<Segment>, dest: nat, src: nat, init: nat)
    requires ViewOk(v) && src < |v.ids| && init <= v.ds[src]
    ensures v.ds[src] <= v.g && src <= Shl(dest, v.g - init) ==>
              src + Pow2(v.g - v.ds[src]) <= Shl(dest + 1, v.g - init)
  {
    ShlNext(dest, v.g - init);
    Pow2Mono(v.g - v.ds[src], v.g - init);
  }

  lemma EnoughSegments(g: nat, init: nat, dest: nat)
    requires init < g && dest <= Pow2(init)
    requires dest < Pow2(init) ==> Pow2(g) <= Shl(dest, g - init)
    ensures dest == Pow2(init)
  {
    ShlPow2(init, g - init);
    ShlMono(dest, Pow2(init), g - init);
  }

  lemma AllDistinct(v: View<Segment>)
    requires ViewOk(v) && forall i | 0 <= i < |v.ds| :: v.ds[i] >= v.g
    ensures forall i, j | 0 <= i < j < |v.ids| :: v.ids[i] != v.ids[j]
    ensures |v.ids| == |v.ds| && forall i | 0 <= i < |v.ds| :: v.ds[i] == v.g
  {
    hide InSlot;
    forall i, j | 0 <= i < j < |v.ids| ensures v.ids[i] != v.ids[j] {
      assert v.ids[i] == v.ids[j] <==> SameChunk(i, j, v.g - v.ds[i]);
    }
  }

  lemma NothingCounted(v: View<Segment>)
    requires forall j | 0 <= j < |v.cs| :: v.cs[j] == multiset{}
    ensures forall e: Entry :: Count(v, e) == 0
  {
  }

  lemma EmptiedView(v: View<Segment>, w: View<Segment>)
    requires ViewOk(v) && w.g == v.g && w.ids == v.ids && w.ds == v.ds && |w.cs| == |v.cs|
    requires forall j | 0 <= j < |w.cs| :: w.cs[j] == multiset{}
    ensures ViewOk(w)
  {
  }

  datatype MergeResult = Merged | Declined | RolledBack

  lemma TwinsApart(v: View<Segment>, x: nat, y: nat)
    requires ViewOk(v) && Twins(v, x, y)
    ensures v.ids[x] != v.ids[y]
    ensures var k := v.g - v.ds[y]; ChunkStart(y, k) + Pow2(k) <= |v.ids|
  {
    InTwins(v.ids, v.ds, v.g, x, y, x);
    ChunkIsInterval(v.ids, v.ds, v.g, y, y);
  }

  /** After the merge the directory names every segment but the buddy's. */
  lemma OneGone(v: View<Segment>, x: nat, y: nat, dir: seq<Segment>)
    requires ViewOk(v) && Twins(v, x, y) && |dir| == |v.ids|
    requires forall j | 0 <= j < |dir| :: dir[j] == if v.ids[j] == v.ids[y] then v.ids[x] else v.ids[j]
    ensures |Members(dir)| == |Members(v.ids)| - 1
  {
    TwinsApart(v, x, y);
    hide ViewOk, Twins, ChunkStart;
    forall j | 0 <= j < |v.ids| && v.ids[j] != v.ids[y] ensures v.ids[j] in dir {
      assert dir[j] == v.ids[j];
    }
    assert v.ids[y] in v.ids && v.ids[y] !in dir;
    assert Members(v.ids) == Members(dir) + {v.ids[y]};
  }

  /** Moves one entry of `buddy` into `keep`, if there is room. */
  method DrainSlot(buddy: Segment, keep: Segment, i: nat, j: nat, ghost total: multiset<Entry>,
                   ghost d0: seq<Bucket>, ghost es: seq<Entry>) returns (ok: bool)
    requires buddy != keep && keep.Valid() && i < |buddy.buckets| && j < |buddy.buckets[i].slots|
    requires buddy.buckets[i].slots[j].Used? && Contents(keep.buckets) + Contents(buddy.buckets) == total
    requires DashSplit.FillsTo(d0, es, keep.buckets, keep.bucketNum, keep.slotNum)
    modifies buddy`buckets, keep`buckets
    ensures keep.Valid()
    ensures ok ==> Contents(keep.buckets) + Contents(buddy.buckets) == total
    ensures ok ==> buddy.buckets == WithSlot(old(buddy.buckets), i, j, Free)
    ensures ok ==> DashSplit.FillsTo(d0, es + [old(buddy.buckets)[i].slots[j].entry], keep.buckets,
                                     keep.bucketNum, keep.slotNum)
    ensures !ok ==> DashSplit.FillsTo(d0, es, keep.buckets, keep.bucketNum, keep.slotNum)
                    && DashSegment.NoRoom(keep.buckets, keep.bucketNum, old(buddy.buckets)[i].slots[j].entry.key)
  {
    hide IndexOk, AllPlaced, Contents, DashSegment.NoRoom, Foretold, DashSplit.FillsTo;
    var e := buddy.buckets[i].slots[j].entry;
    ghost var was := keep.buckets;
    var r := keep.InsertUniq(e, false);
    ok := r.At?;
    if ok {
      DashSplit.OneMorePlaced(d0, es, was, keep.buckets, keep.bucketNum, keep.slotNum, e);
      ContentsDrop(buddy.buckets, i, j);
      DrainStep(Contents(buddy.buckets), Contents(WithSlot(buddy.buckets, i, j, Free)), Contents(keep.buckets), e,
                total);
      buddy.buckets := WithSlot(buddy.buckets, i, j, Free);
    }
  }

  /** The slots from `j` on are as they were, and the others are free. */
  ghost predicate FreedBelow(b: seq<Bucket>, c: seq<Bucket>, i: nat, j: nat) {
    && |c| == |b| && i < |b| && |c[i].slots| == |b[i].slots| && j <= |b[i].slots|
    && (forall x | 0 <= x < |b[i].slots| :: c[i].slots[x] == if x < j then Free else b[i].slots[x])
    && (forall x | 0 <= x < |b| && x != i :: c[x] == b[x])
  }

  method DrainBucket(buddy: Segment, keep: Segment, i: nat, ghost total: multiset<Entry>,
                     ghost d0: seq<Bucket>, ghost es: seq<Entry>) returns (ok: bool)
    requires buddy != keep && keep.Valid() && i < |buddy.buckets|
    requires Contents(keep.buckets) + Contents(buddy.buckets) == total
    requires DashSplit.FillsTo(d0, es, keep.buckets, keep.bucketNum, keep.slotNum)
    modifies buddy`buckets, keep`buckets
    ensures keep.Valid()
    ensures ok ==> Contents(keep.buckets) + Contents(buddy.buckets) == total
    ensures ok ==> FreedBelow(old(buddy.buckets), buddy.buckets, i, |old(buddy.buckets)[i].slots|)
    ensures var slots := old(buddy.buckets)[i].slots;
            var all := es + DashSplit.SlotsGoing(slots, DashSplit.All, |slots|);
            if ok then DashSplit.FillsTo(d0, all, keep.buckets, keep.bucketNum, keep.slotNum)
            else DashSplit.Overflows(d0, all, keep.bucketNum, keep.slotNum)
  {
    hide IndexOk, AllPlaced, Contents, DashSegment.NoRoom, DashSplit.FillsTo, DashSplit.Overflows, DashSplit.SlotsGoing;
    ghost var (b, w) := (buddy.buckets, DashSplit.All);
    ghost var slots := b[i].slots;
    ok := true;
    var j := 0;
    DashSplit.NoSlotYet(es, slots, w);
    while j < |buddy.buckets[i].slots|
      invariant keep.Valid() && FreedBelow(b, buddy.buckets, i, j)
      invariant Contents(keep.buckets) + Contents(buddy.buckets) == total
      invariant DashSplit.FillsTo(d0, es + DashSplit.SlotsGoing(slots, w, j), keep.buckets, keep.bucketNum,
                                  keep.slotNum)
      decreases |slots| - j
    {
      ghost var now := es + DashSplit.SlotsGoing(slots, w, j);
      DashSplit.OneSlotFurther(es, slots, w, j);
      if buddy.buckets[i].slots[j].Used? {
        ok := DrainSlot(buddy, keep, i, j, total, d0, now);
        if !ok {
          DashSplit.OneTooMany(d0, now, keep.buckets, keep.bucketNum, keep.slotNum, slots[j].entry,
                               es + DashSplit.SlotsGoing(slots, w, |slots|));
          return;
        }
      } else {
        assert now + [] == now;
      }
      j := j + 1;
    }
  }

  /** Moves every entry of `buddy` into `keep`; stops at the first that finds no room. */
  method Drain(buddy: Segment, keep: Segment) returns (ok: bool)
    requires buddy != keep && keep.Valid() && buddy.Valid()
    modifies buddy`buckets, keep`buckets
    ensures ok ==> keep.Valid()
    ensures ok ==> Contents(keep.buckets) == old(Contents(keep.buckets)) + old(Contents(buddy.buckets))
    ensures var all := AllOf(old(buddy.buckets));
            if ok then DashSplit.FillsTo(old(keep.buckets), all, keep.buckets, keep.bucketNum, keep.slotNum)
            else DashSplit.Overflows(old(keep.buckets), all, keep.bucketNum, keep.slotNum)
  {
    hide IndexOk, AllPlaced, Contents, DashSplit.FillsTo, DashSplit.Overflows, DashSplit.SlotsGoing;
    ghost var total := Contents(keep.buckets) + Contents(buddy.buckets);
    ghost var (b, d0, w) := (buddy.buckets, keep.buckets, DashSplit.All);
    DashSplit.NothingPlaced(d0, keep.bucketNum, keep.slotNum);
    ok := true;
    var i := 0;
    while i < |buddy.buckets|
      invariant i <= |buddy.buckets| == |b| && keep.Valid()
      invariant Contents(keep.buckets) + Contents(buddy.buckets) == total
      invariant forall x | 0 <= x < i :: AllFree(buddy.buckets[x].slots)
      invariant forall x | i <= x < |b| :: buddy.buckets[x] == b[x]
      invariant DashSplit.FillsTo(d0, DashSplit.Going(b, w, i), keep.buckets, keep.bucketNum, keep.slotNum)
    {
      ok := DrainBucket(buddy, keep, i, total, d0, DashSplit.Going(b, w, i));
      if !ok {
        DashSplit.GoingPrefix(b, w, i + 1, |b|);
        DashSplit.StillOverflows(d0, DashSplit.Going(b, w, i + 1), keep.bucketNum, keep.slotNum, AllOf(b));
        return;
      }
      i := i + 1;
    }
    EmptyContents(buddy.buckets);
    assert Contents(keep.buckets) + multiset{} == Contents(keep.buckets);
  }

  /** Every entry of a segment, in the order of its slots. */
  ghost function AllOf(b: seq<Bucket>): seq<Entry> { DashSplit.Going(b, DashSplit.All, |b|) }

  ghost predicate AllFree(slots: seq<Slot>) {
    forall j | 0 <= j < |slots| :: slots[j].Free?
  }

  lemma DrainStep(b: multiset<Entry>, b': multiset<Entry>, k': multiset<Entry>, e: Entry, total: multiset<Entry>)
    requires b' + multiset{e} == b && k' + b == total + multiset{e}
    ensures k' + b' == total
  {
    forall x: Entry ensures (k' + b')[x] == total[x] {
      assert (k' + b)[x] == (total + multiset{e})[x];
    }
  }

  lemma MinusOne(v: View<Segment>, w: View<Segment>, e: Entry, now: multiset<Entry>)
    requires ViewOk(v) && w.g == v.g && w.ids == v.ids && w.ds == v.ds
    requires var p := Prefix(e.key.hash, v.g);
             && p < |v.ids| && now + multiset{e} == v.cs[p] && Count(w, e) == now[e]
             && forall x: Entry | x != e && now[x] == v.cs[p][x] :: Count(w, x) == Count(v, x)
    ensures Plus(w, v, e)
  {
    var p := Prefix(e.key.hash, v.g);
    forall x: Entry ensures Count(v, x) == Count(w, x) + if x == e then 1 else 0 {
      assert v.cs[p][x] == now[x] + multiset{e}[x];
    }
  }

  /** Flipping bit `k` of a slot number stays within the directory and changes only that bit. */
  lemma FlipBit(x: nat, k: nat, g: nat)
    requires k < g && x < Pow2(g)
    ensures var y := if Shr(x, k) % 2 == 0 then x + Pow2(k) else x - Pow2(k);
            && 0 <= y < Pow2(g) && Shr(x, k) != Shr(y, k) && SameChunk(x, y, k + 1)
            && forall z: nat | Shr(z, k) != Shr(x, k) && SameChunk(x, z, k + 1) :: SameChunk(y, z, k)
  {
    hide Shr, Shl;
    var u := Shr(x, k);
    ShrInterval(x, k, u);
    ShlNext(u, k);
    ShrStep(x, k);
    if u % 2 == 0 {
      var y := x + Pow2(k);
      ShlNext(u + 1, k);
      ShrInterval(y, k, u + 1);
      ShrStep(y, k);
      ShrBound(x, g - k, k);
      EvenBelow(u, g - k);
      ShlMono(u + 2, Pow2(g - k), k);
      ShlPow2(g - k, k);
    } else {
      var y := x - Pow2(k);
      ShlNext(u - 1, k);
      ShrInterval(y, k, u - 1);
      ShrStep(y, k);
    }
    forall z: nat | Shr(z, k) != u && SameChunk(x, z, k + 1)
      ensures SameChunk(if u % 2 == 0 then x + Pow2(k) else x - Pow2(k), z, k)
    {
      ShrStep(z, k);
    }
  }

  lemma EvenBelow(u: nat, a: nat)
    requires a > 0 && u < Pow2(a) && u % 2 == 0
    ensures u + 2 <= Pow2(a)
  {
  }

  lemma NoTwin(v: View<Segment>, x: nat, y: nat, k: nat)
    requires ViewOk(v) && x < |v.ids| && y < |v.ids| && v.ds[x] > 0 && v.ds[y] != v.ds[x] && k == v.g - v.ds[x]
    requires forall z: nat | Shr(z, k) != Shr(x, k) && SameChunk(x, z, k + 1) :: SameChunk(y, z, k)
    ensures !exists z: nat :: Twins(v, x, z)
  {
    hide Shr, InSlot;
  }

  /** Outcome of making room: the segment is deeper, the policy refused, or the split failed. */
  datatype Growth = Deeper | Refused | Failed

  lemma Unchanged(v: View<Segment>)
    requires ViewOk(v)
    ensures SameCounts(v, v) && Grew(v, v)
  {
    GrewInPlace(v, v);
  }

  lemma SameDepths(v: View<Segment>, w: View<Segment>, x: View<Segment>)
    requires Grew(v, w) && x.g == w.g && x.ds == w.ds
    ensures Grew(v, x)
  {
    forall j | 0 <= j < |x.ds| ensures AsDeep(v, x, j) {
      assert AsDeep(v, w, j);
    }
  }

  lemma SameTwice<T>(v: View<T>, w: View<T>, x: View<T>)
    requires SameCounts(v, w) && SameCounts(w, x)
    ensures SameCounts(v, x)
  {
    forall e: Entry ensures Count(x, e) == Count(v, e) {
      assert Count(w, e) == Count(v, e);
    }
  }

  lemma SameKeys<T>(v: View<T>, w: View<T>, k: Key)
    requires SameCounts(v, w)
    ensures HasKey(v, k) <==> HasKey(w, k)
  {
    hide Count;
    if HasKey(v, k) {
      var e: Entry :| e.key == k && Count(v, e) > 0;
      assert Count(w, e) > 0;
    }
    if HasKey(w, k) {
      var e: Entry :| e.key == k && Count(w, e) > 0;
      assert Count(v, e) > 0;
    }
  }

  /** How often the segment of a slot holds an entry depends on the leading bits of its hash. */
  lemma SegmentHolds<T>(v: View<T>, p: nat, x: Entry)
    requires ViewOk(v) && p < |v.ids|
    ensures p < |v.ds| == |v.cs| && v.ds[p] <= v.g
    ensures v.cs[p][x] == if Prefix(x.key.hash, v.ds[p]) == Shr(p, v.g - v.ds[p]) then Count(v, x) else 0
  {
    hide Shr, DashSplit.Prefix, Pow2;
    var q := Prefix(x.key.hash, v.g);
    HashBound(x.key.hash, v.g);
    DashView.PrefixShr(x.key.hash, v.g, v.ds[p]);
    assert v.ids[p] == v.ids[q] <==> SameChunk(p, q, v.g - v.ds[p]);
    if x in v.cs[p] {
      assert InSlot(v, p, x);
    }
  }

  /** Growing the directory by one level does not change which segment a hash selects. */
  lemma SlotFollows(was: seq<Segment>, now: seq<Segment>, g: nat, k: Key)
    requires Replicated(was, now, g, 1) && g + 1 <= 64
    ensures var (p, q) := (Prefix(k.hash, g), Prefix(k.hash, g + 1));
            q < |now| && p < |was| && now[q] == was[p]
  {
    HashBound(k.hash, g + 1);
    DashView.PrefixShr(k.hash, g + 1, g);
  }

  lemma ShallowerThanDir(v: View<Segment>, p: nat)
    requires ViewOk(v) && p < |v.ids|
    ensures p < |v.ds| && v.ds[p] <= v.g <= 64
  {
  }

  /** The table gained exactly one copy of `e`. */
  ghost predicate Plus<T>(v: View<T>, w: View<T>, e: Entry) {
    && w.g == v.g && w.ids == v.ids && w.ds == v.ds
    && forall x: Entry :: Count(w, x) == Count(v, x) + if x == e then 1 else 0
  }

  lemma PlusOne(v: View<Segment>, w: View<Segment>, e: Entry)
    requires ViewOk(v) && w.g == v.g && w.ids == v.ids && w.ds == v.ds
    requires var p := Prefix(e.key.hash, v.g);
             && p < |v.ids| && Count(w, e) == (v.cs[p] + multiset{e})[e]
             && forall x: Entry | x != e && (v.cs[p] + multiset{e})[x] == v.cs[p][x] :: Count(w, x) == Count(v, x)
    ensures Plus(v, w, e)
  {
  }

  lemma ViewLengths(v: View<Segment>)
    requires ViewOk(v)
    ensures |v.ids| == |v.ds| == |v.cs|
  {
  }

  lemma ChunkBounds(v: View<Segment>, s: nat)
    requires ViewOk(v) && s < |v.ids| && v.ds[s] < v.g
    ensures var k := v.g - v.ds[s];
            && ChunkStart(s, k) + Pow2(k) <= |v.ids|
            && 0 < Pow2(k - 1) && Pow2(k) == 2 * Pow2(k - 1)
  {
    ChunkIsInterval(v.ids, v.ds, v.g, s, s);
  }

  /** The split names one more segment than before. */
  lemma BothHalves(v: View<Segment>, s: nat, target: Segment, dir: seq<Segment>)
    requires ViewOk(v) && s < |v.ids| && v.ds[s] < v.g && target !in v.ids && |dir| == |v.ids|
    requires var k := v.g - v.ds[s];
             var (lo, hi) := (ChunkStart(s, k) + Pow2(k - 1), ChunkStart(s, k) + Pow2(k));
             forall j | 0 <= j < |dir| :: dir[j] == if lo <= j < hi then target else v.ids[j]
    ensures |Members(dir)| == |Members(v.ids)| + 1
  {
    hide Shl, Shr, SameChunk, Pow2, ChunkStart, InSlot;
    var k := v.g - v.ds[s];
    var start := ChunkStart(s, k);
    ChunkBounds(v, s);
    ChunkIsInterval(v.ids, v.ds, v.g, s, start);
    assert dir[start] == v.ids[s] && dir[start + Pow2(k - 1)] == target;
    forall j | 0 <= j < |v.ids| ensures v.ids[j] in dir {
      ChunkIsInterval(v.ids, v.ds, v.g, s, j);
      assert dir[j] == v.ids[j] || v.ids[j] == v.ids[s];
    }
    assert Members(dir) == Members(v.ids) + {target};
  }

  lemma DirLength<T>(v: View<T>)
    requires ViewOk(v)
    ensures |v.ids| == Pow2(v.g) > 0 && v.g <= 64
  {
  }

  lemma AllReplicated<T>(was: seq<T>, now: seq<T>, g: nat, k: nat)
    requires FilledFrom(was, now, g, k, 0)
    ensures Replicated(was, now, g, k)
  {
    hide Shr;
    ShlZero(k);
  }

  lemma {:induction false} ShlZero(k: nat)
    ensures Shl(0, k) == 0
  {
    if k > 0 {
      ShlZero(k - 1);
    }
  }

  lemma SameMembers(was: seq<Segment>, now: seq<Segment>, g: nat, k: nat)
    requires Replicated(was, now, g, k)
    ensures Members(now) == Members(was)
  {
    hide Shr, Pow2;
    forall i | 0 <= i < |was| ensures was[i] in now {
      FillBounds(g, k, i);
      ShrShl(i, k);
      assert now[Shl(i, k)] == was[i];
    }
  }

  /** The table has a key exactly when the segment its hash selects stores it. */
  lemma StoredIsCounted(v: View<Segment>, b: seq<Bucket>, k: Key)
    requires ViewOk(v)
    requires var p := Prefix(k.hash, v.g); p < |v.ids| && v.cs[p] == Contents(b)
    ensures Stores(b, k) <==> HasKey(v, k)
  {
    hide Contents, DashSplit.Prefix, DirOk, InSlot;
    if Stores(b, k) {
      var x :| 0 <= x < |b| && Holds(b[x], k);
      var j :| 0 <= j < |b[x].slots| && b[x].slots[j].Used? && b[x].slots[j].entry.key == k;
      ContentsMember(b, b[x].slots[j].entry);
      assert Count(v, b[x].slots[j].entry) > 0;
    }
    if HasKey(v, k) {
      var e: Entry :| e.key == k && Count(v, e) > 0;
      ContentsMember(b, e);
      var i, j :| 0 <= i < |b| && 0 <= j < |b[i].slots| && b[i].slots[j].Used? && b[i].slots[j].entry == e;
      assert Holds(b[i], k);
    }
  }

  lemma EmptyDirectory<T>(v: View<T>)
    requires v.g <= 64 && |v.ids| == |v.ds| == |v.cs| == Pow2(v.g)
    requires forall i | 0 <= i < |v.ids| :: v.ds[i] == v.g && v.cs[i] == multiset{}
    requires forall i, j | 0 <= i < j < |v.ids| :: v.ids[i] != v.ids[j]
    ensures ViewOk(v)
    ensures forall e: Entry :: Count(v, e) == 0
  {
    hide DashSplit.Prefix;
    forall i, j | 0 <= i < |v.ids| && 0 <= j < |v.ids|
      ensures v.ids[i] == v.ids[j] <==> SameChunk(i, j, v.g - v.ds[i])
    {
      assert Shr(i, 0) == i && Shr(j, 0) == j;
    }
  }

  lemma {:induction false} DistinctCount(s: seq<Segment>)
    requires forall i, j | 0 <= i < j < |s| :: s[i] != s[j]
    ensures |Members(s)| == |s|
  {
    if s != [] {
      var t := s[..|s| - 1];
      DistinctCount(t);
      assert Members(s) == Members(t) + {s[|s| - 1]};
    }
  }
}
