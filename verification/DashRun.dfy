/** Whole runs of a dash table: it answers like a map. */
module DashRun {
  import opened Arith
  import opened Keys
  import opened DashBucket
  import opened DashState
  import opened DashSegment
  import opened DashDirectory
  import opened DashView
  import opened DashTable

  datatype Op =
    | Put(key: Key, value: string, limit: nat)               // `limit` is the depth the policy allows
    | Remove(key: Key)
    | Get(key: Key)
    | Bump(key: Key, canBump: Key -> bool, staleBump: bool)
    | Unload(segId: nat)
    | Merge(segId: nat)                                      // with its buddy, if it has one
    | Wipe

  datatype Answer = Nothing | Got(value: string) | Denied

  function Seen(m: map<Key, string>, k: Key): Answer { if k in m then Got(m[k]) else Nothing }

  /** The keys whose hashes begin with the same `depth` bits. */
  function Near(m: map<Key, string>, k: Key, depth: nat): map<Key, string> {
    map x | x in m && Prefix(x.hash, depth) == Prefix(k.hash, depth) :: m[x]
  }

  /** What a call may answer. Only the insertion of a new key may be refused, and only when the keys that no
      segment of the allowed depth can tell from it would fill two buckets and the stash. */
  predicate Right(m: map<Key, string>, op: Op, a: Answer, slotNum: nat) {
    match op
    case Put(k, _, limit) =>
      a == Seen(m, k) || (k !in m && a == Denied && |Near(m, k, limit)| >= (STASH_NUM + 2) * slotNum)
    case Remove(k) => a == Seen(m, k)
    case Get(k) => a == Seen(m, k)
    case Bump(k, _, _) => a == Seen(m, k)
    case Unload(_) => a == Nothing
    case Merge(_) => a == Nothing
    case Wipe => a == Nothing
  }

  function Next(m: map<Key, string>, op: Op, a: Answer): map<Key, string> {
    match op
    case Put(k, v, _) => if a == Nothing then m[k := v] else m
    case Remove(k) => m - {k}
    case Wipe => map[]
    case Get(_) => m
    case Bump(_, _, _) => m
    case Unload(_) => m
    case Merge(_) => m
  }

  /** The map after a run, going by the answers. */
  ghost function After(ops: seq<Op>, answers: seq<Answer>): map<Key, string>
    requires |answers| <= |ops|
  {
    if answers == [] then map[]
    else var n := |answers| - 1; Next(After(ops, answers[..n]), ops[n], answers[n])
  }

  /** Every entry of the map is stored once, and nothing else is. */
  ghost predicate Agrees<T>(v: View<T>, m: map<Key, string>) {
    forall e: Entry :: Count(v, e) == if e.key in m && m[e.key] == e.value then 1 else 0
  }

  lemma AgreesKey<T>(v: View<T>, m: map<Key, string>, k: Key)
    requires Agrees(v, m)
    ensures HasKey(v, k) <==> k in m
  {
    hide Count;
    if k in m {
      assert Count(v, Entry(k, m[k])) > 0;
    }
  }

  lemma AgreesSame<T>(v: View<T>, w: View<T>, m: map<Key, string>)
    requires Agrees(v, m) && SameCounts(v, w)
    ensures Agrees(w, m)
  {
    hide Count;
  }

  lemma AgreesPut<T>(v: View<T>, w: View<T>, m: map<Key, string>, e: Entry)
    requires Agrees(v, m) && e.key !in m
    requires forall x: Entry :: Count(w, x) == Count(v, x) + if x == e then 1 else 0
    ensures Agrees(w, m[e.key := e.value])
  {
    hide Count;
  }

  lemma AgreesRemove<T>(v: View<T>, w: View<T>, m: map<Key, string>, gone: Entry)
    requires Agrees(v, m) && Plus(w, v, gone)
    ensures Agrees(w, m - {gone.key}) && gone.key in m && m[gone.key] == gone.value
  {
    hide Count;
    assert Count(v, gone) > 0;
  }

  lemma {:induction false} BagInMap(c: multiset<Entry>, m: map<Key, string>)
    requires forall e | e in c :: c[e] == 1 && e.key in m && m[e.key] == e.value
    ensures |c| <= |m|
    decreases |c|
  {
    if c != multiset{} {
      var e :| e in c;
      var (d, n) := (c - multiset{e}, m - {e.key});
      forall x | x in d ensures d[x] == 1 && x.key in n && n[x.key] == x.value {
        assert x in c && x != e;
      }
      BagInMap(d, n);
      assert m.Keys == n.Keys + {e.key};
      assert |m| == |m.Keys| && |n| == |n.Keys|;
    }
  }

  ghost predicate Stands(t: Table, m: map<Key, string>)
    reads t, t.dir
  {
    t.Valid() && Agrees(t.TheView(), m)
  }

  /** The segment holds exactly the entries of the map whose hashes begin with the `depth` bits `u`. */
  ghost predicate HoldsPart(b: seq<Bucket>, m: map<Key, string>, depth: nat, u: nat) {
    forall x: Entry ::
      Contents(b)[x]
      == if x.key in m && m[x.key] == x.value && Prefix(x.key.hash, depth) == u then 1 else 0
  }

  /** The keys that share their first `depth` bits with `k` make up a segment of which the entries with the next
      bit set, inserted one after the other into a new segment, do not all find room. */
  ghost predicate PutJam(t: Table, m: map<Key, string>, k: Key, depth: nat, b: seq<Bucket>) {
    && Inv(b, t.bucketNum, t.slotNum) && HoldsPart(b, m, depth, Prefix(k.hash, depth))
    && DashSegment.NoRoom(b, t.bucketNum, k) && t.Overfull(b, depth + 1)
  }

  /** Two segments hold the keys with `depth` common bits that differ in the last of them, and the entries of the one,
      inserted one after the other into the other, do not all find room. */
  ghost predicate MergeJam(t: Table, m: map<Key, string>, depth: nat, u: nat, b: seq<Bucket>, c: seq<Bucket>) {
    && Inv(b, t.bucketNum, t.slotNum) && HoldsPart(b, m, depth, 2 * u)
    && Inv(c, t.bucketNum, t.slotNum) && HoldsPart(c, m, depth, 2 * u + 1)
    && DashSplit.Overflows(b, AllOf(c), t.bucketNum, t.slotNum)
  }

  /** What an operation can fail on. */
  ghost predicate Stuck(t: Table, m: map<Key, string>, op: Op) {
    match op
    case Put(k, _, limit) => k !in m && exists depth: nat, b | depth < limit :: PutJam(t, m, k, depth, b)
    case Merge(_) => exists depth: nat, u: nat, b, c :: MergeJam(t, m, depth, u, b, c)
    case Remove(_) => false
    case Get(_) => false
    case Bump(_, _, _) => false
    case Unload(_) => false
    case Wipe => false
  }

  /** Two different segments hold no more entries together than the map. */
  lemma BothNoMoreThan<T>(v: View<T>, m: map<Key, string>, x: nat, y: nat)
    requires ViewOk(v) && Agrees(v, m) && x < |v.cs| && y < |v.cs| && v.ids[x] != v.ids[y]
    ensures |v.cs[x] + v.cs[y]| <= |m|
  {
    hide DirOk, Count;
    var c := v.cs[x] + v.cs[y];
    forall e | e in c ensures c[e] == 1 && e.key in m && m[e.key] == e.value {
      if e in v.cs[x] {
        CountedAnywhere(v, x, e);
        assert InSlot(v, x, e);
      }
      if e in v.cs[y] {
        CountedAnywhere(v, y, e);
        assert InSlot(v, y, e);
      }
    }
    BagInMap(c, m);
  }

  /** One call. It goes wrong only if a segment overflows. */
  method Step(t: Table, op: Op, ghost m: map<Key, string>) returns (done: bool, a: Answer)
    requires Stands(t, m) && (op.Put? ==> op.limit <= 64)
    modifies t, t.dir
    ensures done ==> Right(m, op, a, t.slotNum) && Stands(t, Next(m, op, a))
    ensures done ==> forall i | 0 <= i < |t.dir| :: t.dir[i] in old(t.dir) || fresh(t.dir[i])
    ensures !done ==> Stuck(t, m, op)
  {
    hide Agrees, Count, Table.Valid;
    done, a := true, Nothing;
    match op {
      case Put(k, v, limit) => done, a := StepPut(t, k, v, limit, m);
      case Remove(k) => a := StepRemove(t, k, m);
      case Get(k) =>
        var slot, pos;
        slot, pos, a := Look(t, k, m);
      case Bump(k, canBump, staleBump) => a := StepBump(t, k, canBump, staleBump, m);
      case Unload(segId) =>
        if segId < |t.dir| {
          var moved := t.UnloadStash(segId);
        }
      case Merge(segId) => done := StepMerge(t, segId, m);
      case Wipe => StepWipe(t);
    }
  }

  /** DashTable::Find and what its result points to. */
  method Look(t: Table, k: Key, ghost m: map<Key, string>) returns (slot: nat, pos: Pos, a: Answer)
    requires Stands(t, m)
    ensures a == Seen(m, k)
    ensures pos.At? ==> slot < |t.dir| && pos.bid < |t.dir[slot].buckets| && pos.slot < t.slotNum
                        && t.dir[slot].buckets[pos.bid].slots[pos.slot].Used?
  {
    hide Contents, IndexOk, AllPlaced, ViewOk, Agrees, HasKey;
    slot, pos := t.Find(k);
    AgreesKey(t.TheView(), m, k);
    if pos.NoPos? {
      return slot, pos, Nothing;
    }
    var e := t.dir[slot].buckets[pos.bid].slots[pos.slot].entry;
    StoredIsThere(t, slot, pos, m);
    a := Got(e.value);
  }

  method StepBump(t: Table, k: Key, canBump: Key -> bool, staleBump: bool, ghost m: map<Key, string>)
    returns (a: Answer)
    requires Stands(t, m)
    modifies t.dir
    ensures a == Seen(m, k) && Stands(t, m)
  {
    hide Agrees, Count, Table.Valid, Bumped, MayRise;
    var slot, pos;
    slot, pos, a := Look(t, k, m);
    if pos.At? {
      pos := t.BumpUp(slot, pos.bid, pos.slot, canBump, staleBump);
    }
  }

  lemma StoredIsThere(t: Table, slot: nat, pos: Pos, m: map<Key, string>)
    requires Stands(t, m) && slot < |t.dir| && pos.At? && pos.bid < |t.dir[slot].buckets|
    requires pos.slot < |t.dir[slot].buckets[pos.bid].slots| && t.dir[slot].buckets[pos.bid].slots[pos.slot].Used?
    ensures var e := t.dir[slot].buckets[pos.bid].slots[pos.slot].entry; e.key in m && m[e.key] == e.value
  {
    hide Count;
    t.StoredIsHere(slot, pos);
  }

  method StepPut(t: Table, k: Key, v: string, limit: nat, ghost m: map<Key, string>) returns (done: bool, a: Answer)
    requires Stands(t, m) && limit <= 64
    modifies t, t.dir
    ensures done ==> Right(m, Put(k, v, limit), a, t.slotNum) && Stands(t, Next(m, Put(k, v, limit), a))
    ensures done ==> forall i | 0 <= i < |t.dir| :: t.dir[i] in old(t.dir) || fresh(t.dir[i])
    ensures !done ==> Stuck(t, m, Put(k, v, limit))
  {
    hide Contents, Inv, ViewOk, Agrees, Count, HasKey, Grew, Near, Table.Full, DashSplit.Prefix, Table.JammedAt;
    ghost var was := t.TheView();
    AgreesKey(was, m, k);
    a := Nothing;
    var r := t.Insert(Entry(k, v), limit);
    match r {
      case NoRoom =>
        JamInMap(t, was, m, k, limit);
        return false, a;
      case Duplicate(pos) =>
        AgreesSame(was, t.TheView(), m);
        var e := t.dir[Prefix(k.hash, t.globalDepth)].buckets[pos.bid].slots[pos.slot].entry;
        AgreesEntry(was, m, e);
        a := Got(e.value);
      case NoGrowth =>
        AgreesSame(was, t.TheView(), m);
        FullIsNear(t, m, Entry(k, v), limit);
        a := Denied;
      case Added(_) => AgreesPut(was, t.TheView(), m, Entry(k, v));
    }
    done := true;
  }

  /** A segment at least `depth` deep that has no room for a key is full of keys near to it. */
  lemma FullIsNear(t: Table, m: map<Key, string>, e: Entry, depth: nat)
    requires Stands(t, m) && t.Full(e.key) && depth <= t.dir[Prefix(e.key.hash, t.globalDepth)].localDepth
    ensures |Near(m, e.key, depth)| >= (STASH_NUM + 2) * t.slotNum
  {
    hide Contents, Inv, DashSplit.Prefix, DashSegment.NoRoom, Agrees, Count, InSlot, DirOk, Near;
    var (v, p) := (t.TheView(), Prefix(e.key.hash, t.globalDepth));
    var c := Contents(t.dir[p].buckets);
    DashSplit.FullIsLarge(t.dir[p].buckets, t.bucketNum, t.slotNum, e, c + multiset{e});
    forall x | x in c ensures c[x] == 1 && x.key in Near(m, e.key, depth) && Near(m, e.key, depth)[x.key] == x.value {
      SegmentIsNear(v, m, p, e.key, depth, x);
    }
    BagInMap(c, Near(m, e.key, depth));
  }

  lemma SegmentIsNear<T>(v: View<T>, m: map<Key, string>, p: nat, k: Key, depth: nat, x: Entry)
    requires ViewOk(v) && Agrees(v, m) && p == Prefix(k.hash, v.g) < |v.ids| && x in v.cs[p] && depth <= v.ds[p]
    ensures v.cs[p][x] == 1 && x.key in Near(m, k, depth) && Near(m, k, depth)[x.key] == x.value
  {
    hide Shr, Pow2, DashSplit.Prefix;
    CountedAnywhere(v, p, x);
    assert InSlot(v, p, x);
    var q := Prefix(x.key.hash, v.g);
    assert SameChunk(p, q, v.g - v.ds[p]);
    ShrShr(p, v.g - v.ds[p], v.ds[p] - depth);
    ShrShr(q, v.g - v.ds[p], v.ds[p] - depth);
    DashView.PrefixShr(k.hash, v.g, depth);
    DashView.PrefixShr(x.key.hash, v.g, depth);
  }

  lemma AgreesEntry<T>(v: View<T>, m: map<Key, string>, e: Entry)
    requires Agrees(v, m) && Count(v, e) > 0
    ensures e.key in m && m[e.key] == e.value
  {
    hide Count;
  }

  lemma JamInMap(t: Table, v: View<Segment>, m: map<Key, string>, k: Key, limit: nat)
    requires Agrees(v, m) && t.Jammed(v, k, limit)
    ensures exists depth: nat, b | depth < limit :: PutJam(t, m, k, depth, b)
  {
    hide Contents, Inv, Count, DashSplit.Prefix, Table.Overfull;
    var depth: nat, b :| depth < limit && t.JammedAt(v, k, depth, b);
    assert PutJam(t, m, k, depth, b);
  }

  method StepRemove(t: Table, k: Key, ghost m: map<Key, string>) returns (a: Answer)
    requires Stands(t, m)
    modifies t.dir
    ensures a == Seen(m, k) && Stands(t, m - {k})
  {
    hide Contents, Inv, ViewOk, Agrees, Count, HasKey;
    ghost var was := t.TheView();
    AgreesKey(was, m, k);
    var slot, pos;
    slot, pos, a := Look(t, k, m);
    var n, gone := t.Erase(k);
    if n == 0 {
      assert m - {k} == m;
    } else {
      AgreesRemove(was, t.TheView(), m, gone);
    }
  }

  method StepMerge(t: Table, segId: nat, ghost m: map<Key, string>) returns (done: bool)
    requires Stands(t, m)
    modifies t, t.dir
    ensures done ==> Stands(t, m) && forall i | 0 <= i < |t.dir| :: t.dir[i] in old(t.dir)
    ensures !done ==> Stuck(t, m, Merge(segId))
  {
    hide Contents, Inv, ViewOk, Agrees, Count, MergeView;
    if segId >= |t.dir| {
      return true;
    }
    var buddy := t.FindBuddyId(segId);
    if segId >= buddy || t.dir[segId].localDepth <= 1 {
      return true;
    }
    ghost var was := t.TheView();
    ghost var (b, c, depth) := (t.dir[segId].buckets, t.dir[buddy].buckets, t.dir[segId].localDepth);
    ghost var u := TwinParts(t, m, segId, buddy);
    var r := t.Merge(segId, buddy);
    if r.RolledBack? {
      assert MergeJam(t, m, depth, u, b, c);
      return false;
    }
    if r.Merged? {
      AgreesSame(was, t.TheView(), m);
    }
    done := true;
  }

  /** Twins hold the keys of two prefixes that differ in the last bit. */
  lemma TwinParts(t: Table, m: map<Key, string>, x: nat, y: nat) returns (u: nat)
    requires Stands(t, m) && x < y && Twins(t.TheView(), x, y)
    ensures x < |t.dir| && y < |t.dir| && Inv(t.dir[x].buckets, t.bucketNum, t.slotNum)
    ensures Inv(t.dir[y].buckets, t.bucketNum, t.slotNum)
    ensures HoldsPart(t.dir[x].buckets, m, t.dir[x].localDepth, 2 * u)
    ensures HoldsPart(t.dir[y].buckets, m, t.dir[x].localDepth, 2 * u + 1)
  {
    hide Contents, Inv, DirOk, InSlot, DashSplit.Prefix, Shr, Count, Agrees;
    var v := t.TheView();
    var k := v.g - v.ds[x];
    u := Shr(x, k) / 2;
    ShrStep(x, k);
    ShrStep(y, k);
    TwinOrder(x, y, k);
    PartHeld(t, m, x);
    PartHeld(t, m, y);
  }

  lemma TwinOrder(x: nat, y: nat, k: nat)
    requires x < y
    ensures Shr(x, k) <= Shr(y, k)
  {
    hide Shr, Shl;
    ShrBelow(x, Shr(x, k), k);
    ShrBelow(y, Shr(x, k), k);
  }

  lemma PartHeld(t: Table, m: map<Key, string>, p: nat)
    requires Stands(t, m) && p < |t.dir|
    ensures t.dir[p].localDepth <= t.globalDepth
    ensures HoldsPart(t.dir[p].buckets, m, t.dir[p].localDepth, Shr(p, t.globalDepth - t.dir[p].localDepth))
  {
    hide Contents, Inv, DirOk, InSlot, DashSplit.Prefix, Shr, Count;
    var v := t.TheView();
    ShallowerThanDir(v, p);
    forall x: Entry
      ensures Contents(t.dir[p].buckets)[x]
              == if x.key in m && m[x.key] == x.value
                    && Prefix(x.key.hash, v.ds[p]) == Shr(p, v.g - v.ds[p]) then 1 else 0
    {
      SegmentHolds(v, p, x);
      assert Count(v, x) == if x.key in m && m[x.key] == x.value then 1 else 0;
    }
  }

  // ---- small tables -----------------------------------------------------------------------

  /** A segment that holds a part of the map holds no more entries than the map. */
  lemma PartIsSmaller(b: seq<Bucket>, m: map<Key, string>, depth: nat, u: nat)
    requires HoldsPart(b, m, depth, u)
    ensures |Contents(b)| <= |m|
  {
    hide Contents, DashSplit.Prefix;
    BagInMap(Contents(b), m);
  }

  /** Nothing fails while the map has no more keys than the stash and two buckets have slots for. */
  lemma StuckIsLarge(t: Table, m: map<Key, string>, op: Op)
    requires Stuck(t, m, op)
    ensures |m| > (STASH_NUM + 2) * t.slotNum
  {
    hide Contents, Inv, DashSplit.Prefix, DashSplit.Overflows, DashSplit.Going;
    match op
    case Put(k, _, limit) =>
      var depth: nat, b :| depth < limit && PutJam(t, m, k, depth, b);
      PutJamIsLarge(t, m, k, depth, b);
    case Merge(_) =>
      var depth: nat, u: nat, b, c :| MergeJam(t, m, depth, u, b, c);
      MergeJamIsLarge(t, m, depth, u, b, c);
  }

  lemma PutJamIsLarge(t: Table, m: map<Key, string>, k: Key, depth: nat, b: seq<Bucket>)
    requires PutJam(t, m, k, depth, b)
    ensures |m| > (STASH_NUM + 2) * t.slotNum
  {
    hide Contents, DashSplit.Prefix, DashSplit.Overflows, DashSplit.Going, IndexOk, AllPlaced;
    var es := DashSplit.Going(b, DashSplit.Upper(depth + 1), |b|);
    DashSplit.OverflowIsLarge(NewBuckets(t.bucketNum, t.slotNum), es, t.bucketNum, t.slotNum);
    EmptySegment(NewBuckets(t.bucketNum, t.slotNum), t.bucketNum, t.slotNum);
    DashSplit.GoingIsThere(b, DashSplit.Upper(depth + 1), |b|);
    assert b[..|b|] == b;
    DashSplit.SmallerBag(multiset(es), Contents(b));
    PartIsSmaller(b, m, depth, Prefix(k.hash, depth));
  }

  lemma MergeJamIsLarge(t: Table, m: map<Key, string>, depth: nat, u: nat, b: seq<Bucket>, c: seq<Bucket>)
    requires MergeJam(t, m, depth, u, b, c)
    ensures |m| > (STASH_NUM + 2) * t.slotNum
  {
    hide Contents, Inv, DashSplit.Prefix, DashSplit.Overflows, DashSplit.Going;
    DashSplit.OverflowIsLarge(b, AllOf(c), t.bucketNum, t.slotNum);
    DashSplit.GoingIsThere(c, DashSplit.All, |c|);
    assert c[..|c|] == c;
    DashSplit.SmallerBag(multiset(AllOf(c)), Contents(c));
    var both := Contents(b) + Contents(c);
    forall e | e in both ensures both[e] == 1 && e.key in m && m[e.key] == e.value {
      assert Contents(b)[e] <= 1 && Contents(c)[e] <= 1;
    }
    BagInMap(both, m);
  }

  method StepWipe(t: Table)
    requires t.Valid()
    modifies t, t.dir
    ensures Stands(t, map[]) && forall i | 0 <= i < |t.dir| :: t.dir[i] in old(t.dir)
  {
    hide Contents, Inv, ViewOk, Count;
    t.Clear();
  }

  /** In any run of insertions, removals, lookups, promotions, stash unloads, merges and clears, with all the splits and
      directory growth they cause, every answer is the one of a plain map, save for the refusals that `Right` allows. */
  method Replay(t: Table, ops: seq<Op>) returns (answers: seq<Answer>)
    requires t.Valid() && (forall e: Entry :: Count(t.TheView(), e) == 0)
    requires forall i | 0 <= i < |ops| :: ops[i].Put? ==> ops[i].limit <= 64
    modifies t, t.dir
    ensures |answers| <= |ops|
    ensures forall i | 0 <= i < |answers| :: Right(After(ops, answers[..i]), ops[i], answers[i], t.slotNum)
    ensures if |answers| == |ops| then Stands(t, After(ops, answers)) else Stuck(t, After(ops, answers), ops[|answers|])
  {
    hide Count, Table.Valid, Next, Right;
    answers := [];
    while |answers| < |ops|
      invariant |answers| <= |ops| && Stands(t, After(ops, answers))
      invariant forall i | 0 <= i < |answers| :: Right(After(ops, answers[..i]), ops[i], answers[i], t.slotNum)
      invariant forall i | 0 <= i < |t.dir| :: t.dir[i] in old(t.dir) || fresh(t.dir[i])
    {
      var done, a := Step(t, ops[|answers|], After(ops, answers));
      if !done {
        return;
      }
      ghost var was := answers;
      answers := answers + [a];
      assert answers[..|was|] == was;
      assert forall i | 0 <= i < |was| :: answers[..i] == was[..i];
    }
  }
}
