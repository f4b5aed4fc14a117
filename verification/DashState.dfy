/** The invariant of a dash segment, as a property of its array of buckets, and what single
    changes of a slot or of a stash pointer do to it. */
module DashState {
  import opened Keys
  import opened DashBucket

  ghost predicate Shape(b: seq<Bucket>, n: nat, s: nat) {
    && n >= 2 && s >= 1
    && |b| == n + STASH_NUM
    && forall i | 0 <= i < |b| :: |b[i].slots| == s && |b[i].refs| == STASH_FP_LEN
  }

  /** Where an entry may live: a regular bucket holds its own entries and, marked as probing,
      those of the previous bucket; a stash bucket holds anything. */
  ghost predicate Placed(slot: Slot, i: nat, n: nat)
    requires n > 0
  {
    slot.Used? ==>
      && slot.fp == Fp(slot.entry.key.hash)
      && (i < n ==> Home(slot.entry.key.hash, n) == if slot.probe then PrevBid(i, n) else i)
      && (i >= n ==> !slot.probe)
  }

  ghost predicate AllPlaced(b: seq<Bucket>, n: nat)
    requires n > 0
  {
    forall i, j | 0 <= i < |b| && 0 <= j < |b[i].slots| :: Placed(b[i].slots[j], i, n)
  }

  /** The spots of all stash entries at home in bucket `h`. */
  ghost function Stashed(b: seq<Bucket>, h: nat, n: nat): multiset<Spot>
    requires n > 0
  {
    StashedFrom(b, h, n, 0)
  }

  ghost function StashedFrom(b: seq<Bucket>, h: nat, n: nat, p: nat): multiset<Spot>
    requires n > 0
    decreases |b| - p
  {
    if n + p >= |b| then multiset{}
    else SpotsOf(b[n + p].slots, h, p, n) + StashedFrom(b, h, n, p + 1)
  }

  /** The spots the pointers that speak for bucket `h` name. */
  ghost function Pointed(b: seq<Bucket>, h: nat, n: nat): multiset<Spot>
    requires h < n <= |b|
  {
    RefSpots(b[h].refs, false) + RefSpots(b[NextBid(h, n)].refs, true)
  }

  /** The stash index of bucket `h` accounts for exactly the spots `e`: every pointer names one
      of them, and those without a pointer are counted as overflow. */
  ghost predicate IndexOk(b: seq<Bucket>, h: nat, n: nat, e: multiset<Spot>)
    requires h < n <= |b|
  {
    && Pointed(b, h, n) <= e
    && |e| == |Pointed(b, h, n)| + b[h].overflow
    && (b[h].present <==> e != multiset{})
  }

  ghost predicate Inv(b: seq<Bucket>, n: nat, s: nat) {
    && Shape(b, n, s)
    && AllPlaced(b, n)
    && forall h | 0 <= h < n :: IndexOk(b, h, n, Stashed(b, h, n))
  }

  ghost function Contents(b: seq<Bucket>): multiset<Entry> {
    if b == [] then multiset{} else EntriesOf(b[0].slots) + Contents(b[1..])
  }

  ghost predicate Holds(b: Bucket, k: Key) {
    exists j :: 0 <= j < |b.slots| && b.slots[j].Used? && b.slots[j].entry.key == k
  }

  /** Stash bucket `p` holds the key. */
  ghost predicate InStash(b: seq<Bucket>, n: nat, p: nat, k: Key) {
    n + p < |b| && Holds(b[n + p], k)
  }

  ghost predicate Stores(b: seq<Bucket>, k: Key) {
    exists i :: 0 <= i < |b| && Holds(b[i], k)
  }

  // ---- contents -------------------------------------------------------------------------

  lemma {:induction false} ContentsUpdate(b: seq<Bucket>, i: nat, x: Bucket)
    requires i < |b|
    ensures Contents(b[i := x]) + EntriesOf(b[i].slots) == Contents(b) + EntriesOf(x.slots)
  {
    var t := b[i := x];
    if i == 0 {
      assert t[1..] == b[1..];
    } else {
      assert t[1..] == b[1..][i - 1 := x] && b[1..][i - 1] == b[i];
      ContentsUpdate(b[1..], i - 1, x);
      Regroup(EntriesOf(b[0].slots), Contents(t[1..]), EntriesOf(b[i].slots), Contents(b[1..]), EntriesOf(x.slots));
    }
  }

  lemma {:induction false} ContentsSlot(b: seq<Bucket>, i: nat, j: nat, slot: Slot)
    requires i < |b| && j < |b[i].slots|
    ensures Contents(WithSlot(b, i, j, slot)) + OneEntry(b[i].slots[j]) == Contents(b) + OneEntry(slot)
  {
    var x := b[i].(slots := b[i].slots[j := slot]);
    ContentsUpdate(b, i, x);
    EntriesUpdate(b[i].slots, j, slot);
    Cancel(Contents(b), Contents(b[i := x]), EntriesOf(b[i].slots), EntriesOf(x.slots),
           OneEntry(b[i].slots[j]), OneEntry(slot));
  }

  lemma ContentsAdd(b: seq<Bucket>, i: nat, j: nat, slot: Slot)
    requires i < |b| && j < |b[i].slots| && b[i].slots[j].Free? && slot.Used?
    ensures Contents(WithSlot(b, i, j, slot)) == Contents(b) + multiset{slot.entry}
  {
    ContentsSlot(b, i, j, slot);
    var c := Contents(WithSlot(b, i, j, slot));
    assert c + multiset{} == c;
  }

  lemma ContentsDrop(b: seq<Bucket>, i: nat, j: nat)
    requires i < |b| && j < |b[i].slots| && b[i].slots[j].Used?
    ensures Contents(WithSlot(b, i, j, Free)) + multiset{b[i].slots[j].entry} == Contents(b)
  {
    ContentsSlot(b, i, j, Free);
    assert Contents(b) + multiset{} == Contents(b);
  }

  lemma Cancel<T>(c: multiset<T>, c': multiset<T>, u: multiset<T>, v: multiset<T>, o: multiset<T>, p: multiset<T>)
    requires c' + u == c + v && v + o == u + p
    ensures c' + o == c + p
  {
    forall x ensures (c' + o)[x] == (c + p)[x] {
      assert (c' + u)[x] == (c + v)[x] && (v + o)[x] == (u + p)[x];
    }
  }

  lemma {:induction false} ContentsMember(b: seq<Bucket>, e: Entry)
    ensures e in Contents(b) <==>
            exists i, j :: 0 <= i < |b| && 0 <= j < |b[i].slots| && b[i].slots[j].Used? && b[i].slots[j].entry == e
  {
    if b != [] {
      ContentsMember(b[1..], e);
      EntriesMember(b[0].slots, e);
      if e in Contents(b) && e in Contents(b[1..]) {
        var i, j :| 0 <= i < |b[1..]| && 0 <= j < |b[1..][i].slots| && b[1..][i].slots[j].Used?
                    && b[1..][i].slots[j].entry == e;
        assert b[i + 1].slots[j].entry == e;
      }
      if i, j :| 0 <= i < |b| && 0 <= j < |b[i].slots| && b[i].slots[j].Used? && b[i].slots[j].entry == e {
        if i > 0 {
          assert b[1..][i - 1].slots[j].entry == e;
        }
      }
    }
  }

  // ---- one slot -------------------------------------------------------------------------

  function WithSlot(b: seq<Bucket>, i: nat, j: nat, slot: Slot): seq<Bucket>
    requires i < |b| && j < |b[i].slots|
  {
    b[i := b[i].(slots := b[i].slots[j := slot])]
  }

  /** A slot of a regular bucket changes nothing the stash index depends on. */
  lemma RegularSlot(b: seq<Bucket>, n: nat, s: nat, i: nat, j: nat, slot: Slot)
    requires Shape(b, n, s) && AllPlaced(b, n)
    requires i < n && j < s && Placed(slot, i, n)
    ensures var c := WithSlot(b, i, j, slot);
            && Shape(c, n, s) && AllPlaced(c, n)
            && (forall h | 0 <= h < n :: Stashed(c, h, n) == Stashed(b, h, n))
            && (forall h, e | 0 <= h < n :: IndexOk(c, h, n, e) <==> IndexOk(b, h, n, e))
  {
    hide SpotsOf, RefSpots, StashedFrom;
    var c := WithSlot(b, i, j, slot);
    forall h | 0 <= h < n ensures Stashed(c, h, n) == Stashed(b, h, n) {
      StashedSame(b, c, n, h, 0);
    }
    forall h, e | 0 <= h < n ensures IndexOk(c, h, n, e) <==> IndexOk(b, h, n, e) {
      assert c[h].refs == b[h].refs && c[NextBid(h, n)].refs == b[NextBid(h, n)].refs;
      assert Pointed(c, h, n) == Pointed(b, h, n);
    }
  }

  lemma StashedHere(b: seq<Bucket>, n: nat, p: nat, j: nat, slot: Slot, h: nat)
    requires n > 0 && n + p < |b| && j < |b[n + p].slots|
    ensures StashedFrom(WithSlot(b, n + p, j, slot), h, n, p) + OneSpot(b[n + p].slots[j], h, p, n)
            == StashedFrom(b, h, n, p) + OneSpot(slot, h, p, n)
  {
    hide SpotsOf, OneSpot;
    var c := WithSlot(b, n + p, j, slot);
    var slots := b[n + p].slots;
    assert c[n + p].slots == slots[j := slot];
    SpotsUpdate(slots, j, slot, h, p, n);
    StashedSame(b, c, n, h, p + 1);
    RegroupLeft(SpotsOf(slots, h, p, n), SpotsOf(slots[j := slot], h, p, n), OneSpot(slots[j], h, p, n),
                OneSpot(slot, h, p, n), StashedFrom(b, h, n, p + 1));
  }

  lemma RegroupLeft<T>(x: multiset<T>, x': multiset<T>, o: multiset<T>, o': multiset<T>, y: multiset<T>)
    requires x' + o == x + o'
    ensures (x' + y) + o == (x + y) + o'
  {
    assert (x' + y) + o == (x' + o) + y;
  }

  lemma {:induction false} StashedUpdate(b: seq<Bucket>, n: nat, pos: nat, j: nat, slot: Slot, h: nat, p: nat)
    requires n > 0 && p <= pos && n + pos < |b| && j < |b[n + pos].slots|
    ensures StashedFrom(WithSlot(b, n + pos, j, slot), h, n, p) + OneSpot(b[n + pos].slots[j], h, pos, n)
            == StashedFrom(b, h, n, p) + OneSpot(slot, h, pos, n)
    decreases pos - p
  {
    hide SpotsOf, OneSpot;
    if p == pos {
      StashedHere(b, n, p, j, slot, h);
    } else {
      StashedUpdate(b, n, pos, j, slot, h, p + 1);
      var c := WithSlot(b, n + pos, j, slot);
      assert c[n + p] == b[n + p];
      Regroup(SpotsOf(b[n + p].slots, h, p, n), StashedFrom(c, h, n, p + 1), OneSpot(b[n + pos].slots[j], h, pos, n),
              StashedFrom(b, h, n, p + 1), OneSpot(slot, h, pos, n));
    }
  }

  lemma {:induction false} StashedSame(b: seq<Bucket>, c: seq<Bucket>, n: nat, h: nat, p: nat)
    requires n > 0 && |b| == |c|
    requires forall i | n + p <= i < |b| :: c[i].slots == b[i].slots
    ensures StashedFrom(c, h, n, p) == StashedFrom(b, h, n, p)
    decreases |b| - p
  {
    if n + p < |b| {
      StashedSame(b, c, n, h, p + 1);
    }
  }

  /** A slot of a stash bucket changes the spots of its entry's home, and nothing else. */
  lemma StashSlot(b: seq<Bucket>, n: nat, s: nat, pos: nat, j: nat, slot: Slot)
    requires Shape(b, n, s) && AllPlaced(b, n)
    requires pos < STASH_NUM && j < s && Placed(slot, n + pos, n)
    ensures var c := WithSlot(b, n + pos, j, slot);
            && Shape(c, n, s) && AllPlaced(c, n)
            && (forall h | 0 <= h < n ::
                  Stashed(c, h, n) + OneSpot(b[n + pos].slots[j], h, pos, n)
                  == Stashed(b, h, n) + OneSpot(slot, h, pos, n))
            && (forall h, e | 0 <= h < n :: IndexOk(c, h, n, e) <==> IndexOk(b, h, n, e))
  {
    var c := WithSlot(b, n + pos, j, slot);
    forall h | 0 <= h < n
      ensures Stashed(c, h, n) + OneSpot(b[n + pos].slots[j], h, pos, n)
              == Stashed(b, h, n) + OneSpot(slot, h, pos, n)
    {
      StashedUpdate(b, n, pos, j, slot, h, 0);
    }
    forall h, e | 0 <= h < n ensures IndexOk(c, h, n, e) <==> IndexOk(b, h, n, e) {
      assert c[h].refs == b[h].refs && c[NextBid(h, n)].refs == b[NextBid(h, n)].refs;
      assert Pointed(c, h, n) == Pointed(b, h, n);
    }
  }

  // ---- stash pointers -------------------------------------------------------------------

  function WithPtr(b: seq<Bucket>, h: nat, n: nat, pos: nat, fp: nat): seq<Bucket>
    requires h < n <= |b|
  {
    var (t, x) := SetStashPtr(b[h], b[NextBid(h, n)], pos, fp);
    WithPair(b, h, n, t, x)
  }

  function WithoutPtr(b: seq<Bucket>, h: nat, n: nat, pos: nat, fp: nat): seq<Bucket>
    requires h < n <= |b|
  {
    var (t, x, _) := UnsetStashPtr(b[h], b[NextBid(h, n)], pos, fp);
    WithPair(b, h, n, t, x)
  }

  /** Only pointers and flags differ. */
  ghost predicate SameSlots(b: seq<Bucket>, c: seq<Bucket>) {
    && |c| == |b|
    && forall i | 0 <= i < |b| :: c[i].slots == b[i].slots && |c[i].refs| == |b[i].refs|
  }

  lemma SameSlotsKeeps(b: seq<Bucket>, c: seq<Bucket>, n: nat, s: nat)
    requires Shape(b, n, s) && AllPlaced(b, n) && SameSlots(b, c)
    ensures Shape(c, n, s) && AllPlaced(c, n) && Contents(c) == Contents(b)
    ensures forall h | 0 <= h < n :: Stashed(c, h, n) == Stashed(b, h, n)
  {
    SameSlotsContents(b, c);
    forall h | 0 <= h < n ensures Stashed(c, h, n) == Stashed(b, h, n) {
      StashedSame(b, c, n, h, 0);
    }
  }

  lemma {:induction false} SameSlotsContents(b: seq<Bucket>, c: seq<Bucket>)
    requires SameSlots(b, c)
    ensures Contents(c) == Contents(b)
  {
    if b != [] {
      SameSlotsContents(b[1..], c[1..]);
    }
  }

  lemma {:induction false} SizeIsEntries(slots: seq<Slot>)
    ensures |EntriesOf(slots)| == Size(slots)
  {
    if slots != [] {
      SizeIsEntries(slots[1..]);
    }
  }

  /** What the pointers held by a bucket and by its successor say about the former. */
  ghost function PairSpots(t: Bucket, x: Bucket): multiset<Spot> {
    RefSpots(t.refs, false) + RefSpots(x.refs, true)
  }

  /** A bucket pair before and after a change that concerns the first bucket only. */
  ghost predicate PairFrame(t: Bucket, x: Bucket, t': Bucket, x': Bucket) {
    && t'.slots == t.slots && |t'.refs| == |t.refs|
    && x'.slots == x.slots && |x'.refs| == |x.refs|
    && x'.present == x.present && x'.overflow == x.overflow
    && RefSpots(t'.refs, true) == RefSpots(t.refs, true)
    && RefSpots(x'.refs, false) == RefSpots(x.refs, false)
  }

  lemma RefAdd(refs: seq<StashRef>, i: nat, pos: nat, fp: nat, probe: bool)
    requires i < |refs| && refs[i].Unset?
    ensures var r := refs[i := Ref(pos, fp, probe)];
            && RefSpots(r, probe) == RefSpots(refs, probe) + multiset{(pos, fp)}
            && RefSpots(r, !probe) == RefSpots(refs, !probe)
  {
    RefUpdate(refs, i, Ref(pos, fp, probe), probe);
    RefUpdate(refs, i, Ref(pos, fp, probe), !probe);
    var r := refs[i := Ref(pos, fp, probe)];
    assert RefSpots(r, probe) + multiset{} == RefSpots(r, probe);
    assert RefSpots(r, !probe) + multiset{} == RefSpots(r, !probe);
    assert RefSpots(refs, !probe) + multiset{} == RefSpots(refs, !probe);
  }

  lemma RefRemove(refs: seq<StashRef>, i: nat)
    requires i < |refs| && refs[i].Ref?
    ensures var (r, o) := (refs[i := Unset], refs[i]);
            && RefSpots(r, o.probe) + multiset{(o.pos, o.fp)} == RefSpots(refs, o.probe)
            && RefSpots(r, !o.probe) == RefSpots(refs, !o.probe)
  {
    var r, probe := refs[i := Unset], refs[i].probe;
    RefUpdate(refs, i, Unset, probe);
    RefUpdate(refs, i, Unset, !probe);
    assert RefSpots(refs, probe) + multiset{} == RefSpots(refs, probe);
    assert RefSpots(r, !probe) + multiset{} == RefSpots(r, !probe);
    assert RefSpots(refs, !probe) + multiset{} == RefSpots(refs, !probe);
  }

  lemma SetPair(t: Bucket, x: Bucket, pos: nat, fp: nat)
    ensures var (t', x') := SetStashPtr(t, x, pos, fp);
            && PairFrame(t, x, t', x') && t'.present
            && (|| (t'.overflow == t.overflow && PairSpots(t', x') == PairSpots(t, x) + multiset{(pos, fp)})
                || (t'.overflow == t.overflow + 1 && PairSpots(t', x') == PairSpots(t, x)))
  {
    var i, j := FirstUnset(t.refs), FirstUnset(x.refs);
    if i < |t.refs| {
      RefAdd(t.refs, i, pos, fp, false);
    } else if j < |x.refs| {
      RefAdd(x.refs, j, pos, fp, true);
    }
  }

  lemma DropFrame(t: Bucket, x: Bucket, pos: nat, fp: nat)
    ensures var (t', x', _) := DropPtr(t, x, pos, fp);
            PairFrame(t, x, t', x') && t'.present == t.present
  {
    var i := FirstMatch(t.refs, Ref(pos, fp, false));
    var j := FirstMatch(x.refs, Ref(pos, fp, true));
    if i < |t.refs| {
      RefRemove(t.refs, i);
    } else if j < |x.refs| {
      RefRemove(x.refs, j);
    }
  }

  /** Either a pointer to the spot goes, or no pointer names it and overflow is counted down. */
  lemma DropSpots(t: Bucket, x: Bucket, pos: nat, fp: nat)
    ensures var (t', x', _) := DropPtr(t, x, pos, fp);
            if (pos, fp) in PairSpots(t, x)
            then t'.overflow == t.overflow && PairSpots(t', x') + multiset{(pos, fp)} == PairSpots(t, x)
            else t'.overflow == (if t.overflow == 0 then 0 else t.overflow - 1) && PairSpots(t', x') == PairSpots(t, x)
  {
    var own, other, one := RefSpots(t.refs, false), RefSpots(x.refs, true), multiset{(pos, fp)};
    var i := FirstMatch(t.refs, Ref(pos, fp, false));
    var j := FirstMatch(x.refs, Ref(pos, fp, true));
    RefMember(t.refs, false, (pos, fp));
    RefMember(x.refs, true, (pos, fp));
    if i < |t.refs| {
      RefRemove(t.refs, i);
      Rotate(RefSpots(t.refs[i := Unset], false), one, other);
    } else if j < |x.refs| {
      RefRemove(x.refs, j);
      Rotate(RefSpots(x.refs[j := Unset], true), one, own);
    }
  }

  lemma Rotate<T>(a: multiset<T>, o: multiset<T>, b: multiset<T>)
    ensures (a + b) + o == (a + o) + b && (b + a) + o == b + (a + o)
  {
  }

  lemma PairEmpty(t: Bucket, x: Bucket)
    ensures PairSpots(t, x) != multiset{} <==> AnyRef(t.refs, false) || AnyRef(x.refs, true)
  {
    RefEmpty(t.refs, false);
    RefEmpty(x.refs, true);
    var own, other := RefSpots(t.refs, false), RefSpots(x.refs, true);
    assert |own + other| == |own| + |other|;
  }

  /** The pair's index accounts for exactly the spots `e`. */
  ghost predicate PairOk(t: Bucket, x: Bucket, e: multiset<Spot>) {
    && PairSpots(t, x) <= e
    && |e| == |PairSpots(t, x)| + t.overflow
    && (t.present <==> e != multiset{})
  }

  lemma SetPairOk(t: Bucket, x: Bucket, pos: nat, fp: nat, e: multiset<Spot>)
    requires PairOk(t, x, e)
    ensures var (t', x') := SetStashPtr(t, x, pos, fp);
            PairFrame(t, x, t', x') && PairOk(t', x', e + multiset{(pos, fp)})
  {
    SetPair(t, x, pos, fp);
  }

  /** Spots `s` are pointed to and `o` of `e` are only counted; one of `e` goes, with its pointer or else with a
      count. */
  lemma OneGoes(s: multiset<Spot>, r: multiset<Spot>, e: multiset<Spot>, z: Spot, o: nat, o': nat)
    requires s <= e && |e| == |s| + o && z in e
    requires if z in s then o' == o && r + multiset{z} == s else o' == (if o == 0 then 0 else o - 1) && r == s
    ensures r <= e - multiset{z} && |e - multiset{z}| == |r| + o'
    ensures e - multiset{z} != multiset{} <==> r != multiset{} || o' > 0
  {
    if z !in s {
      // No pointer names the spot, so it is one of those that are only counted.
      SubMultisetGap(s, e, z);
    }
  }

  lemma UnsetPairOk(t: Bucket, x: Bucket, pos: nat, fp: nat, e: multiset<Spot>)
    requires PairOk(t, x, e) && (pos, fp) in e
    ensures var (t', x', _) := UnsetStashPtr(t, x, pos, fp);
            PairFrame(t, x, t', x') && PairOk(t', x', e - multiset{(pos, fp)})
  {
    hide RefSpots, DropPtr, AnyRef;
    DropFrame(t, x, pos, fp);
    DropSpots(t, x, pos, fp);
    var (d, y, _) := DropPtr(t, x, pos, fp);
    OneGoes(PairSpots(t, x), PairSpots(d, y), e, (pos, fp), t.overflow, d.overflow);
    PairEmpty(d, y);
    var (t', x', _) := UnsetStashPtr(t, x, pos, fp);
    assert PairSpots(t', x') == PairSpots(d, y);
    hide PairSpots;
  }

  /** Replaces the buckets `h` and next-of-`h`. */
  function WithPair(b: seq<Bucket>, h: nat, n: nat, t: Bucket, x: Bucket): seq<Bucket>
    requires h < n <= |b|
  {
    b[NextBid(h, n) := x][h := t]
  }

  lemma PairKeeps(b: seq<Bucket>, n: nat, s: nat, h: nat, t: Bucket, x: Bucket, e: multiset<Spot>)
    requires Shape(b, n, s) && h < n
    requires PairFrame(b[h], b[NextBid(h, n)], t, x) && PairOk(t, x, e)
    ensures var c := WithPair(b, h, n, t, x);
            && SameSlots(b, c)
            && IndexOk(c, h, n, e)
            && forall g, f | 0 <= g < n && g != h :: IndexOk(c, g, n, f) <==> IndexOk(b, g, n, f)
  {
    hide RefSpots;
    OthersKeep(b, WithPair(b, h, n, t, x), n, h);
  }

  lemma SetPtrKeeps(b: seq<Bucket>, n: nat, s: nat, h: nat, pos: nat, fp: nat, e: multiset<Spot>)
    requires Shape(b, n, s) && h < n && IndexOk(b, h, n, e)
    ensures var c := WithPtr(b, h, n, pos, fp);
            && SameSlots(b, c)
            && IndexOk(c, h, n, e + multiset{(pos, fp)})
            && forall g, f | 0 <= g < n && g != h :: IndexOk(c, g, n, f) <==> IndexOk(b, g, n, f)
  {
    SetPairOk(b[h], b[NextBid(h, n)], pos, fp, e);
    var (t, x) := SetStashPtr(b[h], b[NextBid(h, n)], pos, fp);
    PairKeeps(b, n, s, h, t, x, e + multiset{(pos, fp)});
  }

  lemma UnsetPtrKeeps(b: seq<Bucket>, n: nat, s: nat, h: nat, pos: nat, fp: nat, e: multiset<Spot>)
    requires Shape(b, n, s) && h < n && IndexOk(b, h, n, e) && (pos, fp) in e
    ensures var c := WithoutPtr(b, h, n, pos, fp);
            && SameSlots(b, c)
            && IndexOk(c, h, n, e - multiset{(pos, fp)})
            && forall g, f | 0 <= g < n && g != h :: IndexOk(c, g, n, f) <==> IndexOk(b, g, n, f)
  {
    UnsetPairOk(b[h], b[NextBid(h, n)], pos, fp, e);
    var (t, x, _) := UnsetStashPtr(b[h], b[NextBid(h, n)], pos, fp);
    PairKeeps(b, n, s, h, t, x, e - multiset{(pos, fp)});
  }

  /** A change of the own pointers of `h` and of the next bucket's probing pointers is invisible
      to every other home. */
  lemma OthersKeep(b: seq<Bucket>, c: seq<Bucket>, n: nat, h: nat)
    requires 2 <= n <= |b| == |c| && h < n
    requires forall i | 0 <= i < n :: i != h ==> c[i].present == b[i].present && c[i].overflow == b[i].overflow
    requires forall i | 0 <= i < n :: i != h ==> RefSpots(c[i].refs, false) == RefSpots(b[i].refs, false)
    requires forall i | 0 <= i < n :: i != NextBid(h, n) ==> RefSpots(c[i].refs, true) == RefSpots(b[i].refs, true)
    ensures forall g, f | 0 <= g < n && g != h :: IndexOk(c, g, n, f) <==> IndexOk(b, g, n, f)
  {
    forall g, f | 0 <= g < n && g != h ensures IndexOk(c, g, n, f) <==> IndexOk(b, g, n, f) {
      assert NextBid(g, n) != NextBid(h, n);
      assert Pointed(c, g, n) == Pointed(b, g, n);
    }
  }

  lemma SubMultisetGap<T>(a: multiset<T>, e: multiset<T>, x: T)
    requires a <= e && x in e && x !in a
    ensures |a| < |e|
  {
    var rest := e - a;
    assert e == a + rest;
    assert x in rest;
  }

  lemma SubMultisetFull<T>(a: multiset<T>, e: multiset<T>)
    requires a <= e && |a| == |e|
    ensures a == e
  {
    assert e == a + (e - a);
    assert |e - a| == 0;
  }

  /** A stash entry contributes its spot to its home bucket. */
  lemma StashedSpot(b: seq<Bucket>, n: nat, s: nat, pos: nat, j: nat)
    requires Shape(b, n, s) && pos < STASH_NUM && j < s && b[n + pos].slots[j].Used?
    ensures var k := b[n + pos].slots[j].entry.key;
            (pos, Fp(k.hash)) in Stashed(b, Home(k.hash, n), n)
  {
    var k := b[n + pos].slots[j].entry.key;
    var spot := (pos, Fp(k.hash));
    SpotsMember(b[n + pos].slots, j, Home(k.hash, n), pos, n);
    StashedMember(b, n, Home(k.hash, n), pos, spot, 0);
  }

  lemma {:induction false} StashedMember(b: seq<Bucket>, n: nat, h: nat, pos: nat, spot: Spot, p: nat)
    requires n > 0 && p <= pos && n + pos < |b|
    requires spot in SpotsOf(b[n + pos].slots, h, pos, n)
    ensures spot in StashedFrom(b, h, n, p)
    decreases pos - p
  {
    hide SpotsOf;
    if p < pos {
      StashedMember(b, n, h, pos, spot, p + 1);
    }
  }

  lemma {:induction false} SpotsPos(slots: seq<Slot>, h: nat, pos: nat, n: nat, spot: Spot)
    requires n > 0 && spot in SpotsOf(slots, h, pos, n)
    ensures spot.0 == pos
  {
    if spot !in OneSpot(slots[0], h, pos, n) {
      SpotsPos(slots[1..], h, pos, n, spot);
    }
  }

  lemma {:induction false} StashedPos(b: seq<Bucket>, n: nat, h: nat, spot: Spot, p: nat)
    requires n > 0 && spot in StashedFrom(b, h, n, p)
    ensures n + spot.0 < |b|
    decreases |b| - p
  {
    if spot in SpotsOf(b[n + p].slots, h, p, n) {
      SpotsPos(b[n + p].slots, h, p, n, spot);
    } else {
      StashedPos(b, n, h, spot, p + 1);
    }
  }

  /** Every pointer that speaks for `h` names one of the stash buckets. */
  lemma PointerInRange(b: seq<Bucket>, n: nat, s: nat, h: nat, r: StashRef)
    requires Inv(b, n, s) && h < n && r.Ref?
    requires if r.probe then r in b[NextBid(h, n)].refs else r in b[h].refs
    ensures r.pos < STASH_NUM
  {
    var spot := (r.pos, r.fp);
    RefMember(b[h].refs, false, spot);
    RefMember(b[NextBid(h, n)].refs, true, spot);
    assert spot in Pointed(b, h, n);
    assert IndexOk(b, h, n, Stashed(b, h, n));
    assert spot in Stashed(b, h, n);
    StashedPos(b, n, h, spot, 0);
  }

  /** An entry in the stash is announced by its home bucket: the presence bit is set, and unless
      the home counts overflow, a pointer held by the home or its successor names its spot. */
  lemma StashReachable(b: seq<Bucket>, n: nat, s: nat, pos: nat, j: nat)
    requires Inv(b, n, s) && pos < STASH_NUM && j < s && b[n + pos].slots[j].Used?
    ensures var k := b[n + pos].slots[j].entry.key;
            var h := Home(k.hash, n);
            && b[h].present
            && (|| b[h].overflow > 0
                || Ref(pos, Fp(k.hash), false) in b[h].refs
                || Ref(pos, Fp(k.hash), true) in b[NextBid(h, n)].refs)
  {
    var k := b[n + pos].slots[j].entry.key;
    var h, spot := Home(k.hash, n), (pos, Fp(k.hash));
    StashedSpot(b, n, s, pos, j);
    assert IndexOk(b, h, n, Stashed(b, h, n));
    if b[h].overflow == 0 {
      SubMultisetFull(Pointed(b, h, n), Stashed(b, h, n));
      RefMember(b[h].refs, false, spot);
      RefMember(b[NextBid(h, n)].refs, true, spot);
    }
  }
}
