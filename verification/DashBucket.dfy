/** One bucket of a dash segment: its slots, and the lossy index that says which
    stash buckets hold entries whose home is this bucket or the previous one. */
module DashBucket {
  import Arith
  import opened Keys

  const STASH_NUM := 4       // kStashBucketNum
  const STASH_FP_LEN := 4    // kStashFpLen
  const FP_RANGE := 256      // 1 << kFingerBits

  datatype Entry = Entry(key: Key, value: string)

  /** `probe` is true when the bucket hosts the entry but does not own it. */
  datatype Slot = Free | Used(entry: Entry, fp: nat, probe: bool)

  /** A stash pointer: stash bucket `pos` holds an entry with fingerprint `fp`. It speaks
      for this bucket, or for the previous one when `probe` is set. */
  datatype StashRef = Unset | Ref(pos: nat, fp: nat, probe: bool)

  datatype Bucket = Bucket(slots: seq<Slot>, refs: seq<StashRef>, present: bool, overflow: nat)

  /** What a stash pointer identifies: (stash position, fingerprint). */
  type Spot = (nat, nat)

  function Fp(h: Hash): nat { h % FP_RANGE }

  /** Remainder by repeated subtraction, which keeps the solver out of non-linear arithmetic. */
  function Rem(x: nat, n: nat): (r: nat)
    requires n > 0
    ensures r < n
  {
    if x < n then x else Rem(x - n, n)
  }

  lemma {:induction false} RemIsMod(x: nat, n: nat)
    requires n > 0
    ensures Rem(x, n) == x % n
  {
    if x >= n {
      RemIsMod(x - n, n);
      Arith.ModUnique(x, n, (x - n) / n + 1, (x - n) % n);
    }
  }

  /** HomeIndex: the bits above the fingerprint choose the bucket. */
  function Home(h: Hash, n: nat): (r: nat)
    requires n > 0
    ensures r < n
  {
    Rem(h / FP_RANGE, n)
  }

  /** A hash is its fingerprint, the bucket it is at home in, and the bits above both: two hashes with the
      same three are the same hash. */
  lemma HashParts(h: Hash, n: nat)
    requires n > 0
    ensures Fp(h) < FP_RANGE
    ensures h == (h / FP_RANGE / n * n + Home(h, n)) * FP_RANGE + Fp(h)
  {
    RemIsMod(h / FP_RANGE, n);
  }

  function NextBid(i: nat, n: nat): nat
    requires i < n
  {
    if i < n - 1 then i + 1 else 0
  }

  function PrevBid(i: nat, n: nat): nat
    requires i < n
  {
    if i > 0 then i - 1 else n - 1
  }

  function EmptyBucket(slotNum: nat): Bucket {
    Bucket(seq(slotNum, _ => Free), [Unset, Unset, Unset, Unset], false, 0)
  }

  // ---- slots ----------------------------------------------------------------------------

  /** Lowest free slot, or the number of slots when the bucket is full. */
  function FindEmptySlot(slots: seq<Slot>): (r: nat)
    ensures r <= |slots|
    ensures r < |slots| ==> slots[r].Free?
    ensures forall j :: 0 <= j < r ==> slots[j].Used?
  {
    if slots == [] then 0
    else if slots[0].Free? then 0
    else
      var r := FindEmptySlot(slots[1..]);
      assert forall j :: 0 < j < r + 1 ==> slots[j] == slots[1..][j - 1];
      r + 1
  }

  predicate IsFull(b: Bucket) { FindEmptySlot(b.slots) == |b.slots| }

  /** Number of used slots. */
  function Size(slots: seq<Slot>): (r: nat)
    ensures r <= |slots|
    ensures r == |slots| <==> FindEmptySlot(slots) == |slots|
  {
    if slots == [] then 0
    else (if slots[0].Used? then 1 else 0) + Size(slots[1..])
  }

  /** First slot whose probe bit equals `probe`; the source reads the raw bitmap, so a free
      slot counts as one that is not probing. */
  function FirstByProbe(slots: seq<Slot>, probe: bool): (r: nat)
    ensures r <= |slots|
    ensures r < |slots| ==> (slots[r].Used? && slots[r].probe) == probe
    ensures forall j :: 0 <= j < r ==> (slots[j].Used? && slots[j].probe) != probe
  {
    if slots == [] then 0
    else if (slots[0].Used? && slots[0].probe) == probe then 0
    else
      var r := FirstByProbe(slots[1..], probe);
      assert forall j :: 0 < j < r + 1 ==> slots[j] == slots[1..][j - 1];
      r + 1
  }

  // ---- stash pointers -------------------------------------------------------------------

  function FirstUnset(refs: seq<StashRef>): (r: nat)
    ensures r <= |refs|
    ensures r < |refs| ==> refs[r].Unset?
    ensures forall j :: 0 <= j < r ==> refs[j].Ref?
  {
    if refs == [] then 0
    else if refs[0].Unset? then 0
    else
      var r := FirstUnset(refs[1..]);
      assert forall j :: 0 < j < r + 1 ==> refs[j] == refs[1..][j - 1];
      r + 1
  }

  function FirstMatch(refs: seq<StashRef>, want: StashRef): (r: nat)
    ensures r <= |refs|
    ensures r < |refs| ==> refs[r] == want
    ensures forall j :: 0 <= j < r ==> refs[j] != want
  {
    if refs == [] then 0
    else if refs[0] == want then 0
    else
      var r := FirstMatch(refs[1..], want);
      assert forall j :: 0 < j < r + 1 ==> refs[j] == refs[1..][j - 1];
      r + 1
  }

  /** Records an entry of `target` placed in stash bucket `pos`: in the target's own pointer
      slots, else in those of the next bucket, else by counting an overflow. */
  function SetStashPtr(target: Bucket, next: Bucket, pos: nat, fp: nat): (Bucket, Bucket) {
    var i, j := FirstUnset(target.refs), FirstUnset(next.refs);
    if i < |target.refs| then
      (target.(refs := target.refs[i := Ref(pos, fp, false)], present := true), next)
    else if j < |next.refs| then
      (target.(present := true), next.(refs := next.refs[j := Ref(pos, fp, true)]))
    else
      (target.(overflow := target.overflow + 1, present := true), next)
  }

  /** Some pointer slot in use speaks for the bucket itself (`probe` false) or the previous one. */
  predicate AnyRef(refs: seq<StashRef>, probe: bool) {
    exists j :: 0 <= j < |refs| && refs[j].Ref? && refs[j].probe == probe
  }

  /** Drops one pointer to `pos`, or one count of overflow when no pointer names it. The third
      component is true when the pointer was held by the next bucket. */
  function DropPtr(target: Bucket, next: Bucket, pos: nat, fp: nat): (Bucket, Bucket, bool) {
    var i := FirstMatch(target.refs, Ref(pos, fp, false));
    var j := FirstMatch(next.refs, Ref(pos, fp, true));
    if i < |target.refs| then
      (target.(refs := target.refs[i := Unset]), next, false)
    else if j < |next.refs| then
      (target, next.(refs := next.refs[j := Unset]), true)
    else
      (target.(overflow := if target.overflow == 0 then 0 else target.overflow - 1), next, false)
  }

  /** Forgets one entry of `target` that lived in stash bucket `pos`, and clears the presence bit
      when nothing in the stash is left for the bucket. */
  function UnsetStashPtr(target: Bucket, next: Bucket, pos: nat, fp: nat): (Bucket, Bucket, bool) {
    var (t, x, inNext) := DropPtr(target, next, pos, fp);
    var keep := AnyRef(t.refs, false) || t.overflow > 0 || AnyRef(x.refs, true);
    (t.(present := t.present && keep), x, inNext)
  }

  // ---- the multisets the invariant compares ---------------------------------------------

  lemma Regroup<T>(a: multiset<T>, x: multiset<T>, o: multiset<T>, y: multiset<T>, p: multiset<T>)
    requires x + o == y + p
    ensures (a + x) + o == (a + y) + p
  {
    assert (a + x) + o == a + (x + o);
  }

  ghost function OneEntry(s: Slot): multiset<Entry> {
    if s.Used? then multiset{s.entry} else multiset{}
  }

  ghost function EntriesOf(slots: seq<Slot>): multiset<Entry> {
    if slots == [] then multiset{} else OneEntry(slots[0]) + EntriesOf(slots[1..])
  }

  lemma {:induction false} EntriesUpdate(slots: seq<Slot>, i: nat, s: Slot)
    requires i < |slots|
    ensures EntriesOf(slots[i := s]) + OneEntry(slots[i]) == EntriesOf(slots) + OneEntry(s)
  {
    hide OneEntry;
    var t := slots[i := s];
    if i == 0 {
      assert t[1..] == slots[1..];
    } else {
      assert t[1..] == slots[1..][i - 1 := s] && slots[1..][i - 1] == slots[i];
      EntriesUpdate(slots[1..], i - 1, s);
      Regroup(OneEntry(slots[0]), EntriesOf(t[1..]), OneEntry(slots[i]), EntriesOf(slots[1..]), OneEntry(s));
    }
  }

  lemma {:induction false} EntriesMember(slots: seq<Slot>, e: Entry)
    ensures e in EntriesOf(slots) <==> exists j :: 0 <= j < |slots| && slots[j].Used? && slots[j].entry == e
  {
    if slots != [] {
      EntriesMember(slots[1..], e);
      if e in EntriesOf(slots[1..]) {
        var j :| 0 <= j < |slots[1..]| && slots[1..][j].Used? && slots[1..][j].entry == e;
        assert slots[j + 1].Used? && slots[j + 1].entry == e;
      }
      if j :| 0 <= j < |slots| && slots[j].Used? && slots[j].entry == e {
        if j > 0 {
          assert slots[1..][j - 1].Used? && slots[1..][j - 1].entry == e;
        }
      }
    }
  }

  /** The spot a slot of stash bucket `pos` stands for, if its entry is at home in bucket `h`. */
  ghost function OneSpot(s: Slot, h: nat, pos: nat, n: nat): multiset<Spot>
    requires n > 0
  {
    if s.Used? && Home(s.entry.key.hash, n) == h then multiset{(pos, Fp(s.entry.key.hash))} else multiset{}
  }

  ghost function SpotsOf(slots: seq<Slot>, h: nat, pos: nat, n: nat): multiset<Spot>
    requires n > 0
  {
    if slots == [] then multiset{} else OneSpot(slots[0], h, pos, n) + SpotsOf(slots[1..], h, pos, n)
  }

  lemma {:induction false} SpotsUpdate(slots: seq<Slot>, i: nat, s: Slot, h: nat, pos: nat, n: nat)
    requires i < |slots| && n > 0
    ensures SpotsOf(slots[i := s], h, pos, n) + OneSpot(slots[i], h, pos, n)
         == SpotsOf(slots, h, pos, n) + OneSpot(s, h, pos, n)
  {
    hide OneSpot;
    var t := slots[i := s];
    if i == 0 {
      assert t[1..] == slots[1..];
    } else {
      assert t[1..] == slots[1..][i - 1 := s] && slots[1..][i - 1] == slots[i];
      SpotsUpdate(slots[1..], i - 1, s, h, pos, n);
      Regroup(OneSpot(slots[0], h, pos, n), SpotsOf(t[1..], h, pos, n), OneSpot(slots[i], h, pos, n),
              SpotsOf(slots[1..], h, pos, n), OneSpot(s, h, pos, n));
    }
  }

  lemma {:induction false} SpotsMember(slots: seq<Slot>, i: nat, h: nat, pos: nat, n: nat)
    requires i < |slots| && n > 0
    requires slots[i].Used? && Home(slots[i].entry.key.hash, n) == h
    ensures (pos, Fp(slots[i].entry.key.hash)) in SpotsOf(slots, h, pos, n)
  {
    if i > 0 {
      assert slots[1..][i - 1] == slots[i];
      SpotsMember(slots[1..], i - 1, h, pos, n);
    }
  }

  /** The spot one pointer speaks for, when its probe flag is `probe`. */
  ghost function RefSpot(r: StashRef, probe: bool): multiset<Spot> {
    if r.Ref? && r.probe == probe then multiset{(r.pos, r.fp)} else multiset{}
  }

  ghost function RefSpots(refs: seq<StashRef>, probe: bool): multiset<Spot> {
    if refs == [] then multiset{} else RefSpot(refs[0], probe) + RefSpots(refs[1..], probe)
  }

  lemma {:induction false} RefUpdate(refs: seq<StashRef>, i: nat, r: StashRef, probe: bool)
    requires i < |refs|
    ensures RefSpots(refs[i := r], probe) + RefSpot(refs[i], probe) == RefSpots(refs, probe) + RefSpot(r, probe)
  {
    hide RefSpot;
    var t := refs[i := r];
    if i == 0 {
      assert t[1..] == refs[1..];
    } else {
      assert t[1..] == refs[1..][i - 1 := r] && refs[1..][i - 1] == refs[i];
      RefUpdate(refs[1..], i - 1, r, probe);
      Regroup(RefSpot(refs[0], probe), RefSpots(t[1..], probe), RefSpot(refs[i], probe),
              RefSpots(refs[1..], probe), RefSpot(r, probe));
    }
  }

  lemma {:induction false} RefMember(refs: seq<StashRef>, probe: bool, spot: Spot)
    ensures spot in RefSpots(refs, probe) <==> Ref(spot.0, spot.1, probe) in refs
  {
    if refs != [] {
      RefMember(refs[1..], probe, spot);
      assert refs == [refs[0]] + refs[1..];
    }
  }

  lemma {:induction false} RefEmpty(refs: seq<StashRef>, probe: bool)
    ensures RefSpots(refs, probe) == multiset{} <==> !AnyRef(refs, probe)
  {
    if AnyRef(refs, probe) {
      var j :| 0 <= j < |refs| && refs[j].Ref? && refs[j].probe == probe;
      RefMember(refs, probe, (refs[j].pos, refs[j].fp));
    } else if RefSpots(refs, probe) != multiset{} {
      var s :| s in RefSpots(refs, probe);
      RefMember(refs, probe, s);
    }
  }
}
