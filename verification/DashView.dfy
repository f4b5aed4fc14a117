/** What a dash table stores, seen through its directory: every entry is in the segment that the
    high bits of its hash select. */
module DashView {
  import opened Arith
  import opened Keys
  import opened DashBucket
  import opened DashDirectory
  import opened DashSplit

  /** For each directory slot: the segment it names, its local depth and its contents. */
  datatype View<T> = View(g: nat, ids: seq<T>, ds: seq<nat>, cs: seq<multiset<Entry>>)

  lemma HashBound(h: Hash, g: nat)
    requires g <= 64
    ensures Prefix(h, g) < Pow2(g)
  {
    Pow2Of64();
    if g < 64 {
      ShrBound(h, g, 64 - g);
    }
  }

  /** Dropping the low bits of the slot a hash selects leaves a shorter prefix of the hash. */
  lemma PrefixShr(h: Hash, g: nat, d: nat)
    requires d <= g <= 64
    ensures Shr(Prefix(h, g), g - d) == Prefix(h, d)
  {
    if g < 64 {
      ShrShr(h, 64 - g, g - d);
    }
  }

  ghost predicate ViewOk<T>(v: View<T>) {
    && v.g <= 64 && DirOk(v.ids, v.ds, v.g) && |v.cs| == |v.ids|
    && (forall i, j | 0 <= i < |v.ids| && 0 <= j < |v.ids| :: v.ids[i] == v.ids[j] ==> v.cs[i] == v.cs[j])
    && (forall i, e | 0 <= i < |v.ids| && e in v.cs[i] :: InSlot(v, i, e))
  }

  /** The slot the entry's hash selects names the same segment as slot `i`. */
  ghost predicate InSlot<T>(v: View<T>, i: nat, e: Entry)
    requires i < |v.ids|
  {
    var p := Prefix(e.key.hash, v.g);
    p < |v.ids| && v.ids[p] == v.ids[i]
  }

  /** How often the table holds an entry; all copies are in the segment its hash selects. */
  ghost function Count<T>(v: View<T>, e: Entry): nat {
    var p := Prefix(e.key.hash, v.g);
    if p < |v.cs| then v.cs[p][e] else 0
  }

  ghost predicate HasKey<T>(v: View<T>, k: Key) {
    exists e: Entry :: e.key == k && Count(v, e) > 0
  }

  ghost predicate SameCounts<T>(v: View<T>, w: View<T>) {
    forall e: Entry :: Count(w, e) == Count(v, e)
  }

  /** Slot j of the new directory is no shallower than the slot it grew from. */
  ghost predicate AsDeep<T>(v: View<T>, w: View<T>, j: nat)
    requires w.g >= v.g && j < |w.ds|
  {
    var i := Shr(j, w.g - v.g);
    i < |v.ds| && v.ds[i] <= w.ds[j]
  }

  /** The directory may have been deepened, and its chunks may have been split. */
  ghost predicate Grew<T>(v: View<T>, w: View<T>) {
    w.g >= v.g && forall j | 0 <= j < |w.ds| :: AsDeep(v, w, j)
  }

  lemma GrewTwice<T>(v: View<T>, w: View<T>, x: View<T>)
    requires Grew(v, w) && Grew(w, x)
    ensures Grew(v, x)
  {
    hide Shr;
    forall j | 0 <= j < |x.ds| ensures AsDeep(v, x, j) {
      ShrShr(j, x.g - w.g, w.g - v.g);
      assert AsDeep(w, x, j);
      assert AsDeep(v, w, Shr(j, x.g - w.g));
    }
  }

  /** Same directory, every slot at least as deep. */
  lemma GrewInPlace<T>(v: View<T>, w: View<T>)
    requires w.g == v.g && |w.ds| == |v.ds| && forall j | 0 <= j < |v.ds| :: w.ds[j] >= v.ds[j]
    ensures Grew(v, w)
  {
    forall j | 0 <= j < |w.ds| ensures AsDeep(v, w, j) {
      assert Shr(j, 0) == j;
    }
  }

  lemma GrewDeeper<T>(v: View<T>, w: View<T>, k: nat)
    requires w.g == v.g + k && Replicated(v.ds, w.ds, v.g, k)
    ensures Grew(v, w)
  {
    hide Shr;
  }

  /** An entry found in any slot is counted. */
  lemma CountedAnywhere<T>(v: View<T>, i: nat, e: Entry)
    requires ViewOk(v) && i < |v.ids| && e in v.cs[i]
    ensures Count(v, e) == v.cs[i][e] > 0
  {
    assert InSlot(v, i, e);
  }

  // ---- growth ---------------------------------------------------------------------------

  lemma GrowView<T>(v: View<T>, w: View<T>, k: nat)
    requires ViewOk(v) && w.g == v.g + k <= 64
    requires Replicated(v.ids, w.ids, v.g, k) && Replicated(v.ds, w.ds, v.g, k) && Replicated(v.cs, w.cs, v.g, k)
    ensures ViewOk(w) && SameCounts(v, w)
  {
    hide Shr, Prefix, Pow2;
    GrowKeeps(v.ids, v.ds, v.g, w.ids, w.ds, k);
    hide DirOk;
    assert |v.ids| == |v.ds| == Pow2(v.g) && |w.ids| == Pow2(w.g);
    forall i, e | 0 <= i < |w.ids| && e in w.cs[i] ensures InSlot(w, i, e) {
      assert InSlot(v, Shr(i, k), e);
      HashBound(e.key.hash, w.g);
      PrefixShr(e.key.hash, w.g, v.g);
    }
    forall e: Entry ensures Count(w, e) == Count(v, e) {
      HashBound(e.key.hash, v.g);
      HashBound(e.key.hash, w.g);
      PrefixShr(e.key.hash, w.g, v.g);
    }
  }

  // ---- splitting ------------------------------------------------------------------------

  /** The chunk of slot `s` is halved, and its contents are parted by the bit the new depth adds. */
  ghost predicate SplitView<T>(v: View<T>, w: View<T>, s: nat, t: T, low: multiset<Entry>, high: multiset<Entry>)
    requires ViewOk(v) && s < |v.ids| && v.ds[s] < v.g
  {
    var k := v.g - v.ds[s];
    && w.g == v.g && Halved(v.ids, v.ds, v.g, s, t, w.ids, w.ds) && |w.cs| == |v.cs|
    && (forall j | 0 <= j < |v.ids| ::
          w.cs[j] == if !SameChunk(s, j, k) then v.cs[j] else if Shr(j, k - 1) % 2 == 1 then high else low)
    && Parted(v.cs[s], multiset{}, low, high, v.ds[s] + 1)
  }

  lemma SplitGrew<T>(v: View<T>, w: View<T>, s: nat, t: T, low: multiset<Entry>, high: multiset<Entry>)
    requires ViewOk(v) && s < |v.ids| && v.ds[s] < v.g
    requires SplitView(v, w, s, t, low, high)
    ensures Grew(v, w)
  {
    hide Shr, Pow2, Parted, InSlot;
    forall j | 0 <= j < |v.ds| ensures w.ds[j] >= v.ds[j] {
      assert v.ids[s] == v.ids[j] <==> SameChunk(s, j, v.g - v.ds[s]);
    }
    GrewInPlace(v, w);
  }

  lemma SplitKeeps<T>(v: View<T>, w: View<T>, s: nat, t: T, low: multiset<Entry>, high: multiset<Entry>)
    requires ViewOk(v) && s < |v.ids| && v.ds[s] < v.g && t !in v.ids
    requires SplitView(v, w, s, t, low, high)
    ensures ViewOk(w) && SameCounts(v, w)
  {
    hide Shr, SameChunk, Prefix, Pow2, InSlot, Count;
    HalvedKeeps(v.ids, v.ds, v.g, s, t, w.ids, w.ds);
    forall i, j | 0 <= i < |w.ids| && 0 <= j < |w.ids| && w.ids[i] == w.ids[j] ensures w.cs[i] == w.cs[j] {
      SplitSameSeg(v, w, s, t, low, high, i, j);
    }
    forall i, e | 0 <= i < |w.ids| && e in w.cs[i] ensures InSlot(w, i, e) {
      SplitInSlot(v, w, s, t, low, high, i, e);
    }
    forall e: Entry ensures Count(w, e) == Count(v, e) {
      SplitCount(v, w, s, t, low, high, e);
    }
  }

  /** What the split makes of slot `j`. */
  lemma SplitAt<T>(v: View<T>, w: View<T>, s: nat, t: T, low: multiset<Entry>, high: multiset<Entry>, j: nat)
    requires ViewOk(v) && s < |v.ids| && v.ds[s] < v.g && SplitView(v, w, s, t, low, high) && j < |v.ids|
    ensures |w.ids| == |v.ids| == |w.cs| == |v.cs| && w.g == v.g <= 64
    ensures v.ids[j] != v.ids[s] ==> w.ids[j] == v.ids[j] && w.cs[j] == v.cs[j]
    ensures v.ids[j] == v.ids[s] ==>
              && v.cs[j] == v.cs[s]
              && if Shr(j, v.g - v.ds[s] - 1) % 2 == 1 then w.ids[j] == t && w.cs[j] == high
                 else w.ids[j] == v.ids[s] && w.cs[j] == low
  {
    hide Shr, SameChunk, Parted, Pow2, InSlot;
    assert v.ids[s] == v.ids[j] <==> SameChunk(s, j, v.g - v.ds[s]);
  }

  lemma SplitSameSeg<T>(v: View<T>, w: View<T>, s: nat, t: T, low: multiset<Entry>, high: multiset<Entry>, i: nat,
                        j: nat)
    requires ViewOk(v) && s < |v.ids| && v.ds[s] < v.g && t !in v.ids && SplitView(v, w, s, t, low, high)
    requires i < |v.ids| && j < |v.ids| && w.ids[i] == w.ids[j]
    ensures w.cs[i] == w.cs[j]
  {
    hide SplitView, DirOk, Shr, InSlot;
    SplitAt(v, w, s, t, low, high, i);
    SplitAt(v, w, s, t, low, high, j);
  }

  /** Where an entry is counted, before and after its segment was split. */
  lemma SplitHome<T>(v: View<T>, w: View<T>, s: nat, t: T, low: multiset<Entry>, high: multiset<Entry>, e: Entry)
    requires ViewOk(v) && s < |v.ids| && v.ds[s] < v.g && SplitView(v, w, s, t, low, high)
    ensures var p := Prefix(e.key.hash, v.g);
            && p < |v.ids| == |w.ids| == |w.cs| == |v.cs| && w.g == v.g
            && (v.ids[p] != v.ids[s] ==> w.ids[p] == v.ids[p] && w.cs[p] == v.cs[p])
            && (v.ids[p] == v.ids[s] ==>
                  && v.cs[p] == v.cs[s]
                  && if IsMine(e.key.hash, v.ds[s] + 1) then w.ids[p] == v.ids[s] && w.cs[p] == low
                     else w.ids[p] == t && w.cs[p] == high)
  {
    hide SplitView, SameChunk, Shr, InSlot, Prefix;
    HashBound(e.key.hash, v.g);
    PrefixShr(e.key.hash, v.g, v.ds[s] + 1);
    SplitAt(v, w, s, t, low, high, Prefix(e.key.hash, v.g));
  }

  lemma SplitInSlot<T>(v: View<T>, w: View<T>, s: nat, t: T, low: multiset<Entry>, high: multiset<Entry>, i: nat,
                       e: Entry)
    requires ViewOk(v) && s < |v.ids| && v.ds[s] < v.g && t !in v.ids && SplitView(v, w, s, t, low, high)
    requires i < |v.ids| && e in w.cs[i]
    ensures InSlot(w, i, e)
  {
    SplitAt(v, w, s, t, low, high, i);
    SplitHome(v, w, s, t, low, high, e);
    PartedAt(v.cs[s], low, high, v.ds[s] + 1, e);
    hide SplitView, DirOk, Shr, Prefix, IsMine;
    assert InSlot(v, i, e);
  }

  lemma SplitCount<T>(v: View<T>, w: View<T>, s: nat, t: T, low: multiset<Entry>, high: multiset<Entry>, e: Entry)
    requires ViewOk(v) && s < |v.ids| && v.ds[s] < v.g && t !in v.ids && SplitView(v, w, s, t, low, high)
    ensures Count(w, e) == Count(v, e)
  {
    hide SameChunk, Shr, Halved, Prefix, InSlot, IsMine;
    SplitHome(v, w, s, t, low, high, e);
    PartedAt(v.cs[s], low, high, v.ds[s] + 1, e);
  }

  lemma PartedAt(src: multiset<Entry>, low: multiset<Entry>, high: multiset<Entry>, depth: nat, e: Entry)
    requires Parted(src, multiset{}, low, high, depth)
    ensures if IsMine(e.key.hash, depth) then low[e] == src[e] && high[e] == 0 else low[e] == 0 && high[e] == src[e]
  {
    hide IsMine;
    assert low[e] == (if IsMine(e.key.hash, depth) then src[e] else 0);
  }

  // ---- merging --------------------------------------------------------------------------

  /** The chunks of the twins `x` and `y` become one that holds what both held. */
  ghost predicate MergeView<T>(v: View<T>, w: View<T>, x: nat, y: nat)
    requires ViewOk(v) && x < |v.ids| && y < |v.ids| && v.ds[x] > 0
  {
    var k := v.g - v.ds[x];
    && w.g == v.g && Joined(v.ids, v.ds, v.g, x, w.ids, w.ds) && |w.cs| == |v.cs|
    && (forall j | 0 <= j < |v.ids| ::
          w.cs[j] == if SameChunk(x, j, k + 1) then v.cs[x] + v.cs[y] else v.cs[j])
  }

  /** Slots of equal depth that differ in the lowest bit this depth uses, and only there. */
  ghost predicate Twins<T>(v: View<T>, x: nat, y: nat) {
    && x < |v.ids| == |v.ds| && y < |v.ids| && v.g >= v.ds[x] == v.ds[y] > 0
    && Shr(x, v.g - v.ds[x]) != Shr(y, v.g - v.ds[x]) && SameChunk(x, y, v.g - v.ds[x] + 1)
  }

  lemma MergeKeeps<T>(v: View<T>, w: View<T>, x: nat, y: nat)
    requires ViewOk(v) && Twins(v, x, y) && MergeView(v, w, x, y)
    ensures ViewOk(w) && SameCounts(v, w)
  {
    hide Shr, SameChunk, Prefix, Pow2, InSlot, Count;
    JoinedKeeps(v.ids, v.ds, v.g, x, y, w.ids, w.ds);
    forall i, j | 0 <= i < |w.ids| && 0 <= j < |w.ids| && w.ids[i] == w.ids[j] ensures w.cs[i] == w.cs[j] {
      InTwins(v.ids, v.ds, v.g, x, y, i);
      InTwins(v.ids, v.ds, v.g, x, y, j);
    }
    forall i, e | 0 <= i < |w.ids| && e in w.cs[i] ensures InSlot(w, i, e) {
      MergeInSlot(v, w, x, y, i, e);
    }
    forall e: Entry ensures Count(w, e) == Count(v, e) {
      MergeCount(v, w, x, y, e);
    }
  }

  /** What the merge makes of slot `j`. */
  lemma MergeAt<T>(v: View<T>, w: View<T>, x: nat, y: nat, j: nat)
    requires ViewOk(v) && Twins(v, x, y) && MergeView(v, w, x, y) && j < |v.ids|
    ensures |w.ids| == |v.ids| == |w.cs| == |v.cs| && w.g == v.g && v.ids[x] != v.ids[y]
    ensures if v.ids[j] == v.ids[x] || v.ids[j] == v.ids[y] then w.ids[j] == v.ids[x] && w.cs[j] == v.cs[x] + v.cs[y]
            else w.ids[j] == v.ids[j] && w.cs[j] == v.cs[j]
  {
    hide Shr, SameChunk, Pow2, InSlot;
    InTwins(v.ids, v.ds, v.g, x, y, j);
  }

  lemma MergeInSlot<T>(v: View<T>, w: View<T>, x: nat, y: nat, i: nat, e: Entry)
    requires ViewOk(v) && Twins(v, x, y) && MergeView(v, w, x, y) && i < |w.ids| && e in w.cs[i]
    ensures InSlot(w, i, e)
  {
    var p := Prefix(e.key.hash, v.g);
    HashBound(e.key.hash, v.g);
    MergeAt(v, w, x, y, i);
    MergeAt(v, w, x, y, p);
    hide MergeView, Twins, DirOk, Prefix;
    if e in v.cs[x] {
      assert InSlot(v, x, e);
    } else if e in v.cs[y] {
      assert InSlot(v, y, e);
    } else {
      assert InSlot(v, i, e);
    }
  }

  /** An entry of one twin is in none of the other's slots, so the counts add up. */
  lemma MergeCount<T>(v: View<T>, w: View<T>, x: nat, y: nat, e: Entry)
    requires ViewOk(v) && Twins(v, x, y) && MergeView(v, w, x, y)
    ensures Count(w, e) == Count(v, e)
  {
    var p := Prefix(e.key.hash, v.g);
    HashBound(e.key.hash, v.g);
    MergeAt(v, w, x, y, p);
    hide MergeView, Twins, DirOk, Prefix;
    if e in v.cs[x] {
      assert InSlot(v, x, e);
    }
    if e in v.cs[y] {
      assert InSlot(v, y, e);
    }
  }

  // ---- adding and removing one entry ----------------------------------------------------

  /** The segment the hash of `e` selects goes from holding `was` to holding `now`. */
  ghost predicate Changed<T>(v: View<T>, w: View<T>, e: Entry, now: multiset<Entry>) {
    var p := Prefix(e.key.hash, v.g);
    && w.g == v.g && w.ids == v.ids && w.ds == v.ds && |w.cs| == |v.cs| && p < |v.ids|
    && forall j | 0 <= j < |v.ids| && j < |v.cs| :: w.cs[j] == if v.ids[j] == v.ids[p] then now else v.cs[j]
  }

  lemma ChangeKeeps<T>(v: View<T>, w: View<T>, e: Entry, now: multiset<Entry>)
    requires ViewOk(v) && Changed(v, w, e, now)
    requires forall x | x in now :: x == e || x in v.cs[Prefix(e.key.hash, v.g)]
    ensures ViewOk(w)
    ensures forall x: Entry | x != e && now[x] == v.cs[Prefix(e.key.hash, v.g)][x] :: Count(w, x) == Count(v, x)
    ensures Count(w, e) == now[e]
  {
    hide Prefix, DirOk;
    var p := Prefix(e.key.hash, v.g);
    forall i, x | 0 <= i < |w.ids| && x in w.cs[i] ensures InSlot(w, i, x) {
      assert x != e || v.ids[i] != v.ids[p] ==> InSlot(v, i, x);
    }
  }
}
