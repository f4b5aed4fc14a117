/** Compound steps of a dash segment: leaving the stash, exchanging a stash entry with a regular
    one, reordering a bucket, and freeing the slots marked in a mask. */
module DashSwap {
  import opened DashBucket
  import opened DashState
  import opened DashSteps

  // ---- masks ----------------------------------------------------------------------------

  function ClearSlots(slots: seq<Slot>, mask: set<nat>): seq<Slot> {
    seq(|slots|, j requires 0 <= j < |slots| => if j in mask then Free else slots[j])
  }

  /** Bucket `i` without the slots in `mask`. */
  function Cleared(b: seq<Bucket>, i: nat, mask: set<nat>): seq<Bucket>
    requires i < |b|
  {
    b[i := b[i].(slots := ClearSlots(b[i].slots, mask))]
  }

  lemma ClearedNone(b: seq<Bucket>, i: nat)
    requires i < |b|
    ensures Cleared(b, i, {}) == b
  {
    assert ClearSlots(b[i].slots, {}) == b[i].slots;
  }

  lemma ClearedOne(b: seq<Bucket>, i: nat, mask: set<nat>, j: nat)
    requires i < |b| && j < |b[i].slots|
    ensures Cleared(b, i, mask + {j}) == WithSlot(Cleared(b, i, mask), i, j, Free)
  {
    assert ClearSlots(b[i].slots, mask + {j}) == ClearSlots(b[i].slots, mask)[j := Free];
  }

  // ---- out of the stash -----------------------------------------------------------------

  /** The stash entry is copied to slot `j` of bucket `to` and its home forgets the stash; the stash
      slot itself is still in use. */
  function Unload(b: seq<Bucket>, n: nat, s: nat, pos: nat, slot: nat, to: nat, j: nat, probe: bool): seq<Bucket>
    requires Shape(b, n, s) && pos < STASH_NUM && slot < s && b[n + pos].slots[slot].Used? && to < n && j < s
  {
    var e := b[n + pos].slots[slot].entry;
    WithoutPtr(WithSlot(b, to, j, Cell(e, probe)), Home(e.key.hash, n), n, pos, Fp(e.key.hash))
  }

  lemma UnloadShape(b: seq<Bucket>, n: nat, s: nat, pos: nat, slot: nat, to: nat, j: nat, probe: bool)
    requires Shape(b, n, s) && pos < STASH_NUM && slot < s && b[n + pos].slots[slot].Used? && to < n && j < s
    ensures var c := Unload(b, n, s, pos, slot, to, j, probe);
            Shape(c, n, s) && SameSlots(WithSlot(b, to, j, Cell(b[n + pos].slots[slot].entry, probe)), c)
  {
    var e := b[n + pos].slots[slot].entry;
    WithoutPtrFrame(WithSlot(b, to, j, Cell(e, probe)), n, s, pos, Home(e.key.hash, n), Fp(e.key.hash));
  }

  /** Unloading does not look at the slots of the stash bucket other than the one it moves. */
  lemma UnloadCommutes(b: seq<Bucket>, n: nat, s: nat, pos: nat, slot: nat, mask: set<nat>, to: nat, j: nat,
                       probe: bool)
    requires Shape(b, n, s) && pos < STASH_NUM && slot < s && slot !in mask && b[n + pos].slots[slot].Used?
    requires to < n && j < s
    ensures Shape(Cleared(b, n + pos, mask), n, s)
    ensures Cleared(b, n + pos, mask)[n + pos].slots[slot] == b[n + pos].slots[slot]
    ensures Cleared(Unload(b, n, s, pos, slot, to, j, probe), n + pos, mask)
            == Unload(Cleared(b, n + pos, mask), n, s, pos, slot, to, j, probe)
  {
    hide UnsetStashPtr;
    var v := Cleared(b, n + pos, mask);
    assert v[n + pos].slots[slot] == b[n + pos].slots[slot];
  }

  lemma UnloadKeeps(b: seq<Bucket>, n: nat, s: nat, pos: nat, slot: nat, to: nat, j: nat, probe: bool)
    requires Inv(b, n, s) && pos < STASH_NUM && slot < s && b[n + pos].slots[slot].Used?
    requires to < n && j < s && b[to].slots[j].Free?
    requires Home(b[n + pos].slots[slot].entry.key.hash, n) == if probe then PrevBid(to, n) else to
    ensures var c := WithSlot(Unload(b, n, s, pos, slot, to, j, probe), n + pos, slot, Free);
            Inv(c, n, s) && Contents(c) == Contents(b)
  {
    var e := b[n + pos].slots[slot].entry;
    var d := WithSlot(b, to, j, Cell(e, probe));
    AddRegular(b, n, s, to, j, e, probe);
    assert d[n + pos] == b[n + pos];
    DropStash(d, n, s, pos, slot);
    CancelOne(Contents(TakeStash(d, n, s, pos, slot)), Contents(b), e);
  }

  /** The step as the loops over a stash bucket see it, with the slots in `mask` as good as free. */
  lemma UnloadMasked(b: seq<Bucket>, n: nat, s: nat, pos: nat, slot: nat, mask: set<nat>, to: nat, j: nat, probe: bool)
    requires Shape(b, n, s) && pos < STASH_NUM && slot < s && slot !in mask && b[n + pos].slots[slot].Used?
    requires Inv(Cleared(b, n + pos, mask), n, s)
    requires to < n && j < s && b[to].slots[j].Free?
    requires Home(b[n + pos].slots[slot].entry.key.hash, n) == if probe then PrevBid(to, n) else to
    ensures var c := Unload(b, n, s, pos, slot, to, j, probe);
            && |c| == |b|
            && Inv(Cleared(c, n + pos, mask + {slot}), n, s)
            && Contents(Cleared(c, n + pos, mask + {slot})) == Contents(Cleared(b, n + pos, mask))
  {
    hide Inv, Contents, Unload;
    UnloadCommutes(b, n, s, pos, slot, mask, to, j, probe);
    var v := Cleared(b, n + pos, mask);
    UnloadKeeps(v, n, s, pos, slot, to, j, probe);
    UnloadShape(b, n, s, pos, slot, to, j, probe);
    ClearedOne(Unload(b, n, s, pos, slot, to, j, probe), n + pos, mask, slot);
  }

  // ---- exchanging a stash entry with a regular one --------------------------------------

  /** The stash entry takes the place of the regular entry in slot `j` of bucket `to`, which goes to
      the stash instead. */
  function Exchange(b: seq<Bucket>, n: nat, s: nat, pos: nat, slot: nat, to: nat, j: nat, probe: bool): seq<Bucket>
    requires Shape(b, n, s) && pos < STASH_NUM && slot < s && b[n + pos].slots[slot].Used?
    requires to < n && j < s && b[to].slots[j].Used?
  {
    var (e, g) := (b[n + pos].slots[slot].entry, b[to].slots[j].entry);
    TakeShape(b, n, s, pos, slot);
    var c := WithSlot(TakeStash(b, n, s, pos, slot), to, j, Cell(e, probe));
    PutStash(c, n, s, pos, slot, g)
  }

  lemma TakeShape(b: seq<Bucket>, n: nat, s: nat, pos: nat, slot: nat)
    requires Shape(b, n, s) && pos < STASH_NUM && slot < s && b[n + pos].slots[slot].Used?
    ensures var c := TakeStash(b, n, s, pos, slot);
            && Shape(c, n, s) && c[n + pos].slots[slot].Free?
            && forall i | 0 <= i < n :: c[i].slots == b[i].slots
  {
    var k := b[n + pos].slots[slot].entry.key;
    WithoutPtrFrame(b, n, s, pos, Home(k.hash, n), Fp(k.hash));
  }

  lemma ReplaceRegular(b: seq<Bucket>, n: nat, s: nat, i: nat, j: nat, e: Entry, probe: bool)
    requires Inv(b, n, s) && i < n && j < s && b[i].slots[j].Used?
    requires Home(e.key.hash, n) == if probe then PrevBid(i, n) else i
    ensures var c := WithSlot(b, i, j, Cell(e, probe));
            Inv(c, n, s) && Contents(c) + multiset{b[i].slots[j].entry} == Contents(b) + multiset{e}
  {
    RegularSlot(b, n, s, i, j, Cell(e, probe));
    ContentsSlot(b, i, j, Cell(e, probe));
    var c := WithSlot(b, i, j, Cell(e, probe));
    forall h | 0 <= h < n ensures IndexOk(c, h, n, Stashed(c, h, n)) {
      assert IndexOk(b, h, n, Stashed(b, h, n));
    }
  }

  /** First half: the stash entry leaves the stash and overwrites the regular one. */
  lemma ExchangeIn(b: seq<Bucket>, n: nat, s: nat, pos: nat, slot: nat, to: nat, j: nat, probe: bool, d: seq<Bucket>)
    requires Inv(b, n, s) && pos < STASH_NUM && slot < s && b[n + pos].slots[slot].Used?
    requires to < n && j < s && b[to].slots[j].Used?
    requires Home(b[n + pos].slots[slot].entry.key.hash, n) == if probe then PrevBid(to, n) else to
    requires d == TakeStash(b, n, s, pos, slot) && Shape(d, n, s) && d[to].slots == b[to].slots
    ensures var f := WithSlot(d, to, j, Cell(b[n + pos].slots[slot].entry, probe));
            Inv(f, n, s) && Contents(f) + multiset{b[to].slots[j].entry} == Contents(b)
  {
    DropStash(b, n, s, pos, slot);
    ReplaceRegular(d, n, s, to, j, b[n + pos].slots[slot].entry, probe);
  }

  lemma ExchangeKeeps(b: seq<Bucket>, n: nat, s: nat, pos: nat, slot: nat, to: nat, j: nat, probe: bool)
    requires Inv(b, n, s) && pos < STASH_NUM && slot < s && b[n + pos].slots[slot].Used?
    requires to < n && j < s && b[to].slots[j].Used?
    requires Home(b[n + pos].slots[slot].entry.key.hash, n) == if probe then PrevBid(to, n) else to
    ensures var c := Exchange(b, n, s, pos, slot, to, j, probe);
            && Inv(c, n, s) && Contents(c) == Contents(b)
            && c[to].slots[j] == Cell(b[n + pos].slots[slot].entry, probe)
  {
    var e := b[n + pos].slots[slot].entry;
    TakeShape(b, n, s, pos, slot);
    var d := TakeStash(b, n, s, pos, slot);
    ExchangeIn(b, n, s, pos, slot, to, j, probe, d);
    var f := WithSlot(d, to, j, Cell(e, probe));
    assert f[n + pos] == d[n + pos];
    AddStash(f, n, s, pos, slot, b[to].slots[j].entry);
  }

  /** Of the slots, only the two change. */
  lemma ExchangeSlots(b: seq<Bucket>, n: nat, s: nat, pos: nat, slot: nat, to: nat, j: nat, probe: bool)
    requires Shape(b, n, s) && pos < STASH_NUM && slot < s && b[n + pos].slots[slot].Used?
    requires to < n && j < s && b[to].slots[j].Used?
    ensures var c := Exchange(b, n, s, pos, slot, to, j, probe);
            SameSlots(WithSlot(WithSlot(b, to, j, Cell(b[n + pos].slots[slot].entry, probe)),
                               n + pos, slot, Cell(b[to].slots[j].entry, false)), c)
  {
    hide UnsetStashPtr, SetStashPtr;
    var e, g := b[n + pos].slots[slot].entry, b[to].slots[j].entry;
    TakeSlots(b, n, s, pos, slot);
    var c := WithSlot(TakeStash(b, n, s, pos, slot), to, j, Cell(e, probe));
    PutSlots(c, n, s, pos, slot, g);
  }

  lemma TakeSlots(b: seq<Bucket>, n: nat, s: nat, pos: nat, slot: nat)
    requires Shape(b, n, s) && pos < STASH_NUM && slot < s && b[n + pos].slots[slot].Used?
    ensures SameSlots(WithSlot(b, n + pos, slot, Free), TakeStash(b, n, s, pos, slot))
  {
    var k := b[n + pos].slots[slot].entry.key;
    WithoutPtrFrame(b, n, s, pos, Home(k.hash, n), Fp(k.hash));
  }

  lemma PutSlots(b: seq<Bucket>, n: nat, s: nat, pos: nat, slot: nat, e: Entry)
    requires Shape(b, n, s) && pos < STASH_NUM && slot < s
    ensures SameSlots(WithSlot(b, n + pos, slot, Cell(e, false)), PutStash(b, n, s, pos, slot, e))
  {
  }

  /** The home's reference to a stash entry is dropped and set again, which may move the pointer to
      another pointer slot. */
  function Refreshed(b: seq<Bucket>, n: nat, s: nat, pos: nat, slot: nat): seq<Bucket>
    requires Shape(b, n, s) && pos < STASH_NUM && slot < s && b[n + pos].slots[slot].Used?
  {
    var k := b[n + pos].slots[slot].entry.key;
    var (h, fp) := (Home(k.hash, n), Fp(k.hash));
    WithPtr(WithoutPtr(b, h, n, pos, fp), h, n, pos, fp)
  }

  lemma RefreshedKeeps(b: seq<Bucket>, n: nat, s: nat, pos: nat, slot: nat)
    requires Inv(b, n, s) && pos < STASH_NUM && slot < s && b[n + pos].slots[slot].Used?
    ensures var c := Refreshed(b, n, s, pos, slot);
            Inv(c, n, s) && Contents(c) == Contents(b) && SameSlots(b, c)
  {
    var k := b[n + pos].slots[slot].entry.key;
    var h, fp := Home(k.hash, n), Fp(k.hash);
    StashedSpot(b, n, s, pos, slot);
    RefreshedIndex(b, n, s, pos, h, fp);
    var c := WithPtr(WithoutPtr(b, h, n, pos, fp), h, n, pos, fp);
    SameSlotsKeeps(b, c, n, s);
    forall g | 0 <= g < n ensures IndexOk(c, g, n, Stashed(c, g, n)) {
      assert IndexOk(b, g, n, Stashed(b, g, n));
    }
  }

  lemma RefreshedIndex(b: seq<Bucket>, n: nat, s: nat, pos: nat, h: nat, fp: nat)
    requires Inv(b, n, s) && h < n && (pos, fp) in Stashed(b, h, n)
    ensures var c := WithPtr(WithoutPtr(b, h, n, pos, fp), h, n, pos, fp);
            && SameSlots(b, c)
            && forall g | 0 <= g < n :: IndexOk(b, g, n, Stashed(b, g, n)) ==> IndexOk(c, g, n, Stashed(b, g, n))
  {
    var e := Stashed(b, h, n);
    assert IndexOk(b, h, n, e);
    UnsetPtrKeeps(b, n, s, h, pos, fp, e);
    var d := WithoutPtr(b, h, n, pos, fp);
    SameShape(b, d, n, s);
    SetPtrKeeps(d, n, s, h, pos, fp, e - multiset{(pos, fp)});
    PutBack(e, (pos, fp));
  }

  lemma SameShape(b: seq<Bucket>, c: seq<Bucket>, n: nat, s: nat)
    requires Shape(b, n, s) && SameSlots(b, c)
    ensures Shape(c, n, s)
  {
  }

  lemma PutBack<T>(e: multiset<T>, x: T)
    requires x in e
    ensures e - multiset{x} + multiset{x} == e
  {
  }

  /** The pointer that announces a stash entry sits in the bucket after its home. */
  function HeldByNext(b: seq<Bucket>, n: nat, s: nat, pos: nat, slot: nat): bool
    requires Shape(b, n, s) && pos < STASH_NUM && slot < s && b[n + pos].slots[slot].Used?
  {
    var k := b[n + pos].slots[slot].entry.key;
    var h := Home(k.hash, n);
    UnsetStashPtr(b[h], b[NextBid(h, n)], pos, Fp(k.hash)).2
  }

  // ---- inside one bucket ----------------------------------------------------------------

  function SwapSlots(b: seq<Bucket>, i: nat, x: nat, y: nat): seq<Bucket>
    requires i < |b| && x < |b[i].slots| && y < |b[i].slots|
  {
    WithSlot(WithSlot(b, i, x, b[i].slots[y]), i, y, b[i].slots[x])
  }

  lemma SwapKeeps(b: seq<Bucket>, n: nat, s: nat, i: nat, x: nat, y: nat)
    requires Inv(b, n, s) && i < n && x < s && y < s && x != y
    ensures Inv(SwapSlots(b, i, x, y), n, s)
    ensures Contents(SwapSlots(b, i, x, y)) == Contents(b)
  {
    var p, q := b[i].slots[x], b[i].slots[y];
    assert Placed(p, i, n) && Placed(q, i, n);
    var d := WithSlot(b, i, x, q);
    var c := SwapSlots(b, i, x, y);
    RegularSlot(b, n, s, i, x, q);
    RegularSlot(d, n, s, i, y, p);
    ContentsSlot(b, i, x, q);
    ContentsSlot(d, i, y, p);
    assert d[i].slots[y] == q;
    CancelSwap(Contents(c), Contents(d), Contents(b), OneEntry(p), OneEntry(q));
    forall h | 0 <= h < n ensures IndexOk(c, h, n, Stashed(c, h, n)) {
      assert IndexOk(b, h, n, Stashed(b, h, n));
    }
  }

  lemma CancelSwap<T>(c: multiset<T>, d: multiset<T>, b: multiset<T>, p: multiset<T>, q: multiset<T>)
    requires d + p == b + q && c + q == d + p
    ensures c == b
  {
    forall x ensures c[x] == b[x] {
      assert (c + q)[x] == (b + q)[x];
    }
  }

  /** All slots move one place to the right; the last one falls off. */
  function ShiftSlots(slots: seq<Slot>): seq<Slot>
    requires |slots| > 0
  {
    [Free] + slots[..|slots| - 1]
  }

  lemma {:induction false} EntriesSnoc(slots: seq<Slot>, x: Slot)
    ensures EntriesOf(slots + [x]) == EntriesOf(slots) + OneEntry(x)
  {
    if slots == [] {
      assert [x][1..] == [];
      assert EntriesOf([x]) == OneEntry(x) + multiset{};
    } else {
      assert (slots + [x])[1..] == slots[1..] + [x];
      EntriesSnoc(slots[1..], x);
    }
  }

  lemma {:induction false} SpotsSnoc(slots: seq<Slot>, x: Slot, h: nat, pos: nat, n: nat)
    requires n > 0
    ensures SpotsOf(slots + [x], h, pos, n) == SpotsOf(slots, h, pos, n) + OneSpot(x, h, pos, n)
  {
    if slots == [] {
      assert [x][1..] == [];
      assert SpotsOf([x], h, pos, n) == OneSpot(x, h, pos, n) + multiset{};
    } else {
      assert (slots + [x])[1..] == slots[1..] + [x];
      SpotsSnoc(slots[1..], x, h, pos, n);
    }
  }

  /** Shifting loses nothing when the last slot is free. */
  lemma ShiftSame(slots: seq<Slot>, h: nat, pos: nat, n: nat)
    requires |slots| > 0 && slots[|slots| - 1].Free? && n > 0
    ensures EntriesOf(ShiftSlots(slots)) == EntriesOf(slots)
    ensures SpotsOf(ShiftSlots(slots), h, pos, n) == SpotsOf(slots, h, pos, n)
  {
    var front := slots[..|slots| - 1];
    assert slots == front + [Free] && ([Free] + front)[1..] == front;
    EntriesSnoc(front, Free);
    SpotsSnoc(front, Free, h, pos, n);
  }

  function Shifted(b: seq<Bucket>, i: nat): seq<Bucket>
    requires i < |b| && |b[i].slots| > 0
  {
    b[i := b[i].(slots := ShiftSlots(b[i].slots))]
  }

  lemma ShiftOne(b: seq<Bucket>, i: nat, h: nat, n: nat, p: nat)
    requires n > 0 && n + p < |b| && i < |b| && |b[i].slots| > 0 && b[i].slots[|b[i].slots| - 1].Free?
    ensures SpotsOf(Shifted(b, i)[n + p].slots, h, p, n) == SpotsOf(b[n + p].slots, h, p, n)
  {
    if n + p == i {
      ShiftSame(b[i].slots, h, p, n);
    }
  }

  lemma {:induction false} ShiftStashed(b: seq<Bucket>, i: nat, h: nat, n: nat, p: nat)
    requires n > 0 && i < |b| && |b[i].slots| > 0 && b[i].slots[|b[i].slots| - 1].Free?
    ensures StashedFrom(Shifted(b, i), h, n, p) == StashedFrom(b, h, n, p)
    decreases |b| - p
  {
    if n + p < |b| {
      ShiftStashed(b, i, h, n, p + 1);
      ShiftOne(b, i, h, n, p);
    }
  }

  lemma ShiftPlaced(b: seq<Bucket>, n: nat, s: nat, i: nat)
    requires Shape(b, n, s) && AllPlaced(b, n) && i < |b|
    ensures Shape(Shifted(b, i), n, s) && AllPlaced(Shifted(b, i), n)
  {
    var c := Shifted(b, i);
    forall k, j | 0 <= k < |c| && 0 <= j < |c[k].slots| ensures Placed(c[k].slots[j], k, n) {
      if k == i && j > 0 {
        assert c[k].slots[j] == b[k].slots[j - 1];
      }
    }
  }

  lemma ShiftContents(b: seq<Bucket>, i: nat)
    requires i < |b| && |b[i].slots| > 0 && b[i].slots[|b[i].slots| - 1].Free?
    ensures Contents(Shifted(b, i)) == Contents(b)
  {
    var x := b[i].(slots := ShiftSlots(b[i].slots));
    ShiftSame(b[i].slots, 0, 0, 1);
    ContentsUpdate(b, i, x);
    CancelSame(Contents(b[i := x]), Contents(b), EntriesOf(b[i].slots));
  }

  lemma ShiftIndex(b: seq<Bucket>, n: nat, s: nat, i: nat, h: nat)
    requires Inv(b, n, s) && i < |b| && b[i].slots[s - 1].Free? && h < n
    ensures IndexOk(Shifted(b, i), h, n, Stashed(Shifted(b, i), h, n))
  {
    var c := Shifted(b, i);
    ShiftStashed(b, i, h, n, 0);
    assert IndexOk(b, h, n, Stashed(b, h, n));
    assert c[h].refs == b[h].refs && c[NextBid(h, n)].refs == b[NextBid(h, n)].refs;
    assert Pointed(c, h, n) == Pointed(b, h, n);
  }

  lemma ShiftKeeps(b: seq<Bucket>, n: nat, s: nat, i: nat)
    requires Inv(b, n, s) && i < |b| && b[i].slots[s - 1].Free?
    ensures Inv(Shifted(b, i), n, s)
    ensures Contents(Shifted(b, i)) == Contents(b)
  {
    ShiftPlaced(b, n, s, i);
    ShiftContents(b, i);
    forall h | 0 <= h < n ensures IndexOk(Shifted(b, i), h, n, Stashed(Shifted(b, i), h, n)) {
      ShiftIndex(b, n, s, i, h);
    }
  }

  lemma CancelSame<T>(c: multiset<T>, b: multiset<T>, x: multiset<T>)
    requires c + x == b + x
    ensures c == b
  {
    forall y ensures c[y] == b[y] {
      assert (c + x)[y] == (b + x)[y];
    }
  }
}
