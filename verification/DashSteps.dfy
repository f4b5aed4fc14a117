/** The elementary steps every segment operation is made of, each keeping the invariant: put an
    entry into or take one out of a regular bucket, and the same for the stash with its pointer. */
module DashSteps {
  import opened DashBucket
  import opened DashState

  /** How an entry is written into bucket `i`. */
  function Cell(e: Entry, probe: bool): Slot { Used(e, Fp(e.key.hash), probe) }

  lemma AddRegular(b: seq<Bucket>, n: nat, s: nat, i: nat, j: nat, e: Entry, probe: bool)
    requires Inv(b, n, s) && i < n && j < s && b[i].slots[j].Free?
    requires Home(e.key.hash, n) == if probe then PrevBid(i, n) else i
    ensures var c := WithSlot(b, i, j, Cell(e, probe));
            Inv(c, n, s) && Contents(c) == Contents(b) + multiset{e}
  {
    RegularSlot(b, n, s, i, j, Cell(e, probe));
    ContentsAdd(b, i, j, Cell(e, probe));
    var c := WithSlot(b, i, j, Cell(e, probe));
    forall h | 0 <= h < n ensures IndexOk(c, h, n, Stashed(c, h, n)) {
      assert IndexOk(b, h, n, Stashed(b, h, n));
    }
  }

  lemma DropRegular(b: seq<Bucket>, n: nat, s: nat, i: nat, j: nat)
    requires Inv(b, n, s) && i < n && j < s && b[i].slots[j].Used?
    ensures var c := WithSlot(b, i, j, Free);
            Inv(c, n, s) && Contents(c) + multiset{b[i].slots[j].entry} == Contents(b)
  {
    RegularSlot(b, n, s, i, j, Free);
    ContentsDrop(b, i, j);
    var c := WithSlot(b, i, j, Free);
    forall h | 0 <= h < n ensures IndexOk(c, h, n, Stashed(c, h, n)) {
      assert IndexOk(b, h, n, Stashed(b, h, n));
    }
  }

  /** An entry goes into slot `j` of stash bucket `pos`, and its home learns about it. */
  function PutStash(b: seq<Bucket>, n: nat, s: nat, pos: nat, j: nat, e: Entry): seq<Bucket>
    requires Shape(b, n, s) && pos < STASH_NUM && j < s
  {
    WithPtr(WithSlot(b, n + pos, j, Cell(e, false)), Home(e.key.hash, n), n, pos, Fp(e.key.hash))
  }

  lemma AddStash(b: seq<Bucket>, n: nat, s: nat, pos: nat, j: nat, e: Entry)
    requires Inv(b, n, s) && pos < STASH_NUM && j < s && b[n + pos].slots[j].Free?
    ensures var c := PutStash(b, n, s, pos, j, e);
            && Inv(c, n, s) && Contents(c) == Contents(b) + multiset{e}
            && SameSlots(WithSlot(b, n + pos, j, Cell(e, false)), c)
  {
    hide Contents, Stashed, WithPtr, Pointed;
    var h, fp := Home(e.key.hash, n), Fp(e.key.hash);
    var d := WithSlot(b, n + pos, j, Cell(e, false));
    StashSlot(b, n, s, pos, j, Cell(e, false));
    ContentsAdd(b, n + pos, j, Cell(e, false));
    assert IndexOk(b, h, n, Stashed(b, h, n));
    SetPtrKeeps(d, n, s, h, pos, fp, Stashed(b, h, n));
    var c := WithPtr(d, h, n, pos, fp);
    SameSlotsKeeps(d, c, n, s);
    assert Contents(c) == Contents(d);
    IndexAfter(b, c, n, h, multiset{(pos, fp)}, multiset{});
  }

  /** Home `h` gained the spots `plus` and lost `minus`; every other home is as before. */
  lemma IndexAfter(b: seq<Bucket>, c: seq<Bucket>, n: nat, h: nat, plus: multiset<Spot>, minus: multiset<Spot>)
    requires h < n <= |b| && n <= |c|
    requires forall g | 0 <= g < n :: IndexOk(b, g, n, Stashed(b, g, n))
    requires forall g, f | 0 <= g < n && g != h :: IndexOk(c, g, n, f) <==> IndexOk(b, g, n, f)
    requires IndexOk(c, h, n, Stashed(b, h, n) + plus - minus)
    requires minus <= Stashed(b, h, n)
    requires forall g | 0 <= g < n ::
               Stashed(c, g, n) + (if g == h then minus else multiset{})
               == Stashed(b, g, n) + (if g == h then plus else multiset{})
    ensures forall g | 0 <= g < n :: IndexOk(c, g, n, Stashed(c, g, n))
  {
    hide StashedFrom, Pointed;
    forall g | 0 <= g < n ensures IndexOk(c, g, n, Stashed(c, g, n)) {
      var was, now := Stashed(b, g, n), Stashed(c, g, n);
      assert IndexOk(b, g, n, was);
      if g == h {
        assert now == was + plus - minus;
      } else {
        assert now + multiset{} == now && was + multiset{} == was;
      }
    }
  }

  /** The home of the entry in slot `j` of stash bucket `pos` forgets it, and the slot is freed. */
  function TakeStash(b: seq<Bucket>, n: nat, s: nat, pos: nat, j: nat): seq<Bucket>
    requires Shape(b, n, s) && pos < STASH_NUM && j < s && b[n + pos].slots[j].Used?
  {
    var k := b[n + pos].slots[j].entry.key;
    var c := WithoutPtr(b, Home(k.hash, n), n, pos, Fp(k.hash));
    WithSlot(c, n + pos, j, Free)
  }

  lemma DropStashIndex(b: seq<Bucket>, n: nat, s: nat, pos: nat, j: nat, d: seq<Bucket>, c: seq<Bucket>)
    requires Inv(b, n, s) && pos < STASH_NUM && j < s && b[n + pos].slots[j].Used?
    requires var k := b[n + pos].slots[j].entry.key;
             d == WithoutPtr(b, Home(k.hash, n), n, pos, Fp(k.hash))
    requires SameSlots(b, d) && c == WithSlot(d, n + pos, j, Free)
    ensures Shape(c, n, s) && AllPlaced(c, n)
    ensures forall g | 0 <= g < n :: IndexOk(c, g, n, Stashed(c, g, n))
  {
    var k := b[n + pos].slots[j].entry.key;
    var h, fp := Home(k.hash, n), Fp(k.hash);
    StashedSpot(b, n, s, pos, j);
    assert IndexOk(b, h, n, Stashed(b, h, n));
    UnsetPtrKeeps(b, n, s, h, pos, fp, Stashed(b, h, n));
    SameSlotsKeeps(b, d, n, s);
    StashSlot(d, n, s, pos, j, Free);
    assert Stashed(b, h, n) + multiset{} == Stashed(b, h, n);
    IndexAfter(b, c, n, h, multiset{}, multiset{(pos, fp)});
  }

  lemma DropStash(b: seq<Bucket>, n: nat, s: nat, pos: nat, j: nat)
    requires Inv(b, n, s) && pos < STASH_NUM && j < s && b[n + pos].slots[j].Used?
    ensures var c := TakeStash(b, n, s, pos, j);
            Inv(c, n, s) && Contents(c) + multiset{b[n + pos].slots[j].entry} == Contents(b)
  {
    hide Contents, IndexOk, Stashed, AllPlaced, WithoutPtr;
    var k := b[n + pos].slots[j].entry.key;
    var d := WithoutPtr(b, Home(k.hash, n), n, pos, Fp(k.hash));
    WithoutPtrFrame(b, n, s, pos, Home(k.hash, n), Fp(k.hash));
    SameSlotsContents(b, d);
    assert d[n + pos].slots == b[n + pos].slots;
    ContentsDrop(d, n + pos, j);
    DropStashIndex(b, n, s, pos, j, d, WithSlot(d, n + pos, j, Free));
  }

  lemma WithoutPtrFrame(b: seq<Bucket>, n: nat, s: nat, pos: nat, h: nat, fp: nat)
    requires Shape(b, n, s) && h < n
    ensures SameSlots(b, WithoutPtr(b, h, n, pos, fp))
  {
    DropFrame(b[h], b[NextBid(h, n)], pos, fp);
  }

  /** The entry in slot `i` of regular bucket `from` moves to the free slot `j` of bucket `to`. */
  function MoveSlot(b: seq<Bucket>, from: nat, i: nat, to: nat, j: nat, probe: bool): seq<Bucket>
    requires from < |b| && i < |b[from].slots| && to < |b| && j < |b[to].slots| && from != to
    requires b[from].slots[i].Used?
  {
    WithSlot(WithSlot(b, to, j, Cell(b[from].slots[i].entry, probe)), from, i, Free)
  }

  lemma MoveRegular(b: seq<Bucket>, n: nat, s: nat, from: nat, i: nat, to: nat, j: nat, probe: bool)
    requires Inv(b, n, s) && from < n && to < n && from != to && i < s && j < s
    requires b[from].slots[i].Used? && b[to].slots[j].Free?
    requires Home(b[from].slots[i].entry.key.hash, n) == if probe then PrevBid(to, n) else to
    ensures var c := MoveSlot(b, from, i, to, j, probe);
            Inv(c, n, s) && Contents(c) == Contents(b)
  {
    var e := b[from].slots[i].entry;
    AddRegular(b, n, s, to, j, e, probe);
    var d := WithSlot(b, to, j, Cell(e, probe));
    assert d[from].slots[i] == b[from].slots[i];
    DropRegular(d, n, s, from, i);
    CancelOne(Contents(MoveSlot(b, from, i, to, j, probe)), Contents(b), e);
  }

  lemma CancelOne<T>(a: multiset<T>, c: multiset<T>, x: T)
    requires a + multiset{x} == c + multiset{x}
    ensures a == c
  {
    forall y ensures a[y] == c[y] {
      assert (a + multiset{x})[y] == (c + multiset{x})[y];
    }
  }
}
