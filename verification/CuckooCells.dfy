/** Which item each slot of a chain of sub-filters stands for. The slots hold one-byte fingerprints;
    the cells beside them say whose fingerprint it is. */
module CuckooCells {
  import opened Arith
  import opened Bits
  import opened Keys
  import opened Bags
  import opened CuckooIndex

  type SubFilter = seq<nat>   // bucket `b` is the slots b * width .. (b + 1) * width

  datatype Cell = Vacant | Item(hash: Hash)

  ghost function ByteOf(c: Cell): nat { if c.Vacant? then 0 else Fingerprint(c.hash) }

  /** The bucket a slot belongs to. */
  function BucketAt(p: nat, width: nat): nat
    requires width > 0
  {
    p / width
  }

  /** Every byte is the fingerprint of its item, in one of the item's two buckets. */
  ghost predicate FilterOk(bytes: SubFilter, cells: seq<Cell>, width: nat, k: nat)
    requires width > 0
  {
    && |bytes| == |cells| == Pow2(k) * width
    && (forall p | 0 <= p < |bytes| :: bytes[p] == ByteOf(cells[p]))
    && (forall p | 0 <= p < |cells| && cells[p].Item? :: Candidate(cells[p].hash, BucketAt(p, width), k))
  }

  /** log2 of the number of buckets of sub-filter `i`. */
  function Depth(k: nat, e: nat, i: nat): nat {
    if i == 0 then k else Depth(k, e, i - 1) + e
  }

  lemma {:induction false} DepthMono(k: nat, e: nat, i: nat, j: nat)
    requires i <= j
    ensures Depth(k, e, i) <= Depth(k, e, j)
  {
    if i < j {
      DepthMono(k, e, i, j - 1);
    }
  }

  ghost predicate ChainOk(bytes: seq<SubFilter>, cells: seq<seq<Cell>>, width: nat, k: nat, e: nat)
    requires width > 0
  {
    |bytes| == |cells| && forall i | 0 <= i < |bytes| :: FilterOk(bytes[i], cells[i], width, Depth(k, e, i))
  }

  // ---- what a chain holds ---------------------------------------------------------------

  ghost function One(c: Cell): multiset<Hash> {
    if c.Vacant? then multiset{} else multiset{c.hash}
  }

  ghost function Items(cells: seq<Cell>): multiset<Hash> {
    if cells == [] then multiset{} else Items(cells[..|cells| - 1]) + One(cells[|cells| - 1])
  }

  ghost function Held(cells: seq<seq<Cell>>): multiset<Hash> {
    if cells == [] then multiset{} else Held(cells[..|cells| - 1]) + Items(cells[|cells| - 1])
  }

  lemma {:induction false} ItemsUpdate(cells: seq<Cell>, p: nat, c: Cell)
    requires p < |cells|
    ensures Items(cells[p := c]) + One(cells[p]) == Items(cells) + One(c)
  {
    hide One;
    var last := |cells| - 1;
    if p == last {
      assert cells[p := c][..last] == cells[..last];
    } else {
      assert cells[p := c][..last] == cells[..last][p := c];
      ItemsUpdate(cells[..last], p, c);
      AlsoMore(Items(cells[..last][p := c]), One(cells[p]), Items(cells[..last]), One(c), One(cells[last]));
    }
  }

  lemma {:induction false} HeldUpdate(cells: seq<seq<Cell>>, i: nat, c: seq<Cell>)
    requires i < |cells|
    ensures Held(cells[i := c]) + Items(cells[i]) == Held(cells) + Items(c)
  {
    hide Items;
    var last := |cells| - 1;
    if i == last {
      assert cells[i := c][..last] == cells[..last];
    } else {
      assert cells[i := c][..last] == cells[..last][i := c];
      HeldUpdate(cells[..last], i, c);
      AlsoMore(Held(cells[..last][i := c]), Items(cells[i]), Held(cells[..last]), Items(c), Items(cells[last]));
    }
  }

  function SetAt<T>(s: seq<seq<T>>, i: nat, p: nat, x: T): (r: seq<seq<T>>)
    requires i < |s| && p < |s[i]|
    ensures |r| == |s|
  {
    s[i := s[i][p := x]]
  }

  lemma SetCell(cells: seq<seq<Cell>>, i: nat, p: nat, c: Cell)
    requires i < |cells| && p < |cells[i]|
    ensures Held(SetAt(cells, i, p, c)) + One(cells[i][p]) == Held(cells) + One(c)
  {
    hide Items, Held;
    ItemsUpdate(cells[i], p, c);
    HeldUpdate(cells, i, cells[i][p := c]);
    Swap(Held(SetAt(cells, i, p, c)), Items(cells[i]), Held(cells), Items(cells[i][p := c]), One(cells[i][p]), One(c));
  }

  lemma {:induction false} ItemsMember(cells: seq<Cell>, h: Hash) returns (p: nat)
    requires h in Items(cells)
    ensures p < |cells| && cells[p] == Item(h)
  {
    var last := |cells| - 1;
    if h in One(cells[last]) {
      p := last;
    } else {
      p := ItemsMember(cells[..last], h);
    }
  }

  /** A held item has a slot. */
  lemma {:induction false} HeldMember(cells: seq<seq<Cell>>, h: Hash) returns (i: nat, p: nat)
    requires h in Held(cells)
    ensures i < |cells| && p < |cells[i]| && cells[i][p] == Item(h)
  {
    hide Items;
    var last := |cells| - 1;
    if h in Items(cells[last]) {
      i := last;
      p := ItemsMember(cells[last], h);
    } else {
      i, p := HeldMember(cells[..last], h);
    }
  }

  /** And what has a slot is held. */
  lemma MemberHeld(cells: seq<seq<Cell>>, i: nat, p: nat)
    requires i < |cells| && p < |cells[i]| && cells[i][p].Item?
    ensures cells[i][p].hash in Held(cells)
  {
    hide Held;
    SetCell(cells, i, p, Vacant);
    var h := cells[i][p].hash;
    assert (Held(SetAt(cells, i, p, Vacant)) + multiset{h})[h] == (Held(cells) + multiset{})[h];
  }

  /** Writing one slot together with its cell. */
  lemma SetKeeps(bytes: seq<SubFilter>, cells: seq<seq<Cell>>, width: nat, k: nat, e: nat, i: nat, p: nat, c: Cell)
    requires width > 0 && ChainOk(bytes, cells, width, k, e) && i < |bytes| && p < |bytes[i]|
    requires c.Item? ==> Candidate(c.hash, BucketAt(p, width), Depth(k, e, i))
    ensures ChainOk(SetAt(bytes, i, p, ByteOf(c)), SetAt(cells, i, p, c), width, k, e)
  {
    hide Candidate, Depth, ByteOf, Pow2;
    assert FilterOk(bytes[i], cells[i], width, Depth(k, e, i));
    assert FilterOk(bytes[i][p := ByteOf(c)], cells[i][p := c], width, Depth(k, e, i));
  }

  // ---- counting -------------------------------------------------------------------------

  function NonZero(bytes: seq<nat>): nat {
    if bytes == [] then 0 else NonZero(bytes[..|bytes| - 1]) + if bytes[|bytes| - 1] == 0 then 0 else 1
  }

  function Occupied(bytes: seq<SubFilter>): nat {
    if bytes == [] then 0 else Occupied(bytes[..|bytes| - 1]) + NonZero(bytes[|bytes| - 1])
  }

  lemma {:induction false} NonZeroItems(bytes: seq<nat>, cells: seq<Cell>)
    requires |bytes| == |cells| && forall p | 0 <= p < |bytes| :: bytes[p] == ByteOf(cells[p])
    ensures |Items(cells)| == NonZero(bytes)
  {
    if bytes != [] {
      NonZeroItems(bytes[..|bytes| - 1], cells[..|cells| - 1]);
    }
  }

  /** The items are as many as the non-empty slots. */
  lemma {:induction false} OccupiedHeld(bytes: seq<SubFilter>, cells: seq<seq<Cell>>, width: nat, k: nat, e: nat)
    requires width > 0 && ChainOk(bytes, cells, width, k, e)
    ensures |Held(cells)| == Occupied(bytes)
  {
    hide Items, NonZero, Candidate, Depth, ByteOf;
    if bytes != [] {
      var last := |bytes| - 1;
      assert FilterOk(bytes[last], cells[last], width, Depth(k, e, last));
      NonZeroItems(bytes[last], cells[last]);
      OccupiedHeld(bytes[..last], cells[..last], width, k, e);
    }
  }

  // ---- slots of a bucket ----------------------------------------------------------------

  lemma SlotOf(b: nat, s: nat, width: nat, n: nat)
    requires s < width && b < n
    ensures 0 <= b * width + s < n * width && BucketAt(b * width + s, width) == b
  {
    MulAtLeast(n - b, width);
    assert (n - b) * width == n * width - b * width;
    ModUnique(b * width + s, width, b, s);
  }

  /** The slots of a bucket are consecutive. */
  lemma BucketRange(p: nat, b: nat, width: nat)
    requires width > 0
    ensures BucketAt(p, width) == b <==> b * width <= p < b * width + width
  {
    if b * width <= p < b * width + width {
      ModUnique(p, width, b, p - b * width);
    }
  }

  lemma MulMono(a: nat, b: nat, w: nat)
    requires a <= b
    ensures a * w <= b * w
  {
  }

  lemma BucketsOf(n: nat, width: nat)
    requires width > 0
    ensures n * width / width == n
  {
    ModUnique(n * width, width, n, 0);
  }
}
