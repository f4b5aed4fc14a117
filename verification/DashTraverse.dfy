/** The stable traversal of a dash table: a cursor names a bucket number and a place in the hash
    space, and keeps its meaning while the table grows. */
module DashTraverse {
  import opened Arith
  import opened Keys
  import opened DashBucket
  import opened DashState
  import opened DashSegment
  import opened DashDirectory
  import opened DashView
  import opened DashTable

  const CURSOR_DEPTH := 32   // a cursor keeps 32 bits of segment number above 8 bits of bucket number

  /** A bucket number and a segment number on the 32-bit scale; traversal goes bucket by bucket. */
  datatype Place = Place(bid: nat, seg: nat)

  ghost predicate Before(a: Place, b: Place) { a.bid < b.bid || (a.bid == b.bid && a.seg < b.seg) }

  ghost predicate Within(x: Place, from: Place, to: Place) { !Before(x, from) && Before(x, to) }

  /** Where the traversal meets a key; this depends on the key alone. */
  function PlaceOf(k: Key, n: nat): Place
    requires n > 0
  {
    Place(Home(k.hash, n), Prefix(k.hash, CURSOR_DEPTH))
  }

  /** DashCursor's constructor. */
  function Token(g: nat, sid: nat, bid: nat): nat
    requires g <= CURSOR_DEPTH
  {
    Shl(sid, 40 - g) + bid
  }

  function BucketId(token: nat): nat { token % 256 }

  /** The result is a 32-bit number. */
  function SegmentId(token: nat, g: nat): nat
    requires g <= CURSOR_DEPTH
  {
    Shr(token, 40 - g) % 0x1_0000_0000
  }

  function CursorPlace(token: nat): Place { Place(token % 256, token / 256) }

  /** The end of the traversal lies behind all buckets. */
  function EndPlace(token: nat, n: nat): Place {
    if token == 0 then Place(n, 0) else CursorPlace(token)
  }

  lemma ShlByteMod(x: nat, k: nat)
    ensures Shl(x, k + 8) % 256 == 0 && Shl(x, k + 8) / 256 == Shl(x, k)
  {
    assert Shl(x, k + 2) == 4 * Shl(x, k) && Shl(x, k + 4) == 4 * Shl(x, k + 2);
    assert Shl(x, k + 6) == 4 * Shl(x, k + 4) && Shl(x, k + 8) == 4 * Shl(x, k + 6);
  }

  lemma ShrByte(x: nat, k: nat)
    ensures Shr(x, 8 + k) == Shr(x / 256, k)
  {
    hide Shr;
    ShrShr(x, 8, k);
    ShrShr(x, 4, 4);
    ShrFour(x);
    ShrFour(x / 16);
  }

  /** A token is a place, and a place read back at any depth gives its segment. */
  lemma TokenPlace(g: nat, sid: nat, bid: nat)
    requires g <= CURSOR_DEPTH && bid < 256
    ensures CursorPlace(Token(g, sid, bid)) == Place(bid, Shl(sid, CURSOR_DEPTH - g))
  {
    hide Shl;
    ShlByteMod(sid, CURSOR_DEPTH - g);
    assert Token(g, sid, bid) == 256 * Shl(sid, CURSOR_DEPTH - g) + bid;
  }

  // ---- alignment ------------------------------------------------------------------------

  /** The place is where a chunk of the directory begins. */
  ghost predicate Aligned<T>(v: View<T>, seg: nat)
    requires v.g < CURSOR_DEPTH
  {
    var sid := Shr(seg, CURSOR_DEPTH - v.g);
    && sid < |v.ids| == |v.ds| && v.ds[sid] <= v.g && Shl(sid, CURSOR_DEPTH - v.g) == seg
    && ChunkStart(sid, v.g - v.ds[sid]) == sid
  }

  /** A cursor's segment number at any depth is a prefix of its place. */
  lemma TokenSegment(token: nat, g: nat)
    requires g < CURSOR_DEPTH && token < 0x100_0000_0000
    ensures SegmentId(token, g) == Shr(CursorPlace(token).seg, CURSOR_DEPTH - g) < Pow2(g)
  {
    hide Shr, Pow2;
    ShrByte(token, CURSOR_DEPTH - g);
    Pow2Of32();
    ShrBound(token / 256, g, CURSOR_DEPTH - g);
    Pow2Mono(g, CURSOR_DEPTH);
  }

  /** A multiple of a power of two is a multiple of the smaller ones. */
  lemma StillStart(i: nat, k: nat, k': nat)
    requires k' <= k && ChunkStart(i, k) == i
    ensures ChunkStart(i, k') == i
  {
    var u := Shr(i, k);
    ShlShl(u, k - k', k');
    ShrShl(Shl(u, k - k'), k');
  }

  /** Growth moves no boundary away, so a cursor stays at the beginning of a chunk. */
  lemma GrowthKeepsAligned<T>(v: View<T>, w: View<T>, seg: nat)
    requires v.g < CURSOR_DEPTH && w.g < CURSOR_DEPTH && Grew(v, w) && Aligned(v, seg)
    requires ViewOk(v) && ViewOk(w)
    ensures Aligned(w, seg)
  {
    hide Shr, Shl, Pow2, InSlot, SameChunk;
    var k, sid := w.g - v.g, Shr(seg, CURSOR_DEPTH - v.g);
    var sid' := Shl(sid, k);
    ShlShl(sid, k, CURSOR_DEPTH - w.g);
    ShrShl(sid', CURSOR_DEPTH - w.g);
    ShrShl(sid, k);
    FillBounds(v.g, k, sid);
    assert AsDeep(v, w, sid');
    var u := Shr(sid, v.g - v.ds[sid]);
    ShlShl(u, v.g - v.ds[sid], k);
    ShrShl(u, w.g - v.ds[sid]);
    StillStart(sid', w.g - v.ds[sid], w.g - w.ds[sid']);
  }

  // ---- the walk over the directory ------------------------------------------------------

  /** The first slot of a segment. */
  ghost predicate IsStart<T>(v: View<T>, i: nat) {
    i < |v.ids| == |v.ds| && v.ds[i] <= v.g && ChunkStart(i, v.g - v.ds[i]) == i
  }

  /** The first slot of the segment that slot `i` names, and the slot behind its last. */
  ghost function StartOf<T>(v: View<T>, i: nat): nat
    requires i < |v.ds| && v.ds[i] <= v.g
  {
    ChunkStart(i, v.g - v.ds[i])
  }

  ghost function EndOf<T>(v: View<T>, i: nat): nat
    requires i < |v.ds| && v.ds[i] <= v.g
  {
    ChunkStart(i, v.g - v.ds[i]) + Pow2(v.g - v.ds[i])
  }

  /** Where the traversal goes after the segment at a slot: NextSeg, or the first slot of the next bucket. */
  ghost function NextPlace<T>(v: View<T>, p: Place): Place
    requires p.seg < |v.ds| && v.ds[p.seg] <= v.g
  {
    var n := p.seg + Pow2(v.g - v.ds[p.seg]);
    if n < |v.ds| then Place(p.bid, n) else Place(p.bid + 1, 0)
  }

  lemma NextWithin<T>(v: View<T>, p: Place)
    requires ViewOk(v) && p.seg < |v.ids|
    ensures p.seg < |v.ds| == |v.ids| && v.ds[p.seg] <= v.g && Pow2(v.g - v.ds[p.seg]) > 0
    ensures Before(p, NextPlace(v, p)) && NextPlace(v, p).seg < |v.ids|
  {
    hide Shr, Shl, InSlot, SameChunk;
  }

  /** The segment at place `p` holds the entry, and bucket `p.bid` is its home. */
  ghost predicate MetAt<T>(v: View<T>, n: nat, p: Place, e: Entry)
    requires n > 0
  {
    var x := Prefix(e.key.hash, v.g);
    Count(v, e) > 0 && Home(e.key.hash, n) == p.bid && x < |v.ids| && p.seg < |v.ids| && v.ids[x] == v.ids[p.seg]
  }

  ghost predicate Vacant<T>(v: View<T>, n: nat, p: Place)
    requires n > 0
  {
    forall e: Entry :: !MetAt(v, n, p, e)
  }

  /** The first place of the walk from `p` on with something to report, or the end behind all buckets. */
  ghost function Landing<T>(v: View<T>, n: nat, p: Place): (l: Place)
    requires n > 0 && ViewOk(v) && p.seg < |v.ids|
    ensures l.seg < |v.ids| && !Before(l, p)
    decreases n - p.bid, |v.ids| - p.seg
  {
    if p.bid >= n || !Vacant(v, n, p) then p
    else
      NextWithin(v, p);
      Landing(v, n, NextPlace(v, p))
  }

  /** Where a cursor stands in a directory of depth `g`. */
  function SlotPlace(token: nat, g: nat): Place
    requires g < CURSOR_DEPTH
  {
    Place(BucketId(token), SegmentId(token, g))
  }

  function TokenOf(g: nat, n: nat, q: Place): nat
    requires g < CURSOR_DEPTH
  {
    if q.bid < n then Token(g, q.seg, q.bid) else 0
  }

  /** What a call does, from any cursor: it goes on to the first place with something to report, reports all of it, and
      returns a cursor to the place behind. */
  ghost predicate Call<T>(v: View<T>, n: nat, from: nat, to: nat, seen: set<Entry>)
    requires n > 0 && ViewOk(v) && v.g < CURSOR_DEPTH
  {
    var p := SlotPlace(from, v.g);
    if p.bid >= n || p.seg >= |v.ids| then to == 0 && seen == {}
    else
      var l := Landing(v, n, p);
      NextWithin(v, l);
      && (forall e: Entry :: e in seen <==> l.bid < n && MetAt(v, n, l, e))
      && to == if l.bid < n then TokenOf(v.g, n, NextPlace(v, l)) else 0
  }

  // ---- one call -------------------------------------------------------------------------

  /** What the callback receives: a segment, by its first directory slot, and a position in it. */
  datatype Spot = Spot(sid: nat, pos: Pos)

  ghost predicate OnGrid(t: Table, s: Spot)
    reads t, t.dir
  {
    && s.sid < |t.dir| && s.pos.At? && s.pos.bid < |t.dir[s.sid].buckets|
    && s.pos.slot < |t.dir[s.sid].buckets[s.pos.bid].slots| && t.dir[s.sid].buckets[s.pos.bid].slots[s.pos.slot].Used?
  }

  ghost function SpotEntry(t: Table, s: Spot): Entry
    requires OnGrid(t, s)
    reads t, t.dir
  {
    t.dir[s.sid].buckets[s.pos.bid].slots[s.pos.slot].entry
  }

  /** A spot in directory coordinates. */
  ghost function SpotPlace(t: Table, s: Spot): Place
    requires OnGrid(t, s) && t.bucketNum > 0
    reads t, t.dir
  {
    Place(Home(SpotEntry(t, s).key.hash, t.bucketNum), s.sid)
  }

  function AsSpots(sid: nat, found: seq<Pos>): (r: seq<Spot>)
    ensures |r| == |found| && forall i | 0 <= i < |r| :: r[i] == Spot(sid, found[i])
  {
    if found == [] then [] else [Spot(sid, found[0])] + AsSpots(sid, found[1..])
  }

  /** The entries of segment `sid` at home in bucket `bid`, each once. */
  ghost predicate AllAt(t: Table, sid: nat, bid: nat, spots: seq<Spot>)
    requires t.bucketNum > 0
    reads t, t.dir
  {
    && (forall x, y | 0 <= x < y < |spots| :: spots[x] != spots[y])
    && (forall s :: s in spots <==> OnGrid(t, s) && SpotPlace(t, s) == Place(bid, sid))
  }

  method VisitSegment(t: Table, sid: nat, bid: nat) returns (spots: seq<Spot>)
    requires t.Valid() && sid < |t.dir| && bid < t.bucketNum
    ensures AllAt(t, sid, bid, spots)
  {
    hide ViewOk, Inv, Contents;
    var found := t.dir[sid].TraverseLogicalBucket(bid);
    spots := AsSpots(sid, found);
    forall s ensures s in spots <==> OnGrid(t, s) && SpotPlace(t, s) == Place(bid, sid) {
      if s in spots {
        assert s.pos in found;
      }
      if OnGrid(t, s) && SpotPlace(t, s) == Place(bid, sid) {
        assert s.pos in found;
        var i :| 0 <= i < |found| && found[i] == s.pos;
        assert spots[i] == s;
      }
    }
  }

  ghost predicate AllOnGrid(t: Table, spots: seq<Spot>)
    reads t, t.dir
  {
    && (forall x, y | 0 <= x < y < |spots| :: spots[x] != spots[y])
    && (forall s | s in spots :: OnGrid(t, s))
  }

  lemma FoundOnGrid(t: Table, sid: nat, bid: nat, spots: seq<Spot>)
    requires t.bucketNum > 0 && AllAt(t, sid, bid, spots)
    ensures AllOnGrid(t, spots)
  {
  }

  ghost function Seen(t: Table, spots: seq<Spot>): set<Entry>
    requires AllOnGrid(t, spots)
    reads t, t.dir
  {
    set s | s in spots :: SpotEntry(t, s)
  }

  /** What is found in a segment is what the walk meets there. */
  lemma VisitMeets(t: Table, sid: nat, bid: nat, spots: seq<Spot>)
    requires t.Valid() && sid < |t.dir| && bid < t.bucketNum && AllAt(t, sid, bid, spots)
    ensures AllOnGrid(t, spots)
    ensures forall e: Entry :: e in Seen(t, spots) <==> MetAt(t.TheView(), t.bucketNum, Place(bid, sid), e)
    ensures spots == [] <==> Vacant(t.TheView(), t.bucketNum, Place(bid, sid))
  {
    hide Inv, Contents, DirOk, DashSplit.Prefix, ViewOk;
    FoundOnGrid(t, sid, bid, spots);
    var v, p := t.TheView(), Place(bid, sid);
    forall e: Entry ensures e in Seen(t, spots) <==> MetAt(v, t.bucketNum, p, e) {
      if e in Seen(t, spots) {
        var s :| s in spots && SpotEntry(t, s) == e;
        SpotCounts(t, s);
      }
      if MetAt(v, t.bucketNum, p, e) {
        var s := SpotOf(t, sid, e);
        assert s in spots;
      }
    }
    if spots != [] {
      assert SpotEntry(t, spots[0]) in Seen(t, spots);
    }
  }

  /** An entry that belongs to the segment of a slot has a spot there. */
  lemma SpotOf(t: Table, sid: nat, e: Entry) returns (s: Spot)
    requires t.Valid() && sid < |t.dir| && Count(t.TheView(), e) > 0 && InSlot(t.TheView(), sid, e)
    ensures OnGrid(t, s) && s.sid == sid && SpotEntry(t, s) == e
  {
    hide Contents, Inv, DirOk, DashSplit.Prefix;
    var b := t.dir[sid].buckets;
    assert e in t.TheView().cs[sid];
    ContentsMember(b, e);
    var i, j :| 0 <= i < |b| && 0 <= j < |b[i].slots| && b[i].slots[j].Used? && b[i].slots[j].entry == e;
    s := Spot(sid, At(i, j));
  }

  lemma SpotCounts(t: Table, s: Spot)
    requires t.Valid() && OnGrid(t, s)
    ensures Count(t.TheView(), SpotEntry(t, s)) > 0 && InSlot(t.TheView(), s.sid, SpotEntry(t, s))
  {
    hide Contents, Inv, DirOk, DashSplit.Prefix;
    var v, e := t.TheView(), SpotEntry(t, s);
    ContentsMember(t.dir[s.sid].buckets, e);
    assert e in v.cs[s.sid];
  }

  lemma TokenInRange<T>(v: View<T>, sid: nat, bid: nat)
    requires ViewOk(v) && v.g < CURSOR_DEPTH && sid < |v.ids| && bid < 256
    ensures Token(v.g, sid, bid) < 0x100_0000_0000
    ensures sid + bid > 0 ==> Token(v.g, sid, bid) != 0
  {
    hide Shr, Shl, InSlot, SameChunk, Pow2;
    FillBounds(v.g, 40 - v.g, sid);
    Pow2Mono(8, 40 - v.g);
    Pow2Of64();
    assert Pow2(8) == 256 && Pow2(40) == 0x100_0000_0000 by {
      Bytes();
    }
  }

  lemma Bytes()
    ensures Pow2(8) == 256 && Pow2(40) == 0x100_0000_0000
  {
    assert Pow2(4) == 16;
    hide Pow2;
    Pow2Add(4, 4);
    Pow2Add(8, 8);
    Pow2Add(16, 16);
    Pow2Add(32, 8);
  }

  /** DashTable::Traverse. From any cursor it does what `Call` says; from one at the beginning of a chunk it
      reports exactly the entries up to the cursor it returns, each once, wherever in its segment the entry
      lives. */
  method Traverse(t: Table, token: nat) returns (next: nat, spots: seq<Spot>)
    requires t.Valid() && t.globalDepth < CURSOR_DEPTH && t.bucketNum < 256
    ensures AllOnGrid(t, spots)
    ensures next < 0x100_0000_0000 && (next != 0 ==> spots != [])
    ensures Call(t.TheView(), t.bucketNum, token, next, Seen(t, spots))
    ensures Aligned(t.TheView(), CursorPlace(token).seg) ==>
              && Covers(t.TheView(), t.bucketNum, token, next, Seen(t, spots))
              && (next != 0 ==> Aligned(t.TheView(), CursorPlace(next).seg))
  {
    hide ViewOk, Inv, Contents, Shl, Shr, Pow2, AllAt, OnGrid, SegmentId, MetAt, Vacant, Covers, Aligned;
    next, spots := Walk(t, token);
    if Aligned(t.TheView(), CursorPlace(token).seg) {
      AlignedCovers(t.TheView(), t.bucketNum, token, next, Seen(t, spots));
    }
  }

  method Walk(t: Table, token: nat) returns (next: nat, spots: seq<Spot>)
    requires t.Valid() && t.globalDepth < CURSOR_DEPTH && t.bucketNum < 256
    ensures AllOnGrid(t, spots)
    ensures next < 0x100_0000_0000 && (next != 0 ==> spots != [])
    ensures Call(t.TheView(), t.bucketNum, token, next, Seen(t, spots))
  {
    hide ViewOk, Inv, Contents, Shl, Shr, Pow2, AllAt, OnGrid, SegmentId, MetAt, Vacant;
    var sid: nat, bid: nat := SegmentId(token, t.globalDepth), BucketId(token);
    ghost var v, from := t.TheView(), Place(bid, sid);
    if bid >= t.bucketNum || sid >= |t.dir| {
      assert Seen(t, []) == {};
      return 0, [];
    }
    while true
      invariant sid < |t.dir| && bid < t.bucketNum
      invariant Landing(v, t.bucketNum, from) == Landing(v, t.bucketNum, Place(bid, sid))
      decreases t.bucketNum - bid, |t.dir| - sid
    {
      spots := VisitSegment(t, sid, bid);
      ghost var here := Place(bid, sid);
      VisitMeets(t, sid, bid, spots);
      NextWithin(v, here);
      sid := sid + Pow2(t.globalDepth - t.dir[sid].localDepth);
      if sid >= |t.dir| {
        sid, bid := 0, bid + 1;
      }
      assert Place(bid, sid) == NextPlace(v, here);
      if bid >= t.bucketNum {
        return 0, spots;
      }
      if spots != [] {
        TokenInRange(v, sid, bid);
        return Token(t.globalDepth, sid, bid), spots;
      }
    }
  }

  // ---- which entries a call reports -----------------------------------------------------

  /** Every segment behind that of slot `a` has more slots than lie between the beginning of a's segment and `a`. */
  ghost predicate NoShort<T>(v: View<T>, a: nat) {
    && a < |v.ids| == |v.ds| && v.ds[a] <= v.g
    && forall j | EndOf(v, a) <= j < |v.ids| :: v.ds[j] <= v.g && a - StartOf(v, a) < Pow2(v.g - v.ds[j])
  }

  /** The place with its slot moved to the beginning of the chunk. */
  ghost function Base<T>(v: View<T>, p: Place): Place
    requires p.seg < |v.ds| && v.ds[p.seg] <= v.g
  {
    Place(p.bid, StartOf(v, p.seg))
  }

  lemma StartFacts<T>(v: View<T>, a: nat)
    requires ViewOk(v) && a < |v.ids|
    ensures a < |v.ds| == |v.ids| && v.ds[a] <= v.g && StartOf(v, a) <= a < EndOf(v, a) <= |v.ids|
    ensures IsStart(v, StartOf(v, a)) && v.ids[StartOf(v, a)] == v.ids[a]
    ensures EndOf(v, a) < |v.ids| ==> IsStart(v, EndOf(v, a))
    ensures forall j | 0 <= j < |v.ids| :: v.ids[j] == v.ids[a] <==> StartOf(v, a) <= j < EndOf(v, a)
  {
    hide Shr, Shl, Pow2, InSlot, SameChunk, ChunkStart;
    var s := StartOf(v, a);
    forall j | 0 <= j < |v.ids| ensures v.ids[j] == v.ids[a] <==> s <= j < EndOf(v, a) {
      ChunkIsInterval(v.ids, v.ds, v.g, a, j);
    }
    ChunkIsInterval(v.ids, v.ds, v.g, a, a);
    assert v.ids[s] == v.ids[a] && v.ds[s] == v.ds[a];
    SameStart(v, a, s);
    NextIsStart(v.ids, v.ds, v.g, s);
  }

  /** Slots of one segment have the same first slot. */
  lemma SameStart<T>(v: View<T>, a: nat, b: nat)
    requires ViewOk(v) && a < |v.ids| && b < |v.ids| && v.ids[a] == v.ids[b]
    ensures a < |v.ds| && b < |v.ds| && v.ds[a] == v.ds[b] <= v.g && StartOf(v, a) == StartOf(v, b)
  {
    hide Shr, Shl, Pow2, InSlot;
    assert SameChunk(a, b, v.g - v.ds[a]);
  }

  lemma StartHasNoShort<T>(v: View<T>, a: nat)
    requires ViewOk(v) && IsStart(v, a)
    ensures NoShort(v, a) && StartOf(v, a) == a
  {
    hide Shr, Shl, InSlot, SameChunk;
  }

  /** With no short segment ahead the walk goes from segment to segment and leaves none out. */
  lemma OneFurther<T>(v: View<T>, p: Place, x: Place)
    requires ViewOk(v) && NoShort(v, p.seg) && IsStart(v, x.seg)
    ensures NextPlace(v, p).seg < |v.ids| && NoShort(v, NextPlace(v, p).seg)
    ensures Before(x, Base(v, NextPlace(v, p))) <==> Before(x, Base(v, p)) || x == Base(v, p)
  {
    hide Shr, Shl, InSlot, Pow2, SameChunk, ChunkStart, ViewOk;
    var a := p.seg;
    NextWithin(v, p);
    StartFacts(v, a);
    StartFacts(v, x.seg);
    SameOrNot(v, a, x.seg);
    var (end, o) := (EndOf(v, a), a - StartOf(v, a));
    if end < |v.ids| {
      StartFacts(v, end);
      SameStart(v, end, end + o);
    } else {
      FirstChunk(v);
      StartHasNoShort(v, 0);
    }
  }

  /** A first slot inside a chunk is the first slot of that chunk. */
  lemma SameOrNot<T>(v: View<T>, a: nat, x: nat)
    requires ViewOk(v) && a < |v.ids| && IsStart(v, x)
    ensures a < |v.ds| && v.ds[a] <= v.g && (StartOf(v, a) <= x < EndOf(v, a) ==> x == StartOf(v, a))
  {
    hide Shr, Shl, InSlot, Pow2, SameChunk, ChunkStart, ViewOk;
    StartFacts(v, a);
    if StartOf(v, a) <= x < EndOf(v, a) {
      SameStart(v, a, x);
    }
  }

  /** Where the walk meets an entry: its home bucket and the first slot of its segment. */
  ghost function EntryPlace<T>(v: View<T>, n: nat, e: Entry): Place
    requires n > 0 && Prefix(e.key.hash, v.g) < |v.ds| && v.ds[Prefix(e.key.hash, v.g)] <= v.g
  {
    Place(Home(e.key.hash, n), StartOf(v, Prefix(e.key.hash, v.g)))
  }

  lemma EntryFacts<T>(v: View<T>, n: nat, e: Entry)
    requires n > 0 && ViewOk(v)
    ensures var x := Prefix(e.key.hash, v.g);
            x < |v.ids| == |v.ds| && v.ds[x] <= v.g && IsStart(v, EntryPlace(v, n, e).seg)
  {
    hide Shr, Shl, InSlot, Pow2, SameChunk, ChunkStart, DashSplit.Prefix;
    HashBound(e.key.hash, v.g);
    StartFacts(v, Prefix(e.key.hash, v.g));
  }

  lemma MetIffThere<T>(v: View<T>, n: nat, p: Place, e: Entry)
    requires n > 0 && ViewOk(v) && p.seg < |v.ids| && Count(v, e) > 0
    ensures Prefix(e.key.hash, v.g) < |v.ds| == |v.ids| && v.ds[Prefix(e.key.hash, v.g)] <= v.g && v.ds[p.seg] <= v.g
    ensures MetAt(v, n, p, e) <==> EntryPlace(v, n, e) == Base(v, p)
  {
    hide Shr, Shl, InSlot, Pow2, SameChunk, ChunkStart, DashSplit.Prefix, ViewOk, Count, Home;
    var x := Prefix(e.key.hash, v.g);
    EntryFacts(v, n, e);
    StartFacts(v, p.seg);
    StartFacts(v, x);
    if v.ids[x] == v.ids[p.seg] {
      SameStart(v, x, p.seg);
    }
  }

  /** Up to the place where it lands, the walk has passed no entry. */
  lemma {:induction false} LandingCovers<T>(v: View<T>, n: nat, p: Place, e: Entry)
    requires n > 0 && ViewOk(v) && p.seg < |v.ids| && NoShort(v, p.seg) && p.bid < n && Count(v, e) > 0
    requires Prefix(e.key.hash, v.g) < |v.ds| && v.ds[Prefix(e.key.hash, v.g)] <= v.g
    ensures var l := Landing(v, n, p);
            && l.seg < |v.ids| == |v.ds| && v.ds[l.seg] <= v.g
            && !Within(EntryPlace(v, n, e), Base(v, p), Base(v, l))
    decreases n - p.bid, |v.ids| - p.seg
  {
    hide Shr, Shl, InSlot, Pow2, SameChunk, ChunkStart, DashSplit.Prefix, ViewOk, Count, Home, NoShort;
    NextWithin(v, p);
    EntryFacts(v, n, e);
    OneFurther(v, p, EntryPlace(v, n, e));
    MetIffThere(v, n, p, e);
    NextWithin(v, NextPlace(v, p));
    if Vacant(v, n, p) && NextPlace(v, p).bid < n {
      LandingCovers(v, n, NextPlace(v, p), e);
    }
  }

  /** The beginning, on the scale of the cursor, of the chunk in which the cursor stands. */
  ghost function CursorBase<T>(v: View<T>, token: nat): Place
    requires v.g < CURSOR_DEPTH && SegmentId(token, v.g) < |v.ds| && v.ds[SegmentId(token, v.g)] <= v.g
  {
    Place(BucketId(token), Shl(StartOf(v, SegmentId(token, v.g)), CURSOR_DEPTH - v.g))
  }

  /** The entries are those the table holds between two places. */
  ghost predicate Between<T>(v: View<T>, n: nat, from: Place, to: Place, seen: set<Entry>)
    requires n > 0
  {
    forall e: Entry :: e in seen <==> Count(v, e) > 0 && Within(PlaceOf(e.key, n), from, to)
  }

  /** The entries are those the table holds between two cursors. */
  ghost predicate Covers<T>(v: View<T>, n: nat, from: nat, to: nat, seen: set<Entry>)
    requires n > 0
  {
    Between(v, n, CursorPlace(from), EndPlace(to, n), seen)
  }

  ghost predicate InRange<T>(v: View<T>, n: nat, token: nat)
    requires v.g < CURSOR_DEPTH
  {
    BucketId(token) < n && SegmentId(token, v.g) < |v.ids| == |v.ds| && v.ds[SegmentId(token, v.g)] <= v.g
  }

  /** Comparing first slots is comparing hashes, when the boundary is itself a first slot. */
  lemma SameSide<T>(v: View<T>, h: Hash, s: nat, a: nat)
    requires ViewOk(v) && v.g < CURSOR_DEPTH && IsStart(v, s) && IsStart(v, a)
    requires Prefix(h, v.g) < |v.ids| && v.ids[Prefix(h, v.g)] == v.ids[s]
    ensures s < a <==> Prefix(h, CURSOR_DEPTH) < Shl(a, CURSOR_DEPTH - v.g)
  {
    hide Shr, Shl, InSlot, Pow2, DashSplit.Prefix;
    var p, k := Prefix(h, v.g), CURSOR_DEPTH - v.g;
    NextIsStart(v.ids, v.ds, v.g, s);
    assert SameChunk(s, a, v.g - v.ds[s]) <==> v.ids[s] == v.ids[a];
    assert s < a <==> p < a;
    DashView.PrefixShr(h, CURSOR_DEPTH, v.g);
    ShrBelow(Prefix(h, CURSOR_DEPTH), a, k);
  }

  /** A place of the directory on the scale of the cursor. */
  ghost function Scaled<T>(v: View<T>, p: Place): Place
    requires v.g < CURSOR_DEPTH
  {
    Place(p.bid, Shl(p.seg, CURSOR_DEPTH - v.g))
  }

  lemma ScaledBefore<T>(v: View<T>, n: nat, e: Entry, b: Place)
    requires n > 0 && ViewOk(v) && v.g < CURSOR_DEPTH && IsStart(v, b.seg)
    ensures Prefix(e.key.hash, v.g) < |v.ds| && v.ds[Prefix(e.key.hash, v.g)] <= v.g
    ensures Before(EntryPlace(v, n, e), b) <==> Before(PlaceOf(e.key, n), Scaled(v, b))
  {
    hide Shr, Shl, InSlot, Pow2, SameChunk, ChunkStart, DashSplit.Prefix, ViewOk, Home;
    EntryFacts(v, n, e);
    var x := Prefix(e.key.hash, v.g);
    StartFacts(v, x);
    SameSide(v, e.key.hash, StartOf(v, x), b.seg);
  }

  /** Behind the place where a call lands, on the scale of the cursor, and the cursor that says so. */
  lemma StopScaled<T>(v: View<T>, n: nat, l: Place)
    requires 0 < n < 256 && ViewOk(v) && v.g < CURSOR_DEPTH && l.bid < n && l.seg < |v.ids|
    ensures l.seg < |v.ds| && v.ds[l.seg] <= v.g
    ensures var (q, to) := (NextPlace(v, l), TokenOf(v.g, n, NextPlace(v, l)));
            && to < 0x100_0000_0000 && q.seg < |v.ids| == |v.ds| && v.ds[q.seg] <= v.g
            && if q.bid < n then to != 0 && SlotPlace(to, v.g) == q && CursorPlace(to) == Scaled(v, q)
               else to == 0 && q == Place(n, 0)
  {
    hide Shr, Shl, InSlot, Pow2, SameChunk, ViewOk, SegmentId;
    NextWithin(v, l);
    var q := NextPlace(v, l);
    StartFacts(v, q.seg);
    if q.bid < n {
      TokenInRange(v, q.seg, q.bid);
      TokenPlace(v.g, q.seg, q.bid);
      TokenSegment(Token(v.g, q.seg, q.bid), v.g);
      ShrShl(q.seg, CURSOR_DEPTH - v.g);
    }
  }

  /** From a cursor with no short segment ahead, a call reports exactly what lies between the beginnings of the
      chunks in which the two cursors stand, and the next cursor has no short segment ahead either. */
  lemma CallCovers<T>(v: View<T>, n: nat, from: nat, to: nat, seen: set<Entry>)
    requires 0 < n < 256 && ViewOk(v) && v.g < CURSOR_DEPTH && Call(v, n, from, to, seen)
    requires InRange(v, n, from) && NoShort(v, SegmentId(from, v.g))
    ensures to != 0 ==> InRange(v, n, to) && NoShort(v, SegmentId(to, v.g))
    ensures Between(v, n, CursorBase(v, from), if to == 0 then Place(n, 0) else CursorBase(v, to), seen)
  {
    hide Shr, Shl, InSlot, Pow2, SameChunk, ChunkStart, DashSplit.Prefix, ViewOk, Count, Home, IsStart, NoShort;
    hide SegmentId, MetAt, Vacant;
    var (p, l) := (SlotPlace(from, v.g), Landing(v, n, SlotPlace(from, v.g)));
    NextWithin(v, l);
    StartFacts(v, p.seg);
    if l.bid < n {
      StopScaled(v, n, l);
    }
    LandsWithNoShort(v, n, p);
    forall e: Entry
      ensures e in seen <==>
              && Count(v, e) > 0
              && Within(PlaceOf(e.key, n), CursorBase(v, from), if to == 0 then Place(n, 0) else CursorBase(v, to))
    {
      CallCoversEntry(v, n, p, l, e);
    }
  }

  lemma LandsWithNoShort<T>(v: View<T>, n: nat, p: Place)
    requires n > 0 && ViewOk(v) && p.seg < |v.ids| && NoShort(v, p.seg) && p.bid < n
    ensures var l := Landing(v, n, p);
            && l.seg < |v.ids| == |v.ds| && v.ds[l.seg] <= v.g && NoShort(v, l.seg)
            && NoShort(v, NextPlace(v, l).seg) && (l.bid < n || l == Place(n, 0))
    decreases n - p.bid, |v.ids| - p.seg
  {
    hide Shr, Shl, InSlot, Pow2, SameChunk, ChunkStart, ViewOk, NoShort;
    NextWithin(v, p);
    StartFacts(v, p.seg);
    OneFurther(v, p, Base(v, p));
    NextWithin(v, NextPlace(v, p));
    OneFurther(v, NextPlace(v, p), Base(v, p));
    if Vacant(v, n, p) && NextPlace(v, p).bid < n {
      LandsWithNoShort(v, n, NextPlace(v, p));
    }
  }

  lemma BaseMono<T>(v: View<T>, a: nat, b: nat)
    requires ViewOk(v) && a <= b < |v.ids|
    ensures a < |v.ds| == |v.ids| && v.ds[a] <= v.g && v.ds[b] <= v.g && StartOf(v, a) <= StartOf(v, b)
  {
    hide Shr, Shl, InSlot, Pow2, SameChunk, ChunkStart, ViewOk;
    StartFacts(v, a);
    StartFacts(v, b);
    if StartOf(v, b) <= a {
      SameStart(v, a, b);
    }
  }

  /** One entry, met where the call lands or not. */
  lemma CallCoversEntry<T>(v: View<T>, n: nat, p: Place, l: Place, e: Entry)
    requires n > 0 && ViewOk(v) && v.g < CURSOR_DEPTH && p.seg < |v.ids| && p.bid < n
    requires NoShort(v, p.seg) && l == Landing(v, n, p)
    ensures l.seg < |v.ids| == |v.ds| && v.ds[l.seg] <= v.g && v.ds[p.seg] <= v.g
    ensures var q := NextPlace(v, l);
            && q.seg < |v.ids| && v.ds[q.seg] <= v.g
            && (l.bid < n && MetAt(v, n, l, e) <==>
                && Count(v, e) > 0
                && Within(PlaceOf(e.key, n), Scaled(v, Base(v, p)),
                          if l.bid < n && q.bid < n then Scaled(v, Base(v, q)) else Place(n, 0)))
  {
    hide Shr, Shl, InSlot, Pow2, SameChunk, ChunkStart, DashSplit.Prefix, ViewOk, Count, Home, NoShort, Vacant, Landing;
    LandsWithNoShort(v, n, p);
    NextWithin(v, l);
    var q := NextPlace(v, l);
    StartFacts(v, l.seg);
    StartFacts(v, p.seg);
    StartFacts(v, q.seg);
    if Count(v, e) > 0 {
      EntryFacts(v, n, e);
      LandingCovers(v, n, p, e);
      MetIffThere(v, n, l, e);
      OneFurther(v, l, EntryPlace(v, n, e));
      ScaledBefore(v, n, e, Base(v, p));
      ScaledBefore(v, n, e, Base(v, q));
      NotBack(v, n, p);
    }
  }

  lemma NotBack<T>(v: View<T>, n: nat, p: Place)
    requires n > 0 && ViewOk(v) && p.seg < |v.ids|
    ensures var l := Landing(v, n, p);
            && l.seg < |v.ids| == |v.ds| && v.ds[l.seg] <= v.g && v.ds[p.seg] <= v.g
            && !Before(Base(v, l), Base(v, p))
  {
    hide Shr, Shl, InSlot, Pow2, SameChunk, ChunkStart, ViewOk, Landing;
    var l := Landing(v, n, p);
    StartFacts(v, l.seg);
    StartFacts(v, p.seg);
    if p.seg <= l.seg {
      BaseMono(v, p.seg, l.seg);
    }
  }

  /** From the first slot of a segment the walk goes to first slots only. */
  lemma {:induction false} LandsAtStart<T>(v: View<T>, n: nat, p: Place)
    requires n > 0 && ViewOk(v) && IsStart(v, p.seg)
    ensures var l := Landing(v, n, p); IsStart(v, l.seg) && IsStart(v, NextPlace(v, l).seg)
    decreases n - p.bid, |v.ids| - p.seg
  {
    hide Shr, Shl, InSlot, Pow2, SameChunk, ChunkStart, Vacant;
    NextWithin(v, p);
    NextIsStart(v.ids, v.ds, v.g, p.seg);
    FirstChunk(v);
    if p.bid < n && Vacant(v, n, p) {
      LandsAtStart(v, n, NextPlace(v, p));
    }
  }

  /** From a cursor at the beginning of a chunk, a call reports exactly what lies between the two cursors. */
  lemma AlignedCovers<T>(v: View<T>, n: nat, from: nat, to: nat, seen: set<Entry>)
    requires 0 < n < 256 && ViewOk(v) && v.g < CURSOR_DEPTH && Call(v, n, from, to, seen)
    requires Aligned(v, CursorPlace(from).seg)
    ensures Covers(v, n, from, to, seen) && (to != 0 ==> Aligned(v, CursorPlace(to).seg))
  {
    hide Shr, Shl, InSlot, Pow2, SameChunk, ViewOk, Between, SegmentId, MetAt, Vacant, Landing;
    AlignedSlot(v, from);
    var p := SlotPlace(from, v.g);
    if p.bid >= n {
      NothingLeft(v, n, from);
    } else {
      StartHasNoShort(v, p.seg);
      CallCovers(v, n, from, to, seen);
      LandsAtStart(v, n, p);
      var l := Landing(v, n, p);
      NextWithin(v, l);
      if l.bid < n {
        StopScaled(v, n, l);
        ShrShl(NextPlace(v, l).seg, CURSOR_DEPTH - v.g);
      }
    }
  }

  lemma AlignedSlot<T>(v: View<T>, token: nat)
    requires ViewOk(v) && v.g < CURSOR_DEPTH && Aligned(v, CursorPlace(token).seg)
    ensures token < 0x100_0000_0000
    ensures IsStart(v, SegmentId(token, v.g)) && CursorPlace(token) == Scaled(v, SlotPlace(token, v.g))
  {
    hide Shr, Shl, InSlot, Pow2, SameChunk, SegmentId;
    var sid := Shr(CursorPlace(token).seg, CURSOR_DEPTH - v.g);
    FillBounds(v.g, CURSOR_DEPTH - v.g, sid);
    Pow2Of32();
    TokenSegment(token, v.g);
  }

  lemma NothingLeft<T>(v: View<T>, n: nat, token: nat)
    requires 0 < n <= BucketId(token)
    ensures Covers(v, n, token, 0, {})
  {
    forall e: Entry ensures !Within(PlaceOf(e.key, n), CursorPlace(token), EndPlace(0, n)) {
    }
  }
}
