/** What a traversal reaches from a cursor that a merge has left inside a chunk. */
module DashTraverseShrink {
  import opened Arith
  import opened Keys
  import opened DashBucket
  import opened DashDirectory
  import opened DashView
  import opened DashTable
  import opened DashTraverse
  import opened DashTraverseRun

  // ---- one step of the walk -------------------------------------------------------------

  /** NextSeg steps from slot `i` into the segment behind exactly when that segment is longer than the distance of
      slot `i` from the first slot of its own segment. */
  lemma NextSegReaches<T>(v: View<T>, i: nat)
    requires ViewOk(v) && i < |v.ids|
    ensures i < |v.ds| == |v.ids| && v.ds[i] <= v.g && StartOf(v, i) <= i < EndOf(v, i) <= |v.ids|
    ensures var (start, end, next) := (StartOf(v, i), EndOf(v, i), i + Pow2(v.g - v.ds[i]));
            end < |v.ids| ==>
              && v.ds[end] <= v.g
              && (next < |v.ids| && v.ids[next] == v.ids[end] <==> i - start < Pow2(v.g - v.ds[end]))
  {
    hide Shr, Shl, Pow2, InSlot, ChunkStart, SameChunk, ViewOk;
    StartFacts(v, i);
    if EndOf(v, i) < |v.ids| {
      StartFacts(v, EndOf(v, i));
    }
  }

  // ---- the walk to the end --------------------------------------------------------------

  /** The walk from `p` on comes to the segment of slot `x.seg` in bucket `x.bid`. */
  ghost predicate Passes<T>(v: View<T>, n: nat, p: Place, x: Place)
    requires ViewOk(v) && p.seg < |v.ids| && x.seg < |v.ids|
    decreases n - p.bid, |v.ids| - p.seg
  {
    && p.bid < n
    && (|| (p.bid == x.bid && v.ids[p.seg] == v.ids[x.seg])
        || (NextWithin(v, p); Passes(v, n, NextPlace(v, p), x)))
  }

  /** The walk does not come back. */
  lemma {:induction false} PastIsPast<T>(v: View<T>, n: nat, p: Place, x: Place)
    requires ViewOk(v) && p.seg < |v.ids| && x.seg < |v.ids|
    requires x.bid < p.bid || (x.bid == p.bid && x.seg < StartOf(v, p.seg))
    ensures !Passes(v, n, p, x)
    decreases n - p.bid, |v.ids| - p.seg
  {
    hide Shr, Shl, Pow2, InSlot, ChunkStart, SameChunk, ViewOk;
    NextWithin(v, p);
    StartFacts(v, p.seg);
    var q := NextPlace(v, p);
    if q.bid == p.bid {
      BaseMono(v, p.seg, q.seg);
    }
    if p.bid < n {
      PastIsPast(v, n, q, x);
    }
  }

  /** Slot `f` begins a segment behind that of `a`, with no more slots than lie between the beginning of a's
      segment and `a`. */
  ghost predicate Short<T>(v: View<T>, a: nat, f: nat)
    requires a < |v.ds| && v.ds[a] <= v.g
  {
    EndOf(v, a) <= f && IsStart(v, f) && Pow2(v.g - v.ds[f]) <= a - StartOf(v, a)
  }

  /** The first such segment. */
  ghost predicate FirstShort<T>(v: View<T>, a: nat, f: nat)
    requires a < |v.ds| && v.ds[a] <= v.g
  {
    Short(v, a, f) && forall j: nat | j < f :: !Short(v, a, j)
  }

  lemma ShortBelow<T>(v: View<T>, a: nat, f: nat) returns (g: nat)
    requires a < |v.ds| && v.ds[a] <= v.g && Short(v, a, f)
    ensures FirstShort(v, a, g)
  {
    hide IsStart, StartOf, EndOf, Pow2;
    g := f;
    if j: nat :| j < f && Short(v, a, j) {
      g := ShortBelow(v, a, j);
    }
  }

  /** The next segment is short, or the walk comes to it at the same distance from its beginning. */
  lemma StepTowards<T>(v: View<T>, a: nat, f: nat)
    requires ViewOk(v) && a < |v.ids| && a < |v.ds| && v.ds[a] <= v.g && FirstShort(v, a, f) && EndOf(v, a) != f
    ensures var b := a + Pow2(v.g - v.ds[a]);
            && b < |v.ids| && b < |v.ds| && v.ds[b] <= v.g && StartOf(v, b) == EndOf(v, a)
            && b - StartOf(v, b) == a - StartOf(v, a) && FirstShort(v, b, f)
  {
    hide Shr, Shl, Pow2, InSlot, ChunkStart, SameChunk, ViewOk;
    StartFacts(v, a);
    var end := EndOf(v, a);
    StartFacts(v, end);
    assert !Short(v, a, end);
    SameStart(v, end, a + Pow2(v.g - v.ds[a]));
    SameOrNot(v, end, f);
    var b := a + Pow2(v.g - v.ds[a]);
    forall j: nat | j < f ensures !Short(v, b, j) {
      assert !Short(v, a, j);
    }
  }

  /** From slot `a` the walk comes to every segment of the row before the first short one `f`. It skips that
      one: behind `f` it comes to what it would come to from the slot as far from `f` as `a` is from its own
      beginning. */
  lemma {:induction false} UpToShort<T>(v: View<T>, n: nat, p: Place, f: nat, j: nat)
    requires ViewOk(v) && p.bid < n && p.seg < |v.ids| && p.seg < |v.ds| && v.ds[p.seg] <= v.g
             && FirstShort(v, p.seg, f)
    requires StartOf(v, p.seg) <= j < |v.ids|
    ensures var e := f + (p.seg - StartOf(v, p.seg));
            Passes(v, n, p, Place(p.bid, j)) <==>
              j < f || (e < |v.ids| && Passes(v, n, Place(p.bid, e), Place(p.bid, j)))
    decreases |v.ids| - p.seg
  {
    hide Shr, Shl, Pow2, InSlot, ChunkStart, SameChunk, ViewOk, FirstShort, Short;
    var a := p.seg;
    StartFacts(v, a);
    NextWithin(v, p);
    var e := f + (a - StartOf(v, a));
    if EndOf(v, a) == f {
      if e >= |v.ids| {
        PastIsPast(v, n, NextPlace(v, p), Place(p.bid, j));
      }
    } else {
      StepTowards(v, a, f);
      var b := a + Pow2(v.g - v.ds[a]);
      ShortBounds(v, b, f);
      if StartOf(v, b) <= j {
        UpToShort(v, n, Place(p.bid, b), f, j);
      }
    }
    ShortBounds(v, a, f);
  }

  lemma ShortBounds<T>(v: View<T>, a: nat, f: nat)
    requires a < |v.ds| && v.ds[a] <= v.g && FirstShort(v, a, f)
    ensures EndOf(v, a) <= f < |v.ids| == |v.ds| && IsStart(v, f) && Pow2(v.g - v.ds[f]) <= a - StartOf(v, a)
  {
  }

  /** The first short segment is not reached. */
  lemma ShortIsSkipped<T>(v: View<T>, n: nat, p: Place, f: nat)
    requires ViewOk(v) && p.seg < |v.ids| && p.seg < |v.ds| && v.ds[p.seg] <= v.g && FirstShort(v, p.seg, f)
    ensures f < |v.ids| && !Passes(v, n, p, Place(p.bid, f))
  {
    hide Shr, Shl, Pow2, InSlot, ChunkStart, SameChunk, ViewOk, FirstShort, Short;
    StartFacts(v, p.seg);
    ShortBounds(v, p.seg, f);
    if p.bid < n {
      UpToShort(v, n, p, f, f);
      var e := f + (p.seg - StartOf(v, p.seg));
      if e < |v.ids| {
        StartFacts(v, f);
        StartFacts(v, e);
        assert v.ids[e] != v.ids[f];
        BaseMono(v, f, e);
        PastIsPast(v, n, Place(p.bid, e), Place(p.bid, f));
      }
    }
  }

  /** The walk from `p` on comes to everything from the beginning of p's segment on. */
  ghost predicate PassesRest<T>(v: View<T>, n: nat, p: Place)
    requires ViewOk(v) && p.seg < |v.ids| && p.seg < |v.ds| && v.ds[p.seg] <= v.g
  {
    forall x: Place | x.bid < n && x.seg < |v.ids| && !Before(x, Base(v, p)) :: Passes(v, n, p, x)
  }

  lemma {:induction false} NoShortPasses<T>(v: View<T>, n: nat, p: Place, x: Place)
    requires ViewOk(v) && p.bid < n && p.seg < |v.ids| && NoShort(v, p.seg) && x.bid < n && x.seg < |v.ids|
    requires !Before(x, Base(v, p))
    ensures Passes(v, n, p, x)
    decreases n - p.bid, |v.ids| - p.seg
  {
    hide Shr, Shl, Pow2, InSlot, ChunkStart, SameChunk, ViewOk, NoShort;
    NextWithin(v, p);
    StartFacts(v, p.seg);
    StartFacts(v, x.seg);
    OneFurther(v, p, Base(v, x));
    var q := NextPlace(v, p);
    StartFacts(v, q.seg);
    if p.bid == x.bid && v.ids[p.seg] == v.ids[x.seg] {
    } else {
      if p.bid == x.bid {
        BaseMono(v, StartOf(v, p.seg), x.seg);
        SameOrNot(v, p.seg, StartOf(v, x.seg));
      }
      assert !Before(x, Base(v, q));
      NoShortPasses(v, n, q, x);
    }
  }

  /** Nothing is left out exactly when no segment behind the cursor's, in its row, is short. */
  lemma PassesRestIff<T>(v: View<T>, n: nat, p: Place)
    requires ViewOk(v) && p.bid < n && p.seg < |v.ids|
    ensures p.seg < |v.ds| && v.ds[p.seg] <= v.g && (PassesRest(v, n, p) <==> NoShort(v, p.seg))
  {
    hide Shr, Shl, Pow2, InSlot, ChunkStart, SameChunk, ViewOk, Passes, FirstShort;
    StartFacts(v, p.seg);
    if NoShort(v, p.seg) {
      forall x: Place | x.bid < n && x.seg < |v.ids| && !Before(x, Base(v, p)) ensures Passes(v, n, p, x) {
        NoShortPasses(v, n, p, x);
      }
    } else {
      var end := EndOf(v, p.seg);
      var j: nat :| end <= j < |v.ids| && !(v.ds[j] <= v.g && p.seg - StartOf(v, p.seg) < Pow2(v.g - v.ds[j]));
      StartFacts(v, j);
      StartFacts(v, end);
      BaseMono(v, end, j);
      SameStart(v, StartOf(v, j), j);
      SameOrNot(v, end, end);
      var f := ShortBelow(v, p.seg, StartOf(v, j));
      ShortBounds(v, p.seg, f);
      ShortIsSkipped(v, n, p, f);
      assert !Before(Place(p.bid, f), Base(v, p));
    }
  }

  // ---- the rest of a traversal ----------------------------------------------------------

  /** The slot a key's hash selects, in its home bucket. */
  ghost function KeySlot<T>(v: View<T>, n: nat, k: Key): Place
    requires n > 0
  {
    Place(Home(k.hash, n), Prefix(k.hash, v.g))
  }

  /** From a place it passes, the walk comes to what it meets where it lands, or to what lies behind. */
  lemma {:induction false} LandingPasses<T>(v: View<T>, n: nat, p: Place, e: Entry)
    requires n > 0 && ViewOk(v) && p.seg < |v.ids| && Count(v, e) > 0
    ensures KeySlot(v, n, e.key).seg < |v.ids|
    ensures var (l, x) := (Landing(v, n, p), KeySlot(v, n, e.key));
            && l.seg < |v.ds| && v.ds[l.seg] <= v.g && NextPlace(v, l).seg < |v.ids|
            && (Passes(v, n, p, x) <==> l.bid < n && (MetAt(v, n, l, e) || Passes(v, n, NextPlace(v, l), x)))
    decreases n - p.bid, |v.ids| - p.seg
  {
    hide Shr, Shl, Pow2, InSlot, ChunkStart, SameChunk, DashSplit.Prefix, Home;
    EntryFacts(v, n, e);
    NextWithin(v, p);
    hide ViewOk, Count;
    if p.bid < n && Vacant(v, n, p) {
      assert !MetAt(v, n, p, e);
      LandingPasses(v, n, NextPlace(v, p), e);
    }
  }

  /** A key lies ahead of a call exactly when the call reports it or it lies ahead of the next. */
  lemma CallPasses<T>(v: View<T>, n: nat, from: nat, to: nat, seen: set<Entry>, k: Key)
    requires 0 < n < 256 && from < 0x100_0000_0000 && CallOk(v, n, from, to, seen) && HasKey(v, k)
    ensures SlotPlace(from, v.g).seg < |v.ids| && SlotPlace(to, v.g).seg < |v.ids| && KeySlot(v, n, k).seg < |v.ids|
    ensures Passes(v, n, SlotPlace(from, v.g), KeySlot(v, n, k)) <==>
              Reported(seen, k) || (to != 0 && Passes(v, n, SlotPlace(to, v.g), KeySlot(v, n, k)))
  {
    hide Shr, Shl, Pow2, InSlot, SameChunk, DashSplit.Prefix, Home, Count, SegmentId, Landing, Passes, Vacant;
    CallForward(v, n, from, to, seen);
    TokenSegment(from, v.g);
    TokenSegment(to, v.g);
    var e: Entry :| e.key == k && Count(v, e) > 0;
    EntryFacts(v, n, e);
    var p := SlotPlace(from, v.g);
    hide ViewOk;
    if p.bid < n {
      LandingPasses(v, n, p, e);
      var l := Landing(v, n, p);
      assert Reported(seen, k) <==> l.bid < n && MetAt(v, n, l, e) by {
        if e': Entry :| e' in seen && e'.key == k {
          assert MetAt(v, n, l, e');
        }
      }
      if l.bid < n {
        StopScaled(v, n, l);
        NoneBehind(v, n, NextPlace(v, l), KeySlot(v, n, k));
      }
    } else {
      NoneBehind(v, n, p, KeySlot(v, n, k));
    }
  }

  lemma NoneBehind<T>(v: View<T>, n: nat, p: Place, x: Place)
    requires ViewOk(v) && p.seg < |v.ids| && x.seg < |v.ids|
    ensures p.bid >= n ==> !Passes(v, n, p, x)
  {
  }

  ghost predicate SameDirectory<T>(v: View<T>, w: View<T>) { v.g == w.g && v.ids == w.ids && v.ds == w.ds }

  lemma {:induction false} PassesSame<T>(v: View<T>, w: View<T>, n: nat, p: Place, x: Place)
    requires ViewOk(v) && ViewOk(w) && SameDirectory(v, w) && p.seg < |v.ids| && x.seg < |v.ids|
    ensures Passes(v, n, p, x) <==> Passes(w, n, p, x)
    decreases n - p.bid, |v.ids| - p.seg
  {
    hide Shr, Shl, Pow2, InSlot, SameChunk, ViewOk;
    NextWithin(v, p);
    if p.bid < n {
      PassesSame(v, w, n, NextPlace(v, p), x);
    }
  }

  /** From call m on the directory stays as it is, though not what the segments hold. */
  ghost predicate FixedFrom<T>(vs: seq<View<T>>, m: nat) {
    m < |vs| && forall j | m <= j < |vs| :: SameDirectory(vs[m], vs[j])
  }

  ghost predicate ReportedFrom(seen: seq<set<Entry>>, m: nat, k: Key) {
    exists i | m <= i < |seen| :: Reported(seen[i], k)
  }

  ghost predicate HeldFrom<T>(vs: seq<View<T>>, m: nat, k: Key) {
    forall j | m <= j < |vs| :: HasKey(vs[j], k)
  }

  /** A key lies ahead of call m. */
  ghost predicate Ahead<T>(n: nat, vs: seq<View<T>>, cs: seq<nat>, m: nat, k: Key)
    requires n > 0 && m < |vs| && m < |cs| && ViewOk(vs[m]) && vs[m].g < CURSOR_DEPTH
  {
    var (p, x) := (SlotPlace(cs[m], vs[m].g), KeySlot(vs[m], n, k));
    p.seg < |vs[m].ids| && x.seg < |vs[m].ids| && Passes(vs[m], n, p, x)
  }

  /** While the directory stays as it is, the rest of a traversal reports a key that is there throughout exactly
      when the walk from the cursor, wherever in a chunk it stands, comes to the key's segment. */
  lemma {:induction false} RestReports<T>(n: nat, vs: seq<View<T>>, cs: seq<nat>, seen: seq<set<Entry>>, m: nat, k: Key)
    requires Run(n, vs, cs, seen) && FixedFrom(vs, m) && cs[|vs|] == 0 && HeldFrom(vs, m, k)
    ensures ViewOk(vs[m]) && vs[m].g < CURSOR_DEPTH
    ensures ReportedFrom(seen, m, k) <==> Ahead(n, vs, cs, m, k)
    decreases |vs| - m
  {
    hide HasKey, ViewOk, Call, Passes, KeySlot, SlotPlace, Reported;
    assert CallOk(vs[m], n, cs[m], cs[m + 1], seen[m]);
    RankGrows(n, vs, cs, seen, m);
    CallPasses(vs[m], n, cs[m], cs[m + 1], seen[m], k);
    if m + 1 < |vs| {
      RestReports(n, vs, cs, seen, m + 1, k);
      SameAhead(n, vs, cs, m, k);
    }
    assert ReportedFrom(seen, m, k) <==> Reported(seen[m], k) || ReportedFrom(seen, m + 1, k);
  }

  lemma SameAhead<T>(n: nat, vs: seq<View<T>>, cs: seq<nat>, m: nat, k: Key)
    requires n > 0 && FixedFrom(vs, m) && m + 1 < |vs| && m + 1 < |cs| && ViewOk(vs[m]) && ViewOk(vs[m + 1])
    requires vs[m].g < CURSOR_DEPTH && KeySlot(vs[m], n, k).seg < |vs[m].ids|
    requires SlotPlace(cs[m + 1], vs[m].g).seg < |vs[m].ids|
    ensures vs[m + 1].g < CURSOR_DEPTH && FixedFrom(vs, m + 1)
    ensures Ahead(n, vs, cs, m + 1, k) <==> Passes(vs[m], n, SlotPlace(cs[m + 1], vs[m].g), KeySlot(vs[m], n, k))
  {
    hide ViewOk, Passes, SlotPlace, DashSplit.Prefix, Home;
    assert SameDirectory(vs[m], vs[m + 1]);
    PassesSame(vs[m], vs[m + 1], n, SlotPlace(cs[m + 1], vs[m].g), KeySlot(vs[m], n, k));
  }

  // ---- one change of the directory ------------------------------------------------------

  /** A finished traversal whose cursors stand at the beginning of chunks up to call m, where the directory may
      have been merged in any way, and whose directory stays as it is from then on. */
  ghost predicate ChangedAt<T>(n: nat, vs: seq<View<T>>, cs: seq<nat>, seen: seq<set<Entry>>, m: nat) {
    && Run(n, vs, cs, seen) && FixedFrom(vs, m) && cs[|vs|] == 0
    && forall i | 0 <= i < m :: vs[i].g < CURSOR_DEPTH && Aligned(vs[i], CursorPlace(cs[i]).seg)
  }

  /** Such a traversal reports a key that is there throughout exactly when the key lies before the cursor of call m, or
      ahead of it in the changed directory. */
  lemma OneChange<T>(n: nat, vs: seq<View<T>>, cs: seq<nat>, seen: seq<set<Entry>>, m: nat, k: Key)
    requires ChangedAt(n, vs, cs, seen, m) && HeldFrom(vs, 0, k)
    ensures ViewOk(vs[m]) && vs[m].g < CURSOR_DEPTH
    ensures ReportedFrom(seen, 0, k) <==> Before(PlaceOf(k, n), CursorPlace(cs[m])) || Ahead(n, vs, cs, m, k)
  {
    hide HasKey, ViewOk, Call, Ahead, Reported, Aligned, Between, PlaceOf, CursorPlace, InWindow;
    RestReports(n, vs, cs, seen, m, k);
    forall i | 0 <= i < m ensures Reported(seen[i], k) <==> InWindow(n, cs, k, i) {
      AlignedCovers(vs[i], n, cs[i], cs[i + 1], seen[i]);
      ReportedIffInWindow(vs[i], n, cs, i, seen[i], k);
    }
    WindowsUpTo(n, vs, cs, seen, m, k);
    assert ReportedFrom(seen, 0, k) <==>
             (exists i | 0 <= i < m :: Reported(seen[i], k)) || ReportedFrom(seen, m, k)
    by {
      if i :| 0 <= i < |seen| && Reported(seen[i], k) {
        assert i < m || ReportedFrom(seen, m, k);
      }
    }
  }

  /** The calls before call m go through what lies before its cursor. */
  lemma WindowsUpTo<T>(n: nat, vs: seq<View<T>>, cs: seq<nat>, seen: seq<set<Entry>>, m: nat, k: Key)
    requires Run(n, vs, cs, seen) && m < |vs|
    ensures Before(PlaceOf(k, n), CursorPlace(cs[m])) <==> exists i: nat | i < m :: InWindow(n, cs, k, i)
  {
    hide CallOk, PlaceOf;
    if Before(PlaceOf(k, n), CursorPlace(cs[m])) {
      if m > 0 {
        var i := WindowOf(n, cs, m, k);
      }
    }
    if i: nat :| i < m && InWindow(n, cs, k, i) {
      WindowsApart(n, vs, cs, seen, i, m);
    }
  }

  /** The key's slot lies in the segment that begins at slot `f`, in the bucket of the cursor. */
  ghost predicate KeyIn<T>(v: View<T>, n: nat, token: nat, f: nat, k: Key)
    requires n > 0 && v.g < CURSOR_DEPTH
  {
    && KeySlot(v, n, k).bid == SlotPlace(token, v.g).bid && KeySlot(v, n, k).seg < |v.ids| && f < |v.ids|
    && v.ids[KeySlot(v, n, k).seg] == v.ids[f]
  }

  /** The change has left a short segment ahead of the cursor. No call reports a key of the first one in this bucket. */
  lemma ShrinkLoses<T>(n: nat, vs: seq<View<T>>, cs: seq<nat>, seen: seq<set<Entry>>, m: nat, f: nat, k: Key)
    requires ChangedAt(n, vs, cs, seen, m) && HeldFrom(vs, 0, k) && ViewOk(vs[m]) && vs[m].g < CURSOR_DEPTH
    requires InRange(vs[m], n, cs[m]) && FirstShort(vs[m], SlotPlace(cs[m], vs[m].g).seg, f)
    requires KeyIn(vs[m], n, cs[m], f, k)
    ensures !ReportedFrom(seen, 0, k)
  {
    hide HasKey, ViewOk, Call, Reported, Aligned, Passes, ReportedFrom, DashSplit.Prefix, Home, SegmentId, Shr, Pow2;
    hide FirstShort, StartOf, EndOf;
    var (v, p) := (vs[m], SlotPlace(cs[m], vs[m].g));
    OneChange(n, vs, cs, seen, m, k);
    RankGrows(n, vs, cs, seen, m);
    ShortBounds(v, p.seg, f);
    StartFacts(v, p.seg);
    StartFacts(v, f);
    ShortIsSkipped(v, n, p, f);
    PassesSegment(v, n, p, KeySlot(v, n, k), Place(p.bid, f));
    SlotBelow(v, n, cs[m], k);
  }

  lemma {:induction false} PassesSegment<T>(v: View<T>, n: nat, p: Place, x: Place, y: Place)
    requires ViewOk(v) && p.seg < |v.ids| && x.seg < |v.ids| && y.seg < |v.ids|
    requires x.bid == y.bid && v.ids[x.seg] == v.ids[y.seg]
    ensures Passes(v, n, p, x) <==> Passes(v, n, p, y)
    decreases n - p.bid, |v.ids| - p.seg
  {
    hide Shr, Shl, Pow2, InSlot, SameChunk, ViewOk;
    NextWithin(v, p);
    if p.bid < n {
      PassesSegment(v, n, NextPlace(v, p), x, y);
    }
  }

  /** A key before the cursor has a slot that is not behind the cursor's. */
  lemma SlotBelow<T>(v: View<T>, n: nat, token: nat, k: Key)
    requires n > 0 && v.g < CURSOR_DEPTH && token < 0x100_0000_0000
    ensures Before(PlaceOf(k, n), CursorPlace(token)) ==> !Before(SlotPlace(token, v.g), KeySlot(v, n, k))
    ensures Before(KeySlot(v, n, k), SlotPlace(token, v.g)) ==> Before(PlaceOf(k, n), CursorPlace(token))
  {
    hide DashSplit.Prefix, Home, SegmentId, Shr, Pow2;
    TokenSegment(token, v.g);
    DashView.PrefixShr(k.hash, CURSOR_DEPTH, v.g);
    var (h, seg, d) := (PlaceOf(k, n).seg, CursorPlace(token).seg, CURSOR_DEPTH - v.g);
    ShrMono(h, seg, d);
    ShrMono(seg, h, d);
  }

  lemma ShrMono(x: nat, y: nat, k: nat)
    ensures x <= y ==> Shr(x, k) <= Shr(y, k)
  {
    hide Shr;
    ShrBelow(x, Shr(x, k), k);
    ShrBelow(y, Shr(x, k), k);
  }

  /** The change has left no short segment ahead of the cursor. Every key is reported. */
  lemma ShrinkKeeps<T>(n: nat, vs: seq<View<T>>, cs: seq<nat>, seen: seq<set<Entry>>, m: nat, k: Key)
    requires ChangedAt(n, vs, cs, seen, m) && HeldFrom(vs, 0, k) && ViewOk(vs[m]) && vs[m].g < CURSOR_DEPTH
    requires InRange(vs[m], n, cs[m]) && NoShort(vs[m], SlotPlace(cs[m], vs[m].g).seg)
    ensures ReportedFrom(seen, 0, k)
  {
    hide HasKey, ViewOk, Call, Reported, Aligned, Passes, ReportedFrom, DashSplit.Prefix, Home, SegmentId, Shr, Pow2;
    hide NoShort, StartOf, EndOf;
    var (v, p) := (vs[m], SlotPlace(cs[m], vs[m].g));
    OneChange(n, vs, cs, seen, m, k);
    RankGrows(n, vs, cs, seen, m);
    SlotBelow(v, n, cs[m], k);
    StartFacts(v, p.seg);
    SlotExists(v, n, k);
    if !Before(PlaceOf(k, n), CursorPlace(cs[m])) {
      NoShortPasses(v, n, p, KeySlot(v, n, k));
    }
  }

  lemma SlotExists<T>(v: View<T>, n: nat, k: Key)
    requires n > 0 && ViewOk(v)
    ensures KeySlot(v, n, k).seg < |v.ids| && KeySlot(v, n, k).bid < n
  {
    hide DashSplit.Prefix, Shr, Pow2, InSlot, SameChunk;
    HashBound(k.hash, v.g);
  }

  // ---- any number of changes ------------------------------------------------------------

  /** At every call no short segment lies ahead of the cursor, and the chunk in which it stands begins no later
      than it did at the end of the call before. */
  ghost predicate ClearRun<T>(n: nat, vs: seq<View<T>>, cs: seq<nat>, seen: seq<set<Entry>>) {
    && Run(n, vs, cs, seen)
    && (forall i | 0 <= i < |vs| :: Clear(vs[i], n, cs[i]))
    && (forall i | 0 < i < |vs| :: NotLater(vs[i - 1], vs[i], cs[i]))
  }

  ghost predicate Clear<T>(v: View<T>, n: nat, token: nat) {
    v.g < CURSOR_DEPTH && InRange(v, n, token) && NoShort(v, SlotPlace(token, v.g).seg)
  }

  ghost predicate NotLater<T>(v: View<T>, w: View<T>, token: nat) {
    && v.g < CURSOR_DEPTH && w.g < CURSOR_DEPTH
    && SlotPlace(token, v.g).seg < |v.ds| && v.ds[SlotPlace(token, v.g).seg] <= v.g
    && SlotPlace(token, w.g).seg < |w.ds| && w.ds[SlotPlace(token, w.g).seg] <= w.g
    && !Before(CursorBase(v, token), CursorBase(w, token))
  }

  /** Such a traversal, when finished, has reported every key that was there throughout, though perhaps more
      than once. */
  lemma RunReports<T>(n: nat, vs: seq<View<T>>, cs: seq<nat>, seen: seq<set<Entry>>, k: Key)
    requires ClearRun(n, vs, cs, seen) && |vs| > 0 && cs[|vs|] == 0 && HeldFrom(vs, 0, k)
    ensures ReportedFrom(seen, 0, k)
  {
    hide HasKey, Clear, NotLater, CallOk, Reported, Before;
    var i := FoundBy(n, vs, cs, seen, |vs|, k);
  }

  lemma {:induction false} FoundBy<T>(n: nat, vs: seq<View<T>>, cs: seq<nat>, seen: seq<set<Entry>>, m: nat, k: Key)
    returns (i: nat)
    requires ClearRun(n, vs, cs, seen) && 0 < m <= |vs| && HeldFrom(vs, 0, k)
    requires var v := vs[m - 1];
             cs[m] == 0 || (Clear(v, n, cs[m]) && Before(PlaceOf(k, n), CursorBase(v, cs[m])))
    ensures i < m && Reported(seen[i], k)
  {
    hide HasKey, NoShort, CursorBase, PlaceOf, ViewOk, Call;
    var v := vs[m - 1];
    assert CallOk(v, n, cs[m - 1], cs[m], seen[m - 1]) && Clear(v, n, cs[m - 1]);
    WindowReports(v, n, cs[m - 1], cs[m], seen[m - 1], k);
    if Before(PlaceOf(k, n), CursorBase(v, cs[m - 1])) {
      if m == 1 {
        FirstBase(v, k, n);
      } else {
        var u := vs[m - 2];
        assert CallOk(u, n, cs[m - 2], cs[m - 1], seen[m - 2]) && Clear(u, n, cs[m - 2]);
        CallCovers(u, n, cs[m - 2], cs[m - 1], seen[m - 2]);
        assert Clear(u, n, cs[m - 1]) && NotLater(u, v, cs[m - 1]);
        i := FoundBy(n, vs, cs, seen, m - 1, k);
      }
    } else {
      i := m - 1;
    }
  }

  lemma FirstBase<T>(v: View<T>, k: Key, n: nat)
    requires n > 0 && v.g < CURSOR_DEPTH && InRange(v, n, 0)
    ensures !Before(PlaceOf(k, n), CursorBase(v, 0))
  {
    hide Shl, Shr;
    TokenSegment(0, v.g);
    var d := CURSOR_DEPTH - v.g;
    ShrBound(0, 0, d);
    ShlZero(d);
    ShrBound(0, 0, v.g - v.ds[0]);
    ShlZero(v.g - v.ds[0]);
  }

  lemma WindowReports<T>(v: View<T>, n: nat, from: nat, to: nat, seen: set<Entry>, k: Key)
    requires 0 < n < 256 && CallOk(v, n, from, to, seen) && Clear(v, n, from) && HasKey(v, k)
    ensures to != 0 ==> Clear(v, n, to)
    ensures !Before(PlaceOf(k, n), CursorBase(v, from)) && (to == 0 || Before(PlaceOf(k, n), CursorBase(v, to))) ==>
              Reported(seen, k)
  {
    hide NoShort, CursorBase, ViewOk, Call, Count, DashSplit.Prefix;
    CallCovers(v, n, from, to, seen);
    var e: Entry :| e.key == k && Count(v, e) > 0;
    assert Within(PlaceOf(k, n), CursorBase(v, from), if to == 0 then Place(n, 0) else CursorBase(v, to)) ==> e in seen;
  }

  /** A merge moves the beginning of no chunk to a later place. */
  lemma MergeNotLater<T>(v: View<T>, w: View<T>, x: nat, y: nat, n: nat, token: nat)
    requires ViewOk(v) && Twins(v, x, y) && MergeView(v, w, x, y) && v.g < CURSOR_DEPTH && InRange(v, n, token)
    ensures NotLater(v, w, token)
  {
    hide Shr, Shl, Pow2, InSlot, SegmentId, SameChunk, ChunkStart;
    var (s, d) := (SlotPlace(token, v.g).seg, CURSOR_DEPTH - v.g);
    assert Joined(v.ids, v.ds, v.g, x, w.ids, w.ds);
    InTwins(v.ids, v.ds, v.g, x, y, s);
    StartBelow(s, v.g - v.ds[s]);
    ShlMono(StartOf(w, s), StartOf(v, s), d);
  }

  lemma StartBelow(s: nat, k: nat)
    ensures ChunkStart(s, k + 1) <= ChunkStart(s, k)
  {
    hide Shl, Shr;
    var u := Shr(s, k);
    ShrStep(s, k);
    ShlDouble(u / 2, k + 1);
    ShlMono(2 * (u / 2), u, k);
  }

  // ---- a key that is lost ---------------------------------------------------------------

  const EARLY := Entry(Key("early", 0), "")
  const LATE := Entry(Key("late", 0x8000_0000_0000_0000), "")

  /** Four segments, of which the first and the third hold an entry each. */
  ghost function FourSegments(): View<nat> {
    View(2, [0, 1, 2, 3], [2, 2, 2, 2], [multiset{EARLY}, multiset{}, multiset{LATE}, multiset{}])
  }

  /** The same with the first two merged. */
  ghost function FirstTwoMerged(): View<nat> {
    View(2, [0, 0, 2, 3], [1, 1, 2, 2], [multiset{EARLY}, multiset{EARLY}, multiset{LATE}, multiset{}])
  }

  lemma Hashes()
    ensures Prefix(EARLY.key.hash, 2) == 0 && Prefix(LATE.key.hash, 2) == 2
    ensures Home(EARLY.key.hash, 64) == 0 && Home(LATE.key.hash, 64) == 0
  {
    TopBits();
    hide Shr, Rem;
    RemIsMod(0, 64);
    RemIsMod(0x80_0000_0000_0000, 64);
  }

  lemma TopBits()
    ensures Shr(0, 62) == 0 && Shr(0x8000_0000_0000_0000, 62) == 2
  {
    assert Pow2(1) == 2 && Pow2(0) == 1;
    assert Pow2(64) == 2 * Pow2(63) == 4 * Pow2(62);
    hide Shr, Shl, Pow2;
    Pow2Of64();
    ShlPow2(1, 62);
    ShlNext(2, 62);
    ShrInterval(0x8000_0000_0000_0000, 62, 2);
    ShrBound(0, 0, 62);
  }

  lemma FourDirectory()
    ensures DirOk(FourSegments().ids, FourSegments().ds, 2)
  {
    var ids := FourSegments().ids;
    assert Pow2(2) == 4;
    forall i, j | 0 <= i < |ids| && 0 <= j < |ids| ensures ids[i] == ids[j] <==> SameChunk(i, j, 0) {
      assert ids[i] == i && ids[j] == j;
      assert Shr(i, 0) == i && Shr(j, 0) == j;
    }
  }

  lemma FourIsOk()
    ensures ViewOk(FourSegments())
  {
    hide DashSplit.Prefix, Home, DirOk;
    FourDirectory();
    Hashes();
    var v := FourSegments();
    assert forall i | 0 <= i < |v.ids| :: v.ids[i] == i;
    forall i, e: Entry | 0 <= i < |v.ids| && e in v.cs[i] ensures InSlot(v, i, e) {
      assert i == 0 || i == 2;
    }
  }

  lemma MergedIsOk()
    ensures ViewOk(FourSegments()) && Twins(FourSegments(), 0, 1)
    ensures MergeView(FourSegments(), FirstTwoMerged(), 0, 1) && ViewOk(FirstTwoMerged())
  {
    FourIsOk();
    var (v, w) := (FourSegments(), FirstTwoMerged());
    assert multiset{EARLY} + multiset{} == multiset{EARLY};
    assert Twins(v, 0, 1);
    assert MergeView(v, w, 0, 1);
    MergeKeeps(v, w, 0, 1);
  }

  /** In either table the walk meets nothing but the two entries, in bucket 0 of their segments. */
  lemma OnlyTwo(v: View<nat>, p: Place, e: Entry)
    requires v == FourSegments() || v == FirstTwoMerged()
    ensures MetAt(v, 64, p, e) <==>
              && p.bid == 0 && p.seg < 4
              && ((e == EARLY && v.ids[0] == v.ids[p.seg]) || (e == LATE && v.ids[2] == v.ids[p.seg]))
    ensures Count(v, EARLY) == 1 && Count(v, LATE) == 1
  {
    Hashes();
    hide DashSplit.Prefix, Home;
    if MetAt(v, 64, p, e) {
      assert e == EARLY || e == LATE;
    }
  }

  /** A call that reports where the cursor stands. */
  lemma CallHere<T>(v: View<T>, n: nat, from: nat, e: Entry)
    requires n > 0 && ViewOk(v) && v.g < CURSOR_DEPTH && SlotPlace(from, v.g).seg < |v.ids|
    requires SlotPlace(from, v.g).bid < n
    requires forall e': Entry :: MetAt(v, n, SlotPlace(from, v.g), e') <==> e' == e
    ensures var p := SlotPlace(from, v.g);
            && p.seg < |v.ds| && v.ds[p.seg] <= v.g
            && CallOk(v, n, from, TokenOf(v.g, n, NextPlace(v, p)), {e})
  {
    hide MetAt, SlotPlace, ViewOk, Pow2, Token;
    var p := SlotPlace(from, v.g);
    NextWithin(v, p);
    assert MetAt(v, n, p, e);
    assert Landing(v, n, p) == p;
  }

  /** A call that finds nothing. */
  lemma CallNothing<T>(v: View<T>, n: nat, from: nat)
    requires n > 0 && ViewOk(v) && v.g < CURSOR_DEPTH && SlotPlace(from, v.g).seg < |v.ids|
    requires forall q: Place | !Before(q, SlotPlace(from, v.g)) :: Vacant(v, n, q)
    ensures CallOk(v, n, from, 0, {})
  {
    hide MetAt, SlotPlace, ViewOk, Pow2, Token, Vacant;
    AllVacant(v, n, SlotPlace(from, v.g));
  }

  lemma {:induction false} AllVacant<T>(v: View<T>, n: nat, p: Place)
    requires n > 0 && ViewOk(v) && p.seg < |v.ids|
    requires forall q: Place | !Before(q, p) :: Vacant(v, n, q)
    ensures Landing(v, n, p).bid >= n
    decreases n - p.bid, |v.ids| - p.seg
  {
    hide MetAt, ViewOk, Pow2, Vacant;
    NextWithin(v, p);
    if p.bid < n {
      AllVacant(v, n, NextPlace(v, p));
    }
  }

  lemma Slots(c1: nat, c2: nat)
    requires c1 == TokenOf(2, 64, Place(0, 1)) && c2 == TokenOf(2, 64, Place(0, 3))
    ensures SlotPlace(0, 2) == Place(0, 0) && SlotPlace(c1, 2) == Place(0, 1) && SlotPlace(c2, 2) == Place(0, 3)
    ensures c1 != 0 && c2 != 0
  {
    hide DashSplit.Prefix, Home, Token, Shr, Shl, SegmentId, ViewOk;
    MergedIsOk();
    var (v, w) := (FourSegments(), FirstTwoMerged());
    assert Pow2(0) == 1 && Pow2(1) == 2;
    assert NextPlace(v, Place(0, 0)) == Place(0, 1) && NextPlace(w, Place(0, 1)) == Place(0, 3);
    StopScaled(v, 64, Place(0, 0));
    StopScaled(w, 64, Place(0, 1));
    TokenSegment(0, 2);
    ShrBound(0, 0, 30);
  }

  lemma ThreeCalls(c1: nat, c2: nat)
    requires c1 == TokenOf(2, 64, Place(0, 1)) && c2 == TokenOf(2, 64, Place(0, 3))
    ensures var (v, w) := (FourSegments(), FirstTwoMerged());
            && CallOk(v, 64, 0, c1, {EARLY}) && CallOk(w, 64, c1, c2, {EARLY}) && CallOk(w, 64, c2, 0, {})
  {
    hide DashSplit.Prefix, Home, Token, MetAt, SlotPlace, ViewOk, CallOk;
    MergedIsOk();
    Slots(c1, c2);
    var (v, w) := (FourSegments(), FirstTwoMerged());
    assert Pow2(0) == 1 && Pow2(1) == 2;
    forall e: Entry
      ensures MetAt(v, 64, Place(0, 0), e) <==> e == EARLY
      ensures MetAt(w, 64, Place(0, 1), e) <==> e == EARLY
    {
      OnlyTwo(v, Place(0, 0), e);
      OnlyTwo(w, Place(0, 1), e);
    }
    forall q: Place, e: Entry | !Before(q, Place(0, 3)) ensures !MetAt(w, 64, q, e) {
      OnlyTwo(w, q, e);
    }
    CallHere(v, 64, 0, EARLY);
    CallHere(w, 64, c1, EARLY);
    CallNothing(w, 64, c2);
  }

  /** A finished traversal of a table whose first two segments are merged after the first call. The entry of the third
      segment is there at every call and is reported by none. */
  lemma LostKey() returns (vs: seq<View<nat>>, cs: seq<nat>, seen: seq<set<Entry>>)
    ensures Run(64, vs, cs, seen) && |vs| == 3 && cs[3] == 0 && vs[1] == vs[2]
    ensures ViewOk(vs[0]) && Twins(vs[0], 0, 1) && MergeView(vs[0], vs[1], 0, 1)
    ensures HeldFrom(vs, 0, LATE.key) && !ReportedFrom(seen, 0, LATE.key)
  {
    hide ViewOk, Twins, MergeView, DashSplit.Prefix, Home, MetAt, Count, CallOk, TokenOf;
    var (v, w) := (FourSegments(), FirstTwoMerged());
    MergedIsOk();
    var (c1, c2) := (TokenOf(2, 64, Place(0, 1)), TokenOf(2, 64, Place(0, 3)));
    Slots(c1, c2);
    ThreeCalls(c1, c2);
    vs, cs, seen := [v, w, w], [0, c1, c2, 0], [{EARLY}, {EARLY}, {}];
    OnlyTwo(v, Place(0, 0), LATE);
    OnlyTwo(w, Place(0, 0), LATE);
    assert HasKey(v, LATE.key) && HasKey(w, LATE.key);
    assert EARLY.key != LATE.key;
  }
}
