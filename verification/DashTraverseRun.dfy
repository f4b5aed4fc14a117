/** Whole traversals of a dash table that grows, shrinks and changes between the calls. */
module DashTraverseRun {
  import opened Arith
  import opened Keys
  import opened DashBucket
  import opened DashDirectory
  import opened DashView
  import opened DashTable
  import opened DashTraverse

  ghost predicate CallOk<T>(v: View<T>, n: nat, from: nat, to: nat, seen: set<Entry>)
    requires n > 0
  {
    ViewOk(v) && v.g < CURSOR_DEPTH && Call(v, n, from, to, seen)
  }

  /** A traversal from cursor 0: `vs[i]` is the table at call i, which went from cursor `cs[i]` to `cs[i + 1]`
      and reported `seen[i]`. Between the calls the table may change in any way. */
  ghost predicate Run<T>(n: nat, vs: seq<View<T>>, cs: seq<nat>, seen: seq<set<Entry>>) {
    && 0 < n < 256 && |cs| == |vs| + 1 == |seen| + 1 && cs[0] == 0
    && (forall i | 0 <= i < |vs| :: CallOk(vs[i], n, cs[i], cs[i + 1], seen[i]))
    && (forall i | 0 < i < |vs| :: cs[i] != 0)
  }

  ghost predicate Reported(seen: set<Entry>, k: Key) { exists e :: e in seen && e.key == k }

  // ---- every traversal ends -------------------------------------------------------------

  lemma PlaceInRange(token: nat, v: View, n: nat)
    requires ViewOk(v) && v.g < CURSOR_DEPTH && token < 0x100_0000_0000 && CursorPlace(token).bid < n
    ensures InRange(v, n, token)
  {
    hide Shr, Shl, Pow2, InSlot, SameChunk, SegmentId;
    TokenSegment(token, v.g);
  }

  /** From any cursor a call goes forward. */
  lemma CallForward<T>(v: View<T>, n: nat, from: nat, to: nat, seen: set<Entry>)
    requires 0 < n < 256 && from < 0x100_0000_0000 && CallOk(v, n, from, to, seen)
    ensures to < 0x100_0000_0000
    ensures to != 0 ==> Before(CursorPlace(from), CursorPlace(to)) && InRange(v, n, from) && InRange(v, n, to)
  {
    hide Shr, Shl, Pow2, InSlot, SameChunk, ViewOk, SegmentId, MetAt, Vacant, Landing;
    TokenSegment(from, v.g);
    var p := SlotPlace(from, v.g);
    if p.bid < n {
      PlaceInRange(from, v, n);
      var l := Landing(v, n, p);
      NextWithin(v, l);
      if l.bid < n {
        StopScaled(v, n, l);
        var k := CURSOR_DEPTH - v.g;
        ShrBelow(CursorPlace(from).seg, p.seg + 1, k);
        if p.seg < NextPlace(v, l).seg {
          ShlMono(p.seg + 1, NextPlace(v, l).seg, k);
        }
      }
    }
  }

  function Rank(p: Place): nat { p.bid * 0x1_0000_0000 + p.seg }

  lemma {:induction false} RankGrows<T>(n: nat, vs: seq<View<T>>, cs: seq<nat>, seen: seq<set<Entry>>, i: nat)
    requires Run(n, vs, cs, seen) && i < |vs|
    ensures Rank(CursorPlace(cs[i])) >= i && cs[i] < 0x100_0000_0000
  {
    hide CallOk;
    if i > 0 {
      RankGrows(n, vs, cs, seen, i - 1);
      CallForward(vs[i - 1], n, cs[i - 1], cs[i], seen[i - 1]);
    }
  }

  /** Every call goes forward, so a traversal ends, whatever happens to the table. */
  lemma RunIsBounded<T>(n: nat, vs: seq<View<T>>, cs: seq<nat>, seen: seq<set<Entry>>)
    requires Run(n, vs, cs, seen)
    ensures |vs| <= 0x100_0000_0000
  {
    hide CallOk;
    if |vs| > 0 {
      RankGrows(n, vs, cs, seen, |vs| - 1);
    }
  }

  // ---- cursors at the beginning of a chunk ----------------------------------------------

  /** At every call the cursor stands at the beginning of a chunk. */
  ghost predicate AlignedRun<T>(n: nat, vs: seq<View<T>>, cs: seq<nat>, seen: seq<set<Entry>>) {
    Run(n, vs, cs, seen) && forall i | 0 <= i < |vs| :: vs[i].g < CURSOR_DEPTH && Aligned(vs[i], CursorPlace(cs[i]).seg)
  }

  /** In a finished traversal whose cursors stand at the beginning of chunks, a key that was in the table at
      every call has been reported, and by exactly one call. */
  lemma RunReportsOnce<T>(n: nat, vs: seq<View<T>>, cs: seq<nat>, seen: seq<set<Entry>>, k: Key) returns (i: nat)
    requires AlignedRun(n, vs, cs, seen) && |vs| > 0 && cs[|vs|] == 0
    requires forall j | 0 <= j < |vs| :: HasKey(vs[j], k)
    ensures i < |vs| && Reported(seen[i], k)
    ensures forall j | 0 <= j < |vs| && j != i :: !Reported(seen[j], k)
  {
    hide ViewOk, Aligned, Between, Call;
    i := WindowOf(n, cs, |vs|, k);
    forall j | 0 <= j < |vs| ensures Reported(seen[j], k) <==> InWindow(n, cs, k, j) {
      AlignedCovers(vs[j], n, cs[j], cs[j + 1], seen[j]);
      ReportedIffInWindow(vs[j], n, cs, j, seen[j], k);
    }
    forall j | 0 <= j < |vs| && j != i ensures !InWindow(n, cs, k, j) {
      if j < i {
        WindowsApart(n, vs, cs, seen, j, i);
      } else {
        WindowsApart(n, vs, cs, seen, i, j);
      }
    }
  }

  /** The key lies in the part of the table call i goes through. */
  ghost predicate InWindow(n: nat, cs: seq<nat>, k: Key, i: nat)
    requires n > 0 && i + 1 < |cs|
  {
    Within(PlaceOf(k, n), CursorPlace(cs[i]), EndPlace(cs[i + 1], n))
  }

  lemma ReportedIffInWindow<T>(v: View<T>, n: nat, cs: seq<nat>, i: nat, seen: set<Entry>, k: Key)
    requires n > 0 && i + 1 < |cs| && Covers(v, n, cs[i], cs[i + 1], seen) && HasKey(v, k)
    ensures Reported(seen, k) <==> InWindow(n, cs, k, i)
  {
    hide Count, Within, PlaceOf;
    var e: Entry :| e.key == k && Count(v, e) > 0;
    assert e in seen <==> InWindow(n, cs, k, i);
  }

  /** Up to the call that passes the key, the cursor is not behind it. */
  lemma {:induction false} WindowOf(n: nat, cs: seq<nat>, m: nat, k: Key) returns (i: nat)
    requires n > 0 && 0 < m < |cs| && cs[0] == 0 && (forall j | 0 < j < m :: cs[j] != 0)
    requires Before(PlaceOf(k, n), EndPlace(cs[m], n))
    ensures i < m && InWindow(n, cs, k, i)
  {
    if !Before(PlaceOf(k, n), CursorPlace(cs[m - 1])) {
      i := m - 1;
    } else {
      i := WindowOf(n, cs, m - 1, k);
    }
  }

  lemma {:induction false} WindowsApart<T>(n: nat, vs: seq<View<T>>, cs: seq<nat>, seen: seq<set<Entry>>, i: nat,
                                           j: nat)
    requires Run(n, vs, cs, seen) && i < j < |vs|
    ensures cs[i + 1] != 0 && !Before(CursorPlace(cs[j]), CursorPlace(cs[i + 1]))
  {
    hide CallOk;
    if i + 1 < j {
      WindowsApart(n, vs, cs, seen, i, j - 1);
      RankGrows(n, vs, cs, seen, j - 1);
      CallForward(vs[j - 1], n, cs[j - 1], cs[j], seen[j - 1]);
    }
  }

  // ---- changes that keep a cursor at the beginning of a chunk ---------------------------

  lemma StartAligned<T>(v: View<T>)
    requires ViewOk(v) && v.g < CURSOR_DEPTH
    ensures Aligned(v, 0)
  {
    FirstChunk(v);
    ShrBound(0, 0, CURSOR_DEPTH - v.g);
    ShlZero(CURSOR_DEPTH - v.g);
  }

  /** The place lies in the upper one of two chunks whose common parent is that of slot `x`. */
  ghost predicate AtUpperHalf<T>(v: View<T>, x: nat, seg: nat)
    requires v.g < CURSOR_DEPTH && x < |v.ds| && v.ds[x] <= v.g
  {
    var (s, k) := (Shr(seg, CURSOR_DEPTH - v.g), v.g - v.ds[x]);
    SameChunk(x, s, k + 1) && Shr(s, k) % 2 == 1
  }

  /** A merge leaves a cursor at the beginning of a chunk exactly when it did not stand at the upper one
      of the two halves. */
  lemma MergeAlignment<T>(v: View<T>, w: View<T>, x: nat, y: nat, seg: nat)
    requires ViewOk(v) && v.g < CURSOR_DEPTH && Twins(v, x, y) && MergeView(v, w, x, y) && Aligned(v, seg)
    ensures Aligned(w, seg) <==> !AtUpperHalf(v, x, seg)
  {
    hide InSlot, Pow2, Shl, Shr, ChunkStart, SameChunk;
    var s, k := Shr(seg, CURSOR_DEPTH - v.g), v.g - v.ds[x];
    assert Joined(v.ids, v.ds, v.g, x, w.ids, w.ds);
    if SameChunk(x, s, k + 1) {
      InTwins(v.ids, v.ds, v.g, x, y, s);
      assert v.ds[s] == v.ds[x];
      HalfStart(s, k);
    }
  }

  lemma HalfStart(s: nat, k: nat)
    requires ChunkStart(s, k) == s
    ensures ChunkStart(s, k + 1) == s <==> Shr(s, k) % 2 == 0
  {
    hide Shl, Shr;
    var u := Shr(s, k);
    ShrStep(s, k);
    ShlDouble(u / 2, k + 1);
    ShlMono(2 * (u / 2), u, k);
  }

  /** The table grew or only its contents changed, or twins were merged of which the cursor did not
      stand at the upper. */
  ghost predicate Harmless<T>(v: View<T>, w: View<T>, seg: nat) {
    && ViewOk(v) && ViewOk(w) && v.g < CURSOR_DEPTH && w.g < CURSOR_DEPTH
    && (|| Grew(v, w)
        || exists x: nat, y: nat :: Twins(v, x, y) && MergeView(v, w, x, y) && !AtUpperHalf(v, x, seg))
  }

  lemma HarmlessKeepsAligned<T>(v: View<T>, w: View<T>, seg: nat)
    requires Harmless(v, w, seg) && Aligned(v, seg)
    ensures Aligned(w, seg)
  {
    hide Aligned, Grew, MergeView, AtUpperHalf, Shr, Pow2, InSlot;
    if Grew(v, w) {
      GrowthKeepsAligned(v, w, seg);
    } else {
      var x: nat, y: nat :| Twins(v, x, y) && MergeView(v, w, x, y) && !AtUpperHalf(v, x, seg);
      MergeAlignment(v, w, x, y, seg);
    }
  }

  /** A sequence of such changes. */
  ghost predicate HarmlessPath<T>(h: seq<View<T>>, seg: nat) {
    |h| > 0 && forall j | 0 < j < |h| :: Harmless(h[j - 1], h[j], seg)
  }

  lemma {:induction false} PathKeepsAligned<T>(h: seq<View<T>>, seg: nat, m: nat)
    requires HarmlessPath(h, seg) && h[0].g < CURSOR_DEPTH && Aligned(h[0], seg) && m < |h|
    ensures h[m].g < CURSOR_DEPTH && Aligned(h[m], seg)
  {
    hide Aligned, Harmless;
    if m > 0 {
      PathKeepsAligned(h, seg, m - 1);
      assert Harmless(h[m - 1], h[m], seg);
      HarmlessDepth(h[m - 1], h[m], seg);
      HarmlessKeepsAligned(h[m - 1], h[m], seg);
    }
  }

  lemma HarmlessDepth<T>(v: View<T>, w: View<T>, seg: nat)
    requires Harmless(v, w, seg)
    ensures v.g < CURSOR_DEPTH && w.g < CURSOR_DEPTH
  {
  }

  /** Between call i - 1 and call i the table went through `hs[i]`. */
  ghost predicate HarmlessRun<T>(n: nat, vs: seq<View<T>>, cs: seq<nat>, seen: seq<set<Entry>>, hs: seq<seq<View<T>>>) {
    && Run(n, vs, cs, seen) && |hs| == |vs|
    && forall i | 0 < i < |vs| ::
         HarmlessPath(hs[i], CursorPlace(cs[i]).seg) && hs[i][0] == vs[i - 1] && hs[i][|hs[i]| - 1] == vs[i]
  }

  /** Inserts, deletes, splits, a deeper directory and harmless merges leave every cursor at the beginning of
      a chunk. */
  lemma {:induction false} RunAligned<T>(n: nat, vs: seq<View<T>>, cs: seq<nat>, seen: seq<set<Entry>>,
                                         hs: seq<seq<View<T>>>, i: nat)
    requires HarmlessRun(n, vs, cs, seen, hs) && i < |vs|
    ensures vs[i].g < CURSOR_DEPTH && Aligned(vs[i], CursorPlace(cs[i]).seg)
  {
    hide ViewOk, Covers, Aligned, Harmless, Call;
    assert CallOk(vs[i], n, cs[i], cs[i + 1], seen[i]);
    if i == 0 {
      StartAligned(vs[0]);
    } else {
      RunAligned(n, vs, cs, seen, hs, i - 1);
      assert CallOk(vs[i - 1], n, cs[i - 1], cs[i], seen[i - 1]);
      AlignedCovers(vs[i - 1], n, cs[i - 1], cs[i], seen[i - 1]);
      PathKeepsAligned(hs[i], CursorPlace(cs[i]).seg, |hs[i]| - 1);
    }
  }
}
