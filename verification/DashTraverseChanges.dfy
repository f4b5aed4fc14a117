/** Traversals during which the directory changes any number of times, in any way. */
module DashTraverseChanges {
  import opened Arith
  import opened Keys
  import opened DashBucket
  import opened DashDirectory
  import opened DashView
  import opened DashTable
  import opened DashTraverse
  import opened DashTraverseRun
  import opened DashTraverseShrink

  /** A key lies behind the place where the walk meets it. */
  lemma MetIsPast<T>(v: View<T>, n: nat, l: Place, e: Entry)
    requires n > 0 && ViewOk(v) && l.seg < |v.ids| && MetAt(v, n, l, e)
    ensures l.seg < |v.ds| && v.ds[l.seg] <= v.g && NextPlace(v, l).seg < |v.ids|
    ensures KeySlot(v, n, e.key).seg < |v.ids| && !Passes(v, n, NextPlace(v, l), KeySlot(v, n, e.key))
  {
    hide Shr, Shl, Pow2, InSlot, ChunkStart, SameChunk, ViewOk, DashSplit.Prefix, Home, Count, Passes;
    NextWithin(v, l);
    StartFacts(v, l.seg);
    var (q, b) := (NextPlace(v, l), Place(l.bid, StartOf(v, l.seg)));
    StartFacts(v, q.seg);
    PassesSegment(v, n, q, KeySlot(v, n, e.key), b);
    if q.bid == l.bid {
      BaseMono(v, EndOf(v, l.seg), q.seg);
      StartFacts(v, EndOf(v, l.seg));
      SameOrNot(v, EndOf(v, l.seg), EndOf(v, l.seg));
    }
    PastIsPast(v, n, q, b);
  }

  /** Call m leaves a key ahead of the cursor it returns. */
  ghost predicate AheadAfter<T>(n: nat, vs: seq<View<T>>, cs: seq<nat>, m: nat, k: Key)
    requires n > 0 && m < |vs| && m + 1 < |cs| && ViewOk(vs[m]) && vs[m].g < CURSOR_DEPTH
  {
    var (p, x) := (SlotPlace(cs[m + 1], vs[m].g), KeySlot(vs[m], n, k));
    cs[m + 1] != 0 && p.seg < |vs[m].ids| && x.seg < |vs[m].ids| && Passes(vs[m], n, p, x)
  }

  ghost predicate AllOk<T>(vs: seq<View<T>>) {
    forall i | 0 <= i < |vs| :: ViewOk(vs[i]) && vs[i].g < CURSOR_DEPTH
  }

  /** What happened to the directory before call i has taken a key that lay ahead of the cursor out of its way. */
  ghost predicate Dropped<T>(n: nat, vs: seq<View<T>>, cs: seq<nat>, i: nat, k: Key)
    requires n > 0 && 0 < i < |vs| && |cs| == |vs| + 1 && AllOk(vs)
  {
    AheadAfter(n, vs, cs, i - 1, k) && !Ahead(n, vs, cs, i, k)
  }

  /** It has put a key that the cursor had left behind ahead of it again. */
  ghost predicate Regained<T>(n: nat, vs: seq<View<T>>, cs: seq<nat>, i: nat, k: Key)
    requires n > 0 && 0 < i < |vs| && |cs| == |vs| + 1 && AllOk(vs)
  {
    !AheadAfter(n, vs, cs, i - 1, k) && Ahead(n, vs, cs, i, k)
  }

  ghost predicate NoneDropped<T>(n: nat, vs: seq<View<T>>, cs: seq<nat>, m: nat, k: Key)
    requires n > 0 && |cs| == |vs| + 1 && AllOk(vs)
  {
    forall i | m < i < |vs| :: !Dropped(n, vs, cs, i, k)
  }

  ghost predicate NoneRegained<T>(n: nat, vs: seq<View<T>>, cs: seq<nat>, m: nat, k: Key)
    requires n > 0 && |cs| == |vs| + 1 && AllOk(vs)
  {
    forall i | m < i < |vs| :: !Regained(n, vs, cs, i, k)
  }

  ghost predicate Finished<T>(n: nat, vs: seq<View<T>>, cs: seq<nat>, seen: seq<set<Entry>>, k: Key) {
    Run(n, vs, cs, seen) && |vs| > 0 && cs[|vs|] == 0 && HeldFrom(vs, 0, k) && AllOk(vs)
  }

  /** A call either reports a key that lay ahead of it, or leaves it ahead, and not both. */
  lemma OneCall<T>(n: nat, vs: seq<View<T>>, cs: seq<nat>, seen: seq<set<Entry>>, m: nat, k: Key)
    requires Finished(n, vs, cs, seen, k) && m < |vs|
    ensures if Ahead(n, vs, cs, m, k) then Reported(seen[m], k) <==> !AheadAfter(n, vs, cs, m, k)
            else !Reported(seen[m], k) && !AheadAfter(n, vs, cs, m, k)
  {
    hide HasKey, ViewOk, Call, Passes, KeySlot, Reported;
    assert CallOk(vs[m], n, cs[m], cs[m + 1], seen[m]);
    RankGrows(n, vs, cs, seen, m);
    CallPasses(vs[m], n, cs[m], cs[m + 1], seen[m], k);
    if Reported(seen[m], k) {
      ReportedIsPast(vs[m], n, cs[m], cs[m + 1], seen[m], k);
    }
  }

  lemma ReportedIsPast<T>(v: View<T>, n: nat, from: nat, to: nat, seen: set<Entry>, k: Key)
    requires 0 < n < 256 && from < 0x100_0000_0000 && CallOk(v, n, from, to, seen) && Reported(seen, k)
    ensures to != 0 ==> SlotPlace(to, v.g).seg < |v.ids| && KeySlot(v, n, k).seg < |v.ids|
                        && !Passes(v, n, SlotPlace(to, v.g), KeySlot(v, n, k))
  {
    hide ViewOk, Passes, KeySlot, MetAt, Landing, SegmentId, Shr, Pow2;
    TokenSegment(from, v.g);
    var e: Entry :| e in seen && e.key == k;
    var l := Landing(v, n, SlotPlace(from, v.g));
    NextWithin(v, l);
    MetIsPast(v, n, l, e);
    StopScaled(v, n, l);
  }

  /** A key that lies ahead is reported unless a change drops it. */
  lemma {:induction false} KeptIsReported<T>(n: nat, vs: seq<View<T>>, cs: seq<nat>, seen: seq<set<Entry>>, m: nat,
                                             k: Key)
    requires Finished(n, vs, cs, seen, k) && m < |vs| && Ahead(n, vs, cs, m, k) && NoneDropped(n, vs, cs, m, k)
    ensures ReportedFrom(seen, m, k)
    decreases |vs| - m
  {
    hide Run, Ahead, AheadAfter, Reported, HeldFrom, AllOk;
    OneCall(n, vs, cs, seen, m, k);
    EndsThere(n, vs, cs, seen, m, k);
    if !Reported(seen[m], k) {
      assert !Dropped(n, vs, cs, m + 1, k);
      KeptIsReported(n, vs, cs, seen, m + 1, k);
    }
  }

  lemma EndsThere<T>(n: nat, vs: seq<View<T>>, cs: seq<nat>, seen: seq<set<Entry>>, m: nat, k: Key)
    requires Finished(n, vs, cs, seen, k) && m < |vs|
    ensures |seen| == |vs| && |cs| == |vs| + 1 && n > 0
    ensures AheadAfter(n, vs, cs, m, k) ==> m + 1 < |vs|
  {
    hide CallOk, HasKey, ViewOk, Passes;
  }

  /** A key that lies behind is neither reported nor dropped, unless a change puts it ahead again. */
  lemma {:induction false} BehindIsLost<T>(n: nat, vs: seq<View<T>>, cs: seq<nat>, seen: seq<set<Entry>>, m: nat,
                                           k: Key)
    requires Finished(n, vs, cs, seen, k) && m < |vs| && !Ahead(n, vs, cs, m, k) && NoneRegained(n, vs, cs, m, k)
    ensures !ReportedFrom(seen, m, k) && NoneDropped(n, vs, cs, m, k)
    decreases |vs| - m
  {
    hide Run, Ahead, AheadAfter, Reported, HeldFrom, AllOk;
    OneCall(n, vs, cs, seen, m, k);
    EndsThere(n, vs, cs, seen, m, k);
    if m + 1 < |vs| {
      assert !Regained(n, vs, cs, m + 1, k);
      BehindIsLost(n, vs, cs, seen, m + 1, k);
    }
  }

  lemma {:induction false} ReportedIffKept<T>(n: nat, vs: seq<View<T>>, cs: seq<nat>, seen: seq<set<Entry>>, m: nat,
                                              k: Key)
    requires Finished(n, vs, cs, seen, k) && m < |vs| && Ahead(n, vs, cs, m, k) && NoneRegained(n, vs, cs, m, k)
    ensures ReportedFrom(seen, m, k) <==> NoneDropped(n, vs, cs, m, k)
    decreases |vs| - m
  {
    hide Run, Ahead, AheadAfter, Reported, HeldFrom, ViewOk;
    OneCall(n, vs, cs, seen, m, k);
    EndsThere(n, vs, cs, seen, m, k);
    if m + 1 < |vs| {
      assert !Regained(n, vs, cs, m + 1, k);
      assert ReportedFrom(seen, m, k) <==> Reported(seen[m], k) || ReportedFrom(seen, m + 1, k);
      assert NoneDropped(n, vs, cs, m, k) <==> !Dropped(n, vs, cs, m + 1, k) && NoneDropped(n, vs, cs, m + 1, k);
      if Ahead(n, vs, cs, m + 1, k) {
        ReportedIffKept(n, vs, cs, seen, m + 1, k);
      } else {
        BehindIsLost(n, vs, cs, seen, m + 1, k);
      }
    }
  }

  /** At the first call every key lies ahead. */
  lemma AllAhead<T>(n: nat, vs: seq<View<T>>, cs: seq<nat>, seen: seq<set<Entry>>, k: Key)
    requires Finished(n, vs, cs, seen, k)
    ensures Ahead(n, vs, cs, 0, k)
  {
    var v := vs[0];
    ShrBound(0, 0, CURSOR_DEPTH - v.g);
    assert Shr(0, CURSOR_DEPTH - v.g) == 0;
    hide Shr, Shl, Pow2, InSlot, ChunkStart, SameChunk, CallOk, HasKey, DashSplit.Prefix, Home, Passes, SegmentId;
    TokenSegment(0, v.g);
    FirstChunk(v);
    SlotExists(v, n, k);
    StartHasNoShort(v, 0);
    NoShortPasses(v, n, Place(0, 0), KeySlot(v, n, k));
  }

  /** Whatever happens to the directory, a key that is there at every call of a finished traversal is reported,
      unless some change takes it out of the cursor's way. If no change puts keys back into its way, this is
      exact. */
  lemma AnyChanges<T>(n: nat, vs: seq<View<T>>, cs: seq<nat>, seen: seq<set<Entry>>, k: Key)
    requires Finished(n, vs, cs, seen, k)
    ensures NoneDropped(n, vs, cs, 0, k) ==> ReportedFrom(seen, 0, k)
    ensures NoneRegained(n, vs, cs, 0, k) ==> (ReportedFrom(seen, 0, k) <==> NoneDropped(n, vs, cs, 0, k))
  {
    hide Ahead, AheadAfter, CallOk, HeldFrom, AllOk, NoneDropped, NoneRegained, ReportedFrom;
    AllAhead(n, vs, cs, seen, k);
    if NoneDropped(n, vs, cs, 0, k) {
      KeptIsReported(n, vs, cs, seen, 0, k);
    }
    if NoneRegained(n, vs, cs, 0, k) {
      ReportedIffKept(n, vs, cs, seen, 0, k);
    }
  }
}
