/** Whole scans of a table whose bucket number is the high bits of the hash. The cursor is a place in the
    32-bit hash space, so it keeps its meaning when the table grows or shrinks between calls. */
module ScanRun {
  import opened Arith
  import opened Keys

  const CURSOR_END := 0x1_0000_0000

  function PlaceOf(k: Key): nat { Shr(k.hash, 32) }

  /** Where the next call starts, or the end of the hash space. */
  function Until(to: nat): nat { if to == 0 then CURSOR_END else to }

  /** One call from cursor `from` to cursor `to`: it goes forward, and reports every key of the table that lies
      between them. */
  ghost predicate CallOk(from: nat, to: nat, present: set<Key>, seen: set<Key>) {
    && from < Until(to) <= CURSOR_END
    && forall k | k in present && from <= PlaceOf(k) < Until(to) :: k in seen
  }

  /** A scan: call i found the table with the keys `present[i]` and reported `seen[i]`. */
  ghost predicate Run(cs: seq<nat>, present: seq<set<Key>>, seen: seq<set<Key>>) {
    && |cs| == |present| + 1 == |seen| + 1 && cs[0] == 0
    && (forall i | 0 <= i < |seen| :: CallOk(cs[i], cs[i + 1], present[i], seen[i]))
    && (forall i | 0 < i < |seen| :: cs[i] != 0)
  }

  lemma PlaceBound(k: Key)
    ensures PlaceOf(k) < CURSOR_END
  {
    Pow2Of64();
    Pow2Of32();
    ShrBound(k.hash, 32, 32);
  }

  /** The bucket number is the leading part of the place in the hash space. */
  lemma BucketOfPlace(k: Key, log: nat)
    requires log <= 32
    ensures BucketId(k, log) == Shr(PlaceOf(k), 32 - log)
  {
    ShrShr(k.hash, 32, 32 - log);
  }

  /** A call that skips buckets in which no key is at home, reports bucket `idx`, and goes on behind it. */
  lemma Covered(log: nat, cursor: nat, idx: nat, next: nat, present: set<Key>, seen: set<Key>)
    requires log <= 32 && cursor < CURSOR_END && Shr(cursor, 32 - log) <= idx <= Pow2(log)
    requires next == if idx + 1 < Pow2(log) then Shl(idx + 1, 32 - log) else 0
    requires forall k | k in present :: !(Shr(cursor, 32 - log) <= BucketId(k, log) < idx)
    requires forall k | k in present && BucketId(k, log) == idx :: k in seen
    ensures CallOk(cursor, next, present, seen)
  {
    hide BucketId, Shr, Shl, Pow2, PlaceOf;
    var shift := 32 - log;
    Pow2Of32();
    ShrBelow(cursor, idx + 1, shift);
    ShlPow2(log, shift);
    if idx + 1 < Pow2(log) {
      ShlMono(idx + 1, Pow2(log), shift);
      ShlGrows(idx + 1, shift);
    }
    forall k | k in present && cursor <= PlaceOf(k) < Until(next) ensures k in seen {
      BucketOfPlace(k, log);
      BucketIdBound(k, log);
      ShrBelow(PlaceOf(k), Shr(cursor, shift), shift);
      ShrBelow(cursor, Shr(cursor, shift), shift);
      ShrBelow(PlaceOf(k), idx + 1, shift);
    }
  }

  lemma StartInTable(cursor: nat, log: nat)
    requires cursor < CURSOR_END && log <= 32
    ensures Shr(cursor, 32 - log) < Pow2(log)
  {
    Pow2Of32();
    ShrBound(cursor, log, 32 - log);
  }

  /** A key that is in the table at every call of a finished scan has been reported, however often the table was
      resized between the calls. */
  lemma RunReports(cs: seq<nat>, present: seq<set<Key>>, seen: seq<set<Key>>, k: Key) returns (i: nat)
    requires Run(cs, present, seen) && |seen| > 0 && cs[|seen|] == 0
    requires forall j | 0 <= j < |seen| :: k in present[j]
    ensures i < |seen| && k in seen[i]
  {
    PlaceBound(k);
    i := FirstPast(cs, present, seen, k, |seen|);
    assert CallOk(cs[i], cs[i + 1], present[i], seen[i]);
  }

  lemma {:induction false} FirstPast(cs: seq<nat>, present: seq<set<Key>>, seen: seq<set<Key>>, k: Key, m: nat)
    returns (i: nat)
    requires Run(cs, present, seen) && 0 < m <= |seen| && PlaceOf(k) < Until(cs[m])
    ensures i < m && cs[i] <= PlaceOf(k) < Until(cs[i + 1])
  {
    if cs[m - 1] <= PlaceOf(k) {
      i := m - 1;
    } else {
      i := FirstPast(cs, present, seen, k, m - 1);
    }
  }

  /** A scan ends. */
  lemma {:induction false} RunIsBounded(cs: seq<nat>, present: seq<set<Key>>, seen: seq<set<Key>>, n: nat)
    requires Run(cs, present, seen) && n <= |seen|
    ensures n <= Until(cs[n]) <= CURSOR_END
  {
    if n > 0 {
      RunIsBounded(cs, present, seen, n - 1);
      assert CallOk(cs[n - 1], cs[n], present[n - 1], seen[n - 1]);
    }
  }
}
