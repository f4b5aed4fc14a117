/** DenseSet::Scan. */
module DenseScan {
  import opened Arith
  import opened Keys
  import opened Members
  import opened DenseBuckets
  import opened DenseSet
  import ScanRun

  /** Bucket `i` holds or hosts an entry at home in bucket `home`. */
  ghost predicate Carries(b: Bucket, i: nat, home: nat) { b.chain != [] && i - b.disp == home }

  ghost predicate NoneAtHome(m: multiset<Node>, home: nat, log: nat) {
    forall x | x in m :: BucketId(x.key, log) != home
  }

  /** Where an entry can be. */
  lemma WhereAtHome(t: seq<Bucket>, log: nat, x: Node, i: nat)
    requires TableOk(t, log) && i < |t| && x in t[i].chain
    ensures Carries(t[i], i, BucketId(x.key, log)) && -1 <= t[i].disp <= 1 && (t[i].disp != 0 ==> t[i].chain == [x])
  {
    hide BucketId, Pow2;
    var c :| 0 <= c < |t[i].chain| && t[i].chain[c] == x;
    assert BucketOk(t[i], i, log);
  }

  /** The head of bucket `i` has been seen to; whether it then carries an entry of `home`. */
  method HeadCarries(s: Set, i: nat, home: nat) returns (r: bool)
    requires s.Shaped() && i < |s.entries|
    modifies s`entries, s`size
    ensures s.Shaped() && |s.entries| == |old(s.entries)| && s.entries == old(s.entries)[i := s.entries[i]]
    ensures Expired(old(s.entries), s.entries, s.timeNow)
    ensures r == Carries(s.entries[i], i, home)
    ensures s.entries[i].chain != [] ==> !Due(s.entries[i].chain[0], s.timeNow)
  {
    hide Contents, TableOk, DropAt, Reaped;
    DropAtChain(s.entries[i], 0, s.timeNow);
    s.ExpireIfNeeded(i, 0);
    r := s.entries[i].chain != [] && i - s.entries[i].disp == home;
  }

  /** DenseSet::NoItemBelongsBucket. */
  method NoItemBelongsBucket(s: Set, bid: nat) returns (none: bool)
    requires s.Shaped() && bid < |s.entries|
    modifies s`entries, s`size
    ensures s.Shaped() && |s.entries| == |old(s.entries)| && Expired(old(s.entries), s.entries, s.timeNow)
    ensures none <==> NoneAtHome(s.Members(), bid, s.capacityLog)
    ensures s.entries[bid].chain != [] ==> !Due(s.entries[bid].chain[0], s.timeNow)
  {
    hide Contents, TableOk, Reaped, Expired, Carries;
    var r := HeadCarries(s, bid, bid);
    if r {
      CarriedIsMember(s.entries, s.capacityLog, bid, bid);
      return false;
    }
    if bid + 1 < |s.entries| {
      ghost var was := s.entries;
      r := HeadCarries(s, bid + 1, bid);
      ExpiredTwice(old(s.entries), was, s.entries, s.timeNow);
      if r {
        CarriedIsMember(s.entries, s.capacityLog, bid + 1, bid);
        return false;
      }
    }
    if bid > 0 {
      ghost var was := s.entries;
      r := HeadCarries(s, bid - 1, bid);
      ExpiredTwice(old(s.entries), was, s.entries, s.timeNow);
      if r {
        CarriedIsMember(s.entries, s.capacityLog, bid - 1, bid);
        return false;
      }
    }
    NobodyCarries(s.entries, s.capacityLog, bid);
    return true;
  }

  lemma CarriedIsMember(t: seq<Bucket>, log: nat, i: nat, home: nat)
    requires TableOk(t, log) && i < |t| && Carries(t[i], i, home)
    ensures !NoneAtHome(Contents(t), home, log)
  {
    hide Contents, BucketId, Pow2;
    ContentsMember(t, t[i].chain[0]);
    assert BucketOk(t[i], i, log);
  }

  lemma NobodyCarries(t: seq<Bucket>, log: nat, bid: nat)
    requires TableOk(t, log) && bid < |t| && !Carries(t[bid], bid, bid)
    requires bid + 1 < |t| ==> !Carries(t[bid + 1], bid + 1, bid)
    requires bid > 0 ==> !Carries(t[bid - 1], bid - 1, bid)
    ensures NoneAtHome(Contents(t), bid, log)
  {
    hide Contents, BucketId, Pow2, TableOk;
    forall x | x in Contents(t) ensures BucketId(x.key, log) != bid {
      ContentsMember(t, x);
      var i :| 0 <= i < |t| && x in t[i].chain;
      WhereAtHome(t, log, x, i);
    }
  }

  /** The home chain: reports its live entries and removes the due ones. */
  method ScanChain(s: Set, i: nat) returns (seen: seq<Node>)
    requires s.Shaped() && i < |s.entries| && (s.entries[i].chain != [] ==> !Due(s.entries[i].chain[0], s.timeNow))
    modifies s`entries, s`size
    ensures s.Shaped() && |s.entries| == |old(s.entries)| && s.entries == old(s.entries)[i := s.entries[i]]
    ensures Expired(old(s.entries), s.entries, s.timeNow)
    ensures s.entries[i].disp == old(s.entries)[i].disp && seen == s.entries[i].chain
    ensures forall x | x in seen :: !Due(x, s.timeNow)
  {
    hide Contents, TableOk, DropAt, Reaped, Expired;
    NothingExpired(s.entries, s.timeNow);
    seen := [];
    var c := 0;
    while c < |s.entries[i].chain|
      invariant s.Shaped() && |s.entries| == |old(s.entries)| && s.entries == old(s.entries)[i := s.entries[i]]
      invariant Expired(old(s.entries), s.entries, s.timeNow) && s.entries[i].disp == old(s.entries)[i].disp
      invariant c <= |s.entries[i].chain| && seen == s.entries[i].chain[..c]
      invariant c < |s.entries[i].chain| ==> !Due(s.entries[i].chain[c], s.timeNow)
      invariant forall x | x in seen :: !Due(x, s.timeNow)
      decreases |s.entries[i].chain| - c
    {
      ghost var was := s.entries;
      DropAtChain(s.entries[i], c + 1, s.timeNow);
      seen := seen + [s.entries[i].chain[c]];
      s.ExpireIfNeeded(i, c + 1);
      ExpiredTwice(old(s.entries), was, s.entries, s.timeNow);
      assert s.entries[i].chain[..c + 1] == was[i].chain[..c + 1] == was[i].chain[..c] + [was[i].chain[c]];
      c := c + 1;
    }
    assert s.entries[i].chain[..c] == s.entries[i].chain;
  }

  /** The entries of the table at home in bucket `home`. */
  ghost predicate ExactlyAt(t: seq<Bucket>, log: nat, home: nat, seen: seq<Node>) {
    forall x: Node :: multiset(seen)[x] == if BucketId(x.key, log) == home then Contents(t)[x] else 0
  }

  lemma ExactMember(t: seq<Bucket>, log: nat, home: nat, seen: seq<Node>, x: Node)
    requires ExactlyAt(t, log, home, seen)
    ensures x in seen <==> x in Contents(t) && BucketId(x.key, log) == home
  {
    hide Contents, BucketId;
    assert x in seen <==> x in multiset(seen);
  }

  /** Reports the entries at home in one bucket: its chain, and the neighbours' displaced entries. */
  method ScanHome(s: Set, idx: nat) returns (seen: seq<Node>)
    requires s.Shaped() && idx < |s.entries| && (s.entries[idx].chain != [] ==>
                                                   !Due(s.entries[idx].chain[0], s.timeNow))
    requires Unique(s.Members())
    modifies s`entries, s`size
    ensures s.Shaped() && |s.entries| == |old(s.entries)| && Expired(old(s.entries), s.entries, s.timeNow)
    ensures ExactlyAt(s.entries, s.capacityLog, idx, seen) && forall x | x in seen :: !Due(x, s.timeNow)
  {
    hide Contents, TableOk, Reaped, ExactlyAt, Unique;
    NothingExpired(s.entries, s.timeNow);
    var own, left, right := [], [], [];
    if s.entries[idx].chain != [] && s.entries[idx].disp == 0 {
      own := ScanChain(s, idx);
    }
    if idx > 0 {
      ghost var was := s.entries;
      var r := HeadCarries(s, idx - 1, idx);
      ExpiredTwice(old(s.entries), was, s.entries, s.timeNow);
      if r {
        left := [s.entries[idx - 1].chain[0]];
      }
    }
    if idx + 1 < |s.entries| {
      ghost var was := s.entries;
      var r := HeadCarries(s, idx + 1, idx);
      ExpiredTwice(old(s.entries), was, s.entries, s.timeNow);
      if r {
        right := [s.entries[idx + 1].chain[0]];
      }
    }
    seen := own + left + right;
    AloneBeside(s.entries, s.capacityLog, idx);
    ReapedUnique(old(s.Members()), s.Members(), s.timeNow);
    AllThree(s.entries, s.capacityLog, idx, own, left, right);
  }

  /** What bucket `i` carries for `home`. */
  ghost function Piece(t: seq<Bucket>, i: int, home: nat): seq<Node> {
    if 0 <= i < |t| && Carries(t[i], i, home) then t[i].chain else []
  }

  lemma PieceMember(t: seq<Bucket>, log: nat, i: int, home: nat, x: Node)
    requires TableOk(t, log)
    ensures x in Piece(t, i, home) <==> 0 <= i < |t| && x in t[i].chain && BucketId(x.key, log) == home
  {
    hide BucketId, TableOk;
    if 0 <= i < |t| && x in t[i].chain {
      WhereAtHome(t, log, x, i);
    }
  }

  /** A bucket that carries an entry for a neighbour carries only that. */
  lemma AloneBeside(t: seq<Bucket>, log: nat, idx: nat)
    requires TableOk(t, log) && idx < |t|
    ensures forall i | i != idx && Piece(t, i, idx) != [] :: Piece(t, i, idx) == [t[i].chain[0]]
    ensures Piece(t, idx, idx) == if t[idx].disp == 0 then t[idx].chain else []
  {
    hide BucketId, Pow2;
    forall i | i != idx && Piece(t, i, idx) != [] ensures Piece(t, i, idx) == [t[i].chain[0]] {
      assert BucketOk(t[i], i, log);
    }
  }

  lemma InThree(t: seq<Bucket>, log: nat, idx: nat, x: Node)
    requires TableOk(t, log) && idx < |t|
    ensures x in Piece(t, idx, idx) + Piece(t, idx - 1, idx) + Piece(t, idx + 1, idx) <==>
              x in Contents(t) && BucketId(x.key, log) == idx
  {
    hide Contents, BucketId, TableOk, Piece;
    PieceMember(t, log, idx, idx, x);
    PieceMember(t, log, idx - 1, idx, x);
    PieceMember(t, log, idx + 1, idx, x);
    ContentsMember(t, x);
    if x in Contents(t) && BucketId(x.key, log) == idx {
      var i :| 0 <= i < |t| && x in t[i].chain;
      WhereAtHome(t, log, x, i);
    }
  }

  lemma AllThree(t: seq<Bucket>, log: nat, idx: nat, own: seq<Node>, left: seq<Node>, right: seq<Node>)
    requires TableOk(t, log) && idx < |t| && Unique(Contents(t))
    requires own == Piece(t, idx, idx) && left == Piece(t, idx - 1, idx) && right == Piece(t, idx + 1, idx)
    ensures ExactlyAt(t, log, idx, own + left + right)
  {
    hide Contents, BucketId, TableOk, Piece, Unique, Distinct;
    PiecesApart(t, idx, idx, idx - 1);
    PiecesApart(t, idx, idx, idx + 1);
    PiecesApart(t, idx, idx - 1, idx + 1);
    DistinctJoin(own, left);
    DistinctJoin(own + left, right);
    forall x: Node
      ensures multiset(own + left + right)[x] == if BucketId(x.key, log) == idx then Contents(t)[x] else 0
    {
      InThree(t, log, idx, x);
      ReportedOnce(Contents(t), own + left + right, x, BucketId(x.key, log) == idx);
    }
  }

  /** What two buckets carry has nothing in common and no repetitions. */
  lemma PiecesApart(t: seq<Bucket>, home: nat, i: int, j: int)
    requires Unique(Contents(t)) && i != j
    ensures Distinct(Piece(t, i, home)) && Distinct(Piece(t, j, home))
    ensures forall x | x in Piece(t, i, home) :: x !in Piece(t, j, home)
  {
    hide Contents;
    ChainDistinct(t, i);
    ChainDistinct(t, j);
    if x :| x in Piece(t, i, home) && x in Piece(t, j, home) {
      HeldTwice(t, i, j, x);
    }
  }

  lemma HeldTwice(t: seq<Bucket>, i: nat, j: nat, x: Node)
    requires i < |t| && j < |t| && i != j && x in t[i].chain && x in t[j].chain
    ensures Contents(t)[x] >= 2
  {
    hide Contents;
    ContentsUpdate(t, i, EMPTY);
    var c := t[i := EMPTY];
    assert c[j] == t[j] && x in c[j].chain;
    ContentsMember(c, x);
    assert (Contents(c) + multiset(t[i].chain))[x] == (Contents(t) + multiset([]))[x];
    assert x in multiset(t[i].chain);
  }

  lemma ChainDistinct(t: seq<Bucket>, i: int)
    requires Unique(Contents(t))
    ensures 0 <= i < |t| ==> Distinct(t[i].chain)
  {
    hide Contents, Unique;
    if 0 <= i < |t| {
      ContentsUpdate(t, i, EMPTY);
      assert multiset(t[i].chain) <= Contents(t[i := EMPTY]) + multiset(t[i].chain) == Contents(t) + multiset([]);
      assert Contents(t) + multiset([]) == Contents(t);
      PartIsDistinct(t[i].chain, Contents(t));
    }
  }

  ghost predicate NoneBetween(m: multiset<Node>, lo: nat, hi: nat, log: nat) {
    forall x | x in m :: !(lo <= BucketId(x.key, log) < hi)
  }

  /** Goes to the first bucket from `start` on that some entry is at home in. */
  method SkipEmpty(s: Set, start: nat) returns (idx: nat)
    requires s.Shaped() && start <= |s.entries|
    modifies s`entries, s`size
    ensures s.Shaped() && |s.entries| == |old(s.entries)| && Expired(old(s.entries), s.entries, s.timeNow)
    ensures start <= idx <= |s.entries| && NoneBetween(s.Members(), start, idx, s.capacityLog)
    ensures idx < |s.entries| ==> !NoneAtHome(s.Members(), idx, s.capacityLog)
                                  && (s.entries[idx].chain != [] ==> !Due(s.entries[idx].chain[0], s.timeNow))
  {
    hide Contents, TableOk, Reaped, Expired, BucketId;
    NothingExpired(s.entries, s.timeNow);
    idx := start;
    while idx < |s.entries|
      invariant s.Shaped() && |s.entries| == |old(s.entries)| && Expired(old(s.entries), s.entries, s.timeNow)
      invariant start <= idx <= |s.entries| && NoneBetween(s.Members(), start, idx, s.capacityLog)
    {
      ghost var was := s.entries;
      var none := NoItemBelongsBucket(s, idx);
      ExpiredTwice(old(s.entries), was, s.entries, s.timeNow);
      StillNone(was, s.entries, start, idx, s.capacityLog, s.timeNow);
      if !none {
        return;
      }
      idx := idx + 1;
    }
  }

  lemma StillNone(t: seq<Bucket>, t': seq<Bucket>, lo: nat, hi: nat, log: nat, now: nat)
    requires Expired(t, t', now) && NoneBetween(Contents(t), lo, hi, log)
    ensures NoneBetween(Contents(t'), lo, hi, log)
  {
    hide Contents, BucketId;
    assert forall x :: x in Contents(t') ==> Contents(t')[x] <= Contents(t)[x];
  }

  /** DenseSet::Scan. It reports the live entries at home in one bucket, the first from the cursor on that has
      any, and goes on behind it. */
  method Scan(s: Set, cursor: nat) returns (next: nat, seen: seq<Node>, ghost home: nat)
    requires s.Valid() && cursor < ScanRun.CURSOR_END
    requires s.entries == [] ==> s.capacityLog == 0 || Shr(cursor, 32 - s.capacityLog) == 0
    modifies s`entries, s`size
    ensures s.Valid() && Reaped(old(s.Members()), s.Members(), s.timeNow)
    ensures ExactlyAt(s.entries, s.capacityLog, home, seen) && forall x | x in seen :: !Due(x, s.timeNow)
    ensures ScanRun.CallOk(cursor, next, KeysOf(s.Members()), KeysOf(multiset(seen)))
  {
    hide Contents, TableOk, Reaped, Expired, BucketId, Shr, Shl, Unique, NoTtlBelow, ExactlyAt, ScanRun.CallOk, KeysOf;
    next, seen, home := 0, [], 0;
    NothingReaped(s.Members(), s.timeNow);
    if s.capacityLog == 0 || s.entries == [] {
      EmptyScan(s.entries, s.capacityLog, cursor);
      return;
    }
    var shift := 32 - s.capacityLog;
    ScanRun.StartInTable(cursor, s.capacityLog);
    TableLength(s.entries, s.capacityLog);
    var start := Shr(cursor, shift);
    var idx := SkipEmpty(s, start);
    home := idx;
    ghost var was := s.entries;
    if idx < |s.entries| {
      ExpiredReaped(old(s.Members()), old(s.entries), s.entries, s.timeNow);
      ReapedUnique(old(s.Members()), s.Members(), s.timeNow);
      seen := ScanHome(s, idx);
      ExpiredTwice(old(s.entries), was, s.entries, s.timeNow);
      StillNone(was, s.entries, start, idx, s.capacityLog, s.timeNow);
      if idx + 1 < |s.entries| {
        next := Shl(idx + 1, shift);
      }
    } else {
      NothingAt(s.entries, s.capacityLog, idx);
    }
    s.StillValid(old(s.entries));
    ExpiredReaped(old(s.Members()), old(s.entries), s.entries, s.timeNow);
    Covered(s.entries, s.capacityLog, cursor, idx, next, seen);
  }

  /** The array has been given up and the capacity kept. From a nonzero cursor the index lies behind the end
      already, where the comparison with the end does not stop the call. */
  method IndexBehindEnd() returns (s: Set, cursor: nat)
    ensures fresh(s) && s.Valid() && s.entries == [] && s.capacityLog > 0
    ensures cursor < ScanRun.CURSOR_END && Shr(cursor, 32 - s.capacityLog) > |s.entries|
  {
    hide Shr, Shl, Contents, TableOk, Unique, NoTtlBelow, Pow2, CeilLog, EmptyRange;
    s := new Set();
    s.Reserve(16);
    var end := s.ClearStep(0, 0);
    cursor := Shl(1, 32 - s.capacityLog);
    SecondBucket(s.capacityLog);
  }

  /** The cursor of bucket 1. */
  lemma SecondBucket(log: nat)
    requires 0 < log <= 32
    ensures Shl(1, 32 - log) < ScanRun.CURSOR_END && Shr(Shl(1, 32 - log), 32 - log) == 1
  {
    assert Pow2(0) == 1 && Pow2(32) == 2 * Pow2(31);
    hide Shr, Shl, Pow2;
    ShrShl(1, 32 - log);
    ShlPow2(0, 32 - log);
    Pow2Mono(32 - log, 31);
    Pow2Of32();
  }

  lemma EmptyScan(t: seq<Bucket>, log: nat, cursor: nat)
    requires t == [] && cursor < ScanRun.CURSOR_END
    ensures ExactlyAt(t, log, 0, []) && ScanRun.CallOk(cursor, 0, KeysOf(Contents(t)), KeysOf(multiset([])))
  {
    NoContents(t);
  }

  lemma NothingAt(t: seq<Bucket>, log: nat, home: nat)
    requires TableOk(t, log) && log <= 64 && home >= |t|
    ensures ExactlyAt(t, log, home, [])
  {
    hide Contents, BucketId;
    forall x: Node ensures BucketId(x.key, log) != home {
      BucketIdBound(x.key, log);
    }
  }

  lemma Covered(t: seq<Bucket>, log: nat, cursor: nat, idx: nat, next: nat, seen: seq<Node>)
    requires log <= 32 && TableOk(t, log) && cursor < ScanRun.CURSOR_END && Shr(cursor, 32 - log) <= idx <= |t|
    requires NoneBetween(Contents(t), Shr(cursor, 32 - log), idx, log) && ExactlyAt(t, log, idx, seen)
    requires next == if idx + 1 < |t| then Shl(idx + 1, 32 - log) else 0
    ensures ScanRun.CallOk(cursor, next, KeysOf(Contents(t)), KeysOf(multiset(seen)))
  {
    hide Contents, BucketId, Shr, Shl, BucketOk, Pow2;
    forall k | k in KeysOf(Contents(t)) ensures !(Shr(cursor, 32 - log) <= BucketId(k, log) < idx) {
      var x :| x in Contents(t) && x.key == k;
    }
    forall k | k in KeysOf(Contents(t)) && BucketId(k, log) == idx ensures k in KeysOf(multiset(seen)) {
      var x :| x in Contents(t) && x.key == k;
      ExactMember(t, log, idx, seen, x);
    }
    ScanRun.Covered(log, cursor, idx, next, KeysOf(Contents(t)), KeysOf(multiset(seen)));
  }

  lemma TableLength(t: seq<Bucket>, log: nat)
    requires TableOk(t, log)
    ensures |t| == Pow2(log)
  {
  }
}
