/** Scanning and reaping an open-addressing table by home bucket. */
module OahScan {
  import opened Arith
  import opened Keys
  import opened Members
  import opened OahLayout
  import opened OahTable
  import ScanRun

  /** The cached hash has the leading bits of bucket `bid`. */
  predicate Affiliated(tag: nat, bid: nat, log: nat) {
    Shr(tag, TAG_BITS - PartBits(log)) == bid % Pow2(PartBits(log))
  }

  /** In a slot that the bucket reaches, the cached hash tells exactly which entries belong to the bucket. */
  lemma AffiliatedIsHome(s: Slot, i: nat, bid: nat, log: nat, c: nat)
    requires log <= MAX_LOG && bid < Pow2(log) && Reaches(bid, i) && SlotOk(s, i, log) && c < |s.nodes|
    ensures Affiliated(s.tags[c], bid, log) <==> BucketId(s.nodes[c].key, log) == bid
  {
    var k := s.nodes[c].key;
    BucketIdBound(k, log);
    TagIsHome(k, log);
    hide Shr, Pow2, ExtHash, BucketId;
    SameBucket(bid, BucketId(k, log), log);
  }

  /** The entries of one slot that belong to the bucket are reported; the due ones are removed first if `expire`. */
  method ScanSlot(t: Table, i: nat, bid: nat, expire: bool) returns (seen: seq<Node>)
    requires t.Valid() && i < |t.entries| && Reaches(bid, i) && bid < Pow2(t.log)
    modifies t`entries, t`size
    ensures t.Valid() && |t.entries| == |old(t.entries)| && t.entries == old(t.entries)[i := t.entries[i]]
    ensures t.entries[i].vec == old(t.entries)[i].vec
    ensures Reaped(old(t.Members()), t.Members(), t.timeNow)
    ensures Distinct(seen) && forall x :: x in seen <==> x in t.entries[i].nodes && BucketId(x.key, t.log) == bid
    ensures expire ==> forall x | x in seen :: !Due(x, t.timeNow)
    ensures OthersKept(old(t.Members()), t.Members(), bid, t.log)
    ensures !expire ==> t.entries == old(t.entries) && t.size == old(t.size)
  {
    hide Contents, Layout, Unique, TtlOk, BucketId, Affiliated, Reaped, SlotOk, HasKey, Removed, Due;
    assert OthersKept(t.Members(), t.Members(), bid, t.log);
    hide OthersKept;
    seen := [];
    NothingReaped(t.Members(), t.timeNow);
    var c: nat := 0;
    while c < |t.entries[i].nodes|
      invariant t.Valid() && |t.entries| == |old(t.entries)| && t.entries == old(t.entries)[i := t.entries[i]]
      invariant t.entries[i].vec == old(t.entries)[i].vec
      invariant c <= |t.entries[i].nodes| && Reaped(old(t.Members()), t.Members(), t.timeNow)
      invariant forall x :: x in seen <==> x in t.entries[i].nodes[..c] && BucketId(x.key, t.log) == bid
      invariant Distinct(seen)
      invariant expire ==> forall x | x in seen :: !Due(x, t.timeNow)
      invariant OthersKept(old(t.Members()), t.Members(), bid, t.log)
      invariant !expire ==> t.entries == old(t.entries) && t.size == old(t.size)
      decreases |t.entries[i].nodes| - c
    {
      ghost var (before, m) := (t.entries[i], t.Members());
      SlotFine(t.entries, t.log, i);
      AffiliatedIsHome(before, i, bid, t.log, c);
      var x := t.entries[i].nodes[c];
      if Affiliated(t.entries[i].tags[c], bid, t.log) && expire && Due(x, t.timeNow) {
        t.RemoveAt(i, c);
        RemovedNodes(before, c);
        DropAgain(old(t.Members()), m, t.Members(), x, t.timeNow);
        OneFewer(old(t.Members()), m, t.Members(), x, bid, t.log);
      } else {
        if Affiliated(t.entries[i].tags[c], bid, t.log) {
          NodesDistinct(t.entries, i);
          assert x !in t.entries[i].nodes[..c];
          DistinctJoin(seen, [x]);
          seen := seen + [x];
        }
        assert t.entries[i].nodes[..c + 1] == t.entries[i].nodes[..c] + [x];
        c := c + 1;
      }
    }
    assert t.entries[i].nodes[..c] == t.entries[i].nodes;
  }

  lemma SlotFine(t: seq<Slot>, log: nat, i: nat)
    requires Layout(t, log) && i < |t|
    ensures SlotOk(t[i], i, log) && |t[i].tags| == |t[i].nodes|
  {
  }

  lemma RemovedNodes(s: Slot, c: nat)
    requires c < |s.nodes| == |s.tags|
    ensures Removed(s, c).vec == s.vec && Removed(s, c).nodes[..c] == s.nodes[..c]
            && |Removed(s, c).nodes| == |s.nodes| - 1
    ensures forall x | x in s.nodes && x != s.nodes[c] :: x in Removed(s, c).nodes
    ensures forall x | x in Removed(s, c).nodes :: x in s.nodes
  {
    assert s.nodes == s.nodes[..c] + [s.nodes[c]] + s.nodes[c + 1..];
  }

  /** Entries at home in other buckets are as they were. */
  ghost predicate OthersKept(m: multiset<Node>, m': multiset<Node>, bid: nat, log: nat) {
    forall x: Node | BucketId(x.key, log) != bid :: m'[x] == m[x]
  }

  lemma OneFewer(m: multiset<Node>, a: multiset<Node>, b: multiset<Node>, x: Node, bid: nat, log: nat)
    requires OthersKept(m, a, bid, log) && b + multiset{x} == a && BucketId(x.key, log) == bid
    ensures OthersKept(m, b, bid, log)
  {
    hide BucketId;
    forall y: Node | BucketId(y.key, log) != bid ensures b[y] == m[y] {
      assert a[y] == b[y] + multiset{x}[y];
    }
  }

  lemma KeptTwice(m: multiset<Node>, a: multiset<Node>, b: multiset<Node>, bid: nat, log: nat)
    requires OthersKept(m, a, bid, log) && OthersKept(a, b, bid, log)
    ensures OthersKept(m, b, bid, log)
  {
    hide BucketId;
  }

  lemma DropAgain(m: multiset<Node>, a: multiset<Node>, b: multiset<Node>, x: Node, now: nat)
    requires Reaped(m, a, now) && b + multiset{x} == a && Due(x, now)
    ensures Reaped(m, b, now)
  {
    DropOne(m, b, x, now);
  }

  /** One of the first `n` lanes of the window is a single entry and equals `x`. */
  ghost predicate AmongSingles(t: seq<Slot>, bid: nat, n: nat, x: Node) {
    exists i | bid <= i < bid + n && i < |t| :: !t[i].vec && x in t[i].nodes
  }

  ghost predicate SinglesSeen(t: seq<Slot>, log: nat, bid: nat, n: nat, seen: seq<Node>) {
    Distinct(seen) && forall x :: x in seen <==> AmongSingles(t, bid, n, x) && BucketId(x.key, log) == bid
  }

  /** Exactly the entries at home in the bucket, each as often as it is held. */
  ghost predicate ExactlyAt(m: multiset<Node>, log: nat, bid: nat, seen: seq<Node>) {
    forall x: Node :: multiset(seen)[x] == if BucketId(x.key, log) == bid then m[x] else 0
  }

  lemma ExactMember(m: multiset<Node>, log: nat, bid: nat, seen: seq<Node>)
    requires ExactlyAt(m, log, bid, seen)
    ensures forall x :: x in seen <==> x in m && BucketId(x.key, log) == bid
  {
    hide BucketId;
    forall x ensures x in seen <==> x in m && BucketId(x.key, log) == bid {
      assert x in seen <==> x in multiset(seen);
    }
  }

  lemma HeldTwice(t: seq<Slot>, i: nat, j: nat, x: Node)
    requires i < |t| && j < |t| && i != j && x in t[i].nodes && x in t[j].nodes
    ensures Contents(t)[x] >= 2
  {
    hide Contents;
    ContentsUpdate(t, i, EMPTY);
    var c := t[i := EMPTY];
    assert c[j] == t[j] && x in c[j].nodes;
    ContentsMember(c, x);
    assert (Contents(c) + multiset(t[i].nodes))[x] == (Contents(t) + multiset([]))[x];
    assert x in multiset(t[i].nodes);
  }

  lemma NodesDistinct(t: seq<Slot>, i: nat)
    requires Unique(Contents(t)) && i < |t|
    ensures Distinct(t[i].nodes)
  {
    hide Contents, Unique;
    ContentsUpdate(t, i, EMPTY);
    assert multiset(t[i].nodes) <= Contents(t[i := EMPTY]) + multiset(t[i].nodes) == Contents(t) + multiset([]);
    assert Contents(t) + multiset([]) == Contents(t);
    PartIsDistinct(t[i].nodes, Contents(t));
  }

  lemma NoneSeen(t: seq<Slot>, log: nat, bid: nat)
    ensures SinglesSeen(t, log, bid, 0, [])
  {
  }

  lemma OneMoreLane(was: seq<Slot>, t: seq<Slot>, log: nat, bid: nat, j: nat, seen: seq<Node>, more: seq<Node>)
    requires |was| == |t| && bid + j < |t| && t == was[bid + j := t[bid + j]] && t[bid + j].vec == was[bid + j].vec
    requires SinglesSeen(was, log, bid, j, seen) && Unique(Contents(t)) && Distinct(more)
    requires if t[bid + j].vec then more == [] && t == was
             else forall x :: x in more <==> x in t[bid + j].nodes && BucketId(x.key, log) == bid
    ensures SinglesSeen(t, log, bid, j + 1, seen + more)
  {
    hide BucketId, Contents, Distinct;
    LaneApart(was, t, log, bid, j, seen, more);
    DistinctJoin(seen, more);
    forall x
      ensures AmongSingles(t, bid, j + 1, x) <==>
                AmongSingles(was, bid, j, x) || (!t[bid + j].vec && x in t[bid + j].nodes)
    {
      if AmongSingles(was, bid, j, x) {
        var i :| bid <= i < bid + j && i < |was| && !was[i].vec && x in was[i].nodes;
        assert t[i] == was[i];
      }
      if AmongSingles(t, bid, j + 1, x) {
        var i :| bid <= i < bid + j + 1 && i < |t| && !t[i].vec && x in t[i].nodes;
        assert i != bid + j ==> t[i] == was[i];
      }
    }
  }

  /** What one more lane adds has not been seen. */
  lemma LaneApart(was: seq<Slot>, t: seq<Slot>, log: nat, bid: nat, j: nat, seen: seq<Node>, more: seq<Node>)
    requires |was| == |t| && bid + j < |t| && t == was[bid + j := t[bid + j]]
    requires SinglesSeen(was, log, bid, j, seen) && Unique(Contents(t))
    requires forall x | x in more :: x in t[bid + j].nodes
    ensures forall x | x in seen :: x !in more
  {
    hide BucketId, Contents;
    if x :| x in seen && x in more {
      assert AmongSingles(was, bid, j, x);
      var i :| bid <= i < bid + j && i < |was| && !was[i].vec && x in was[i].nodes;
      HeldTwice(t, i, bid + j, x);
    }
  }

  lemma SameSingles(was: seq<Slot>, t: seq<Slot>, log: nat, bid: nat, e: nat, seen: seq<Node>)
    requires |was| == |t| && e < |t| && t == was[e := t[e]] && t[e].vec && was[e].vec
    requires SinglesSeen(was, log, bid, WINDOW, seen)
    ensures SinglesSeen(t, log, bid, WINDOW, seen)
  {
    hide BucketId;
    forall x ensures AmongSingles(t, bid, WINDOW, x) <==> AmongSingles(was, bid, WINDOW, x) {
      if AmongSingles(was, bid, WINDOW, x) {
        var i :| bid <= i < bid + WINDOW && i < |was| && !was[i].vec && x in was[i].nodes;
        assert t[i] == was[i];
      }
      if AmongSingles(t, bid, WINDOW, x) {
        var i :| bid <= i < bid + WINDOW && i < |t| && !t[i].vec && x in t[i].nodes;
        assert t[i] == was[i];
      }
    }
  }

  lemma AllOfBucket(t: seq<Slot>, log: nat, bid: nat, seen: seq<Node>, more: seq<Node>)
    requires Layout(t, log) && bid < Pow2(log) && SinglesSeen(t, log, bid, WINDOW, seen)
    requires ExtensionPoint(bid) < |t| && Unique(Contents(t)) && Distinct(more)
    requires if t[ExtensionPoint(bid)].vec
             then forall x :: x in more <==> x in t[ExtensionPoint(bid)].nodes && BucketId(x.key, log) == bid
             else more == []
    ensures ExactlyAt(Contents(t), log, bid, seen + more)
  {
    hide BucketId, Contents, Pow2, ExtHash, ExtensionPoint, Unique, Distinct, Layout;
    if t[ExtensionPoint(bid)].vec {
      VectorApart(t, log, bid, ExtensionPoint(bid), seen, more);
    }
    DistinctJoin(seen, more);
    forall x: Node ensures multiset(seen + more)[x] == if BucketId(x.key, log) == bid then Contents(t)[x] else 0 {
      BucketMember(t, log, bid, seen, more, x);
      ReportedOnce(Contents(t), seen + more, x, BucketId(x.key, log) == bid);
    }
  }

  lemma BucketMember(t: seq<Slot>, log: nat, bid: nat, seen: seq<Node>, more: seq<Node>, x: Node)
    requires Layout(t, log) && bid < Pow2(log) && SinglesSeen(t, log, bid, WINDOW, seen)
    requires ExtensionPoint(bid) < |t|
    requires if t[ExtensionPoint(bid)].vec
             then forall x :: x in more <==> x in t[ExtensionPoint(bid)].nodes && BucketId(x.key, log) == bid
             else more == []
    ensures x in seen + more <==> x in Contents(t) && BucketId(x.key, log) == bid
  {
    hide BucketId, Contents, Pow2, ExtHash, ExtensionPoint;
    ContentsMember(t, x);
    if x in Contents(t) && BucketId(x.key, log) == bid {
      var i :| 0 <= i < |t| && x in t[i].nodes;
      assert SlotOk(t[i], i, log);
      OneExtensionPoint(bid, i);
      assert !t[i].vec ==> AmongSingles(t, bid, WINDOW, x);
    }
  }

  /** The extension vector holds none of the single entries. */
  lemma VectorApart(t: seq<Slot>, log: nat, bid: nat, e: nat, seen: seq<Node>, more: seq<Node>)
    requires SinglesSeen(t, log, bid, WINDOW, seen) && Unique(Contents(t)) && e < |t| && t[e].vec
    requires forall x | x in more :: x in t[e].nodes
    ensures forall x | x in seen :: x !in more
  {
    hide BucketId, Contents;
    if x :| x in seen && x in more {
      assert AmongSingles(t, bid, WINDOW, x);
      var i :| bid <= i < bid + WINDOW && i < |t| && !t[i].vec && x in t[i].nodes;
      HeldTwice(t, i, e, x);
    }
  }

  /** ScanHomeBucket: the single entries of the window, then the extension vector. It reports exactly the
      entries at home in the bucket, after removing the due ones among them if `expire`. */
  method ScanHomeBucket(t: Table, bid: nat, expire: bool) returns (seen: seq<Node>)
    requires t.Valid() && t.entries != [] && bid < Pow2(t.log)
    modifies t`entries, t`size
    ensures t.Valid() && |t.entries| == |old(t.entries)| && Reaped(old(t.Members()), t.Members(), t.timeNow)
    ensures ExactlyAt(t.Members(), t.log, bid, seen) && OthersKept(old(t.Members()), t.Members(), bid, t.log)
    ensures expire ==> forall x | x in seen :: !Due(x, t.timeNow)
    ensures !expire ==> t.entries == old(t.entries) && t.size == old(t.size)
  {
    hide Contents, SlotOk, Unique, TtlOk, BucketId, Reaped, Pow2, HasKey, SinglesSeen, ExactlyAt, OthersKept;
    NothingReaped(t.Members(), t.timeNow);
    seen := ScanWindow(t, bid, expire);
    var ext := ExtensionPoint(bid);
    OneExtensionPoint(bid, ext);
    var more := [];
    if t.entries[ext].vec {
      ghost var (before, m) := (t.entries, t.Members());
      more := ScanSlot(t, ext, bid, expire);
      ReapedTwice(old(t.Members()), m, t.Members(), t.timeNow);
      KeptTwice(old(t.Members()), m, t.Members(), bid, t.log);
      SameSingles(before, t.entries, t.log, bid, ext, seen);
    }
    AllOfBucket(t.entries, t.log, bid, seen, more);
    seen := seen + more;
  }

  method ScanWindow(t: Table, bid: nat, expire: bool) returns (seen: seq<Node>)
    requires t.Valid() && t.entries != [] && bid < Pow2(t.log)
    modifies t`entries, t`size
    ensures t.Valid() && |t.entries| == |old(t.entries)| && Reaped(old(t.Members()), t.Members(), t.timeNow)
    ensures SinglesSeen(t.entries, t.log, bid, WINDOW, seen) && OthersKept(old(t.Members()), t.Members(), bid, t.log)
    ensures expire ==> forall x | x in seen :: !Due(x, t.timeNow)
    ensures !expire ==> t.entries == old(t.entries) && t.size == old(t.size)
  {
    hide Contents, SlotOk, Unique, TtlOk, BucketId, Reaped, Pow2, HasKey, SinglesSeen;
    seen := [];
    NothingReaped(t.Members(), t.timeNow);
    NoneSeen(t.entries, t.log, bid);
    assert OthersKept(t.Members(), t.Members(), bid, t.log);
    hide OthersKept;
    for j := 0 to WINDOW
      invariant t.Valid() && |t.entries| == |old(t.entries)| && Reaped(old(t.Members()), t.Members(), t.timeNow)
      invariant SinglesSeen(t.entries, t.log, bid, j, seen) && OthersKept(old(t.Members()), t.Members(), bid, t.log)
      invariant expire ==> forall x | x in seen :: !Due(x, t.timeNow)
      invariant !expire ==> t.entries == old(t.entries) && t.size == old(t.size)
    {
      ghost var (before, m) := (t.entries, t.Members());
      var more := [];
      if !t.entries[bid + j].vec {
        more := ScanSlot(t, bid + j, bid, expire);
        ReapedTwice(old(t.Members()), m, t.Members(), t.timeNow);
        KeptTwice(old(t.Members()), m, t.Members(), bid, t.log);
      }
      OneMoreLane(before, t.entries, t.log, bid, j, seen, more);
      seen := seen + more;
    }
  }

  ghost predicate NoneBetween(m: multiset<Node>, lo: nat, hi: nat, log: nat) {
    forall x | x in m :: !(lo <= BucketId(x.key, log) < hi)
  }

  /** OAHTable::Scan. It reports the live entries of the first bucket from the cursor on that has any. */
  method Scan(t: Table, cursor: nat) returns (next: nat, seen: seq<Node>)
    requires t.Valid() && cursor < ScanRun.CURSOR_END
    modifies t`entries, t`size
    ensures t.Valid() && Reaped(old(t.Members()), t.Members(), t.timeNow)
    ensures exists bid: nat :: ExactlyAt(t.Members(), t.log, bid, seen)
    ensures forall x | x in seen :: x in t.Members() && !Due(x, t.timeNow)
    ensures ScanRun.CallOk(cursor, next, KeysOf(t.Members()), KeysOf(multiset(seen)))
  {
    hide Contents, Layout, Unique, TtlOk, BucketId, Reaped, Pow2, Shr, Shl, KeysOf, ScanRun.CallOk, ExactlyAt;
    NothingReaped(t.Members(), t.timeNow);
    next, seen := 0, [];
    if t.entries == [] {
      NoContents(t.entries);
      NothingToScan(cursor);
      NothingHeld(t.log);
      return;
    }
    var shift := 32 - t.log;
    ScanRun.StartInTable(cursor, t.log);
    var expire := t.expirationUsed;
    var start := Shr(cursor, shift);
    var bid: nat := start;
    while bid < Pow2(t.log)
      invariant t.Valid() && t.entries != [] && start <= bid <= Pow2(t.log)
      invariant Reaped(old(t.Members()), t.Members(), t.timeNow) && seen == []
      invariant NoneBetween(t.Members(), start, bid, t.log) && expire == t.expirationUsed
    {
      ghost var m := t.Members();
      seen := ScanHomeBucket(t, bid, expire);
      ReapedTwice(old(t.Members()), m, t.Members(), t.timeNow);
      FewerBetween(m, t.Members(), start, bid, t.log, t.timeNow);
      if seen != [] {
        break;
      }
      NoneHere(t.Members(), start, bid, t.log);
      bid := bid + 1;
    }
    if seen == [] {
      NothingThere(t.Members(), t.log);
    }
    if bid + 1 < Pow2(t.log) {
      next := Shl(bid + 1, shift);
    }
    AllMembers(t.Members(), t.log, bid, seen);
    FlagMeansDue(t.Members(), t.expirationUsed, t.reaperTtlSeen, t.reaperCursor, t.timeNow);
    Covered(t.Members(), t.log, cursor, bid, next, seen);
  }

  lemma AllMembers(m: multiset<Node>, log: nat, bid: nat, seen: seq<Node>)
    requires ExactlyAt(m, log, bid, seen)
    ensures forall x | x in seen :: x in m
  {
    ExactMember(m, log, bid, seen);
  }

  lemma NothingHeld(log: nat)
    ensures ExactlyAt(multiset{}, log, 0, [])
  {
  }

  lemma NothingToScan(cursor: nat)
    requires cursor < ScanRun.CURSOR_END
    ensures ScanRun.CallOk(cursor, 0, KeysOf(multiset{}), KeysOf(multiset([])))
  {
  }

  lemma FlagMeansDue(m: multiset<Node>, used: bool, seen: bool, cursor: nat, now: nat)
    requires TtlOk(m, used, seen, cursor)
    ensures !used ==> forall x | x in m :: !Due(x, now)
  {
  }

  lemma FewerBetween(m: multiset<Node>, m': multiset<Node>, lo: nat, hi: nat, log: nat, now: nat)
    requires Reaped(m, m', now) && NoneBetween(m, lo, hi, log)
    ensures NoneBetween(m', lo, hi, log)
  {
    hide BucketId;
    forall x | x in m' ensures x in m {
      InBefore(m, m', x, now);
    }
  }

  lemma NoneHere(m: multiset<Node>, lo: nat, bid: nat, log: nat)
    requires NoneBetween(m, lo, bid, log) && ExactlyAt(m, log, bid, [])
    ensures NoneBetween(m, lo, bid + 1, log)
  {
    hide BucketId;
    ExactMember(m, log, bid, []);
  }

  lemma NothingThere(m: multiset<Node>, log: nat)
    requires log <= 64
    ensures ExactlyAt(m, log, Pow2(log), [])
  {
    hide BucketId, Pow2;
    forall x: Node ensures BucketId(x.key, log) != Pow2(log) {
      BucketIdBound(x.key, log);
    }
  }

  lemma Covered(m: multiset<Node>, log: nat, cursor: nat, idx: nat, next: nat, seen: seq<Node>)
    requires log <= 32 && cursor < ScanRun.CURSOR_END && Shr(cursor, 32 - log) <= idx <= Pow2(log)
    requires NoneBetween(m, Shr(cursor, 32 - log), idx, log) && ExactlyAt(m, log, idx, seen)
    requires next == if idx + 1 < Pow2(log) then Shl(idx + 1, 32 - log) else 0
    ensures ScanRun.CallOk(cursor, next, KeysOf(m), KeysOf(multiset(seen)))
  {
    hide BucketId, Shr, Shl, Pow2;
    ExactMember(m, log, idx, seen);
    forall k | k in KeysOf(m) ensures !(Shr(cursor, 32 - log) <= BucketId(k, log) < idx) {
      var x :| x in m && x.key == k;
    }
    forall k | k in KeysOf(m) && BucketId(k, log) == idx ensures k in KeysOf(multiset(seen)) {
      var x :| x in m && x.key == k;
      assert x in seen;
    }
    ScanRun.Covered(log, cursor, idx, next, KeysOf(m), KeysOf(multiset(seen)));
  }

  // ---- the reaper -----------------------------------------------------------------------

  ghost predicate DueBetween(m: multiset<Node>, lo: nat, hi: nat, log: nat, now: nat) {
    exists x :: x in m && lo <= BucketId(x.key, log) < hi && Due(x, now)
  }

  ghost predicate TtlBetween(m: multiset<Node>, lo: nat, hi: nat, log: nat) {
    exists x :: x in m && lo <= BucketId(x.key, log) < hi && x.ttl
  }

  /** The bucket the next step begins with. */
  function StepStart(t: Table): nat
    reads t
  {
    if t.log <= 32 then Shr(t.reaperCursor, 32 - t.log) else 0
  }

  /** The next step of this budget has something to delete. */
  ghost predicate StepHasDue(t: Table, maxBuckets: nat)
    reads t
  {
    DueBetween(t.Members(), StepStart(t), StepStart(t) + maxBuckets, t.log, t.timeNow)
  }

  /** OAHTable::ReaperStepHasDue: deletes nothing. */
  method ReaperStepHasDue(t: Table, maxBuckets: nat) returns (due: bool)
    requires t.Valid() && t.reaperCursor < ScanRun.CURSOR_END
    modifies t`entries, t`size
    ensures t.Valid() && t.entries == old(t.entries) && t.size == old(t.size)
    ensures due <==> t.timeNow != 0 && StepHasDue(t, maxBuckets)
  {
    hide Contents, Layout, Unique, TtlOk, BucketId, Reaped, Pow2, Shr, ExactlyAt, OthersKept, DueBetween;
    if t.entries == [] || t.timeNow == 0 {
      NoContents([]);
      NothingDue(StepStart(t), StepStart(t) + maxBuckets, t.log, t.timeNow);
      return false;
    }
    ScanRun.StartInTable(t.reaperCursor, t.log);
    var start := StepStart(t);
    var bid: nat, examined := start, 0;
    EmptyWindow(t.Members(), start, t.log, t.timeNow);
    while bid < Pow2(t.log) && examined < maxBuckets
      invariant t.Valid() && t.entries == old(t.entries) && t.size == old(t.size)
      invariant start <= bid <= Pow2(t.log) && bid == start + examined && examined <= maxBuckets
      invariant !DueBetween(t.Members(), start, bid, t.log, t.timeNow)
    {
      var seen := ScanHomeBucket(t, bid, false);
      due := SomeDue(seen, t.timeNow);
      DueUpTo(t.Members(), start, bid, t.log, t.timeNow, seen);
      DueInWindow(t.Members(), start, bid + 1, start + maxBuckets, t.log, t.timeNow);
      if due {
        return true;
      }
      bid, examined := bid + 1, examined + 1;
    }
    DueInWindow(t.Members(), start, bid, start + maxBuckets, t.log, t.timeNow);
    return false;
  }

  /** OAHTable::ReaperExpireStep. The cursor is a place in the hash space, so a pass goes on across resizes. A step
      deletes exactly the due entries of its window; when a pass ends clean, no entry has a TTL. */
  method ReaperExpireStep(t: Table, maxBuckets: nat) returns (clean: bool)
    requires t.Valid() && t.reaperCursor < ScanRun.CURSOR_END
    modifies t`entries, t`size, t`reaperCursor, t`reaperTtlSeen
    ensures t.Valid() && t.reaperCursor < ScanRun.CURSOR_END && Reaped(old(t.Members()), t.Members(), t.timeNow)
    ensures clean ==> forall x | x in t.Members() :: !x.ttl
    ensures t.size <= old(t.size) && (t.size < old(t.size) <==> old(StepHasDue(t, maxBuckets)))
    ensures !DueBetween(t.Members(), old(StepStart(t)), old(StepStart(t)) + maxBuckets, t.log, t.timeNow)
    ensures var end := old(StepStart(t)) + maxBuckets;
            && (t.entries != [] ==> t.reaperCursor == if end < Pow2(t.log) then Shl(end, 32 - t.log) else 0)
            && (clean <==> t.entries == []
                           || (end >= Pow2(t.log) && !old(t.reaperTtlSeen) && forall x | x in t.Members() :: !x.ttl))
            && (t.reaperTtlSeen <==> t.entries != [] && end < Pow2(t.log)
                                     && (old(t.reaperTtlSeen)
                                         || TtlBetween(t.Members(), old(StepStart(t)), end, t.log)))
    ensures t.entries == [] <==> old(t.entries) == []
    ensures t.entries == [] ==> t.reaperCursor == 0
    ensures forall x: Node | !(old(StepStart(t)) <= BucketId(x.key, t.log) < old(StepStart(t)) + maxBuckets) ::
              t.Members()[x] == old(t.Members())[x]
  {
    hide Contents, Layout, Unique, TtlOk, BucketId, Reaped, Pow2, Shr, Shl, ExactlyAt, DueBetween, Swept;
    NothingReaped(t.Members(), t.timeNow);
    if t.entries == [] {
      NoContents([]);
      NothingDue(StepStart(t), StepStart(t) + maxBuckets, t.log, t.timeNow);
      FromTheStart(t.Members(), t.expirationUsed, t.reaperTtlSeen, t.reaperCursor);
      t.reaperCursor, t.reaperTtlSeen := 0, false;
      return true;
    }
    ScanRun.StartInTable(t.reaperCursor, t.log);
    var start := StepStart(t);
    var bid := ReapWindow(t, start, maxBuckets);
    SweptSize(old(t.Members()), t.Members(), start, bid, t.log, t.timeNow, old(t.reaperTtlSeen), t.reaperTtlSeen);
    SweptAll(old(t.Members()), t.Members(), start, bid, start + maxBuckets, t.log, t.timeNow, old(t.reaperTtlSeen),
             t.reaperTtlSeen);
    if bid >= Pow2(t.log) {
      clean := !t.reaperTtlSeen;
      WholeTable(t.Members(), t.log);
      FromTheStart(t.Members(), t.expirationUsed, t.reaperTtlSeen, t.reaperCursor);
      t.reaperCursor, t.reaperTtlSeen := 0, false;
      return clean;
    }
    MoveCursor(t.Members(), bid, t.log, t.expirationUsed, t.reaperTtlSeen, t.reaperCursor);
    t.reaperCursor := Shl(bid, 32 - t.log);
    return false;
  }

  /** What one step adds to a pass that has come as far as `lo`. */
  lemma PassGoesOn(m: multiset<Node>, m': multiset<Node>, lo: nat, hi: nat, log: nat, now: nat)
    requires lo <= hi && !DueBetween(m, 0, lo, log, now) && !DueBetween(m', lo, hi, log, now)
    requires forall x: Node | !(lo <= BucketId(x.key, log) < hi) :: m'[x] == m[x]
    ensures !DueBetween(m', 0, hi, log, now)
    ensures TtlBetween(m', 0, hi, log) <==> TtlBetween(m, 0, lo, log) || TtlBetween(m', lo, hi, log)
  {
    hide BucketId;
    assert forall x: Node | BucketId(x.key, log) < lo :: x in m' <==> x in m;
    if x :| x in m && 0 <= BucketId(x.key, log) < lo && x.ttl {
      assert x in m';
    }
  }

  lemma PassEnds(m: multiset<Node>, hi: nat, log: nat, now: nat)
    requires log <= 64 && hi >= Pow2(log) && !DueBetween(m, 0, hi, log, now)
    ensures TtlBetween(m, 0, hi, log) <==> exists x :: x in m && x.ttl
    ensures forall x | x in m :: !Due(x, now)
  {
    hide BucketId, Pow2;
    forall x | x in m ensures BucketId(x.key, log) < hi {
      BucketIdBound(x.key, log);
    }
  }

  lemma {:induction false} ShrOfZero(k: nat)
    ensures Shr(0, k) == 0
  {
    if k > 0 {
      ShrOfZero(k - 1);
    }
  }

  lemma NothingPassed(m: multiset<Node>, log: nat)
    ensures !TtlBetween(m, 0, 0, log)
  {
    hide BucketId;
  }

  /** Steps of any size, one after the other, make a pass: it leaves nothing that is due, and is clean exactly when
      nothing left has a TTL. */
  method WholePass(t: Table, maxBuckets: nat) returns (clean: bool)
    requires t.Valid() && maxBuckets > 0 && t.reaperCursor == 0 && !t.reaperTtlSeen
    modifies t`entries, t`size, t`reaperCursor, t`reaperTtlSeen
    ensures t.Valid() && Reaped(old(t.Members()), t.Members(), t.timeNow)
    ensures forall x | x in t.Members() :: !Due(x, t.timeNow)
    ensures clean <==> forall x | x in t.Members() :: !x.ttl
    ensures t.reaperCursor == 0 && !t.reaperTtlSeen
  {
    hide Contents, Layout, Unique, TtlOk, BucketId, Reaped, Pow2, Shr, Shl, DueBetween, TtlBetween;
    NothingReaped(t.Members(), t.timeNow);
    if t.entries == [] {
      NoContents([]);
      clean := ReaperExpireStep(t, maxBuckets);
      return;
    }
    ghost var lo := 0;
    EmptyWindow(t.Members(), 0, t.log, t.timeNow);
    NothingPassed(t.Members(), t.log);
    ShrOfZero(32 - t.log);
    clean := false;
    while true
      invariant t.Valid() && t.entries != [] && Reaped(old(t.Members()), t.Members(), t.timeNow)
                && t.reaperCursor < ScanRun.CURSOR_END
      invariant StepStart(t) == lo <= Pow2(t.log) && !DueBetween(t.Members(), 0, lo, t.log, t.timeNow)
      invariant t.reaperTtlSeen <==> TtlBetween(t.Members(), 0, lo, t.log)
      decreases Pow2(t.log) - lo
    {
      ghost var (was, hi) := (t.Members(), lo + maxBuckets);
      clean := ReaperExpireStep(t, maxBuckets);
      ReapedTwice(old(t.Members()), was, t.Members(), t.timeNow);
      PassGoesOn(was, t.Members(), lo, hi, t.log, t.timeNow);
      ShlGrows(hi, 32 - t.log);
      if t.reaperCursor == 0 {
        PassEnds(t.Members(), hi, t.log, t.timeNow);
        return;
      }
      ShrShl(hi, 32 - t.log);
      lo := hi;
    }
  }

  /** OAHTable::ReaperClearMemberExpiration, after a clean pass. */
  method ReaperClearMemberExpiration(t: Table)
    requires t.Valid() && forall x | x in t.Members() :: !x.ttl
    modifies t`expirationUsed
    ensures t.Valid() && !t.expirationUsed
  {
    hide Contents, Layout, Unique;
    t.expirationUsed := false;
  }

  /** The home buckets from `start` on, as many as the budget allows. */
  method ReapWindow(t: Table, start: nat, maxBuckets: nat) returns (bid: nat)
    requires t.Valid() && t.entries != [] && start == StepStart(t) < Pow2(t.log)
    modifies t`entries, t`size, t`reaperTtlSeen
    ensures t.Valid() && t.entries != [] && Reaped(old(t.Members()), t.Members(), t.timeNow)
    ensures bid == if start + maxBuckets < Pow2(t.log) then start + maxBuckets else Pow2(t.log)
    ensures Swept(old(t.Members()), t.Members(), start, bid, t.log, t.timeNow, old(t.reaperTtlSeen), t.reaperTtlSeen)
    ensures !t.reaperTtlSeen ==> NoTtlBefore(t.Members(), bid, t.log)
  {
    hide Contents, Layout, Unique, TtlOk, BucketId, Reaped, Pow2, Shr, ExactlyAt, DueBetween, Swept, OthersKept,
         NoTtlBefore;
    NothingReaped(t.Members(), t.timeNow);
    NothingSwept(t.Members(), start, t.log, t.timeNow, t.reaperTtlSeen);
    NothingLeftBehind(t.Members(), t.expirationUsed, t.reaperTtlSeen, t.reaperCursor, t.log);
    bid := start;
    var examined := 0;
    while bid < Pow2(t.log) && examined < maxBuckets
      invariant t.Valid() && t.entries != [] && bid == start + examined <= Pow2(t.log) && examined <= maxBuckets
      invariant Reaped(old(t.Members()), t.Members(), t.timeNow)
      invariant Swept(old(t.Members()), t.Members(), start, bid, t.log, t.timeNow, old(t.reaperTtlSeen),
                      t.reaperTtlSeen)
      invariant !t.reaperTtlSeen ==> NoTtlBefore(t.Members(), bid, t.log)
    {
      ghost var m := t.Members();
      var seen := ScanHomeBucket(t, bid, true);
      ReapedTwice(old(t.Members()), m, t.Members(), t.timeNow);
      var some := SomeTtl(seen);
      TtlUpTo(m, t.Members(), bid, t.log, t.timeNow, seen, t.reaperTtlSeen, some);
      SweptOneMore(old(t.Members()), m, t.Members(), start, bid, t.log, t.timeNow, old(t.reaperTtlSeen),
                   t.reaperTtlSeen, some, seen);
      if some {
        MorePoison(t.Members(), t.expirationUsed, t.reaperTtlSeen, t.reaperCursor);
        t.reaperTtlSeen := true;
      }
      bid, examined := bid + 1, examined + 1;
    }
  }

  /** Of the entries at home in [lo, hi) none is due any more, and the flag has risen exactly if one has a TTL; all
      others are as they were. */
  ghost predicate Swept(m0: multiset<Node>, m: multiset<Node>, lo: nat, hi: nat, log: nat, now: nat, before: bool,
                        after: bool)
  {
    && !DueBetween(m, lo, hi, log, now) && (after <==> before || TtlBetween(m, lo, hi, log))
    && forall x: Node | !(lo <= BucketId(x.key, log) < hi) :: m[x] == m0[x]
  }

  lemma NothingSwept(m: multiset<Node>, lo: nat, log: nat, now: nat, seen: bool)
    ensures Swept(m, m, lo, lo, log, now, seen, seen)
  {
    hide BucketId;
  }

  lemma SweptOneMore(m0: multiset<Node>, m: multiset<Node>, m': multiset<Node>, lo: nat, bid: nat, log: nat, now: nat,
                     before: bool, after: bool, some: bool, seen: seq<Node>)
    requires Swept(m0, m, lo, bid, log, now, before, after) && lo <= bid && OthersKept(m, m', bid, log)
    requires ExactlyAt(m', log, bid, seen) && (forall x | x in seen :: !Due(x, now))
    requires some <==> exists x :: x in seen && x.ttl
    ensures Swept(m0, m', lo, bid + 1, log, now, before, after || some)
  {
    hide BucketId;
    ExactMember(m', log, bid, seen);
    assert forall x: Node | BucketId(x.key, log) != bid :: x in m' <==> x in m;
    if TtlBetween(m, lo, bid, log) {
      var x :| x in m && lo <= BucketId(x.key, log) < bid && x.ttl;
      assert x in m';
    }
  }

  lemma SweptSize(m0: multiset<Node>, m: multiset<Node>, lo: nat, hi: nat, log: nat, now: nat, before: bool,
                  after: bool)
    requires Swept(m0, m, lo, hi, log, now, before, after) && Reaped(m0, m, now)
    ensures |m| <= |m0| && (|m| < |m0| <==> DueBetween(m0, lo, hi, log, now))
  {
    hide BucketId;
    assert forall x: Node :: m[x] <= m0[x];
    assert m0 == m + (m0 - m);
    if DueBetween(m0, lo, hi, log, now) {
      var x :| x in m0 && lo <= BucketId(x.key, log) < hi && Due(x, now);
      assert x in m0 - m;
    } else {
      assert m == m0;
    }
  }

  /** No bucket lies behind the last, and what the pass has left behind stays behind. */
  lemma SweptAll(m0: multiset<Node>, m: multiset<Node>, lo: nat, bid: nat, hi: nat, log: nat, now: nat, before: bool,
                 after: bool)
    requires Swept(m0, m, lo, bid, log, now, before, after) && log <= 64 && lo <= hi
    requires bid == if hi < Pow2(log) then hi else Pow2(log)
    ensures DueBetween(m, lo, hi, log, now) <==> DueBetween(m, lo, bid, log, now)
    ensures DueBetween(m0, lo, hi, log, now) <==> DueBetween(m0, lo, bid, log, now)
    ensures !DueBetween(m, lo, hi, log, now)
    ensures after ==> before || exists x :: x in m && x.ttl
    ensures before ==> after
    ensures hi < Pow2(log) ==> (after <==> before || TtlBetween(m, lo, hi, log))
    ensures forall x: Node | !(lo <= BucketId(x.key, log) < hi) :: m[x] == m0[x]
  {
    hide BucketId, Pow2;
    DueInWindow(m, lo, bid, hi, log, now);
    DueInWindow(m0, lo, bid, hi, log, now);
  }

  lemma EmptyWindow(m: multiset<Node>, lo: nat, log: nat, now: nat)
    ensures !DueBetween(m, lo, lo, log, now)
  {
    hide BucketId;
  }

  lemma NothingDue(lo: nat, hi: nat, log: nat, now: nat)
    ensures !DueBetween(multiset{}, lo, hi, log, now)
  {
    hide BucketId;
  }

  lemma DueUpTo(m: multiset<Node>, lo: nat, bid: nat, log: nat, now: nat, seen: seq<Node>)
    requires lo <= bid && ExactlyAt(m, log, bid, seen)
    ensures DueBetween(m, lo, bid + 1, log, now) <==>
              DueBetween(m, lo, bid, log, now) || exists x :: x in seen && Due(x, now)
  {
    hide BucketId;
    ExactMember(m, log, bid, seen);
    if x :| x in seen && Due(x, now) {
      assert x in m && BucketId(x.key, log) == bid;
    }
    if x :| x in m && lo <= BucketId(x.key, log) < bid && Due(x, now) {
      assert lo <= BucketId(x.key, log) < bid + 1;
    }
  }

  lemma DueInWindow(m: multiset<Node>, lo: nat, bid: nat, hi: nat, log: nat, now: nat)
    requires log <= 64 && (bid <= hi || bid == Pow2(log))
    ensures DueBetween(m, lo, bid, log, now) && bid <= hi ==> DueBetween(m, lo, hi, log, now)
    ensures bid == hi || (bid == Pow2(log) && bid <= hi) ==>
              (DueBetween(m, lo, hi, log, now) <==> DueBetween(m, lo, bid, log, now))
  {
    hide BucketId, Pow2;
    if x :| x in m && lo <= BucketId(x.key, log) < hi && Due(x, now) {
      BucketIdBound(x.key, log);
    }
  }

  method SomeDue(seen: seq<Node>, now: nat) returns (r: bool)
    ensures r <==> exists x :: x in seen && Due(x, now)
  {
    for i := 0 to |seen|
      invariant forall j | 0 <= j < i :: !Due(seen[j], now)
    {
      if Due(seen[i], now) {
        assert seen[i] in seen;
        return true;
      }
    }
    return false;
  }

  method SomeTtl(seen: seq<Node>) returns (r: bool)
    ensures r <==> exists x :: x in seen && x.ttl
  {
    for i := 0 to |seen|
      invariant forall j | 0 <= j < i :: !seen[j].ttl
    {
      if seen[i].ttl {
        assert seen[i] in seen;
        return true;
      }
    }
    return false;
  }

  /** Entries at home before bucket `bid` have no TTL. */
  ghost predicate NoTtlBefore(m: multiset<Node>, bid: nat, log: nat) {
    forall x | x in m && BucketId(x.key, log) < bid :: !x.ttl
  }

  lemma FromTheStart(m: multiset<Node>, used: bool, seen: bool, cursor: nat)
    requires TtlOk(m, used, seen, cursor)
    ensures TtlOk(m, used, false, 0)
  {
  }

  lemma MorePoison(m: multiset<Node>, used: bool, seen: bool, cursor: nat)
    requires TtlOk(m, used, seen, cursor)
    ensures TtlOk(m, used, true, cursor)
  {
  }

  /** What lies before the bucket of the cursor lies before the cursor. */
  lemma NothingLeftBehind(m: multiset<Node>, used: bool, seen: bool, cursor: nat, log: nat)
    requires TtlOk(m, used, seen, cursor) && log <= 32
    ensures !seen ==> NoTtlBefore(m, Shr(cursor, 32 - log), log)
  {
    hide Shr, BucketId, ScanRun.PlaceOf;
    forall x | x in m && BucketId(x.key, log) < Shr(cursor, 32 - log) ensures ScanRun.PlaceOf(x.key) < cursor {
      var (s, u) := (32 - log, Shr(cursor, 32 - log));
      ScanRun.BucketOfPlace(x.key, log);
      ShrBelow(ScanRun.PlaceOf(x.key), u, s);
      ShrBelow(cursor, u, s);
    }
  }

  lemma TtlUpTo(m: multiset<Node>, m': multiset<Node>, bid: nat, log: nat, now: nat, seen: seq<Node>, before: bool,
                some: bool)
    requires Reaped(m, m', now) && ExactlyAt(m', log, bid, seen) && (some <==> exists x :: x in seen && x.ttl)
    requires !before ==> NoTtlBefore(m, bid, log)
    ensures !before && !some ==> NoTtlBefore(m', bid + 1, log)
  {
    hide BucketId;
    ExactMember(m', log, bid, seen);
    if !before && !some {
      forall x | x in m' && BucketId(x.key, log) < bid + 1 ensures !x.ttl {
        InBefore(m, m', x, now);
        if BucketId(x.key, log) == bid {
          assert x in seen;
        }
      }
    }
  }

  lemma WholeTable(m: multiset<Node>, log: nat)
    requires log <= 64
    ensures NoTtlBefore(m, Pow2(log), log) ==> forall x | x in m :: !x.ttl
  {
    hide BucketId, Pow2;
    forall x | x in m ensures BucketId(x.key, log) < Pow2(log) {
      BucketIdBound(x.key, log);
    }
  }

  lemma MoveCursor(m: multiset<Node>, bid: nat, log: nat, used: bool, seen: bool, cursor: nat)
    requires TtlOk(m, used, seen, cursor) && log <= 32 && bid < Pow2(log) && (!seen ==> NoTtlBefore(m, bid, log))
    ensures TtlOk(m, used, seen, Shl(bid, 32 - log)) && Shl(bid, 32 - log) < ScanRun.CURSOR_END
  {
    hide BucketId, Pow2, Shr, Shl, ScanRun.PlaceOf;
    Pow2Of32();
    ShlPow2(log, 32 - log);
    ShlMono(bid, Pow2(log), 32 - log);
    forall x | x in m && ScanRun.PlaceOf(x.key) < Shl(bid, 32 - log) ensures BucketId(x.key, log) < bid {
      ScanRun.BucketOfPlace(x.key, log);
      ShrBelow(ScanRun.PlaceOf(x.key), bid, 32 - log);
    }
  }
}
