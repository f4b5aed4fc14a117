/** The open-addressing table behind sets and maps of strings. */
module OahTable {
  import opened Arith
  import opened Keys
  import opened Bags
  import opened Members
  import opened OahLayout
  import ScanRun

  const MAX_LOG := 31

  datatype Loc = Nowhere | At(slot: nat, pos: nat)

  /** What an insertion did with an entry that was already there. */
  datatype Outcome = Fresh | Kept(node: Node) | Swapped(node: Node)

  class Table {
    var entries: seq<Slot>
    var log: nat
    var size: nat
    var timeNow: nat
    var expirationUsed: bool
    var reaperCursor: nat
    var reaperTtlSeen: bool
    ghost var aside: nat       // entries that are momentarily in no slot

    ghost function Members(): multiset<Node>
      reads this
    {
      Contents(entries)
    }

    ghost predicate Sound()
      reads this
    {
      && (entries != [] ==> 1 <= log <= MAX_LOG && Layout(entries, log))
      && size == |Contents(entries)| && aside == 0
    }

    ghost predicate Valid()
      reads this
    {
      Sound() && Unique(Members()) && TtlOk(Members(), expirationUsed, reaperTtlSeen, reaperCursor)
    }

    constructor ()
      ensures Valid() && Members() == multiset{} && entries == [] && log == 0 && timeNow == 0
      ensures !expirationUsed && reaperCursor == 0 && !reaperTtlSeen
    {
      entries, log, size, timeNow := [], 0, 0, 0;
      expirationUsed, reaperCursor, reaperTtlSeen := false, 0, false;
      aside := 0;
    }

    // ---- lookup -------------------------------------------------------------------------

    /** The window of single entries and then the extension vector: the cached hash is compared before the key. A
        key that is not met there is not stored. */
    method Locate(k: Key) returns (r: Loc)
      requires Sound() && entries != []
      ensures r.At? ==> r.slot < |entries| && r.pos < |entries[r.slot].nodes| && entries[r.slot].nodes[r.pos].key == k
      ensures r.At? ==> r.slot == ExtensionPoint(BucketId(k, log)) || !entries[r.slot].vec
      ensures r.Nowhere? ==> !HasKey(Members(), k)
    {
      hide Contents, BucketId, ExtHash, Pow2;
      BucketIdBound(k, log);
      var bid, tag := BucketId(k, log), ExtHash(k.hash, log);
      for j := 0 to WINDOW
        invariant forall i | bid <= i < bid + j :: !entries[i].vec ==> NotThere(entries[i], k)
      {
        var s := entries[bid + j];
        assert SlotOk(s, bid + j, log);
        if !s.vec && s.nodes != [] && s.tags[0] == tag && s.nodes[0].key == k {
          return At(bid + j, 0);
        }
      }
      var ext := ExtensionPoint(bid);
      assert SlotOk(entries[ext], ext, log);
      if entries[ext].vec {
        for c := 0 to |entries[ext].nodes|
          invariant forall d | 0 <= d < c :: entries[ext].nodes[d].key != k
        {
          if entries[ext].tags[c] == tag && entries[ext].nodes[c].key == k {
            return At(ext, c);
          }
        }
      }
      NotStored(k, bid);
      return Nowhere;
    }

    lemma NotStored(k: Key, bid: nat)
      requires Sound() && entries != [] && bid == BucketId(k, log) && bid + WINDOW <= |entries|
      requires forall i | bid <= i < bid + WINDOW :: !entries[i].vec ==> NotThere(entries[i], k)
      requires entries[ExtensionPoint(bid)].vec ==> NotThere(entries[ExtensionPoint(bid)], k)
      ensures !HasKey(Members(), k)
    {
      hide Contents, BucketId, ExtHash, Pow2;
      if HasKey(Members(), k) {
        var x :| x in Members() && x.key == k;
        ContentsMember(entries, x);
        var i :| 0 <= i < |entries| && x in entries[i].nodes;
        OneExtensionPoint(bid, i);
      }
    }

    // ---- growth -------------------------------------------------------------------------

    /** First empty slot of the window, or the extension point if the window is full. */
    method FindEmptyAround(bid: nat) returns (i: nat)
      requires bid + WINDOW <= |entries|
      ensures GoesTo(entries, bid, i)
    {
      OneExtensionPoint(bid, 0);
      i := bid;
      while i < bid + WINDOW
        invariant bid <= i <= bid + WINDOW && forall j | bid <= j < i :: entries[j] != EMPTY
      {
        if entries[i] == EMPTY {
          return;
        }
        i := i + 1;
      }
      return ExtensionPoint(bid);
    }

    /** Computes the entry's bucket and cached hash anew and inserts it. */
    method PutAway(x: Node) returns (ghost i: nat)
      requires BucketId(x.key, log) + WINDOW <= |entries|
      modifies this`entries
      ensures GoesTo(old(entries), BucketId(x.key, log), i)
      ensures entries == old(entries)[i := Added(old(entries)[i], x, ExtHash(x.key.hash, log))]
      ensures Members() == old(Members()) + multiset{x}
    {
      hide Contents, BucketId, ExtHash, Added;
      var at := FindEmptyAround(BucketId(x.key, log));
      i := at;
      var s := Added(entries[at], x, ExtHash(x.key.hash, log));
      ContentsUpdate(entries, at, s);
      AddedContents(entries[at], x, ExtHash(x.key.hash, log));
      CancelBoth(Contents(entries[at := s]), Contents(entries) + multiset{x}, multiset(entries[at].nodes), multiset{});
      entries := entries[at := s];
    }

    /** RedistributeBucket: inserts the entries of a detached slot anew; none goes below slot `lo`. */
    method Redistribute(s: Slot, ghost lo: nat)
      requires log <= MAX_LOG && |entries| == Pow2(log) + WINDOW - 1 && Above(entries, lo, log)
      requires forall x | x in s.nodes :: BucketId(x.key, log) >= lo
      modifies this`entries
      ensures |entries| == |old(entries)| && Above(entries, lo, log)
      ensures forall j | 0 <= j < lo && j < |entries| :: entries[j] == old(entries)[j]
      ensures Members() == old(Members()) + multiset(s.nodes)
    {
      hide Contents, BucketId, Pow2, SlotOk, Added;
      for c := 0 to |s.nodes|
        invariant |entries| == |old(entries)| && Above(entries, lo, log)
        invariant forall j | 0 <= j < lo && j < |entries| :: entries[j] == old(entries)[j]
        invariant Members() == old(Members()) + multiset(s.nodes[..c])
      {
        var x := s.nodes[c];
        BucketIdBound(x.key, log);
        ghost var was := entries;
        ghost var i := PutAway(x);
        AddedOk(was[i], i, log, x);
        assert s.nodes[..c + 1] == s.nodes[..c] + [x];
      }
      assert s.nodes[..|s.nodes|] == s.nodes;
    }

    /** OAHTable::Rehash, after the slot array has been extended. The first 31 slots are detached, so that every
        entry of the other slots lands strictly behind its own. */
    method Rehash(newLog: nat)
      requires Sound() && entries != [] && log < newLog <= MAX_LOG
      modifies this`entries, this`log
      ensures Sound() && log == newLog && entries != [] && Members() == old(Members())
    {
      hide Contents, BucketId, Pow2, SlotOk, ExtHash;
      ghost var from := log;
      var prev := |entries|;
      Extend(newLog);
      var mix := if prev < 31 then prev else 31;
      var detached := entries[..mix];
      Detach(mix);
      RehashUpper(prev, mix, from);
      AboveAll(entries, mix, newLog);
      RehashDetached(detached);
    }

    /** The slots behind the mixing area, from the last: every entry moves up. */
    method RehashUpper(prev: nat, mix: nat, ghost from: nat)
      requires mix == (if prev < 31 then prev else 31) && prev <= |entries| == Pow2(log) + WINDOW - 1
               && from < log <= MAX_LOG
      requires Above(entries, prev, log) && Between(entries, mix, prev, from) && Cleared(entries, mix)
      modifies this`entries
      ensures |entries| == |old(entries)| && Above(entries, mix, log) && Cleared(entries, mix)
              && Members() == old(Members())
    {
      hide Contents, BucketId, Pow2, SlotOk, ExtHash;
      var i: nat := prev;
      while i > mix
        invariant mix <= i <= prev && |entries| == |old(entries)|
        invariant Above(entries, i, log) && Between(entries, mix, i, from) && Cleared(entries, mix)
        invariant Members() == old(Members())
      {
        i := i - 1;
        var s := entries[i];
        TakeOut(entries, i);
        entries := entries[i := EMPTY];
        AllMoveUp(s, i, from, log);
        EmptyAbove(entries, i, log);
        ghost var was := entries;
        Redistribute(s, i + 1);
        StillBetween(was, entries, mix, i, from, log);
      }
    }

    /** The entries of the mixing area, which were set aside. */
    method RehashDetached(detached: seq<Slot>)
      requires log <= MAX_LOG && |entries| == Pow2(log) + WINDOW - 1 && Above(entries, 0, log)
      modifies this`entries
      ensures |entries| == |old(entries)| && Above(entries, 0, log) && Members() == old(Members()) + Contents(detached)
    {
      hide Contents, BucketId, Pow2, Above;
      assert detached[0..] == detached;
      for j := 0 to |detached|
        invariant |entries| == |old(entries)| && Above(entries, 0, log)
        invariant Members() + Contents(detached[j..]) == old(Members()) + Contents(detached)
      {
        Redistribute(detached[j], 0);
        ContentsHead(detached[j..]);
        assert detached[j..][1..] == detached[j + 1..];
      }
      NoContents(detached[|detached|..]);
    }

    method Extend(newLog: nat)
      requires Sound() && entries != [] && log < newLog <= MAX_LOG
      modifies this`entries, this`log
      ensures log == newLog && |entries| == Pow2(newLog) + WINDOW - 1 && |old(entries)| <= |entries|
      ensures Members() == old(Members())
      ensures Above(entries, |old(entries)|, newLog) && Between(entries, 0, |old(entries)|, old(log))
    {
      hide Contents, BucketId, Pow2, ExtHash;
      Pow2Mono(log, newLog);
      var more := Empties(Pow2(newLog) + WINDOW - 1 - |entries|);
      ContentsAppend(entries, more);
      NoContents(more);
      entries, log := entries + more, newLog;
    }

    method Detach(mix: nat)
      requires mix <= |entries|
      modifies this`entries
      ensures |entries| == |old(entries)| && Cleared(entries, mix)
      ensures forall j | mix <= j < |entries| :: entries[j] == old(entries)[j]
      ensures Members() + Contents(old(entries)[..mix]) == old(Members())
    {
      hide Contents;
      ContentsAppend(entries[..mix], entries[mix..]);
      assert entries[..mix] + entries[mix..] == entries;
      ContentsAppend(Empties(mix), entries[mix..]);
      NoContents(Empties(mix));
      entries := Empties(mix) + entries[mix..];
    }

    /** GrowCapacity. */
    method GrowCapacity(bucketCapacity: nat)
      requires Valid() && bucketCapacity <= Pow2(MAX_LOG)
      modifies this`entries, this`log
      ensures Valid() && entries != [] && Members() == old(Members()) && |entries| >= bucketCapacity
      ensures var wanted := Pow2(CeilLog(if bucketCapacity < 2 then 2 else bucketCapacity));
              if wanted > |old(entries)| then Pow2(log) == wanted
              else entries == old(entries) && log == old(log)
    {
      hide Contents, BucketId, Pow2, SlotOk, Unique, TtlOk;
      var newLog := CeilLog(if bucketCapacity < 2 then 2 else bucketCapacity);
      CapacityLog(bucketCapacity);
      if Pow2(newLog) > |entries| {
        if entries == [] {
          NoContents(entries);
          EmptyLayout(newLog);
          entries, log := Empties(Pow2(newLog) + WINDOW - 1), newLog;
        } else {
          LogBelow(log, newLog);
          Rehash(newLog);
        }
      }
    }

    /** TryGrow. */
    method TryGrow()
      requires Valid() && size < Pow2(MAX_LOG)
      modifies this`entries, this`log
      ensures Valid() && entries != [] && Members() == old(Members()) && size < |entries| * 2
      ensures if old(size < |entries| * 2) then entries == old(entries) && log == old(log)
              else Pow2(log) == Pow2(CeilLog(if size < 2 then 2 else (size + 2) / 2))
    {
      hide Contents, Layout, Unique, TtlOk, Pow2;
      if size >= |entries| * 2 {
        GrowCapacity((size + 2) / 2);
      }
    }

    // ---- shrinking ----------------------------------------------------------------------

    /** ShrinkBucket: entries go to slots that have been dealt with, or to later ones that will be. */
    method ShrinkBucket(i: nat, ghost cap: nat)
      requires Shrinking(entries, i, log, cap) && i < |entries| && size == |Contents(entries)| + aside && aside == 0
      requires expirationUsed ==> LiveBelow(entries, i, timeNow)
      modifies this`entries, this`size, this`aside
      ensures Shrinking(entries, i + 1, log, cap) && |entries| == |old(entries)|
      ensures size == |Contents(entries)| + aside && aside == 0
      ensures expirationUsed ==> LiveBelow(entries, i + 1, timeNow)
      ensures Reaped(old(Members()), Members(), timeNow)
    {
      hide Contents, BucketId, Pow2, Reaped, SlotOk, ExtHash, Added;
      var s := entries[i];
      NothingReaped(Members(), timeNow);
      ghost var m := Members();
      TakeOut(entries, i);
      TakeShrinking(entries, i, log, cap);
      entries := entries[i := EMPTY];
      aside := |s.nodes|;
      for c := 0 to |s.nodes|
        invariant Shrinking(entries, i + 1, log, cap) && |entries| == |old(entries)|
        invariant size == |Contents(entries)| + aside && aside == |s.nodes| - c
        invariant Reaped(m, Members() + multiset(s.nodes[c..]), timeNow)
        invariant expirationUsed ==> LiveBelow(entries, i + 1, timeNow)
      {
        assert s.nodes[c..] == [s.nodes[c]] + s.nodes[c + 1..];
        ghost var (now, left) := (Members(), multiset(s.nodes[c + 1..]));
        assert now + multiset(s.nodes[c..]) == now + multiset{s.nodes[c]} + left;
        ShrinkEntry(s.nodes[c], i, cap);
        ReapedMore(now + multiset{s.nodes[c]}, Members(), left, timeNow);
        ReapedTwice(m, now + multiset{s.nodes[c]} + left, Members() + left, timeNow);
      }
      assert Members() + multiset(s.nodes[|s.nodes|..]) == Members();
    }

    /** One entry of a slot that has been emptied: a due one goes, any other is put away again. */
    method ShrinkEntry(x: Node, i: nat, ghost cap: nat)
      requires Shrinking(entries, i + 1, log, cap) && i < |entries| && size == |Contents(entries)| + aside && aside > 0
      requires expirationUsed ==> LiveBelow(entries, i + 1, timeNow)
      modifies this`entries, this`size, this`aside
      ensures Shrinking(entries, i + 1, log, cap) && |entries| == |old(entries)|
      ensures size == |Contents(entries)| + aside && aside == old(aside) - 1
      ensures expirationUsed ==> LiveBelow(entries, i + 1, timeNow)
      ensures Reaped(old(Members()) + multiset{x}, Members(), timeNow)
    {
      hide Contents, BucketId, Pow2, SlotOk, ExtHash, Added, Reaped;
      ghost var m := Members();
      NothingReaped(m + multiset{x}, timeNow);
      if expirationUsed && Due(x, timeNow) {
        size := size - 1;
        DropOne(m + multiset{x}, m, x, timeNow);
      } else {
        BucketIdBound(x.key, log);
        ghost var was := entries;
        ghost var at := PutAway(x);
        PutShrinking(was, i, log, cap, x, at);
        if expirationUsed {
          PutLive(was, i + 1, timeNow, at, x, ExtHash(x.key.hash, log));
        }
      }
      aside := aside - 1;
    }

    /** OAHTable::Shrink: from the first slot to the last. */
    method Shrink(newSize: nat)
      requires Valid()
      modifies this`entries, this`size, this`log, this`aside
      ensures Valid() && Reaped(old(Members()), Members(), timeNow)
      ensures var target := Pow2(CeilLog(Max3(newSize, 2, old(size / 2 + size % 2))));
              if old(entries) == [] || target >= Pow2(old(log)) then entries == old(entries) && log == old(log)
              else Pow2(log) == target && forall x | x in Members() :: !Due(x, timeNow)
    {
      hide Contents, BucketId, Pow2, Reaped, SlotOk, ExtHash, Unique, Max3, TtlOk, CeilLog;
      NothingReaped(Members(), timeNow);
      var newLog := CeilLog(Max3(newSize, 2, size / 2 + size % 2));
      if entries == [] || Pow2(newLog) >= Pow2(log) {
        return;
      }
      LogBelow(newLog, log);
      AtLeastTwo(Max3(newSize, 2, size / 2 + size % 2));
      var prev := |entries|;
      ghost var cap := Pow2(newLog) + WINDOW - 1;
      StartShrinking(entries, log, newLog);
      log := newLog;
      for i := 0 to prev
        invariant Shrinking(entries, i, newLog, cap) && |entries| == prev && log == newLog
        invariant expirationUsed ==> LiveBelow(entries, i, timeNow)
        invariant size == |Contents(entries)| + aside && aside == 0
        invariant Reaped(old(Members()), Members(), timeNow)
        invariant TtlOk(Members(), expirationUsed, reaperTtlSeen, reaperCursor)
      {
        ghost var was := Members();
        ShrinkBucket(i, cap);
        ReapedTwice(old(Members()), was, Members(), timeNow);
        TtlAfterReap(was, Members(), timeNow, expirationUsed, reaperTtlSeen, reaperCursor);
      }
      NothingDueLeft(entries, timeNow, expirationUsed, reaperTtlSeen, reaperCursor);
      CutOff(entries, newLog, cap);
      entries := entries[..Pow2(newLog) + WINDOW - 1];
      ReapedUnique(old(Members()), Members(), timeNow);
    }

    // ---- the operations -----------------------------------------------------------------

    /** Takes an entry out of its cell. */
    method RemoveAt(i: nat, c: nat)
      requires Valid() && i < |entries| && c < |entries[i].nodes|
      modifies this`entries, this`size
      ensures Valid() && |entries| == |old(entries)|
      ensures Members() + multiset{old(entries)[i].nodes[c]} == old(Members())
              && !HasKey(Members(), old(entries)[i].nodes[c].key)
      ensures SlotOk(old(entries)[i], i, log) && entries == old(entries)[i := Removed(old(entries)[i], c)]
    {
      hide Contents, BucketId, Pow2, ExtHash, Unique, HasKey, Removed;
      assert SlotOk(entries[i], i, log);
      RemovedOk(entries[i], i, log, c);
      ContentsUpdate(entries, i, Removed(entries[i], c));
      ghost var m, x := Members(), entries[i].nodes[c];
      Swap(Contents(entries[i := Removed(entries[i], c)]), multiset(entries[i].nodes), m,
           multiset(Removed(entries[i], c).nodes),
           multiset{x}, multiset{});
      entries := entries[i := Removed(entries[i], c)];
      assert Members() + multiset{x} == m;
      size := size - 1;
      OneLess(Members(), x);
      FewerTtl(m, Members(), expirationUsed, reaperTtlSeen, reaperCursor);
    }

    /** FindInternal: a key is found exactly when it is stored and not due; a due entry met on the way is removed. */
    method Find(k: Key) returns (r: Option)
      requires Valid()
      modifies this`entries, this`size
      ensures Valid() && Reaped(old(Members()), Members(), timeNow)
      ensures r.Some? ==> r.node.key == k && r.node in Members() && r.node in old(Members()) && !Due(r.node, timeNow)
      ensures r.None? ==> !HasKey(Members(), k) && forall x | x in old(Members()) && x.key == k :: Due(x, timeNow)
    {
      hide Contents, Layout, Unique, TtlOk;
      NothingReaped(Members(), timeNow);
      if entries == [] {
        NoContents(entries);
        return None;
      }
      ghost var m := Members();
      var loc := Locate(k);
      if loc.Nowhere? {
        return None;
      }
      var x := entries[loc.slot].nodes[loc.pos];
      ContentsMember(entries, x);
      if expirationUsed && Due(x, timeNow) {
        RemoveAt(loc.slot, loc.pos);
        DropOne(m, Members(), x, timeNow);
        WasDue(m, Members(), k, timeNow);
        return None;
      }
      NotDue(m, expirationUsed, reaperTtlSeen, reaperCursor, x, timeNow);
      return Some(x);
    }

    /** OAHTable::Erase; OAHMap::Extract takes the same entry out. A due entry goes but does not count as removed. */
    method Erase(k: Key) returns (was: Option)
      requires Valid()
      modifies this`entries, this`size
      ensures Valid() && !HasKey(Members(), k)
      ensures was.Some? ==>
                && was.node.key == k && !Due(was.node, timeNow)
                && Members() + multiset{was.node} == old(Members())
      ensures was.None? ==> Reaped(old(Members()), Members(), timeNow)
                            && forall x | x in old(Members()) && x.key == k :: Due(x, timeNow)
      ensures |entries| == |old(entries)|
      ensures forall i | 0 <= i < |entries| && entries[i].vec && entries[i].nodes == [] :: entries[i] == old(entries)[i]
    {
      hide Contents, Layout, Unique, TtlOk;
      NothingReaped(Members(), timeNow);
      if entries == [] {
        NoContents(entries);
        return None;
      }
      ghost var m := Members();
      var loc := Locate(k);
      if loc.Nowhere? {
        return None;
      }
      var x := entries[loc.slot].nodes[loc.pos];
      RemoveAt(loc.slot, loc.pos);
      if entries[loc.slot].vec && entries[loc.slot].nodes == [] {
        DropVector(loc.slot);
      }
      if Due(x, timeNow) {
        DropOne(m, Members(), x, timeNow);
        WasDue(m, Members(), k, timeNow);
        return None;
      }
      return Some(x);
    }

    /** A vector without entries is given back. */
    method DropVector(i: nat)
      requires Valid() && i < |entries| && entries[i].nodes == []
      modifies this`entries
      ensures Valid() && Members() == old(Members()) && entries == old(entries)[i := EMPTY]
    {
      hide Contents, Unique, TtlOk, BucketId, ExtHash, Pow2;
      ContentsUpdate(entries, i, EMPTY);
      CancelBoth(Contents(entries[i := EMPTY]), Contents(entries), multiset{}, multiset{});
      entries := entries[i := EMPTY];
    }

    /** Puts another entry with the same key into a cell. */
    method Overwrite(i: nat, c: nat, y: Node)
      requires Valid() && i < |entries| && c < |entries[i].nodes| && entries[i].nodes[c].key == y.key
      requires y.ttl ==> expirationUsed && reaperTtlSeen
      modifies this`entries
      ensures Valid() && Exchanged(old(Members()), Members(), old(entries)[i].nodes[c], y)
      ensures old(entries)[i].nodes[c] in old(Members())
    {
      hide Contents, Unique, Exchanged, BucketId, ExtHash, Pow2, Written, TtlOk;
      ghost var m, x := Members(), entries[i].nodes[c];
      assert SlotOk(entries[i], i, log);
      WrittenOk(entries[i], i, log, c, y);
      var s := Written(entries[i], c, y, ExtHash(y.key.hash, log));
      ContentsUpdate(entries, i, s);
      Swap(Contents(entries[i := s]), multiset(entries[i].nodes), m, multiset(s.nodes), multiset{x}, multiset{y});
      ContentsMember(entries, x);
      entries := entries[i := s];
      Replaced(m, Members(), x, y);
      TtlAfterSwap(m, Members(), x, y, expirationUsed, reaperTtlSeen, reaperCursor);
    }

    /** AddImpl of the set and AddPairImpl of the map. A live entry with the key is kept, or replaced on request; the
        cell of a due one is used again. */
    method Add(x: Node, replace: bool) returns (r: Outcome)
      requires Valid() && size < Pow2(MAX_LOG)
      modifies this`entries, this`size, this`log, this`expirationUsed, this`reaperTtlSeen
      ensures Valid()
      ensures r.Fresh? ==> x in Members() && Reaped(old(Members()), Members() - multiset{x}, timeNow)
                           && forall y | y in old(Members()) && y.key == x.key :: Due(y, timeNow)
      ensures r.Kept? ==> !replace && Members() == old(Members())
      ensures r.Swapped? ==> replace && Exchanged(old(Members()), Members(), r.node, x)
      ensures !r.Fresh? ==> r.node in old(Members()) && r.node.key == x.key && !Due(r.node, timeNow)
      ensures if old(size < |entries| * 2) then log == old(log)
              else Pow2(log) == Pow2(CeilLog(if old(size) < 2 then 2 else (old(size) + 2) / 2))
    {
      hide Contents, Layout, Unique, TtlOk, Exchanged, BucketId, ExtHash, Pow2, CeilLog, Reaped, HasKey, WentTo;
      ghost var m := Members();
      NothingReaped(m, timeNow);
      TryGrow();
      if x.ttl {
        MoreFlags(m, expirationUsed, reaperTtlSeen, reaperCursor);
        expirationUsed, reaperTtlSeen := true, true;
      }
      var loc := Locate(x.key);
      if loc.At? {
        r := AddOver(loc.slot, loc.pos, x, replace);
        return;
      }
      AddNew(x);
      AddedUnique(m, m, x, timeNow);
      NoneBefore(m, x.key);
      return Fresh;
    }

    /** The key is stored: a live entry is kept or replaced, and one that is due gives way. */
    method AddOver(i: nat, c: nat, x: Node, replace: bool) returns (r: Outcome)
      requires Valid() && i < |entries| && c < |entries[i].nodes| && entries[i].nodes[c].key == x.key
      requires x.ttl ==> expirationUsed && reaperTtlSeen
      modifies this`entries
      ensures Valid()
      ensures r.Fresh? ==> x in Members() && Reaped(old(Members()), Members() - multiset{x}, timeNow)
                           && forall y | y in old(Members()) && y.key == x.key :: Due(y, timeNow)
      ensures r.Kept? ==> !replace && Members() == old(Members())
      ensures r.Swapped? ==> replace && Exchanged(old(Members()), Members(), r.node, x)
      ensures !r.Fresh? ==> r.node in old(Members()) && r.node.key == x.key && !Due(r.node, timeNow)
    {
      hide Contents, Layout, Unique, TtlOk, Exchanged, BucketId, ExtHash, Pow2, Reaped;
      ghost var m := Members();
      var dup := entries[i].nodes[c];
      NotDueUnless(m, expirationUsed, reaperTtlSeen, reaperCursor, timeNow);
      if expirationUsed && Due(dup, timeNow) {
        Overwrite(i, c, x);
        DueGaveWay(m, Members(), dup, x, timeNow);
        return Fresh;
      }
      ContentsMember(entries, dup);
      if !replace {
        return Kept(dup);
      }
      Overwrite(i, c, x);
      return Swapped(dup);
    }

    method AddNew(x: Node)
      requires Valid() && entries != [] && !HasKey(Members(), x.key) && (x.ttl ==> expirationUsed && reaperTtlSeen)
      modifies this`entries, this`size
      ensures Valid() && Members() == old(Members()) + multiset{x}
      ensures WentTo(old(entries), entries, x, log)
    {
      hide Contents, Unique, TtlOk, BucketId, ExtHash, Pow2, SlotOk, HasKey, Added;
      BucketIdBound(x.key, log);
      ghost var was := entries;
      ghost var i := PutAway(x);
      AddedOk(was[i], i, log, x);
      size := size + 1;
      NothingReaped(Contents(was), timeNow);
      AddedUnique(Contents(was), Contents(was), x, timeNow);
      TtlAfterAdd(Contents(was), x, expirationUsed, reaperTtlSeen, reaperCursor);
    }

    /** ClearStep: empties a range of slots; the flag falls with the last entry. The end is computed in 32 bits. */
    method ClearStep(start: nat, count: nat) returns (end: nat)
      requires Valid() && start < 0x1_0000_0000 && count < 0x1_0000_0000
      modifies this`entries, this`size, this`expirationUsed
      ensures Valid() && Members() <= old(Members())
      ensures end == Smaller(|old(entries)|, (start + count) % 0x1_0000_0000)
      ensures entries == EmptyRange(old(entries), start, end)
      ensures expirationUsed == (old(expirationUsed) && size != 0)
    {
      hide Contents, SlotOk, Unique, Pow2, TtlOk;
      end := Smaller(|entries|, (start + count) % 0x1_0000_0000);
      var i := start;
      assert entries == EmptyRange(entries, start, i);
      while i < end
        invariant Valid() && Members() <= old(Members()) && expirationUsed == old(expirationUsed)
        invariant start <= i && (i <= end || i == start) && entries == EmptyRange(old(entries), start, i)
      {
        TakeOut(entries, i);
        EmptyAt(entries, i, log);
        FewerUnique(Contents(entries[i := EMPTY]), Contents(entries));
        FewerTtl(Contents(entries), Contents(entries[i := EMPTY]), expirationUsed, reaperTtlSeen, reaperCursor);
        size := size - |entries[i].nodes|;
        entries := entries[i := EMPTY];
        i := i + 1;
      }
      assert entries == EmptyRange(old(entries), start, end);
      if size == 0 {
        NoFlags(Members(), reaperTtlSeen, reaperCursor);
        expirationUsed := false;
      }
    }

    /** Clear: the reaper's position stays as it is. */
    method Clear()
      requires Valid()
      modifies this`entries, this`size, this`log, this`expirationUsed
      ensures Valid() && entries == [] && Members() == multiset{} && log == 0 && !expirationUsed
    {
      NoContents([]);
      entries, log, size, expirationUsed := [], 0, 0, false;
    }

    /** SetExpiryTime on the entry of a key. */
    method SetExpiryTime(k: Key, expiry: nat) returns (was: Option)
      requires Valid()
      modifies this`entries, this`size, this`expirationUsed, this`reaperTtlSeen
      ensures Valid()
      ensures was.Some? ==> was.node.key == k && was.node in old(Members()) && !Due(was.node, timeNow)
                            && Exchanged(old(Members()), Members(), was.node, was.node.(ttl := true, expiry := expiry))
      ensures was.Some? ==> expirationUsed && reaperTtlSeen
      ensures was.None? ==> Reaped(old(Members()), Members(), timeNow)
                            && forall x | x in old(Members()) && x.key == k :: Due(x, timeNow)
    {
      hide Contents, Layout, Unique, TtlOk, Exchanged;
      NothingReaped(Members(), timeNow);
      if entries == [] {
        NoContents(entries);
        return None;
      }
      ghost var m := Members();
      var loc := Locate(k);
      if loc.Nowhere? {
        return None;
      }
      var x := entries[loc.slot].nodes[loc.pos];
      ContentsMember(entries, x);
      if expirationUsed && Due(x, timeNow) {
        RemoveAt(loc.slot, loc.pos);
        DropOne(m, Members(), x, timeNow);
        WasDue(m, Members(), k, timeNow);
        return None;
      }
      NotDue(m, expirationUsed, reaperTtlSeen, reaperCursor, x, timeNow);
      MoreFlags(m, expirationUsed, reaperTtlSeen, reaperCursor);
      expirationUsed, reaperTtlSeen := true, true;
      Overwrite(loc.slot, loc.pos, x.(ttl := true, expiry := expiry));
      return Some(x);
    }
  }

  /** The table without the entries of the slots [start, end). */
  function EmptyRange(t: seq<Slot>, start: nat, end: nat): seq<Slot> {
    seq(|t|, i requires 0 <= i < |t| => if start <= i < end then EMPTY else t[i])
  }

  ghost predicate NotThere(s: Slot, k: Key) { forall c | 0 <= c < |s.nodes| :: s.nodes[c].key != k }

  /** Without the flag there is no TTL at all, and a reaper pass that has seen none has left none behind. */
  ghost predicate TtlOk(m: multiset<Node>, used: bool, seen: bool, cursor: nat) {
    && (!used ==> forall x | x in m :: !x.ttl)
    && (!seen ==> forall x | x in m && ScanRun.PlaceOf(x.key) < cursor :: !x.ttl)
  }

  /** The slots from `lo` on are laid out for 2^log buckets. */
  ghost predicate Above(t: seq<Slot>, lo: nat, log: nat) { forall j | lo <= j < |t| :: SlotOk(t[j], j, log) }

  /** The slots from `lo` up to `hi` are laid out for 2^log buckets. */
  ghost predicate Between(t: seq<Slot>, lo: nat, hi: nat, log: nat) {
    forall j | lo <= j < hi && j < |t| :: SlotOk(t[j], j, log)
  }

  ghost predicate Cleared(t: seq<Slot>, n: nat) { forall j | 0 <= j < n && j < |t| :: t[j] == EMPTY }

  lemma TakeOut(t: seq<Slot>, i: nat)
    requires i < |t|
    ensures Contents(t[i := EMPTY]) + multiset(t[i].nodes) == Contents(t)
  {
    ContentsUpdate(t, i, EMPTY);
  }

  /** Behind the first 31 slots an entry's new bucket lies strictly behind its old slot. */
  lemma MoveUp(k: Key, i: nat, from: nat, to: nat)
    requires from < to <= 64 && i >= 31 && Reaches(BucketId(k, from), i)
    ensures BucketId(k, to) > i
  {
    var (h, n, e) := (BucketId(k, from), BucketId(k, to), to - from);
    BucketIdFiner(k, from, e);
    ShrInterval(n, e, h);
    ShlGrows(h, e - 1);
    assert Shl(h, e) == 2 * Shl(h, e - 1);
  }

  lemma AllMoveUp(s: Slot, i: nat, from: nat, to: nat)
    requires from < to <= 64 && i >= 31 && SlotOk(s, i, from)
    ensures forall x | x in s.nodes :: BucketId(x.key, to) >= i + 1
  {
    hide BucketId, ExtHash;
    forall x | x in s.nodes ensures BucketId(x.key, to) >= i + 1 {
      var c :| 0 <= c < |s.nodes| && s.nodes[c] == x;
      MoveUp(x.key, i, from, to);
    }
  }

  lemma EmptyAbove(t: seq<Slot>, i: nat, log: nat)
    requires i < |t| && t[i] == EMPTY && Above(t, i + 1, log)
    ensures Above(t, i, log)
  {
  }

  lemma StillBetween(was: seq<Slot>, t: seq<Slot>, mix: nat, i: nat, from: nat, to: nat)
    requires |was| == |t| && i < |t| && was[i] == EMPTY && Above(t, i + 1, to) && mix <= i
    requires forall j | 0 <= j < i + 1 :: t[j] == was[j]
    requires Between(was, mix, i, from) && Cleared(was, mix)
    ensures Above(t, i, to) && Between(t, mix, i, from) && Cleared(t, mix)
  {
    hide BucketId, ExtHash;
  }

  lemma AboveAll(t: seq<Slot>, mix: nat, log: nat)
    requires Above(t, mix, log) && Cleared(t, mix)
    ensures Above(t, 0, log)
  {
    hide BucketId, ExtHash;
  }

  lemma ContentsHead(t: seq<Slot>)
    requires t != []
    ensures Contents(t) == multiset(t[0].nodes) + Contents(t[1..])
  {
    assert t == [t[0]] + t[1..];
    ContentsAppend([t[0]], t[1..]);
    assert [t[0]][..0] == [];
  }

  lemma CapacityLog(n: nat)
    requires n <= Pow2(MAX_LOG)
    ensures 1 <= CeilLog(if n < 2 then 2 else n) <= MAX_LOG
  {
    var c := CeilLog(if n < 2 then 2 else n);
    assert Pow2(0) == 1;
    Pow2Mono(1, MAX_LOG);
    assert 2 <= Pow2(MAX_LOG);
    hide Pow2, CeilLog;
    if c > 0 {
      LogBelow(c - 1, MAX_LOG);
    }
  }

  lemma EmptyLayout(log: nat)
    ensures Layout(Empties(Pow2(log) + WINDOW - 1), log) && Contents(Empties(Pow2(log) + WINDOW - 1)) == multiset{}
  {
    hide BucketId, ExtHash, Pow2, Empties, Contents;
    NoContents(Empties(Pow2(log) + WINDOW - 1));
  }

  function Max3(a: nat, b: nat, c: nat): (r: nat)
    ensures r >= a && r >= b && r >= c
  {
    var d := if a < b then b else a;
    if d < c then c else d
  }

  lemma AtLeastTwo(n: nat)
    requires n >= 2
    ensures CeilLog(n) >= 1
  {
  }

  /** The slots before `i` are laid out for 2^log buckets, and those behind the new capacity are empty; the rest may
      hold anything. */
  ghost predicate Shrinking(t: seq<Slot>, i: nat, log: nat, cap: nat) {
    && 1 <= log <= MAX_LOG && cap == Pow2(log) + WINDOW - 1 <= |t| && i <= |t|
    && (forall j | 0 <= j < |t| :: Shaped(t[j]))
    && (forall j | 0 <= j < i :: SlotOk(t[j], j, log) && (j >= cap ==> t[j] == EMPTY))
  }

  lemma StartShrinking(t: seq<Slot>, from: nat, to: nat)
    requires Layout(t, from) && 1 <= to < from <= MAX_LOG
    ensures Shrinking(t, 0, to, Pow2(to) + WINDOW - 1)
  {
    hide BucketId, ExtHash, Pow2;
    Pow2Mono(to, from);
  }

  lemma TakeShrinking(t: seq<Slot>, i: nat, log: nat, cap: nat)
    requires Shrinking(t, i, log, cap) && i < |t|
    ensures Shrinking(t[i := EMPTY], i + 1, log, cap)
  {
    hide BucketId, ExtHash, Pow2;
  }

  lemma PutShrinking(t: seq<Slot>, i: nat, log: nat, cap: nat, x: Node, at: nat)
    requires Shrinking(t, i + 1, log, cap) && MayGo(t, BucketId(x.key, log), at)
    ensures Shrinking(t[at := Added(t[at], x, ExtHash(x.key.hash, log))], i + 1, log, cap)
  {
    BucketIdBound(x.key, log);
    hide BucketId, ExtHash, Pow2, SlotOk;
    if at < i + 1 {
      AddedOk(t[at], at, log, x);
    }
  }

  /** The first `n` slots hold nothing that is due. */
  ghost predicate LiveBelow(t: seq<Slot>, n: nat, now: nat) {
    forall i | 0 <= i < n && i < |t| :: AllLive(t[i].nodes, now)
  }

  lemma PutLive(t: seq<Slot>, n: nat, now: nat, at: nat, x: Node, tag: nat)
    requires LiveBelow(t, n, now) && at < |t| && !Due(x, now)
    ensures LiveBelow(t[at := Added(t[at], x, tag)], n, now)
  {
  }

  lemma NothingDueLeft(t: seq<Slot>, now: nat, used: bool, seen: bool, cursor: nat)
    requires (used ==> LiveBelow(t, |t|, now)) && TtlOk(Contents(t), used, seen, cursor)
    ensures forall x | x in Contents(t) :: !Due(x, now)
  {
    hide Contents, ScanRun.PlaceOf;
    forall x | x in Contents(t) ensures !Due(x, now) {
      ContentsMember(t, x);
    }
  }

  lemma CutOff(t: seq<Slot>, log: nat, cap: nat)
    requires Shrinking(t, |t|, log, cap)
    ensures Layout(t[..cap], log) && Contents(t[..cap]) == Contents(t)
  {
    hide BucketId, ExtHash, Pow2, SlotOk;
    assert t == t[..cap] + t[cap..];
    ContentsAppend(t[..cap], t[cap..]);
    NoContents(t[cap..]);
  }

  lemma FewerTtl(m: multiset<Node>, m': multiset<Node>, used: bool, seen: bool, cursor: nat)
    requires m' <= m && TtlOk(m, used, seen, cursor)
    ensures TtlOk(m', used, seen, cursor)
  {
    hide ScanRun.PlaceOf;
    assert forall x | x in m' :: m'[x] <= m[x];
  }

  lemma TtlAfterReap(m: multiset<Node>, m': multiset<Node>, now: nat, used: bool, seen: bool, cursor: nat)
    requires Reaped(m, m', now) && TtlOk(m, used, seen, cursor)
    ensures TtlOk(m', used, seen, cursor)
  {
    hide ScanRun.PlaceOf;
    assert forall x | x in m' :: m'[x] <= m[x];
  }

  lemma NotDue(m: multiset<Node>, used: bool, seen: bool, cursor: nat, x: Node, now: nat)
    requires TtlOk(m, used, seen, cursor) && x in m && !(used && Due(x, now))
    ensures !Due(x, now)
  {
  }

  function Written(s: Slot, c: nat, y: Node, tag: nat): Slot
    requires c < |s.nodes| == |s.tags|
  {
    s.(nodes := s.nodes[c := y], tags := s.tags[c := tag])
  }

  lemma WrittenOk(s: Slot, i: nat, log: nat, c: nat, y: Node)
    requires SlotOk(s, i, log) && c < |s.nodes| && s.nodes[c].key == y.key
    ensures var s' := Written(s, c, y, ExtHash(y.key.hash, log));
            SlotOk(s', i, log) && multiset(s'.nodes) + multiset{s.nodes[c]} == multiset(s.nodes) + multiset{y}
  {
    hide BucketId, ExtHash;
    ChainUpdate(s.nodes, c, y);
  }

  lemma TtlAfterSwap(m: multiset<Node>, m': multiset<Node>, x: Node, y: Node, used: bool, seen: bool, cursor: nat)
    requires TtlOk(m, used, seen, cursor) && (y.ttl ==> used && seen) && Exchanged(m, m', x, y)
    ensures TtlOk(m', used, seen, cursor)
  {
    hide ScanRun.PlaceOf;
    assert forall z | z in m' && z != y :: z in m' - multiset{y} + multiset{x};
  }

  lemma TtlAfterAdd(m: multiset<Node>, x: Node, used: bool, seen: bool, cursor: nat)
    requires TtlOk(m, used, seen, cursor) && (x.ttl ==> used && seen)
    ensures TtlOk(m + multiset{x}, used, seen, cursor)
  {
    hide ScanRun.PlaceOf;
  }

  lemma MoreFlags(m: multiset<Node>, used: bool, seen: bool, cursor: nat)
    ensures TtlOk(m, true, true, cursor)
  {
  }

  lemma NotDueUnless(m: multiset<Node>, used: bool, seen: bool, cursor: nat, now: nat)
    requires TtlOk(m, used, seen, cursor)
    ensures forall x | x in m && Due(x, now) :: used
  {
  }

  lemma DueGaveWay(m: multiset<Node>, m': multiset<Node>, x: Node, y: Node, now: nat)
    requires Unique(m) && x in m && x.key == y.key && Due(x, now) && Exchanged(m, m', x, y)
    ensures y in m' && Reaped(m, m' - multiset{y}, now) && forall z | z in m && z.key == y.key :: Due(z, now)
  {
    var rest := m' - multiset{y};
    NothingReaped(m, now);
    DropOne(m, rest, x, now);
  }

  lemma NoneBefore(m: multiset<Node>, k: Key)
    requires !HasKey(m, k)
    ensures forall x | x in m :: x.key != k
  {
  }

  lemma EmptyAt(t: seq<Slot>, i: nat, log: nat)
    requires Layout(t, log) && i < |t|
    ensures Layout(t[i := EMPTY], log)
  {
    hide BucketId, ExtHash, Pow2;
  }

  lemma NoFlags(m: multiset<Node>, seen: bool, cursor: nat)
    requires |m| == 0
    ensures TtlOk(m, false, seen, cursor)
  {
  }
}
