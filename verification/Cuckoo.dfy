/** The cuckoo filter: a chain of sub-filters whose bucket counts are nested powers of two. */
module Cuckoo {
  import opened Arith
  import opened Bits
  import opened Keys
  import opened Bags
  import opened CuckooIndex
  import opened CuckooCells
  import opened CuckooKick

  const MAX_BUCKETS := 0xff_ffff_ffff_ffff   // 2^56 - 1
  const SIZE_MAX := 0xffff_ffff_ffff_ffff

  datatype Found = Nowhere | At(p: nat)

  function Power(b: nat, i: nat): nat {
    if i == 0 then 1 else Power(b, i - 1) * b
  }

  lemma {:induction false} PowerIsPow2(k: nat, e: nat, i: nat)
    ensures Pow2(k) * Power(Pow2(e), i) == Pow2(Depth(k, e, i))
  {
    if i > 0 {
      PowerIsPow2(k, e, i - 1);
      Pow2Add(Depth(k, e, i - 1), e);
      hide Pow2, Depth;
      Assoc(Pow2(k), Power(Pow2(e), i - 1), Pow2(e));
    }
  }

  lemma Assoc(a: nat, b: nat, c: nat)
    ensures a * (b * c) == a * b * c
  {
  }

  function Zeros(n: nat): (r: SubFilter)
    ensures |r| == n && forall p | 0 <= p < n :: r[p] == 0
  {
    if n == 0 then [] else Zeros(n - 1) + [0]
  }

  ghost predicate AllZero(sf: SubFilter) { forall p | 0 <= p < |sf| :: sf[p] == 0 }

  ghost function Vacancies(n: nat): (r: seq<Cell>)
    ensures |r| == n && Items(r) == multiset{} && forall p | 0 <= p < n :: r[p].Vacant?
  {
    if n == 0 then [] else
      assert (Vacancies(n - 1) + [Vacant])[..n - 1] == Vacancies(n - 1);
      Vacancies(n - 1) + [Vacant]
  }

  class Filter {
    const width: nat            // slots per bucket
    const maxIterations: nat
    const expansion: nat        // growth factor per sub-filter; 0 disables growth
    const numBuckets: nat
    ghost const k: nat          // log2 of numBuckets
    ghost const e: nat          // log2 of expansion
    var numItems: nat
    var numDeletes: nat
    var numKoInserts: nat
    var filters: seq<SubFilter>
    ghost var cells: seq<seq<Cell>>

    ghost predicate Shaped()
      reads this
    {
      && width > 0 && numBuckets == Pow2(k) && (expansion == 0 || expansion == Pow2(e)) && |filters| > 0
      && (expansion == 0 ==> |filters| == 1)
      && ChainOk(filters, cells, width, k, e)
    }

    ghost predicate Valid()
      reads this
    {
      Shaped() && numItems == |Held(cells)|
    }

    /** The hashes inserted and not deleted. */
    ghost function Content(): multiset<Hash>
      reads this
    {
      Held(cells)
    }

    constructor (capacity: nat, slotsPerBucket: nat, maxIterations: nat, expansion: nat)
      requires slotsPerBucket > 0 && expansion < 0x1_0000
      requires Pow2(CeilLog(capacity / slotsPerBucket)) <= MAX_BUCKETS
      requires Pow2(CeilLog(capacity / slotsPerBucket)) <= SIZE_MAX / slotsPerBucket
      ensures Valid() && Content() == multiset{} && numItems == 0
      ensures width == slotsPerBucket && |filters| == 1 && AllZero(filters[0]) && this.maxIterations == maxIterations
      ensures numBuckets >= capacity / slotsPerBucket
              && (numBuckets > 1 ==> numBuckets < 2 * (capacity / slotsPerBucket))
      ensures this.expansion > 0 <==> 0 < expansion <= 0x8000
      ensures this.expansion > 0 ==> expansion <= this.expansion < 2 * expansion
    {
      hide Pow2, CeilLog, FilterOk;
      width, this.maxIterations := slotsPerBucket, maxIterations;
      var log := CeilLog(expansion);
      if expansion > 0 {
        ExpansionFits(expansion);
      }
      CeilBelow(capacity / slotsPerBucket);
      // the rounded factor is kept in 16 bits
      this.expansion := if expansion == 0 then 0 else Pow2(log) % 0x1_0000;
      e := log;
      var k0 := CeilLog(capacity / slotsPerBucket);
      k := k0;
      numBuckets := Pow2(k0);
      numItems, numDeletes, numKoInserts := 0, 0, 0;
      filters := [];
      cells := [];
      new;
      var ok := AddNewSubFilter();
    }

    method AddNewSubFilter() returns (ok: bool)
      requires width > 0 && numBuckets == Pow2(k) && (expansion == Pow2(e) || (expansion == 0 && filters == []))
      requires ChainOk(filters, cells, width, k, e)
      modifies this`filters, this`cells
      ensures ok <==> Pow2(Depth(k, e, |old(filters)|)) <= MAX_BUCKETS
                      && Pow2(Depth(k, e, |old(filters)|)) <= SIZE_MAX / width
      ensures !ok ==> filters == old(filters) && cells == old(cells)
      ensures ok ==> |filters| == |old(filters)| + 1 && filters[..|old(filters)|] == old(filters)
      ensures ok ==> ChainOk(filters, cells, width, k, e) && Held(cells) == Held(old(cells))
      ensures ok ==> filters == old(filters) + [Zeros(Pow2(Depth(k, e, |old(filters)|)) * width)]
    {
      hide Depth, Held, Items, Candidate;
      var growth := Power(expansion, |filters|);
      BucketCount();
      GrowthFits(growth, numBuckets);
      if growth > MAX_BUCKETS / numBuckets {
        return false;
      }
      var bucketCount := numBuckets * growth;
      if bucketCount > SIZE_MAX / width {
        return false;
      }
      ghost var was := filters;
      filters := filters + [Zeros(bucketCount * width)];
      cells := cells + [Vacancies(bucketCount * width)];
      HeldAppend(old(cells), Vacancies(bucketCount * width));
      assert filters[..|was|] == was;
      return true;
    }

    // ---- lookup -------------------------------------------------------------------------

    /** NumBuckets(sf). */
    method BucketsIn(i: nat) returns (n: nat)
      requires Shaped() && i < |filters|
      ensures n == Pow2(Depth(k, e, i))
    {
      assert FilterOk(filters[i], cells[i], width, Depth(k, e, i));
      BucketsOf(Pow2(Depth(k, e, i)), width);
      n := |filters[i]| / width;
    }

    /** First slot of bucket `b` holding byte `v`. */
    method ScanBucket(i: nat, b: nat, v: nat) returns (r: Found)
      requires Shaped() && i < |filters| && b < Pow2(Depth(k, e, i))
      ensures r.At? ==> FirstOf(filters[i], width, b, v, r.p)
      ensures r.Nowhere? ==> NotInBucket(filters[i], width, b, v)
    {
      hide Depth, Pow2, Held, Candidate, BucketAt;
      assert FilterOk(filters[i], cells[i], width, Depth(k, e, i));
      SlotOf(b, width - 1, width, Pow2(Depth(k, e, i)));
      var base := b * width;
      var s := 0;
      while s < width
        invariant s <= width && forall p | base <= p < base + s :: filters[i][p] != v
      {
        if filters[i][base + s] == v {
          BucketRange(base + s, b, width);
          forall p | 0 <= p < base + s && BucketAt(p, width) == b ensures filters[i][p] != v {
            BucketRange(p, b, width);
          }
          return At(base + s);
        }
        s := s + 1;
      }
      forall p | 0 <= p < |filters[i]| && BucketAt(p, width) == b ensures filters[i][p] != v {
        BucketRange(p, b, width);
      }
      return Nowhere;
    }

    /** Looks for byte `v` in both candidate buckets of `h` in sub-filter `i`. */
    method FindIn(i: nat, h: Hash, v: nat) returns (r: Found)
      requires Shaped() && i < |filters|
      ensures r.At? ==> FirstIn(filters[i], width, h, v, Depth(k, e, i), r.p)
      ensures r.At? ==> r.p < |filters[i]| && filters[i][r.p] == v && Candidate(h, BucketAt(r.p, width), Depth(k, e, i))
      ensures r.Nowhere? ==> NotIn(filters[i], width, h, v, Depth(k, e, i))
    {
      hide Depth, Pow2, Held, Fingerprint, AltIndex, Low, FilterOk, BucketAt;
      ghost var d := Depth(k, e, i);
      var n := BucketsIn(i);
      LowIsMod(h, d);
      LowIsMod(AltIndex(Fingerprint(h), h), d);
      r := ScanBucket(i, h % n, v);
      if r.Nowhere? {
        r := ScanBucket(i, AltIndex(Fingerprint(h), h) % n, v);
      }
    }

    /** Some sub-filter has the fingerprint of `h` in one of the two candidate buckets. */
    ghost predicate Finds(h: Hash)
      requires width > 0
      reads this
    {
      exists i | 0 <= i < |filters| :: !NotIn(filters[i], width, h, Fingerprint(h), Depth(k, e, i))
    }

    /** Slot `p` of sub-filter `i` belongs to an item that agrees with `h` modulo 255, and lies in a candidate bucket
        of `h`. */
    ghost predicate LikeAt(h: Hash, i: nat, p: nat)
      requires width > 0
      reads this
    {
      && i < |cells| && p < |cells[i]| && cells[i][p].Item? && cells[i][p].hash % 255 == h % 255
      && Candidate(h, BucketAt(p, width), Depth(k, e, i))
    }

    ghost predicate HoldsLike(h: Hash)
      requires width > 0
      reads this
    {
      exists i: nat, p: nat :: LikeAt(h, i, p)
    }

    /** The hashes agree modulo 255 and the items share a candidate bucket of some sub-filter. */
    ghost predicate Alike(g: Hash, h: Hash)
      reads this
    {
      && g % 255 == h % 255
      && exists i: nat, b: nat | i < |filters| :: Candidate(g, b, Depth(k, e, i)) && Candidate(h, b, Depth(k, e, i))
    }

    /** What a lookup goes by says exactly that the filter holds an item like this one. */
    lemma FindsIff(h: Hash)
      requires Shaped()
      ensures Finds(h) <==> HoldsLike(h)
      ensures HoldsLike(h) ==> exists g | g in Content() :: Alike(g, h)
    {
      hide Fingerprint, Candidate, Depth, Held, Pow2, BucketAt;
      if Finds(h) {
        var i :| 0 <= i < |filters| && !NotIn(filters[i], width, h, Fingerprint(h), Depth(k, e, i));
        var p :| 0 <= p < |filters[i]| && Candidate(h, BucketAt(p, width), Depth(k, e, i))
                 && filters[i][p] == Fingerprint(h);
        CellAt(i, p);
        SameFingerprint(cells[i][p].hash, h);
        assert LikeAt(h, i, p);
      }
      if HoldsLike(h) {
        var i: nat, p: nat :| LikeAt(h, i, p);
        SameLength(i, p);
        CellAt(i, p);
        SameFingerprint(cells[i][p].hash, h);
        assert !NotIn(filters[i], width, h, Fingerprint(h), Depth(k, e, i));
        MemberHeld(cells, i, p);
        assert Alike(cells[i][p].hash, h);
      }
    }

    /** CuckooFilter::Exists: an item that is held is always found, and what is found is like an item that is held. */
    method Exists(h: Hash) returns (r: bool)
      requires Valid()
      ensures h in Content() ==> r
      ensures r <==> Finds(h)
      ensures r <==> HoldsLike(h)
      ensures r ==> exists g | g in Content() :: Alike(g, h)
      ensures (forall g | g in Content() :: g % 255 != h % 255) ==> !r
    {
      hide Fingerprint, Candidate, Depth, Held, Pow2, ChainOk;
      FindsIff(h);
      var fp := Fingerprint(h);
      if h in Content() {
        HeldIsFound(h);
      }
      for i := 0 to |filters|
        invariant forall j | 0 <= j < i :: NotIn(filters[j], width, h, fp, Depth(k, e, j))
      {
        var f := FindIn(i, h, fp);
        if f.At? {
          return true;
        }
      }
      return false;
    }

    lemma HeldIsFound(h: Hash)
      requires Shaped() && h in Content()
      ensures Finds(h)
    {
      hide Fingerprint, Candidate, Depth, Held, Pow2;
      var i, p := HeldMember(cells, h);
      assert FilterOk(filters[i], cells[i], width, Depth(k, e, i));
      assert filters[i][p] == Fingerprint(h);
      assert !NotIn(filters[i], width, h, Fingerprint(h), Depth(k, e, i));
    }

    // ---- insertion ----------------------------------------------------------------------

    /** Writes one slot, for the item that `c` names. */
    method Put(i: nat, p: nat, v: nat, ghost c: Cell)
      requires Shaped() && i < |filters| && p < |filters[i]| && v == ByteOf(c)
      requires c.Item? ==> Candidate(c.hash, BucketAt(p, width), Depth(k, e, i))
      modifies this`filters, this`cells
      ensures Shaped() && filters == SetAt(old(filters), i, p, v)
      ensures |old(cells)| == |old(filters)| && p < |old(cells)[i]| && cells == SetAt(old(cells), i, p, c)
      ensures Held(cells) + One(old(cells)[i][p]) == Held(old(cells)) + One(c)
    {
      hide Held, Candidate, Depth, ByteOf, One, BucketAt;
      SetKeeps(filters, cells, width, k, e, i, p, c);
      assert FilterOk(filters[i], cells[i], width, Depth(k, e, i));
      SetCell(cells, i, p, c);
      filters := SetAt(filters, i, p, v);
      cells := SetAt(cells, i, p, c);
    }

    lemma CellAt(i: nat, p: nat)
      requires Shaped() && i < |filters| && p < |filters[i]|
      ensures i < |cells| && p < |cells[i]| && filters[i][p] == ByteOf(cells[i][p])
      ensures cells[i][p].Item? ==> Candidate(cells[i][p].hash, BucketAt(p, width), Depth(k, e, i))
    {
      hide Candidate, Depth, BucketAt;
      assert FilterOk(filters[i], cells[i], width, Depth(k, e, i));
    }

    /** No candidate bucket of `h` has an empty slot. */
    ghost predicate NoVacancy(h: Hash)
      requires width > 0
      reads this
    {
      forall i | 0 <= i < |filters| :: NotIn(filters[i], width, h, 0, Depth(k, e, i))
    }

    /** No round of evictions in the newest sub-filter arrives at a bucket with an empty slot. */
    ghost predicate Hopeless(h: Hash)
      requires width > 0
      reads this
    {
      && |filters| > 0
      && var d := Depth(k, e, |filters| - 1);
         NoWay(Kick(filters[|filters| - 1], Low(h, d), Fingerprint(h), 0), width, d, maxIterations)
    }

    /** The first slot with byte `v` in a candidate bucket of `h`, newest sub-filter first. */
    ghost predicate FirstPlace(fs: seq<SubFilter>, h: Hash, v: nat, i: nat, p: nat)
      requires width > 0
    {
      && i < |fs| && FirstIn(fs[i], width, h, v, Depth(k, e, i), p)
      && forall j | i < j < |fs| :: NotIn(fs[j], width, h, v, Depth(k, e, j))
    }

    /** This slot, and no other, has changed from `v` to `v'`. */
    ghost predicate Rewritten(was: seq<SubFilter>, now: seq<SubFilter>, h: Hash, v: nat, v': nat)
      requires width > 0
    {
      exists i: nat, p: nat :: FirstPlace(was, h, v, i, p) && SetOne(was, now, i, p, v')
    }

    /** The fingerprint has come to rest after `r` rounds of evictions in slot `p`. */
    ghost predicate KickedAt(was: seq<SubFilter>, now: seq<SubFilter>, h: Hash, r: nat, p: nat)
      requires width > 0
    {
      && |was| > 0 && 0 < r <= maxIterations
      && var (last, d) := (|was| - 1, Depth(k, e, |was| - 1));
         var start := Kick(was[last], Low(h, d), Fingerprint(h), 0);
         && KickOk(start, width, d) && NoWay(start, width, d, r - 1)
         && var t := Rounds(start, width, d, r);
            FirstOf(t.sf, width, t.idx, 0, p) && now == was[last := t.sf[p := t.fp]]
    }

    ghost predicate KickedIn(was: seq<SubFilter>, now: seq<SubFilter>, h: Hash)
      requires width > 0
    {
      exists r: nat, p: nat :: KickedAt(was, now, h, r, p)
    }

    lemma Landed(was: seq<SubFilter>, fs: seq<SubFilter>, h: Hash, r: nat, p: nat)
      requires width > 0 && 0 < |was| == |fs| && 0 < r <= maxIterations
      requires forall j | 0 <= j < |was| - 1 :: fs[j] == was[j]
      requires var (last, d) := (|was| - 1, Depth(k, e, |was| - 1));
               var start := Kick(was[last], Low(h, d), Fingerprint(h), 0);
               && KickOk(start, width, d) && NoWay(start, width, d, r - 1)
               && var t := Rounds(start, width, d, r); t.sf == fs[last] && FirstOf(fs[last], width, t.idx, 0, p)
      ensures var (last, d) := (|was| - 1, Depth(k, e, |was| - 1));
              var t := Rounds(Kick(was[last], Low(h, d), Fingerprint(h), 0), width, d, r);
              KickedIn(was, SetAt(fs, last, p, t.fp), h)
    {
      hide Depth, Low, Fingerprint, Rounds, NoWay;
      var (last, d) := (|was| - 1, Depth(k, e, |was| - 1));
      var t := Rounds(Kick(was[last], Low(h, d), Fingerprint(h), 0), width, d, r);
      assert SetAt(fs, last, p, t.fp) == was[last := t.sf[p := t.fp]];
      assert KickedAt(was, SetAt(fs, last, p, t.fp), h, r, p);
    }

    lemma NotVacant(h: Hash, i: nat, p: nat)
      requires width > 0 && i < |filters| && p < |filters[i]| && filters[i][p] == 0
      requires Candidate(h, BucketAt(p, width), Depth(k, e, i))
      ensures !NoVacancy(h)
    {
      hide Candidate, Depth, BucketAt;
    }

    /** The scan for an empty slot, newest sub-filter first. */
    method PlaceInVacant(h: Hash) returns (ok: bool)
      requires Valid()
      modifies this`filters, this`cells, this`numItems
      ensures Valid() && |filters| == |old(filters)|
      ensures ok ==> Content() == old(Content()) + multiset{h}
      ensures !ok ==> filters == old(filters) && cells == old(cells)
      ensures ok <==> !old(NoVacancy(h))
      ensures ok ==> Rewritten(old(filters), filters, h, 0, Fingerprint(h))
    {
      hide Held, Candidate, Depth, BucketAt, ChainOk, SetAt, FirstIn, NotIn, Fingerprint;
      for i := |filters| downto 0
        invariant forall j | i <= j < |filters| :: NotIn(filters[j], width, h, 0, Depth(k, e, j))
        invariant filters == old(filters) && cells == old(cells) && numItems == old(numItems)
      {
        var f := FindIn(i, h, 0);
        if f.At? {
          CellAt(i, f.p);
          NotVacant(h, i, f.p);
          Put(i, f.p, Fingerprint(h), Item(h));
          assert FirstPlace(old(filters), h, 0, i, f.p) && SetOne(old(filters), filters, i, f.p, Fingerprint(h));
          assert Held(cells) == Held(old(cells)) + multiset{h};
          numItems := numItems + 1;
          return true;
        }
      }
      return false;
    }

    /** One round of evictions: the fingerprint in hand takes the victim's place. */
    method Evict(i: nat, n: nat, idx: nat, fp: nat, victim: nat, ghost hand: Hash)
      returns (idx': nat, fp': nat, ghost hand': Hash)
      requires Shaped() && i < |filters| && n == Pow2(Depth(k, e, i)) && idx < n && victim < width
      requires fp == Fingerprint(hand) && Candidate(hand, idx, Depth(k, e, i)) && NotInBucket(filters[i], width, idx, 0)
      modifies this`filters, this`cells
      ensures Shaped() && |filters| == |old(filters)|
              && forall j | 0 <= j < |filters| && j != i :: filters[j] == old(filters)[j]
      ensures KickOk(Kick(old(filters)[i], idx, fp, victim), width, Depth(k, e, i))
      ensures Kick(filters[i], idx', fp', NextVictim(victim, width))
              == Forward(Kick(old(filters)[i], idx, fp, victim), width, Depth(k, e, i))
      ensures fp' == Fingerprint(hand') && Candidate(hand', idx', Depth(k, e, i)) && idx' < n
      ensures Held(cells) + multiset{hand'} == Held(old(cells)) + multiset{hand}
    {
      hide Held, Candidate, Depth, BucketAt, ChainOk, Pow2, Low, AltIndex, Fingerprint;
      ghost var d := Depth(k, e, i);
      var p := idx * width + victim;
      SlotOf(idx, victim, width, n);
      Length(i);
      CellAt(i, p);
      hand' := cells[i][p].hash;
      fp' := filters[i][p];
      Put(i, p, fp, Item(hand));
      LowIsMod(AltIndex(fp', idx), d);
      idx' := AltIndex(fp', idx) % n;
      CandidateBelow(hand', idx, d, d);
    }

    lemma Length(i: nat)
      requires Shaped() && i < |filters|
      ensures |filters[i]| == Pow2(Depth(k, e, i)) * width
    {
      assert FilterOk(filters[i], cells[i], width, Depth(k, e, i));
    }

    /** The second loop of KOInsert. */
    method RollBack(i: nat, n: nat, idx0: nat, fp0: nat, victim0: nat, ghost start: Kick)
      requires width > 0 && i < |filters| && n == Pow2(Depth(k, e, i)) && KickOk(start, width, Depth(k, e, i))
      requires Kick(filters[i], idx0, fp0, victim0) == Rounds(start, width, Depth(k, e, i), maxIterations)
      modifies this`filters
      ensures filters == old(filters)[i := start.sf]
    {
      hide Depth, Pow2, Low, AltIndex, Forward;
      ghost var d := Depth(k, e, i);
      var idx: nat, fp: nat, victim: nat := idx0, fp0, victim0;
      for j := 0 to maxIterations
        invariant |filters| == |old(filters)| && filters == old(filters)[i := filters[i]]
        invariant Kick(filters[i], idx, fp, victim) == Rounds(start, width, d, maxIterations - j)
      {
        RoundBack(start, width, d, maxIterations - j);
        victim := PrevVictim(victim, width);
        LowIsMod(AltIndex(fp, idx), d);
        idx := AltIndex(fp, idx) % n;
        SlotOf(idx, victim, width, n);
        var p := idx * width + victim;
        var out := filters[i][p];
        filters := SetAt(filters, i, p, fp);
        fp := out;
      }
    }

    /** CuckooFilter::KOInsert on the newest sub-filter. Success adds one item and moves others between
        their own buckets; failure restores every byte. */
    method KOInsert(h: Hash) returns (ok: bool)
      requires Shaped() && NotIn(filters[|filters| - 1], width, h, 0, Depth(k, e, |filters| - 1))
      modifies this`filters, this`cells
      ensures Shaped() && |filters| == |old(filters)|
      ensures forall j | 0 <= j < |filters| - 1 :: filters[j] == old(filters)[j]
      ensures ok ==> Content() == old(Content()) + multiset{h}
      ensures !ok ==> filters == old(filters) && cells == old(cells)
      ensures ok <==> !old(Hopeless(h))
      ensures ok ==> KickedIn(old(filters), filters, h)
    {
      hide Held, Candidate, Depth, BucketAt, ChainOk, Pow2, Low, AltIndex, Fingerprint, Forward, Backward, NotIn, NoWay;
      hide KickedIn;
      var last := |filters| - 1;
      ghost var d := Depth(k, e, last);
      var n := BucketsIn(last);
      LowIsMod(h, d);
      Length(last);
      FirstBucket(filters[last], width, h, d);
      var idx: nat, fp: nat, victim: nat := h % n, Fingerprint(h), 0;
      ghost var hand, start := h, Kick(filters[last], idx, fp, victim);
      NoRounds(start, width, d);
      var i := 0;
      while i < maxIterations
        invariant Shaped() && |filters| == |old(filters)| && i <= maxIterations
        invariant forall j | 0 <= j < last :: filters[j] == old(filters)[j]
        invariant KickOk(start, width, d) && Kick(filters[last], idx, fp, victim) == Rounds(start, width, d, i)
        invariant fp == Fingerprint(hand) && Candidate(hand, idx, d)
        invariant Held(cells) + multiset{hand} == Held(old(cells)) + multiset{h}
        invariant NotInBucket(filters[last], width, idx, 0) && NoWay(start, width, d, i)
      {
        idx, fp, hand := Evict(last, n, idx, fp, victim, hand);
        var f := ScanBucket(last, idx, 0);
        if f.At? {
          WayFound(start, width, d, i + 1, f.p);
          CellAt(last, f.p);
          ghost var fs := filters;
          Put(last, f.p, fp, Item(hand));
          Landed(old(filters), fs, h, i + 1, f.p);
          return true;
        }
        victim := NextVictim(victim, width);
        NoWayYet(start, width, d, i);
        i := i + 1;
      }
      RollBack(last, n, idx, fp, victim, start);
      cells := old(cells);
      assert filters == old(filters);
      return false;
    }

    /** CuckooFilter::Insert. It fails exactly when no candidate bucket has room, evictions lead nowhere and
        the filter may not grow, and then nothing has changed; it grows only if it must, and then once. */
    method Insert(h: Hash) returns (ok: bool)
      requires Valid()
      modifies this`filters, this`cells, this`numItems, this`numKoInserts
      ensures Valid()
      ensures ok ==> Content() == old(Content()) + multiset{h}
      ensures |filters| == |old(filters)| + if old(NoVacancy(h) && Hopeless(h) && CanGrow()) then 1 else 0
      ensures !ok ==> filters == old(filters) && cells == old(cells)
      ensures !ok <==> old(NoVacancy(h) && Hopeless(h) && !CanGrow())
      ensures ok ==> if !old(NoVacancy(h)) then Rewritten(old(filters), filters, h, 0, Fingerprint(h))
                     else if !old(Hopeless(h)) then KickedIn(old(filters), filters, h)
                     else Rewritten(old(filters) + [Zeros(Pow2(Depth(k, e, |old(filters)|)) * width)], filters, h,
                                    0, Fingerprint(h))
    {
      hide Held, Candidate, Depth, ChainOk, Pow2, NotIn, NoWay, Fingerprint, Low;
      ghost var grown := false;
      while true
        invariant Valid() && Content() == old(Content())
        invariant |filters| == |old(filters)| + if grown then 1 else 0
        invariant !grown ==> filters == old(filters) && cells == old(cells)
        invariant grown ==> filters == old(filters) + [Zeros(Pow2(Depth(k, e, |old(filters)|)) * width)]
        invariant grown ==> old(NoVacancy(h) && Hopeless(h) && CanGrow())
        decreases !grown
      {
        ok := PlaceInVacant(h);
        if ok {
          return;
        }
        if grown {
          EmptyHasRoom(|filters| - 1, h);
        }
        ok := KOInsert(h);
        if ok {
          numItems, numKoInserts := numItems + 1, numKoInserts + 1;
          return;
        }
        if expansion == 0 {
          return false;
        }
        var added := AddNewSubFilter();
        if !added {
          return false;
        }
        grown := true;
      }
    }

    /** Whether AddNewSubFilter would succeed. */
    ghost predicate CanGrow()
      requires width > 0
      reads this
    {
      var n := Pow2(Depth(k, e, |filters|));
      expansion != 0 && n <= MAX_BUCKETS && n <= SIZE_MAX / width
    }

    lemma EmptyHasRoom(i: nat, h: Hash)
      requires Shaped() && i < |filters| && AllZero(filters[i])
      ensures !NotIn(filters[i], width, h, 0, Depth(k, e, i))
    {
      hide Depth, AltIndex, Fingerprint, Low, BucketAt;
      var d := Depth(k, e, i);
      Length(i);
      SlotOf(Low(h, d), 0, width, Pow2(d));
      var p := Low(h, d) * width + 0;
      assert Candidate(h, BucketAt(p, width), d) && filters[i][p] == 0;
    }

    method InsertUnique(h: Hash) returns (ok: bool)
      requires Valid()
      modifies this`filters, this`cells, this`numItems, this`numKoInserts
      ensures Valid()
      ensures ok ==> Content() == old(Content()) + multiset{h} && old(h !in Content())
      ensures !ok ==> filters == old(filters) && cells == old(cells)
      ensures !ok <==> old(Finds(h) || (NoVacancy(h) && Hopeless(h) && !CanGrow()))
      ensures old(Finds(h)) <==> old(HoldsLike(h))
    {
      hide Held, Depth, ChainOk, NotIn, Hopeless, Candidate, Fingerprint;
      var present := Exists(h);
      if present {
        return false;
      }
      ok := Insert(h);
    }

    // ---- deletion -----------------------------------------------------------------------

    /** CuckooFilter::Delete. A held item can always be deleted, and then the filter holds exactly the
        others; otherwise a slot goes that no lookup in its sub-filter could tell from the item's. */
    method Delete(h: Hash) returns (ok: bool, ghost gone: Hash)
      requires Valid()
      modifies this`filters, this`cells, this`numItems, this`numDeletes
      ensures Valid()
      ensures old(h in Content()) ==> ok && gone == h
      ensures ok ==> gone in old(Content()) && Content() == old(Content()) - multiset{gone}
      ensures ok ==> gone % 255 == h % 255 && numDeletes == old(numDeletes) + 1
      ensures !ok ==> filters == old(filters) && cells == old(cells) && numDeletes == old(numDeletes)
      ensures ok <==> old(Finds(h))
      ensures ok <==> old(HoldsLike(h))
      ensures ok ==> Rewritten(old(filters), filters, h, Fingerprint(h), 0)
      ensures old(forall g | g in Content() :: g % 255 != h % 255) ==> !ok
    {
      hide Held, Candidate, Depth, BucketAt, ChainOk, Fingerprint, Pow2, SetAt;
      FindsIff(h);
      gone := h;
      for i := |filters| downto 0
        invariant forall j | i <= j < |filters| :: NotIn(filters[j], width, h, Fingerprint(h), Depth(k, e, j))
        invariant filters == old(filters) && cells == old(cells) && numItems == old(numItems)
                  && numDeletes == old(numDeletes)
      {
        var f := FindIn(i, h, Fingerprint(h));
        if f.At? {
          gone := ClearSlot(i, f.p, h);
          assert FirstPlace(old(filters), h, Fingerprint(h), i, f.p) && SetOne(old(filters), filters, i, f.p, 0);
          SameFingerprint(gone, h);
          numItems := numItems - 1;
          numDeletes := numDeletes + 1;
          return true, gone;
        }
      }
      if h in Content() {
        HeldIsFound(h);
      }
      return false, h;
    }

    /** Empties the slot the scan found. If the slot belongs to another item than the one to be deleted,
        that item takes over the slot of the deleted one, which is in the same or an older sub-filter. */
    method ClearSlot(i: nat, p: nat, h: Hash) returns (ghost gone: Hash)
      requires Shaped() && i < |filters| && p < |filters[i]| && filters[i][p] == Fingerprint(h)
      requires Candidate(h, BucketAt(p, width), Depth(k, e, i))
      requires forall j | i < j < |filters| :: NotIn(filters[j], width, h, Fingerprint(h), Depth(k, e, j))
      modifies this`filters, this`cells
      ensures Shaped() && Fingerprint(gone) == Fingerprint(h) && gone in old(Content())
      ensures old(h in Content()) ==> gone == h
      ensures Content() == old(Content()) - multiset{gone}
      ensures filters == SetAt(old(filters), i, p, 0)
    {
      hide Held, Candidate, Depth, BucketAt, ChainOk, Fingerprint, Pow2;
      CellAt(i, p);
      gone := cells[i][p].hash;
      if h in Content() && gone != h {
        Exchange(i, p, h);
        gone := h;
      }
      Put(i, p, 0, Vacant);
      assert Held(cells) + multiset{gone} == Held(old(cells));
    }

    ghost method Exchange(i: nat, p: nat, h: Hash)
      requires Shaped() && i < |filters| && p < |filters[i]| && filters[i][p] == Fingerprint(h) && h in Content()
      requires Candidate(h, BucketAt(p, width), Depth(k, e, i))
      requires forall j | i < j < |filters| :: NotIn(filters[j], width, h, Fingerprint(h), Depth(k, e, j))
      modifies this`cells
      ensures Shaped() && Content() == old(Content()) && p < |cells[i]| && cells[i][p] == Item(h)
    {
      hide Held, Candidate, Depth, BucketAt, ChainOk, Fingerprint, Pow2;
      var j, q := HeldMember(cells, h);
      SameLength(j, q);
      CellAt(i, p);
      CellAt(j, q);
      assert j <= i;
      var g := cells[i][p].hash;
      if (i, p) != (j, q) {
        DepthMono(k, e, j, i);
        CandidatesAgree(g, h, BucketAt(p, width), Depth(k, e, i), BucketAt(q, width), Depth(k, e, j));
        Recast(i, p, h);
        ghost var mid := Held(cells);
        Recast(j, q, g);
        ThereAndBack(old(Held(cells)), mid, Held(cells), multiset{g}, multiset{h});
      }
    }

    lemma SameLengths(i: nat)
      requires Shaped() && i < |filters|
      ensures |cells| == |filters| && |cells[i]| == |filters[i]|
    {
      assert FilterOk(filters[i], cells[i], width, Depth(k, e, i));
    }

    lemma SameLength(i: nat, p: nat)
      requires Shaped() && i < |cells| && p < |cells[i]|
      ensures i < |filters| && p < |filters[i]|
    {
      assert FilterOk(filters[i], cells[i], width, Depth(k, e, i));
    }

    /** Says that a slot belongs to another item with the same fingerprint. */
    ghost method Recast(i: nat, p: nat, g: Hash)
      requires Shaped() && i < |filters| && p < |filters[i]| && filters[i][p] == Fingerprint(g)
      requires Candidate(g, BucketAt(p, width), Depth(k, e, i))
      modifies this`cells
      ensures Shaped() && |old(cells)| == |filters| && p < |old(cells)[i]| && cells == SetAt(old(cells), i, p, Item(g))
      ensures Held(cells) + One(old(cells)[i][p]) == Held(old(cells)) + multiset{g}
    {
      hide Held, Candidate, Depth, BucketAt, Fingerprint, Pow2;
      CellAt(i, p);
      SetKeeps(filters, cells, width, k, e, i, p, Item(g));
      SetCell(cells, i, p, Item(g));
      assert filters[i][p := Fingerprint(g)] == filters[i];
      assert SetAt(filters, i, p, Fingerprint(g)) == filters;
      cells := SetAt(cells, i, p, Item(g));
    }

    // ---- compaction ---------------------------------------------------------------------

    /** No sub-filter before `i` has an empty slot where a fingerprint of its bucket `b` could go. */
    ghost predicate Wedged(fs: seq<SubFilter>, i: nat, b: nat, fp: nat)
      requires width > 0 && i <= |fs|
    {
      forall j | 0 <= j < i ::
        && NotInBucket(fs[j], width, Low(b, Depth(k, e, j)), 0)
        && NotInBucket(fs[j], width, Low(AltIndex(fp, b), Depth(k, e, j)), 0)
    }

    /** Every fingerprint among the first `n` slots of sub-filter `i` is wedged. */
    ghost predicate SettledUpTo(fs: seq<SubFilter>, i: nat, n: nat)
      requires width > 0 && i < |fs|
    {
      forall p | 0 <= p < |fs[i]| && p < n :: fs[i][p] == 0 || Wedged(fs, i, BucketAt(p, width), fs[i][p])
    }

    lemma StillSettled(fs: seq<SubFilter>, gs: seq<SubFilter>, i: nat, n: nat)
      requires width > 0 && i < |fs| == |gs| && SettledUpTo(fs, i, n) && OnlyFills(fs, gs, i)
      requires |fs[i]| == |gs[i]| && forall p | 0 <= p < |fs[i]| && p < n :: gs[i][p] == fs[i][p]
      ensures SettledUpTo(gs, i, n)
    {
      hide Depth, Low, AltIndex, BucketAt;
      forall p | 0 <= p < |gs[i]| && p < n && gs[i][p] != 0 ensures Wedged(gs, i, BucketAt(p, width), gs[i][p]) {
        assert Wedged(fs, i, BucketAt(p, width), fs[i][p]);
      }
    }

    /** The byte in slot `p` of sub-filter `i`, which belongs to bucket `b`, has gone to the first empty slot for it in
        the oldest sub-filter with one. */
    ghost predicate MovedTo(was: seq<SubFilter>, now: seq<SubFilter>, i: nat, b: nat, p: nat, j: nat, q: nat)
      requires width > 0
    {
      && j < i < |was| && p < |was[i]| && q < |was[j]| && Wedged(was, j, b, was[i][p])
      && var (own, other) := (Low(b, Depth(k, e, j)), Low(AltIndex(was[i][p], b), Depth(k, e, j)));
         && (FirstOf(was[j], width, own, 0, q)
             || (NotInBucket(was[j], width, own, 0) && FirstOf(was[j], width, other, 0, q)))
         && now == SetAt(SetAt(was, j, q, was[i][p]), i, p, 0)
    }

    ghost predicate MovedOut(was: seq<SubFilter>, now: seq<SubFilter>, i: nat, b: nat, p: nat)
      requires width > 0
    {
      exists j: nat, q: nat :: MovedTo(was, now, i, b, p, j, q)
    }

    /** CuckooFilter::RelocateSlot: moves a fingerprint to the oldest earlier sub-filter with room. The
        bucket's own number serves in place of the hash, because the bucket counts are nested. */
    method RelocateSlot(i: nat, b: nat, s: nat) returns (ok: bool)
      requires Shaped() && i < |filters| && b < Pow2(Depth(k, e, i)) && s < width
      modifies this`filters, this`cells
      ensures Shaped() && Content() == old(Content()) && |filters| == |old(filters)|
      ensures b * width + s < |old(filters)[i]| == |filters[i]|
      ensures ok ==> filters[i] == old(filters)[i][b * width + s := 0]
      ensures !ok ==> filters == old(filters)
      ensures ok <==> old(filters)[i][b * width + s] == 0 || !Wedged(old(filters), i, b, old(filters)[i][b * width + s])
      ensures OnlyFills(old(filters), filters, i) && forall j | i < j < |filters| :: filters[j] == old(filters)[j]
      ensures ok && old(filters)[i][b * width + s] != 0 ==> MovedOut(old(filters), filters, i, b, b * width + s)
    {
      hide Held, Candidate, Depth, BucketAt, ChainOk, Fingerprint, Pow2, Low, AltIndex;
      var p := b * width + s;
      SlotOf(b, s, width, Pow2(Depth(k, e, i)));
      Length(i);
      CellAt(i, p);
      SameLengths(i);
      var fp := filters[i][p];
      if fp == 0 {
        return true;
      }
      ghost var h := cells[i][p].hash;
      var alt := AltIndex(fp, b);
      for j := 0 to i
        invariant filters == old(filters) && cells == old(cells) && Wedged(filters, j, b, fp)
      {
        var n := BucketsIn(j);
        ghost var d := Depth(k, e, j);
        LowIsMod(b, d);
        LowIsMod(alt, d);
        DepthMono(k, e, j, i);
        CandidateBelow(h, b, Depth(k, e, i), d);
        var f := ScanBucket(j, b % n, 0);
        if f.Nowhere? {
          f := ScanBucket(j, alt % n, 0);
        }
        if f.At? {
          MoveByte(i, p, j, f.p);
          assert MovedTo(old(filters), filters, i, b, p, j, f.p);
          return true;
        }
      }
      return false;
    }

    /** Moves a fingerprint to an empty slot of an earlier sub-filter. */
    method MoveByte(i: nat, p: nat, j: nat, q: nat)
      requires Shaped() && j < i < |filters| && p < |filters[i]| && q < |filters[j]|
      requires filters[i][p] != 0 && filters[j][q] == 0 && |cells| == |filters| && |cells[i]| == |filters[i]|
      requires cells[i][p].Item? && Candidate(cells[i][p].hash, BucketAt(q, width), Depth(k, e, j))
      modifies this`filters, this`cells
      ensures Shaped() && Content() == old(Content())
      ensures filters == SetAt(SetAt(old(filters), j, q, old(filters)[i][p]), i, p, 0)
    {
      hide Held, Candidate, Depth, BucketAt, ChainOk, Fingerprint, Pow2;
      ghost var h := cells[i][p].hash;
      CellAt(i, p);
      CellAt(j, q);
      Put(j, q, filters[i][p], Item(h));
      Put(i, p, 0, Vacant);
      assert Held(cells) + multiset{h} == Held(old(cells)) + multiset{h};
      CancelBoth(Held(cells), Held(old(cells)), multiset{h}, multiset{});
    }

    /** CuckooFilter::CompactSingleFilter: only a sub-filter that has become empty is given up, and what
        is left in one that has not is wedged. */
    method CompactSingleFilter(i: nat) returns (emptied: bool)
      requires Valid() && 0 < i < |filters|
      modifies this`filters, this`cells
      ensures Valid() && Content() == old(Content())
      ensures |filters| == if emptied && i == |old(filters)| - 1 then i else |old(filters)|
      ensures |filters| == |old(filters)| ==> (emptied <==> AllZero(filters[i]))
      ensures !emptied ==> SettledUpTo(filters, i, |filters[i]|)
      ensures forall j | i < j < |filters| :: filters[j] == old(filters)[j]
      ensures OnlyFills(old(filters)[..i], filters[..i], i)
    {
      hide Held, Candidate, Depth, BucketAt, ChainOk, Fingerprint, Pow2, Low, AltIndex, SettledUpTo;
      var n := BucketsIn(i);
      emptied := true;
      NothingToSettle(filters, i);
      NothingFilled(filters, i);
      for b := 0 to n
        invariant Shaped() && Content() == old(Content()) && |filters| == |old(filters)| && numItems == old(numItems)
        invariant forall j | i < j < |filters| :: filters[j] == old(filters)[j]
        invariant SettledUpTo(filters, i, b * width) && (emptied <==> ZeroUpTo(filters[i], b * width))
        invariant OnlyFills(old(filters), filters, i)
      {
        ghost var fs := filters;
        emptied := CompactRow(i, b, emptied);
        FillsTwice(old(filters), fs, filters, i);
        NextRow(b, width);
      }
      Length(i);
      assert ZeroUpTo(filters[i], n * width) <==> AllZero(filters[i]);
      if emptied && i == |filters| - 1 {
        DropLast();
        filters := filters[..i];
        cells := cells[..i];
      }
    }

    method CompactRow(i: nat, b: nat, was: bool) returns (emptied: bool)
      requires Shaped() && i < |filters| && b < Pow2(Depth(k, e, i))
      requires SettledUpTo(filters, i, b * width) && (was <==> ZeroUpTo(filters[i], b * width))
      modifies this`filters, this`cells
      ensures Shaped() && Content() == old(Content()) && |filters| == |old(filters)|
      ensures SettledUpTo(filters, i, b * width + width) && (emptied <==> ZeroUpTo(filters[i], b * width + width))
      ensures forall j | i < j < |filters| :: filters[j] == old(filters)[j]
      ensures OnlyFills(old(filters), filters, i)
    {
      hide Held, Candidate, Depth, ChainOk, Fingerprint, Pow2, Low, AltIndex, Wedged, BucketAt, SettledUpTo;
      emptied := was;
      NothingFilled(filters, i);
      for s := 0 to width
        invariant Shaped() && Content() == old(Content()) && |filters| == |old(filters)|
        invariant forall j | i < j < |filters| :: filters[j] == old(filters)[j]
        invariant SettledUpTo(filters, i, b * width + s) && (emptied <==> ZeroUpTo(filters[i], b * width + s))
        invariant OnlyFills(old(filters), filters, i)
      {
        ghost var fs := filters;
        var moved := RelocateSlot(i, b, s);
        FillsTwice(old(filters), fs, filters, i);
        StillSettled(fs, filters, i, b * width + s);
        BucketRange(b * width + s, b, width);
        OneMoreSettled(filters, i, b, b * width + s);
        if !moved {
          emptied := false;
        }
      }
    }

    lemma NothingToSettle(fs: seq<SubFilter>, i: nat)
      requires width > 0 && i < |fs|
      ensures SettledUpTo(fs, i, 0)
    {
    }

    lemma OneMoreSettled(fs: seq<SubFilter>, i: nat, b: nat, p: nat)
      requires width > 0 && i < |fs| && SettledUpTo(fs, i, p) && p < |fs[i]| && BucketAt(p, width) == b
      requires fs[i][p] == 0 || Wedged(fs, i, b, fs[i][p])
      ensures SettledUpTo(fs, i, p + 1)
    {
      hide Wedged, BucketAt;
    }

    lemma DropLast()
      requires Shaped() && |filters| > 0 && AllZero(filters[|filters| - 1])
      ensures |cells| == |filters| && Held(cells[..|cells| - 1]) == Held(cells)
      ensures ChainOk(filters[..|filters| - 1], cells[..|cells| - 1], width, k, e)
    {
      hide Candidate, Depth, BucketAt, Fingerprint, Pow2;
      var last := |filters| - 1;
      assert FilterOk(filters[last], cells[last], width, Depth(k, e, last));
      NoItems(cells[last]);
    }

    /** No fingerprint of sub-filter `j` has an empty slot in its two buckets of the first sub-filter. */
    ghost predicate ShutOut(fs: seq<SubFilter>, j: nat)
      requires width > 0 && 0 < j < |fs|
    {
      forall p | 0 <= p < |fs[j]| && fs[j][p] != 0 ::
        && NotInBucket(fs[0], width, Low(BucketAt(p, width), k), 0)
        && NotInBucket(fs[0], width, Low(AltIndex(fs[j][p], BucketAt(p, width)), k), 0)
    }

    lemma SettledIsShutOut(fs: seq<SubFilter>, j: nat)
      requires width > 0 && 0 < j < |fs| && (SettledUpTo(fs, j, |fs[j]|) || AllZero(fs[j]))
      ensures ShutOut(fs, j)
    {
      hide Low, AltIndex, BucketAt;
      forall p | 0 <= p < |fs[j]| && fs[j][p] != 0
        ensures NotInBucket(fs[0], width, Low(BucketAt(p, width), k), 0)
        ensures NotInBucket(fs[0], width, Low(AltIndex(fs[j][p], BucketAt(p, width)), k), 0)
      {
        assert Wedged(fs, j, BucketAt(p, width), fs[j][p]);
        assert Depth(k, e, 0) == k;
      }
    }

    lemma StillShutOut(fs: seq<SubFilter>, gs: seq<SubFilter>, i: nat, j: nat)
      requires width > 0 && 0 < i <= j < |fs| && j < |gs| && ShutOut(fs, j) && gs[j] == fs[j]
      requires OnlyFills(fs[..i], gs[..i], i)
      ensures ShutOut(gs, j)
    {
      hide Low, AltIndex, BucketAt;
      assert fs[..i][0] == fs[0] && gs[..i][0] == gs[0];
    }

    /** CuckooFilter::Compact. The newest sub-filter that is left is the first or not empty. Unless it goes on behind a
        sub-filter that stays, no item of the newest fits into an earlier one; if it does, no item outside the first
        sub-filter fits into it. */
    method Compact(cont: bool)
      requires Valid()
      modifies this`filters, this`cells, this`numDeletes
      ensures Valid() && Content() == old(Content()) && |filters| <= |old(filters)| && numDeletes == 0
      ensures |filters| > 1 ==> !AllZero(filters[|filters| - 1])
      ensures |filters| > 1 && !cont ==> SettledUpTo(filters, |filters| - 1, |filters[|filters| - 1]|)
      ensures cont ==> forall j | 0 < j < |filters| :: ShutOut(filters, j)
    {
      hide Held, ChainOk, AllZero, SettledUpTo, ShutOut, OnlyFills;
      var i := |filters|;
      while i > 1
        invariant Valid() && Content() == old(Content()) && 1 <= i <= |filters| <= |old(filters)|
        invariant i < |filters| ==> cont && !AllZero(filters[|filters| - 1])
        invariant forall j | i <= j < |filters| :: 0 < j && ShutOut(filters, j)
      {
        i := i - 1;
        ghost var fs := filters;
        var emptied := CompactSingleFilter(i);
        forall j | i < j < |filters| ensures ShutOut(filters, j) {
          StillShutOut(fs, filters, i, j);
        }
        if i < |filters| {
          SettledIsShutOut(filters, i);
        }
        if !emptied && !cont {
          break;
        }
      }
      numDeletes := 0;
    }

    /** The item counter is the number of non-empty slots. */
    lemma NumItemsIsOccupied()
      requires Valid()
      ensures numItems == Occupied(filters)
    {
      OccupiedHeld(filters, cells, width, k, e);
    }

    lemma BucketCount()
      requires numBuckets == Pow2(k) && (expansion == Pow2(e) || (expansion == 0 && filters == []))
      ensures numBuckets * Power(expansion, |filters|) == Pow2(Depth(k, e, |filters|))
    {
      if expansion == Pow2(e) {
        PowerIsPow2(k, e, |filters|);
      }
    }
  }

  ghost predicate NotInBucket(sf: SubFilter, width: nat, b: nat, v: nat)
    requires width > 0
  {
    forall p | 0 <= p < |sf| && BucketAt(p, width) == b :: sf[p] != v
  }

  /** No slot of the two candidate buckets holds byte `v`. */
  ghost predicate NotIn(sf: SubFilter, width: nat, h: Hash, v: nat, k: nat)
    requires width > 0
  {
    forall p | 0 <= p < |sf| && Candidate(h, BucketAt(p, width), k) :: sf[p] != v
  }

  /** Slot `p` is the first of bucket `b` that holds byte `v`. */
  ghost predicate FirstOf(sf: SubFilter, width: nat, b: nat, v: nat, p: nat)
    requires width > 0
  {
    && p < |sf| && sf[p] == v && BucketAt(p, width) == b
    && forall q | 0 <= q < p && BucketAt(q, width) == b :: sf[q] != v
  }

  ghost predicate SetOne(was: seq<SubFilter>, now: seq<SubFilter>, i: nat, p: nat, v: nat) {
    i < |was| && p < |was[i]| && now == SetAt(was, i, p, v)
  }

  /** Or of the other candidate bucket of `h`, if the first has none. */
  ghost predicate FirstIn(sf: SubFilter, width: nat, h: Hash, v: nat, k: nat, p: nat)
    requires width > 0
  {
    || FirstOf(sf, width, Low(h, k), v, p)
    || (NotInBucket(sf, width, Low(h, k), v) && FirstOf(sf, width, Low(AltIndex(Fingerprint(h), h), k), v, p))
  }

  /** In none of the first `rounds` rounds of evictions is there an empty slot in the bucket in turn. */
  ghost predicate NoWay(start: Kick, width: nat, k: nat, rounds: nat) {
    && KickOk(start, width, k)
    && forall r | 1 <= r <= rounds ::
         NotInBucket(Rounds(start, width, k, r).sf, width, Rounds(start, width, k, r).idx, 0)
  }

  lemma NoRounds(start: Kick, width: nat, k: nat)
    requires KickOk(start, width, k)
    ensures NoWay(start, width, k, 0)
  {
  }

  lemma NoWayYet(start: Kick, width: nat, k: nat, r: nat)
    requires NoWay(start, width, k, r)
    requires NotInBucket(Rounds(start, width, k, r + 1).sf, width, Rounds(start, width, k, r + 1).idx, 0)
    ensures NoWay(start, width, k, r + 1)
  {
    hide NotInBucket;
  }

  lemma WayFound(start: Kick, width: nat, k: nat, r: nat, p: nat)
    requires KickOk(start, width, k) && r > 0
    requires var t := Rounds(start, width, k, r); p < |t.sf| && BucketAt(p, width) == t.idx && t.sf[p] == 0
    ensures forall rounds | rounds >= r :: !NoWay(start, width, k, rounds)
  {
    hide Rounds, BucketAt;
    assert !NotInBucket(Rounds(start, width, k, r).sf, width, Rounds(start, width, k, r).idx, 0);
  }

  /** In the first `i` sub-filters, non-empty slots keep their bytes. */
  ghost predicate OnlyFills(fs: seq<SubFilter>, gs: seq<SubFilter>, i: nat) {
    && i <= |fs| == |gs|
    && forall j | 0 <= j < i ::
         |gs[j]| == |fs[j]| && forall p | 0 <= p < |fs[j]| :: fs[j][p] != 0 ==> gs[j][p] == fs[j][p]
  }

  lemma NothingFilled(fs: seq<SubFilter>, i: nat)
    requires i <= |fs|
    ensures OnlyFills(fs, fs, i)
  {
  }

  lemma FillsTwice(fs: seq<SubFilter>, gs: seq<SubFilter>, hs: seq<SubFilter>, i: nat)
    requires OnlyFills(fs, gs, i) && OnlyFills(gs, hs, i)
    ensures OnlyFills(fs, hs, i)
  {
    forall j | 0 <= j < i
      ensures |hs[j]| == |fs[j]| && forall p | 0 <= p < |fs[j]| :: fs[j][p] != 0 ==> hs[j][p] == fs[j][p]
    {
      forall p | 0 <= p < |fs[j]| && fs[j][p] != 0 ensures hs[j][p] == fs[j][p] {
        assert gs[j][p] == fs[j][p];
      }
    }
  }

  lemma FirstBucket(sf: SubFilter, width: nat, h: Hash, k: nat)
    requires width > 0 && NotIn(sf, width, h, 0, k)
    ensures NotInBucket(sf, width, Low(h, k), 0) && Candidate(h, Low(h, k), k)
  {
    hide BucketAt;
  }

  ghost predicate ZeroUpTo(sf: SubFilter, n: int) { forall p | 0 <= p < |sf| && p < n :: sf[p] == 0 }

  lemma NextRow(b: nat, width: nat)
    ensures b * width + width == (b + 1) * width
  {
  }

  lemma {:induction false} NoItems(cells: seq<Cell>)
    requires forall p | 0 <= p < |cells| :: ByteOf(cells[p]) == 0
    ensures Items(cells) == multiset{}
  {
    if cells != [] {
      assert ByteOf(cells[|cells| - 1]) == 0;
      NoItems(cells[..|cells| - 1]);
    }
  }

  /** The rounded factor is at least the factor and less than twice as large; 2^16 does not fit and becomes 0. */
  lemma ExpansionFits(x: nat)
    requires 0 < x < 0x1_0000
    ensures var p := Pow2(CeilLog(x));
            && x <= p < 2 * x
            && if x <= 0x8000 then p % 0x1_0000 == p else p % 0x1_0000 == 0
  {
    hide Pow2, CeilLog;
    var k := CeilLog(x);
    CeilBelow(x);
    Pow2Of16();
    if k <= 15 {
      Pow2Mono(k, 15);
    } else {
      Pow2Mono(15, k - 1);
      Pow2Mono(16, k);
      if k > 16 {
        Pow2Mono(16, k - 1);
      }
    }
  }

  lemma Pow2Of16()
    ensures Pow2(15) == 0x8000 && Pow2(16) == 0x1_0000
  {
    assert Pow2(4) == 16 && Pow2(3) == 8;
    hide Pow2;
    Pow2Add(4, 4);
    Pow2Add(8, 4);
    Pow2Add(12, 3);
    Pow2Add(8, 8);
  }

  lemma CeilBelow(n: nat)
    ensures n > 0 ==> Pow2(CeilLog(n)) < 2 * n
    ensures Pow2(CeilLog(n)) > 1 ==> Pow2(CeilLog(n)) < 2 * n
  {
    hide CeilLog;
    var k := CeilLog(n);
    if k > 0 {
      assert Pow2(k) == 2 * Pow2(k - 1);
    }
  }

  lemma GrowthFits(growth: nat, n: nat)
    requires n > 0
    ensures growth > MAX_BUCKETS / n <==> n * growth > MAX_BUCKETS
  {
    var q := MAX_BUCKETS / n;
    if growth > q {
      MulMono(q + 1, growth, n);
    } else {
      MulMono(growth, q, n);
    }
  }

  lemma HeldAppend(cells: seq<seq<Cell>>, c: seq<Cell>)
    ensures Held(cells + [c]) == Held(cells) + Items(c)
  {
    assert (cells + [c])[..|cells|] == cells;
  }
}
