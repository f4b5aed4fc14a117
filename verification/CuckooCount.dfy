/** CuckooFilter::Count: how often an item is held, from below. */
module CuckooCount {
  import opened Arith
  import opened Bits
  import opened Keys
  import opened CuckooIndex
  import opened CuckooCells
  import opened Cuckoo

  /** Slots below `n` that hold byte `v` and lie in bucket `b`. */
  ghost function InBucket(sf: SubFilter, width: nat, b: nat, v: nat, n: nat): nat
    requires width > 0 && n <= |sf|
  {
    if n == 0 then 0 else
      InBucket(sf, width, b, v, n - 1) + if sf[n - 1] == v && BucketAt(n - 1, width) == b then 1 else 0
  }

  /** Slots below `n` that hold byte `v` and lie in one of two buckets. */
  ghost function InEither(sf: SubFilter, width: nat, b: nat, c: nat, v: nat, n: nat): nat
    requires width > 0 && n <= |sf|
  {
    if n == 0 then 0 else
      InEither(sf, width, b, c, v, n - 1)
      + if sf[n - 1] == v && (BucketAt(n - 1, width) == b || BucketAt(n - 1, width) == c) then 1 else 0
  }

  lemma {:induction false} EitherIsSum(sf: SubFilter, width: nat, b: nat, c: nat, v: nat, n: nat)
    requires width > 0 && n <= |sf|
    ensures InEither(sf, width, b, c, v, n)
            == InBucket(sf, width, b, v, n) + if b == c then 0 else InBucket(sf, width, c, v, n)
  {
    if n > 0 {
      hide BucketAt;
      EitherIsSum(sf, width, b, c, v, n - 1);
    }
  }

  /** Outside its range a bucket has no slots. */
  lemma {:induction false} SameCount(sf: SubFilter, width: nat, b: nat, v: nat, m: nat, n: nat)
    requires width > 0 && m <= n <= |sf| && (n <= b * width || b * width + width <= m)
    ensures InBucket(sf, width, b, v, m) == InBucket(sf, width, b, v, n)
  {
    if m < n {
      hide BucketAt;
      BucketRange(n - 1, b, width);
      SameCount(sf, width, b, v, m, n - 1);
    }
  }

  /** The matching slots of one sub-filter of 2^d buckets. */
  ghost function MatchesIn(sf: SubFilter, width: nat, h: Hash, d: nat): nat
    requires width > 0
  {
    InEither(sf, width, Low(h, d), Low(AltIndex(Fingerprint(h), h), d), Fingerprint(h), |sf|)
  }

  /** The matching slots of the first `i` sub-filters. */
  ghost function Matches(f: Filter, h: Hash, i: nat): nat
    requires f.width > 0 && i <= |f.filters|
    reads f
  {
    if i == 0 then 0 else Matches(f, h, i - 1) + MatchesIn(f.filters[i - 1], f.width, h, Depth(f.k, f.e, i - 1))
  }

  lemma {:induction false} ItemsMatch(sf: SubFilter, cells: seq<Cell>, width: nat, h: Hash, d: nat, n: nat)
    requires width > 0 && FilterOk(sf, cells, width, d) && n <= |sf|
    ensures Items(cells[..n])[h] <= InEither(sf, width, Low(h, d), Low(AltIndex(Fingerprint(h), h), d),
                                             Fingerprint(h), n)
  {
    if n > 0 {
      hide BucketAt, Low, AltIndex, Fingerprint;
      ItemsMatch(sf, cells, width, h, d, n - 1);
      assert cells[..n][..n - 1] == cells[..n - 1];
    }
  }

  lemma {:induction false} HeldMatches(f: Filter, h: Hash, i: nat)
    requires f.Shaped() && i <= |f.filters|
    ensures |f.cells| == |f.filters| && Held(f.cells[..i])[h] <= Matches(f, h, i)
  {
    hide Items, InEither, Depth, Low, AltIndex, Fingerprint, Candidate, Pow2, BucketAt, ByteOf;
    if i > 0 {
      HeldMatches(f, h, i - 1);
      assert f.cells[..i][..i - 1] == f.cells[..i - 1];
      var (sf, c, d) := (f.filters[i - 1], f.cells[i - 1], Depth(f.k, f.e, i - 1));
      assert FilterOk(sf, c, f.width, d);
      ItemsMatch(sf, c, f.width, h, d, |sf|);
      assert c[..|sf|] == c;
    }
  }

  /** The matching slots of a sub-filter of 2^d buckets whose two candidate buckets are one. */
  ghost function DoubledIn(sf: SubFilter, width: nat, h: Hash, d: nat): nat
    requires width > 0
  {
    if Low(h, d) == Low(AltIndex(Fingerprint(h), h), d)
    then InBucket(sf, width, Low(h, d), Fingerprint(h), |sf|) else 0
  }

  ghost function Doubled(f: Filter, h: Hash, i: nat): nat
    requires f.width > 0 && i <= |f.filters|
    reads f
  {
    if i == 0 then 0 else Doubled(f, h, i - 1) + DoubledIn(f.filters[i - 1], f.width, h, Depth(f.k, f.e, i - 1))
  }

  /** Slot `p` of sub-filter `i` matches and lies in a bucket that is both candidates at once. */
  ghost predicate TwiceAt(f: Filter, h: Hash, i: nat, p: nat)
    requires f.width > 0 && i < |f.filters|
    reads f
  {
    var d := Depth(f.k, f.e, i);
    && p < |f.filters[i]| && f.filters[i][p] == Fingerprint(h) && BucketAt(p, f.width) == Low(h, d)
    && Fingerprint(h) % Pow2(d) == 0
  }

  /** One of the first `n` sub-filters has a number of buckets that divides the fingerprint, and a matching slot. */
  ghost predicate CountsTwice(f: Filter, h: Hash, n: nat)
    requires f.width > 0 && n <= |f.filters|
    reads f
  {
    exists i: nat, p: nat | i < n :: TwiceAt(f, h, i, p)
  }

  lemma {:induction false} InBucketIff(sf: SubFilter, width: nat, b: nat, v: nat, n: nat)
    requires width > 0 && n <= |sf|
    ensures InBucket(sf, width, b, v, n) > 0 <==> exists p: nat | p < n :: sf[p] == v && BucketAt(p, width) == b
  {
    if n > 0 {
      hide BucketAt;
      InBucketIff(sf, width, b, v, n - 1);
    }
  }

  lemma {:induction false} DoubledIff(f: Filter, h: Hash, n: nat)
    requires f.width > 0 && n <= |f.filters|
    ensures Doubled(f, h, n) > 0 <==> CountsTwice(f, h, n)
  {
    hide BucketAt, Low, AltIndex, Fingerprint, Depth, InBucket, Pow2;
    if n > 0 {
      DoubledIff(f, h, n - 1);
      var (sf, d) := (f.filters[n - 1], Depth(f.k, f.e, n - 1));
      CandidatesMeet(h, d);
      InBucketIff(sf, f.width, Low(h, d), Fingerprint(h), |sf|);
      if p: nat :| p < |sf| && sf[p] == Fingerprint(h) && BucketAt(p, f.width) == Low(h, d) {
        assert Fingerprint(h) % Pow2(d) == 0 ==> TwiceAt(f, h, n - 1, p);
      }
    }
  }

  /** With 256 buckets or more the two candidates differ in every sub-filter. */
  lemma ManyBuckets(f: Filter, h: Hash)
    requires f.Shaped() && f.numBuckets >= 256
    ensures !CountsTwice(f, h, |f.filters|)
  {
    hide BucketAt, Low, AltIndex, Fingerprint, Pow2, ChainOk;
    SevenBits();
    if f.k < 8 {
      Pow2Mono(f.k, 7);
    }
    forall i: nat, p: nat | i < |f.filters| ensures !TwiceAt(f, h, i, p) {
      DepthMono(f.k, f.e, 0, i);
      assert Depth(f.k, f.e, 0) == f.k;
      CandidatesMeet(h, Depth(f.k, f.e, i));
    }
  }

  lemma SevenBits()
    ensures Pow2(7) == 128
  {
    assert Pow2(7) == 2 * Pow2(6) == 4 * Pow2(5) == 8 * Pow2(4);
    assert Pow2(4) == 16;
  }

  method CountBucket(f: Filter, i: nat, b: nat, v: nat) returns (c: nat)
    requires f.Shaped() && i < |f.filters| && b < Pow2(Depth(f.k, f.e, i))
    ensures c == InBucket(f.filters[i], f.width, b, v, |f.filters[i]|)
  {
    hide Depth, Pow2, Held, Candidate, BucketAt, ChainOk;
    f.Length(i);
    SlotOf(b, f.width - 1, f.width, Pow2(Depth(f.k, f.e, i)));
    var base := b * f.width;
    var sf := f.filters[i];
    SameCount(sf, f.width, b, v, 0, base);
    c := 0;
    for s := 0 to f.width
      invariant c == InBucket(sf, f.width, b, v, base + s)
    {
      BucketRange(base + s, b, f.width);
      if sf[base + s] == v {
        c := c + 1;
      }
    }
    SameCount(sf, f.width, b, v, base + f.width, |sf|);
  }

  /** CuckooFilter::Count. It is never below the number of copies held. It is the number of matching slots, plus
      those that lie in a bucket that is both candidates at once, which are counted twice; this happens exactly
      when the number of buckets divides the fingerprint, and so never with 256 buckets or more. */
  method Count(f: Filter, h: Hash) returns (r: nat)
    requires f.Valid()
    ensures r == Matches(f, h, |f.filters|) + Doubled(f, h, |f.filters|)
    ensures f.Content()[h] <= Matches(f, h, |f.filters|) <= r
    ensures r == Matches(f, h, |f.filters|) <==> !CountsTwice(f, h, |f.filters|)
    ensures f.numBuckets >= 256 ==> r == Matches(f, h, |f.filters|)
  {
    hide Depth, Pow2, Held, Low, AltIndex, Fingerprint, ChainOk, InEither, InBucket;
    r := 0;
    for i: nat := 0 to |f.filters|
      invariant r == Matches(f, h, i) + Doubled(f, h, i)
    {
      ghost var d := Depth(f.k, f.e, i);
      var n := f.BucketsIn(i);
      LowIsMod(h, d);
      LowIsMod(AltIndex(Fingerprint(h), h), d);
      var i1, i2 := h % n, AltIndex(Fingerprint(h), h) % n;
      var a := CountBucket(f, i, i1, Fingerprint(h));
      var b := CountBucket(f, i, i2, Fingerprint(h));
      EitherIsSum(f.filters[i], f.width, i1, i2, Fingerprint(h), |f.filters[i]|);
      r := r + a + b;
    }
    HeldMatches(f, h, |f.filters|);
    assert f.cells[..|f.filters|] == f.cells;
    DoubledIff(f, h, |f.filters|);
    if f.numBuckets >= 256 {
      ManyBuckets(f, h);
    }
  }

  lemma OneSlot(f: Filter, h: Hash)
    requires f.Shaped() && f.width == 1 && f.numBuckets == 1 && |f.filters| == 1 && f.Content()[h] > 0
    ensures Matches(f, h, 1) == 1 && Doubled(f, h, 1) == 1
  {
    hide Held, AltIndex, Fingerprint, ChainOk, BucketAt, Low;
    f.Length(0);
    HeldMatches(f, h, 1);
    assert f.cells[..1] == f.cells;
    assert Depth(f.k, f.e, 0) == f.k == 0;
    var (sf, fp) := (f.filters[0], Fingerprint(h));
    assert Low(h, 0) == 0 && Low(AltIndex(fp, h), 0) == 0;
    EitherIsSum(sf, 1, 0, 0, fp, 1);
  }

  /** One bucket of one slot: an item added once is counted twice. */
  method CountOfOne(h: Hash) returns (f: Filter, r: nat)
    ensures fresh(f) && f.Valid() && |f.filters| == 1 && f.Content() == multiset{h}
    ensures Matches(f, h, 1) == 1 && r == 2
  {
    hide Depth, Held, Low, AltIndex, Fingerprint, ChainOk, FilterOk, Filter.Hopeless;
    assert CeilLog(1) == 0 && Pow2(0) == 1;
    f := new Filter(1, 1, 0, 0);
    f.EmptyHasRoom(0, h);
    var ok := f.Insert(h);
    OneSlot(f, h);
    r := Count(f, h);
  }
}
