/** Dumping a scalable Bloom filter in chunks and loading it again. */
module Bloom {
  import Arith
  import opened LittleEndian

  /** One filter: its number of hash functions and its bytes. */
  datatype Filter = Filter(hashCnt: nat, data: seq<Byte>)

  /** Floating-point fields are their 64-bit patterns; positive finite numbers are ordered as their patterns are. */
  datatype Scalars = Scalars(fpProb: nat, maxCapacity: nat, currentSize: nat, prevSize: nat)

  datatype Sbf = Sbf(filters: seq<Filter>, grow: nat, state: Scalars)

  datatype Chunk = Chunk(cursor: nat, data: seq<Byte>)

  datatype LoadResult = Ok | BadInput | OutOfRange | TruncatedInput | BadVersion

  const VERSION := 1
  const HEADER_SIZE := 12
  const META_SIZE := 44
  const ONE := 0x3ff0_0000_0000_0000          // 1.0
  const INFINITY := 0x7ff0_0000_0000_0000
  const MAX_FP := 0x3fe0_0000_0000_0000       // 0.5, kMaxSBFFpProb
  const CURSOR_LIMIT := 0x8000_0000_0000_0000 // a cursor is a signed 64-bit number

  /** The 44 bytes before the data of a filter. */
  function Meta(f: Filter, s: Scalars): (r: seq<Byte>)
    ensures |r| == META_SIZE
  {
    Bytes(f.hashCnt, 4) + Bytes(|f.data|, 8) + Bytes(s.fpProb, 8) + Bytes(s.maxCapacity, 8)
    + Bytes(s.currentSize, 8) + Bytes(s.prevSize, 8)
  }

  predicate SingleBit(n: nat) { n == 1 || (n > 0 && n % 2 == 0 && SingleBit(n / 2)) }

  lemma {:induction false} PowerHasSingleBit(k: nat)
    ensures SingleBit(Arith.Pow2(k))
  {
    if k > 0 {
      PowerHasSingleBit(k - 1);
      assert Arith.Pow2(k) / 2 == Arith.Pow2(k - 1);
    }
  }

  lemma {:induction false} PowerOf(n: nat) returns (k: nat)
    requires SingleBit(n)
    ensures n == Arith.Pow2(k)
  {
    if n == 1 {
      return 0;
    }
    k := PowerOf(n / 2);
    k := k + 1;
  }

  /** The data of a filter is a power of two long. */
  lemma SingleBitIsPower(n: nat)
    ensures SingleBit(n) <==> exists k: nat :: n == Arith.Pow2(k)
  {
    if SingleBit(n) {
      var k := PowerOf(n);
      assert n == Arith.Pow2(k);
    }
    if k: nat :| n == Arith.Pow2(k) {
      PowerHasSingleBit(k);
    }
  }

  /** What SBF::Add keeps: the loader accepts nothing else. */
  ghost predicate FilterOk(f: Filter) {
    1 <= f.hashCnt < 256 && |f.data| < WORD && SingleBit(|f.data|)
  }

  ghost predicate ScalarsOk(s: Scalars) {
    && 0 < s.fpProb <= MAX_FP && s.currentSize < s.maxCapacity < WORD && s.prevSize < WORD
  }

  ghost predicate SbfOk(s: Sbf) {
    && s.filters != [] && (forall i | 0 <= i < |s.filters| :: FilterOk(s.filters[i]))
    && ScalarsOk(s.state) && ONE <= s.grow < INFINITY
  }

  // ---- positions in the dump ------------------------------------------------------------

  function Span(f: Filter): nat { META_SIZE + |f.data| }

  /** Where filter `i` begins in the stream of all filters. */
  ghost function Start(fs: seq<Filter>, i: nat): nat
    requires i <= |fs|
  {
    if i == 0 then 0 else Start(fs, i - 1) + Span(fs[i - 1])
  }

  /** The filter an offset of the stream falls into, and the offset in it. */
  ghost function Resolve(fs: seq<Filter>, i: nat, off: nat): (nat, nat)
    requires i <= |fs|
    decreases |fs| - i
  {
    if i == |fs| then (i, 0)
    else if off < Span(fs[i]) then (i, off)
    else Resolve(fs, i + 1, off - Span(fs[i]))
  }

  lemma {:induction false} ResolveStart(fs: seq<Filter>, i: nat, k: nat, off: nat)
    requires i <= k <= |fs| && (k < |fs| ==> off < Span(fs[k])) && (k == |fs| ==> off == 0)
    ensures Start(fs, k) >= Start(fs, i) && Resolve(fs, i, Start(fs, k) - Start(fs, i) + off) == (k, off)
    decreases k - i
  {
    StartGrows(fs, i, k);
    if i < k {
      ResolveStart(fs, i + 1, k, off);
      StartGrows(fs, i + 1, k);
    }
  }

  lemma {:induction false} StartGrows(fs: seq<Filter>, i: nat, k: nat)
    requires i <= k <= |fs|
    ensures Start(fs, i) <= Start(fs, k)
  {
    if i < k {
      StartGrows(fs, i, k - 1);
    }
  }

  /** Filters of the same lengths begin at the same places. */
  lemma {:induction false} StartSame(fs: seq<Filter>, gs: seq<Filter>, i: nat)
    requires i <= |fs| && i <= |gs| && forall j | 0 <= j < i :: |fs[j].data| == |gs[j].data|
    ensures Start(fs, i) == Start(gs, i)
  {
    if i > 0 {
      StartSame(fs, gs, i - 1);
    }
  }

  function Min(a: nat, b: nat): nat { if a < b then a else b }

  /** The chunk at offset `b` of filter `i`. */
  ghost function FilterChunk(s: Sbf, i: nat, b: nat, limit: nat): seq<Byte>
    requires i < |s.filters| && limit > META_SIZE && (b == 0 || META_SIZE <= b < Span(s.filters[i]))
  {
    var f := s.filters[i];
    if b == 0 then Meta(f, s.state) + f.data[..Min(limit - META_SIZE, |f.data|)]
    else f.data[b - META_SIZE..b - META_SIZE + Min(limit, Span(f) - b)]
  }

  /** What Next returns from a cursor; it depends on nothing else. */
  ghost function ChunkAt(s: Sbf, cursor: nat, limit: nat): Chunk
    requires limit > META_SIZE
  {
    if cursor == 0 then Chunk(1, Bytes(VERSION, 4) + Bytes(s.grow, 8))
    else
      var (i, b) := Resolve(s.filters, 0, cursor - 1);
      if i >= |s.filters| || 0 < b < META_SIZE || b >= Span(s.filters[i]) then Chunk(0, [])
      else
        var data := FilterChunk(s, i, b, limit);
        Chunk(cursor + |data|, data)
  }

  // ---- the dump iterator ----------------------------------------------------------------

  class DumpIterator {
    const sbf: Sbf
    const limit: nat          // kMaxChunkSize
    var cursor: int
    var filterIndex: nat
    var byteOffset: nat

    /** The position is the one the cursor stands for. */
    ghost predicate Valid()
      reads this
    {
      && limit > META_SIZE && sbf.filters != []
      && (cursor == 0 ==> filterIndex == 0 && byteOffset == 0)
      && (cursor > 0 ==> (filterIndex, byteOffset) == Resolve(sbf.filters, 0, cursor - 1))
      && (cursor < 0 ==> filterIndex == |sbf.filters| && byteOffset == 0)
    }

    /** Starts anywhere: from 0, from a cursor an earlier iterator returned, or from any other signed 64-bit number. */
    constructor (sbf: Sbf, limit: nat, cursor: int)
      requires limit > META_SIZE && sbf.filters != [] && -CURSOR_LIMIT <= cursor < CURSOR_LIMIT
      requires cursor < 0 ==> Start(sbf.filters, |sbf.filters|) < CURSOR_LIMIT
      ensures Valid() && this.sbf == sbf && this.limit == limit && this.cursor == cursor
    {
      this.sbf, this.limit, this.cursor := sbf, limit, cursor;
      filterIndex, byteOffset := 0, 0;
      new;
      if cursor != 0 {
        ResolveCursorToPos();
      }
    }

    method ResolveCursorToPos()
      requires limit > META_SIZE && sbf.filters != [] && -CURSOR_LIMIT <= cursor < CURSOR_LIMIT && cursor != 0
      requires cursor < 0 ==> Start(sbf.filters, |sbf.filters|) < CURSOR_LIMIT
      modifies this`filterIndex, this`byteOffset
      ensures Valid()
    {
      // the conversion to an unsigned number takes a negative cursor behind all filters
      var offset: nat := if cursor > 0 then cursor - 1 else 2 * CURSOR_LIMIT + cursor - 1;
      ghost var from := offset;
      if cursor < 0 {
        ResolveBehind(sbf.filters, from);
      }
      for i := 0 to |sbf.filters|
        invariant Resolve(sbf.filters, i, offset) == Resolve(sbf.filters, 0, from)
      {
        var span := Span(sbf.filters[i]);
        if offset < span {
          filterIndex, byteOffset := i, offset;
          return;
        }
        offset := offset - span;
      }
      filterIndex, byteOffset := |sbf.filters|, 0;
    }

    /** SBFDumpIterator::Next. */
    method Next() returns (r: Chunk)
      requires Valid()
      modifies this`cursor, this`filterIndex, this`byteOffset
      ensures Valid() && r == if old(cursor) < 0 then Chunk(0, []) else ChunkAt(sbf, old(cursor), limit)
      ensures r.cursor != 0 ==> cursor == r.cursor
    {
      hide Bytes, Meta, Resolve, Start;
      if cursor == 0 {
        cursor := 1;
        ResolveStart(sbf.filters, 0, 0, 0);
        StartZero(sbf.filters);
        return Chunk(1, Bytes(VERSION, 4) + Bytes(sbf.grow, 8));
      }
      if cursor < 0 {
        return Chunk(0, []);
      }
      ResolveInRange(sbf.filters, 0, cursor - 1);
      StartZero(sbf.filters);
      if filterIndex < |sbf.filters| {
        if 0 < byteOffset < META_SIZE {
          return Chunk(0, []);
        }
        var data := BuildChunk();
        NextPosition(sbf, filterIndex, byteOffset, limit);
        byteOffset, cursor := byteOffset + |data|, cursor + |data|;
        if byteOffset == META_SIZE + |sbf.filters[filterIndex].data| {
          filterIndex, byteOffset := filterIndex + 1, 0;
        }
        return Chunk(cursor, data);
      }
      return Chunk(0, []);
    }

    /** BuildFilterHeader and BuildFilterContinuation. */
    method BuildChunk() returns (data: seq<Byte>)
      requires limit > META_SIZE && filterIndex < |sbf.filters|
      requires byteOffset == 0 || META_SIZE <= byteOffset < Span(sbf.filters[filterIndex])
      ensures data == FilterChunk(sbf, filterIndex, byteOffset, limit)
    {
      var f := sbf.filters[filterIndex];
      if byteOffset == 0 {
        data := Meta(f, sbf.state) + f.data[..Min(limit - META_SIZE, |f.data|)];
      } else {
        var from := byteOffset - META_SIZE;
        data := f.data[from..from + Min(limit, |f.data| - from)];
      }
    }
  }

  /** The position behind a chunk: in the same filter, or at the next one. */
  ghost function Behind(s: Sbf, i: nat, b: nat, limit: nat): (nat, nat)
    requires i < |s.filters| && limit > META_SIZE && (b == 0 || META_SIZE <= b < Span(s.filters[i]))
  {
    var e := b + |FilterChunk(s, i, b, limit)|;
    if e == Span(s.filters[i]) then (i + 1, 0) else (i, e)
  }

  lemma NextPosition(s: Sbf, i: nat, b: nat, limit: nat)
    requires i < |s.filters| && limit > META_SIZE && (b == 0 || META_SIZE <= b < Span(s.filters[i]))
    ensures var n := |FilterChunk(s, i, b, limit)|;
            && 0 < n <= limit && b + n <= Span(s.filters[i])
            && Resolve(s.filters, 0, Start(s.filters, i) + b + n) == Behind(s, i, b, limit)
  {
    hide Bytes, Meta, Resolve;
    var (k, c) := Behind(s, i, b, limit);
    ResolveStart(s.filters, 0, k, c);
  }

  lemma {:induction false} ResolveInRange(fs: seq<Filter>, i: nat, off: nat)
    requires i <= |fs|
    ensures var (k, b) := Resolve(fs, i, off);
            && i <= k <= |fs| && (k < |fs| ==> b < Span(fs[k]) && off == Start(fs, k) - Start(fs, i) + b)
            && (k == |fs| ==> b == 0)
    decreases |fs| - i
  {
    if i < |fs| && off >= Span(fs[i]) {
      ResolveInRange(fs, i + 1, off - Span(fs[i]));
    }
  }

  lemma ResolveBehind(fs: seq<Filter>, off: nat)
    requires off >= Start(fs, |fs|)
    ensures Resolve(fs, 0, off) == (|fs|, 0)
  {
    hide Resolve;
    ResolveInRange(fs, 0, off);
    StartZero(fs);
    var (k, b) := Resolve(fs, 0, off);
    if k < |fs| {
      StartGrows(fs, k + 1, |fs|);
    }
  }

  // ---- the loader -----------------------------------------------------------------------

  /** SBFFilterMeta::Parse gives back what was written. */
  lemma ParseMeta(f: Filter, s: Scalars, rest: seq<Byte>)
    requires FilterOk(f) && ScalarsOk(s)
    ensures var d := Meta(f, s) + rest;
            && Value(d[0..4]) == f.hashCnt && Value(d[4..12]) == |f.data| && Value(d[12..20]) == s.fpProb
            && Value(d[20..28]) == s.maxCapacity && Value(d[28..36]) == s.currentSize && Value(d[36..44]) == s.prevSize
  {
    Limits();
    hide Bytes, Value, Limit, SingleBit;
    var d := Meta(f, s) + rest;
    assert d[0..4] == Bytes(f.hashCnt, 4) && d[4..12] == Bytes(|f.data|, 8) && d[12..20] == Bytes(s.fpProb, 8);
    assert d[20..28] == Bytes(s.maxCapacity, 8) && d[28..36] == Bytes(s.currentSize, 8)
           && d[36..44] == Bytes(s.prevSize, 8);
    ValueOfBytes(f.hashCnt, 4);
    ValueOfBytes(|f.data|, 8);
    ValueOfBytes(s.fpProb, 8);
    ValueOfBytes(s.maxCapacity, 8);
    ValueOfBytes(s.currentSize, 8);
    ValueOfBytes(s.prevSize, 8);
  }

  function Zeros(n: nat): (r: seq<Byte>)
    ensures |r| == n
  {
    if n == 0 then [] else Zeros(n - 1) + [0]
  }

  /** The beginning of a buffer is overwritten from `at` on. */
  function Patch(buf: seq<Byte>, at: nat, data: seq<Byte>): seq<Byte>
    requires at + |data| <= |buf|
  {
    buf[..at] + data + buf[at + |data|..]
  }

  /** LoadSBFHeader. */
  method LoadHeader(data: seq<Byte>) returns (res: LoadResult, grow: nat)
    ensures |data| < HEADER_SIZE <==> res == TruncatedInput
    ensures |data| == HEADER_SIZE && Value(data[0..4]) != VERSION <==> res == BadVersion
    ensures |data| == HEADER_SIZE && Value(data[0..4]) == VERSION && ONE <= Value(data[4..12]) < INFINITY <==> res == Ok
    ensures res == Ok ==> grow == Value(data[4..12])
    ensures res != OutOfRange
  {
    grow := 0;
    if |data| < HEADER_SIZE {
      return TruncatedInput, 0;
    }
    if |data| > HEADER_SIZE {
      return BadInput, 0;
    }
    if Value(data[0..4]) != VERSION {
      return BadVersion, 0;
    }
    grow := Value(data[4..12]);
    if !(ONE <= grow < INFINITY) {
      return BadInput, grow;
    }
    return Ok, grow;
  }

  class Target {
    var filters: seq<Filter>
    var grow: nat
    var state: Scalars

    constructor (grow: nat)
      ensures filters == [] && this.grow == grow && state == Scalars(0, 0, 0, 0)
    {
      filters, this.grow, state := [], grow, Scalars(0, 0, 0, 0);
    }

    /** AddNewFilterToSBF: a chunk that begins with metadata opens a new filter. */
    method AddNewFilter(data: seq<Byte>) returns (res: LoadResult)
      modifies this`filters, this`state
      ensures res != Ok ==> filters == old(filters) && state == old(state)
      ensures res == Ok ==> |data| >= META_SIZE && state == Fields(data)
                            && filters == old(filters) + [Filter(Value(data[0..4]), Patch0(data))]
      ensures res == Verdict(data)
    {
      hide Value;
      if |data| < META_SIZE {
        return TruncatedInput;
      }
      var hashCnt, length, s := Value(data[0..4]), Value(data[4..12]), Fields(data);
      if hashCnt == 0 || hashCnt > 255 || !SingleBit(length) {
        return BadInput;
      }
      if !(0 < s.fpProb <= MAX_FP) || s.maxCapacity == 0 || s.currentSize >= s.maxCapacity {
        return BadInput;
      }
      var payload := |data| - META_SIZE;
      if payload > length {
        return OutOfRange;
      }
      state := s;
      filters := filters + [Filter(hashCnt, Patch(Zeros(length), 0, data[META_SIZE..]))];
      return Ok;
    }

    /** LoadSBFChunk. */
    method LoadChunk(cursor: int, data: seq<Byte>) returns (res: LoadResult)
      modifies this`filters, this`state
      ensures res != Ok ==> filters == old(filters) && state == old(state)
      ensures cursor <= |data| ==> res == OutOfRange
      ensures cursor > |data| ==>
                var (i, b) := Resolve(old(filters), 0, cursor - |data| - 1);
                && (i < |old(filters)| ==>
                      && res == (if META_SIZE <= b && b - META_SIZE + |data| <= |old(filters)[i].data| then Ok
                                 else OutOfRange)
                      && (res == Ok ==>
                            state == old(state) && filters == old(filters)[i := Patched(old(filters)[i], b, data)]))
                && (i == |old(filters)| ==>
                      && res == (if cursor - |data| - 1 == Start(old(filters), i) then Verdict(data) else OutOfRange)
                      && (res == Ok ==> state == Fields(data)
                                        && filters == old(filters) + [Filter(Value(data[0..4]), Patch0(data))]))
    {
      hide Value, Patch;
      var writePos := cursor - |data|;
      if writePos < 1 {
        return OutOfRange;
      }
      var offset: nat := writePos - 1;
      ResolveInRange(filters, 0, offset);
      for i := 0 to |filters|
        invariant filters == old(filters) && state == old(state)
        invariant Resolve(filters, i, offset) == Resolve(filters, 0, writePos - 1)
        invariant offset + Start(filters, i) == writePos - 1
      {
        var span := Span(filters[i]);
        if offset < span {
          if offset < META_SIZE {
            return OutOfRange;
          }
          var at := offset - META_SIZE;
          if at + |data| > |filters[i].data| {
            return OutOfRange;
          }
          filters := filters[i := filters[i].(data := Patch(filters[i].data, at, data))];
          return Ok;
        }
        offset := offset - span;
      }
      if offset != 0 {
        return OutOfRange;
      }
      res := AddNewFilter(data);
    }
  }

  function Fields(data: seq<Byte>): Scalars
    requires |data| >= META_SIZE
  {
    Scalars(Value(data[12..20]), Value(data[20..28]), Value(data[28..36]), Value(data[36..44]))
  }

  ghost predicate MetaOk(data: seq<Byte>)
    requires |data| >= META_SIZE
  {
    var (h, n, s) := (Value(data[0..4]), Value(data[4..12]), Fields(data));
    1 <= h < 256 && SingleBit(n) && 0 < s.fpProb <= MAX_FP && s.currentSize < s.maxCapacity
  }

  /** The verdict on a chunk that is to open a filter. */
  ghost function Verdict(data: seq<Byte>): LoadResult {
    if |data| < META_SIZE then TruncatedInput
    else if !MetaOk(data) then BadInput
    else if |data| - META_SIZE > Value(data[4..12]) then OutOfRange
    else Ok
  }

  /** The bytes of a filter that a first chunk opens: its payload, then zeros. */
  ghost function Patch0(data: seq<Byte>): seq<Byte>
    requires |data| >= META_SIZE
  {
    var n := Value(data[4..12]);
    if |data| - META_SIZE <= n then Patch(Zeros(n), 0, data[META_SIZE..]) else []
  }

  ghost function Patched(f: Filter, b: nat, data: seq<Byte>): Filter {
    if META_SIZE <= b && b - META_SIZE + |data| <= |f.data| then f.(data := Patch(f.data, b - META_SIZE, data)) else f
  }

  // ---- the round trip -------------------------------------------------------------------

  /** What has been loaded when the dump stands at offset `b` of filter `i`. */
  ghost predicate Loaded(fs: seq<Filter>, st: Scalars, s: Sbf, i: nat, b: nat) {
    && i <= |s.filters| && |fs| == i + (if b > 0 then 1 else 0) <= |s.filters|
    && (fs != [] ==> st == s.state)
    && (forall k | 0 <= k < i :: fs[k] == s.filters[k])
    && (b > 0 ==> META_SIZE < b < Span(s.filters[i]) && fs[i].hashCnt == s.filters[i].hashCnt
                  && |fs[i].data| == |s.filters[i].data|
                  && fs[i].data[..b - META_SIZE] == s.filters[i].data[..b - META_SIZE])
  }

  /** The first chunk of a filter opens it. */
  lemma OpensFilter(s: Sbf, fs: seq<Filter>, st: Scalars, i: nat, limit: nat)
    requires SbfOk(s) && i < |s.filters| && limit > META_SIZE && Loaded(fs, st, s, i, 0)
    ensures var d := FilterChunk(s, i, 0, limit);
            var (k, c) := Behind(s, i, 0, limit);
            && |d| >= META_SIZE && Verdict(d) == Ok && Start(fs, i) == Start(s.filters, i)
            && Loaded(fs + [Filter(Value(d[0..4]), Patch0(d))], Fields(d), s, k, c)
  {
    hide Bytes, Meta, Value, SingleBit, Start, Verdict;
    var (f, d) := (s.filters[i], FilterChunk(s, i, 0, limit));
    var payload := f.data[..Min(limit - META_SIZE, |f.data|)];
    ParseMeta(f, s.state, payload);
    StartSame(fs, s.filters, i);
    FirstIsOk(s, i, limit);
    assert d[META_SIZE..] == payload;
    SingleBitPositive(|f.data|);
  }

  lemma FirstIsOk(s: Sbf, i: nat, limit: nat)
    requires SbfOk(s) && i < |s.filters| && limit > META_SIZE
    ensures Verdict(FilterChunk(s, i, 0, limit)) == Ok
  {
    hide Bytes, Meta, Value, SingleBit;
    var f := s.filters[i];
    ParseMeta(f, s.state, f.data[..Min(limit - META_SIZE, |f.data|)]);
  }

  lemma SingleBitPositive(n: nat)
    requires SingleBit(n)
    ensures n > 0
  {
  }

  /** Every later chunk fills in its bytes. */
  lemma ContinuesFilter(s: Sbf, fs: seq<Filter>, st: Scalars, i: nat, b: nat, limit: nat)
    requires i < |s.filters| && limit > META_SIZE && b > 0 && Loaded(fs, st, s, i, b)
    ensures var d := FilterChunk(s, i, b, limit);
            var (k, c) := Behind(s, i, b, limit);
            && Resolve(fs, 0, Start(s.filters, i) + b) == (i, b) && b - META_SIZE + |d| <= |fs[i].data|
            && Loaded(fs[i := Patched(fs[i], b, d)], st, s, k, c)
  {
    hide Bytes, Meta, Start, Resolve;
    var d := FilterChunk(s, i, b, limit);
    StartSame(fs, s.filters, i);
    ResolveStart(fs, 0, i, b);
    assert Start(fs, 0) == 0 by {
      StartZero(fs);
    }
    PatchedPrefix(fs[i].data, s.filters[i].data, b - META_SIZE, |d|);
  }

  lemma StartZero(fs: seq<Filter>)
    ensures Start(fs, 0) == 0
  {
  }

  lemma PatchedPrefix(buf: seq<Byte>, data: seq<Byte>, at: nat, n: nat)
    requires |buf| == |data| && at + n <= |data| && buf[..at] == data[..at]
    ensures var r := Patch(buf, at, data[at..at + n]);
            |r| == |data| && r[..at + n] == data[..at + n] && (at + n == |data| ==> r == data)
  {
    var r := Patch(buf, at, data[at..at + n]);
    assert data[..at + n] == data[..at] + data[at..at + n];
    assert r[..at + n] == buf[..at] + data[at..at + n];
    if at + n == |data| {
      assert r == r[..at + n] && data == data[..at + n];
    }
  }

  /** The target holds what the iterator has passed. */
  ghost predicate InStep(it: DumpIterator, t: Target, s: Sbf)
    reads it, t
  {
    && it.Valid() && it.sbf == s && it.cursor > 0 && it.filterIndex <= |s.filters|
    && it.cursor - 1 == Start(s.filters, it.filterIndex) + it.byteOffset
    && Loaded(t.filters, t.state, s, it.filterIndex, it.byteOffset)
  }

  /** Sends one chunk from the dump to the loader. */
  method Transfer(it: DumpIterator, t: Target, ghost s: Sbf) returns (more: bool)
    requires SbfOk(s) && InStep(it, t, s)
    modifies it`cursor, it`filterIndex, it`byteOffset, t`filters, t`state
    ensures more ==> InStep(it, t, s) && it.cursor > old(it.cursor)
    ensures !more ==> t.filters == s.filters && t.state == s.state
  {
    hide Bytes, Meta, Value, Start, Resolve, FilterChunk, SingleBit, Patch0, Loaded, Behind, Verdict, Patched, Fields;
    ghost var (i, b) := (it.filterIndex, it.byteOffset);
    LoadedRange(t.filters, t.state, s, i, b);
    var c := it.Next();
    if c.cursor == 0 {
      return false;
    }
    NextPosition(s, i, b, it.limit);
    BehindStart(s, i, b, it.limit);
    if b == 0 {
      OpensFilter(s, t.filters, t.state, i, it.limit);
      ResolveStart(t.filters, 0, |t.filters|, 0);
      StartZero(t.filters);
    } else {
      ContinuesFilter(s, t.filters, t.state, i, b, it.limit);
    }
    var res := t.LoadChunk(c.cursor, c.data);
    return true;
  }

  lemma LoadedRange(fs: seq<Filter>, st: Scalars, s: Sbf, i: nat, b: nat)
    requires SbfOk(s) && Loaded(fs, st, s, i, b)
    ensures i <= |s.filters| && (i < |s.filters| ==> b == 0 || META_SIZE <= b < Span(s.filters[i]))
    ensures i == |s.filters| ==> b == 0 && fs == s.filters && st == s.state
    ensures b == 0 ==> |fs| == i
    ensures b > 0 ==> i < |fs|
  {
  }

  /** Behind a chunk the offsets add up. */
  lemma BehindStart(s: Sbf, i: nat, b: nat, limit: nat)
    requires i < |s.filters| && limit > META_SIZE && (b == 0 || META_SIZE <= b < Span(s.filters[i]))
    ensures var (k, c) := Behind(s, i, b, limit);
            k <= |s.filters| && Start(s.filters, k) + c == Start(s.filters, i) + b + |FilterChunk(s, i, b, limit)|
  {
    hide FilterChunk;
  }

  lemma HeaderParses(grow: nat)
    requires grow < WORD
    ensures var d := Bytes(VERSION, 4) + Bytes(grow, 8);
            |d| == HEADER_SIZE && Value(d[0..4]) == VERSION && Value(d[4..12]) == grow
  {
    Limits();
    hide Bytes, Value, Limit;
    var d := Bytes(VERSION, 4) + Bytes(grow, 8);
    assert d[0..4] == Bytes(VERSION, 4) && d[4..12] == Bytes(grow, 8);
    ValueOfBytes(VERSION, 4);
    ValueOfBytes(grow, 8);
  }

  lemma NothingLoaded(s: Sbf, st: Scalars)
    requires SbfOk(s)
    ensures Loaded([], st, s, 0, 0)
  {
  }

  /** Loading every chunk of a dump rebuilds the filter: every byte, and the scalar state. */
  method RoundTrip(s: Sbf, limit: nat) returns (t: Target)
    requires SbfOk(s) && limit > META_SIZE
    ensures t.filters == s.filters && t.grow == s.grow && t.state == s.state
  {
    hide Bytes, Meta, Value, Start, Resolve, SingleBit, Loaded;
    var it := new DumpIterator(s, limit, 0);
    var c := it.Next();
    HeaderParses(s.grow);
    var res, grow := LoadHeader(c.data);
    t := new Target(grow);
    ResolveStart(s.filters, 0, 0, 0);
    StartZero(s.filters);
    NothingLoaded(s, t.state);
    var more := true;
    while more
      invariant more ==> InStep(it, t, s)
      invariant !more ==> t.filters == s.filters && t.state == s.state
      invariant t.grow == s.grow
      decreases more, Start(s.filters, |s.filters|) + 1 - it.cursor
    {
      more := Transfer(it, t, s);
      if more {
        CursorBound(it, t, s);
      }
    }
  }

  lemma CursorBound(it: DumpIterator, t: Target, s: Sbf)
    requires SbfOk(s) && InStep(it, t, s)
    ensures it.cursor <= Start(s.filters, |s.filters|) + 1
  {
    hide Loaded, Resolve;
    LoadedRange(t.filters, t.state, s, it.filterIndex, it.byteOffset);
    StartGrows(s.filters, it.filterIndex, |s.filters|);
    if it.filterIndex < |s.filters| {
      StartGrows(s.filters, it.filterIndex + 1, |s.filters|);
    }
  }
}
