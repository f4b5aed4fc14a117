/** The segment directory of extendible hashing, as a pair of sequences: which segment each slot
    names, and that segment's local depth. */
module DashDirectory {
  import opened Arith

  /** Slots `i` and `j` agree on all but their `k` low bits. */
  ghost predicate SameChunk(i: nat, j: nat, k: nat) { Shr(i, k) == Shr(j, k) }

  /** A directory of global depth `g`: two slots name the same segment exactly when they agree on as
      many high bits as that segment's local depth. */
  ghost predicate DirOk<T>(ids: seq<T>, ds: seq<nat>, g: nat) {
    && |ids| == |ds| == Pow2(g)
    && (forall i | 0 <= i < |ds| :: ds[i] <= g)
    && (forall i, j | 0 <= i < |ids| && 0 <= j < |ids| :: ids[i] == ids[j] <==> SameChunk(i, j, g - ds[i]))
    && (forall i, j | 0 <= i < |ids| && 0 <= j < |ids| :: ids[i] == ids[j] ==> ds[i] == ds[j])
  }

  /** First slot of the chunk slot `i` lies in. */
  function ChunkStart(i: nat, k: nat): nat { Shl(Shr(i, k), k) }

  /** The slots that name one segment form an aligned run of length 2^(global - local depth). */
  lemma ChunkIsInterval<T>(ids: seq<T>, ds: seq<nat>, g: nat, i: nat, j: nat)
    requires DirOk(ids, ds, g) && i < |ids| && j < |ids|
    ensures var k := g - ds[i];
            && ChunkStart(i, k) <= i < ChunkStart(i, k) + Pow2(k) <= |ids|
            && (ids[i] == ids[j] <==> ChunkStart(i, k) <= j < ChunkStart(i, k) + Pow2(k))
  {
    var k := g - ds[i];
    var v := Shr(i, k);
    ShrInterval(i, k, v);
    ShrInterval(j, k, v);
    ShlNext(v, k);
    assert ids[i] == ids[j] <==> SameChunk(i, j, k);
    ShrBound(i, ds[i], k);
    ShlMono(v + 1, Pow2(ds[i]), k);
    ShlPow2(ds[i], k);
  }

  /** NextSeg leads from the start of one chunk to the start of the next. */
  lemma NextIsStart<T>(ids: seq<T>, ds: seq<nat>, g: nat, i: nat)
    requires DirOk(ids, ds, g) && i < |ids| && ChunkStart(i, g - ds[i]) == i
    ensures var n := i + Pow2(g - ds[i]);
            && n <= |ids|
            && (forall j | 0 <= j < |ids| :: ids[j] == ids[i] <==> i <= j < n)
            && (n < |ids| ==> ChunkStart(n, g - ds[n]) == n)
  {
    hide Shr, Shl, Pow2, ChunkStart;
    var n := i + Pow2(g - ds[i]);
    forall j | 0 <= j < |ids| ensures ids[j] == ids[i] <==> i <= j < n {
      ChunkIsInterval(ids, ds, g, i, j);
    }
    ChunkIsInterval(ids, ds, g, i, i);
    if n < |ids| {
      ChunkIsInterval(ids, ds, g, n, n - 1);
      ChunkIsInterval(ids, ds, g, n, n);
    }
  }

  // ---- growth ---------------------------------------------------------------------------

  /** Every slot is replaced by 2^k copies of itself. */
  ghost predicate Replicated<T>(was: seq<T>, now: seq<T>, g: nat, k: nat) {
    && |was| == Pow2(g) && |now| == Pow2(g + k)
    && forall j | 0 <= j < |now| :: Shr(j, k) < |was| && now[j] == was[Shr(j, k)]
  }

  lemma GrowKeeps<T>(ids: seq<T>, ds: seq<nat>, g: nat, ids': seq<T>, ds': seq<nat>, k: nat)
    requires DirOk(ids, ds, g) && Replicated(ids, ids', g, k) && Replicated(ds, ds', g, k)
    ensures DirOk(ids', ds', g + k)
  {
    forall i, j | 0 <= i < |ids'| && 0 <= j < |ids'|
      ensures ids'[i] == ids'[j] <==> SameChunk(i, j, g + k - ds'[i])
    {
      var x, y := Shr(i, k), Shr(j, k);
      assert ids[x] == ids[y] <==> SameChunk(x, y, g - ds[x]);
      ShrShr(i, k, g - ds[x]);
      ShrShr(j, k, g - ds[x]);
    }
  }

  function Copies<T>(x: T, n: nat): (r: seq<T>)
    ensures |r| == n && forall j | 0 <= j < n :: r[j] == x
  {
    if n == 0 then [] else [x] + Copies(x, n - 1)
  }

  /** One round of the in-place fill that replicates slot `i`: everything from its copies on is
      final, everything before slot `i` is still unread. */
  ghost predicate FilledFrom<T>(was: seq<T>, now: seq<T>, g: nat, k: nat, i: nat) {
    && |was| == Pow2(g) && |now| == Pow2(g + k) && i <= |was| <= |now| && Shl(i, k) <= |now|
    && (forall j | 0 <= j < i :: now[j] == was[j])
    && (forall j | Shl(i, k) <= j < |now| :: Shr(j, k) < |was| && now[j] == was[Shr(j, k)])
  }

  lemma FillStart<T>(was: seq<T>, now: seq<T>, g: nat, k: nat)
    requires |was| == Pow2(g) && |now| == Pow2(g + k) && was <= now
    ensures FilledFrom(was, now, g, k, |was|)
  {
    hide Shl, Shr, Pow2;
    ShlPow2(g, k);
  }

  lemma FillRound<T>(was: seq<T>, now: seq<T>, g: nat, k: nat, i: nat, next: seq<T>)
    requires FilledFrom(was, now, g, k, i + 1) && i < |was|
    requires Shl(i, k) + Pow2(k) <= |now| && i <= Shl(i, k)
    requires next == now[..Shl(i, k)] + Copies(now[i], Pow2(k)) + now[Shl(i, k) + Pow2(k)..]
    ensures FilledFrom(was, next, g, k, i)
  {
    hide Shl, Shr, Pow2;
    ShlNext(i, k);
    forall j | Shl(i, k) <= j < |next| ensures Shr(j, k) < |was| && next[j] == was[Shr(j, k)] {
      ShrInterval(j, k, i);
    }
  }

  /** Where in the grown directory the copies of slot `i` go. */
  lemma FillBounds(g: nat, k: nat, i: nat)
    requires i < Pow2(g)
    ensures i <= Shl(i, k) && Shl(i, k) + Pow2(k) == Shl(i + 1, k) <= Pow2(g + k)
  {
    ShlGrows(i, k);
    ShlNext(i, k);
    ShlPow2(g, k);
    ShlMono(i + 1, Pow2(g), k);
  }

  // ---- splitting a chunk ----------------------------------------------------------------

  /** The chunk of slot `s` is halved; the upper half names the new segment `t`. */
  ghost predicate Halved<T>(ids: seq<T>, ds: seq<nat>, g: nat, s: nat, t: T, ids': seq<T>, ds': seq<nat>)
    requires DirOk(ids, ds, g) && s < |ids| && ds[s] < g
  {
    var k := g - ds[s];
    && |ids'| == |ids| && |ds'| == |ids|
    && forall j | 0 <= j < |ids| ::
         if !SameChunk(s, j, k) then ids'[j] == ids[j] && ds'[j] == ds[j]
         else ids'[j] == (if Shr(j, k - 1) % 2 == 1 then t else ids[j]) && ds'[j] == ds[j] + 1
  }

  lemma HalvedKeeps<T>(ids: seq<T>, ds: seq<nat>, g: nat, s: nat, t: T, ids': seq<T>, ds': seq<nat>)
    requires DirOk(ids, ds, g) && s < |ids| && ds[s] < g && t !in ids
    requires Halved(ids, ds, g, s, t, ids', ds')
    ensures DirOk(ids', ds', g)
  {
    var k := g - ds[s];
    forall i | 0 <= i < |ids| ensures ds'[i] <= g && (SameChunk(s, i, k) ==> ids[i] == ids[s] && ds[i] == ds[s]) {
      assert ids[s] == ids[i] <==> SameChunk(s, i, k);
    }
    forall i, j | 0 <= i < |ids'| && 0 <= j < |ids'|
      ensures ids'[i] == ids'[j] <==> SameChunk(i, j, g - ds'[i])
      ensures ids'[i] == ids'[j] ==> ds'[i] == ds'[j]
    {
      HalvedPair(ids, ds, g, s, t, ids', ds', i, j);
    }
  }

  /** The upper half of a chunk, as the loop that rewrites it walks it. */
  lemma UpperHalf(s: nat, j: nat, k: nat)
    requires k > 0
    ensures SameChunk(s, j, k) && Shr(j, k - 1) % 2 == 1
            <==> ChunkStart(s, k) + Pow2(k - 1) <= j < ChunkStart(s, k) + Pow2(k)
  {
    var v := Shr(s, k);
    ShrStep(j, k - 1);
    ShrInterval(j, k - 1, 2 * v + 1);
    ShlDouble(v, k);
    ShlNext(2 * v, k - 1);
    ShlNext(2 * v + 1, k - 1);
  }

  lemma HalvedPair<T>(ids: seq<T>, ds: seq<nat>, g: nat, s: nat, t: T, ids': seq<T>, ds': seq<nat>, i: nat, j: nat)
    requires DirOk(ids, ds, g) && s < |ids| && ds[s] < g && t !in ids && i < |ids| && j < |ids|
    requires Halved(ids, ds, g, s, t, ids', ds') && ds'[i] <= g
    ensures ids'[i] == ids'[j] <==> SameChunk(i, j, g - ds'[i])
    ensures ids'[i] == ids'[j] ==> ds'[i] == ds'[j]
  {
    var k := g - ds[s];
    assert ids[s] == ids[i] <==> SameChunk(s, i, k);
    assert ids[s] == ids[j] <==> SameChunk(s, j, k);
    assert ids[i] == ids[j] <==> SameChunk(i, j, g - ds[i]);
    ShrStep(i, k - 1);
    ShrStep(j, k - 1);
    assert ids[i] in ids && ids[j] in ids;
  }

  // ---- merging two halves ---------------------------------------------------------------

  /** The chunks of `x` and its buddy, of equal depth and differing in the lowest bit that depth
      uses, become one chunk named by the segment of `x`. */
  ghost predicate Joined<T>(ids: seq<T>, ds: seq<nat>, g: nat, x: nat, ids': seq<T>, ds': seq<nat>)
    requires DirOk(ids, ds, g) && x < |ids| && ds[x] > 0
  {
    var k := g - ds[x];
    && |ids'| == |ids| && |ds'| == |ids|
    && forall j | 0 <= j < |ids| ::
         if !SameChunk(x, j, k + 1) then ids'[j] == ids[j] && ds'[j] == ds[j]
         else ids'[j] == ids[x] && ds'[j] == ds[x] - 1
  }

  lemma JoinedPair<T>(ids: seq<T>, ds: seq<nat>, g: nat, x: nat, y: nat, ids': seq<T>, ds': seq<nat>, i: nat, j: nat)
    requires DirOk(ids, ds, g) && x < |ids| && y < |ids| && ds[x] == ds[y] > 0
    requires Shr(x, g - ds[x]) != Shr(y, g - ds[x]) && SameChunk(x, y, g - ds[x] + 1)
    requires Joined(ids, ds, g, x, ids', ds') && i < |ids| && j < |ids|
    ensures ds'[i] <= g
    ensures ids'[i] == ids'[j] <==> SameChunk(i, j, g - ds'[i])
    ensures ids'[i] == ids'[j] ==> ds'[i] == ds'[j]
  {
    InTwins(ids, ds, g, x, y, i);
    InTwins(ids, ds, g, x, y, j);
    assert ids[i] == ids[j] <==> SameChunk(i, j, g - ds[i]);
  }

  /** A slot under the common parent of the twins `x` and `y` belongs to one of them. */
  lemma InTwins<T>(ids: seq<T>, ds: seq<nat>, g: nat, x: nat, y: nat, i: nat)
    requires DirOk(ids, ds, g) && x < |ids| && y < |ids| && i < |ids| && ds[x] == ds[y] > 0
    requires Shr(x, g - ds[x]) != Shr(y, g - ds[x]) && SameChunk(x, y, g - ds[x] + 1)
    ensures SameChunk(x, i, g - ds[x] + 1) <==> ids[i] == ids[x] || ids[i] == ids[y]
    ensures ids[x] != ids[y]
  {
    var k := g - ds[x];
    ShrStep(x, k);
    ShrStep(y, k);
    ShrStep(i, k);
    assert ids[x] == ids[y] <==> SameChunk(x, y, k);
    assert ids[x] == ids[i] <==> SameChunk(x, i, k);
    assert ids[y] == ids[i] <==> SameChunk(y, i, k);
  }

  lemma JoinedKeeps<T>(ids: seq<T>, ds: seq<nat>, g: nat, x: nat, y: nat, ids': seq<T>, ds': seq<nat>)
    requires DirOk(ids, ds, g) && x < |ids| && y < |ids| && ds[x] == ds[y] > 0
    requires Shr(x, g - ds[x]) != Shr(y, g - ds[x]) && SameChunk(x, y, g - ds[x] + 1)
    requires Joined(ids, ds, g, x, ids', ds')
    ensures DirOk(ids', ds', g)
  {
    forall i, j | 0 <= i < |ids'| && 0 <= j < |ids'|
      ensures ds'[i] <= g
      ensures ids'[i] == ids'[j] <==> SameChunk(i, j, g - ds'[i])
      ensures ids'[i] == ids'[j] ==> ds'[i] == ds'[j]
    {
      JoinedPair(ids, ds, g, x, y, ids', ds', i, j);
    }
  }
}
