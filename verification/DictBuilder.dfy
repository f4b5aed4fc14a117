/** Training a dictionary from samples: windows are chosen greedily by how frequent their 6-byte substrings are. */
module DictBuilder {
  import opened Arith
  import opened Bits
  import opened Keys
  import opened LittleEndian

  const DMER := 6
  const PRIME := 227718039650203
  const COUNT_MAX := 0xffff

  /** The hash of six bytes. */
  function HashDmer(b: seq<Byte>): (h: nat)
    requires |b| == DMER
    ensures h < 0x1_0000_0000
  {
    Value(b) * 0x1_0000 * PRIME % WORD / 0x1_0000_0000
  }

  const WORD48 := 0x1_0000_0000_0000

  /** The hash is the 32 bits above the lowest 16 of the product with the prime. */
  lemma HashIsMiddle(b: seq<Byte>)
    requires |b| == DMER
    ensures HashDmer(b) == Value(b) * PRIME % WORD48 / 0x1_0000
  {
    var x := Value(b) * PRIME;
    assert Value(b) * 0x1_0000 * PRIME == x * 0x1_0000;
    var (q, r) := (x / WORD48, x % WORD48);
    ModUnique(x * 0x1_0000, WORD, q, r * 0x1_0000);
  }

  /** The hash and the 16 bits below it tell any two d-mers apart. */
  lemma DmersToldApart(a: seq<Byte>, b: seq<Byte>)
    requires |a| == |b| == DMER && HashDmer(a) == HashDmer(b)
    requires Value(a) * PRIME % 0x1_0000 == Value(b) * PRIME % 0x1_0000
    ensures a == b
  {
    HashIsMiddle(a);
    HashIsMiddle(b);
    var (x, y) := (Value(a) * PRIME, Value(b) * PRIME);
    hide HashDmer, Value;
    SplitRest(x);
    SplitRest(y);
    if Value(a) >= Value(b) {
      SameProduct(Value(a), Value(b));
    } else {
      SameProduct(Value(b), Value(a));
    }
    SixBytes(a);
    SixBytes(b);
    ValueTells(a, b);
  }

  lemma SplitRest(x: nat)
    ensures x % WORD48 == (x % WORD48 / 0x1_0000) * 0x1_0000 + x % 0x1_0000
  {
  }

  lemma SixBytes(b: seq<Byte>)
    requires |b| == DMER
    ensures Value(b) < WORD48
  {
    ValueBound(b);
    Limits();
    assert Limit(6) == 256 * 256 * Limit(4);
  }

  /** Multiplication with the prime is one-to-one on 48 bits, because the prime is odd. */
  lemma SameProduct(v: nat, w: nat)
    requires w <= v && v * PRIME % WORD48 == w * PRIME % WORD48
    ensures v < WORD48 ==> v == w
  {
    hide Pow2, Low;
    var d := v - w;
    assert d * PRIME == v * PRIME - w * PRIME;
    ModDiff(v * PRIME, w * PRIME, WORD48);
    FortyEightBits();
    LowIsMod(d * PRIME, 48);
    OddTimes(d, PRIME, 48);
    if v < WORD48 {
      LowSmall(d, 48);
    }
  }

  lemma ModDiff(x: nat, y: nat, n: nat)
    requires n > 0 && y <= x && x % n == y % n
    ensures (x - y) % n == 0
  {
    assert x - y == (x / n - y / n) * n;
    ModUnique(x - y, n, x / n - y / n, 0);
  }

  lemma FortyEightBits()
    ensures Pow2(48) == WORD48
  {
    assert Pow2(4) == 16;
    hide Pow2;
    Pow2Add(4, 4);
    Pow2Add(8, 8);
    Pow2Add(16, 16);
    Pow2Add(32, 16);
  }

  /** The frequency cell of the d-mer at `i`. */
  function CellAt(data: seq<Byte>, i: nat, size: nat): (r: nat)
    requires i + DMER <= |data| && size > 0
    ensures r < size
  {
    HashDmer(data[i..i + DMER]) % size
  }

  /** A window: `width` bytes of a piece. */
  datatype Window = Window(piece: nat, off: nat)

  ghost predicate IsWindow(pieces: seq<seq<Byte>>, width: nat, w: Window) {
    w.piece < |pieces| && w.off + width <= |pieces[w.piece]|
  }

  /** The sum of the frequencies of `n` d-mers from `off` on. */
  ghost function Sum(freq: seq<nat>, data: seq<Byte>, off: nat, n: nat): nat
    requires |freq| > 0 && (n > 0 ==> off + n + DMER - 1 <= |data|)
  {
    if n == 0 then 0 else Sum(freq, data, off, n - 1) + freq[CellAt(data, off + n - 1, |freq|)]
  }

  ghost function Score(freq: seq<nat>, pieces: seq<seq<Byte>>, width: nat, w: Window): nat
    requires |freq| > 0 && width > DMER && IsWindow(pieces, width, w)
  {
    Sum(freq, pieces[w.piece], w.off, width - DMER + 1)
  }

  /** Sliding a window by one drops its first d-mer and takes in the next. */
  lemma {:induction false} Slide(freq: seq<nat>, data: seq<Byte>, off: nat, n: nat)
    requires |freq| > 0 && n > 0 && off + n + DMER <= |data|
    ensures Sum(freq, data, off + 1, n) + freq[CellAt(data, off, |freq|)]
            == Sum(freq, data, off, n) + freq[CellAt(data, off + n, |freq|)]
  {
    hide CellAt;
    if n > 1 {
      Slide(freq, data, off, n - 1);
    }
  }

  ghost predicate Earlier(v: Window, w: Window) { v.piece < w.piece || (v.piece == w.piece && v.off < w.off) }

  /** The best window found so far beats all of the first `n` pieces, and in piece `n` all before offset `m`; it is the
      first of those with its score. */
  ghost predicate BestSoFar(freq: seq<nat>, pieces: seq<seq<Byte>>, width: nat, best: Window, score: nat, n: nat,
                            m: nat)
    requires |freq| > 0 && width > DMER
  {
    && (score > 0 ==>
          && IsWindow(pieces, width, best) && Score(freq, pieces, width, best) == score
          && forall w | IsWindow(pieces, width, w) && Earlier(w, best) :: Score(freq, pieces, width, w) < score)
    && forall w | IsWindow(pieces, width, w) && (w.piece < n || (w.piece == n && w.off < m)) ::
         Score(freq, pieces, width, w) <= score
  }

  /** One more window has been looked at. */
  lemma Better(freq: seq<nat>, pieces: seq<seq<Byte>>, width: nat, best: Window, score: nat, n: nat, m: nat, s: nat)
    requires |freq| > 0 && width > DMER && BestSoFar(freq, pieces, width, best, score, n, m)
    requires IsWindow(pieces, width, Window(n, m)) && s == Score(freq, pieces, width, Window(n, m))
    ensures if s > score then BestSoFar(freq, pieces, width, Window(n, m), s, n, m + 1)
            else BestSoFar(freq, pieces, width, best, score, n, m + 1)
  {
    hide Score;
  }

  lemma PieceDone(freq: seq<nat>, pieces: seq<seq<Byte>>, width: nat, best: Window, score: nat, n: nat, m: nat)
    requires |freq| > 0 && width > DMER && BestSoFar(freq, pieces, width, best, score, n, m)
    requires n < |pieces| && m + width > |pieces[n]|
    ensures BestSoFar(freq, pieces, width, best, score, n + 1, 0)
  {
    hide Score;
  }

  /** FindBestSegment: the score is kept up to date while the window slides, and the result is the first maximum
      over all windows of all pieces. */
  method FindBestSegment(pieces: seq<seq<Byte>>, width: nat, freq: array<nat>) returns (best: Window, score: nat)
    requires width > DMER && freq.Length > 0
    ensures BestSoFar(freq[..], pieces, width, best, score, |pieces|, 0)
  {
    hide CellAt, Score;
    best, score := Window(0, 0), 0;
    for k := 0 to |pieces|
      invariant BestSoFar(freq[..], pieces, width, best, score, k, 0)
    {
      if |pieces[k]| < width {
        PieceDone(freq[..], pieces, width, best, score, k, 0);
      } else {
        best, score := BestInPiece(pieces, width, freq, k, best, score);
      }
    }
  }

  method BestInPiece(pieces: seq<seq<Byte>>, width: nat, freq: array<nat>, k: nat, best0: Window, score0: nat)
    returns (best: Window, score: nat)
    requires width > DMER && freq.Length > 0 && k < |pieces| && |pieces[k]| >= width
    requires BestSoFar(freq[..], pieces, width, best0, score0, k, 0)
    ensures BestSoFar(freq[..], pieces, width, best, score, k + 1, 0)
  {
    hide CellAt, BestSoFar;
    best, score := best0, score0;
    var data, dmers := pieces[k], width - DMER + 1;
    var s := 0;
    for j := 0 to dmers
      invariant s == Sum(freq[..], data, 0, j)
    {
      s := s + freq[CellAt(data, j, freq.Length)];
    }
    Better(freq[..], pieces, width, best, score, k, 0, s);
    if s > score {
      best, score := Window(k, 0), s;
    }
    var i := 1;
    while i <= |data| - width
      invariant 1 <= i <= |data| - width + 1
      invariant s == Sum(freq[..], data, i - 1, dmers)
      invariant BestSoFar(freq[..], pieces, width, best, score, k, i)
    {
      Slide(freq[..], data, i - 1, dmers);
      s := s - freq[CellAt(data, i - 1, freq.Length)] + freq[CellAt(data, i + dmers - 1, freq.Length)];
      Better(freq[..], pieces, width, best, score, k, i, s);
      if s > score {
        best, score := Window(k, i), s;
      }
      i := i + 1;
    }
    PieceDone(freq[..], pieces, width, best, score, k, i);
  }

  // ---- the frequency table --------------------------------------------------------------

  /** How many of the first `n` d-mers of a piece fall into cell `c`. */
  ghost function Occurs(data: seq<Byte>, n: nat, c: nat, size: nat): nat
    requires size > 0 && (n > 0 ==> n + DMER - 1 <= |data|)
  {
    if n == 0 then 0 else Occurs(data, n - 1, c, size) + if CellAt(data, n - 1, size) == c then 1 else 0
  }

  function DmersOf(data: seq<Byte>): nat { if |data| < DMER then 0 else |data| - DMER + 1 }

  /** How many d-mers of the first `n` pieces fall into cell `c`. */
  ghost function Total(pieces: seq<seq<Byte>>, n: nat, c: nat, size: nat): nat
    requires size > 0 && n <= |pieces|
  {
    if n == 0 then 0 else Total(pieces, n - 1, c, size) + Occurs(pieces[n - 1], DmersOf(pieces[n - 1]), c, size)
  }

  function Capped(n: nat): nat { if n < COUNT_MAX then n else COUNT_MAX }

  /** PopulateFrequencyTable: a histogram whose counts stop at the largest 16-bit number. */
  method Populate(pieces: seq<seq<Byte>>, freq: array<nat>)
    requires freq.Length > 0 && forall c | 0 <= c < freq.Length :: freq[c] == 0
    modifies freq
    ensures forall c | 0 <= c < freq.Length :: freq[c] == Capped(Total(pieces, |pieces|, c, freq.Length))
  {
    hide CellAt;
    for k := 0 to |pieces|
      invariant forall c | 0 <= c < freq.Length :: freq[c] == Capped(Total(pieces, k, c, freq.Length))
    {
      var data := pieces[k];
      for i := 0 to DmersOf(data)
        invariant forall c | 0 <= c < freq.Length ::
                    freq[c] == Capped(Total(pieces, k, c, freq.Length) + Occurs(data, i, c, freq.Length))
      {
        var c := CellAt(data, i, freq.Length);
        if freq[c] < COUNT_MAX {
          freq[c] := freq[c] + 1;
        }
      }
    }
  }

  /** A table none of whose counts has grown. */
  ghost predicate Below(f: seq<nat>, g: seq<nat>) { |f| == |g| && forall c | 0 <= c < |f| :: f[c] <= g[c] }

  lemma {:induction false} SumBelow(f: seq<nat>, g: seq<nat>, data: seq<Byte>, off: nat, n: nat)
    requires |g| > 0 && Below(f, g) && (n > 0 ==> off + n + DMER - 1 <= |data|)
    ensures Sum(f, data, off, n) <= Sum(g, data, off, n)
  {
    hide CellAt;
    if n > 0 {
      SumBelow(f, g, data, off, n - 1);
    }
  }

  lemma {:induction false} SumZero(f: seq<nat>, data: seq<Byte>, off: nat, n: nat)
    requires |f| > 0 && (n > 0 ==> off + n + DMER - 1 <= |data|)
    requires forall j | off <= j < off + n && j + DMER <= |data| :: f[CellAt(data, j, |f|)] == 0
    ensures Sum(f, data, off, n) == 0
  {
    hide CellAt;
    if n > 0 {
      SumZero(f, data, off, n - 1);
    }
  }

  /** Some of the `n` d-mers from `off` on falls into cell `c`. */
  ghost predicate Hits(data: seq<Byte>, off: nat, n: nat, size: nat, c: nat)
    requires size > 0
  {
    exists j | off <= j < off + n && j + DMER <= |data| :: CellAt(data, j, size) == c
  }

  /** The table without the counts of the d-mers of a window. */
  ghost function Without(f: seq<nat>, pieces: seq<seq<Byte>>, width: nat, w: Window): (r: seq<nat>)
    requires |f| > 0 && width > DMER && IsWindow(pieces, width, w)
    ensures |r| == |f|
  {
    seq(|f|, c requires 0 <= c < |f| => if Hits(pieces[w.piece], w.off, width - DMER + 1, |f|, c) then 0 else f[c])
  }

  /** ZeroOutFrequencies. */
  method ZeroOut(pieces: seq<seq<Byte>>, width: nat, w: Window, freq: array<nat>)
    requires width > DMER && freq.Length > 0 && IsWindow(pieces, width, w)
    modifies freq
    ensures freq[..] == Without(old(freq[..]), pieces, width, w)
  {
    hide CellAt;
    var data := pieces[w.piece];
    for j := 0 to width - DMER + 1
      invariant forall c | 0 <= c < freq.Length ::
                  freq[c] == if Hits(data, w.off, j, freq.Length, c) then 0 else old(freq[c])
    {
      HitsNext(data, w.off, j, freq.Length);
      freq[CellAt(data, w.off + j, freq.Length)] := 0;
    }
  }

  lemma HitsNext(data: seq<Byte>, off: nat, n: nat, size: nat)
    requires size > 0 && off + n + DMER <= |data|
    ensures forall c :: Hits(data, off, n + 1, size, c) <==>
              Hits(data, off, n, size, c) || c == CellAt(data, off + n, size)
  {
    hide CellAt;
    forall c
      ensures Hits(data, off, n + 1, size, c) <==> Hits(data, off, n, size, c) || c == CellAt(data, off + n, size)
    {
      if Hits(data, off, n, size, c) {
        var j :| off <= j < off + n && j + DMER <= |data| && CellAt(data, j, size) == c;
        assert off <= j < off + (n + 1);
      }
      assert off <= off + n < off + (n + 1);
    }
  }

  /** The window is worth nothing afterwards, and no window is worth more. */
  lemma WithoutFacts(f: seq<nat>, pieces: seq<seq<Byte>>, width: nat, w: Window)
    requires |f| > 0 && width > DMER && IsWindow(pieces, width, w)
    ensures Below(Without(f, pieces, width, w), f) && Score(Without(f, pieces, width, w), pieces, width, w) == 0
  {
    hide CellAt;
    var data, n := pieces[w.piece], width - DMER + 1;
    forall j | w.off <= j < w.off + n && j + DMER <= |data|
      ensures Without(f, pieces, width, w)[CellAt(data, j, |f|)] == 0
    {
      assert Hits(data, w.off, n, |f|, CellAt(data, j, |f|));
    }
    SumZero(Without(f, pieces, width, w), data, w.off, n);
  }

  // ---- training -------------------------------------------------------------------------

  ghost function Text(pieces: seq<seq<Byte>>, width: nat, w: Window): seq<Byte>
    requires IsWindow(pieces, width, w)
  {
    pieces[w.piece][w.off..w.off + width]
  }

  ghost function Joined(pieces: seq<seq<Byte>>, width: nat, ws: seq<Window>): seq<Byte>
    requires forall x | 0 <= x < |ws| :: IsWindow(pieces, width, ws[x])
  {
    if ws == [] then [] else Joined(pieces, width, ws[..|ws| - 1]) + Text(pieces, width, ws[|ws| - 1])
  }

  /** What is left of a table after windows have been chosen. */
  ghost function LeftAfter(f: seq<nat>, pieces: seq<seq<Byte>>, width: nat, ws: seq<Window>): (r: seq<nat>)
    requires |f| > 0 && width > DMER && forall x | 0 <= x < |ws| :: IsWindow(pieces, width, ws[x])
    ensures |r| == |f|
  {
    if ws == [] then f
    else Without(LeftAfter(f, pieces, width, ws[..|ws| - 1]), pieces, width, ws[|ws| - 1])
  }

  /** Each window is the first of the best by what the windows before it have left, and is worth something. */
  ghost predicate Greedy(f: seq<nat>, pieces: seq<seq<Byte>>, width: nat, ws: seq<Window>, scores: seq<nat>)
    requires |f| > 0 && width > DMER
  {
    && |ws| == |scores| && (forall x | 0 <= x < |ws| :: IsWindow(pieces, width, ws[x]))
    && forall x | 0 <= x < |ws| ::
         scores[x] > 0 && BestSoFar(LeftAfter(f, pieces, width, ws[..x]), pieces, width, ws[x], scores[x], |pieces|, 0)
  }

  lemma GreedyNext(f: seq<nat>, pieces: seq<seq<Byte>>, width: nat, ws: seq<Window>, scores: seq<nat>, best: Window,
                   score: nat)
    requires |f| > 0 && width > DMER && Greedy(f, pieces, width, ws, scores) && score > 0
    requires IsWindow(pieces, width, best)
    requires BestSoFar(LeftAfter(f, pieces, width, ws), pieces, width, best, score, |pieces|, 0)
    ensures Greedy(f, pieces, width, ws + [best], scores + [score])
    ensures LeftAfter(f, pieces, width, ws + [best]) == Without(LeftAfter(f, pieces, width, ws), pieces, width, best)
  {
    hide BestSoFar, Without;
    var all := ws + [best];
    assert all[..|ws|] == ws;
    forall x | 0 <= x < |all|
      ensures (scores + [score])[x] > 0
      ensures BestSoFar(LeftAfter(f, pieces, width, all[..x]), pieces, width, all[x],
                        (scores + [score])[x], |pieces|, 0)
    {
      if x < |ws| {
        assert all[..x] == ws[..x];
      }
    }
  }

  /** The histogram of the d-mers of all pieces. */
  ghost function Histogram(pieces: seq<seq<Byte>>, size: nat): (r: seq<nat>)
    requires size > 0
    ensures |r| == size
  {
    seq(size, c requires 0 <= c < size => Capped(Total(pieces, |pieces|, c, size)))
  }

  /** The windows chosen so far: worth less and less, each worth something when chosen, and nothing any more. */
  ghost predicate Chosen(f: seq<nat>, pieces: seq<seq<Byte>>, width: nat, ws: seq<Window>, scores: seq<nat>)
    requires |f| > 0 && width > DMER
  {
    && |ws| == |scores|
    && (forall x | 0 <= x < |ws| ::
          IsWindow(pieces, width, ws[x]) && Score(f, pieces, width, ws[x]) == 0 && scores[x] > 0)
    && (forall x, y | 0 <= x < y < |ws| :: ws[x] != ws[y] && scores[x] >= scores[y])
    && (scores != [] ==> forall w | IsWindow(pieces, width, w) :: Score(f, pieces, width, w) <= scores[|scores| - 1])
  }

  lemma ChosenNext(f: seq<nat>, f': seq<nat>, pieces: seq<seq<Byte>>, width: nat, ws: seq<Window>, scores: seq<nat>,
                   best: Window, score: nat)
    requires |f| > 0 && width > DMER && Chosen(f, pieces, width, ws, scores) && Below(f', f)
    requires score > 0 && BestSoFar(f, pieces, width, best, score, |pieces|, 0) && Score(f', pieces, width, best) == 0
    ensures Chosen(f', pieces, width, ws + [best], scores + [score])
  {
    forall w | IsWindow(pieces, width, w) ensures Score(f', pieces, width, w) <= Score(f, pieces, width, w) {
      SumBelow(f', f, pieces[w.piece], w.off, width - DMER + 1);
    }
    hide Score;
  }

  function TotalLength(pieces: seq<seq<Byte>>): nat {
    if pieces == [] then 0 else |pieces[0]| + TotalLength(pieces[1..])
  }

  lemma {:induction false} TotalLengthIs(pieces: seq<seq<Byte>>, more: seq<Byte>)
    ensures TotalLength(pieces + [more]) == TotalLength(pieces) + |more|
  {
    if pieces == [] {
      assert [more][1..] == [];
    } else {
      assert (pieces + [more])[1..] == pieces[1..] + [more];
      TotalLengthIs(pieces[1..], more);
    }
  }

  /** CalculateFreqTableSize: the smallest power of two that is not below the total length, but at least 2^10 and at
      most 2^24. */
  function TableSize(pieces: seq<seq<Byte>>): (r: nat)
    ensures 1024 <= r <= 0x100_0000 && exists k: nat :: r == Pow2(k)
    ensures TotalLength(pieces) <= 0x100_0000 ==> r >= TotalLength(pieces)
    ensures r > 1024 ==> r < 2 * TotalLength(pieces)
  {
    var n := TotalLength(pieces);
    var want := if n < 1024 then 1024 else if n > 0x100_0000 then 0x100_0000 else n;
    SizeBounds(want);
    Pow2(CeilLog(want))
  }

  lemma SizeBounds(n: nat)
    requires 1024 <= n <= 0x100_0000
    ensures n <= Pow2(CeilLog(n)) <= 0x100_0000 && (Pow2(CeilLog(n)) > 1024 ==> Pow2(CeilLog(n)) < 2 * n && n > 1024)
  {
    hide Pow2, CeilLog;
    var k := CeilLog(n);
    Sizes();
    if k > 0 {
      Pow2Twice(k);
    }
    if k > 24 {
      Pow2Mono(24, k - 1);
    } else {
      Pow2Mono(k, 24);
    }
    if k > 10 && n == 1024 {
      Pow2Mono(10, k - 1);
    }
    if k <= 10 {
      Pow2Mono(k, 10);
    }
  }

  lemma Pow2Twice(k: nat)
    requires k > 0
    ensures Pow2(k) == 2 * Pow2(k - 1)
  {
  }

  lemma Sizes()
    ensures Pow2(0) == 1 && Pow2(10) == 1024 && Pow2(24) == 0x100_0000
  {
    assert Pow2(0) == 1 && Pow2(2) == 4 && Pow2(4) == 16;
    hide Pow2;
    Pow2Add(4, 4);
    Pow2Add(8, 2);
    Pow2Add(8, 8);
    Pow2Add(16, 8);
  }

  /** TrainDictionary. The dictionary is a concatenation of windows of the input, cut off at the size asked for. Each
      window is the first of the best by what the earlier ones have left of the histogram; the scores never increase, no
      window is chosen twice, and the dictionary is shorter than asked for only if no window is worth anything. */
  method Train(pieces: seq<seq<Byte>>, dictSize: nat, width: nat)
    returns (dict: seq<Byte>, ghost ws: seq<Window>, ghost scores: seq<nat>)
    requires dictSize > 0 && width > DMER
    ensures Greedy(Histogram(pieces, TableSize(pieces)), pieces, width, ws, scores)
    ensures forall x, y | 0 <= x < y < |ws| :: ws[x] != ws[y] && scores[x] >= scores[y]
    ensures |dict| <= dictSize && dict <= Joined(pieces, width, ws)
    ensures |dict| < dictSize ==>
              && dict == Joined(pieces, width, ws)
              && var left := LeftAfter(Histogram(pieces, TableSize(pieces)), pieces, width, ws);
                 forall w | IsWindow(pieces, width, w) :: Score(left, pieces, width, w) == 0
  {
    hide Score, Capped, Total, TableSize, BestSoFar, Joined, Text, Without, LeftAfter;
    var freq := new nat[TableSize(pieces)](_ => 0);
    Populate(pieces, freq);
    ghost var f := Histogram(pieces, TableSize(pieces));
    assert freq[..] == f;
    dict, ws, scores := [], [], [];
    NoWindows(f, pieces, width);
    while |dict| < dictSize
      invariant Chosen(freq[..], pieces, width, ws, scores) && DictOf(pieces, width, ws, dict, dictSize)
      invariant Greedy(f, pieces, width, ws, scores) && freq[..] == LeftAfter(f, pieces, width, ws)
      decreases dictSize - |dict|
    {
      ghost var now := freq[..];
      var best, score := FindBestSegment(pieces, width, freq);
      if score == 0 {
        NothingWorth(now, pieces, width, best);
        return;
      }
      BestIsWindow(now, pieces, width, best, score);
      var n := if width < dictSize - |dict| then width else dictSize - |dict|;
      DictNext(pieces, width, ws, dict, dictSize, best, n);
      dict := dict + pieces[best.piece][best.off..best.off + n];
      ZeroOut(pieces, width, best, freq);
      WithoutFacts(now, pieces, width, best);
      ChosenNext(now, freq[..], pieces, width, ws, scores, best, score);
      GreedyNext(f, pieces, width, ws, scores, best, score);
      ws, scores := ws + [best], scores + [score];
    }
  }

  /** The dictionary made from the chosen windows. */
  ghost predicate DictOf(pieces: seq<seq<Byte>>, width: nat, ws: seq<Window>, dict: seq<Byte>, dictSize: nat) {
    && (forall x | 0 <= x < |ws| :: IsWindow(pieces, width, ws[x]))
    && |dict| <= dictSize && dict <= Joined(pieces, width, ws)
    && (|dict| < dictSize ==> dict == Joined(pieces, width, ws))
  }

  lemma NoWindows(f: seq<nat>, pieces: seq<seq<Byte>>, width: nat)
    requires |f| > 0 && width > DMER
    ensures Joined(pieces, width, []) == [] && LeftAfter(f, pieces, width, []) == f
  {
  }

  lemma DictNext(pieces: seq<seq<Byte>>, width: nat, ws: seq<Window>, dict: seq<Byte>, dictSize: nat, best: Window,
                 n: nat)
    requires DictOf(pieces, width, ws, dict, dictSize) && |dict| < dictSize && IsWindow(pieces, width, best)
    requires n == if width < dictSize - |dict| then width else dictSize - |dict|
    ensures DictOf(pieces, width, ws + [best], dict + pieces[best.piece][best.off..best.off + n], dictSize)
  {
    assert (ws + [best])[..|ws|] == ws;
    assert Text(pieces, width, best)[..n] == pieces[best.piece][best.off..best.off + n];
  }

  lemma NothingWorth(f: seq<nat>, pieces: seq<seq<Byte>>, width: nat, best: Window)
    requires |f| > 0 && width > DMER && BestSoFar(f, pieces, width, best, 0, |pieces|, 0)
    ensures forall w | IsWindow(pieces, width, w) :: Score(f, pieces, width, w) == 0
  {
    hide Score;
  }

  lemma BestIsWindow(f: seq<nat>, pieces: seq<seq<Byte>>, width: nat, best: Window, score: nat)
    requires |f| > 0 && width > DMER && score > 0 && BestSoFar(f, pieces, width, best, score, |pieces|, 0)
    ensures IsWindow(pieces, width, best)
  {
    hide Score;
  }
}
