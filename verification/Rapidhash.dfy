/** Rapidhash: the portable multiplication, and the two ways to run over a long key. */
module Rapidhash {
  import opened Arith
  import opened Bits
  import opened Keys
  import opened LittleEndian

  type Word = w: nat | w < 0x1_0000_0000_0000_0000

  const HALF := 0x1_0000_0000

  function Xor64(a: Word, b: Word): Word {
    Pow2Of64();
    XorBound(a, b, 64);
    Xor(a, b)
  }

  // ---- multiplication -------------------------------------------------------------------

  function Times(a: nat, b: nat): nat { a * b }

  lemma ProductBound(a: nat, b: nat, n: nat)
    requires a < n && b < n
    ensures Times(a, b) <= (n - 1) * (n - 1)
  {
    assert a * b <= (n - 1) * b;
    assert (n - 1) * b <= (n - 1) * (n - 1);
  }

  /** The 128-bit product, low and high half. */
  function Mum(a: Word, b: Word): (r: (Word, Word))
    ensures r.0 + WORD * r.1 == Times(a, b)
  {
    ProductBound(a, b, WORD);
    (Times(a, b) % WORD, Times(a, b) / WORD)
  }

  function Mix(a: Word, b: Word): Word {
    var (l, h) := Mum(a, b);
    Xor64(l, h)
  }

  function Add64(x: Word, y: Word): Word { (x + y) % WORD }

  function Shl32(x: Word): Word { x * HALF % WORD }

  /** rapid_mum without a 128-bit type: four half-word products, added with the carries that 64-bit addition loses. */
  method MumPortable(a: Word, b: Word) returns (lo: Word, hi: Word)
    ensures (lo, hi) == Mum(a, b)
  {
    hide Times, Add64, Shl32, Mum;
    var ha, hb, la, lb := a / HALF, b / HALF, a % HALF, b % HALF;
    ProductBound(ha, hb, HALF);
    ProductBound(ha, lb, HALF);
    ProductBound(hb, la, HALF);
    ProductBound(la, lb, HALF);
    var rh: Word, rm0: Word, rm1: Word, rl: Word := Times(ha, hb), Times(ha, lb), Times(hb, la), Times(la, lb);
    var t := Add64(rl, Shl32(rm0));
    var c := if t < rl then 1 else 0;
    lo := Add64(t, Shl32(rm1));
    c := c + if lo < t then 1 else 0;
    Halves(a, b, ha, la, hb, lb);
    CarryIn(rl, rm0);
    CarryIn(t, rm1);
    HighHalf(a, b, lo, rh + rm0 / HALF + rm1 / HALF + c);
    hi := rh + rm0 / HALF + rm1 / HALF + c;      // does not overflow
  }

  lemma Halves(a: nat, b: nat, ha: nat, la: nat, hb: nat, lb: nat)
    requires a == HALF * ha + la && b == HALF * hb + lb
    ensures Times(a, b) == WORD * Times(ha, hb) + HALF * Times(ha, lb) + HALF * Times(hb, la) + Times(la, lb)
  {
    assert a * b == (HALF * ha) * (HALF * hb) + (HALF * ha) * lb + la * (HALF * hb) + la * lb;
  }

  /** One addition of the low half of a shifted product: what overflows is the high half and the carry. */
  lemma CarryIn(x: Word, m: Word)
    ensures var t := Add64(x, Shl32(m));
            x + HALF * m == t + WORD * (m / HALF + if t < x then 1 else 0)
  {
    assert Shl32(m) == m % HALF * HALF;
  }

  lemma HighHalf(a: Word, b: Word, lo: Word, h: nat)
    requires Times(a, b) == lo + WORD * h
    ensures h < WORD && (lo, h) == Mum(a, b)
  {
    hide Times;
    ProductBound(a, b, WORD);
  }

  // ---- long keys ------------------------------------------------------------------------

  function Read64(key: seq<Byte>, p: nat): Word
    requires p + 8 <= |key|
  {
    Limits();
    ValueBound(key[p..p + 8]);
    Value(key[p..p + 8])
  }

  function Read32(key: seq<Byte>, p: nat): Word
    requires p + 4 <= |key|
  {
    Limits();
    ValueBound(key[p..p + 4]);
    Value(key[p..p + 4])
  }

  /** Mixes 16 bytes of the key into a lane. */
  function Absorb(key: seq<Byte>, p: nat, secret: Word, lane: Word): Word
    requires p + 16 <= |key|
  {
    Mix(Xor64(Read64(key, p), secret), Xor64(Read64(key, p + 8), lane))
  }

  datatype Lanes = Lanes(s: Word, s1: Word, s2: Word, s3: Word, s4: Word, s5: Word, s6: Word)

  /** 112 bytes of the key, 16 for each lane. */
  function Round(key: seq<Byte>, p: nat, x: Lanes, secret: seq<Word>): Lanes
    requires p + 112 <= |key| && |secret| == 8
  {
    Lanes(Absorb(key, p, secret[0], x.s), Absorb(key, p + 16, secret[1], x.s1), Absorb(key, p + 32, secret[2], x.s2),
          Absorb(key, p + 48, secret[3], x.s3), Absorb(key, p + 64, secret[4], x.s4),
          Absorb(key, p + 80, secret[5], x.s5),
          Absorb(key, p + 96, secret[6], x.s6))
  }

  /** Rounds while more than 112 bytes are left: the lanes, and where they stop. */
  ghost function Rounds(key: seq<Byte>, p: nat, x: Lanes, secret: seq<Word>): (Lanes, nat)
    requires p <= |key| && |secret| == 8
    decreases |key| - p
  {
    if |key| - p > 112 then Rounds(key, p + 112, Round(key, p, x, secret), secret) else (x, p)
  }

  /** The compact loop. */
  method LoopCompact(key: seq<Byte>, start: Lanes, secret: seq<Word>) returns (x: Lanes, p: nat)
    requires |key| > 112 && |secret| == 8
    ensures (x, p) == Rounds(key, 0, start, secret) && p < |key| <= p + 112
  {
    hide Absorb;
    var s, s1, s2, s3, s4, s5, s6 := start.s, start.s1, start.s2, start.s3, start.s4, start.s5, start.s6;
    p := 0;
    while |key| - p > 112
      invariant p < |key|
      invariant Rounds(key, p, Lanes(s, s1, s2, s3, s4, s5, s6), secret) == Rounds(key, 0, start, secret)
      decreases |key| - p
    {
      s := Absorb(key, p, secret[0], s);
      s1 := Absorb(key, p + 16, secret[1], s1);
      s2 := Absorb(key, p + 32, secret[2], s2);
      s3 := Absorb(key, p + 48, secret[3], s3);
      s4 := Absorb(key, p + 64, secret[4], s4);
      s5 := Absorb(key, p + 80, secret[5], s5);
      s6 := Absorb(key, p + 96, secret[6], s6);
      p := p + 112;
    }
    x := Lanes(s, s1, s2, s3, s4, s5, s6);
  }

  /** The unrolled loop: two rounds at a time, and one more if it still fits. */
  method LoopUnrolled(key: seq<Byte>, start: Lanes, secret: seq<Word>) returns (x: Lanes, p: nat)
    requires |key| > 112 && |secret| == 8
    ensures (x, p) == Rounds(key, 0, start, secret) && p < |key| <= p + 112
  {
    hide Absorb;
    var s, s1, s2, s3, s4, s5, s6 := start.s, start.s1, start.s2, start.s3, start.s4, start.s5, start.s6;
    p := 0;
    while |key| - p > 224
      invariant p < |key|
      invariant Rounds(key, p, Lanes(s, s1, s2, s3, s4, s5, s6), secret) == Rounds(key, 0, start, secret)
      decreases |key| - p
    {
      ghost var x0 := Lanes(s, s1, s2, s3, s4, s5, s6);
      s := Absorb(key, p, secret[0], s);
      s1 := Absorb(key, p + 16, secret[1], s1);
      s2 := Absorb(key, p + 32, secret[2], s2);
      s3 := Absorb(key, p + 48, secret[3], s3);
      s4 := Absorb(key, p + 64, secret[4], s4);
      s5 := Absorb(key, p + 80, secret[5], s5);
      s6 := Absorb(key, p + 96, secret[6], s6);
      ghost var x1 := Lanes(s, s1, s2, s3, s4, s5, s6);
      s := Absorb(key, p + 112, secret[0], s);
      s1 := Absorb(key, p + 128, secret[1], s1);
      s2 := Absorb(key, p + 144, secret[2], s2);
      s3 := Absorb(key, p + 160, secret[3], s3);
      s4 := Absorb(key, p + 176, secret[4], s4);
      s5 := Absorb(key, p + 192, secret[5], s5);
      s6 := Absorb(key, p + 208, secret[6], s6);
      assert Rounds(key, p, x0, secret) == Rounds(key, p + 112, x1, secret);
      p := p + 224;
    }
    if |key| - p > 112 {
      s := Absorb(key, p, secret[0], s);
      s1 := Absorb(key, p + 16, secret[1], s1);
      s2 := Absorb(key, p + 32, secret[2], s2);
      s3 := Absorb(key, p + 48, secret[3], s3);
      s4 := Absorb(key, p + 64, secret[4], s4);
      s5 := Absorb(key, p + 80, secret[5], s5);
      s6 := Absorb(key, p + 96, secret[6], s6);
      p := p + 112;
    }
    x := Lanes(s, s1, s2, s3, s4, s5, s6);
  }

  /** The lanes are folded into the seed. */
  function Fold(x: Lanes): Word {
    Xor64(Xor64(Xor64(x.s, x.s1), x.s6), Xor64(Xor64(x.s2, x.s3), Xor64(x.s4, x.s5)))
  }

  /** Lane `j`. */
  function Lane(x: Lanes, j: nat): Word
    requires j < 7
  {
    if j == 0 then x.s else if j == 1 then x.s1 else if j == 2 then x.s2 else if j == 3 then x.s3
    else if j == 4 then x.s4 else if j == 5 then x.s5 else x.s6
  }

  /** Two states that differ in exactly one lane are folded to different seeds. */
  lemma FoldSees(x: Lanes, y: Lanes, j: nat)
    requires j < 7 && Lane(x, j) != Lane(y, j) && forall i | 0 <= i < 7 && i != j :: Lane(x, i) == Lane(y, i)
    ensures Fold(x) != Fold(y)
  {
    assert forall i | 0 <= i < 7 && i != j :: Lane(x, i) == Lane(y, i);
    assert (j != 0 ==> x.s == y.s) && (j != 1 ==> x.s1 == y.s1) && (j != 2 ==> x.s2 == y.s2) by {
      assert Lane(x, 0) == x.s && Lane(x, 1) == x.s1 && Lane(x, 2) == x.s2;
      assert Lane(y, 0) == y.s && Lane(y, 1) == y.s1 && Lane(y, 2) == y.s2;
    }
    assert (j != 3 ==> x.s3 == y.s3) && (j != 4 ==> x.s4 == y.s4) by {
      assert Lane(x, 3) == x.s3 && Lane(x, 4) == x.s4 && Lane(y, 3) == y.s3 && Lane(y, 4) == y.s4;
    }
    assert (j != 5 ==> x.s5 == y.s5) && (j != 6 ==> x.s6 == y.s6) by {
      assert Lane(x, 5) == x.s5 && Lane(x, 6) == x.s6 && Lane(y, 5) == y.s5 && Lane(y, 6) == y.s6;
    }
    hide Xor64;
    Differ(x.s, y.s, x.s1, y.s1);
    Differ(Xor64(x.s, x.s1), Xor64(y.s, y.s1), x.s6, y.s6);
    Differ(x.s2, y.s2, x.s3, y.s3);
    Differ(x.s4, y.s4, x.s5, y.s5);
    Differ(Xor64(x.s2, x.s3), Xor64(y.s2, y.s3), Xor64(x.s4, x.s5), Xor64(y.s4, y.s5));
    Differ(Xor64(Xor64(x.s, x.s1), x.s6), Xor64(Xor64(y.s, y.s1), y.s6),
           Xor64(Xor64(x.s2, x.s3), Xor64(x.s4, x.s5)), Xor64(Xor64(y.s2, y.s3), Xor64(y.s4, y.s5)));
  }

  /** Exclusive or of words of which exactly one has changed has changed. */
  lemma Differ(a: Word, a': Word, b: Word, b': Word)
    ensures a == a' && b == b' ==> Xor64(a, b) == Xor64(a', b')
    ensures (a == a') != (b == b') ==> Xor64(a, b) != Xor64(a', b')
  {
    hide Xor;
    if a == a' && b != b' && Xor(a, b) == Xor(a, b') {
      XorTells(b, b', a);
    }
    if a != a' && b == b' && Xor(a, b) == Xor(a', b) {
      XorTells(a, a', b);
    }
  }

  /** What lane `j` is after `r` rounds: the 16 bytes of each round that are its own have gone in, one after the
      other. */
  ghost function LaneAfter(key: seq<Byte>, j: nat, r: nat, start: Word, secret: seq<Word>): Word
    requires j < 7 && 112 * r <= |key| && |secret| == 8
  {
    if r == 0 then start
    else Absorb(key, 112 * (r - 1) + 16 * j, secret[j], LaneAfter(key, j, r - 1, start, secret))
  }

  /** Every 16-byte block of the rounds goes into the lane that is its number modulo 7, and the rounds take in
      all but the last 1 to 112 bytes. */
  lemma RoundsByLane(key: seq<Byte>, start: Lanes, secret: seq<Word>, j: nat)
    requires |key| > 0 && |secret| == 8 && j < 7
    ensures var (x, p) := Rounds(key, 0, start, secret);
            var r := (|key| - 1) / 112;
            p == 112 * r < |key| <= p + 112 && Lane(x, j) == LaneAfter(key, j, r, Lane(start, j), secret)
  {
    LanesFrom(key, 0, start, start, secret, j);
  }

  lemma {:induction false} LanesFrom(key: seq<Byte>, r: nat, x: Lanes, start: Lanes, secret: seq<Word>, j: nat)
    requires 112 * r < |key| && |secret| == 8 && j < 7
    requires Lane(x, j) == LaneAfter(key, j, r, Lane(start, j), secret)
    ensures var (y, p) := Rounds(key, 112 * r, x, secret);
            var last := (|key| - 1) / 112;
            p == 112 * last < |key| <= p + 112 && Lane(y, j) == LaneAfter(key, j, last, Lane(start, j), secret)
    decreases |key| - 112 * r
  {
    hide Absorb, Round, Lane;
    if |key| - 112 * r > 112 {
      RoundLane(key, 112 * r, x, secret, j);
      LanesFrom(key, r + 1, Round(key, 112 * r, x, secret), start, secret, j);
    } else {
      ModUnique(|key| - 1, 112, r, |key| - 1 - 112 * r);
    }
  }

  lemma RoundLane(key: seq<Byte>, p: nat, x: Lanes, secret: seq<Word>, j: nat)
    requires p + 112 <= |key| && |secret| == 8 && j < 7
    ensures Lane(Round(key, p, x, secret), j) == Absorb(key, p + 16 * j, secret[j], Lane(x, j))
  {
    hide Absorb;
  }

  /** The last up to 112 bytes, 16 at a time while more than 16 are left. */
  function Tail(key: seq<Byte>, p: nat, i: nat, seed: Word, secret: seq<Word>): Word
    requires p + i == |key| && |secret| == 8
  {
    if i <= 16 then seed
    else var a := Absorb(key, p, secret[2], seed);
    if i <= 32 then a
    else var b := Absorb(key, p + 16, secret[2], a);
    if i <= 48 then b
    else var c := Absorb(key, p + 32, secret[1], b);
    if i <= 64 then c
    else var d := Absorb(key, p + 48, secret[1], c);
    if i <= 80 then d
    else var e := Absorb(key, p + 64, secret[2], d);
    if i <= 96 then e
    else Absorb(key, p + 80, secret[1], e)
  }

  /** The seed after `k` blocks of the tail. */
  ghost function TailAfter(key: seq<Byte>, p: nat, k: nat, seed: Word, secret: seq<Word>): Word
    requires p + 16 * k <= |key| && k <= 6 && |secret| == 8
  {
    if k == 0 then seed
    else Absorb(key, p + 16 * (k - 1), secret[[2, 2, 1, 1, 2, 1][k - 1]], TailAfter(key, p, k - 1, seed, secret))
  }

  /** Every 16-byte block of the tail goes in but the last, which may be shorter. */
  lemma TailByBlock(key: seq<Byte>, p: nat, i: nat, seed: Word, secret: seq<Word>)
    requires p + i == |key| && 0 < i <= 112 && |secret| == 8
    ensures Tail(key, p, i, seed, secret) == TailAfter(key, p, (i - 1) / 16, seed, secret)
  {
    hide Absorb;
    var k := (i - 1) / 16;
    assert k <= 6;
    assert k >= 1 ==> TailAfter(key, p, 1, seed, secret) == Absorb(key, p, secret[2], seed);
    assert k >= 2 ==> TailAfter(key, p, 2, seed, secret)
                      == Absorb(key, p + 16, secret[2], TailAfter(key, p, 1, seed, secret));
    assert k >= 3 ==> TailAfter(key, p, 3, seed, secret)
                      == Absorb(key, p + 32, secret[1], TailAfter(key, p, 2, seed, secret));
    assert k >= 4 ==> TailAfter(key, p, 4, seed, secret)
                      == Absorb(key, p + 48, secret[1], TailAfter(key, p, 3, seed, secret));
    assert k >= 5 ==> TailAfter(key, p, 5, seed, secret)
                      == Absorb(key, p + 64, secret[2], TailAfter(key, p, 4, seed, secret));
    assert k >= 6 ==> TailAfter(key, p, 6, seed, secret)
                      == Absorb(key, p + 80, secret[1], TailAfter(key, p, 5, seed, secret));
  }

  /** The first byte shifted by 45 bits, and the last one beside it. */
  function Spread(first: nat, last: nat): Word
    requires first < 256 && last < 256
  {
    first * 0x2000_0000_0000 + last
  }

  /** The two words and the seed that go into the final mix, and the length that goes with them. */
  datatype Last = Last(a: Word, b: Word, seed: Word, i: Word)

  ghost function Gather(key: seq<Byte>, seed: Word, secret: seq<Word>): Last
    requires |secret| == 8 && |key| < WORD
  {
    var n := |key|;
    if n == 0 then Last(0, 0, seed, 0)
    else if n < 4 then Last(Spread(key[0], key[n - 1]), key[n / 2], seed, n)
    else if n < 8 then Last(Read32(key, 0), Read32(key, n - 4), Xor64(seed, n), n)
    else if n <= 16 then Last(Read64(key, 0), Read64(key, n - 8), Xor64(seed, n), n)
    else
      var (x, p) := Rounds(key, 0, Lanes(seed, seed, seed, seed, seed, seed, seed), secret);
      var i := if p <= n then n - p else 0;
      var s := Tail(key, n - i, i, if n > 112 then Fold(x) else seed, secret);
      Last(Xor64(Read64(key, n - 16), i), Read64(key, n - 8), s, i)
  }

  /** The two words that are read from a key of up to 16 bytes tell it from every other of its length. */
  lemma ShortKeysTold(k: seq<Byte>, l: seq<Byte>, seed: Word, secret: seq<Word>)
    requires |k| == |l| <= 16 && |secret| == 8
    requires Gather(k, seed, secret).a == Gather(l, seed, secret).a
    requires Gather(k, seed, secret).b == Gather(l, seed, secret).b
    ensures k == l
  {
    var n := |k|;
    if n >= 8 {
      ValueTells(k[0..8], l[0..8]);
      ValueTells(k[n - 8..n], l[n - 8..n]);
      assert k[n - 8..] == k[n - 8..n] && l[n - 8..] == l[n - 8..n];
      Overlap(k, l, 8);
    } else if n >= 4 {
      ValueTells(k[0..4], l[0..4]);
      ValueTells(k[n - 4..n], l[n - 4..n]);
      assert k[n - 4..] == k[n - 4..n] && l[n - 4..] == l[n - 4..n];
      Overlap(k, l, 4);
    } else {
      assert forall x | 0 <= x < n :: k[x] == l[x];
    }
  }

  lemma Overlap(k: seq<Byte>, l: seq<Byte>, w: nat)
    requires |k| == |l| && w <= |k| <= 2 * w && k[0..w] == l[0..w] && k[|k| - w..] == l[|k| - w..]
    ensures k == l
  {
    forall x | 0 <= x < |k| ensures k[x] == l[x] {
      if x < w {
        assert k[x] == k[0..w][x] && l[x] == l[0..w][x];
      } else {
        var y := x - (|k| - w);
        assert k[x] == k[|k| - w..][y] && l[x] == l[|k| - w..][y];
      }
    }
  }

  ghost function Hash(key: seq<Byte>, seed: Word, secret: seq<Word>): Word
    requires |secret| == 8 && |key| < WORD
  {
    var g := Gather(key, Xor64(seed, Mix(Xor64(seed, secret[2]), secret[1])), secret);
    var (a, b) := Mum(Xor64(g.a, secret[1]), Xor64(g.b, g.seed));
    Mix(Xor64(a, secret[7]), Xor64(Xor64(b, secret[1]), g.i))
  }

  /** rapidhash_internal. Both builds compute the same function of the key for every length, and read nothing but the
      key's bytes. */
  method RapidHash(key: seq<Byte>, seed0: Word, secret: seq<Word>, unrolled: bool) returns (h: Word)
    requires |secret| == 8 && |key| < WORD
    ensures h == Hash(key, seed0, secret)
  {
    hide Absorb, Mix, Mum, Xor64, Read64, Read32, Tail, Fold;
    var seed := Xor64(seed0, Mix(Xor64(seed0, secret[2]), secret[1]));
    ghost var start := seed;
    var a: Word, b: Word, i: Word := 0, 0, |key|;
    if |key| <= 16 {
      if |key| >= 4 {
        seed := Xor64(seed, |key|);
        if |key| >= 8 {
          a, b := Read64(key, 0), Read64(key, |key| - 8);
        } else {
          a, b := Read32(key, 0), Read32(key, |key| - 4);
        }
      } else if |key| > 0 {
        a, b := Spread(key[0], key[|key| - 1]), key[|key| / 2];
      }
    } else {
      var p := 0;
      if |key| > 112 {
        var x := Lanes(seed, seed, seed, seed, seed, seed, seed);
        if unrolled {
          x, p := LoopUnrolled(key, x, secret);
        } else {
          x, p := LoopCompact(key, x, secret);
        }
        i := |key| - p;
        seed := Fold(x);
      }
      seed := Tail(key, p, i, seed, secret);
      a, b := Xor64(Read64(key, p + i - 16), i), Read64(key, p + i - 8);
    }
    assert Last(a, b, seed, i) == Gather(key, start, secret);
    var m := Mum(Xor64(a, secret[1]), Xor64(b, seed));
    h := Mix(Xor64(m.0, secret[7]), Xor64(Xor64(m.1, secret[1]), i));
  }
}
