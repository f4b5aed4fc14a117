/** The slot array of an open-addressing table with a 16-slot window. A slot is empty, holds one entry, or is
    the extension point of a group of 16 buckets and holds a vector of entries. Beside each entry the slot keeps
    12 bits of its hash. */
module OahLayout {
  import opened Arith
  import opened Keys
  import opened Bags
  import opened Members

  const WINDOW := 16          // kDisplacementSize
  const TAG_BITS := 12        // kExtHashSize

  /** `tags[c]` is the cached hash of `nodes[c]`; only a vector holds more than one entry. */
  datatype Slot = Slot(nodes: seq<Node>, tags: seq<nat>, vec: bool)

  const EMPTY := Slot([], [], false)

  /** GetExtensionPoint: the last slot of the group of 16 the bucket lies in. */
  function ExtensionPoint(bid: nat): nat { bid / WINDOW * WINDOW + WINDOW - 1 }

  /** CalcExtHash: 12 bits of the hash that begin 4 bits before the end of the bucket number. Zero is replaced by
      one, so that an empty slot never matches. */
  function ExtHash(h: Hash, log: nat): (r: nat)
    ensures r > 0
  {
    var start := if log > 4 then log - 4 else 0;
    var t := if start + TAG_BITS <= 64 then Shr(h, 64 - start - TAG_BITS) % 4096 else 0;
    if t == 0 then 1 else t
  }

  /** The tag is the twelve bits of the hash behind the first `start`, except that one stands for zero. */
  lemma TagIsBits(h: Hash, start: nat, log: nat)
    requires start == (if log > 4 then log - 4 else 0) && start + TAG_BITS <= 64
    ensures var t := Shr(h, 64 - TAG_BITS - start) - 4096 * Shr(h, 64 - start);
            0 <= t < 4096 && ExtHash(h, log) == if t == 0 then 1 else t
  {
    var x := Shr(h, 64 - TAG_BITS - start);
    ShrShr(h, 64 - TAG_BITS - start, TAG_BITS);
    ShrTwelve(x);
  }

  lemma ShrTwelve(x: nat)
    ensures Shr(x, TAG_BITS) == x / 4096
  {
    ShrFour(x);
    ShrFour(Shr(x, 4));
    ShrFour(Shr(x, 8));
    ShrShr(x, 4, 4);
    ShrShr(x, 8, 4);
  }

  ghost predicate Shaped(s: Slot) { |s.nodes| == |s.tags| && (!s.vec ==> |s.nodes| <= 1) }

  /** Bucket `h` reaches slot `i`. */
  ghost predicate Reaches(h: nat, i: nat) { h <= i < h + WINDOW }

  ghost predicate SlotOk(s: Slot, i: nat, log: nat) {
    && Shaped(s) && (s.vec ==> i % WINDOW == WINDOW - 1)
    && (forall c | 0 <= c < |s.nodes| :: Reaches(BucketId(s.nodes[c].key, log), i))
    && (forall c | 0 <= c < |s.nodes| :: s.tags[c] == ExtHash(s.nodes[c].key.hash, log))
  }

  ghost predicate Layout(t: seq<Slot>, log: nat) {
    |t| == Pow2(log) + WINDOW - 1 && forall i | 0 <= i < |t| :: SlotOk(t[i], i, log)
  }

  // ---- contents -------------------------------------------------------------------------

  ghost function Contents(t: seq<Slot>): multiset<Node> {
    if t == [] then multiset{} else Contents(t[..|t| - 1]) + multiset(t[|t| - 1].nodes)
  }

  lemma {:induction false} ContentsUpdate(t: seq<Slot>, i: nat, s: Slot)
    requires i < |t|
    ensures Contents(t[i := s]) + multiset(t[i].nodes) == Contents(t) + multiset(s.nodes)
  {
    var last := |t| - 1;
    if i == last {
      assert t[i := s][..last] == t[..last];
    } else {
      assert t[i := s][..last] == t[..last][i := s];
      ContentsUpdate(t[..last], i, s);
      AlsoMore(Contents(t[..last][i := s]), multiset(t[i].nodes), Contents(t[..last]), multiset(s.nodes),
               multiset(t[last].nodes));
    }
  }

  lemma {:induction false} ContentsMember(t: seq<Slot>, x: Node)
    ensures x in Contents(t) <==> exists i | 0 <= i < |t| :: x in t[i].nodes
  {
    if t != [] {
      var last := |t| - 1;
      ContentsMember(t[..last], x);
      if i :| 0 <= i < |t| && x in t[i].nodes {
        assert i < last ==> x in t[..last][i].nodes;
      }
    }
  }

  lemma {:induction false} ContentsAppend(t: seq<Slot>, u: seq<Slot>)
    ensures Contents(t + u) == Contents(t) + Contents(u)
  {
    if u == [] {
      assert t + u == t;
    } else {
      var last := |u| - 1;
      assert (t + u)[..|t + u| - 1] == t + u[..last];
      ContentsAppend(t, u[..last]);
    }
  }

  lemma {:induction false} NoContents(t: seq<Slot>)
    requires forall i | 0 <= i < |t| :: t[i].nodes == []
    ensures Contents(t) == multiset{}
  {
    if t != [] {
      NoContents(t[..|t| - 1]);
    }
  }

  function Empties(n: nat): (r: seq<Slot>)
    ensures |r| == n && forall i | 0 <= i < n :: r[i] == EMPTY
  {
    if n == 0 then [] else Empties(n - 1) + [EMPTY]
  }

  // ---- one slot -------------------------------------------------------------------------

  /** OAHPtr::Insert: a second entry turns the slot into a vector. */
  function Added(s: Slot, x: Node, tag: nat): Slot {
    Slot(s.nodes + [x], s.tags + [tag], s != EMPTY)
  }

  lemma AddedContents(s: Slot, x: Node, tag: nat)
    ensures multiset(Added(s, x, tag).nodes) == multiset(s.nodes) + multiset{x}
  {
  }

  /** An entry of bucket `b` may go to slot `i`: one its window reaches that is empty, or the extension point. */
  ghost predicate MayGo(t: seq<Slot>, b: nat, i: nat) {
    i < |t| && Reaches(b, i) && (t[i] == EMPTY || i == ExtensionPoint(b))
  }

  /** The slot an insertion chooses: the first empty one the bucket reaches, or the extension point if there is none. */
  ghost predicate GoesTo(t: seq<Slot>, b: nat, i: nat) {
    && MayGo(t, b, i) && b + WINDOW <= |t|
    && forall j | b <= j < b + WINDOW && (j < i || t[i] != EMPTY) :: t[j] != EMPTY
  }

  ghost predicate WentTo(t: seq<Slot>, t': seq<Slot>, x: Node, log: nat) {
    exists i: nat | GoesTo(t, BucketId(x.key, log), i) :: t' == t[i := Added(t[i], x, ExtHash(x.key.hash, log))]
  }

  /** A foreign single at the extension point is promoted into the vector: it belongs to the same group. */
  lemma AddedOk(s: Slot, i: nat, log: nat, x: Node)
    requires SlotOk(s, i, log) && Reaches(BucketId(x.key, log), i)
    requires s == EMPTY || i == ExtensionPoint(BucketId(x.key, log))
    ensures SlotOk(Added(s, x, ExtHash(x.key.hash, log)), i, log)
  {
    hide BucketId, ExtHash;
  }

  /** The window meets exactly one extension point, its bucket's own. */
  lemma OneExtensionPoint(b: nat, i: nat)
    ensures Reaches(b, ExtensionPoint(b))
    ensures Reaches(b, i) && i % WINDOW == WINDOW - 1 ==> i == ExtensionPoint(b)
  {
  }

  function WithoutAt<T>(s: seq<T>, c: nat): seq<T>
    requires c < |s|
  {
    s[..c] + s[c + 1..]
  }

  /** An entry is taken out of its cell. */
  function Removed(s: Slot, c: nat): Slot
    requires c < |s.nodes| == |s.tags|
  {
    Slot(WithoutAt(s.nodes, c), WithoutAt(s.tags, c), s.vec)
  }

  lemma RemovedOk(s: Slot, i: nat, log: nat, c: nat)
    requires SlotOk(s, i, log) && c < |s.nodes|
    ensures SlotOk(Removed(s, c), i, log)
    ensures multiset(Removed(s, c).nodes) + multiset{s.nodes[c]} == multiset(s.nodes)
  {
    hide BucketId, ExtHash;
    assert s.nodes == s.nodes[..c] + [s.nodes[c]] + s.nodes[c + 1..];
  }

  // ---- recovering the home bucket from the cached hash -----------------------------------

  function PartBits(log: nat): nat { if log < 4 then log else 4 }

  /** The leading bits of the cached hash are the low bits of the bucket number. */
  lemma TagIsHome(k: Key, log: nat)
    requires log <= 52
    ensures Shr(ExtHash(k.hash, log), TAG_BITS - PartBits(log)) == BucketId(k, log) % Pow2(PartBits(log))
  {
    var (part, start) := (PartBits(log), if log > 4 then log - 4 else 0);
    var (t0, a) := (Shr(k.hash, 64 - start - TAG_BITS), TAG_BITS - part);
    ShrShr(k.hash, 64 - start - TAG_BITS, a);
    TwelveBits();
    ShrMod(t0, a, part);
    hide Shr;
    ShrOne(a);
    assert ExtHash(k.hash, log) == if t0 % 4096 == 0 then 1 else t0 % 4096;
  }

  lemma TwelveBits()
    ensures Pow2(TAG_BITS) == 4096 && Pow2(4) == 16
  {
    assert Pow2(4) == 16;
    hide Pow2;
    Pow2Add(4, 4);
    Pow2Add(8, 4);
  }

  lemma ShrOne(a: nat)
    requires a > 0
    ensures Shr(1, a) == Shr(0, a) == 0
  {
    ShrZero(a - 1);
    ShrZero(a);
  }

  lemma {:induction false} ShrZero(a: nat)
    ensures Shr(0, a) == 0
  {
    if a > 0 {
      ShrZero(a - 1);
    }
  }

  /** Two buckets that reach one slot and agree on these bits are the same. */
  lemma SameBucket(b: nat, h: nat, log: nat)
    requires b < Pow2(log) && h < Pow2(log) && b - WINDOW < h < b + WINDOW
    ensures b % Pow2(PartBits(log)) == h % Pow2(PartBits(log)) <==> b == h
  {
    if log < 4 {
      SmallMod(b, Pow2(log));
      SmallMod(h, Pow2(log));
    } else {
      TwelveBits();
    }
  }

  lemma SmallMod(x: nat, n: nat)
    requires x < n
    ensures x % n == x
  {
    ModUnique(x, n, 0, x);
  }
}
