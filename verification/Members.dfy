/** What the string containers hold: entries with a TTL, at most one for each key. */
module Members {
  import opened Keys

  /** An object with its TTL tag; `expiry` means nothing without the tag. */
  datatype Node = Node(key: Key, value: string, ttl: bool, expiry: nat)

  datatype Option = None | Some(node: Node)

  predicate Due(x: Node, now: nat) { x.ttl && x.expiry <= now }

  ghost predicate AllLive(s: seq<Node>, now: nat) { forall x | x in s :: !Due(x, now) }

  /** `after` lacks some due entries of `before`, and nothing else. */
  ghost predicate Reaped(before: multiset<Node>, after: multiset<Node>, now: nat) {
    forall x: Node :: after[x] <= before[x] && (after[x] < before[x] ==> Due(x, now))
  }

  lemma ReapedTwice(a: multiset<Node>, b: multiset<Node>, c: multiset<Node>, now: nat)
    requires Reaped(a, b, now) && Reaped(b, c, now)
    ensures Reaped(a, c, now)
  {
    forall x: Node ensures c[x] <= a[x] && (c[x] < a[x] ==> Due(x, now)) {
      assert b[x] <= a[x] && c[x] <= b[x];
    }
  }

  /** No two entries have the same key. */
  ghost predicate Unique(m: multiset<Node>) {
    && (forall x | x in m :: m[x] == 1)
    && (forall x, y | x in m && y in m :: x.key == y.key ==> x == y)
  }

  lemma FewerReaped(a: multiset<Node>, b: multiset<Node>, now: nat)
    requires Reaped(a, b, now)
    ensures |b| <= |a|
  {
    assert a == b + (a - b);
  }

  lemma ReapedUnique(a: multiset<Node>, b: multiset<Node>, now: nat)
    requires Reaped(a, b, now) && Unique(a)
    ensures Unique(b)
  {
    assert forall x | x in b :: b[x] <= a[x];
  }

  ghost predicate HasKey(m: multiset<Node>, k: Key) { exists x :: x in m && x.key == k }

  lemma NothingReaped(m: multiset<Node>, now: nat)
    ensures Reaped(m, m, now)
  {
  }

  lemma ReapedMore(a: multiset<Node>, b: multiset<Node>, more: multiset<Node>, now: nat)
    requires Reaped(a, b, now)
    ensures Reaped(a + more, b + more, now)
  {
    forall x: Node ensures (b + more)[x] <= (a + more)[x] && ((b + more)[x] < (a + more)[x] ==> Due(x, now)) {
      assert b[x] <= a[x];
    }
  }

  lemma AddedUnique(m: multiset<Node>, mid: multiset<Node>, x: Node, now: nat)
    requires Reaped(m, mid, now) && Unique(mid) && !HasKey(m, x.key)
    ensures Unique(mid + multiset{x}) && (mid + multiset{x}) - multiset{x} == mid
  {
    forall y | y in mid ensures y.key != x.key {
      assert mid[y] <= m[y];
    }
  }

  lemma DropOne(m: multiset<Node>, rest: multiset<Node>, x: Node, now: nat)
    requires Reaped(m, rest + multiset{x}, now) && Due(x, now)
    ensures Reaped(m, rest, now)
  {
    ReapedTwice(m, rest + multiset{x}, rest, now);
  }

  lemma WasDue(m: multiset<Node>, m': multiset<Node>, k: Key, now: nat)
    requires Reaped(m, m', now) && !HasKey(m', k)
    ensures forall x | x in m && x.key == k :: Due(x, now)
  {
    forall x | x in m && x.key == k ensures Due(x, now) {
      assert x !in m';
      assert m'[x] < m[x];
    }
  }

  /** `y` stands in the place of `x`. */
  ghost predicate Exchanged(m: multiset<Node>, m': multiset<Node>, x: Node, y: Node) {
    y in m' && m' - multiset{y} + multiset{x} == m
  }

  lemma Replaced(m: multiset<Node>, m': multiset<Node>, x: Node, y: Node)
    requires Unique(m) && m' + multiset{x} == m + multiset{y} && x in m && x.key == y.key
    ensures Unique(m') && Exchanged(m, m', x, y) && |m'| == |m|
  {
    forall z: Node ensures m'[z] + (if z == x then 1 else 0) == m[z] + if z == y then 1 else 0 {
      assert (m' + multiset{x})[z] == (m + multiset{y})[z];
    }
    assert |m' + multiset{x}| == |m + multiset{y}|;
  }

  lemma FewerUnique(m: multiset<Node>, m': multiset<Node>)
    requires m <= m' && Unique(m')
    ensures Unique(m)
  {
    assert forall x | x in m :: m[x] <= m'[x];
  }

  lemma OneLess(m: multiset<Node>, x: Node)
    requires Unique(m + multiset{x})
    ensures Unique(m) && !HasKey(m, x.key)
  {
    assert forall y | y in m :: y in m + multiset{x};
    assert x in m + multiset{x};
  }

  lemma InBefore(m: multiset<Node>, m': multiset<Node>, x: Node, now: nat)
    requires Reaped(m, m', now) && x in m'
    ensures x in m
  {
    assert m'[x] <= m[x];
  }

  lemma ChainUpdate(chain: seq<Node>, c: nat, y: Node)
    requires c < |chain|
    ensures multiset(chain[c := y]) + multiset{chain[c]} == multiset(chain) + multiset{y}
  {
    assert chain == chain[..c] + [chain[c]] + chain[c + 1..];
    assert chain[c := y] == chain[..c] + [y] + chain[c + 1..];
  }

  ghost function KeysOf(m: multiset<Node>): set<Key> { set x | x in m :: x.key }

  // ---- sequences without repetitions ------------------------------------------------------

  ghost predicate Distinct(s: seq<Node>) { forall i, j | 0 <= i < j < |s| :: s[i] != s[j] }

  lemma {:induction false} DistinctCount(s: seq<Node>, x: Node)
    requires Distinct(s)
    ensures multiset(s)[x] == if x in s then 1 else 0
  {
    if s != [] {
      var last := |s| - 1;
      assert s == s[..last] + [s[last]];
      DistinctCount(s[..last], x);
    }
  }

  /** A sequence that is part of a multiset without repetitions has none. */
  lemma PartIsDistinct(s: seq<Node>, m: multiset<Node>)
    requires multiset(s) <= m && Unique(m)
    ensures Distinct(s)
  {
    forall i, j | 0 <= i < j < |s| ensures s[i] != s[j] {
      assert s == s[..j] + s[j..];
      assert multiset(s) == multiset(s[..j]) + multiset(s[j..]);
      assert s[..j][i] == s[i] && s[j..][0] == s[j];
      assert s[i] in multiset(s[..j]) && s[j] in multiset(s[j..]);
      assert m[s[i]] == 1;
    }
  }

  lemma DistinctJoin(a: seq<Node>, b: seq<Node>)
    requires Distinct(a) && Distinct(b) && forall x | x in a :: x !in b
    ensures Distinct(a + b)
  {
    var s := a + b;
    forall i, j | 0 <= i < j < |s| ensures s[i] != s[j] {
      if i < |a| <= j {
        assert s[i] == a[i] && s[j] == b[j - |a|];
        assert a[i] in a && b[j - |a|] in b;
      }
    }
  }

  /** A node that belongs here is reported as often as it is held. */
  lemma ReportedOnce(m: multiset<Node>, seen: seq<Node>, x: Node, here: bool)
    requires Unique(m) && Distinct(seen) && (x in seen <==> x in m && here)
    ensures multiset(seen)[x] == if here then m[x] else 0
  {
    DistinctCount(seen, x);
  }
}
