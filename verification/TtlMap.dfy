/** What the string containers stand for: a finite map with TTLs and a clock that does not go back. */
module TtlMap {
  import opened Keys
  import opened Members

  datatype Op =
    | Tick(seconds: nat)
    | Put(node: Node)                 // replaces a live entry of its key
    | Offer(node: Node)               // keeps a live entry of its key
    | Remove(key: Key)
    | Get(key: Key)
    | Expire(key: Key, at: nat)       // sets the expiry of a live entry
    | Grow(size: nat)
    | Shrink(size: nat)
    | Reap(budget: nat)               // one step of the reaper
    | Wipe

  datatype State = State(nodes: map<Key, Node>, now: nat)

  const START := State(map[], 0)

  predicate Live(s: State, k: Key) { k in s.nodes && !Due(s.nodes[k], s.now) }

  function Seen(s: State, k: Key): Option { if Live(s, k) then Some(s.nodes[k]) else None }

  /** Only the clock and the calls that say so change what is there; resizing and reaping do not. */
  function Next(s: State, op: Op): State {
    match op
    case Tick(d) => s.(now := s.now + d)
    case Put(x) => s.(nodes := s.nodes[x.key := x])
    case Offer(x) => if Live(s, x.key) then s else s.(nodes := s.nodes[x.key := x])
    case Remove(k) => s.(nodes := s.nodes - {k})
    case Expire(k, at) => if Live(s, k) then s.(nodes := s.nodes[k := s.nodes[k].(ttl := true, expiry := at)]) else s
    case Wipe => s.(nodes := map[])
    case Get(_) => s
    case Grow(_) => s
    case Shrink(_) => s
    case Reap(_) => s
  }

  /** What the caller learns: the live entry there was. */
  function Answer(s: State, op: Op): Option {
    match op
    case Put(x) => Seen(s, x.key)
    case Offer(x) => Seen(s, x.key)
    case Remove(k) => Seen(s, k)
    case Get(k) => Seen(s, k)
    case Expire(k, _) => Seen(s, k)
    case Tick(_) => None
    case Grow(_) => None
    case Shrink(_) => None
    case Reap(_) => None
    case Wipe => None
  }

  ghost function After(ops: seq<Op>): State {
    if ops == [] then START else Next(After(ops[..|ops| - 1]), ops[|ops| - 1])
  }

  // ---- how long an entry is seen --------------------------------------------------------

  ghost function Clock(ops: seq<Op>): nat {
    if ops == [] then 0
    else Clock(ops[..|ops| - 1]) + match ops[|ops| - 1] case Tick(d) => d case _ => 0
  }

  predicate Concerns(op: Op, k: Key) {
    match op
    case Put(x) => x.key == k
    case Offer(x) => x.key == k
    case Remove(j) => j == k
    case Expire(j, _) => j == k
    case Wipe => true
    case _ => false
  }

  ghost predicate NotConcerned(ops: seq<Op>, m: nat, k: Key) {
    forall i | m < i < |ops| :: !Concerns(ops[i], k)
  }

  lemma {:induction false} NowIsClock(ops: seq<Op>)
    ensures After(ops).now == Clock(ops)
  {
    if ops != [] {
      NowIsClock(ops[..|ops| - 1]);
    }
  }

  /** What a call has made of a key stays as it is until the next call that concerns the key. */
  lemma {:induction false} StaysAsIs(ops: seq<Op>, m: nat, k: Key)
    requires m < |ops| && NotConcerned(ops, m, k)
    ensures var (s, t) := (After(ops[..m + 1]), After(ops));
            (k in t.nodes <==> k in s.nodes) && (k in t.nodes ==> t.nodes[k] == s.nodes[k]) && s.now <= t.now
  {
    var n := |ops| - 1;
    if m == n {
      assert ops[..m + 1] == ops;
    } else {
      assert ops[..n][..m + 1] == ops[..m + 1];
      StaysAsIs(ops[..n], m, k);
      assert !Concerns(ops[n], k);
    }
  }

  /** An entry that has been put is seen as long as nothing else happens to its key, up to its expiry if it has one. */
  lemma Lifetime(ops: seq<Op>, m: nat)
    requires m < |ops| && ops[m].Put? && NotConcerned(ops, m, ops[m].node.key)
    ensures var x := ops[m].node;
            Seen(After(ops), x.key) == if x.ttl && Clock(ops) >= x.expiry then None else Some(x)
  {
    AfterNext(ops, m);
    StaysAsIs(ops, m, ops[m].node.key);
    NowIsClock(ops);
  }

  /** One that is offered replaces only what was not seen. */
  lemma OfferedLifetime(ops: seq<Op>, m: nat)
    requires m < |ops| && ops[m].Offer? && NotConcerned(ops, m, ops[m].node.key)
    ensures var was := Seen(After(ops[..m]), ops[m].node.key);
            var x := if was.Some? then was.node else ops[m].node;
            Seen(After(ops), ops[m].node.key) == if x.ttl && Clock(ops) >= x.expiry then None else Some(x)
  {
    AfterNext(ops, m);
    StaysAsIs(ops, m, ops[m].node.key);
    NowIsClock(ops);
  }

  /** A new expiry counts for an entry that was seen, and does not bring back one that was not. */
  lemma ExpiryCounts(ops: seq<Op>, m: nat)
    requires m < |ops| && ops[m].Expire? && NotConcerned(ops, m, ops[m].key)
    ensures var was := Seen(After(ops[..m]), ops[m].key);
            Seen(After(ops), ops[m].key)
            == if was.None? || Clock(ops) >= ops[m].at then None
               else Some(was.node.(ttl := true, expiry := ops[m].at))
  {
    AfterNext(ops, m);
    StaysAsIs(ops, m, ops[m].key);
    NowIsClock(ops);
  }

  lemma GoneStaysGone(ops: seq<Op>, m: nat, k: Key)
    requires m < |ops| && (ops[m] == Remove(k) || ops[m].Wipe?) && NotConcerned(ops, m, k)
    ensures Seen(After(ops), k) == None
  {
    AfterNext(ops, m);
    StaysAsIs(ops, m, k);
  }

  /** A container with the entries `m` stands for the map: nothing else is there, and nothing live is missing. */
  ghost predicate Agrees(s: State, m: multiset<Node>) {
    && (forall k | k in s.nodes :: s.nodes[k].key == k)
    && (forall x | x in m :: x.key in s.nodes && s.nodes[x.key] == x)
    && (forall k | Live(s, k) :: s.nodes[k] in m)
  }

  lemma AfterNext(ops: seq<Op>, n: nat)
    requires n < |ops|
    ensures After(ops[..n + 1]) == Next(After(ops[..n]), ops[n])
  {
    assert ops[..n + 1][..n] == ops[..n];
  }

  /** Only the clock changes the time. */
  lemma NextNow(s: State, op: Op)
    ensures !op.Tick? ==> Next(s, op).now == s.now
  {
  }

  lemma ReapedAgrees(s: State, m: multiset<Node>, m': multiset<Node>)
    requires Agrees(s, m) && Reaped(m, m', s.now)
    ensures Agrees(s, m')
  {
    forall x | x in m' ensures x in m {
      InBefore(m, m', x, s.now);
    }
    forall k | Live(s, k) ensures s.nodes[k] in m' {
      assert m'[s.nodes[k]] <= m[s.nodes[k]];
    }
  }

  lemma TickAgrees(s: State, m: multiset<Node>, d: nat)
    requires Agrees(s, m)
    ensures Agrees(Next(s, Tick(d)), m)
  {
    forall k | Live(Next(s, Tick(d)), k) ensures Live(s, k) {
    }
  }

  /** A call that reports the live entry of a key, if there is one, reports what the map has. */
  lemma SeenIs(s: State, m: multiset<Node>, k: Key, was: Option)
    requires Agrees(s, m)
    requires was.Some? ==> was.node.key == k && was.node in m && !Due(was.node, s.now)
    requires was.None? ==> forall y | y in m && y.key == k :: Due(y, s.now)
    ensures was == Seen(s, k)
  {
    if Live(s, k) {
      assert s.nodes[k] in m;
    }
  }

  ghost function One(was: Option): multiset<Node> {
    if was.Some? then multiset{was.node} else multiset{}
  }

  /** `x` has been put in place of the entry reported, or added. */
  lemma PutAgrees(s: State, m: multiset<Node>, m': multiset<Node>, x: Node, was: Option)
    requires Agrees(s, m) && Unique(m') && x in m' && was == Seen(s, x.key)
    requires Reaped(m, m' - multiset{x} + One(was), s.now)
    ensures Agrees(s.(nodes := s.nodes[x.key := x]), m')
  {
    hide Reaped, One, Due;
    var t := s.(nodes := s.nodes[x.key := x]);
    var rest := m' - multiset{x} + One(was);
    forall y | y in m' ensures y.key in t.nodes && t.nodes[y.key] == y {
      if y != x {
        Alike(m', rest, x, was, y);
        InBefore(m, rest, y, s.now);
      }
    }
    forall k | Live(t, k) && k != x.key ensures t.nodes[k] in m' {
      var y := s.nodes[k];
      assert Live(s, k) && y.key == k;
      Alike(m', rest, x, was, y);
      StaysIn(m, rest, y, s.now);
    }
  }

  /** Entries of other keys are not concerned. */
  lemma Alike(m: multiset<Node>, rest: multiset<Node>, x: Node, was: Option, y: Node)
    requires rest == m - multiset{x} + One(was) && y.key != x.key && (was.Some? ==> was.node.key == x.key)
    ensures rest[y] == m[y]
  {
  }

  lemma AlikeLess(m: multiset<Node>, k: Key, was: Option, y: Node)
    requires y.key != k && (was.Some? ==> was.node.key == k)
    ensures (m + One(was))[y] == m[y]
  {
  }

  lemma StaysIn(m: multiset<Node>, m': multiset<Node>, y: Node, now: nat)
    requires Reaped(m, m', now) && y in m && !Due(y, now)
    ensures y in m'
  {
    assert m'[y] <= m[y];
  }

  lemma ExchangedReaps(m: multiset<Node>, m': multiset<Node>, x: Node, y: Node, now: nat)
    requires Exchanged(m, m', x, y)
    ensures Reaped(m, m' - multiset{y} + One(Some(x)), now)
  {
  }

  lemma NothingReplaced(m: multiset<Node>)
    ensures m + One(None) == m
  {
  }

  lemma StartAgrees()
    ensures Agrees(START, multiset{})
  {
  }

  lemma RemoveAgrees(s: State, m: multiset<Node>, m': multiset<Node>, k: Key, was: Option)
    requires Agrees(s, m) && !HasKey(m', k) && was == Seen(s, k)
    requires Reaped(m, m' + One(was), s.now)
    ensures Agrees(Next(s, Remove(k)), m')
  {
    hide Reaped, One, Due, HasKey, Seen;
    var t := s.(nodes := s.nodes - {k});
    assert was.Some? ==> was.node.key == k by {
      SeenKey(s, m, k);
    }
    forall y | y in m' ensures y.key in t.nodes && t.nodes[y.key] == y {
      OtherKey(m', k, y);
      AlikeLess(m', k, was, y);
      InBefore(m, m' + One(was), y, s.now);
    }
    forall j | Live(t, j) ensures t.nodes[j] in m' {
      var y := s.nodes[j];
      assert y.key == j && Live(s, j);
      AlikeLess(m', k, was, y);
      StaysIn(m, m' + One(was), y, s.now);
    }
    hide Live;
    assert Agrees(t, m');
  }

  lemma SeenKey(s: State, m: multiset<Node>, k: Key)
    requires Agrees(s, m)
    ensures Seen(s, k).Some? ==> Seen(s, k).node.key == k
  {
  }

  lemma OtherKey(m: multiset<Node>, k: Key, y: Node)
    requires !HasKey(m, k) && y in m
    ensures y.key != k
  {
  }

  lemma ExpireAgrees(s: State, m: multiset<Node>, m': multiset<Node>, k: Key, at: nat, was: Option)
    requires Agrees(s, m) && was == Seen(s, k)
    requires was.Some? ==> var x := was.node.(ttl := true, expiry := at);
                           Unique(m') && x in m' && Reaped(m, m' - multiset{x} + One(was), s.now)
    requires was.None? ==> Reaped(m, m', s.now)
    ensures Agrees(Next(s, Expire(k, at)), m')
  {
    hide Reaped, One, Due, Unique;
    SeenKey(s, m, k);
    if was.Some? {
      PutAgrees(s, m, m', was.node.(ttl := true, expiry := at), was);
    } else {
      ReapedAgrees(s, m, m');
    }
  }

  lemma WipeAgrees(s: State)
    ensures Agrees(Next(s, Wipe), multiset{})
  {
  }
}
