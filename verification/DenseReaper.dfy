/** The resumable TTL reaper of a dense set: a walk over all buckets in steps of bounded size, between which
    the set may change in any way. */
module DenseReaper {
  import opened Members
  import opened DenseBuckets
  import opened DenseSet

  /** Where the next step begins: a pass over another capacity starts over. */
  ghost function StepStart(s: Set): nat
    reads s
  {
    if s.reaperCursor != 0 && s.capacityLog != s.reaperPassLog then 0 else s.reaperCursor
  }

  /** Whether the pass the next step belongs to has seen a TTL that stayed. */
  ghost predicate StepSeen(s: Set)
    reads s
  {
    !(s.reaperCursor != 0 && s.capacityLog != s.reaperPassLog) && s.reaperTtlSeen
  }

  ghost predicate SomeDue(chain: seq<Node>, now: nat) { exists x :: x in chain && Due(x, now) }

  ghost predicate DueWithin(t: seq<Bucket>, lo: nat, hi: nat, now: nat) {
    exists i | lo <= i < hi && i < |t| :: SomeDue(t[i].chain, now)
  }

  /** The next step of this budget has something to delete. */
  ghost predicate StepHasDue(s: Set, maxSlots: nat)
    reads s
  {
    DueWithin(s.entries, StepStart(s), StepStart(s) + maxSlots, s.timeNow)
  }

  /** A pass that began under another capacity starts over. */
  method BeginStep(s: Set)
    requires s.Valid()
    modifies s`reaperCursor, s`reaperTtlSeen, s`reaperPassLog
    ensures s.Valid() && s.reaperCursor == old(StepStart(s)) == StepStart(s) && s.reaperTtlSeen == old(StepSeen(s))
    ensures s.reaperPassLog == s.capacityLog
  {
    hide Contents, TableOk, Unique;
    if s.reaperCursor != 0 && s.capacityLog != s.reaperPassLog {
      s.reaperCursor, s.reaperTtlSeen := 0, false;
    }
    s.reaperPassLog := s.capacityLog;
  }

  /** DenseSet::ReaperStepHasDue: deletes nothing. */
  method ReaperStepHasDue(s: Set, maxSlots: nat) returns (r: bool)
    requires s.Valid()
    modifies s`reaperCursor, s`reaperTtlSeen, s`reaperPassLog
    ensures s.Valid() && StepHasDue(s, maxSlots) == old(StepHasDue(s, maxSlots))
    ensures s.timeNow != 0 ==> r == StepHasDue(s, maxSlots)
    ensures s.timeNow == 0 ==> !r
  {
    hide Contents, TableOk, Unique;
    if s.entries == [] || s.timeNow == 0 {
      return false;
    }
    BeginStep(s);
    var end := if s.reaperCursor + maxSlots < |s.entries| then s.reaperCursor + maxSlots else |s.entries|;
    var i := s.reaperCursor;
    while i < end
      modifies {}
      invariant s.reaperCursor <= i
      invariant !DueWithin(s.entries, s.reaperCursor, i, s.timeNow)
      decreases end - i
    {
      var c := 0;
      while c < |s.entries[i].chain|
        modifies {}
        invariant forall d | 0 <= d < c && d < |s.entries[i].chain| :: !Due(s.entries[i].chain[d], s.timeNow)
      {
        if Due(s.entries[i].chain[c], s.timeNow) {
          assert SomeDue(s.entries[i].chain, s.timeNow);
          return true;
        }
        c := c + 1;
      }
      assert !SomeDue(s.entries[i].chain, s.timeNow);
      i := i + 1;
    }
    return false;
  }

  /** A chain without its due entries. */
  ghost function Alive(chain: seq<Node>, now: nat): seq<Node> {
    if chain == [] then []
    else Alive(chain[..|chain| - 1], now) + if Due(chain[|chain| - 1], now) then [] else [chain[|chain| - 1]]
  }

  lemma {:induction false} AliveFacts(chain: seq<Node>, now: nat)
    ensures |Alive(chain, now)| <= |chain|
    ensures |Alive(chain, now)| < |chain| <==> SomeDue(chain, now)
    ensures !SomeDue(chain, now) ==> Alive(chain, now) == chain
    ensures !SomeDue(Alive(chain, now), now)
  {
    if chain != [] {
      var (rest, x) := (chain[..|chain| - 1], chain[|chain| - 1]);
      AliveFacts(rest, now);
      assert chain == rest + [x];
    }
  }

  lemma {:induction false} AliveAppend(a: seq<Node>, b: seq<Node>, now: nat)
    ensures Alive(a + b, now) == Alive(a, now) + Alive(b, now)
  {
    if b == [] {
      assert a + b == a;
    } else {
      assert (a + b)[..|a + b| - 1] == a + b[..|b| - 1];
      AliveAppend(a, b[..|b| - 1], now);
    }
  }

  lemma AliveNone(x: Node, now: nat)
    requires Due(x, now)
    ensures Alive([x], now) == []
  {
    assert Alive([], now) == [];
  }

  lemma {:induction false} DropAtAlive(b: Bucket, c: nat, now: nat)
    requires c <= |b.chain|
    ensures Alive(DropAt(b, c, now).chain, now) == Alive(b.chain, now)
    decreases |b.chain|
  {
    hide Alive;
    if c < |b.chain| && Due(b.chain[c], now) {
      var (p, x, q) := (b.chain[..c], b.chain[c], b.chain[c + 1..]);
      assert b.chain == p + ([x] + q);
      AliveAppend(p, [x] + q, now);
      AliveAppend([x], q, now);
      AliveNone(x, now);
      AliveAppend(p, q, now);
      DropAtAlive(Remove(b, c), c, now);
    }
  }

  ghost predicate LiveBelow(chain: seq<Node>, n: nat, now: nat) {
    forall d | 0 <= d < |chain| && d < n :: !Due(chain[d], now)
  }

  /** What one ExpireIfNeeded of the walk does to a chain whose first `c` nodes are live. */
  lemma WalkStep(b: Bucket, c: nat, now: nat)
    requires c <= |b.chain| && LiveBelow(b.chain, c, now)
    ensures var r := DropAt(b, c, now);
            && c <= |r.chain| && r.chain[..c] == b.chain[..c] && LiveBelow(r.chain, c + 1, now)
            && Alive(r.chain, now) == Alive(b.chain, now)
  {
    hide Alive, DropAt;
    DropAtChain(b, c, now);
    DropAtAlive(b, c, now);
    var r := DropAt(b, c, now);
    assert forall d | 0 <= d < c :: r.chain[..c][d] == b.chain[..c][d];
  }

  /** One bucket of a step: every due entry of the chain goes, and a TTL that stays is noted. */
  method ReapBucket(s: Set, i: nat)
    requires s.Valid() && i < |s.entries|
    modifies s`entries, s`size, s`reaperTtlSeen
    ensures s.Shaped() && |s.entries| == |old(s.entries)| && s.entries == old(s.entries)[i := s.entries[i]]
    ensures Expired(old(s.entries), s.entries, s.timeNow)
    ensures s.entries[i].chain == Alive(old(s.entries)[i].chain, s.timeNow)
    ensures s.size + |old(s.entries)[i].chain| == old(s.size) + |s.entries[i].chain|
    ensures s.reaperTtlSeen == (old(s.reaperTtlSeen) || !NoTtl(s.entries[i].chain))
  {
    hide Contents, TableOk, DropAt, Expired, Unique, Alive, NoTtl, LiveBelow;
    var c := 0;
    ghost var was := s.entries[i];
    NothingLive(was.chain, s.timeNow);
    WalkStep(was, 0, s.timeNow);
    s.ExpireIfNeeded(i, 0);
    while c < |s.entries[i].chain|
      invariant s.Shaped() && |s.entries| == |old(s.entries)| && s.entries == old(s.entries)[i := s.entries[i]]
      invariant Expired(old(s.entries), s.entries, s.timeNow) && c <= |s.entries[i].chain|
      invariant s.size + |was.chain| == old(s.size) + |s.entries[i].chain|
      invariant Alive(s.entries[i].chain, s.timeNow) == Alive(was.chain, s.timeNow)
      invariant LiveBelow(s.entries[i].chain, c + 1, s.timeNow)
      invariant s.reaperTtlSeen == (old(s.reaperTtlSeen) || !NoTtl(s.entries[i].chain[..c]))
      decreases |s.entries[i].chain| - c
    {
      NoTtlNext(s.entries[i].chain, c);
      if s.entries[i].chain[c].ttl {
        s.reaperTtlSeen := true;
      }
      ghost var before := s.entries;
      WalkStep(s.entries[i], c + 1, s.timeNow);
      DropAtChain(s.entries[i], c + 1, s.timeNow);
      s.ExpireIfNeeded(i, c + 1);
      ExpiredTwice(old(s.entries), before, s.entries, s.timeNow);
      c := c + 1;
    }
    assert s.entries[i].chain[..c] == s.entries[i].chain;
    AllLive(s.entries[i].chain, c, s.timeNow);
  }

  lemma NothingLive(chain: seq<Node>, now: nat)
    ensures LiveBelow(chain, 0, now) && NoTtl([])
  {
  }

  lemma NoTtlNext(chain: seq<Node>, c: nat)
    requires c < |chain|
    ensures NoTtl(chain[..c + 1]) <==> NoTtl(chain[..c]) && !chain[c].ttl
  {
    assert chain[..c + 1] == chain[..c] + [chain[c]];
  }

  lemma AllLive(chain: seq<Node>, c: nat, now: nat)
    requires c >= |chain| && LiveBelow(chain, c + 1, now)
    ensures Alive(chain, now) == chain
  {
    AliveFacts(chain, now);
  }

  lemma DueNext(t: seq<Bucket>, lo: nat, i: nat, now: nat)
    requires lo <= i < |t|
    ensures DueWithin(t, lo, i + 1, now) <==> DueWithin(t, lo, i, now) || SomeDue(t[i].chain, now)
  {
    hide SomeDue;
  }

  /** An empty window has nothing due, and one that reaches over the end no more than one up to it. */
  lemma DueWindow(t: seq<Bucket>, lo: nat, hi: nat, now: nat)
    ensures !DueWithin(t, lo, lo, now) && (lo >= |t| ==> !DueWithin(t, lo, hi, now))
    ensures DueWithin(t, lo, hi, now) <==> DueWithin(t, lo, if hi < |t| then hi else |t|, now)
  {
    hide SomeDue;
  }

  lemma ReapedNext(t: seq<Bucket>, t': seq<Bucket>, i: nat, now: nat)
    requires Expired(t, t', now) && i < |t|
    ensures NoTtlBelow(t, i) && NoTtl(t'[i].chain) ==> NoTtlBelow(t', i + 1)
  {
    hide NoTtl;
    if NoTtlBelow(t, i) && NoTtl(t'[i].chain) {
      ExpiredNoTtl(t, t', i, now);
    }
  }

  lemma NoTtlNone(t: seq<Bucket>)
    ensures NoTtlBelow(t, 0)
  {
  }

  lemma NoTtlAll(t: seq<Bucket>, n: nat)
    requires n >= |t|
    ensures NoTtlBelow(t, n) <==> NoTtlBelow(t, |t|)
  {
  }

  /** Nothing due is left in the buckets [lo, hi), and the flag has risen exactly if a TTL is left there. */
  ghost predicate Walked(t: seq<Bucket>, lo: nat, hi: nat, now: nat, before: bool, after: bool) {
    !DueWithin(t, lo, hi, now) && (after <==> before || !NoTtlWithin(t, lo, hi))
  }

  ghost predicate NoTtlWithin(t: seq<Bucket>, lo: nat, hi: nat) {
    forall i | lo <= i < hi && i < |t| :: NoTtl(t[i].chain)
  }

  lemma NothingWalked(t: seq<Bucket>, lo: nat, now: nat, seen: bool)
    ensures Walked(t, lo, lo, now, seen, seen)
  {
  }

  lemma OneMoreWalked(t: seq<Bucket>, t': seq<Bucket>, lo: nat, i: nat, now: nat, before: bool, seen: bool, seen': bool)
    requires Walked(t, lo, i, now, before, seen) && lo <= i < |t| == |t'| && t' == t[i := t'[i]]
    requires t'[i].chain == Alive(t[i].chain, now) && seen' == (seen || !NoTtl(t'[i].chain))
    ensures Walked(t', lo, i + 1, now, before, seen')
  {
    hide NoTtl, SomeDue, Alive;
    AliveFacts(t[i].chain, now);
    DueNext(t', lo, i, now);
    assert forall j | lo <= j < i :: t'[j] == t[j];
    assert NoTtlWithin(t', lo, i + 1) <==> NoTtlWithin(t', lo, i) && NoTtl(t'[i].chain);
  }

  /** The buckets from the cursor up to `end`. */
  method ReapWindow(s: Set, end: nat) returns (i: nat)
    requires s.Valid() && end <= |s.entries|
    modifies s`entries, s`size, s`reaperTtlSeen
    ensures s.Valid() && |s.entries| == |old(s.entries)| && Expired(old(s.entries), s.entries, s.timeNow)
    ensures i == if end < s.reaperCursor then s.reaperCursor else end
    ensures s.size <= old(s.size) && (s.size < old(s.size) <==> DueWithin(old(s.entries), s.reaperCursor, i, s.timeNow))
    ensures !s.reaperTtlSeen ==> NoTtlBelow(s.entries, i)
    ensures Walked(s.entries, s.reaperCursor, i, s.timeNow, old(s.reaperTtlSeen), s.reaperTtlSeen)
    ensures forall j | 0 <= j < |s.entries| && !(s.reaperCursor <= j < i) :: s.entries[j] == old(s.entries)[j]
  {
    hide Contents, TableOk, Unique, Reaped, Expired, NoTtlBelow, Alive, SomeDue, DueWithin, Walked;
    i := s.reaperCursor;
    NothingExpired(s.entries, s.timeNow);
    NothingWalked(s.entries, i, s.timeNow, s.reaperTtlSeen);
    DueWindow(s.entries, i, i, s.timeNow);
    while i < end
      invariant s.Valid() && |s.entries| == |old(s.entries)| && Expired(old(s.entries), s.entries, s.timeNow)
      invariant s.reaperCursor <= i && (i <= end || i == s.reaperCursor)
      invariant forall j | 0 <= j < |s.entries| && !(s.reaperCursor <= j < i) :: s.entries[j] == old(s.entries)[j]
      invariant s.size <= old(s.size)
      invariant s.size < old(s.size) <==> DueWithin(old(s.entries), s.reaperCursor, i, s.timeNow)
      invariant !s.reaperTtlSeen ==> NoTtlBelow(s.entries, i)
      invariant Walked(s.entries, s.reaperCursor, i, s.timeNow, old(s.reaperTtlSeen), s.reaperTtlSeen)
      decreases end - i
    {
      ghost var (before, seen) := (s.entries, s.reaperTtlSeen);
      ReapBucket(s, i);
      OneMoreWalked(before, s.entries, s.reaperCursor, i, s.timeNow, old(s.reaperTtlSeen), seen, s.reaperTtlSeen);
      AliveFacts(before[i].chain, s.timeNow);
      s.StillValid(before);
      DueNext(old(s.entries), s.reaperCursor, i, s.timeNow);
      ReapedNext(before, s.entries, i, s.timeNow);
      ExpiredTwice(old(s.entries), before, s.entries, s.timeNow);
      i := i + 1;
    }
  }

  /** The window of the step, cut off at the end of the table. */
  lemma WholeWindow(t: seq<Bucket>, lo: nat, hi: nat, i: nat, now: nat)
    requires i == (if lo < (if hi < |t| then hi else |t|) then (if hi < |t| then hi else |t|) else lo) && lo <= hi
    ensures DueWithin(t, lo, hi, now) <==> DueWithin(t, lo, i, now)
    ensures NoTtlBelow(t, lo) && hi >= |t| ==> (NoTtlWithin(t, lo, i) <==> NoTtlBelow(t, |t|))
    ensures !NoTtlWithin(t, lo, i) ==> !NoTtlBelow(t, |t|)
  {
    hide NoTtl, SomeDue;
  }

  /** DenseSet::ReaperExpireStep. When it returns true, no entry has a TTL. It deletes something exactly when
      there was something due in its window, and never anything that was not. */
  method ReaperExpireStep(s: Set, maxSlots: nat) returns (clean: bool)
    requires s.Valid()
    modifies s`entries, s`size, s`reaperCursor, s`reaperTtlSeen, s`reaperPassLog
    ensures s.Valid() && Reaped(old(s.Members()), s.Members(), s.timeNow)
    ensures clean ==> forall x | x in s.Members() :: !x.ttl
    ensures s.size <= old(s.size) && (s.size < old(s.size) <==> old(StepHasDue(s, maxSlots)))
    ensures !DueWithin(s.entries, old(StepStart(s)), old(StepStart(s)) + maxSlots, s.timeNow)
    ensures var end := old(StepStart(s)) + maxSlots;
            && s.reaperCursor == (if end < |s.entries| then end else 0)
            && (clean <==> s.entries == [] || (end >= |s.entries| && !old(StepSeen(s))
                                               && NoTtlBelow(s.entries, |s.entries|)))
            && s.reaperPassLog == (if end < |s.entries| then s.capacityLog else 0)
            && (s.reaperTtlSeen <==> end < |s.entries|
                                     && (old(StepSeen(s)) || !NoTtlWithin(s.entries, old(StepStart(s)), end)))
    ensures |s.entries| == |old(s.entries)|
    ensures forall j | 0 <= j < |s.entries| && !(old(StepStart(s)) <= j < old(StepStart(s)) + maxSlots) ::
              s.entries[j] == old(s.entries)[j]
  {
    hide Contents, TableOk, Unique, Reaped, Expired, NoTtlBelow, Alive, SomeDue, DueWithin, NoTtlWithin;
    NothingReaped(s.Members(), s.timeNow);
    NoTtlNone(s.entries);
    if s.entries == [] {
      DueWindow(s.entries, StepStart(s), StepStart(s) + maxSlots, s.timeNow);
      s.reaperCursor, s.reaperTtlSeen, s.reaperPassLog := 0, false, 0;
      NoContents(s.entries);
      return true;
    }
    BeginStep(s);
    var end := if s.reaperCursor + maxSlots < |s.entries| then s.reaperCursor + maxSlots else |s.entries|;
    DueWindow(s.entries, s.reaperCursor, s.reaperCursor + maxSlots, s.timeNow);
    ghost var was := s.entries;
    var i := ReapWindow(s, end);
    WholeWindow(s.entries, s.reaperCursor, s.reaperCursor + maxSlots, i, s.timeNow);
    ExpiredReaped(Contents(was), was, s.entries, s.timeNow);
    if end >= |s.entries| {
      NoTtlAll(s.entries, i);
      clean := !s.reaperTtlSeen;
      NoTtlMembers(s.entries);
      NoTtlNone(s.entries);
      s.reaperCursor, s.reaperTtlSeen, s.reaperPassLog := 0, false, 0;
      return clean;
    }
    s.reaperCursor := end;
    return false;
  }

  /** What one step adds to a pass that has come as far as `lo`. */
  lemma PassGoesOn(t: seq<Bucket>, t': seq<Bucket>, lo: nat, hi: nat, now: nat)
    requires |t'| == |t| && lo <= hi && !DueWithin(t, 0, lo, now) && !DueWithin(t', lo, hi, now)
    requires forall j | 0 <= j < |t'| && !(lo <= j < hi) :: t'[j] == t[j]
    ensures !DueWithin(t', 0, hi, now)
    ensures NoTtlWithin(t', 0, hi) <==> NoTtlWithin(t, 0, lo) && NoTtlWithin(t', lo, hi)
  {
    hide SomeDue, NoTtl;
    assert NoTtlWithin(t, 0, lo) <==> NoTtlWithin(t', 0, lo);
  }

  lemma NothingPassed(t: seq<Bucket>)
    ensures NoTtlWithin(t, 0, 0)
  {
  }

  lemma PassEnds(t: seq<Bucket>, hi: nat, now: nat)
    requires hi >= |t| && !DueWithin(t, 0, hi, now)
    ensures NoTtlWithin(t, 0, hi) <==> NoTtlBelow(t, |t|)
    ensures forall x | x in Contents(t) :: !Due(x, now)
  {
    hide NoTtl, Contents;
    forall x | x in Contents(t) ensures !Due(x, now) {
      ContentsMember(t, x);
      var i :| 0 <= i < |t| && x in t[i].chain;
      assert !SomeDue(t[i].chain, now);
    }
  }

  /** Steps of any size, one after the other, make a pass: it leaves nothing that is due, and is clean exactly when
      nothing left has a TTL. */
  method WholePass(s: Set, maxSlots: nat) returns (clean: bool)
    requires s.Valid() && maxSlots > 0 && StepStart(s) == 0 && !StepSeen(s)
    modifies s`entries, s`size, s`reaperCursor, s`reaperTtlSeen, s`reaperPassLog
    ensures s.Valid() && Reaped(old(s.Members()), s.Members(), s.timeNow)
    ensures forall x | x in s.Members() :: !Due(x, s.timeNow)
    ensures clean <==> forall x | x in s.Members() :: !x.ttl
    ensures StepStart(s) == 0 && !StepSeen(s)
  {
    hide Set.Valid, Contents, Reaped, NoTtlBelow, SomeDue, DueWithin, NoTtlWithin;
    ghost var lo := 0;
    NothingReaped(s.Members(), s.timeNow);
    DueWindow(s.entries, 0, 0, s.timeNow);
    NothingPassed(s.entries);
    clean := false;
    while true
      invariant s.Valid() && Reaped(old(s.Members()), s.Members(), s.timeNow) && StepStart(s) == lo
      invariant !DueWithin(s.entries, 0, lo, s.timeNow) && (StepSeen(s) <==> !NoTtlWithin(s.entries, 0, lo))
      invariant lo <= |s.entries|
      decreases |s.entries| - lo
    {
      ghost var (was, hi) := (s.entries, lo + maxSlots);
      clean := ReaperExpireStep(s, maxSlots);
      ReapedTwice(old(s.Members()), Contents(was), s.Members(), s.timeNow);
      PassGoesOn(was, s.entries, lo, hi, s.timeNow);
      if s.reaperCursor == 0 {
        PassEnds(s.entries, hi, s.timeNow);
        NoTtlMembers(s.entries);
        return;
      }
      lo := hi;
    }
  }

  /** DenseSet::ReaperClearMemberExpiration, after a clean pass. */
  method ReaperClearMemberExpiration(s: Set)
    requires s.Valid() && forall x | x in s.Members() :: !x.ttl
    modifies s`expirationUsed
    ensures s.Valid() && !s.expirationUsed
  {
    NoTtlMembers(s.entries);
    s.expirationUsed := false;
  }

  /** With a non-zero clock the peek foretells exactly whether the step deletes. */
  method PeekThenStep(s: Set, maxSlots: nat) returns (due: bool, deleted: nat)
    requires s.Valid() && s.timeNow != 0
    modifies s`entries, s`size, s`reaperCursor, s`reaperTtlSeen, s`reaperPassLog
    ensures s.Valid() && deleted == old(s.size) - s.size && (due <==> deleted > 0)
  {
    hide Set.Valid, StepHasDue;
    due := ReaperStepHasDue(s, maxSlots);
    var before := s.size;
    var clean := ReaperExpireStep(s, maxSlots);
    deleted := before - s.size;
  }
}
