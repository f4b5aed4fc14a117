/** Whole runs of a dense set: it answers like a map with TTLs. */
module DenseRun {
  import opened Arith
  import opened Keys
  import opened Members
  import opened TtlMap
  import opened DenseBuckets
  import opened DenseSet
  import DenseReaper

  /** The bucket numbers are 32 bits wide, and an insertion may double the table twice. */
  ghost predicate AtLimit(s: Set)
    reads s
  {
    s.capacityLog + 2 > MAX_LOG
  }

  /** The set stands for the map. */
  ghost predicate Stands(s: Set, st: State)
    reads s
  {
    s.Valid() && s.timeNow == st.now && Agrees(st, s.Members())
  }

  /** One call. It is not carried out only when the table is at its limit. */
  method Step(s: Set, op: Op, ghost st: State) returns (done: bool, ans: Option)
    requires Stands(s, st)
    modifies s
    ensures done ==> Stands(s, Next(st, op)) && ans == Answer(st, op)
    ensures !done ==> Stands(s, st) && AtLimit(s)
  {
    hide Contents, Unique, Agrees, Reaped, TableOk, NoTtlBelow;
    done, ans := true, None;
    match op {
      case Tick(d) =>
        TickAgrees(st, s.Members(), d);
        s.timeNow := s.timeNow + d;
      case Put(x) => done, ans := StepPut(s, x, st);
      case Offer(x) => done, ans := StepOffer(s, x, st);
      case Remove(k) =>
        ghost var m := s.Members();
        ans := s.Erase(k);
        SeenIs(st, m, k, ans);
        NothingReplaced(s.Members());
        RemoveAgrees(st, m, s.Members(), k, ans);
      case Get(k) =>
        ghost var m := s.Members();
        ans := s.Find(k);
        SeenIs(st, m, k, ans);
        ReapedAgrees(st, m, s.Members());
      case Expire(k, at) => ans := StepExpire(s, k, at, st);
      case Grow(n) => StepResize(s, n, true, st);
      case Shrink(n) => StepResize(s, n, false, st);
      case Reap(budget) => StepReap(s, budget, st);
      case Wipe => done := StepWipe(s, st);
    }
  }

  method StepPut(s: Set, x: Node, ghost st: State) returns (done: bool, ans: Option)
    requires Stands(s, st)
    modifies s
    ensures done ==> Stands(s, Next(st, Put(x))) && ans == Seen(st, x.key)
    ensures !done ==> Stands(s, st) && AtLimit(s)
  {
    hide Contents, Agrees, Reaped, TableOk, NoTtlBelow, Unique;
    if s.capacityLog + 2 > MAX_LOG {
      return false, None;
    }
    ghost var m := s.Members();
    ans := s.AddOrReplace(x);
    SeenIs(st, m, x.key, ans);
    NothingReplaced(s.Members() - multiset{x});
    PutAgrees(st, m, s.Members(), x, ans);
    done := true;
  }

  /** StringSet::Add looks for the key first. */
  method StepOffer(s: Set, x: Node, ghost st: State) returns (done: bool, ans: Option)
    requires Stands(s, st)
    modifies s
    ensures done ==> Stands(s, Next(st, Offer(x))) && ans == Seen(st, x.key)
    ensures !done ==> Stands(s, st) && AtLimit(s)
  {
    hide Contents, Agrees, Reaped, TableOk, NoTtlBelow, Unique;
    ghost var m := s.Members();
    ans := s.Find(x.key);
    SeenIs(st, m, x.key, ans);
    ReapedAgrees(st, m, s.Members());
    if ans.Some? {
      return true, ans;
    }
    if s.capacityLog + 2 > MAX_LOG {
      return false, None;
    }
    ghost var m1 := s.Members();
    s.AddUnique(x);
    NothingReplaced(s.Members() - multiset{x});
    PutAgrees(st, m1, s.Members(), x, None);
    done := true;
  }

  method StepExpire(s: Set, k: Key, at: nat, ghost st: State) returns (ans: Option)
    requires Stands(s, st)
    modifies s
    ensures Stands(s, Next(st, Expire(k, at))) && ans == Seen(st, k)
  {
    hide Contents, Agrees, Reaped, TableOk, NoTtlBelow, Unique;
    ghost var m := s.Members();
    ans := s.SetExpiryTime(k, at);
    SeenIs(st, m, k, ans);
    ExpireAgrees(st, m, s.Members(), k, at, ans);
  }

  method StepResize(s: Set, n: nat, grow: bool, ghost st: State)
    requires Stands(s, st)
    modifies s
    ensures Stands(s, st)
    ensures grow && n <= 0x1_0000_0000 ==> |s.entries| >= n
    ensures !grow && old(s.entries) != [] && MIN_LOG <= CeilLog(n) < old(s.capacityLog) ==>
              |s.entries| == Pow2(CeilLog(n))
  {
    hide Contents, Agrees, Reaped, TableOk, NoTtlBelow, Unique, Pow2, CeilLog;
    ghost var m := s.Members();
    NothingReaped(m, s.timeNow);
    if grow && n <= 0x1_0000_0000 {
      s.Reserve(n);
    } else if !grow && s.entries != [] && MIN_LOG <= CeilLog(n) < s.capacityLog {
      s.Shrink(CeilLog(n));
    }
    ReapedAgrees(st, m, s.Members());
  }

  /** After a clean pass the caller drops the flag that makes the set look for TTLs. */
  method StepReap(s: Set, budget: nat, ghost st: State)
    requires Stands(s, st)
    modifies s
    ensures Stands(s, st) && s.size <= old(s.size) && (s.size < old(s.size) <==> old(DenseReaper.StepHasDue(s, budget)))
  {
    hide Contents, Agrees, Reaped, TableOk, NoTtlBelow, Unique, DenseReaper.StepHasDue, DenseReaper.DueWithin;
    ghost var m := s.Members();
    var clean := DenseReaper.ReaperExpireStep(s, budget);
    ReapedAgrees(st, m, s.Members());
    if clean {
      DenseReaper.ReaperClearMemberExpiration(s);
    }
  }

  method StepWipe(s: Set, ghost st: State) returns (done: bool)
    requires Stands(s, st)
    modifies s
    ensures done ==> Stands(s, Next(st, Wipe))
    ensures !done ==> Stands(s, st) && AtLimit(s)
  {
    hide Contents, Agrees, TableOk, NoTtlBelow, Unique;
    Wide(s);
    if |s.entries| >= 0x1_0000_0000 {
      return false;
    }
    ghost var was := s.entries;
    var end := s.ClearStep(0, |s.entries|);
    NoContents(EmptyRange(was, 0, end));
    WipeAgrees(st);
    done := true;
  }

  lemma Wide(s: Set)
    requires s.Valid()
    ensures |s.entries| >= 0x1_0000_0000 ==> AtLimit(s)
  {
    hide Contents, BucketOk, Pow2, Unique;
    Pow2Of32();
    if s.entries != [] && s.capacityLog + 2 <= MAX_LOG {
      Pow2Mono(s.capacityLog, 30);
      Pow2Mono(30, 31);
      HalfOf32();
    }
  }

  lemma HalfOf32()
    ensures Pow2(30) < 0x1_0000_0000
  {
    Pow2Of32();
    assert Pow2(32) == 2 * Pow2(31) && Pow2(31) == 2 * Pow2(30);
  }

  /** After any run of insertions, replacements, removals, lookups, TTL changes, resizes, reaper steps and ticks of the
      clock, every answer was the one of a plain map with TTLs. */
  method Replay(s: Set, ops: seq<Op>) returns (answers: seq<Option>)
    requires s.Valid() && s.Members() == multiset{} && s.timeNow == 0
    modifies s
    ensures |answers| <= |ops| && (|answers| < |ops| ==> AtLimit(s))
    ensures forall i | 0 <= i < |answers| :: answers[i] == Answer(After(ops[..i]), ops[i])
    ensures Stands(s, After(ops[..|answers|]))
  {
    hide Contents, Set.Valid, Next, Answer, Agrees;
    answers := [];
    assert ops[..0] == [];
    StartAgrees();
    while |answers| < |ops|
      invariant |answers| <= |ops| && Stands(s, After(ops[..|answers|]))
      invariant forall i | 0 <= i < |answers| :: answers[i] == Answer(After(ops[..i]), ops[i])
    {
      var done, ans := Step(s, ops[|answers|], After(ops[..|answers|]));
      if !done {
        return;
      }
      AfterNext(ops, |answers|);
      answers := answers + [ans];
    }
  }
}
