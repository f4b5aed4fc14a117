/** Whole runs of an open-addressing table: it answers like a map with TTLs. */
module OahRun {
  import opened Arith
  import opened Keys
  import opened Members
  import opened TtlMap
  import opened OahLayout
  import opened OahTable
  import OahScan
  import ScanRun

  /** The table holds as many entries as its bucket numbers allow for. */
  ghost predicate AtLimit(t: Table)
    reads t
  {
    t.size >= Pow2(MAX_LOG)
  }

  /** The table stands for the map. */
  ghost predicate Stands(t: Table, st: State)
    reads t
  {
    t.Valid() && t.timeNow == st.now && t.reaperCursor < ScanRun.CURSOR_END && Agrees(st, t.Members())
  }

  /** One call. It is not carried out only when the table is at its limit. */
  method Step(t: Table, op: Op, ghost st: State) returns (done: bool, ans: Option)
    requires Stands(t, st)
    modifies t
    ensures done ==> Stands(t, Next(st, op)) && ans == Answer(st, op)
    ensures !done ==> Stands(t, st) && AtLimit(t)
    ensures op.Grow? && op.size <= Pow2(MAX_LOG) ==> |t.entries| >= op.size
  {
    hide Contents, Unique, Agrees, Reaped, Layout, TtlOk, Pow2;
    done, ans := true, None;
    match op {
      case Tick(d) =>
        TickAgrees(st, t.Members(), d);
        t.timeNow := t.timeNow + d;
      case Put(x) => done, ans := StepAdd(t, x, true, st);
      case Offer(x) => done, ans := StepAdd(t, x, false, st);
      case Remove(k) => ans := StepRemove(t, k, st);
      case Get(k) =>
        ghost var m := t.Members();
        ans := t.Find(k);
        SeenIs(st, m, k, ans);
        ReapedAgrees(st, m, t.Members());
      case Expire(k, at) => ans := StepExpire(t, k, at, st);
      case Grow(n) =>
        if n <= Pow2(MAX_LOG) {
          t.GrowCapacity(n);
        }
      case Shrink(n) =>
        ghost var m := t.Members();
        t.Shrink(n);
        ReapedAgrees(st, m, t.Members());
      case Reap(budget) => StepReap(t, budget, st);
      case Wipe =>
        WipeAgrees(st);
        t.Clear();
    }
  }

  method StepAdd(t: Table, x: Node, replace: bool, ghost st: State) returns (done: bool, ans: Option)
    requires Stands(t, st)
    modifies t
    ensures done ==> Stands(t, Next(st, if replace then Put(x) else Offer(x))) && ans == Seen(st, x.key)
    ensures !done ==> Stands(t, st) && AtLimit(t)
  {
    hide Contents, Agrees, Reaped, Layout, TtlOk, Unique, Pow2, One, Due;
    if t.size >= Pow2(MAX_LOG) {
      return false, None;
    }
    ghost var m := t.Members();
    var r := t.Add(x, replace);
    ans := if r.Fresh? then None else Some(r.node);
    SeenIs(st, m, x.key, ans);
    if r.Fresh? {
      NothingReplaced(t.Members() - multiset{x});
      PutAgrees(st, m, t.Members(), x, ans);
    } else if r.Swapped? {
      ExchangedReaps(m, t.Members(), r.node, x, t.timeNow);
      assert x in t.Members();
      PutAgrees(st, m, t.Members(), x, ans);
    }
    done := true;
  }

  method StepRemove(t: Table, k: Key, ghost st: State) returns (ans: Option)
    requires Stands(t, st)
    modifies t
    ensures Stands(t, Next(st, Remove(k))) && ans == Seen(st, k)
  {
    hide Contents, Agrees, Reaped, Layout, TtlOk, Unique;
    ghost var m := t.Members();
    ans := t.Erase(k);
    assert ans.Some? ==> ans.node in t.Members() + multiset{ans.node};
    SeenIs(st, m, k, ans);
    NothingReaped(m, t.timeNow);
    NothingReplaced(t.Members());
    RemoveAgrees(st, m, t.Members(), k, ans);
  }

  method StepExpire(t: Table, k: Key, at: nat, ghost st: State) returns (ans: Option)
    requires Stands(t, st)
    modifies t
    ensures Stands(t, Next(st, Expire(k, at))) && ans == Seen(st, k)
  {
    hide Contents, Agrees, Reaped, Layout, TtlOk, Unique, One, Due, Next;
    ghost var m := t.Members();
    ans := t.SetExpiryTime(k, at);
    NextNow(st, Expire(k, at));
    SeenIs(st, m, k, ans);
    if ans.Some? {
      ExchangedReaps(m, t.Members(), ans.node, ans.node.(ttl := true, expiry := at), t.timeNow);
    }
    ExpireAgrees(st, m, t.Members(), k, at, ans);
  }

  /** After a clean pass the caller drops the flag that makes the table look for TTLs. */
  method StepReap(t: Table, budget: nat, ghost st: State)
    requires Stands(t, st)
    modifies t
    ensures Stands(t, st) && t.size <= old(t.size) && (t.size < old(t.size) <==> old(OahScan.StepHasDue(t, budget)))
  {
    hide Contents, Agrees, Reaped, Layout, Unique, Pow2, Shl, OahScan.DueBetween, OahScan.StepStart;
    ghost var m := t.Members();
    var clean := OahScan.ReaperExpireStep(t, budget);
    ReapedAgrees(st, m, t.Members());
    if clean {
      OahScan.ReaperClearMemberExpiration(t);
    }
  }

  /** After any run of insertions, replacements, removals, lookups, TTL changes, resizes, reaper steps and ticks of the
      clock, every answer was the one of a plain map with TTLs. */
  method Replay(t: Table, ops: seq<Op>) returns (answers: seq<Option>)
    requires t.Valid() && t.Members() == multiset{} && t.timeNow == 0 && t.reaperCursor == 0
    modifies t
    ensures |answers| <= |ops| && (|answers| < |ops| ==> AtLimit(t))
    ensures forall i | 0 <= i < |answers| :: answers[i] == Answer(After(ops[..i]), ops[i])
    ensures Stands(t, After(ops[..|answers|]))
  {
    hide Contents, Table.Valid, Next, Answer, Pow2, Agrees;
    answers := [];
    assert ops[..0] == [];
    StartAgrees();
    while |answers| < |ops|
      invariant |answers| <= |ops| && Stands(t, After(ops[..|answers|]))
      invariant forall i | 0 <= i < |answers| :: answers[i] == Answer(After(ops[..i]), ops[i])
    {
      var done, ans := Step(t, ops[|answers|], After(ops[..|answers|]));
      if !done {
        return;
      }
      AfterNext(ops, |answers|);
      answers := answers + [ans];
    }
  }
}
