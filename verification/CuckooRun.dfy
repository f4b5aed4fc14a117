/** Whole runs of a cuckoo filter. */
module CuckooRun {
  import opened Keys
  import opened CuckooCells
  import opened Cuckoo

  datatype Op = Add(h: Hash) | Remove(h: Hash) | Compact(cont: bool)

  /** What the caller believes to be in the filter after a run, going by the answers it got. */
  ghost function Expected(ops: seq<Op>, answers: seq<bool>): multiset<Hash>
    requires |ops| == |answers|
  {
    if ops == [] then multiset{} else
      var last := |ops| - 1;
      var before := Expected(ops[..last], answers[..last]);
      if !answers[last] then before
      else match ops[last]
        case Add(h) => before + multiset{h}
        case Remove(h) => before - multiset{h}
        case Compact(_) => before
  }

  /** The caller only removes what it believes to be there. */
  ghost predicate Honest(ops: seq<Op>, answers: seq<bool>)
    requires |ops| == |answers|
  {
    ops == [] ||
    (var last := |ops| - 1;
     && Honest(ops[..last], answers[..last])
     && (ops[last].Remove? ==> ops[last].h in Expected(ops[..last], answers[..last])))
  }

  /** After any run in which only held items are removed, every removal has succeeded, and every item that
      was added and not removed is found: there are no false negatives. What is found is like such an item. */
  method Replay(f: Filter, ops: seq<Op>) returns (answers: seq<bool>)
    requires f.Valid() && f.Content() == multiset{}
    modifies f`filters, f`cells, f`numItems, f`numKoInserts, f`numDeletes
    ensures f.Valid() && |answers| == |ops|
    ensures Honest(ops, answers) ==>
              && f.Content() == Expected(ops, answers) && f.numItems == |Expected(ops, answers)|
              && (forall i | 0 <= i < |ops| && ops[i].Remove? :: answers[i])
              && (forall h | h in Expected(ops, answers) :: f.Finds(h))
              && forall h: Hash | f.Finds(h) :: exists g | g in Expected(ops, answers) :: f.Alike(g, h)
  {
    hide Held, ChainOk, Filter.Finds, Filter.Alike, Filter.HoldsLike, Filter.NoVacancy, Filter.Hopeless, Filter.CanGrow;
    hide Filter.ShutOut, Filter.SettledUpTo;
    answers := [];
    for i := 0 to |ops|
      invariant f.Valid() && |answers| == i
      invariant Honest(ops[..i], answers) ==>
                  && f.Content() == Expected(ops[..i], answers)
                  && forall j | 0 <= j < i && ops[j].Remove? :: answers[j]
    {
      var ok := true;
      match ops[i] {
        case Add(h) => ok := f.Insert(h);
        case Remove(h) => ghost var gone; ok, gone := f.Delete(h);
        case Compact(cont) => f.Compact(cont);
      }
      ghost var was := answers;
      answers := answers + [ok];
      assert ops[..i + 1][..i] == ops[..i] && answers[..i] == was;
    }
    assert ops[..|ops|] == ops;
    forall h | h in f.Content() ensures f.Finds(h) {
      f.HeldIsFound(h);
    }
    forall h: Hash | f.Finds(h) ensures exists g | g in f.Content() :: f.Alike(g, h) {
      f.FindsIff(h);
    }
  }
}
