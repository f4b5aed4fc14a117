/** One round of knock-out insertion and the round that takes it back. */
module CuckooKick {
  import opened Arith
  import opened Bits
  import opened CuckooIndex
  import opened CuckooCells

  /** The sub-filter, the bucket in turn, the fingerprint in hand and the slot to evict next. */
  datatype Kick = Kick(sf: SubFilter, idx: nat, fp: nat, victim: nat)

  ghost predicate KickOk(t: Kick, width: nat, k: nat) {
    width > 0 && |t.sf| == Pow2(k) * width && t.idx < Pow2(k) && t.victim < width
  }

  /** Put the fingerprint in hand in place of a victim, and turn to the victim's other bucket. */
  ghost function Forward(t: Kick, width: nat, k: nat): (r: Kick)
    requires KickOk(t, width, k)
    ensures KickOk(r, width, k)
  {
    SlotOf(t.idx, t.victim, width, Pow2(k));
    var p := t.idx * width + t.victim;
    Kick(t.sf[p := t.fp], Low(AltIndex(t.sf[p], t.idx), k), t.sf[p], NextVictim(t.victim, width))
  }

  ghost function Backward(t: Kick, width: nat, k: nat): (r: Kick)
    requires KickOk(t, width, k)
    ensures KickOk(r, width, k)
  {
    var (v, i) := (PrevVictim(t.victim, width), Low(AltIndex(t.fp, t.idx), k));
    SlotOf(i, v, width, Pow2(k));
    var p := i * width + v;
    Kick(t.sf[p := t.fp], i, t.sf[p], v)
  }

  function NextVictim(v: nat, width: nat): (r: nat)
    requires width > 0
    ensures r < width
  {
    (v + 1) % width
  }

  function PrevVictim(v: nat, width: nat): (r: nat)
    requires width > 0
    ensures r < width
  {
    (v + width - 1) % width
  }

  lemma VictimReturns(v: nat, width: nat)
    requires v < width
    ensures PrevVictim(NextVictim(v, width), width) == v
  {
    if v + 1 < width {
      ModUnique(v + 1, width, 0, v + 1);
      ModUnique(v + width, width, 1, v);
    } else {
      ModUnique(width, width, 1, 0);
      ModUnique(width - 1, width, 0, width - 1);
    }
  }

  /** Taking a round back restores every byte, the bucket, the fingerprint and the victim. */
  lemma BackwardForward(t: Kick, width: nat, k: nat)
    requires KickOk(t, width, k)
    ensures Backward(Forward(t, width, k), width, k) == t
  {
    hide Low, AltIndex, NextVictim, PrevVictim, Pow2;
    SlotOf(t.idx, t.victim, width, Pow2(k));
    var p := t.idx * width + t.victim;
    VictimReturns(t.victim, width);
    AltReturns(t.sf[p], t.idx, k);
    assert t.sf[p := t.fp][p := t.sf[p]] == t.sf;
  }

  ghost function Rounds(t: Kick, width: nat, k: nat, i: nat): (r: Kick)
    requires KickOk(t, width, k)
    ensures KickOk(r, width, k)
  {
    if i == 0 then t else Forward(Rounds(t, width, k, i - 1), width, k)
  }

  lemma RoundBack(t: Kick, width: nat, k: nat, i: nat)
    requires KickOk(t, width, k) && i > 0
    ensures Backward(Rounds(t, width, k, i), width, k) == Rounds(t, width, k, i - 1)
  {
    BackwardForward(Rounds(t, width, k, i - 1), width, k);
  }
}
