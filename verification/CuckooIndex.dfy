/** The two candidate buckets of a fingerprint. */
module CuckooIndex {
  import opened Arith
  import opened Bits
  import opened Keys

  /** Never zero: zero marks an empty slot. */
  function Fingerprint(h: Hash): (fp: nat)
    ensures 1 <= fp <= 255
  {
    h % 255 + 1
  }

  /** Two items have one fingerprint exactly when their hashes agree modulo 255. */
  lemma SameFingerprint(g: Hash, h: Hash)
    ensures Fingerprint(g) == Fingerprint(h) <==> g % 255 == h % 255
  {
  }

  function AltIndex(fp: nat, index: nat): nat { Xor(index, fp * 0x5bd1e995) }

  /** Bucket `b` of a sub-filter of 2^k buckets is one of the two for hash `h`. */
  ghost predicate Candidate(h: Hash, b: nat, k: nat) {
    b == Low(h, k) || b == Low(AltIndex(Fingerprint(h), h), k)
  }

  lemma AltLow(fp: nat, x: nat, k: nat)
    ensures Low(AltIndex(fp, Low(x, k)), k) == Low(AltIndex(fp, x), k)
  {
    LowXor(Low(x, k), fp * 0x5bd1e995, k);
    LowXor(x, fp * 0x5bd1e995, k);
    LowLow(x, k, k);
  }

  lemma AltAlt(fp: nat, x: nat)
    ensures AltIndex(fp, AltIndex(fp, x)) == x
  {
    XorTwice(x, fp * 0x5bd1e995);
  }

  /** The alternate of a reduced index, reduced, leads back to it. */
  lemma AltReturns(fp: nat, b: nat, k: nat)
    requires b < Pow2(k)
    ensures Low(AltIndex(fp, Low(AltIndex(fp, b), k)), k) == b
  {
    AltLow(fp, AltIndex(fp, b), k);
    AltAlt(fp, b);
    LowSmall(b, k);
  }

  /** From either candidate bucket of a larger sub-filter, the index and its alternate are candidates
      in every smaller one. */
  lemma CandidateBelow(h: Hash, b: nat, k: nat, k': nat)
    requires Candidate(h, b, k) && k' <= k
    ensures Candidate(h, Low(b, k'), k') && Candidate(h, Low(AltIndex(Fingerprint(h), b), k'), k')
  {
    hide Low, AltIndex, Fingerprint;
    var fp := Fingerprint(h);
    LowLow(h, k, k');
    LowLow(AltIndex(fp, h), k, k');
    AltLow(fp, b, k');
    AltLow(fp, h, k');
    AltLow(fp, AltIndex(fp, h), k');
    AltAlt(fp, h);
  }

  /** Two hashes with one fingerprint that share a candidate bucket share both, and share them in
      every smaller sub-filter. */
  lemma CandidatesAgree(g: Hash, h: Hash, b: nat, k: nat, c: nat, k': nat)
    requires Fingerprint(g) == Fingerprint(h) && Candidate(g, b, k) && Candidate(h, b, k) && k' <= k
    requires Candidate(h, c, k')
    ensures Candidate(g, c, k')
  {
    hide Low, AltIndex, Fingerprint;
    var fp := Fingerprint(h);
    CandidateBelow(g, b, k, k');
    LowLow(h, k, k');
    LowLow(AltIndex(fp, h), k, k');
    AltLow(fp, b, k');
    AltLow(fp, h, k');
    AltLow(fp, AltIndex(fp, h), k');
    AltAlt(fp, h);
  }

  lemma {:induction false} XorFixes(a: nat, b: nat, k: nat)
    ensures Low(Xor(a, b), k) == Low(a, k) <==> Low(b, k) == 0
  {
    if k > 0 {
      hide Low, Xor;
      XorHalf(a, b);
      LowHalf(a, k);
      LowHalf(b, k);
      LowHalf(Xor(a, b), k);
      XorFixes(a / 2, b / 2, k - 1);
    }
  }

  /** The two candidate buckets are one exactly when the number of buckets divides the fingerprint; so never
      when there are 256 of them. */
  lemma CandidatesMeet(h: Hash, k: nat)
    ensures Low(h, k) == Low(AltIndex(Fingerprint(h), h), k) <==> Fingerprint(h) % Pow2(k) == 0
    ensures k >= 8 ==> Low(h, k) != Low(AltIndex(Fingerprint(h), h), k)
  {
    hide Low, Xor, Pow2;
    var fp := Fingerprint(h);
    XorFixes(h, fp * 0x5bd1e995, k);
    OddTimes(fp, 0x5bd1e995, k);
    LowIsMod(fp, k);
    if k >= 8 {
      ByteFits(k);
      LowSmall(fp, k);
    }
  }

  lemma ByteFits(k: nat)
    requires k >= 8
    ensures Pow2(k) >= 256
  {
    assert Pow2(4) == 16;
    hide Pow2;
    Pow2Add(4, 4);
    Pow2Mono(8, k);
  }
}
