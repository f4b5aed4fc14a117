/** Numbers as little-endian byte strings. */
module LittleEndian {
  type Byte = b: nat | b < 256

  const WORD := 0x1_0000_0000_0000_0000

  function Bytes(v: nat, n: nat): (r: seq<Byte>)
    ensures |r| == n
  {
    if n == 0 then [] else [v % 256] + Bytes(v / 256, n - 1)
  }

  function Value(b: seq<Byte>): nat {
    if b == [] then 0 else b[0] + 256 * Value(b[1..])
  }

  function Limit(n: nat): nat { if n == 0 then 1 else 256 * Limit(n - 1) }

  lemma {:induction false} ValueOfBytes(v: nat, n: nat)
    requires v < Limit(n)
    ensures Value(Bytes(v, n)) == v
  {
    if n > 0 {
      ValueOfBytes(v / 256, n - 1);
      assert Bytes(v, n)[1..] == Bytes(v / 256, n - 1);
    }
  }

  lemma Limits()
    ensures Limit(4) == 0x1_0000_0000 && Limit(8) == WORD
  {
    assert Limit(2) == 0x1_0000;
    assert Limit(4) == 256 * 256 * Limit(2);
    assert Limit(6) == 256 * 256 * Limit(4);
    assert Limit(8) == 256 * 256 * Limit(6);
  }

  lemma {:induction false} ValueBound(b: seq<Byte>)
    ensures Value(b) < Limit(|b|)
  {
    if b != [] {
      ValueBound(b[1..]);
    }
  }

  /** Byte strings of one length with one value are the same. */
  lemma {:induction false} ValueTells(a: seq<Byte>, b: seq<Byte>)
    requires |a| == |b| && Value(a) == Value(b)
    ensures a == b
  {
    if a != [] {
      assert a == [a[0]] + a[1..] && b == [b[0]] + b[1..];
      ValueTells(a[1..], b[1..]);
    }
  }
}
