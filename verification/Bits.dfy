/** Exclusive or and bit masks on numbers, bit by bit, so that the one can be shown to commute with the other. */
module Bits {
  import opened Arith

  function Xor(a: nat, b: nat): nat
    decreases a + b
  {
    if a == 0 && b == 0 then 0 else 2 * Xor(a / 2, b / 2) + if a % 2 == b % 2 then 0 else 1
  }

  /** The low `k` bits of `x`. */
  function Low(x: nat, k: nat): (r: nat)
    ensures r < Pow2(k)
  {
    if k == 0 then 0 else 2 * Low(x / 2, k - 1) + x % 2
  }

  lemma XorHalf(a: nat, b: nat)
    ensures Xor(a, b) / 2 == Xor(a / 2, b / 2) && Xor(a, b) % 2 == if a % 2 == b % 2 then 0 else 1
  {
  }

  lemma LowHalf(x: nat, k: nat)
    requires k > 0
    ensures Low(x, k) / 2 == Low(x / 2, k - 1) && Low(x, k) % 2 == x % 2
  {
  }

  /** Power-of-two modulo is a bitmask. */
  lemma {:induction false} LowIsMod(x: nat, k: nat)
    ensures Low(x, k) == x % Pow2(k)
  {
    if k > 0 {
      LowIsMod(x / 2, k - 1);
      ModDouble(x, Pow2(k - 1));
    }
  }

  lemma {:induction false} XorTwice(a: nat, b: nat)
    ensures Xor(Xor(a, b), b) == a
    decreases a + b
  {
    if a != 0 || b != 0 {
      XorHalf(a, b);
      XorHalf(Xor(a, b), b);
      hide Xor;
      XorTwice(a / 2, b / 2);
    }
  }

  lemma {:induction false} LowXor(a: nat, b: nat, k: nat)
    ensures Low(Xor(a, b), k) == Xor(Low(a, k), Low(b, k))
  {
    if k > 0 {
      hide Low, Xor;
      XorHalf(a, b);
      XorHalf(Low(a, k), Low(b, k));
      LowHalf(a, k);
      LowHalf(b, k);
      LowHalf(Xor(a, b), k);
      LowXor(a / 2, b / 2, k - 1);
    }
  }

  lemma {:induction false} LowLow(x: nat, a: nat, b: nat)
    requires b <= a
    ensures Low(Low(x, a), b) == Low(x, b)
  {
    if b > 0 {
      hide Low;
      LowHalf(x, a);
      LowHalf(x, b);
      LowHalf(Low(x, a), b);
      LowLow(x / 2, a - 1, b - 1);
    }
  }

  lemma {:induction false} LowSmall(x: nat, k: nat)
    requires x < Pow2(k)
    ensures Low(x, k) == x
  {
    if k > 0 {
      LowSmall(x / 2, k - 1);
    }
  }

  lemma {:induction false} XorBound(a: nat, b: nat, k: nat)
    requires a < Pow2(k) && b < Pow2(k)
    ensures Xor(a, b) < Pow2(k)
  {
    if k > 0 {
      XorHalf(a, b);
      hide Xor;
      XorBound(a / 2, b / 2, k - 1);
    }
  }

  /** An odd factor moves no low zero bits. */
  lemma {:induction false} OddTimes(x: nat, c: nat, k: nat)
    requires c % 2 == 1
    ensures Low(x * c, k) == 0 <==> Low(x, k) == 0
  {
    if k > 0 {
      hide Low;
      LowHalf(x, k);
      LowHalf(x * c, k);
      Expand(x / 2, x % 2, c);
      if x % 2 == 0 {
        OddTimes(x / 2, c, k - 1);
      }
    }
  }

  lemma Expand(u: nat, b: nat, c: nat)
    requires b < 2 && c % 2 == 1
    ensures (2 * u + b) * c == 2 * (u * c) + b * c
    ensures (2 * u + b) * c % 2 == b && (b == 0 ==> (2 * u + b) * c / 2 == u * c)
  {
    assert (2 * u) * c == 2 * (u * c);
  }

  lemma {:induction false} XorSwap(a: nat, b: nat)
    ensures Xor(a, b) == Xor(b, a)
    decreases a + b
  {
    if a != 0 || b != 0 {
      XorSwap(a / 2, b / 2);
    }
  }

  /** Exclusive or with anything tells any two numbers apart. */
  lemma XorTells(a: nat, a': nat, b: nat)
    requires Xor(a, b) == Xor(a', b) || Xor(b, a) == Xor(b, a')
    ensures a == a'
  {
    hide Xor;
    XorSwap(a, b);
    XorSwap(a', b);
    XorTwice(a, b);
    XorTwice(a', b);
  }
}
