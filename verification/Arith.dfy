/** Facts about multiplication, division and powers of two that the solver does not find itself. */
module Arith {
  function Smaller(a: nat, b: nat): nat { if a < b then a else b }

  lemma MulAtLeast(a: int, n: int)
    requires a >= 1 && n >= 0
    ensures a * n >= n
  {
  }

  lemma ModUnique(x: int, n: int, q: int, r: int)
    requires n > 0 && x == q * n + r && 0 <= r < n
    ensures x % n == r && x / n == q
  {
    var q', r' := x / n, x % n;
    assert x == q' * n + r';
    if q > q' {
      MulAtLeast(q - q', n);
    } else if q < q' {
      MulAtLeast(q' - q, n);
    }
  }

  // ---- powers of two and shifts, one bit at a time ----------------------------------------

  function Pow2(k: nat): (r: nat)
    ensures r >= 1
  {
    if k == 0 then 1 else 2 * Pow2(k - 1)
  }

  /** x >> k */
  function Shr(x: nat, k: nat): nat {
    if k == 0 then x else Shr(x / 2, k - 1)
  }

  /** x << k */
  function Shl(x: nat, k: nat): nat {
    if k == 0 then x else 2 * Shl(x, k - 1)
  }

  lemma {:induction false} Pow2Add(a: nat, b: nat)
    ensures Pow2(a + b) == Pow2(a) * Pow2(b)
  {
    if a > 0 {
      Pow2Add(a - 1, b);
    }
  }

  lemma {:induction false} Pow2Mono(a: nat, b: nat)
    requires a <= b
    ensures Pow2(a) <= Pow2(b)
  {
    if a < b {
      Pow2Mono(a, b - 1);
    }
  }

  lemma {:induction false} ShrShr(x: nat, a: nat, b: nat)
    ensures Shr(Shr(x, a), b) == Shr(x, a + b)
  {
    if a > 0 {
      ShrShr(x / 2, a - 1, b);
    }
  }

  lemma ShrFour(x: nat)
    ensures Shr(x, 4) == x / 16
  {
    assert Shr(x, 4) == Shr(x / 2, 3) == Shr(x / 2 / 2, 2);
    assert Shr(x / 2 / 2, 2) == Shr(x / 2 / 2 / 2, 1) == x / 2 / 2 / 2 / 2;
  }

  lemma ShrStep(x: nat, k: nat)
    ensures Shr(x, k + 1) == Shr(x, k) / 2
  {
    ShrShr(x, k, 1);
    assert Shr(Shr(x, k), 1) == Shr(Shr(x, k) / 2, 0);
  }

  lemma {:induction false} ShlNext(x: nat, k: nat)
    ensures Shl(x + 1, k) == Shl(x, k) + Pow2(k)
  {
    if k > 0 {
      ShlNext(x, k - 1);
    }
  }

  lemma {:induction false} ShlShl(x: nat, a: nat, b: nat)
    ensures Shl(Shl(x, a), b) == Shl(x, a + b)
  {
    if b > 0 {
      ShlShl(x, a, b - 1);
    }
  }

  lemma {:induction false} ShlMono(x: nat, y: nat, k: nat)
    ensures x <= y ==> Shl(x, k) <= Shl(y, k)
    ensures x < y ==> Shl(x, k) < Shl(y, k)
  {
    if k > 0 {
      ShlMono(x, y, k - 1);
    }
  }

  /** The values that share all but their `k` low bits with `v` form one aligned interval. */
  lemma {:induction false} ShrInterval(x: nat, k: nat, v: nat)
    ensures Shr(x, k) == v <==> Shl(v, k) <= x < Shl(v + 1, k)
  {
    if k > 0 {
      ShrStep(x, k - 1);
      ShrInterval(x, k - 1, 2 * v);
      ShrInterval(x, k - 1, 2 * v + 1);
      ShlNext(2 * v, k - 1);
      ShlNext(2 * v + 1, k - 1);
      ShlDouble(v, k);
      ShlDouble(v + 1, k);
    }
  }

  lemma {:induction false} ShlDouble(v: nat, k: nat)
    requires k > 0
    ensures Shl(v, k) == Shl(2 * v, k - 1)
  {
    if k > 1 {
      ShlDouble(v, k - 1);
    }
  }

  lemma ShrShl(v: nat, k: nat)
    ensures Shr(Shl(v, k), k) == v
  {
    ShrInterval(Shl(v, k), k, v);
    ShlMono(v, v + 1, k);
  }

  lemma {:induction false} ShlOne(k: nat)
    ensures Shl(1, k) == Pow2(k)
  {
    if k > 0 {
      ShlOne(k - 1);
    }
  }

  lemma {:induction false} ShlPow2(a: nat, k: nat)
    ensures Shl(Pow2(a), k) == Pow2(a + k)
  {
    if k > 0 {
      ShlPow2(a, k - 1);
    }
  }

  lemma ShrBound(x: nat, a: nat, k: nat)
    requires x < Pow2(a + k)
    ensures Shr(x, k) < Pow2(a)
  {
    var v := Shr(x, k);
    ShrInterval(x, k, v);
    ShlPow2(a, k);
    if v >= Pow2(a) {
      ShlMono(Pow2(a), v, k);
    }
  }

  lemma {:induction false} ShlGrows(x: nat, k: nat)
    ensures Shl(x, k) >= x
  {
    if k > 0 {
      ShlGrows(x, k - 1);
    }
  }

  /** log2 of the least power of two that is not below `n`. */
  function CeilLog(n: nat): (k: nat)
    ensures Pow2(k) >= n && (k > 0 ==> Pow2(k - 1) < n)
  {
    if n <= 1 then 0 else assert (n + 1) / 2 < n; 1 + CeilLog((n + 1) / 2)
  }

  lemma LogBelow(a: nat, b: nat)
    requires Pow2(a) < Pow2(b)
    ensures a < b
  {
    if b <= a {
      Pow2Mono(b, a);
    }
  }

  lemma ShrBelow(x: nat, a: nat, k: nat)
    ensures Shr(x, k) < a <==> x < Shl(a, k)
  {
    hide Shr, Shl;
    var u := Shr(x, k);
    ShrInterval(x, k, u);
    if u < a {
      ShlMono(u + 1, a, k);
    } else {
      ShlMono(a, u, k);
    }
  }

  lemma ModDouble(x: nat, p: nat)
    requires p > 0
    ensures x % (2 * p) == 2 * (x / 2 % p) + x % 2
  {
    var y := x / 2;
    var q, r := y / p, y % p;
    assert x == q * (2 * p) + (2 * r + x % 2);
    ModUnique(x, 2 * p, q, 2 * r + x % 2);
  }

  lemma ShrUnfold(x: nat, a: nat)
    requires a > 0
    ensures Shr(x, a) == Shr(x / 2, a - 1)
  {
  }

  /** Shifting a remainder is the remainder of the shift. */
  lemma {:induction false} ShrMod(x: nat, a: nat, b: nat)
    ensures Shr(x % Pow2(a + b), a) == Shr(x, a) % Pow2(b)
  {
    if a > 0 {
      var p := Pow2(a - 1 + b);
      assert Pow2(a + b) == 2 * p;
      ModDouble(x, p);
      ShrUnfold(x, a);
      ShrUnfold(x % (2 * p), a);
      hide Shr, Pow2;
      ShrMod(x / 2, a - 1, b);
    }
  }
}
