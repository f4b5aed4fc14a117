/** Multiset algebra. */
module Bags {
  lemma AlsoMore<T>(x: multiset<T>, u: multiset<T>, y: multiset<T>, v: multiset<T>, more: multiset<T>)
    requires x + u == y + v
    ensures x + more + u == y + more + v
  {
    forall e: T | e in x + more + u || e in y + more + v ensures (x + more + u)[e] == (y + more + v)[e] {
      assert (x + u)[e] == (y + v)[e];
    }
  }

  lemma Swap<T>(h': multiset<T>, i: multiset<T>, h: multiset<T>, i': multiset<T>, a: multiset<T>, c: multiset<T>)
    requires h' + i == h + i' && i' + a == i + c
    ensures h' + a == h + c
  {
    forall x: T | x in h' + a || x in h + c ensures (h' + a)[x] == (h + c)[x] {
      assert (h' + i)[x] == (h + i')[x] && (i' + a)[x] == (i + c)[x];
    }
  }

  lemma ThereAndBack<T>(a: multiset<T>, b: multiset<T>, c: multiset<T>, x: multiset<T>, y: multiset<T>)
    requires b + x == a + y && c + y == b + x
    ensures c == a
  {
    CancelBoth(a, c, y, multiset{});
  }

  lemma CancelBoth<T>(a: multiset<T>, b: multiset<T>, x: multiset<T>, y: multiset<T>)
    requires a + x + y == b + x + y
    ensures a == b
  {
    forall e: T | e in a || e in b ensures a[e] == b[e] {
      assert (a + x + y)[e] == (b + x + y)[e];
    }
  }
}
