/** The extent allocator: free ranges by start, and the same ranges by length. */
module ExtentTree {
  import opened Arith

  datatype Option<T> = None | Some(value: T)

  type Entry = (nat, nat)          // (length, start) in the index, (start, end) for a range

  /** The order of the index. */
  predicate Less(a: Entry, b: Entry) { a.0 < b.0 || (a.0 == b.0 && a.1 < b.1) }

  /** lower_bound in an ordered set. */
  method LowerBound(index: set<Entry>, key: Entry) returns (r: Option<Entry>)
    ensures r.Some? ==>
              && r.value in index && !Less(r.value, key)
              && forall e | e in index && !Less(e, key) :: !Less(e, r.value)
    ensures r.None? ==> forall e | e in index :: Less(e, key)
  {
    r := None;
    var rest := index;
    while rest != {}
      invariant rest <= index
      invariant r.Some? ==> r.value in index && !Less(r.value, key)
                            && forall e | e in index - rest && !Less(e, key) :: !Less(e, r.value)
      invariant r.None? ==> forall e | e in index - rest :: Less(e, key)
      decreases |rest|
    {
      var e :| e in rest;
      rest := rest - {e};
      if !Less(e, key) && (r.None? || Less(e, r.value)) {
        r := Some(e);
      }
    }
  }

  /** The extent of greatest start below `x`, and the one of least start from `x` on. */
  method Neighbours(extents: map<nat, nat>, x: nat) returns (prev: Option<nat>, next: Option<nat>)
    ensures prev.Some? ==>
              && prev.value in extents && prev.value < x
              && forall s | s in extents && s < x :: s <= prev.value
    ensures prev.None? ==> forall s | s in extents :: s >= x
    ensures next.Some? ==>
              && next.value in extents && next.value >= x
              && forall s | s in extents && s >= x :: s >= next.value
    ensures next.None? ==> forall s | s in extents :: s < x
  {
    prev, next := None, None;
    var rest := extents.Keys;
    while rest != {}
      invariant rest <= extents.Keys
      invariant prev.Some? ==> prev.value in extents && prev.value < x
                               && forall s | s in extents && s !in rest && s < x :: s <= prev.value
      invariant prev.None? ==> forall s | s in extents && s !in rest :: s >= x
      invariant next.Some? ==> next.value in extents && next.value >= x
                               && forall s | s in extents && s !in rest && s >= x :: s >= next.value
      invariant next.None? ==> forall s | s in extents && s !in rest :: s < x
      decreases |rest|
    {
      var s :| s in rest;
      rest := rest - {s};
      if s < x && (prev.None? || prev.value < s) {
        prev := Some(s);
      }
      if s >= x && (next.None? || s < next.value) {
        next := Some(s);
      }
    }
  }

  /** Disjoint, non-empty and with a gap between any two. */
  ghost predicate Apart(m: map<nat, nat>) {
    && (forall s | s in m :: s < m[s])
    && (forall s, t | s in m && t in m && s < t :: m[s] < t)
  }

  /** The index lists exactly these extents. */
  ghost predicate Indexed(m: map<nat, nat>, index: set<Entry>) {
    && (forall s | s in m :: s <= m[s] && (m[s] - s, s) in index)
    && (forall e | e in index :: e.1 in m && m[e.1] == e.0 + e.1)
  }

  ghost predicate Covers(m: map<nat, nat>, x: int) { exists s | s in m :: s <= x < m[s] }

  /** A range that touches no extent. */
  ghost predicate Clear(m: map<nat, nat>, lo: nat, hi: nat) { forall s | s in m :: m[s] < lo || hi < s }

  lemma WithoutExtent(m: map<nat, nat>, index: set<Entry>, s: nat)
    requires Apart(m) && Indexed(m, index) && s in m
    ensures Apart(m - {s}) && Indexed(m - {s}, index - {(m[s] - s, s)})
    ensures forall x: int :: Covers(m - {s}, x) <==> Covers(m, x) && !(s <= x < m[s])
  {
    var n := m - {s};
    forall x: int ensures Covers(n, x) <==> Covers(m, x) && !(s <= x < m[s]) {
      if Covers(m, x) {
        var t :| t in m && t <= x < m[t];
        assert t != s ==> t in n;
      }
      if Covers(n, x) {
        var t :| t in n && t <= x < n[t];
        assert t in m && t != s;
      }
    }
  }

  /** An extent that begins where none does; it may touch others. */
  lemma WithTouching(m: map<nat, nat>, index: set<Entry>, lo: nat, hi: nat)
    requires Indexed(m, index) && lo < hi && lo !in m
    ensures Indexed(m[lo := hi], index + {(hi - lo, lo)})
    ensures forall x: int :: Covers(m[lo := hi], x) <==> Covers(m, x) || lo <= x < hi
  {
    var n := m[lo := hi];
    forall x: int ensures Covers(n, x) <==> Covers(m, x) || lo <= x < hi {
      if Covers(m, x) {
        var t :| t in m && t <= x < m[t];
        assert t in n && n[t] == m[t];
      }
      if lo <= x < hi {
        assert lo in n && n[lo] == hi;
      }
    }
  }

  lemma WithExtent(m: map<nat, nat>, index: set<Entry>, lo: nat, hi: nat)
    requires Apart(m) && Indexed(m, index) && lo < hi && Clear(m, lo, hi)
    ensures Apart(m[lo := hi]) && Indexed(m[lo := hi], index + {(hi - lo, lo)})
    ensures forall x: int :: Covers(m[lo := hi], x) <==> Covers(m, x) || lo <= x < hi
  {
    WithTouching(m, index, lo, hi);
  }

  class Tree {
    var extents: map<nat, nat>       // start -> end
    var byLength: set<Entry>

    ghost predicate Valid()
      reads this
    {
      Apart(extents) && Indexed(extents, byLength)
    }

    constructor ()
      ensures Valid() && forall x: int :: !Covers(extents, x)
    {
      extents, byLength := map[], {};
    }

    method Erase(s: nat)
      requires Valid() && s in extents
      modifies this
      ensures Valid() && extents == old(extents) - {s}
      ensures forall x: int :: Covers(extents, x) <==> old(Covers(extents, x)) && !(s <= x < old(extents)[s])
    {
      hide Covers, Apart, Indexed;
      WithoutExtent(extents, byLength, s);
      byLength := byLength - {(extents[s] - s, s)};
      extents := extents - {s};
    }

    method Emplace(lo: nat, hi: nat)
      requires Valid() && lo < hi && Clear(extents, lo, hi)
      modifies this
      ensures Valid() && extents == old(extents)[lo := hi]
      ensures forall x: int :: Covers(extents, x) <==> old(Covers(extents, x)) || lo <= x < hi
    {
      hide Covers, Apart, Indexed, Clear;
      WithExtent(extents, byLength, lo, hi);
      byLength := byLength + {(hi - lo, lo)};
      extents := extents[lo := hi];
    }

    /** ExtentTree::Add: the range becomes free, joined with the extents it touches. */
    method Add(start: nat, len: nat)
      requires Valid() && len > 0 && forall x | start <= x < start + len :: !Covers(extents, x)
      modifies this
      ensures Valid()
      ensures forall x: int :: Covers(extents, x) <==> old(Covers(extents, x)) || start <= x < start + len
    {
      hide Covers, Indexed, Apart, Clear;
      var prev, next := Neighbours(extents, start);
      OutsideRange(extents, start, len);
      OnlyNeighbours(extents, start, len, prev, next);
      ghost var m := extents;
      var lo, hi := start, start + len;
      if prev.Some? && extents[prev.value] == start {
        lo := prev.value;
        ExtentCovered(extents, lo);
        Erase(lo);
      }
      assert forall x: int :: Covers(extents, x) <==> Covers(m, x) && !(lo <= x < start);
      ghost var m1 := extents;
      if next.Some? && hi == next.value {
        hi := extents[next.value];
        ExtentCovered(m, next.value);
        Erase(next.value);
      }
      assert forall x: int :: Covers(extents, x) <==> Covers(m1, x) && !(start + len <= x < hi);
      JoinClear(m, extents, start, len, lo, hi);
      Emplace(lo, hi);
    }

    /** Takes a range out of one extent. */
    method Take(start: nat, a: nat, b: nat)
      requires Valid() && start in extents && start <= a <= b <= extents[start]
      modifies this
      ensures Indexed(extents, byLength) && extents == Cut(old(extents), start, a, b)
      ensures Valid() <==> a < b || a == start || a == old(extents)[start]
      ensures forall x: int | a <= x < b :: old(Covers(extents, x))
      ensures forall x: int :: Covers(extents, x) <==> old(Covers(extents, x)) && !(a <= x < b)
    {
      hide Covers, Apart, Indexed, Clear;
      ghost var m := extents;
      var end := extents[start];
      ExtentCovered(m, start);
      TakenApart(m, start, a, b);
      CutApart(m, start, a, b);
      Erase(start);
      if a > start {
        Emplace(start, a);
      }
      assert forall x: int :: Covers(extents, x) <==> Covers(m, x) && !(a <= x < end);
      ghost var rest := extents;
      if b < end {
        WithTouching(extents, byLength, b, end);
        byLength := byLength + {(end - b, b)};
        extents := extents[b := end];
      }
      forall x: int ensures Covers(extents, x) <==> Covers(m, x) && !(a <= x < b) {
        assert start <= x < end ==> Covers(m, x);
        assert Covers(extents, x) <==> Covers(rest, x) || b <= x < end;
      }
    }

    /** ExtentTree::GetRange tries the extents from the shortest that is long enough. It takes exactly the range it
        returns, and fails only if no aligned range of that length is free. A request for nothing may leave two
        extents that touch. */
    method GetRange(len: nat, align: nat) returns (r: Option<Entry>)
      requires Valid() && align > 0 && len % align == 0
      modifies this
      ensures Indexed(extents, byLength) && (len > 0 || r.None? ==> Valid())
      ensures r.Some? ==> var (a, b) := r.value;
                          && b == a + len && a % align == 0 && (forall x: int | a <= x < b :: old(Covers(extents, x)))
                          && forall x: int :: Covers(extents, x) <==> old(Covers(extents, x)) && !(a <= x < b)
      ensures r.Some? ==> exists e | e in old(byLength) ::
                            && BestFit(old(byLength), e, len, align) && r.value.0 == RoundUp(e.1, align)
                            && e.1 in old(extents) && extents == Cut(old(extents), e.1, r.value.0, r.value.1)
                            && (Valid() <==> len > 0 || r.value.0 == e.1 || r.value.0 == e.0 + e.1)
      ensures r.None? ==> extents == old(extents) && byLength == old(byLength)
                          && (forall e | e in byLength :: !Fits(e, len, align))
      ensures r.None? && len > 0 ==>
                forall a: nat | a % align == 0 :: exists x: int | a <= x < a + len :: !Covers(extents, x)
    {
      hide Covers, Apart, Indexed, Clear, RoundUp;
      var it := LowerBound(byLength, (len, 0));
      var at: nat := 0;
      while true
        invariant Valid() && extents == old(extents) && byLength == old(byLength)
        invariant it.Some? ==> it.value in byLength && it.value.0 >= len
        invariant forall e | e in byLength && (it.None? || Less(e, it.value)) :: !Fits(e, len, align)
        decreases Rest(byLength, it)
      {
        if it.None? {
          if len > 0 {
            NowhereFits(extents, byLength, len, align);
          }
          return None;
        }
        at := RoundUp(it.value.1, align);
        RoundUpIsFirst(it.value.1, align);
        if at + len <= it.value.0 + it.value.1 {
          break;
        }
        var next := LowerBound(byLength, (it.value.0, it.value.1 + 1));
        RestShrinks(byLength, it.value, next);
        it := next;
      }
      Listed(extents, byLength, it.value);
      Take(it.value.1, at, at + len);
      assert BestFit(old(byLength), it.value, len, align);
      return Some((at, at + len));
    }
  }

  /** The extent at `s` without the range [a, b): up to two extents. */
  function Cut(m: map<nat, nat>, s: nat, a: nat, b: nat): map<nat, nat>
    requires s in m
  {
    var left := if a > s then (m - {s})[s := a] else m - {s};
    if b < m[s] then left[b := m[s]] else left
  }

  /** A gap is left between the two exactly when the range is not empty, unless there is only one. */
  lemma CutApart(m: map<nat, nat>, s: nat, a: nat, b: nat)
    requires Apart(m) && s in m && s <= a <= b <= m[s]
    ensures Apart(Cut(m, s, a, b)) <==> a < b || a == s || a == m[s]
  {
    var c := Cut(m, s, a, b);
    if a == b && s < a < m[s] {
      assert c[s] == a && a in c;
    }
  }

  /** A request for an empty range, aligned to 2, in the one extent [1, 5), leaves two extents that touch. */
  lemma EmptyRequestTouches()
    ensures Apart(map[1 := 5]) && RoundUp(1, 2) == 2 && BestFit({(4, 1)}, (4, 1), 0, 2)
    ensures Cut(map[1 := 5], 1, 2, 2) == map[1 := 2, 2 := 5] && !Apart(Cut(map[1 := 5], 1, 2, 2))
  {
    assert Fits((4, 1), 0, 2) by {
      var a: nat := 2;
      assert 1 <= a && a + 0 <= 4 + 1 && a % 2 == 0;
    }
    CutApart(map[1 := 5], 1, 2, 2);
  }

  /** Only the neighbours found can touch the range. */
  lemma OnlyNeighbours(m: map<nat, nat>, start: nat, len: nat, prev: Option<nat>, next: Option<nat>)
    requires Apart(m) && len > 0 && forall s | s in m :: m[s] <= start || start + len <= s
    requires prev.Some? ==> prev.value in m && prev.value < start && forall s | s in m && s < start :: s <= prev.value
    requires prev.None? ==> forall s | s in m :: s >= start
    requires next.Some? ==> next.value in m && next.value >= start && forall s | s in m && s >= start :: s >= next.value
    requires next.None? ==> forall s | s in m :: s < start
    ensures forall s | s in m && m[s] == start :: prev == Some(s)
    ensures start + len in m ==> next == Some(start + len)
    ensures forall s | s in m :: s < m[s]
  {
  }

  lemma ExtentCovered(m: map<nat, nat>, s: nat)
    requires s in m
    ensures forall x | s <= x < m[s] :: Covers(m, x)
  {
  }

  /** Without the extents that touch it, the joined range touches none. */
  lemma JoinClear(m: map<nat, nat>, m': map<nat, nat>, start: nat, len: nat, lo: nat, hi: nat)
    requires Apart(m) && len > 0 && forall s | s in m :: m[s] <= start || start + len <= s
    requires (lo == start && forall s | s in m :: m[s] != start)
             || (lo < start && lo in m && m[lo] == start && lo !in m')
    requires (hi == start + len && hi !in m) || (start + len in m && m[start + len] == hi && start + len !in m')
    requires forall s | s in m' :: s in m && m'[s] == m[s]
    ensures lo < hi && Clear(m', lo, hi)
  {
  }

  lemma OutsideRange(m: map<nat, nat>, start: nat, len: nat)
    requires Apart(m) && len > 0 && forall x | start <= x < start + len :: !Covers(m, x)
    ensures forall s | s in m :: m[s] <= start || start + len <= s
  {
    forall s | s in m ensures m[s] <= start || start + len <= s {
      var x := if s < start then start else s;
      assert start <= x < start + len ==> !Covers(m, x);
    }
  }

  /** The first multiple of `a` from `x` on. */
  function RoundUp(x: nat, a: nat): nat
    requires a > 0
  {
    if x % a == 0 then x else x + (a - x % a)
  }

  /** An extent has room for an aligned range. */
  ghost predicate Fits(e: Entry, len: nat, align: nat)
    requires align > 0
  {
    exists a: nat :: e.1 <= a && a + len <= e.0 + e.1 && a % align == 0
  }

  /** The shortest extent with room, and of these the first. */
  ghost predicate BestFit(index: set<Entry>, e: Entry, len: nat, align: nat)
    requires align > 0
  {
    e in index && Fits(e, len, align) && forall g | g in index && Less(g, e) :: !Fits(g, len, align)
  }

  lemma RoundUpIsFirst(x: nat, align: nat)
    requires align > 0
    ensures RoundUp(x, align) >= x && RoundUp(x, align) % align == 0
    ensures forall a: nat | a >= x && a % align == 0 :: a >= RoundUp(x, align)
  {
    var (q, r) := (x / align, x % align);
    if r > 0 {
      assert RoundUp(x, align) == (q + 1) * align;
      ModUnique(RoundUp(x, align), align, q + 1, 0);
      forall a: nat | a >= x && a % align == 0 ensures a >= RoundUp(x, align) {
        NextMultiple(a, x, align, a / align, q);
      }
    }
  }

  lemma NextMultiple(a: nat, x: nat, n: nat, k: nat, q: nat)
    requires n > 0 && a == k * n && x > q * n && a >= x
    ensures a >= (q + 1) * n
  {
    if k <= q {
      MulLess(k, q, n);
    } else {
      MulLess(q + 1, k, n);
    }
  }

  lemma MulLess(a: nat, b: nat, n: nat)
    requires a <= b
    ensures a * n <= b * n
  {
  }

  ghost function Rest(index: set<Entry>, it: Option<Entry>): set<Entry> {
    if it.None? then {} else set e | e in index && !Less(e, it.value)
  }

  lemma RestShrinks(index: set<Entry>, e: Entry, next: Option<Entry>)
    requires e in index && (next.Some? ==> next.value in index && Less(e, next.value))
    ensures Rest(index, next) < Rest(index, Some(e))
  {
    assert e in Rest(index, Some(e)) && e !in Rest(index, next);
  }

  lemma Listed(m: map<nat, nat>, index: set<Entry>, e: Entry)
    requires Apart(m) && Indexed(m, index) && e in index
    ensures e.1 in m && m[e.1] == e.0 + e.1
  {
  }

  /** The rest of an extent touches no other extent. */
  lemma TakenApart(m: map<nat, nat>, s: nat, a: nat, b: nat)
    requires Apart(m) && s in m && s <= a <= b <= m[s]
    ensures Clear(m - {s}, s, a) && (b < m[s] ==> b !in m - {s} && (a > s ==> b !in (m - {s})[s := a]))
  {
  }

  /** A stretch of free space lies in one extent. */
  lemma {:induction false} InOneExtent(m: map<nat, nat>, a: nat, n: nat) returns (s: nat)
    requires Apart(m) && n > 0 && forall x: int | a <= x < a + n :: Covers(m, x)
    ensures s in m && s <= a && a + n <= m[s]
  {
    if n == 1 {
      assert Covers(m, a);
      s :| s in m && s <= a < m[s];
    } else {
      s := InOneExtent(m, a, n - 1);
      assert Covers(m, a + n - 1);
      var t :| t in m && t <= a + n - 1 < m[t];
    }
  }

  lemma FreeRangeFits(m: map<nat, nat>, index: set<Entry>, a: nat, len: nat, align: nat)
    requires Apart(m) && Indexed(m, index) && len > 0 && align > 0 && a % align == 0
    requires forall x: int | a <= x < a + len :: Covers(m, x)
    ensures exists e | e in index :: Fits(e, len, align)
  {
    var s := InOneExtent(m, a, len);
    var e := (m[s] - s, s);
    assert e in index && Fits(e, len, align);
  }

  lemma NowhereFits(m: map<nat, nat>, index: set<Entry>, len: nat, align: nat)
    requires Apart(m) && Indexed(m, index) && len > 0 && align > 0
    requires forall e | e in index :: !Fits(e, len, align)
    ensures forall a: nat | a % align == 0 :: exists x: int | a <= x < a + len :: !Covers(m, x)
  {
    hide Covers, Apart, Indexed, Fits;
    forall a: nat | a % align == 0 ensures exists x: int | a <= x < a + len :: !Covers(m, x) {
      if forall x: int | a <= x < a + len :: Covers(m, x) {
        FreeRangeFits(m, index, a, len, align);
      }
    }
  }
}
