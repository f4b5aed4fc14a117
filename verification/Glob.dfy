/** The glob matcher: backtracking with an early exit. */
module Glob {
  type Char = c: int | -128 <= c < 128      // bytes as the signed characters the matcher compares

  const STAR := '*' as int
  const QUESTION := '?' as int
  const OPEN := '[' as int
  const CLOSE := ']' as int
  const CARET := '^' as int
  const DASH := '-' as int
  const BACKSLASH := '\\' as int
  const MAX_NESTING := 1000

  function Lower(c: int): int { if 'A' as int <= c <= 'Z' as int then c + 32 else c }

  predicate Same(a: int, b: int, nocase: bool) { if nocase then Lower(a) == Lower(b) else a == b }

  // ---- the language of a pattern --------------------------------------------------------

  /** Whether a character lies in a range, whose ends may come in either order. */
  predicate InRange(a: int, b: int, c: int, nocase: bool) {
    var (lo, hi) := if a > b then (b, a) else (a, b);
    if nocase then Lower(lo) <= Lower(c) <= Lower(hi) else lo <= c <= hi
  }

  /** The body of a bracket expression from `q` on: whether it names the character, and the last index that belongs to
      it. An escaped character is compared as it is; an expression that is not closed ends with the pattern. */
  function Body(p: seq<Char>, q: nat, c: int, nocase: bool): (r: (bool, nat))
    requires 0 < q <= |p|
    ensures q - 1 <= r.1 < |p|
    decreases |p| - q
  {
    if |p| - q >= 2 && p[q] == BACKSLASH then
      var r := Body(p, q + 2, c, nocase);
      (p[q + 1] == c || r.0, r.1)
    else if q == |p| then (false, q - 1)
    else if p[q] == CLOSE then (false, q)
    else if |p| - q >= 3 && p[q + 1] == DASH then
      var r := Body(p, q + 3, c, nocase);
      (InRange(p[q], p[q + 2], c, nocase) || r.0, r.1)
    else
      var r := Body(p, q + 1, c, nocase);
      (Same(p[q], c, nocase) || r.0, r.1)
  }

  /** The character class that begins at `i`: whether the character is in it, and the index behind it. */
  function Class(p: seq<Char>, i: nat, c: int, nocase: bool): (r: (bool, nat))
    requires i < |p| && p[i] == OPEN
    ensures i < r.1 <= |p|
  {
    var negated := i + 1 < |p| && p[i + 1] == CARET;
    var r := Body(p, if negated then i + 2 else i + 1, c, nocase);
    (r.0 != negated, r.1 + 1)
  }

  /** The token at `i`, which is not a star, accepts the character. */
  predicate Accepts(p: seq<Char>, i: nat, c: int, nocase: bool)
    requires i < |p| && p[i] != STAR
  {
    if p[i] == QUESTION then true
    else if p[i] == OPEN then Class(p, i, c, nocase).0
    else if p[i] == BACKSLASH && i + 1 < |p| then Same(p[i + 1], c, nocase)
    else Same(p[i], c, nocase)
  }

  /** The index behind the token at `i`. */
  function After(p: seq<Char>, i: nat): (r: nat)
    requires i < |p| && p[i] != STAR
    ensures i < r <= |p|
  {
    if p[i] == OPEN then Class(p, i, 0, false).1
    else if p[i] == BACKSLASH && i + 1 < |p| then i + 2
    else i + 1
  }

  /** Where a class ends does not depend on the character. */
  lemma {:induction false} BodyEnd(p: seq<Char>, q: nat, c: int, d: int, nocase: bool, nocase': bool)
    requires 0 < q <= |p|
    ensures Body(p, q, c, nocase).1 == Body(p, q, d, nocase').1
    decreases |p| - q
  {
    hide InRange, Same;
    if |p| - q >= 2 && p[q] == BACKSLASH {
      BodyEnd(p, q + 2, c, d, nocase, nocase');
    } else if q == |p| || p[q] == CLOSE {
    } else if |p| - q >= 3 && p[q + 1] == DASH {
      BodyEnd(p, q + 3, c, d, nocase, nocase');
    } else {
      BodyEnd(p, q + 1, c, d, nocase, nocase');
    }
  }

  /** The pattern from `i` on matches the string from `j` on. */
  ghost predicate Match(p: seq<Char>, i: nat, s: seq<Char>, j: nat, nocase: bool)
    requires i <= |p| && j <= |s|
    decreases |p| - i, |s| - j
  {
    if i == |p| then j == |s|
    else if p[i] == STAR then Match(p, i + 1, s, j, nocase) || (j < |s| && Match(p, i, s, j + 1, nocase))
    else j < |s| && Accepts(p, i, s[j], nocase) && Match(p, After(p, i), s, j + 1, nocase)
  }

  ghost predicate Somewhere(p: seq<Char>, i: nat, s: seq<Char>, j: nat, nocase: bool)
    requires i <= |p| && j <= |s|
  {
    exists x | j <= x <= |s| :: Match(p, i, s, x, nocase)
  }

  /** A star matches any stretch of the string. */
  lemma {:induction false} StarMatches(p: seq<Char>, i: nat, s: seq<Char>, j: nat, nocase: bool)
    requires i < |p| && p[i] == STAR && j <= |s|
    ensures Match(p, i, s, j, nocase) <==> Somewhere(p, i + 1, s, j, nocase)
    decreases |s| - j
  {
    hide Accepts, After;
    if j < |s| {
      StarMatches(p, i, s, j + 1, nocase);
      if Somewhere(p, i + 1, s, j, nocase) {
        var x :| j <= x <= |s| && Match(p, i + 1, s, x, nocase);
        assert x > j ==> Somewhere(p, i + 1, s, j + 1, nocase);
      }
    }
  }

  /** The number of runs of stars from `i` on. */
  ghost function Runs(p: seq<Char>, i: nat): nat
    requires i <= |p|
    decreases |p| - i
  {
    if i == |p| then 0
    else if p[i] == STAR then Runs(p, i + 1) + if i + 1 < |p| && p[i + 1] == STAR then 0 else 1
    else Runs(p, After(p, i))
  }

  // ---- what patterns stand for ----------------------------------------------------------

  function Min(a: int, b: int): int { if a < b then a else b }

  function Max(a: int, b: int): int { if a < b then b else a }

  /** The same character, or an upper-case letter and its lower-case form, in either order. */
  ghost predicate SameLetter(a: int, b: int) {
    || a == b
    || ('A' as int <= a <= 'Z' as int && b == a + 32)
    || ('A' as int <= b <= 'Z' as int && a == b + 32)
  }

  /** A range names the characters between its ends, both included, in whichever order they are given. Its first end is
      no bracket, backslash or caret. */
  lemma RangeMatches(x: Char, y: Char, c: Char)
    requires x != CLOSE && x != BACKSLASH && x != CARET
    ensures Match([OPEN, x, DASH, y, CLOSE], 0, [c], 0, false) <==> Min(x, y) <= c <= Max(x, y)
  {
    var p := [OPEN, x, DASH, y, CLOSE];
    assert Body(p, 4, c, false) == (false, 4) && Body(p, 4, 0, false) == (false, 4);
    assert Body(p, 1, c, false).1 == 4 && Body(p, 1, 0, false).1 == 4;
    assert Match(p, 5, [c], 1, false);
  }

  /** Behind a caret it names the others. */
  lemma NegatedRangeMatches(x: Char, y: Char, c: Char)
    requires x != CLOSE && x != BACKSLASH
    ensures Match([OPEN, CARET, x, DASH, y, CLOSE], 0, [c], 0, false) <==> !(Min(x, y) <= c <= Max(x, y))
  {
    var p := [OPEN, CARET, x, DASH, y, CLOSE];
    assert Body(p, 5, c, false) == (false, 5) && Body(p, 5, 0, false) == (false, 5);
    assert Body(p, 2, c, false).1 == 5 && Body(p, 2, 0, false).1 == 5;
    assert Match(p, 6, [c], 1, false);
  }

  /** With upper and lower case taken as the same, a range of two upper-case letters names all letters between them. */
  lemma LetterRangeMatches(x: Char, y: Char, c: Char)
    requires 'A' as int <= x <= 'Z' as int && 'A' as int <= y <= 'Z' as int
    ensures Match([OPEN, x, DASH, y, CLOSE], 0, [c], 0, true) <==>
              Min(x, y) <= c <= Max(x, y) || Min(x, y) + 32 <= c <= Max(x, y) + 32
  {
    var p := [OPEN, x, DASH, y, CLOSE];
    assert Body(p, 4, c, true) == (false, 4) && Body(p, 4, 0, false) == (false, 4);
    assert Body(p, 1, c, true).1 == 4 && Body(p, 1, 0, false).1 == 4;
    assert Match(p, 5, [c], 1, true);
  }

  predicate Plain(c: int) { c != STAR && c != QUESTION && c != OPEN && c != BACKSLASH }

  predicate PlainInClass(c: int) { c != CLOSE && c != BACKSLASH && c != DASH && c != CARET }

  lemma {:induction false} PlainBody(p: seq<Char>, q: nat, k: nat, c: int, nocase: bool)
    requires 0 < q <= k < |p| && p[k] == CLOSE && forall x | q <= x < k :: PlainInClass(p[x])
    ensures Body(p, q, c, nocase).1 == k
    ensures Body(p, q, c, nocase).0 <==> exists x | q <= x < k :: if nocase then SameLetter(p[x], c) else p[x] == c
    decreases k - q
  {
    if q < k {
      PlainBody(p, q + 1, k, c, nocase);
    }
  }

  /** A class of plain characters names exactly these, in both cases if case does not matter. */
  lemma ClassMatches(cs: seq<Char>, c: Char, nocase: bool)
    requires forall x | 0 <= x < |cs| :: PlainInClass(cs[x])
    ensures Match([OPEN] + cs + [CLOSE], 0, [c], 0, nocase) <==>
              exists x | 0 <= x < |cs| :: if nocase then SameLetter(cs[x], c) else cs[x] == c
  {
    hide SameLetter;
    var (p, k) := ([OPEN] + cs + [CLOSE], |cs| + 1);
    PlainBody(p, 1, k, c, nocase);
    PlainBody(p, 1, k, 0, false);
    assert forall x | 0 <= x < |cs| :: p[x + 1] == cs[x];
    if x :| 1 <= x < k && if nocase then SameLetter(p[x], c) else p[x] == c {
      assert cs[x - 1] == p[x];
    }
    if x :| 0 <= x < |cs| && if nocase then SameLetter(cs[x], c) else cs[x] == c {
      assert p[x + 1] == cs[x];
    }
    assert Match(p, k + 1, [c], 1, nocase);
  }

  lemma {:induction false} UnclosedBody(p: seq<Char>, q: nat, c: int)
    requires 0 < q <= |p| && forall x | q <= x < |p| :: PlainInClass(p[x])
    ensures Body(p, q, c, false).1 == |p| - 1 && (Body(p, q, c, false).0 <==> c in p[q..])
    decreases |p| - q
  {
    if q < |p| {
      UnclosedBody(p, q + 1, c);
      assert p[q..] == [p[q]] + p[q + 1..];
    }
  }

  /** So does one that the end of the pattern cuts off. */
  lemma UnclosedMatches(cs: seq<Char>, c: Char)
    requires forall x | 0 <= x < |cs| :: PlainInClass(cs[x])
    ensures Match([OPEN] + cs, 0, [c], 0, false) <==> c in cs
  {
    var p := [OPEN] + cs;
    UnclosedBody(p, 1, c);
    UnclosedBody(p, 1, 0);
    assert p[1..] == cs;
    assert Match(p, |p|, [c], 1, false);
  }

  /** In a class an escaped character stands for itself alone, even if case does not matter. */
  lemma EscapedInClass(x: Char, c: Char, nocase: bool)
    ensures Match([OPEN, BACKSLASH, x, CLOSE], 0, [c], 0, nocase) <==> c == x
  {
    var p := [OPEN, BACKSLASH, x, CLOSE];
    assert Body(p, 3, c, nocase) == (false, 3) && Body(p, 3, 0, false) == (false, 3);
    assert Match(p, 4, [c], 1, nocase);
  }

  /** The strings are the same, in both cases if case does not matter. */
  ghost predicate Equal(a: seq<Char>, b: seq<Char>, nocase: bool) {
    |a| == |b| && forall x | 0 <= x < |a| :: if nocase then SameLetter(a[x], b[x]) else a[x] == b[x]
  }

  lemma FirstEqual(a: seq<Char>, b: seq<Char>, nocase: bool)
    requires a != [] && b != []
    ensures Equal(a, b, nocase) <==>
              (if nocase then SameLetter(a[0], b[0]) else a[0] == b[0]) && Equal(a[1..], b[1..], nocase)
  {
    hide SameLetter;
    if (if nocase then SameLetter(a[0], b[0]) else a[0] == b[0]) && Equal(a[1..], b[1..], nocase) {
      forall x | 0 <= x < |a| ensures if nocase then SameLetter(a[x], b[x]) else a[x] == b[x] {
        if x > 0 {
          assert a[1..][x - 1] == a[x] && b[1..][x - 1] == b[x];
        }
      }
    }
  }

  /** A pattern of plain characters matches exactly itself. */
  lemma {:induction false} LiteralMatches(p: seq<Char>, i: nat, s: seq<Char>, j: nat, nocase: bool)
    requires i <= |p| && j <= |s| && forall x | i <= x < |p| :: Plain(p[x])
    ensures Match(p, i, s, j, nocase) <==> Equal(p[i..], s[j..], nocase)
    decreases |p| - i
  {
    if i < |p| && j < |s| {
      LiteralMatches(p, i + 1, s, j + 1, nocase);
      FirstEqual(p[i..], s[j..], nocase);
      assert p[i..][1..] == p[i + 1..] && s[j..][1..] == s[j + 1..];
      hide Equal;
    }
  }

  /** Every character behind a backslash. */
  function Escaped(t: seq<Char>): (r: seq<Char>)
    ensures |r| == 2 * |t|
    ensures forall x | 0 <= x < |t| :: r[2 * x] == BACKSLASH && r[2 * x + 1] == t[x]
  {
    if t == [] then [] else Escaped(t[..|t| - 1]) + [BACKSLASH, t[|t| - 1]]
  }

  /** Escaped, any string is a pattern that matches exactly itself. */
  lemma {:induction false} EscapedMatches(t: seq<Char>, i: nat, s: seq<Char>, j: nat, nocase: bool)
    requires i <= |t| && j <= |s|
    ensures Match(Escaped(t), 2 * i, s, j, nocase) <==> Equal(t[i..], s[j..], nocase)
    decreases |t| - i
  {
    hide Escaped;
    if i < |t| && j < |s| {
      EscapedMatches(t, i + 1, s, j + 1, nocase);
      FirstEqual(t[i..], s[j..], nocase);
      assert t[i..][1..] == t[i + 1..] && s[j..][1..] == s[j + 1..];
      assert Escaped(t)[2 * i] == BACKSLASH && Escaped(t)[2 * i + 1] == t[i];
      hide Equal;
    }
  }

  /** A pattern of question marks matches exactly the strings of its length. */
  lemma {:induction false} QuestionsMatch(p: seq<Char>, i: nat, s: seq<Char>, j: nat, nocase: bool)
    requires i <= |p| && j <= |s| && forall x | i <= x < |p| :: p[x] == QUESTION
    ensures Match(p, i, s, j, nocase) <==> |p| - i == |s| - j
    decreases |p| - i
  {
    if i < |p| && j < |s| {
      QuestionsMatch(p, i + 1, s, j + 1, nocase);
    }
  }

  // ---- the matcher ----------------------------------------------------------------------

  /** The loop over a bracket expression. */
  method MatchClass(p: seq<Char>, i: nat, c: Char, nocase: bool) returns (match': bool, last: nat)
    requires i < |p| && p[i] == OPEN
    ensures (match', last + 1) == Class(p, i, c, nocase)
  {
    hide InRange, Same;
    var q := i + 1;
    var negated := q < |p| && p[q] == CARET;
    if negated {
      q := q + 1;
    }
    match' := false;
    ghost var start := q;
    while true
      invariant start <= q <= |p| && i < q
      invariant var (r, r0) := (Body(p, q, c, nocase), Body(p, start, c, nocase)); r0 == (match' || r.0, r.1)
      decreases |p| - q
    {
      if |p| - q >= 2 && p[q] == BACKSLASH {
        q := q + 1;
        if p[q] == c {
          match' := true;
        }
      } else if q == |p| {
        q := q - 1;
        break;
      } else if p[q] == CLOSE {
        break;
      } else if |p| - q >= 3 && p[q + 1] == DASH {
        if InRange(p[q], p[q + 2], c, nocase) {
          match' := true;
        }
        q := q + 2;
      } else {
        if Same(p[q], c, nocase) {
          match' := true;
        }
      }
      q := q + 1;
    }
    if negated {
      match' := !match';
    }
    last := q;
  }

  /** No suffix of the string from `j` on matches. */
  ghost predicate Hopeless(p: seq<Char>, i: nat, s: seq<Char>, j: nat, nocase: bool)
    requires i <= |p| && j <= |s|
  {
    forall x | j <= x <= |s| :: !Match(p, i, s, x, nocase)
  }

  /** After tokens that lead from `i0` to `i` and take `j - j0` characters, any later match must go through `i`. */
  ghost predicate Through(p: seq<Char>, i0: nat, i: nat, s: seq<Char>, j0: nat, j: nat, nocase: bool)
    requires i0 <= |p| && i <= |p| && j0 <= j <= |s|
  {
    forall x | j0 <= x <= |s| && Match(p, i0, s, x, nocase) ::
      x + (j - j0) <= |s| && Match(p, i, s, x + (j - j0), nocase)
  }

  lemma ThroughToken(p: seq<Char>, i0: nat, i: nat, s: seq<Char>, j0: nat, j: nat, nocase: bool)
    requires i0 <= |p| && i < |p| && p[i] != STAR && j0 <= j < |s| && Through(p, i0, i, s, j0, j, nocase)
    ensures Through(p, i0, After(p, i), s, j0, j + 1, nocase)
  {
    hide Accepts, After;
    forall x | j0 <= x <= |s| && Match(p, i0, s, x, nocase)
      ensures x + (j + 1 - j0) <= |s| && Match(p, After(p, i), s, x + (j + 1 - j0), nocase)
    {
      assert Match(p, i, s, x + (j - j0), nocase);
    }
  }

  lemma HopelessThrough(p: seq<Char>, i0: nat, i: nat, s: seq<Char>, j0: nat, j: nat, nocase: bool)
    requires i0 <= |p| && i <= |p| && j0 <= j <= |s| && Through(p, i0, i, s, j0, j, nocase)
             && Hopeless(p, i, s, j, nocase)
    ensures Hopeless(p, i0, s, j0, nocase)
  {
    hide Match;
  }

  /** Where the rest behind a star is hopeless, the star is. */
  lemma HopelessStar(p: seq<Char>, i: nat, s: seq<Char>, j: nat, nocase: bool)
    requires i < |p| && p[i] == STAR && j <= |s| && Hopeless(p, i + 1, s, j, nocase)
    ensures Hopeless(p, i, s, j, nocase)
  {
    forall x | j <= x <= |s| ensures !Match(p, i, s, x, nocase) {
      StarMatches(p, i, s, x, nocase);
    }
  }

  lemma TwoStars(p: seq<Char>, i: nat, s: seq<Char>, nocase: bool)
    requires i + 1 < |p| && p[i] == STAR && p[i + 1] == STAR
    ensures forall j | 0 <= j <= |s| :: Match(p, i, s, j, nocase) <==> Match(p, i + 1, s, j, nocase)
  {
    forall j | 0 <= j <= |s| ensures Match(p, i, s, j, nocase) <==> Match(p, i + 1, s, j, nocase) {
      StarMatches(p, i, s, j, nocase);
      if Somewhere(p, i + 1, s, j, nocase) {
        var x :| j <= x <= |s| && Match(p, i + 1, s, x, nocase);
        Earlier(p, i + 1, s, j, x, nocase);
      }
    }
  }

  lemma {:induction false} Earlier(p: seq<Char>, i: nat, s: seq<Char>, j: nat, x: nat, nocase: bool)
    requires i < |p| && p[i] == STAR && j <= x <= |s| && Match(p, i, s, x, nocase)
    ensures Match(p, i, s, j, nocase)
    decreases x - j
  {
    if j < x {
      Earlier(p, i, s, j + 1, x, nocase);
    }
  }

  /** A rest that begins with another token than a star does not match the empty string. */
  lemma NeedsMore(p: seq<Char>, i: nat, s: seq<Char>, nocase: bool)
    requires i < |p| && p[i] != STAR
    ensures !Match(p, i, s, |s|, nocase)
  {
  }

  /** One token that is not a star. */
  method MatchToken(p: seq<Char>, i: nat, c: Char, nocase: bool) returns (ok: bool, next: nat)
    requires i < |p| && p[i] != STAR
    ensures ok == Accepts(p, i, c, nocase) && next == After(p, i)
  {
    hide Body;
    if p[i] == QUESTION {
      return true, i + 1;
    }
    if p[i] == OPEN {
      var last;
      ok, last := MatchClass(p, i, c, nocase);
      ClassEnd(p, i, c, nocase);
      return ok, last + 1;
    }
    next := i;
    if p[i] == BACKSLASH && |p| - i >= 2 {
      next := i + 1;
    }
    return Same(p[next], c, nocase), next + 1;
  }

  lemma ClassEnd(p: seq<Char>, i: nat, c: int, nocase: bool)
    requires i < |p| && p[i] == OPEN
    ensures Class(p, i, c, nocase).1 == Class(p, i, 0, false).1
  {
    hide Body;
    BodyEnd(p, if i + 1 < |p| && p[i + 1] == CARET then i + 2 else i + 1, c, 0, nocase, false);
  }

  /** stringmatchlen_impl without the cut-off for deep nesting would be exact; with it, a match is always right, and
      the answer is exact while the runs of stars do not exceed the limit. `skip` says that no later start can match
      either. `after` is the byte behind the pattern, which the matcher reads. */
  method MatchFrom(p: seq<Char>, i0: nat, after: Char, s: seq<Char>, j0: nat, nocase: bool, nesting: nat)
    returns (res: bool, skip: bool)
    requires i0 <= |p| && j0 <= |s| && after != STAR
    ensures res ==> Match(p, i0, s, j0, nocase)
    ensures j0 < |s| && nesting + Runs(p, i0) <= MAX_NESTING && !res ==> !Match(p, i0, s, j0, nocase)
    ensures j0 == |s| && nesting <= MAX_NESTING ==> (res <==> i0 == |p|)
    ensures nesting + Runs(p, i0) <= MAX_NESTING && skip ==> Hopeless(p, i0, s, j0, nocase)
    ensures res ==> !skip
    decreases |p| - i0, 1
  {
    hide Accepts, After, Class, Body;
    skip := false;
    if nesting > MAX_NESTING {
      return false, false;
    }
    var i, j := i0, j0;
    while i < |p| && j < |s|
      invariant i0 <= i <= |p| && j0 <= j <= |s|
      invariant Match(p, i0, s, j0, nocase) <==> Match(p, i, s, j, nocase)
      invariant Through(p, i0, i, s, j0, j, nocase)
      invariant Runs(p, i) == Runs(p, i0)
      invariant j == |s| ==> i == i0 && j == j0
      decreases |p| - i
    {
      if p[i] == STAR {
        res, skip := MatchStar(p, i, after, s, j, nocase, nesting);
        if nesting + Runs(p, i0) <= MAX_NESTING && skip {
          HopelessThrough(p, i0, i, s, j0, j, nocase);
        }
        return;
      }
      var ok, next := MatchToken(p, i, s[j], nocase);
      if !ok {
        return false, false;
      }
      ThroughToken(p, i0, i, s, j0, j, nocase);
      i, j := next, j + 1;
      if j == |s| {
        ghost var k := i;
        while i < |p| && p[i] == STAR
          invariant k <= i <= |p|
          invariant Match(p, k, s, j, nocase) <==> Match(p, i, s, j, nocase)
        {
          i := i + 1;
        }
        break;
      }
    }
    return i == |p| && j == |s|, false;
  }

  /** The case of a star: the run is collapsed, and the rest is tried at every later place until it matches or is found
      hopeless. */
  method MatchStar(p: seq<Char>, k: nat, after: Char, s: seq<Char>, j0: nat, nocase: bool, nesting: nat)
    returns (res: bool, skip: bool)
    requires k < |p| && p[k] == STAR && j0 < |s| && after != STAR && nesting <= MAX_NESTING
    ensures res ==> Match(p, k, s, j0, nocase)
    ensures nesting + Runs(p, k) <= MAX_NESTING && !res ==> !Match(p, k, s, j0, nocase)
    ensures nesting + Runs(p, k) <= MAX_NESTING && skip ==> Hopeless(p, k, s, j0, nocase)
    ensures res ==> !skip
    decreases |p| - k, 0
  {
    hide Accepts, After;
    var i := k;
    while i < |p| && (if i + 1 < |p| then p[i + 1] else after) == STAR
      invariant k <= i < |p| && p[i] == STAR && Runs(p, i) == Runs(p, k)
      invariant forall x | 0 <= x <= |s| :: Match(p, k, s, x, nocase) <==> Match(p, i, s, x, nocase)
      decreases |p| - i
    {
      TwoStars(p, i, s, nocase);
      i := i + 1;
    }
    if i + 1 == |p| {
      StarMatches(p, i, s, j0, nocase);
      assert Match(p, i + 1, s, |s|, nocase);
      return true, false;
    }
    ghost var within := nesting + Runs(p, k) <= MAX_NESTING;
    var j, rest := j0, i + 1;
    while j < |s|
      invariant j0 <= j <= |s|
      invariant within ==> forall x | j0 <= x < j :: !Match(p, rest, s, x, nocase)
    {
      res, skip := MatchFrom(p, rest, after, s, j, nocase, nesting + 1);
      if res {
        StarMatches(p, i, s, j0, nocase);
        return true, false;
      }
      if skip {
        if within {
          assert Hopeless(p, rest, s, j0, nocase);
          HopelessStar(p, i, s, j0, nocase);
        }
        return false, true;
      }
      j := j + 1;
    }
    NeedsMore(p, rest, s, nocase);
    if within {
      HopelessStar(p, i, s, j0, nocase);
    }
    return false, true;
  }

  /** The empty string is in the language of the patterns that consist of stars. */
  lemma {:induction false} EmptyMatches(p: seq<Char>, i: nat, s: seq<Char>, nocase: bool)
    requires i <= |p|
    ensures Match(p, i, s, |s|, nocase) <==> forall x | i <= x < |p| :: p[x] == STAR
    decreases |p| - i
  {
    hide Accepts, After;
    if i < |p| {
      EmptyMatches(p, i + 1, s, nocase);
    }
  }

  /** stringmatchlen. It decides the language of the pattern for every string that is not empty; the empty string is
      only accepted by the empty pattern, although a pattern of stars stands for it too. */
  method StringMatch(p: seq<Char>, after: Char, s: seq<Char>, nocase: bool) returns (res: bool)
    requires after != STAR
    ensures res ==> Match(p, 0, s, 0, nocase)
    ensures Runs(p, 0) <= MAX_NESTING ==>
              (res <==> Match(p, 0, s, 0, nocase) && !(s == [] && p != [] && forall x | 0 <= x < |p| :: p[x] == STAR))
  {
    var skip;
    res, skip := MatchFrom(p, 0, after, s, 0, nocase, 0);
    if s == [] {
      EmptyMatches(p, 0, s, nocase);
    }
  }

  /** One star stands for the empty string, and is refused. */
  method StarRefusesEmpty(after: Char, nocase: bool) returns (res: bool)
    requires after != STAR
    ensures Match([STAR], 0, [], 0, nocase) && !res
  {
    EmptyMatches([STAR], 0, [], nocase);
    assert Runs([STAR], 1) == 0 && Runs([STAR], 0) == 1;
    res := StringMatch([STAR], after, [], nocase);
  }
}
