/** Lazy normalization (unicode.c, key.c). The cursor never builds the normalized name: each
    call looks for the next character of the current substring, in the order of the
    combining classes. */
module Normalize {
  import opened Unicode

  // The canonical ordering of a decomposition, in section 3.11 of the Unicode Standard

  /** A character moves before those of a higher class, but never before a starter. */
  function Insert(t: Tables, s: seq<nat>, x: nat): seq<nat> {
    if s == [] || t.Ccc(x) == 0 || t.Ccc(s[|s| - 1]) <= t.Ccc(x) then s + [x]
    else Insert(t, s[..|s| - 1], x) + [s[|s| - 1]]
  }

  function Ordered(t: Tables, s: seq<nat>): seq<nat> {
    if s == [] then [] else Insert(t, Ordered(t, s[..|s| - 1]), s[|s| - 1])
  }

  /** The characters of some combining class, in order. */
  function OfClass(t: Tables, s: seq<nat>, ccc: nat): seq<nat> {
    if s == [] then []
    else OfClass(t, s[..|s| - 1], ccc) + if t.Ccc(s[|s| - 1]) == ccc then [s[|s| - 1]] else []
  }

  /** No two characters in a row could be exchanged. */
  predicate InOrder(t: Tables, s: seq<nat>) {
    forall i :: 0 < i < |s| ==> t.Ccc(s[i]) == 0 || t.Ccc(s[i - 1]) <= t.Ccc(s[i])
  }

  /** The starters are in the same places. */
  predicate SameStarters(t: Tables, s: seq<nat>, r: seq<nat>) {
    |s| == |r| && forall i :: 0 <= i < |s| ==> (t.Ccc(s[i]) == 0 || t.Ccc(r[i]) == 0 ==> s[i] == r[i])
  }

  /** A character moves before those that have a higher class, up to a starter. */
  lemma {:induction false} InsertOrder(t: Tables, s: seq<nat>, x: nat)
    requires InOrder(t, s)
    ensures InOrder(t, Insert(t, s, x)) && |Insert(t, s, x)| == |s| + 1
    ensures t.Ccc(Insert(t, s, x)[|s|]) >= t.Ccc(x) && (s != [] && t.Ccc(x) > 0 ==>
      Insert(t, s, x)[|s|] == x || Insert(t, s, x)[|s|] == s[|s| - 1])
  {
    hide Tables.Ccc;
    if !(s == [] || t.Ccc(x) == 0 || t.Ccc(s[|s| - 1]) <= t.Ccc(x)) {
      var n := |s| - 1;
      InsertOrder(t, s[..n], x);
      Extended(t, Insert(t, s[..n], x), s[n]);
    }
  }

  lemma Extended(t: Tables, s: seq<nat>, x: nat)
    requires InOrder(t, s) && (s == [] || t.Ccc(x) == 0 || t.Ccc(s[|s| - 1]) <= t.Ccc(x))
    ensures InOrder(t, s + [x])
  {
    hide Tables.Ccc;
  }

  lemma {:induction false} InsertStarters(t: Tables, s: seq<nat>, x: nat)
    ensures SameStarters(t, s + [x], Insert(t, s, x))
  {
    hide Tables.Ccc;
    if !(s == [] || t.Ccc(x) == 0 || t.Ccc(s[|s| - 1]) <= t.Ccc(x)) {
      var n := |s| - 1;
      InsertStarters(t, s[..n], x);
      MovedPast(t, s[..n], s[n], x, Insert(t, s[..n], x));
      assert s[..n] + [s[n]] == s;
    }
  }

  lemma MovedPast(t: Tables, s: seq<nat>, y: nat, x: nat, r: seq<nat>)
    requires SameStarters(t, s + [x], r) && t.Ccc(x) > 0 && t.Ccc(y) > 0
    ensures SameStarters(t, s + [y] + [x], r + [y])
  {
    hide Tables.Ccc;
    var a, b := s + [y] + [x], r + [y];
    assert t.Ccc(r[|s|]) != 0;
    forall i | 0 <= i < |a|
      ensures t.Ccc(a[i]) == 0 || t.Ccc(b[i]) == 0 ==> a[i] == b[i]
    {
      if i < |s| { assert (s + [x])[i] == a[i] && b[i] == r[i]; }
    }
  }

  lemma {:induction false} InsertClass(t: Tables, s: seq<nat>, x: nat, ccc: nat)
    ensures OfClass(t, Insert(t, s, x), ccc) == OfClass(t, s, ccc) + if t.Ccc(x) == ccc then [x] else []
  {
    hide Tables.Ccc, OfClass;
    ClassLast(t, s, x, ccc);
    if !(s == [] || t.Ccc(x) == 0 || t.Ccc(s[|s| - 1]) <= t.Ccc(x)) {
      var n := |s| - 1;
      InsertClass(t, s[..n], x, ccc);
      ClassLast(t, Insert(t, s[..n], x), s[n], ccc);
      ClassLast(t, s[..n], s[n], ccc);
      assert s[..n] + [s[n]] == s;
    }
  }

  lemma ClassLast(t: Tables, s: seq<nat>, x: nat, ccc: nat)
    ensures OfClass(t, s + [x], ccc) == OfClass(t, s, ccc) + if t.Ccc(x) == ccc then [x] else []
  {
    assert (s + [x])[..|s|] == s;
  }

  /** The canonical order: starters stay where they are, no two characters in a row are out of
      order, and those of the same class keep theirs. */
  lemma {:induction false} OrderedIs(t: Tables, s: seq<nat>, ccc: nat)
    ensures InOrder(t, Ordered(t, s)) && SameStarters(t, s, Ordered(t, s))
    ensures OfClass(t, Ordered(t, s), ccc) == OfClass(t, s, ccc)
  {
    if s != [] {
      hide Tables.Ccc, OfClass, Insert, InOrder, SameStarters, Ordered;
      var init, x := s[..|s| - 1], s[|s| - 1];
      assert init + [x] == s;
      OrderedIs(t, init, ccc);
      OrderedLast(t, init, x);
      var r := Ordered(t, init);
      InsertOrder(t, r, x);
      InsertStarters(t, r, x);
      StartersThen(t, init, r, x, Insert(t, r, x));
      InsertClass(t, r, x, ccc);
      ClassLast(t, init, x, ccc);
    }
  }

  lemma StartersThen(t: Tables, s: seq<nat>, r: seq<nat>, x: nat, u: seq<nat>)
    requires SameStarters(t, s, r) && SameStarters(t, r + [x], u)
    ensures SameStarters(t, s + [x], u)
  {
    hide Tables.Ccc;
    var a, b := s + [x], r + [x];
    forall i | 0 <= i < |a|
      ensures t.Ccc(a[i]) == 0 || t.Ccc(u[i]) == 0 ==> a[i] == u[i]
    {
      if i < |s| { assert a[i] == s[i] && b[i] == r[i]; }
    }
  }

  // The order in which the cursor gives out the characters of a substring

  /** The character at position p of g comes after the last one. */
  predicate Later(t: Tables, g: seq<nat>, p: nat, lastCcc: nat, lastPos: int)
    requires p < |g|
  {
    t.Ccc(g[p]) > lastCcc || (t.Ccc(g[p]) == lastCcc && p > lastPos)
  }

  /** The first of those with the lowest class that come after the last one, among the
      first n characters; or -1. */
  function Next(t: Tables, g: seq<nat>, lastCcc: nat, lastPos: int, n: nat): (p: int)
    requires n <= |g|
    ensures -1 <= p < n && (p >= 0 ==> Later(t, g, p, lastCcc, lastPos))
    ensures forall q :: 0 <= q < n && Later(t, g, q, lastCcc, lastPos) ==>
      p >= 0 && (t.Ccc(g[p]) < t.Ccc(g[q]) || (t.Ccc(g[p]) == t.Ccc(g[q]) && p <= q))
  {
    if n == 0 then -1
    else
      var p := Next(t, g, lastCcc, lastPos, n - 1);
      if Later(t, g, n - 1, lastCcc, lastPos) && (p < 0 || t.Ccc(g[n - 1]) < t.Ccc(g[p])) then n - 1 else p
  }

  /** How many characters of g come after the last one. */
  function Left(t: Tables, g: seq<nat>, lastCcc: nat, lastPos: int, n: nat): nat
    requires n <= |g|
  {
    if n == 0 then 0 else Left(t, g, lastCcc, lastPos, n - 1) + if Later(t, g, n - 1, lastCcc, lastPos) then 1 else 0
  }

  lemma {:induction false} LeftDrops(t: Tables, g: seq<nat>, lastCcc: nat, lastPos: int, p: nat, n: nat)
    requires n <= |g| && p < |g| && Later(t, g, p, lastCcc, lastPos)
    ensures Left(t, g, t.Ccc(g[p]), p, n) <= Left(t, g, lastCcc, lastPos, n)
    ensures p < n ==> Left(t, g, t.Ccc(g[p]), p, n) < Left(t, g, lastCcc, lastPos, n)
  {
    if n > 0 { LeftDrops(t, g, lastCcc, lastPos, p, n - 1); }
  }

  /** All of them, one after the other. */
  function Emitted(t: Tables, g: seq<nat>, lastCcc: nat, lastPos: int): seq<nat>
    decreases Left(t, g, lastCcc, lastPos, |g|)
  {
    var p := Next(t, g, lastCcc, lastPos, |g|);
    if p < 0 then []
    else LeftDrops(t, g, lastCcc, lastPos, p, |g|); [g[p]] + Emitted(t, g, t.Ccc(g[p]), p)
  }

  // They are the same

  /** Same as Insert(), for a character that may be anywhere. */
  function Place(t: Tables, s: seq<nat>, x: nat): seq<nat> {
    if s == [] || t.Ccc(s[|s| - 1]) <= t.Ccc(x) then s + [x] else Place(t, s[..|s| - 1], x) + [s[|s| - 1]]
  }

  lemma {:induction false} PlaceAfter(t: Tables, h: nat, s: seq<nat>, x: nat)
    requires t.Ccc(h) <= t.Ccc(x)
    ensures Place(t, [h] + s, x) == [h] + Place(t, s, x)
    decreases |s|
  {
    var r := [h] + s;
    if s != [] {
      assert r[|r| - 1] == s[|s| - 1] && r[..|r| - 1] == [h] + s[..|s| - 1];
      if t.Ccc(s[|s| - 1]) > t.Ccc(x) { PlaceAfter(t, h, s[..|s| - 1], x); }
    }
  }

  lemma {:induction false} PlaceFirst(t: Tables, s: seq<nat>, x: nat)
    requires forall i :: 0 <= i < |s| ==> t.Ccc(s[i]) > t.Ccc(x)
    ensures Place(t, s, x) == [x] + s
    decreases |s|
  {
    if s != [] { PlaceFirst(t, s[..|s| - 1], x); }
  }

  /** What is given out is never below the last one. */
  lemma {:induction false} EmittedAbove(t: Tables, g: seq<nat>, lastCcc: nat, lastPos: int, c: nat)
    requires forall q :: 0 <= q < |g| && Later(t, g, q, lastCcc, lastPos) ==> t.Ccc(g[q]) > c
    ensures forall i :: 0 <= i < |Emitted(t, g, lastCcc, lastPos)| ==> t.Ccc(Emitted(t, g, lastCcc, lastPos)[i]) > c
    decreases Left(t, g, lastCcc, lastPos, |g|)
  {
    var p := Next(t, g, lastCcc, lastPos, |g|);
    if p >= 0 {
      LeftDrops(t, g, lastCcc, lastPos, p, |g|);
      EmittedAbove(t, g, t.Ccc(g[p]), p, c);
    }
  }

  /** What comes next only depends on what comes after the last one. */
  lemma {:induction false} EmittedSame(t: Tables, g: seq<nat>, x: nat, c1: nat, p1: int, c2: nat, p2: int)
    requires !Later(t, g + [x], |g|, c1, p1)
    requires forall q :: 0 <= q < |g| ==> (Later(t, g + [x], q, c1, p1) <==> Later(t, g, q, c2, p2))
    ensures Emitted(t, g + [x], c1, p1) == Emitted(t, g, c2, p2)
    decreases Left(t, g, c2, p2, |g|)
  {
    var p, q := Next(t, g + [x], c1, p1, |g| + 1), Next(t, g, c2, p2, |g|);
    if q >= 0 {
      assert Later(t, g + [x], q, c1, p1);
      assert p == q;
      LeftDrops(t, g, c2, p2, q, |g|);
      EmittedSame(t, g, x, t.Ccc(g[q]), q, t.Ccc(g[q]), q);
    }
  }

  lemma EmittedStep(t: Tables, g: seq<nat>, lastCcc: nat, lastPos: int)
    ensures var p := Next(t, g, lastCcc, lastPos, |g|);
      Emitted(t, g, lastCcc, lastPos) == if p < 0 then [] else [g[p]] + Emitted(t, g, t.Ccc(g[p]), p)
  {
  }

  lemma NextMore(t: Tables, g: seq<nat>, x: nat, lastCcc: nat, lastPos: int)
    requires Later(t, g + [x], |g|, lastCcc, lastPos)
    ensures var p := Next(t, g, lastCcc, lastPos, |g|);
      Next(t, g + [x], lastCcc, lastPos, |g| + 1) == if p >= 0 && t.Ccc(g[p]) <= t.Ccc(x) then p else |g|
  {
    hide Next;
    var p, q, r := Next(t, g, lastCcc, lastPos, |g|), Next(t, g + [x], lastCcc, lastPos, |g| + 1), g + [x];
    if p >= 0 { assert Later(t, r, p, lastCcc, lastPos); }
    if 0 <= q < |g| { assert Later(t, g, q, lastCcc, lastPos); }
  }

  /** One more character at the end is given out in its place. */
  lemma {:induction false} EmittedMore(t: Tables, g: seq<nat>, x: nat, lastCcc: nat, lastPos: int)
    requires Later(t, g + [x], |g|, lastCcc, lastPos) && lastPos < |g|
    ensures Emitted(t, g + [x], lastCcc, lastPos) == Place(t, Emitted(t, g, lastCcc, lastPos), x)
    decreases Left(t, g, lastCcc, lastPos, |g|)
  {
    hide Next, Place, Emitted, Left;
    var n, r := |g|, g + [x];
    var p := Next(t, g, lastCcc, lastPos, n);
    NextMore(t, g, x, lastCcc, lastPos);
    EmittedStep(t, g, lastCcc, lastPos);
    EmittedStep(t, r, lastCcc, lastPos);
    if p >= 0 && t.Ccc(g[p]) <= t.Ccc(x) {
      LeftDrops(t, g, lastCcc, lastPos, p, n);
      EmittedMore(t, g, x, t.Ccc(g[p]), p);
      PlaceAfter(t, g[p], Emitted(t, g, t.Ccc(g[p]), p), x);
    } else {
      EmittedSame(t, g, x, t.Ccc(x), n, lastCcc, lastPos);
      EmittedAbove(t, g, lastCcc, lastPos, t.Ccc(x));
      PlaceFirst(t, Emitted(t, g, lastCcc, lastPos), x);
    }
  }

  /** Starters, and then only characters that combine with the last of them; or only these. */
  ghost predicate Substring(t: Tables, g: seq<nat>) {
    forall i, j :: 0 <= i < j < |g| && t.Ccc(g[i]) > 0 ==> t.Ccc(g[j]) > 0
  }

  lemma {:induction false} OrderedStarters(t: Tables, g: seq<nat>)
    requires forall i :: 0 <= i < |g| ==> t.Ccc(g[i]) == 0
    ensures Ordered(t, g) == g
  {
    if g != [] {
      OrderedStarters(t, g[..|g| - 1]);
      assert g[..|g| - 1] + [g[|g| - 1]] == g;
    }
  }

  lemma {:induction false} InsertIsPlace(t: Tables, s: seq<nat>, x: nat)
    requires t.Ccc(x) > 0
    ensures Insert(t, s, x) == Place(t, s, x)
  {
    if s != [] { InsertIsPlace(t, s[..|s| - 1], x); }
  }

  /** A substring is given out in its canonical order. */
  lemma {:induction false} EmittedOrdered(t: Tables, g: seq<nat>)
    requires Substring(t, g)
    ensures Emitted(t, g, 0, -1) == Ordered(t, g)
    decreases |g|
  {
    if g != [] {
      hide Emitted, Place;
      var init, x := g[..|g| - 1], g[|g| - 1];
      assert init + [x] == g;
      EmittedOrdered(t, init);
      EmittedMore(t, init, x, 0, -1);
      if t.Ccc(x) > 0 {
        InsertIsPlace(t, Ordered(t, init), x);
      } else {
        OrderedStarters(t, init);
        PlaceLast(t, init, x);
      }
    }
  }

  lemma PlaceLast(t: Tables, s: seq<nat>, x: nat)
    requires s == [] || t.Ccc(s[|s| - 1]) <= t.Ccc(x)
    ensures Place(t, s, x) == s + [x]
  {
  }

  lemma {:induction false} InsertConcat(t: Tables, a: seq<nat>, b: seq<nat>, x: nat)
    requires b != [] && t.Ccc(b[0]) == 0
    ensures Insert(t, a + b, x) == a + Insert(t, b, x)
    ensures Insert(t, b, x) != [] && Insert(t, b, x)[0] == b[0]
    decreases |b|
  {
    var s := a + b;
    assert s[|s| - 1] == b[|b| - 1] && s[..|s| - 1] == a + b[..|b| - 1];
    if t.Ccc(x) > 0 && t.Ccc(b[|b| - 1]) > t.Ccc(x) { InsertConcat(t, a, b[..|b| - 1], x); }
  }

  /** Nothing moves past a starter, so the order can be found one substring at a time. */
  lemma {:induction false} OrderedConcat(t: Tables, a: seq<nat>, b: seq<nat>)
    requires b == [] || t.Ccc(b[0]) == 0
    ensures Ordered(t, a + b) == Ordered(t, a) + Ordered(t, b)
    ensures b != [] ==> Ordered(t, b) != [] && Ordered(t, b)[0] == b[0]
    decreases |b|
  {
    if b == [] {
      assert a + b == a;
    } else {
      var n, x := |b| - 1, b[|b| - 1];
      assert (a + b)[..|a + b| - 1] == a + b[..n];
      OrderedConcat(t, a, b[..n]);
      if n > 0 {
        InsertConcat(t, Ordered(t, a), Ordered(t, b[..n]), x);
      }
    }
  }

  lemma OrderedLast(t: Tables, s: seq<nat>, x: nat)
    ensures Ordered(t, s + [x]) == Insert(t, Ordered(t, s), x)
  {
    hide Insert;
    assert (s + [x])[..|s|] == s;
  }

  lemma {:induction false} StarterFirst(t: Tables, a: nat, b: seq<nat>)
    requires t.Ccc(a) == 0
    ensures Ordered(t, [a] + b) == [a] + Ordered(t, b)
    decreases |b|
  {
    if b == [] {
      OrderedLast(t, [], a);
      assert [a] + b == [] + [a];
    } else {
      var init, x := b[..|b| - 1], b[|b| - 1];
      StarterFirst(t, a, init);
      OrderedLast(t, init, x);
      OrderedLast(t, [a] + init, x);
      InsertAfterStarter(t, a, Ordered(t, init), x);
      assert init + [x] == b && [a] + init + [x] == [a] + b;
    }
  }

  lemma {:induction false} InsertAfterStarter(t: Tables, a: nat, s: seq<nat>, x: nat)
    requires t.Ccc(a) == 0
    ensures Insert(t, [a] + s, x) == [a] + Insert(t, s, x)
    decreases |s|
  {
    var r := [a] + s;
    if s != [] {
      assert r[|r| - 1] == s[|s| - 1] && r[..|r| - 1] == [a] + s[..|s| - 1];
      if t.Ccc(x) > 0 && t.Ccc(s[|s| - 1]) > t.Ccc(x) { InsertAfterStarter(t, a, s[..|s| - 1], x); }
    }
  }

  // Names

  /** A character of a name, or a byte that is not valid UTF-8. */
  datatype Unit = Char(c: nat) | Bad

  ghost predicate NameOk(s: seq<Unit>) {
    forall i :: 0 <= i < |s| && s[i].Char? ==> 0 < s[i].c <= UNICODE_MAX
  }

  ghost predicate ValidUtf8(s: seq<Unit>) { forall i :: 0 <= i < |s| ==> s[i].Char? }

  /** No character of the name turns into one that combines and then a starter. */
  ghost predicate ShapedName(t: Tables, s: seq<Unit>, i: nat, j: nat)
    requires i <= j <= |s|
  {
    forall k :: i <= k < j && s[k].Char? ==> t.Shaped(t.Expand(s[k].c))
  }

  /** The decomposition of part of a name. */
  function Decomposed(t: Tables, s: seq<Unit>, i: nat, j: nat): seq<nat>
    requires i <= j <= |s|
  {
    if i == j then [] else Decomposed(t, s, i, j - 1) + if s[j - 1].Char? then t.Expand(s[j - 1].c) else []
  }

  lemma DecomposedNext(t: Tables, s: seq<Unit>, i: nat, j: nat)
    requires i <= j < |s| && s[j].Char?
    ensures Decomposed(t, s, i, j + 1) == Decomposed(t, s, i, j) + t.Expand(s[j].c)
  {
  }

  lemma {:induction false} DecomposedConcat(t: Tables, s: seq<Unit>, i: nat, j: nat, k: nat)
    requires i <= j <= k <= |s|
    ensures Decomposed(t, s, i, k) == Decomposed(t, s, i, j) + Decomposed(t, s, j, k)
  {
    if j < k { DecomposedConcat(t, s, i, j, k - 1); }
  }

  // The end of a substring

  /** The first starter of e, from position p on, that comes after some other character; or
      the end of e. The flag tells if there was some other character before. */
  function CharScan(t: Tables, e: seq<nat>, p: nat, over: bool): (r: (nat, bool))
    requires p <= |e|
    ensures p <= r.0 <= |e|
    decreases |e| - p
  {
    if p == |e| then (p, over)
    else if t.Ccc(e[p]) > 0 then CharScan(t, e, p + 1, true)
    else if over then (p, over)
    else CharScan(t, e, p + 1, over)
  }

  /** Not all of the characters are starters. */
  ghost predicate Combines(t: Tables, g: seq<nat>) { exists k :: 0 <= k < |g| && t.Ccc(g[k]) > 0 }

  /** The decomposition of a character is passed whole exactly when a substring can go on
      with it; when the scan stops inside of it, it is not shaped. */
  lemma CharScanIs(t: Tables, g: seq<nat>, e: seq<nat>, over: bool)
    requires Substring(t, g) && (over <==> Combines(t, g))
    ensures var (p, o) := CharScan(t, e, 0, over);
      && (p == |e| ==> Substring(t, g + e) && t.Shaped(e) && (o <==> Combines(t, g + e)))
      && (0 < p < |e| ==> !t.Shaped(e))
      && (p == 0 < |e| ==> t.Ccc(e[0]) == 0)
  {
    assert g + e[..0] == g;
    CharScanFrom(t, g, e, 0, over);
    var p := CharScan(t, e, 0, over).0;
    if p == |e| {
      assert e[..p] == e;
      ShapedPart(t, g, e);
    }
  }

  lemma ShapedPart(t: Tables, g: seq<nat>, e: seq<nat>)
    requires Substring(t, g + e)
    ensures t.Shaped(e)
  {
    var r := g + e;
    assert forall k :: 0 <= k < |e| ==> e[k] == r[|g| + k];
  }

  lemma {:induction false} CharScanFrom(t: Tables, g: seq<nat>, e: seq<nat>, p: nat, over: bool)
    requires p <= |e| && Substring(t, g + e[..p]) && (over <==> Combines(t, g + e[..p]))
    requires p > 0 && over ==> Combines(t, e[..p])
    ensures var (q, o) := CharScan(t, e, p, over);
      && Substring(t, g + e[..q]) && (o <==> Combines(t, g + e[..q]))
      && (q < |e| ==> t.Ccc(e[q]) == 0 && (q > 0 ==> Combines(t, e[..q])))
      && (0 < q < |e| ==> !t.Shaped(e))
    decreases |e| - p
  {
    if p < |e| {
      var x := e[p];
      assert g + e[..p + 1] == (g + e[..p]) + [x];
      if t.Ccc(x) > 0 {
        SubstringMore(t, g + e[..p], x);
        assert e[..p + 1][p] == x;
        CharScanFrom(t, g, e, p + 1, true);
      } else if over {
        if p > 0 {
          var k :| 0 <= k < p && t.Ccc(e[k]) > 0;
        }
      } else {
        SubstringMore(t, g + e[..p], x);
        CharScanFrom(t, g, e, p + 1, over);
      }
    }
  }

  lemma SubstringMore(t: Tables, g: seq<nat>, x: nat)
    requires Substring(t, g) && (t.Ccc(x) > 0 || !Combines(t, g))
    ensures Substring(t, g + [x]) && (Combines(t, g + [x]) <==> Combines(t, g) || t.Ccc(x) > 0)
  {
    var r := g + [x];
    assert forall k :: 0 <= k < |g| ==> r[k] == g[k];
    if Combines(t, g) {
      var k :| 0 <= k < |g| && t.Ccc(g[k]) > 0;
      assert t.Ccc(r[k]) > 0;
    }
    if t.Ccc(x) > 0 { assert t.Ccc(r[|g|]) > 0; }
  }

  /** Where a scan stops: before some position in the decomposition of a character. */
  datatype Stop = Invalid | At(end: nat, pos: nat)

  /** The end of the substring of a name: the first starter that comes after some other
      character, which may be in the middle of what a character turns into. */
  function Scan(t: Tables, s: seq<Unit>, i: nat, over: bool): (r: Stop)
    requires i <= |s|
    ensures r.At? ==> i <= r.end <= |s| && (r.pos > 0 ==> r.end < |s|)
    decreases |s| - i
  {
    if i == |s| then At(i, 0)
    else if s[i].Bad? then Invalid
    else
      var e := t.Expand(s[i].c);
      var (p, o) := CharScan(t, e, 0, over);
      if p < |e| then At(i, p) else Scan(t, s, i + 1, o)
  }

  /** The substring is starters and then other characters, and a starter follows it. The
      scan stops in the middle of a character exactly when it meets one that is not shaped. */
  lemma {:induction false} ScanIs(t: Tables, s: seq<Unit>, i: nat, j: nat, over: bool)
    requires i <= j <= |s| && Substring(t, Decomposed(t, s, i, j))
    requires over <==> Combines(t, Decomposed(t, s, i, j))
    ensures var stop := Scan(t, s, j, over);
      stop.At? ==>
        && Substring(t, Decomposed(t, s, i, stop.end)) && ShapedName(t, s, j, stop.end)
        && (forall k :: j <= k < stop.end ==> s[k].Char?) && (stop.end < |s| ==> s[stop.end].Char?)
        && (stop.pos == 0 && stop.end < |s| ==>
          var e := t.Expand(s[stop.end].c); e != [] && t.Ccc(e[0]) == 0)
        && (stop.pos > 0 ==>
          var e := t.Expand(s[stop.end].c); stop.pos < |e| && !t.Shaped(e))
    decreases |s| - j
  {
    hide Combines, Substring, Tables.Expand, Tables.Shaped, CharScan, Decomposed;
    if j < |s| && s[j].Char? {
      DecomposedNext(t, s, i, j);
      var g, e := Decomposed(t, s, i, j), t.Expand(s[j].c);
      CharScanIs(t, g, e, over);
      if CharScan(t, e, 0, over).0 == |e| { ScanIs(t, s, i, j + 1, CharScan(t, e, 0, over).1); }
    }
  }

  /** The same, from the start of a substring. */
  lemma SubstringIs(t: Tables, s: seq<Unit>, i: nat)
    requires i < |s| && s[i].Char? && t.Expand(s[i].c) != []
    ensures var stop := Scan(t, s, i, false);
      stop.At? ==>
        && Substring(t, Decomposed(t, s, i, stop.end)) && ShapedName(t, s, i, stop.end)
        && (forall k :: i <= k < stop.end ==> s[k].Char?) && (stop.end < |s| ==> s[stop.end].Char?)
        && (stop.pos == 0 ==> stop.end > i)
        && (stop.pos == 0 && stop.end < |s| ==>
          var e := t.Expand(s[stop.end].c); e != [] && t.Ccc(e[0]) == 0)
        && (stop.pos > 0 ==>
          var e := t.Expand(s[stop.end].c); stop.pos < |e| && !t.Shaped(e))
  {
    assert Decomposed(t, s, i, i) == [];
    ScanIs(t, s, i, i, false);
  }

  lemma {:induction false} ScanValid(t: Tables, s: seq<Unit>, i: nat, over: bool)
    requires i <= |s| && ValidUtf8(s)
    ensures Scan(t, s, i, over).At?
    decreases |s| - i
  {
    if i < |s| {
      var e := t.Expand(s[i].c);
      var (p, o) := CharScan(t, e, 0, over);
      if p == |e| { ScanValid(t, s, i + 1, o); }
    }
  }

  // What the cursor gives out

  /** Some characters, and then either the end or a call that never returns. */
  datatype Output = Output(chars: seq<nat>, ends: bool) {
    function After(first: seq<nat>): Output { Output(first + chars, ends) }

    function Tail(): Output
      requires chars != []
    {
      Output(chars[1..], ends)
    }
  }

  const STUCK := Output([], false)

  /** All that the cursor gives out for the rest of a name, until it ends or there is a
      substring that is not valid. A substring that ends in the middle of a character has
      no end that the search can find. */
  function All(t: Tables, s: seq<Unit>, i: nat): Output
    requires i <= |s| && t.Valid() && NameOk(s)
    decreases |s| - i
  {
    if i == |s| || s[i].Bad? then Output([], true)
    else if s[i].c < 128 then All(t, s, i + 1).After([t.Lower(s[i].c)])
    else
      match Scan(t, s, i, false)
      case Invalid => Output([], true)
      case At(end, pos) =>
        if pos > 0 then STUCK
        else SubstringIs(t, s, i); All(t, s, end).After(Emitted(t, Decomposed(t, s, i, end), 0, -1))
  }

  lemma DecomposedFirst(t: Tables, s: seq<Unit>, i: nat)
    requires i < |s| && s[i].Char?
    ensures Decomposed(t, s, i, |s|) == t.Expand(s[i].c) + Decomposed(t, s, i + 1, |s|)
  {
    DecomposedConcat(t, s, i, i + 1, |s|);
    assert Decomposed(t, s, i, i) == [];
  }

  /** A valid name is given out as its decomposition, in canonical order, if and only if each
      of its characters is shaped. Otherwise, the cursor gets stuck after some part of that. */
  lemma {:induction false} AllOrdered(t: Tables, s: seq<Unit>, i: nat)
    requires i <= |s| && t.Valid() && ValidUtf8(s) && NameOk(s)
    ensures All(t, s, i).ends <==> ShapedName(t, s, i, |s|)
    ensures All(t, s, i).ends ==> All(t, s, i).chars == Ordered(t, Decomposed(t, s, i, |s|))
    ensures All(t, s, i).chars <= Ordered(t, Decomposed(t, s, i, |s|))
    decreases |s| - i, 1
  {
    hide Ordered, Emitted, Scan, Decomposed, Tables.Expand, Tables.Shaped;
    if i == |s| {
      assert Decomposed(t, s, i, i) == [] by { NoneDecomposed(t, s, i); }
      OrderedNone(t);
    } else if s[i].c < 128 {
      AllOrdered(t, s, i + 1);
      DecomposedFirst(t, s, i);
      StarterFirst(t, t.Lower(s[i].c), Decomposed(t, s, i + 1, |s|));
      OneShaped(t, t.Lower(s[i].c));
    } else {
      AllOrderedFrom(t, s, i);
    }
  }

  /** The case of a substring. */
  lemma {:induction false} AllOrderedFrom(t: Tables, s: seq<Unit>, i: nat)
    requires i < |s| && t.Valid() && ValidUtf8(s) && NameOk(s) && s[i].c >= 128
    ensures All(t, s, i).ends <==> ShapedName(t, s, i, |s|)
    ensures All(t, s, i).ends ==> All(t, s, i).chars == Ordered(t, Decomposed(t, s, i, |s|))
    ensures All(t, s, i).chars <= Ordered(t, Decomposed(t, s, i, |s|))
    decreases |s| - i, 0
  {
    hide Ordered, Emitted, Scan, Decomposed, Tables.Expand, Tables.Shaped;
    ScanValid(t, s, i, false);
    SubstringIs(t, s, i);
    var stop := Scan(t, s, i, false);
    if stop.pos == 0 {
      AllOrdered(t, s, stop.end);
      EmittedOrdered(t, Decomposed(t, s, i, stop.end));
      DecomposedConcat(t, s, i, stop.end, |s|);
      if stop.end < |s| { DecomposedFirst(t, s, stop.end); } else { NoneDecomposed(t, s, |s|); }
      OrderedConcat(t, Decomposed(t, s, i, stop.end), Decomposed(t, s, stop.end, |s|));
    }
  }

  lemma OneShaped(t: Tables, x: nat)
    ensures t.Shaped([x])
  {
  }

  lemma NoneDecomposed(t: Tables, s: seq<Unit>, i: nat)
    requires i <= |s|
    ensures Decomposed(t, s, i, i) == []
  {
  }

  lemma OrderedNone(t: Tables)
    ensures Ordered(t, []) == []
  {
  }

  /** Where the decomposition of a character is in that of its substring. */
  lemma PartOf(t: Tables, s: seq<Unit>, i: nat, k: nat, end: nat)
    requires i <= k < end <= |s| && s[k].Char? && t.Valid() && NameOk(s)
    ensures var g, n, e := Decomposed(t, s, i, end), |Decomposed(t, s, i, k)|, t.Expand(s[k].c);
      && e != [] && n + |e| <= |g| && |Decomposed(t, s, i, k + 1)| == n + |e|
      && forall p :: 0 <= p < |e| ==> g[n + p] == e[p]
  {
    DecomposedConcat(t, s, i, k + 1, end);
  }

  lemma {:induction false} DecomposedPositive(t: Tables, s: seq<Unit>, i: nat, j: nat, p: nat)
    requires i <= j <= |s| && t.Valid() && NameOk(s) && p < |Decomposed(t, s, i, j)|
    ensures 0 < Decomposed(t, s, i, j)[p] && t.Ccc(Decomposed(t, s, i, j)[p]) < 255
    decreases j
  {
    if p < |Decomposed(t, s, i, j - 1)| { DecomposedPositive(t, s, i, j - 1, p); }
  }
}
