/** The cursor that normalizes a name on the fly, and its users (unicode.c, key.c). */
module Unicursor {
  import opened Unicode
  import opened Normalize

  class Cursor {
    const t: Tables
    const s: seq<Unit>
    var curr: nat
    var length: int
    var lastPos: int
    var lastCcc: nat

    /** apfs_init_unicursor() */
    constructor (t: Tables, s: seq<Unit>)
      requires t.Valid() && NameOk(s)
      ensures Valid() && this.t == t && this.s == s && Rest() == All(t, s, 0)
    {
      this.t, this.s := t, s;
      curr, length, lastPos, lastCcc := 0, -1, -1, 0;
    }

    /** The current substring, once its length is known and can be found. */
    ghost predicate InSubstring()
      reads this
    {
      && curr < |s| && s[curr].Char? && s[curr].c >= 128
      && Scan(t, s, curr, false).At? && Scan(t, s, curr, false).pos == 0
      && length == |Decomposed(t, s, curr, Scan(t, s, curr, false).end)|
    }

    ghost predicate Valid()
      reads this
    {
      && t.Valid() && NameOk(s) && curr <= |s|
      && (length < 0 ==> lastPos == -1 && lastCcc == 0)
      && (length >= 0 ==> InSubstring())
    }

    ghost function Substr(): seq<nat>
      requires InSubstring()
      reads this
    {
      Decomposed(t, s, curr, Scan(t, s, curr, false).end)
    }

    /** What is left to give out. */
    ghost function Rest(): Output
      requires Valid()
      reads this
    {
      if length < 0 then All(t, s, curr)
      else All(t, s, Scan(t, s, curr, false).end).After(Emitted(t, Substr(), lastCcc, lastPos))
    }

    /** apfs_get_normalization_length() */
    method GetNormalizationLength(start: nat) returns (n: nat)
      requires t.Valid() && NameOk(s) && start <= |s|
      ensures n == ScanLength(t, s, start)
    {
      hide Tables.Expand;
      n := 0;
      var i, over := start, false;
      while true
        invariant start <= i <= |s| && n == |Decomposed(t, s, start, i)|
        invariant Scan(t, s, i, over) == Scan(t, s, start, false)
        decreases |s| - i
      {
        if i == |s| {
          return;
        }
        if s[i].Bad? {
          return 0;
        }
        ghost var e := t.Expand(s[i].c);
        var pos := 0;
        ghost var was := over;
        while true
          invariant pos <= |e| && n == |Decomposed(t, s, start, i)| + pos
          invariant CharScan(t, e, pos, over) == CharScan(t, e, 0, was)
          decreases |e| - pos
        {
          var x := t.NormalizeChar(s[i].c, pos);
          if x == NORM_END {
            break;
          }
          if t.Ccc(x) != 0 {
            over := true;
          } else if over {
            return;
          }
          pos := pos + 1;
          n := n + 1;
        }
        i := i + 1;
      }
    }

    /** The best candidate among the first n characters of the substring. */
    ghost predicate Best(g: seq<nat>, n: nat, c: nat, minCcc: nat, minPos: int)
      reads this
    {
      && n <= |g| && minPos == Next(t, g, lastCcc, lastPos, n)
      && if minPos < 0 then minCcc == 0xFF else minCcc == t.Ccc(g[minPos]) < 0xFF && c == g[minPos]
    }

    /** The inner loop of apfs_normalize_next(), over the decomposition of a character. */
    method SearchChar(cp: nat, n: nat, c0: nat, ccc0: nat, pos0: int, ghost g: seq<nat>)
      returns (c: nat, minCcc: nat, minPos: int, strPos: nat)
      requires t.Valid() && 0 < cp <= UNICODE_MAX && Best(g, n, c0, ccc0, pos0) && n + |t.Expand(cp)| <= |g|
      requires forall p :: 0 <= p < |t.Expand(cp)| ==> g[n + p] == t.Expand(cp)[p]
      ensures strPos == n + |t.Expand(cp)| && Best(g, strPos, c, minCcc, minPos)
    {
      hide Tables.Expand;
      c, minCcc, minPos, strPos := c0, ccc0, pos0, n;
      var pos := 0;
      while true
        invariant pos <= |t.Expand(cp)| && strPos == n + pos && Best(g, strPos, c, minCcc, minPos)
        decreases |t.Expand(cp)| - pos
      {
        var x := t.NormalizeChar(cp, pos);
        if x == NORM_END {
          return;
        }
        var ccc := t.Ccc(x);
        if !(ccc >= minCcc || ccc < lastCcc) && (ccc > lastCcc || strPos > lastPos) {
          c, minCcc, minPos := x, ccc, strPos;
        }
        pos, strPos := pos + 1, strPos + 1;
      }
    }

    /** The search through the substring in apfs_normalize_next(). If the length is never
        met, it goes on past all that can be read of the name. */
    method FindNext() returns (found: bool, c: nat, minCcc: nat, minPos: int, i: nat)
      requires t.Valid() && NameOk(s) && curr < |s| && s[curr].Char?
      requires Scan(t, s, curr, false).At? && length == ScanLength(t, s, curr)
      ensures found <==> Scan(t, s, curr, false).pos == 0
      ensures found ==> i == Scan(t, s, curr, false).end
      ensures found ==> Best(Decomposed(t, s, curr, i), |Decomposed(t, s, curr, i)|, c, minCcc, minPos)
    {
      hide Tables.Expand, Scan, Decomposed, Next;
      var strPos := 0;
      c, minCcc, minPos, i := 0, 0xFF, -1, curr;
      ghost var stop := Scan(t, s, curr, false);
      SubstringIs(t, s, curr);
      ghost var end := if stop.pos == 0 then stop.end else Readable(s, curr);
      ghost var g := Decomposed(t, s, curr, end);
      NoneDecomposed(t, s, curr);
      while i < |s| && s[i].Char?
        invariant curr <= i <= end && strPos == |Decomposed(t, s, curr, i)| && Best(g, strPos, c, minCcc, minPos)
        invariant stop.pos == 0 ==> i < end
      {
        PartOf(t, s, curr, i, end);
        c, minCcc, minPos, strPos := SearchChar(s[i].c, strPos, c, minCcc, minPos, g);
        i := i + 1;
        LengthMet(t, s, curr, i);
        if strPos == length {
          return true, c, minCcc, minPos, i;
        }
      }
      found := false;
    }

    /** The rest of apfs_normalize_next(): a character of the substring, or else on to the
        next one; or a search with no end. */
    method FromSubstring() returns (ends: bool, more: bool, c: nat)
      requires t.Valid() && NameOk(s) && curr < |s| && s[curr].Char? && s[curr].c >= 128
      requires Scan(t, s, curr, false).At? && length == ScanLength(t, s, curr)
      modifies this
      ensures ends <==> old(InSubstring())
      ensures ends ==> Valid()
      ensures ends && more ==>
        && old(Rest()).chars != [] && c == old(Rest()).chars[0] > 0
        && Rest() == old(Rest()).Tail()
      ensures ends && !more ==> Rest() == old(Rest()) && curr > old(curr)
    {
      hide Tables.Expand, Scan, Decomposed, Next, Emitted, All, Tables.Valid;
      SubstringIs(t, s, curr) by { ExpandSome(t, s, curr); }
      var ccc, pos, i;
      ends, c, ccc, pos, i := FindNext();
      more := ccc != 0xFF;
      if ends {
        EmittedStep(t, Substr(), lastCcc, lastPos);
        if more {
          DecomposedPositive(t, s, curr, i, pos);
          lastCcc, lastPos := ccc, pos;
        } else {
          curr, length, lastPos, lastCcc := i, -1, -1, 0;
        }
      }
    }

    /** apfs_normalize_next(): the next character of the normalized name, or zero at the end
        of what is valid. */
    method NormalizeNext() returns (ends: bool, c: nat)
      requires Valid()
      modifies this
      ensures ends <==> old(Rest()) != STUCK
      ensures ends ==> c == if old(Rest()).chars == [] then 0 else old(Rest()).chars[0]
      ensures old(Rest()).chars != [] ==>
        c > 0 && Valid() && Rest() == old(Rest()).Tail()
    {
      hide Tables.Expand, Scan, Decomposed, Next, Emitted, All;
      ends := true;
      while true
        invariant Valid() && Rest() == old(Rest()) && ends
        decreases |s| - curr
      {
        AllStep(t, s, curr);
        if curr == |s| || (s[curr].Char? && s[curr].c < 128) {
          if curr == |s| {
            return true, 0;
          }
          curr := curr + 1;
          return true, t.Lower(s[curr - 1].c);
        }
        if length < 0 {
          length := GetNormalizationLength(curr);
          if length == 0 {
            return true, 0;
          }
        }
        var more;
        ends, more, c := FromSubstring();
        if !ends || more {
          return;
        }
      }
    }
  }

  /** The length of the substring that starts somewhere, or zero if it is not valid. */
  function ScanLength(t: Tables, s: seq<Unit>, i: nat): nat
    requires i <= |s|
  {
    match Scan(t, s, i, false)
    case Invalid => 0
    case At(end, pos) => |Decomposed(t, s, i, end)| + pos
  }

  lemma ExpandSome(t: Tables, s: seq<Unit>, i: nat)
    requires t.Valid() && NameOk(s) && i < |s| && s[i].Char?
    ensures t.Expand(s[i].c) != []
  {
  }

  /** How far a name can be read: until its end, or something that is not valid. */
  function Readable(s: seq<Unit>, i: nat): (end: nat)
    requires i <= |s|
    ensures i <= end <= |s| && (forall k :: i <= k < end ==> s[k].Char?) && (end < |s| ==> s[end].Bad?)
    decreases |s| - i
  {
    if i == |s| || s[i].Bad? then i else Readable(s, i + 1)
  }

  lemma {:induction false} DecomposedGrows(t: Tables, s: seq<Unit>, i: nat, j: nat, k: nat)
    requires i <= j <= k <= |s| && t.Valid() && NameOk(s) && forall l :: j <= l < k ==> s[l].Char?
    ensures |Decomposed(t, s, i, j)| + (k - j) <= |Decomposed(t, s, i, k)|
  {
    hide Tables.Expand;
    if j < k {
      DecomposedGrows(t, s, i, j, k - 1);
      assert t.Expand(s[k - 1].c) != [];
    }
  }

  /** The length of a substring is met at its end, if that is where a character starts;
      otherwise it is not met at all. */
  lemma LengthMet(t: Tables, s: seq<Unit>, i: nat, k: nat)
    requires t.Valid() && NameOk(s) && i < |s| && i < k <= Readable(s, i) && Scan(t, s, i, false).At?
    ensures var stop := Scan(t, s, i, false);
      |Decomposed(t, s, i, k)| == ScanLength(t, s, i) <==> stop.pos == 0 && k == stop.end
  {
    hide Scan, Tables.Expand, Decomposed;
    SubstringIs(t, s, i);
    var stop := Scan(t, s, i, false);
    if k <= stop.end {
      DecomposedGrows(t, s, i, k, stop.end);
    } else {
      DecomposedGrows(t, s, i, stop.end + 1, k);
      PartOf(t, s, i, stop.end, stop.end + 1);
    }
  }

  // A search without end

  /** The position in the substring after some rounds of the outer loop of
      apfs_normalize_next(). Whatever it reads after the end of what is valid is unknown. */
  function Walked(t: Tables, s: seq<Unit>, i: nat, beyond: nat -> seq<nat>, n: nat): nat
    requires i <= |s|
  {
    if n == 0 then 0
    else
      var k := i + n - 1;
      Walked(t, s, i, beyond, n - 1) + if k < Readable(s, i) then |t.Expand(s[k].c)| else |beyond(k)|
  }

  lemma {:induction false} WalkedIs(t: Tables, s: seq<Unit>, i: nat, beyond: nat -> seq<nat>, n: nat)
    requires i <= |s|
    ensures i + n <= Readable(s, i) ==> Walked(t, s, i, beyond, n) == |Decomposed(t, s, i, i + n)|
    ensures i + n >= Readable(s, i) ==> Walked(t, s, i, beyond, n) >= |Decomposed(t, s, i, Readable(s, i))|
  {
    hide Tables.Expand, Readable;
    if n > 0 {
      WalkedIs(t, s, i, beyond, n - 1);
      hide Decomposed;
      if i + n <= Readable(s, i) { DecomposedNext(t, s, i, i + n - 1); }
    } else {
      NoneDecomposed(t, s, i);
    }
  }

  /** The search for the end of a substring stops if and only if the substring doesn't end in
      the middle of a character. */
  lemma SearchEnds(t: Tables, s: seq<Unit>, i: nat, beyond: nat -> seq<nat>)
    requires t.Valid() && NameOk(s) && i < |s| && s[i].Char? && Scan(t, s, i, false).At?
    ensures (exists n: nat :: n > 0 && Walked(t, s, i, beyond, n) == ScanLength(t, s, i))
      <==> Scan(t, s, i, false).pos == 0
  {
    hide Scan, Tables.Expand, Decomposed, Walked;
    SubstringIs(t, s, i);
    var stop, end := Scan(t, s, i, false), Readable(s, i);
    if stop.pos == 0 {
      WalkedIs(t, s, i, beyond, stop.end - i);
    } else {
      forall n: nat | n > 0
        ensures Walked(t, s, i, beyond, n) != ScanLength(t, s, i)
      {
        WalkedIs(t, s, i, beyond, n);
        if i + n <= end {
          LengthMet(t, s, i, i + n);
        } else {
          DecomposedGrows(t, s, i, stop.end + 1, end);
          PartOf(t, s, i, stop.end, stop.end + 1);
        }
      }
    }
  }

  /** What the rest of a name starts with. */
  lemma AllStep(t: Tables, s: seq<Unit>, i: nat)
    requires i <= |s| && t.Valid() && NameOk(s)
    ensures i == |s| || s[i].Bad? ==> All(t, s, i) == Output([], true)
    ensures i < |s| && s[i].Char? && s[i].c < 128 ==> All(t, s, i) == All(t, s, i + 1).After([t.Lower(s[i].c)])
    ensures i < |s| && s[i].Bad? ==> Scan(t, s, i, false).Invalid?
    ensures i < |s| && s[i].Char? && s[i].c >= 128 ==>
      var stop := Scan(t, s, i, false);
      && (stop.At? ==> ScanLength(t, s, i) > 0)
      && All(t, s, i) == if stop.Invalid? then Output([], true) else if stop.pos > 0 then STUCK
                         else All(t, s, stop.end).After(Emitted(t, Decomposed(t, s, i, stop.end), 0, -1))
  {
    hide Emitted, Tables.Expand;
    if i < |s| && s[i].Char? {
      SubstringIs(t, s, i);
      if Scan(t, s, i, false).At? && Scan(t, s, i, false).pos == 0 { PartOf(t, s, i, i, Scan(t, s, i, false).end); }
    }
  }

  // Comparing and hashing names

  /** The result of a comparison, if there is one. */
  datatype Answer = Never | Is(order: int)

  /** Which of two strings comes first, character by character; the end is below all. */
  function Compare(a: Output, b: Output): Answer
    decreases |a.chars|
  {
    if a == STUCK || b == STUCK then Never
    else if a.chars == [] then Is(if b.chars == [] then 0 else -1)
    else if b.chars == [] then Is(1)
    else if a.chars[0] != b.chars[0] then Is(if a.chars[0] < b.chars[0] then -1 else 1)
    else Compare(a.Tail(), b.Tail())
  }

  lemma {:induction false} CompareEqual(a: Output, b: Output)
    ensures Compare(a, b) == Is(0) <==> a == b && a.ends
    decreases |a.chars|
  {
    if a.chars != [] && b.chars != [] && a.chars[0] == b.chars[0] {
      CompareEqual(a.Tail(), b.Tail());
      assert a.chars == [a.chars[0]] + a.Tail().chars && b.chars == [b.chars[0]] + b.Tail().chars;
    }
  }

  /** One string comes before another: it is shorter, or has the lower character where they
      differ first. */
  ghost predicate Before(x: seq<nat>, y: seq<nat>) {
    exists k :: 0 <= k <= |x| && k <= |y| && x[..k] == y[..k] && BeforeAt(x, y, k)
  }

  predicate BeforeAt(x: seq<nat>, y: seq<nat>, k: nat)
    requires k <= |x| && k <= |y|
  {
    k < |y| && (k == |x| || x[k] < y[k])
  }

  lemma BeforeTail(x: seq<nat>, y: seq<nat>)
    requires x != [] && y != [] && x[0] == y[0]
    ensures Before(x, y) <==> Before(x[1..], y[1..])
  {
    if Before(x, y) {
      var k :| 0 <= k <= |x| && k <= |y| && x[..k] == y[..k] && BeforeAt(x, y, k);
      assert x[1..][..k - 1] == x[..k][1..] && y[1..][..k - 1] == y[..k][1..];
      assert BeforeAt(x[1..], y[1..], k - 1);
    }
    if Before(x[1..], y[1..]) {
      var k :| 0 <= k <= |x[1..]| && k <= |y[1..]| && x[1..][..k] == y[1..][..k] && BeforeAt(x[1..], y[1..], k);
      assert x[..k + 1] == [x[0]] + x[1..][..k] && y[..k + 1] == [y[0]] + y[1..][..k];
      assert BeforeAt(x, y, k + 1);
    }
  }

  /** The sign of the answer is the order of the strings. */
  lemma {:induction false} CompareSign(a: Output, b: Output)
    requires a.ends && b.ends
    ensures Compare(a, b) == Is(-1) <==> Before(a.chars, b.chars)
    ensures Compare(a, b) == Is(1) <==> Before(b.chars, a.chars)
    ensures Compare(a, b) == Is(0) <==> a.chars == b.chars
    decreases |a.chars|
  {
    hide Before;
    CompareEqual(a, b);
    if a.chars != [] && b.chars != [] && a.chars[0] == b.chars[0] {
      BeforeTail(a.chars, b.chars);
      BeforeTail(b.chars, a.chars);
      CompareSign(a.Tail(), b.Tail());
    } else {
      FirstDiffers(a.chars, b.chars);
      FirstDiffers(b.chars, a.chars);
    }
  }

  lemma FirstDiffers(x: seq<nat>, y: seq<nat>)
    requires x == [] || y == [] || x[0] != y[0]
    ensures Before(x, y) <==> y != [] && (x == [] || x[0] < y[0])
  {
    if y != [] && (x == [] || x[0] < y[0]) { assert x[..0] == y[..0] && BeforeAt(x, y, 0); }
    if Before(x, y) {
      var k :| 0 <= k <= |x| && k <= |y| && x[..k] == y[..k] && BeforeAt(x, y, k);
      assert k == 0;
    }
  }

  /** The output is all of a string, or it gets stuck after some part of it. */
  ghost predicate Gives(a: Output, full: seq<nat>) {
    a.chars <= full && (a.ends ==> a.chars == full)
  }

  /** An answer is always right, and there is one for equal strings exactly when neither
      gets stuck. */
  lemma {:induction false} CompareFull(a: Output, x: seq<nat>, b: Output, y: seq<nat>)
    requires Gives(a, x) && Gives(b, y)
    ensures Compare(a, b).Is? ==> (Compare(a, b) == Is(0) <==> x == y)
    ensures a.ends && b.ends ==> Compare(a, b).Is?
    ensures x == y && Compare(a, b).Is? ==> a.ends && b.ends
    decreases |a.chars|
  {
    if a.chars != [] && b.chars != [] && a.chars[0] == b.chars[0] {
      CompareFull(a.Tail(), x[1..], b.Tail(), y[1..]);
      assert x == [x[0]] + x[1..] && y == [y[0]] + y[1..];
    }
  }

  /** apfs_filename_cmp(), for names that are compared by their normalized forms. */
  method FilenameCmp(t: Tables, name1: seq<Unit>, name2: seq<Unit>) returns (ends: bool, r: int)
    requires t.Valid() && NameOk(name1) && NameOk(name2)
    ensures Compare(All(t, name1, 0), All(t, name2, 0)) == if ends then Is(r) else Never
    ensures ends && r == 0 <==> All(t, name1, 0) == All(t, name2, 0) && All(t, name1, 0).ends
  {
    hide All, Emitted;
    CompareEqual(All(t, name1, 0), All(t, name2, 0));
    var cursor1 := new Cursor(t, name1);
    var cursor2 := new Cursor(t, name2);
    while true
      invariant cursor1 != cursor2 && fresh(cursor1) && fresh(cursor2) && cursor1.Valid() && cursor2.Valid()
      invariant Compare(All(t, name1, 0), All(t, name2, 0)) == Compare(cursor1.Rest(), cursor2.Rest())
      decreases |cursor1.Rest().chars|
    {
      ghost var a, b := cursor1.Rest(), cursor2.Rest();
      var uni1, uni2;
      ends, uni1 := cursor1.NormalizeNext();
      if !ends {
        return false, 0;
      }
      ends, uni2 := cursor2.NormalizeNext();
      if !ends {
        return false, 0;
      }
      if uni1 != uni2 {
        return true, if uni1 < uni2 then -1 else 1;
      }
      if uni1 == 0 {
        return true, 0;
      }
    }
  }

  function FoldCrc(crc: (nat, nat) -> nat, hash: nat, s: seq<nat>): nat
    decreases |s|
  {
    if s == [] then hash else FoldCrc(crc, crc(hash, s[0]), s[1..])
  }

  /** APFS_DREC_HASH_SHIFT, as a factor. */
  const DREC_HASH_FACTOR := 1024

  function NameHash(crc: (nat, nat) -> nat, s: seq<nat>): nat {
    FoldCrc(crc, 0xFFFF_FFFF, s) * DREC_HASH_FACTOR % 0x1_0000_0000
  }

  /** The checksum starts with all bits set, and takes in one character after the other. */
  predicate IsTrail(crc: (nat, nat) -> nat, s: seq<nat>, trail: seq<nat>) {
    && 1 <= |trail| <= |s| + 1 && trail[0] == 0xFFFF_FFFF
    && forall k :: 0 <= k < |trail| - 1 ==> trail[k + 1] == crc(trail[k], s[k])
  }

  lemma TrailStart(crc: (nat, nat) -> nat, s: seq<nat>)
    ensures IsTrail(crc, s, [0xFFFF_FFFF])
  {
  }

  lemma TrailMore(crc: (nat, nat) -> nat, s: seq<nat>, trail: seq<nat>)
    requires IsTrail(crc, s, trail) && |trail| <= |s|
    ensures IsTrail(crc, s, trail + [crc(trail[|trail| - 1], s[|trail| - 1])])
  {
  }

  /** In the end, the number has its low 22 bits, above ten bits that stay clear. */
  predicate IsHash(crc: (nat, nat) -> nat, s: seq<nat>, trail: seq<nat>, number: nat) {
    IsTrail(crc, s, trail) && |trail| == |s| + 1 && number == trail[|s|] % 0x40_0000 * 1024
  }

  lemma {:induction false} HashIs(crc: (nat, nat) -> nat, s: seq<nat>, trail: seq<nat>, number: nat)
    requires IsHash(crc, s, trail, number)
    ensures NameHash(crc, s) == number
  {
    Folded(crc, s, trail, 0);
    ShiftedHash(trail[|s|]);
    assert s[0..] == s;
  }

  lemma {:induction false} Folded(crc: (nat, nat) -> nat, s: seq<nat>, trail: seq<nat>, k: nat)
    requires |trail| == |s| + 1 && k <= |s| && forall i :: 0 <= i < |s| ==> trail[i + 1] == crc(trail[i], s[i])
    ensures FoldCrc(crc, trail[k], s[k..]) == trail[|s|]
    decreases |s| - k
  {
    if k < |s| {
      Folded(crc, s, trail, k + 1);
      assert s[k..][1..] == s[k + 1..];
    }
  }

  lemma ShiftedHash(x: nat)
    ensures x * 1024 % 0x1_0000_0000 == x % 0x40_0000 * 1024
  {
    var q, r := x / 0x40_0000, x % 0x40_0000;
    assert x * 1024 == q * 0x1_0000_0000 + r * 1024;
  }

  /** The hash of a name in apfs_init_drec_key(), for some checksum of a word at a time. */
  method DrecHash(t: Tables, name: seq<Unit>, crc: (nat, nat) -> nat)
    returns (ends: bool, number: nat, ghost trail: seq<nat>)
    requires t.Valid() && NameOk(name)
    ensures ends <==> All(t, name, 0).ends
    ensures ends ==> number == NameHash(crc, All(t, name, 0).chars)
    ensures ends ==> IsHash(crc, All(t, name, 0).chars, trail, number)
  {
    hide All, Emitted, NameHash, IsTrail;
    var cursor := new Cursor(t, name);
    var hash := 0xFFFF_FFFF;
    trail := [hash];
    TrailStart(crc, All(t, name, 0).chars);
    ghost var chars := All(t, name, 0).chars;
    while true
      invariant fresh(cursor) && cursor.Valid() && 0 <= hash && cursor.Rest().ends == All(t, name, 0).ends
      invariant 1 <= |trail| <= |chars| + 1 && cursor.Rest().chars == chars[|trail| - 1..]
      invariant IsTrail(crc, chars, trail) && trail[|trail| - 1] == hash
      decreases |cursor.Rest().chars|
    {
      var c;
      ends, c := cursor.NormalizeNext();
      if !ends {
        return false, 0, trail;
      }
      if c == 0 {
        break;
      }
      TrailMore(crc, chars, trail);
      hash := crc(hash, c);
      trail := trail + [hash];
    }
    number := hash * DREC_HASH_FACTOR % 0x1_0000_0000;
    ShiftedHash(hash);
    HashIs(crc, chars, trail, number);
  }

  /** Names that compare equal get the same hash. For valid names, an answer of equality is
      right: it means the same canonical decomposition. For names that do have the same one,
      there is an answer, and there are hashes, exactly when all of their characters are
      shaped. */
  lemma EqualNames(t: Tables, name1: seq<Unit>, name2: seq<Unit>, crc: (nat, nat) -> nat)
    requires t.Valid() && NameOk(name1) && NameOk(name2)
    ensures var a, b := All(t, name1, 0), All(t, name2, 0);
      Compare(a, b) == Is(0) ==> a.ends && b.ends && NameHash(crc, a.chars) == NameHash(crc, b.chars)
    ensures ValidUtf8(name1) && ValidUtf8(name2) ==>
      var answer := Compare(All(t, name1, 0), All(t, name2, 0));
      var x, y := Ordered(t, Decomposed(t, name1, 0, |name1|)), Ordered(t, Decomposed(t, name2, 0, |name2|));
      var shaped := ShapedName(t, name1, 0, |name1|) && ShapedName(t, name2, 0, |name2|);
      && (answer.Is? ==> (answer == Is(0) <==> x == y))
      && (shaped ==> answer.Is?)
      && (x == y ==> (answer.Is? <==> shaped))
  {
    hide All, Ordered, Decomposed, NameHash;
    var a, b := All(t, name1, 0), All(t, name2, 0);
    CompareEqual(a, b);
    if ValidUtf8(name1) && ValidUtf8(name2) {
      AllOrdered(t, name1, 0);
      AllOrdered(t, name2, 0);
      CompareFull(a, Ordered(t, Decomposed(t, name1, 0, |name1|)), b, Ordered(t, Decomposed(t, name2, 0, |name2|)));
    }
  }

  /** Some of the entries of the tables: U+1F80 is an alpha, a psili and an ypogegrammeni,
      and the last of them folds to an iota, which is a starter. */
  function GreekTables(): Tables {
    Tables(c => if c == 0x1F80 then [0x3B1, 0x313, 0x345] else [c],
           c => if c == 0x345 then [0x3B9] else if 'A' as int <= c <= 'Z' as int then [c + 32] else [c],
           x => if x == 0x313 then 230 else if x == 0x345 then 240 else 0,
           true)
  }

  lemma GreekExpand(c: nat)
    ensures GreekTables().Expand(c) ==
      if IsHangul(c) then Jamos(c) else if c == 0x1F80 then [0x3B1, 0x313, 0x3B9] else GreekTables().cf(c)
  {
    var t := GreekTables();
    assert t.FoldAll([]) == [];
    assert [c][1..] == [];
    if c == 0x1F80 {
      var d := [0x3B1, 0x313, 0x345];
      assert d[1..] == [0x313, 0x345] && d[1..][1..] == [0x345] && [0x345][1..] == [];
      assert t.FoldAll([0x345]) == [0x3B9];
      assert t.FoldAll([0x313, 0x345]) == [0x313] + [0x3B9];
    }
  }

  /** With case folding, the search in a name with that character never ends: the name can't
      be compared with itself, and has no hash. */
  lemma GreekName()
    ensures var t, name := GreekTables(), [Char(0x1F80)];
      && t.Valid() && NameOk(name) && !t.Shaped(t.Expand(0x1F80))
      && Scan(t, name, 0, false) == At(0, 2) && All(t, name, 0) == STUCK
      && Compare(All(t, name, 0), All(t, name, 0)) == Never
  {
    var t, name := GreekTables(), [Char(0x1F80)];
    forall c: nat | 0 < c <= UNICODE_MAX
      ensures t.Expand(c) != [] && forall i :: 0 <= i < |t.Expand(c)| ==>
        0 < t.Expand(c)[i] < NORM_END && t.Ccc(t.Expand(c)[i]) < 255
    {
      GreekExpand(c);
      if IsHangul(c) { JamosCompose(c); }
    }
    forall c: nat | 0 < c < 128
      ensures t.Expand(c) == [t.Lower(c)] && t.Ccc(t.Lower(c)) == 0
    {
      GreekExpand(c);
    }
    GreekExpand(0x1F80);
    var e := t.Expand(0x1F80);
    assert t.Ccc(e[1]) > 0 && t.Ccc(e[2]) == 0;
    assert CharScan(t, e, 2, true) == (2, true);
    assert CharScan(t, e, 1, false) == (2, true);
  }
}
