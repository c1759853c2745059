/** Logical extents of a data stream, in blocks, and the plain block list they
    stand for: position n holds the physical block of logical block n, or zero
    for a hole. */
module Extents {
  import opened Records

  datatype Ext = Ext(addr: nat, len: nat, phys: nat) {
    function End(): nat { addr + len }
    predicate IsHole() { phys == 0 }
  }

  function Blocks(e: Ext): (f: seq<nat>)
    ensures |f| == e.len
    ensures forall k :: 0 <= k < e.len ==> f[k] == if e.IsHole() then 0 else e.phys + k
  {
    seq(e.len, k requires 0 <= k < e.len => if e.IsHole() then 0 else e.phys + k)
  }

  function Flat(s: seq<Ext>): seq<nat> {
    if s == [] then [] else Flat(s[..|s| - 1]) + Blocks(s[|s| - 1])
  }

  function Zeros(f: seq<nat>): nat { multiset(f)[0] }

  function Holes(n: nat): (f: seq<nat>)
    ensures |f| == n && forall k :: 0 <= k < n ==> f[k] == 0
  {
    seq(n, _ => 0)
  }

  /** Sorted, without gaps or overlaps, from logical block zero on. */
  ghost predicate Contiguous(s: seq<Ext>) {
    && (forall i :: 0 <= i < |s| ==> s[i].len > 0)
    && (|s| > 0 ==> s[0].addr == 0)
    && (forall i :: 0 < i < |s| ==> s[i].addr == s[i - 1].End())
  }

  lemma {:induction false} FlatConcat(s: seq<Ext>, t: seq<Ext>)
    ensures Flat(s + t) == Flat(s) + Flat(t)
  {
    if t == [] {
      assert s + t == s;
    } else {
      assert (s + t)[..|s + t| - 1] == s + t[..|t| - 1];
      FlatConcat(s, t[..|t| - 1]);
    }
  }

  lemma {:induction false} FlatLength(s: seq<Ext>)
    requires Contiguous(s)
    ensures |Flat(s)| == if s == [] then 0 else s[|s| - 1].End()
  {
    if s != [] { FlatLength(s[..|s| - 1]); }
  }

  /** An extent's blocks sit at its logical address. */
  lemma FlatPiece(s: seq<Ext>, i: nat)
    requires Contiguous(s) && i < |s|
    ensures s[i].End() <= |Flat(s)|
    ensures Flat(s)[s[i].addr..s[i].End()] == Blocks(s[i])
    ensures Flat(s[..i]) == Flat(s)[..s[i].addr] && Flat(s[i + 1..]) == Flat(s)[s[i].End()..]
  {
    assert s == s[..i] + [s[i]] + s[i + 1..];
    FlatConcat(s[..i] + [s[i]], s[i + 1..]);
    FlatConcat(s[..i], [s[i]]);
    FlatLength(s[..i]);
    assert Flat([s[i]]) == Blocks(s[i]) by { assert [s[i]][..0] == []; }
  }

  /** Replacing one record by others replaces its blocks by theirs. */
  lemma FlatSplice(s: seq<Ext>, i: nat, mid: seq<Ext>)
    requires Contiguous(s) && i < |s|
    ensures s[i].End() <= |Flat(s)|
    ensures Flat(s[..i] + mid + s[i + 1..]) == Flat(s)[..s[i].addr] + Flat(mid) + Flat(s)[s[i].End()..]
  {
    FlatPiece(s, i);
    FlatConcat(s[..i] + mid, s[i + 1..]);
    FlatConcat(s[..i], mid);
  }

  lemma FlatOne(e: Ext)
    ensures Flat([e]) == Blocks(e)
  {
    assert [e][..0] == [];
  }

  /** Cutting an extent in two keeps its blocks. */
  lemma BlocksSplit(e: Ext, n: nat)
    requires n <= e.len
    ensures Blocks(e) == Blocks(e.(len := n)) + Blocks(Rest(e, n))
  {}

  /** What is left of an extent without its first blocks. */
  function Rest(e: Ext, n: nat): Ext
    requires n <= e.len
  {
    Ext(e.addr + n, e.len - n, if e.IsHole() then 0 else e.phys + n)
  }

  ghost predicate Chained(mid: seq<Ext>, from: nat, to: nat) {
    && |mid| > 0 && mid[0].addr == from && mid[|mid| - 1].End() == to
    && (forall i :: 0 <= i < |mid| ==> mid[i].len > 0)
    && (forall i :: 0 < i < |mid| ==> mid[i].addr == mid[i - 1].End())
  }

  lemma SpliceContiguous(s: seq<Ext>, i: nat, mid: seq<Ext>)
    requires Contiguous(s) && i < |s| && Chained(mid, s[i].addr, s[i].End())
    ensures Contiguous(s[..i] + mid + s[i + 1..])
  {
    var t := s[..i] + mid + s[i + 1..];
    var n := |mid|;
    forall k | 0 <= k < |t|
      ensures t[k] == if k < i then s[k] else if k < i + n then mid[k - i] else s[k - n + 1]
      ensures t[k].len > 0
    {}
    forall k | 0 < k < |t| ensures t[k].addr == t[k - 1].End() {
      if k < i {
      } else if k < i + n {
        if k > i { assert mid[k - i].addr == mid[k - i - 1].End(); }
      } else {
        if k > i + n { assert s[k - n + 1].addr == s[k - n].End(); }
      }
    }
  }

  function Addrs(s: seq<Ext>): (keys: seq<nat>)
    ensures |keys| == |s| && forall i :: 0 <= i < |s| ==> keys[i] == s[i].addr
  {
    seq(|s|, i requires 0 <= i < |s| => s[i].addr)
  }

  /** Sorted, possibly with gaps. */
  ghost predicate Sorted(s: seq<Ext>) {
    && (forall i :: 0 <= i < |s| ==> s[i].len > 0)
    && (forall i :: 0 < i < |s| ==> s[i - 1].End() <= s[i].addr)
  }

  lemma {:induction false} Ordered(s: seq<Ext>, i: nat, j: nat)
    requires Sorted(s) && i < j < |s|
    ensures s[i].End() <= s[j].addr
    decreases j - i
  {
    if i + 1 < j { Ordered(s, i, j - 1); }
  }

  /** The record that a query for this address finds, if any. */
  function FloorExt(s: seq<Ext>, b: nat): (i: int)
    requires Sorted(s)
    ensures -1 <= i < |s|
    ensures i >= 0 ==> s[i].addr <= b
    ensures i + 1 < |s| ==> b < s[i + 1].addr
  {
    AddrsIncrease(s);
    var i := Floor(Addrs(s), b);
    assert i + 1 < |s| ==> Addrs(s)[i + 1] > b;
    assert i >= 0 ==> Addrs(s)[i] <= b;
    i
  }

  lemma AddrsIncrease(s: seq<Ext>)
    requires Sorted(s)
    ensures Increasing(Addrs(s))
  {
    forall i, j | 0 <= i < j < |s| ensures s[i].addr < s[j].addr { Ordered(s, i, j); }
  }

  /** In a list without gaps, that record covers the block. */
  lemma FloorCovers(s: seq<Ext>, b: nat)
    requires Contiguous(s) && b < |Flat(s)|
    ensures var i := FloorExt(s, b);
      i >= 0 && s[i].addr <= b < s[i].End() && s[i].End() <= |Flat(s)| && Flat(s)[b] == Blocks(s[i])[b - s[i].addr]
  {
    hide Flat;
    FlatLength(s);
    var i := FloorExt(s, b);
    CoverAt(s, b, i);
    FlatPiece(s, i);
    hide Contiguous;
    assert Flat(s)[b] == Flat(s)[s[i].addr..s[i].End()][b - s[i].addr];
  }

  lemma CoverAt(s: seq<Ext>, b: nat, i: int)
    requires Contiguous(s) && s != [] && b < s[|s| - 1].End() && -1 <= i < |s|
    requires i >= 0 ==> s[i].addr <= b
    requires i + 1 < |s| ==> s[i + 1].addr > b
    ensures i >= 0 && s[i].addr <= b < s[i].End()
  {
  }

  lemma FloorUnique(s: seq<Ext>, b: nat, i: int)
    requires Sorted(s) && -1 <= i < |s|
    requires i >= 0 ==> s[i].addr <= b
    requires i + 1 < |s| ==> b < s[i + 1].addr
    ensures FloorExt(s, b) == i
  {
    AddrsIncrease(s);
    var k := FloorExt(s, b);
    assert i + 1 < |s| ==> Addrs(s)[i + 1] > b;
  }

  // The last record

  function LastAddr(s: seq<Ext>): nat { if s == [] then 0 else s[|s| - 1].addr }

  lemma FlatLast(s: seq<Ext>)
    requires Contiguous(s) && s != []
    ensures |Flat(s)| == s[|s| - 1].End()
    ensures Flat(s)[s[|s| - 1].addr..] == Blocks(s[|s| - 1])
    ensures Flat(s[..|s| - 1]) == Flat(s)[..s[|s| - 1].addr]
    ensures Contiguous(s[..|s| - 1])
  {
    FlatLength(s);
    FlatPiece(s, |s| - 1);
    assert s[|s| - 1].End() == |Flat(s)|;
  }

  function Opt(e: Ext): seq<Ext> { if e.len > 0 then [e] else [] }

  lemma FlatOpt(e: Ext)
    ensures Flat(Opt(e)) == Blocks(e)
  {
    FlatOne(e);
  }

  /** A new last record, cutting off whatever was there before. */
  function NewTail(s: seq<Ext>, e: Ext): seq<Ext>
    requires LastAddr(s) <= e.addr
  {
    if s == [] then [e]
    else s[..|s| - 1] + Opt(s[|s| - 1].(len := e.addr - s[|s| - 1].addr)) + [e]
  }

  lemma FlatNewTail(s: seq<Ext>, e: Ext)
    requires Contiguous(s) && LastAddr(s) <= e.addr <= |Flat(s)| && e.len > 0
    ensures Flat(NewTail(s, e)) == Flat(s)[..e.addr] + Blocks(e)
  {
    FlatLength(s);
    FlatOne(e);
    if s != [] {
      var n := |s| - 1;
      FlatLast(s);
      var cut := s[n].(len := e.addr - s[n].addr);
      FlatOpt(cut);
      FlatConcat(s[..n] + Opt(cut), [e]);
      FlatConcat(s[..n], Opt(cut));
      CutPrefix(Flat(s), s[n], cut.len);
    }
  }

  lemma NewTailContiguous(s: seq<Ext>, e: Ext)
    requires Contiguous(s) && LastAddr(s) <= e.addr <= |Flat(s)| && e.len > 0
    ensures Contiguous(NewTail(s, e))
  {
    FlatLength(s);
    if s != [] {
      var n, t := |s| - 1, NewTail(s, e);
      assert forall k :: 0 <= k < n ==> t[k] == s[k];
      if e.addr == s[n].addr {
        assert t[n] == e;
      } else {
        assert t[n] == s[n].(len := e.addr - s[n].addr) && t[n + 1] == e;
      }
    }
  }

  lemma CutPrefix(f: seq<nat>, e: Ext, n: nat)
    requires n <= e.len && e.addr <= |f| && f[e.addr..] == Blocks(e)
    ensures f[..e.addr] + Blocks(e.(len := n)) == f[..e.addr + n]
  {
    assert Blocks(e.(len := n)) == Blocks(e)[..n];
    hide Blocks;
    assert f[..e.addr + n] == f[..e.addr] + f[e.addr..][..n];
  }

  // One overwritten block

  /** The old record without one block, and that block in its place. */
  function Pieces(e: Ext, b: Ext): seq<Ext>
    requires e.addr <= b.addr && b.End() <= e.End()
  {
    Opt(e.(len := b.addr - e.addr)) + [b] + Opt(Rest(e, b.End() - e.addr))
  }

  function Overwritten(s: seq<Ext>, i: nat, b: Ext): seq<Ext>
    requires i < |s| && s[i].addr <= b.addr && b.End() <= s[i].End()
  {
    s[..i] + Pieces(s[i], b) + s[i + 1..]
  }

  /** The catalog while one block is being overwritten: on the second run, the
      block was already cut off the head of its record, or is now the end of it. */
  ghost predicate Overwriting(s: seq<Ext>, i: nat, b: Ext, secondRun: bool, t: seq<Ext>)
    requires i < |s|
  {
    var e := s[i];
    && e.addr <= b.addr && b.End() <= e.End() && b.len == 1
    && if !secondRun then t == s
       else if e.addr == b.addr then e.len > 1 && t == s[i := Rest(e, 1)]
       else b.End() < e.End() && t == s[..i] + [e.(len := b.End() - e.addr), Rest(e, b.End() - e.addr)] + s[i + 1..]
  }

  lemma OverwritingSorted(s: seq<Ext>, i: nat, b: Ext, secondRun: bool, t: seq<Ext>)
    requires Contiguous(s) && i < |s| && Overwriting(s, i, b, secondRun, t)
    ensures Sorted(t)
  {
    if secondRun && s[i].addr < b.addr {
      var mid := [s[i].(len := b.End() - s[i].addr), Rest(s[i], b.End() - s[i].addr)];
      SpliceContiguous(s, i, mid);
    }
  }

  lemma OverwritingFloor(s: seq<Ext>, i: nat, b: Ext, secondRun: bool, t: seq<Ext>)
    requires Contiguous(s) && i < |s| && Overwriting(s, i, b, secondRun, t)
    ensures Sorted(t) && FloorExt(t, b.addr) == if secondRun && s[i].addr == b.addr then i - 1 else i
  {
    OverwritingSorted(s, i, b, secondRun, t);
    FloorUnique(t, b.addr, if secondRun && s[i].addr == b.addr then i - 1 else i);
  }

  function Inserted(t: seq<Ext>, p: nat, b: Ext): seq<Ext>
    requires p <= |t|
  {
    t[..p] + [b] + t[p..]
  }

  lemma WholeOverwritten(s: seq<Ext>, i: nat, b: Ext)
    requires i < |s| && s[i].addr == b.addr && s[i].len == b.len
    ensures s[i := b] == Overwritten(s, i, b)
  {
    assert Pieces(s[i], b) == [b];
  }

  lemma HeadOverwritten(s: seq<Ext>, i: nat, b: Ext, t: seq<Ext>)
    requires i < |s| && s[i].addr == b.addr && Overwriting(s, i, b, true, t)
    ensures Inserted(t, i, b) == Overwritten(s, i, b)
  {
    assert Pieces(s[i], b) == [b, Rest(s[i], 1)];
    assert t == s[..i] + [Rest(s[i], 1)] + s[i + 1..];
  }

  lemma TailOverwritten(s: seq<Ext>, i: nat, b: Ext)
    requires i < |s| && s[i].addr < b.addr && b.End() == s[i].End() && b.len == 1
    ensures Inserted(s[i := s[i].(len := b.addr - s[i].addr)], i + 1, b) == Overwritten(s, i, b)
  {
    assert Pieces(s[i], b) == [s[i].(len := b.addr - s[i].addr), b];
  }

  lemma MiddleOverwritten(s: seq<Ext>, i: nat, b: Ext, t: seq<Ext>)
    requires i < |s| && s[i].addr < b.addr && Overwriting(s, i, b, true, t)
    ensures Inserted(t[i := t[i].(len := b.addr - s[i].addr)], i + 1, b) == Overwritten(s, i, b)
  {
    var e := s[i];
    assert t[i] == e.(len := b.End() - e.addr);
    assert Pieces(e, b) == [e.(len := b.addr - e.addr), b, Rest(e, b.End() - e.addr)];
    assert t[i + 1..] == [Rest(e, b.End() - e.addr)] + s[i + 1..];
  }

  lemma FlatPieces(e: Ext, b: Ext)
    requires e.addr <= b.addr && b.End() <= e.End()
    ensures Flat(Pieces(e, b)) == Blocks(e.(len := b.addr - e.addr)) + Blocks(b) + Blocks(Rest(e, b.End() - e.addr))
  {
    var head, rest := e.(len := b.addr - e.addr), Rest(e, b.End() - e.addr);
    FlatOpt(head);
    FlatOpt(rest);
    FlatOne(b);
    FlatConcat(Opt(head) + [b], Opt(rest));
    FlatConcat(Opt(head), [b]);
  }

  lemma PiecesChained(e: Ext, b: Ext)
    requires e.addr <= b.addr && b.End() <= e.End() && b.len > 0
    ensures Chained(Pieces(e, b), e.addr, e.End())
  {}

  lemma FlatOverwritten(s: seq<Ext>, i: nat, b: Ext)
    requires Contiguous(s) && i < |s| && s[i].addr <= b.addr && b.End() <= s[i].End() && b.len == 1 && !b.IsHole()
    ensures Contiguous(Overwritten(s, i, b)) && b.addr < |Flat(s)|
    ensures Flat(Overwritten(s, i, b)) == Flat(s)[b.addr := b.phys]
  {
    FlatPieces(s[i], b);
    PiecesChained(s[i], b);
    SpliceContiguous(s, i, Pieces(s[i], b));
    FlatSplice(s, i, Pieces(s[i], b));
    FlatPiece(s, i);
    PutOne(Flat(s), s[i], b);
  }

  lemma PutOne(f: seq<nat>, e: Ext, b: Ext)
    requires e.addr <= b.addr && b.End() <= e.End() <= |f| && b.len == 1 && !b.IsHole()
    requires f[e.addr..e.End()] == Blocks(e)
    ensures f[..e.addr] + (Blocks(e.(len := b.addr - e.addr)) + Blocks(b) + Blocks(Rest(e, b.End() - e.addr)))
        + f[e.End()..]
            == f[b.addr := b.phys]
  {
    forall k | e.addr <= k < e.End()
      ensures f[k] == Blocks(e)[k - e.addr]
    {
      assert f[k] == f[e.addr..e.End()][k - e.addr];
    }
  }

  /** A block list is used to count references: a data extent has each of its
      blocks once, a hole none. */
  lemma {:induction false} BlocksCount(e: Ext, p: nat)
    requires p > 0
    ensures multiset(Blocks(e))[p] == if !e.IsHole() && e.phys <= p < e.phys + e.len then 1 else 0
    ensures Zeros(Blocks(e)) == if e.IsHole() then e.len else 0
    decreases e.len
  {
    if e.len == 0 {
      assert Blocks(e) == [];
    } else {
      var init := e.(len := e.len - 1);
      BlocksCount(init, p);
      assert Blocks(e) == Blocks(init) + [Blocks(e)[e.len - 1]];
    }
  }

  lemma {:induction false} HolesCount(n: nat, p: nat)
    ensures multiset(Holes(n))[p] == if p == 0 then n else 0
    decreases n
  {
    if n == 0 {
      assert Holes(n) == [];
    } else {
      HolesCount(n - 1, p);
      assert Holes(n) == Holes(n - 1) + [0];
    }
  }
}
