/** Reference counting for physical extents (extents.c). The records of the
    current extent reference tree cover disjoint block ranges; a record of kind
    New owns its blocks, a record of kind Update carries a signed correction to
    counts held by the trees of earlier snapshots. Counts are 32 bits wide and
    wrap, so the correction -1 is stored as 0xffffffff. */
module PhysExtents {
  import opened Records

  const REFCNT_MOD: nat := 0x1_0000_0000

  datatype Kind = New | Update

  datatype PhysExt = PhysExt(bno: nat, blkcnt: nat, kind: Kind, refcnt: nat) {
    function End(): nat { bno + blkcnt }
    predicate Covers(b: nat) { bno <= b < bno + blkcnt }
    predicate Valid() { blkcnt > 0 && 0 < refcnt < REFCNT_MOD }
  }

  /** What the tree says about one single block. */
  datatype Ref = Absent | Present(kind: Kind, refcnt: nat) {
    function Count(): nat { if Absent? then 0 else refcnt }
  }

  datatype Status = Ok | Corrupted

  ghost predicate Sorted(s: seq<PhysExt>) {
    && (forall i :: 0 <= i < |s| ==> s[i].Valid())
    && (forall i, j :: 0 <= i < j < |s| ==> s[i].End() <= s[j].bno)
  }

  function Starts(s: seq<PhysExt>): (keys: seq<nat>)
    ensures |keys| == |s| && forall i :: 0 <= i < |s| ==> keys[i] == s[i].bno
  {
    seq(|s|, i requires 0 <= i < |s| => s[i].bno)
  }

  /** The record a query for this block finds, if any. */
  function FloorRec(s: seq<PhysExt>, b: nat): (i: int)
    requires Sorted(s)
    ensures -1 <= i < |s|
    ensures i >= 0 ==> s[i].bno <= b
    ensures i + 1 < |s| ==> b < s[i + 1].bno
  {
    Floor(Starts(s), b)
  }

  /** The per-block meaning of a list of records. */
  function At(s: seq<PhysExt>, b: nat): Ref {
    if s == [] then Absent
    else if s[0].Covers(b) then Present(s[0].kind, s[0].refcnt)
    else At(s[1..], b)
  }

  function Wrap(refcnt: nat, diff: int): nat
    requires diff == 1 || diff == -1
  {
    (refcnt + diff) % REFCNT_MOD
  }

  /** The reference step for one block: a count that reaches zero disappears, and
      a block that has no record gets an update record. */
  function Adjust(r: Ref, diff: int): (r': Ref)
    requires diff == 1 || diff == -1
  {
    match r
    case Absent => Present(Update, Wrap(0, diff))
    case Present(k, c) => if Wrap(c, diff) == 0 then Absent else Present(k, Wrap(c, diff))
  }

  /** Does dropping a reference hand this block to the free queue? */
  predicate LastOwner(r: Ref) { r == Present(New, 1) }

  /** How many of the ranges sent to the free queue hold the block. */
  function TimesFreed(log: seq<(nat, nat)>, b: nat): nat {
    if log == [] then 0
    else (if log[0].0 <= b < log[0].0 + log[0].1 then 1 else 0) + TimesFreed(log[1..], b)
  }

  /** A tree, and all that was handed to the free queue. */
  datatype Refs = Refs(recs: seq<PhysExt>, freed: seq<(nat, nat)>)

  /** The same put, any number of times. */
  function Puts(r: Ref, m: nat): Ref { if m == 0 then r else Adjust(Puts(r, m - 1), -1) }

  /** The live tree owns the block. */
  predicate Owned(r: Ref) { r.Present? && r.kind == New }

  /** It frees the block once, if the live tree owns it and there is a put for each of its
      references. */
  function PutsFree(r: Ref, m: nat): nat { if Owned(r) && 0 < r.refcnt <= m then 1 else 0 }

  lemma {:induction false} PutsAre(r: Ref, m: nat)
    requires r.Count() < REFCNT_MOD && (r.Present? ==> r.refcnt > 0)
    ensures Puts(r, m).Count() == (r.Count() - m) % REFCNT_MOD
    ensures Puts(r, m).Present? ==> 0 < Puts(r, m).refcnt < REFCNT_MOD
    ensures if Owned(r) && m < r.refcnt then Puts(r, m) == Present(New, r.refcnt - m) else !Owned(Puts(r, m))
  {
    if m > 0 {
      PutsAre(r, m - 1);
      AdjustCount(Puts(r, m - 1), -1);
      ModStep(r.Count() - (m - 1), -1);
    }
  }

  lemma {:induction false} PutsMore(r: Ref, m: nat, n: nat)
    ensures Puts(Puts(r, m), n) == Puts(r, m + n)
  {
    if n > 0 { PutsMore(r, m, n - 1); }
  }

  /** Nothing is freed twice, and nothing too early. */
  lemma PutsFreeMore(r: Ref, m: nat, n: nat)
    requires r.Count() < REFCNT_MOD && (r.Present? ==> r.refcnt > 0)
    ensures PutsFree(r, m + n) == PutsFree(r, m) + PutsFree(Puts(r, m), n)
    ensures PutsFree(r, 0) == 0 && (PutsFree(r, 1) == 1 <==> LastOwner(r)) && Puts(r, 1) == Adjust(r, -1)
  {
    PutsAre(r, m);
  }

  // Per-block reasoning about spliced lists

  function Or(x: Ref, y: Ref): Ref { if x.Present? then x else y }

  lemma {:induction false} AtConcat(s: seq<PhysExt>, t: seq<PhysExt>, b: nat)
    ensures At(s + t, b) == Or(At(s, b), At(t, b))
  {
    if s == [] {
      assert s + t == t;
    } else {
      assert (s + t)[1..] == s[1..] + t;
      AtConcat(s[1..], t, b);
    }
  }

  lemma AtSplice(s: seq<PhysExt>, i: nat, j: nat, mid: seq<PhysExt>, b: nat)
    requires i <= j <= |s|
    ensures At(s[..i] + mid + s[j..], b) == Or(At(s[..i], b), Or(At(mid, b), At(s[j..], b)))
    ensures At(s, b) == Or(At(s[..i], b), Or(At(s[i..j], b), At(s[j..], b)))
  {
    AtConcat(s[..i] + mid, s[j..], b);
    AtConcat(s[..i], mid, b);
    assert s == s[..i] + s[i..j] + s[j..];
    AtConcat(s[..i] + s[i..j], s[j..], b);
    AtConcat(s[..i], s[i..j], b);
  }

  lemma {:induction false} AtOutside(s: seq<PhysExt>, b: nat)
    requires forall i :: 0 <= i < |s| ==> !s[i].Covers(b)
    ensures At(s, b) == Absent
  {
    if s != [] { AtOutside(s[1..], b); }
  }

  /** A block is listed exactly when some record covers it, and in a sorted list
      that record is the only one. */
  lemma AtRecord(s: seq<PhysExt>, i: nat, b: nat)
    requires Sorted(s) && i < |s| && s[i].Covers(b)
    ensures At(s, b) == Present(s[i].kind, s[i].refcnt)
    ensures At(s[..i], b) == Absent && At(s[i + 1..], b) == Absent
  {
    AtSplice(s, i, i + 1, [], b);
    AtOutside(s[..i], b);
    AtOutside(s[i + 1..], b);
    assert s[i..i + 1] == [s[i]];
  }

  lemma {:induction false} TimesFreedConcat(s: seq<(nat, nat)>, t: seq<(nat, nat)>, b: nat)
    ensures TimesFreed(s + t, b) == TimesFreed(s, b) + TimesFreed(t, b)
  {
    if s == [] {
      assert s + t == t;
    } else {
      assert (s + t)[1..] == s[1..] + t;
      TimesFreedConcat(s[1..], t, b);
    }
  }

  function SplitAt(s: seq<PhysExt>, i: nat, div: nat): seq<PhysExt>
    requires i < |s| && s[i].bno < div < s[i].End()
  {
    s[..i] + [s[i].(blkcnt := div - s[i].bno), s[i].(bno := div, blkcnt := s[i].End() - div)] + s[i + 1..]
  }

  lemma SplitKeepsRefs(s: seq<PhysExt>, i: nat, div: nat, b: nat)
    requires i < |s| && s[i].bno < div < s[i].End()
    ensures At(SplitAt(s, i, div), b) == At(s, b)
  {
    var head, tail := s[i].(blkcnt := div - s[i].bno), s[i].(bno := div, blkcnt := s[i].End() - div);
    AtSplice(s, i, i + 1, [head, tail], b);
    AtConcat([head], [tail], b);
    assert [head] + [tail] == [head, tail] && s[i..i + 1] == [s[i]];
  }

  ghost predicate FitsAt(s: seq<PhysExt>, p: nat, r: PhysExt) {
    && Sorted(s) && r.Valid() && p <= |s|
    && (p > 0 ==> s[p - 1].End() <= r.bno)
    && (p < |s| ==> r.End() <= s[p].bno)
  }

  lemma InsertedRef(s: seq<PhysExt>, p: nat, r: PhysExt, b: nat)
    requires FitsAt(s, p, r)
    ensures r.Covers(b) ==> At(s, b) == Absent
    ensures At(s[..p] + [r] + s[p..], b) == if r.Covers(b) then Present(r.kind, r.refcnt) else At(s, b)
  {
    AtSplice(s, p, p, [r], b);
    if r.Covers(b) { AtOutside(s, b); }
  }

  lemma SortedConcat(s: seq<PhysExt>, t: seq<PhysExt>)
    requires Sorted(s) && Sorted(t) && (s == [] || t == [] || s[|s| - 1].End() <= t[0].bno)
    ensures Sorted(s + t)
  {
    var r, n := s + t, |s|;
    forall i | 0 <= i < |r| ensures r[i].Valid() && r[i] == if i < n then s[i] else t[i - n] {}
    forall i, j | 0 <= i < j < |r| ensures r[i].End() <= r[j].bno {
      if i < n <= j { LastEnd(s, i, n - 1); LastEnd(t, 0, j - n); }
    }
  }

  lemma LastEnd(s: seq<PhysExt>, i: nat, j: nat)
    requires Sorted(s) && i <= j < |s|
    ensures s[i].End() <= s[j].End() && s[i].bno <= s[j].bno && s[i].Valid()
  {}

  lemma SortedSlice(s: seq<PhysExt>, i: nat, j: nat)
    requires Sorted(s) && i <= j <= |s|
    ensures Sorted(s[i..j])
  {}

  lemma InsertedSorted(s: seq<PhysExt>, p: nat, r: PhysExt)
    requires FitsAt(s, p, r)
    ensures Sorted(s[..p] + [r] + s[p..])
  {
    SortedSlice(s, 0, p);
    SortedSlice(s, p, |s|);
    assert Sorted([r]);
    hide Sorted;
    SortedConcat(s[..p], [r]);
    SortedConcat(s[..p] + [r], s[p..]);
  }

  lemma AtOne(r: PhysExt, b: nat)
    ensures At([r], b) == if r.Covers(b) then Present(r.kind, r.refcnt) else Absent
  {}

  lemma AtNone(b: nat)
    ensures At([], b) == Absent
  {}

  lemma RecountedRef(s: seq<PhysExt>, i: nat, diff: int, b: nat)
    requires Sorted(s) && i < |s| && (diff == 1 || diff == -1)
    ensures At(Recounted(s, i, diff), b) == if s[i].Covers(b) then Adjust(At(s, b), diff) else At(s, b)
  {
    hide At, Sorted, Recounted;
    var refcnt := Wrap(s[i].refcnt, diff);
    var mid := if refcnt == 0 then [] else [s[i].(refcnt := refcnt)];
    AtSplice(s, i, i + 1, mid, b);
    RecountedIs(s, i, diff);
    if s[i].Covers(b) { AtRecord(s, i, b); }
    AtOne(s[i], b);
    AtNone(b);
    if refcnt != 0 { AtOne(s[i].(refcnt := refcnt), b); }
  }

  lemma RecountedIs(s: seq<PhysExt>, i: nat, diff: int)
    requires i < |s| && (diff == 1 || diff == -1)
    ensures s[i..i + 1] == [s[i]]
    ensures var refcnt := Wrap(s[i].refcnt, diff);
            Recounted(s, i, diff) == s[..i] + (if refcnt == 0 then [] else [s[i].(refcnt := refcnt)]) + s[i + 1..]
  {}

  function Recounted(s: seq<PhysExt>, i: nat, diff: int): seq<PhysExt>
    requires i < |s| && (diff == 1 || diff == -1)
  {
    var refcnt := Wrap(s[i].refcnt, diff);
    if refcnt == 0 then s[..i] + s[i + 1..] else s[i := s[i].(refcnt := refcnt)]
  }

  /** The abstract step: exactly the blocks in [lo, hi) change, each by one
      reference, and exactly those that lose their last owner become free. */
  ghost predicate Adjusted(s: seq<PhysExt>, f: seq<(nat, nat)>, t: seq<PhysExt>, g: seq<(nat, nat)>, lo: nat,
    hi: nat, diff: int)
    requires diff == 1 || diff == -1
  {
    && (forall b: nat :: At(t, b) == if lo <= b < hi then Adjust(At(s, b), diff) else At(s, b))
    && (forall b: nat :: TimesFreed(g, b) ==
          TimesFreed(f, b) + if diff == -1 && lo <= b < hi && LastOwner(At(s, b)) then 1 else 0)
  }

  lemma RecountedSorted(s: seq<PhysExt>, i: nat, diff: int)
    requires Sorted(s) && i < |s| && (diff == 1 || diff == -1)
    ensures Sorted(Recounted(s, i, diff))
  {
    if Wrap(s[i].refcnt, diff) == 0 {
      SortedSlice(s, 0, i);
      SortedSlice(s, i + 1, |s|);
      SortedConcat(s[..i], s[i + 1..]);
    }
  }

  lemma RecountedAdjusts(s: seq<PhysExt>, f: seq<(nat, nat)>, i: nat, diff: int)
    requires Sorted(s) && i < |s| && (diff == 1 || diff == -1)
    ensures Adjusted(s, f, Recounted(s, i, diff), FreedBy(f, s[i], diff), s[i].bno, s[i].End(), diff)
  {
    forall b: nat
      ensures At(Recounted(s, i, diff), b) == if s[i].Covers(b) then Adjust(At(s, b), diff) else At(s, b)
    {
      RecountedRef(s, i, diff, b);
    }
    forall b: nat
      ensures TimesFreed(FreedBy(f, s[i], diff), b) ==
              TimesFreed(f, b) + if diff == -1 && s[i].Covers(b) && LastOwner(At(s, b)) then 1 else 0
    {
      TimesFreedConcat(f, [(s[i].bno, s[i].blkcnt)], b);
      if s[i].Covers(b) { AtRecord(s, i, b); }
    }
  }

  /** Only a New record that reaches zero has its blocks freed. */
  function FreedBy(f: seq<(nat, nat)>, r: PhysExt, diff: int): seq<(nat, nat)> {
    if diff == -1 && r.kind == New && r.refcnt == 1 then f + [(r.bno, r.blkcnt)] else f
  }

  /** Counts seen by any block over any run of puts and takes. */
  datatype Op = Op(lo: nat, hi: nat, diff: int)

  function Net(ops: seq<Op>, b: nat): int {
    if ops == [] then 0
    else Net(ops[..|ops| - 1], b) + if ops[|ops| - 1].lo <= b < ops[|ops| - 1].hi then ops[|ops| - 1].diff else 0
  }

  ghost predicate IsRun(ops: seq<Op>, trees: seq<seq<PhysExt>>, logs: seq<seq<(nat, nat)>>) {
    && |trees| == |logs| == |ops| + 1
    && forall i :: 0 <= i < |ops| ==>
         && (ops[i].diff == 1 || ops[i].diff == -1)
         && Adjusted(trees[i], logs[i], trees[i + 1], logs[i + 1], ops[i].lo, ops[i].hi, ops[i].diff)
  }

  lemma {:induction false} CountInRange(s: seq<PhysExt>, b: nat)
    requires Sorted(s)
    ensures At(s, b).Count() < REFCNT_MOD && (At(s, b).Count() == 0 <==> At(s, b).Absent?)
  {
    if s != [] { CountInRange(s[1..], b); }
  }

  lemma AdjustCount(r: Ref, diff: int)
    requires diff == 1 || diff == -1
    ensures Adjust(r, diff).Count() == (r.Count() + diff) % REFCNT_MOD
  {}

  lemma AdjustBack(r: Ref)
    requires r.Count() < REFCNT_MOD && (r.Present? ==> r.refcnt > 0)
    ensures Adjust(Adjust(r, 1), -1).Count() == r.Count()
    ensures !LastOwner(Adjust(r, 1))
    ensures Adjust(Adjust(r, 1), -1) == r <==> r != Present(New, REFCNT_MOD - 1)
  {
    match r
    case Absent =>
    case Present(k, c) =>
      if c < REFCNT_MOD - 1 {
        assert Wrap(c, 1) == c + 1;
      } else {
        assert Wrap(c, 1) == 0 && Wrap(0, -1) == c && (k.New? || k.Update?);
      }
  }

  /** A block with 2^32 - 1 references that gets one more and loses it again is no longer
      owned by the live tree. */
  lemma SaturatedOwner()
    ensures var r := Present(New, REFCNT_MOD - 1);
      Adjust(r, 1) == Absent && Adjust(Adjust(r, 1), -1) == Present(Update, REFCNT_MOD - 1)
  {
    assert Wrap(REFCNT_MOD - 1, 1) == 0 && Wrap(0, -1) == REFCNT_MOD - 1;
  }

  lemma ModStep(x: int, d: int)
    ensures (x % REFCNT_MOD + d) % REFCNT_MOD == (x + d) % REFCNT_MOD
  {}

  lemma AdjustedAt(s: seq<PhysExt>, f: seq<(nat, nat)>, t: seq<PhysExt>, g: seq<(nat, nat)>, lo: nat, hi: nat,
                   diff: int, b: nat)
    requires diff == 1 || diff == -1
    requires Adjusted(s, f, t, g, lo, hi, diff)
    ensures At(t, b) == if lo <= b < hi then Adjust(At(s, b), diff) else At(s, b)
    ensures TimesFreed(g, b) == TimesFreed(f, b) + if diff == -1 && lo <= b < hi && LastOwner(At(s, b)) then 1 else 0
  {}

  /** Every block's count is its first count plus the takes minus the puts that
      covered it, however the ranges straddle records. */
  lemma {:induction false} RunCounts(ops: seq<Op>, trees: seq<seq<PhysExt>>, logs: seq<seq<(nat, nat)>>, b: nat)
    requires IsRun(ops, trees, logs) && Sorted(trees[0])
    ensures At(trees[|ops|], b).Count() == (At(trees[0], b).Count() + Net(ops, b)) % REFCNT_MOD
  {
    if ops == [] {
      CountInRange(trees[0], b);
    } else {
      var n := |ops| - 1;
      RunCounts(ops[..n], trees[..n + 1], logs[..n + 1], b);
      AdjustedAt(trees[n], logs[n], trees[n + 1], logs[n + 1], ops[n].lo, ops[n].hi, ops[n].diff, b);
      AdjustCount(At(trees[n], b), ops[n].diff);
      ModStep(At(trees[0], b).Count() + Net(ops[..n], b), ops[n].diff);
    }
  }

  /** Taking a range and putting it back restores every count and frees nothing;
      it restores the records' meaning too, except for a saturated owner. */
  lemma TakeThenPut(s: seq<PhysExt>, f: seq<(nat, nat)>, t: seq<PhysExt>, g: seq<(nat, nat)>,
                    u: seq<PhysExt>, h: seq<(nat, nat)>, lo: nat, hi: nat, b: nat)
    requires Sorted(s) && Adjusted(s, f, t, g, lo, hi, 1) && Adjusted(t, g, u, h, lo, hi, -1)
    ensures At(u, b).Count() == At(s, b).Count()
    ensures TimesFreed(h, b) == TimesFreed(f, b)
    ensures At(u, b) == At(s, b) <==> !(lo <= b < hi && At(s, b) == Present(New, REFCNT_MOD - 1))
  {
    CountInRange(s, b);
    AdjustBack(At(s, b));
    AdjustedAt(s, f, t, g, lo, hi, 1, b);
    AdjustedAt(t, g, u, h, lo, hi, -1, b);
  }

  /** What apfs_insert_phys_extent() leaves behind: one reference for every block
      of the extent from `from` on, which had no record before. */
  ghost predicate Extended(s: seq<PhysExt>, t: seq<PhysExt>, from: nat, end: nat) {
    forall b: nat ::
      if from <= b < end then At(s, b) == Absent && At(t, b) == Present(New, 1)
      else At(t, b).Count() == At(s, b).Count()
  }

  /** The records after apfs_insert_phys_extent(), which may grow the last one. */
  function WithExtent(s: seq<PhysExt>, phys: nat, blkcnt: nat): seq<PhysExt>
    requires Sorted(s) && blkcnt > 0
  {
    var end, i := phys + blkcnt, FloorRec(s, phys + blkcnt - 1);
    var base := if i >= 0 && phys < s[i].End() then s[i].End() else phys;
    if end <= base then s
    else if base == phys || s[i].refcnt != 1 then s[..i + 1] + [PhysExt(base, end - base, New, 1)] + s[i + 1..]
    else s[i := PhysExt(s[i].bno, end - s[i].bno, New, 1)]
  }

  lemma WithCases(s: seq<PhysExt>, phys: nat, end: nat, i: int, base: nat)
    requires Sorted(s) && phys < end && i == FloorRec(s, end - 1)
    requires base == if i >= 0 && phys < s[i].End() then s[i].End() else phys
    requires base < end
    ensures base == phys || s[i].refcnt != 1 ==>
      WithExtent(s, phys, end - phys) == s[..i + 1] + [PhysExt(base, end - base, New, 1)] + s[i + 1..]
    ensures base != phys && s[i].refcnt == 1 ==>
      WithExtent(s, phys, end - phys) == s[i := PhysExt(s[i].bno, end - s[i].bno, New, 1)]
  {
    hide Sorted, FloorRec;
  }

  /** Some other blocks may end up owned by the live tree, but none is given up. */
  lemma WithKept(s: seq<PhysExt>, phys: nat, blkcnt: nat, b: nat)
    requires Sorted(s) && blkcnt > 0
    ensures Sorted(WithExtent(s, phys, blkcnt))
    ensures Owned(At(s, b)) ==> At(WithExtent(s, phys, blkcnt), b) == At(s, b)
  {
    hide At, Sorted, FloorRec;
    var end, i := phys + blkcnt, FloorRec(s, phys + blkcnt - 1);
    var base := if i >= 0 && phys < s[i].End() then s[i].End() else phys;
    if base < end {
      WithCases(s, phys, end, i, base);
      if base == phys || s[i].refcnt != 1 {
        InsertedSorted(s, i + 1, PhysExt(base, end - base, New, 1));
        InsertedRef(s, i + 1, PhysExt(base, end - base, New, 1), b);
      } else {
        GrownRecord(s, i, end);
        GrownAt(s, i, PhysExt(s[i].bno, end - s[i].bno, New, 1), b);
      }
    }
  }

  /** If none of the blocks has a record, that is all that changes. */
  lemma WithFresh(s: seq<PhysExt>, phys: nat, blkcnt: nat, b: nat)
    requires Sorted(s) && blkcnt > 0 && forall x :: phys <= x < phys + blkcnt ==> At(s, x) == Absent
    ensures At(WithExtent(s, phys, blkcnt), b) == if phys <= b < phys + blkcnt then Present(New, 1) else At(s, b)
  {
    hide At, Sorted, FloorRec;
    var i, r := FloorRec(s, phys + blkcnt - 1), PhysExt(phys, blkcnt, New, 1);
    UncoveredAbove(s, i, phys, phys + blkcnt);
    InsertedRef(s, i + 1, r, b);
  }

  lemma GrownRecord(s: seq<PhysExt>, i: nat, end: nat)
    requires Sorted(s) && i < |s| && s[i].refcnt == 1 && s[i].End() < end
    requires i + 1 < |s| ==> end <= s[i + 1].bno
    ensures var t := s[i := PhysExt(s[i].bno, end - s[i].bno, New, 1)];
            Sorted(t) && Extended(s, t, s[i].End(), end)
  {
    var r := PhysExt(s[i].bno, end - s[i].bno, New, 1);
    var t := s[i := r];
    GrownSorted(s, i, r);
    forall b: nat
      ensures if s[i].End() <= b < end then At(s, b) == Absent && At(t, b) == Present(New, 1)
        else At(t, b).Count() == At(s, b).Count()
    {
      GrownAt(s, i, r, b);
    }
  }

  lemma GrownSorted(s: seq<PhysExt>, i: nat, r: PhysExt)
    requires Sorted(s) && i < |s| && r.Valid() && r.bno == s[i].bno && (i + 1 < |s| ==> r.End() <= s[i + 1].bno)
    ensures Sorted(s[i := r])
  {
    SortedSlice(s, 0, i);
    SortedSlice(s, i + 1, |s|);
    assert Sorted([r]) && (i > 0 ==> s[i - 1].End() <= r.bno);
    hide Sorted;
    SortedConcat(s[..i], [r]);
    SortedConcat(s[..i] + [r], s[i + 1..]);
    assert s[i := r] == s[..i] + [r] + s[i + 1..];
  }

  lemma GrownAt(s: seq<PhysExt>, i: nat, r: PhysExt, b: nat)
    requires i < |s| && r == PhysExt(s[i].bno, r.blkcnt, New, 1) && s[i].refcnt == 1 && s[i].End() < r.End()
    requires Sorted(s) && Sorted(s[i := r])
    ensures if s[i].End() <= b < r.End() then At(s, b) == Absent && At(s[i := r], b) == Present(New, 1)
            else At(s[i := r], b).Count() == At(s, b).Count()
    ensures Owned(At(s, b)) ==> At(s[i := r], b) == At(s, b)
  {
    hide At, Sorted;
    var t := s[i := r];
    AtSplice(s, i, i + 1, [r], b);
    assert t == s[..i] + [r] + s[i + 1..] && s[i..i + 1] == [s[i]];
    AtOne(s[i], b);
    AtOne(r, b);
    if r.Covers(b) {
      AtRecord(t, i, b);
      assert t[..i] == s[..i] && t[i + 1..] == s[i + 1..];
    }
  }

  lemma InsertedExtends(s: seq<PhysExt>, p: nat, r: PhysExt)
    requires FitsAt(s, p, r) && r.kind == New && r.refcnt == 1
    ensures Extended(s, s[..p] + [r] + s[p..], r.bno, r.End())
  {
    var t := s[..p] + [r] + s[p..];
    forall b: nat
      ensures if r.Covers(b) then At(s, b) == Absent && At(t, b) == Present(New, 1) else At(t, b) == At(s, b)
    {
      InsertedRef(s, p, r, b);
    }
  }

  /** No record reaches the blocks right below a query's upper bound, so the
      record found ends before them. */
  lemma UncoveredAbove(s: seq<PhysExt>, i: int, from: nat, end: nat)
    requires from < end && Sorted(s) && i == FloorRec(s, end - 1)
    requires forall b :: from <= b < end ==> At(s, b) == Absent
    ensures i >= 0 ==> s[i].End() <= from
    ensures from > 0 ==> (At(s, from - 1).Present? <==> i >= 0 && s[i].End() == from)
  {
    hide At;
    if i >= 0 {
      if s[i].bno >= from { AtRecord(s, i, s[i].bno); assert false; }
      if s[i].End() > from { AtRecord(s, i, from); assert false; }
    }
    if from > 0 {
      if i >= 0 && s[i].End() == from {
        AtRecord(s, i, from - 1);
      } else {
        UncoveredBetween(s, i, from - 1);
      }
    }
  }

  lemma UncoveredBetween(s: seq<PhysExt>, i: int, b: nat)
    requires Sorted(s) && -1 <= i < |s|
    requires i >= 0 ==> s[i].End() <= b
    requires i + 1 < |s| ==> b < s[i + 1].bno
    ensures At(s, b) == Absent
  {
    forall k | 0 <= k < |s| ensures !s[k].Covers(b) {
      if k < i { assert s[k].End() <= s[i].bno; }
      if k > i + 1 { assert s[i + 1].End() <= s[k].bno; }
    }
    AtOutside(s, b);
  }

  /** apfs_range_in_snap(): is the range not known to belong to the live tree? */
  predicate RangeInSnap(s: seq<PhysExt>, numSnapshots: nat, bno: nat, blkcnt: nat)
    requires Sorted(s)
  {
    if numSnapshots == 0 then false else
    var i := FloorRec(s, bno);
    if i == -1 then false
    else !(s[i].bno <= bno && s[i].End() >= bno + blkcnt && s[i].kind == New)
  }

  /** The answer "not in a snapshot" can be trusted exactly when some record lies
      at or below the range: with none, nothing was looked at. */
  lemma NotInSnap(s: seq<PhysExt>, numSnapshots: nat, bno: nat, blkcnt: nat)
    requires Sorted(s) && numSnapshots > 0 && blkcnt > 0
    requires !RangeInSnap(s, numSnapshots, bno, blkcnt)
    ensures At(s, bno).Present? <==> exists i :: 0 <= i < |s| && s[i].bno <= bno
    ensures At(s, bno).Present? ==> forall b: nat :: bno <= b < bno + blkcnt ==>
      At(s, b).Present? && At(s, b).kind == New
  {
    var i := FloorRec(s, bno);
    if i == -1 {
      UncoveredBetween(s, i, bno);
    } else {
      forall b: nat | bno <= b < bno + blkcnt ensures At(s, b) == Present(New, s[i].refcnt) { AtRecord(s, i, b); }
    }
  }

  /** The answer is "yes" unless there are no snapshots, or no records at or below the range, or
      a single record that owns all of it. */
  lemma InSnapIff(s: seq<PhysExt>, numSnapshots: nat, bno: nat, blkcnt: nat)
    requires Sorted(s) && blkcnt > 0
    ensures RangeInSnap(s, numSnapshots, bno, blkcnt) <==>
      && numSnapshots > 0 && (exists i :: 0 <= i < |s| && s[i].bno <= bno)
      && !exists i :: 0 <= i < |s| && s[i].bno <= bno && bno + blkcnt <= s[i].End() && s[i].kind == New
  {
    hide FloorRec;
    var k := FloorRec(s, bno);
    forall i | 0 <= i < |s| && s[i].bno <= bno
      ensures i <= k && (bno < s[i].End() ==> i == k)
    {
    }
  }

  ghost predicate SameRefs(s: seq<PhysExt>, t: seq<PhysExt>) {
    forall b: nat :: At(s, b) == At(t, b)
  }

  lemma AdjustedFrom(s0: seq<PhysExt>, s: seq<PhysExt>, f: seq<(nat, nat)>, t: seq<PhysExt>, g: seq<(nat, nat)>,
                     lo: nat, hi: nat, diff: int)
    requires diff == 1 || diff == -1
    requires SameRefs(s0, s) && Adjusted(s, f, t, g, lo, hi, diff)
    ensures Adjusted(s0, f, t, g, lo, hi, diff)
  {}

  lemma AdjustedJoin(s: seq<PhysExt>, f: seq<(nat, nat)>, t: seq<PhysExt>, g: seq<(nat, nat)>,
                     u: seq<PhysExt>, h: seq<(nat, nat)>, lo: nat, mid: nat, hi: nat, diff: int)
    requires (diff == 1 || diff == -1) && lo <= mid <= hi
    requires Adjusted(s, f, t, g, mid, hi, diff) && Adjusted(t, g, u, h, lo, mid, diff)
    ensures Adjusted(s, f, u, h, lo, hi, diff)
  {
    forall b: nat
      ensures At(u, b) == if lo <= b < hi then Adjust(At(s, b), diff) else At(s, b)
      ensures TimesFreed(h, b) == TimesFreed(f, b) + if diff == -1 && lo <= b < hi && LastOwner(At(s, b)) then 1 else 0
    {
      AdjustedAt(s, f, t, g, mid, hi, diff, b);
      AdjustedAt(t, g, u, h, lo, mid, diff, b);
    }
  }

  class ExtentRefTree {
    var recs: seq<PhysExt>
    /** Ranges passed to apfs_free_queue_insert(), oldest first. */
    var freed: seq<(nat, nat)>

    /** apfs_create_new_extentref_tree(): no records, as after a snapshot. */
    constructor ()
      ensures Valid() && recs == [] && freed == []
    {
      recs, freed := [], [];
    }

    ghost predicate Valid() reads this { Sorted(recs) }

    ghost function St(): Refs reads this { Refs(recs, freed) }

    /** apfs_split_phys_ext(): two records that together say what one did. */
    method SplitPhysExt(i: nat, div: nat)
      requires Valid() && i < |recs| && recs[i].bno < div < recs[i].End()
      modifies this`recs
      ensures Valid()
      ensures SameRefs(old(recs), recs)
      ensures recs == SplitAt(old(recs), i, div)
    {
      var r := recs[i];
      var blkcnt1 := div - r.bno;
      var blkcnt2 := r.blkcnt - blkcnt1;
      recs := recs[..i] + [r.(blkcnt := blkcnt1), r.(bno := div, blkcnt := blkcnt2)] + recs[i + 1..];
      forall b: nat ensures At(old(recs), b) == At(recs, b) { SplitKeepsRefs(old(recs), i, div, b); }
    }

    /** The tail of apfs_put_phys_extent() and apfs_take_phys_extent(): the record
        is counted up or down, and goes away when the count reaches zero. */
    method AdjustPhysExtent(i: nat, diff: int)
      requires Valid() && i < |recs| && (diff == 1 || diff == -1)
      modifies this
      ensures Valid()
      ensures Adjusted(old(recs), old(freed), recs, freed, old(recs)[i].bno, old(recs)[i].End(), diff)
    {
      var r := recs[i];
      var refcnt := Wrap(r.refcnt, diff);
      if refcnt == 0 {
        recs := recs[..i] + recs[i + 1..];
        if diff == -1 && r.kind == New {
          freed := freed + [(r.bno, r.blkcnt)];
        }
      } else {
        recs := recs[i := r.(refcnt := refcnt)];
      }
      RecountedSorted(old(recs), i, diff);
      RecountedAdjusts(old(recs), old(freed), i, diff);
      assert recs == Recounted(old(recs), i, diff) && freed == FreedBy(old(freed), r, diff);
    }

    /** apfs_create_update_pext(): a new update record in a gap between records. */
    method CreateUpdatePext(p: nat, bno: nat, blkcnt: nat, diff: int)
      requires blkcnt > 0 && (diff == 1 || diff == -1)
      requires FitsAt(recs, p, PhysExt(bno, blkcnt, Update, Wrap(0, diff)))
      modifies this`recs
      ensures Valid()
      ensures Adjusted(old(recs), freed, recs, freed, bno, bno + blkcnt, diff)
    {
      var r := PhysExt(bno, blkcnt, Update, Wrap(0, diff));
      recs := recs[..p] + [r] + recs[p..];
      InsertedSorted(old(recs), p, r);
      forall b: nat
        ensures At(recs, b) == if r.Covers(b) then Adjust(At(old(recs), b), diff) else At(old(recs), b)
        ensures r.Covers(b) ==> At(old(recs), b) == Absent
      {
        InsertedRef(old(recs), p, r, b);
      }
    }

    /** The cases of the next method that need no cropping: the end of the range
        lies in a gap, or a record starts in the range and ends with it. */
    method AdjustFound(i: int, paddrEnd: nat, paddrMin: nat, diff: int) returns (newEnd: nat)
      requires Valid() && paddrMin < paddrEnd && (diff == 1 || diff == -1)
      requires i == FloorRec(recs, paddrEnd - 1)
      requires i >= 0 && recs[i].End() >= paddrEnd ==> recs[i].End() == paddrEnd && recs[i].bno >= paddrMin
      modifies this
      ensures Valid() && paddrMin <= newEnd < paddrEnd
      ensures Adjusted(old(recs), old(freed), recs, freed, newEnd, paddrEnd, diff)
    {
      if i == -1 {
        // The whole range is part of a snapshot
        newEnd := paddrMin;
        CreateUpdatePext(0, newEnd, paddrEnd - newEnd, diff);
      } else if recs[i].End() < paddrEnd {
        // The end of the range is part of a snapshot
        newEnd := if recs[i].End() > paddrMin then recs[i].End() else paddrMin;
        CreateUpdatePext(i + 1, newEnd, paddrEnd - newEnd, diff);
      } else {
        newEnd := recs[i].bno;
        AdjustPhysExtent(i, diff);
      }
    }

    /** apfs_put_single_extent() for `diff` -1, apfs_take_single_extent() for +1.
        Works on the last part of the range and reports where that part starts. */
    method AdjustSingleExtent(paddrEnd: nat, paddrMin: nat, diff: int) returns (status: Status, newEnd: nat)
      requires Valid() && paddrMin < paddrEnd && (diff == 1 || diff == -1)
      modifies this
      ensures Valid()
      ensures status == Ok && paddrMin <= newEnd < paddrEnd
      ensures Adjusted(old(recs), old(freed), recs, freed, newEnd, paddrEnd, diff)
    {
      var croppedHead, croppedTail := false, false;
      ghost var k := 0;
      status, newEnd := Ok, paddrEnd;
      while true
        invariant Valid() && freed == old(freed) && status == Ok
        invariant SameRefs(old(recs), recs)
        invariant croppedTail || croppedHead ==> k < |recs| && recs[k].bno < paddrEnd == recs[k].End()
        invariant croppedHead ==> recs[k].bno == paddrMin
        decreases !croppedHead, !croppedTail
      {
        var i := FloorRec(recs, paddrEnd - 1);
        assert croppedTail || croppedHead ==> i == k;
        if i >= 0 && recs[i].End() >= paddrEnd {
          var prevStart, prevEnd := recs[i].bno, recs[i].End();
          if (croppedTail && prevEnd > paddrEnd) || (croppedHead && prevStart < paddrMin) {
            // "Recursion cropping physical extent"
            status := Corrupted;
            break;
          }
          if prevEnd > paddrEnd {
            SplitPhysExt(i, paddrEnd);
            croppedTail, k := true, i;
            continue;
          }
          if prevStart < paddrMin {
            SplitPhysExt(i, paddrMin);
            croppedHead, k := true, i + 1;
            continue;
          }
        }
        ghost var before := recs;
        newEnd := AdjustFound(i, paddrEnd, paddrMin, diff);
        AdjustedFrom(old(recs), before, old(freed), recs, freed, newEnd, paddrEnd, diff);
        break;
      }
    }

    /** apfs_range_put_reference() and apfs_range_take_reference(). */
    method AdjustRange(paddr: nat, blkcnt: nat, diff: int) returns (status: Status)
      requires Valid() && (diff == 1 || diff == -1)
      modifies this
      ensures Valid() && status == Ok
      ensures Adjusted(old(recs), old(freed), recs, freed, paddr, paddr + blkcnt, diff)
    {
      var extentEnd := paddr + blkcnt;
      status := Ok;
      while extentEnd > paddr
        invariant Valid() && paddr <= extentEnd <= paddr + blkcnt && status == Ok
        invariant Adjusted(old(recs), old(freed), recs, freed, extentEnd, paddr + blkcnt, diff)
      {
        ghost var before, log, mid := recs, freed, extentEnd;
        status, extentEnd := AdjustSingleExtent(extentEnd, paddr, diff);
        if status != Ok { break; }
        AdjustedJoin(old(recs), old(freed), before, log, recs, freed, extentEnd, mid, paddr + blkcnt, diff);
      }
    }

    /** apfs_insert_phys_extent(): record the blocks of a dirty extent, growing the
        last record it already has. The first `clean` blocks were recorded before;
        the references are exact when their last block is in this tree. */
    method InsertPhysExtent(phys: nat, blkcnt: nat, ghost clean: nat) returns (status: Status, ghost from: nat)
      requires Valid() && clean < blkcnt
      requires forall b :: phys + clean <= b < phys + blkcnt ==> At(recs, b) == Absent
      modifies this`recs
      ensures Valid() && status == Ok && phys <= from <= phys + clean
      ensures Extended(old(recs), recs, from, phys + blkcnt)
      ensures from == phys + clean <==> clean == 0 || At(old(recs), phys + clean - 1).Present?
      ensures recs == WithExtent(old(recs), phys, blkcnt)
    {
      hide At, Sorted, Extended, WithExtent, FloorRec;
      var end := phys + blkcnt;
      var lastBno := end - 1;
      var i := FloorRec(recs, lastBno);
      UncoveredAbove(recs, i, phys + clean, end);
      status := if i >= 0 && phys < recs[i].End() && recs[i].End() >= end then Corrupted else Ok;
      var newBase := if i >= 0 && phys < recs[i].End() then recs[i].End() else phys;
      from := newBase;
      if status == Corrupted {
        // "Dirty cache tail covered by existing physical extent"
      } else {
        InsertFrom(i, phys, newBase, end);
      }
    }

    /** The end of apfs_insert_phys_extent(), from the first block without a record. */
    method InsertFrom(i: int, phys: nat, base: nat, end: nat)
      requires Valid() && phys < end && i == FloorRec(recs, end - 1) && base < end
      requires base == if i >= 0 && phys < recs[i].End() then recs[i].End() else phys
      modifies this`recs
      ensures Valid() && Extended(old(recs), recs, base, end) && recs == WithExtent(old(recs), phys, end - phys)
    {
      hide At, Sorted, Extended, WithExtent, FloorRec;
      WithCases(recs, phys, end, i, base);
      if base == phys || recs[i].refcnt != 1 {
        // A fresh new physical extent, or one that must not extend the references
        // to the record found
        InsertNewPhysExtent(i + 1, base, end - base);
      } else {
        GrownRecord(recs, i, end);
        recs := recs[i := PhysExt(recs[i].bno, end - recs[i].bno, New, 1)];
      }
    }

    /** apfs_insert_new_phys_extent() */
    method InsertNewPhysExtent(p: nat, bno: nat, blkcnt: nat)
      requires FitsAt(recs, p, PhysExt(bno, blkcnt, New, 1))
      modifies this`recs
      ensures Valid() && recs == old(recs)[..p] + [PhysExt(bno, blkcnt, New, 1)] + old(recs)[p..]
      ensures Extended(old(recs), recs, bno, bno + blkcnt)
    {
      var r := PhysExt(bno, blkcnt, New, 1);
      InsertedSorted(recs, p, r);
      InsertedExtends(recs, p, r);
      recs := recs[..p] + [r] + recs[p..];
    }
  }
}
