/** The space in a b-tree node (node.c), as an account of its bytes. The key area and the
    value area of a node are each made of the live keys or values, the segments in its
    free list, and those too small to be listed, which are leaked until the next
    defragmentation. */
module NodeArea {

  datatype Iv = Iv(off: nat, len: nat) {
    predicate Covers(b: nat) { off <= b < off + len }
  }

  const NONE := Iv(0, 0)

  /** The smallest segment that can go in a free list. */
  const MIN_SEGMENT := 4

  function One(p: bool): nat { if p then 1 else 0 }

  /** How many of the intervals hold a byte. */
  function Cover(ivs: seq<Iv>, b: nat): nat {
    if ivs == [] then 0 else Cover(ivs[..|ivs| - 1], b) + One(ivs[|ivs| - 1].Covers(b))
  }

  function SumLen(ivs: seq<Iv>): nat {
    if ivs == [] then 0 else SumLen(ivs[..|ivs| - 1]) + ivs[|ivs| - 1].len
  }

  lemma {:induction false} CoverConcat(s: seq<Iv>, t: seq<Iv>, b: nat)
    ensures Cover(s + t, b) == Cover(s, b) + Cover(t, b)
  {
    if t == [] {
      assert s + t == s;
    } else {
      assert (s + t)[..|s + t| - 1] == s + t[..|t| - 1];
      CoverConcat(s, t[..|t| - 1], b);
    }
  }

  lemma {:induction false} SumConcat(s: seq<Iv>, t: seq<Iv>)
    ensures SumLen(s + t) == SumLen(s) + SumLen(t)
  {
    if t == [] {
      assert s + t == s;
    } else {
      assert (s + t)[..|s + t| - 1] == s + t[..|t| - 1];
      SumConcat(s, t[..|t| - 1]);
    }
  }

  lemma OneIv(x: Iv, b: nat)
    ensures Cover([x], b) == One(x.Covers(b)) && SumLen([x]) == x.len
  {
    assert [x][..0] == [];
  }

  function Inserted(s: seq<Iv>, i: nat, x: Iv): seq<Iv>
    requires i <= |s|
  {
    s[..i] + [x] + s[i..]
  }

  function Without(s: seq<Iv>, i: nat): seq<Iv>
    requires i < |s|
  {
    s[..i] + s[i + 1..]
  }

  function Shift(s: seq<Iv>, inc: nat): seq<Iv> { seq(|s|, k requires 0 <= k < |s| => Iv(s[k].off + inc, s[k].len)) }

  lemma CoverInserted(s: seq<Iv>, i: nat, x: Iv, b: nat)
    requires i <= |s|
    ensures Cover(Inserted(s, i, x), b) == Cover(s, b) + One(x.Covers(b))
    ensures SumLen(Inserted(s, i, x)) == SumLen(s) + x.len
  {
    hide Cover, SumLen;
    OneIv(x, b);
    CoverConcat(s[..i] + [x], s[i..], b);
    CoverConcat(s[..i], [x], b);
    CoverConcat(s[..i], s[i..], b);
    SumConcat(s[..i] + [x], s[i..]);
    SumConcat(s[..i], [x]);
    SumConcat(s[..i], s[i..]);
    assert s[..i] + s[i..] == s;
  }

  lemma CoverWithout(s: seq<Iv>, i: nat, b: nat)
    requires i < |s|
    ensures Cover(s, b) == Cover(Without(s, i), b) + One(s[i].Covers(b))
    ensures SumLen(s) == SumLen(Without(s, i)) + s[i].len
  {
    hide Cover, SumLen;
    CoverInserted(Without(s, i), i, s[i], b);
    assert Inserted(Without(s, i), i, s[i]) == s;
  }

  lemma CoverUpdated(s: seq<Iv>, i: nat, x: Iv, b: nat)
    requires i < |s|
    ensures Cover(s[i := x], b) + One(s[i].Covers(b)) == Cover(s, b) + One(x.Covers(b))
    ensures SumLen(s[i := x]) + s[i].len == SumLen(s) + x.len
  {
    hide Cover, SumLen;
    CoverWithout(s, i, b);
    CoverInserted(Without(s, i), i, x, b);
    assert Inserted(Without(s, i), i, x) == s[i := x];
  }

  lemma {:induction false} CoverMember(s: seq<Iv>, i: nat, b: nat)
    requires i < |s| && s[i].Covers(b)
    ensures Cover(s, b) > 0
  {
    if i < |s| - 1 { CoverMember(s[..|s| - 1], i, b); }
  }

  lemma {:induction false} CoverTwice(s: seq<Iv>, i: nat, j: nat, b: nat)
    requires i < j < |s| && s[i].Covers(b) && s[j].Covers(b)
    ensures Cover(s, b) > 1
  {
    var n := |s| - 1;
    if j < n { CoverTwice(s[..n], i, j, b); } else { CoverMember(s[..n], i, b); }
  }

  /** One of the areas, from lo to hi. The extra interval is space that was just allocated
      and has no record yet, or that is about to be freed. */
  datatype Area = Area(lo: nat, hi: nat, live: seq<Iv>, segs: seq<Iv>, leaks: seq<Iv>, extra: Iv) {

    /** Every byte of the area has exactly one owner, and no byte outside has any. */
    ghost predicate Exact() {
      && lo <= hi && SumLen(live) + ListLen() + extra.len == hi - lo
      && (forall k :: 0 <= k < |segs| ==> segs[k].len >= MIN_SEGMENT)
      && forall b: nat :: ExactAt(b)
    }

    predicate ExactAt(b: nat) {
      Cover(live, b) + Cover(segs, b) + Cover(leaks, b) + One(extra.Covers(b)) == One(lo <= b < hi)
    }

    /** What the free list is said to hold; it includes the leaks. */
    function ListLen(): nat { SumLen(segs) + SumLen(leaks) }

    // Allocation

    function GrowUp(len: nat): Area { this.(hi := hi + len, extra := Iv(hi, len)) }

    function GrowDown(len: nat): Area
      requires len <= lo
    {
      this.(lo := lo - len, extra := Iv(lo - len, len))
    }

    /** A segment leaves the list: its start is owned now, and the rest is extra. */
    function Unlinked(k: nat, len: nat): Area
      requires k < |segs| && len <= segs[k].len
    {
      var seg := segs[k];
      this.(live := live + [Iv(seg.off, len)], segs := Without(segs, k), extra := Iv(seg.off + len, seg.len - len))
    }

    /** The keys move up to make room for a longer table of contents. */
    function Shifted(inc: nat): Area {
      Area(lo + inc, hi + inc, Shift(live, inc), Shift(segs, inc), Shift(leaks, inc), Iv(extra.off + inc, extra.len))
    }

    /** The extra space becomes a record. */
    function Own(i: nat): Area
      requires i <= |live|
    {
      this.(live := Inserted(live, i, extra), extra := NONE)
    }

    /** It replaces a record that gave up its own. */
    function Fill(i: nat): Area
      requires i < |live|
    {
      this.(live := live[i := extra], extra := NONE)
    }

    // Freeing

    /** The end of a record is given up, or all of it. */
    function Shrink(i: nat, len: nat): Area
      requires i < |live| && len <= live[i].len
    {
      var x := live[i];
      this.(live := live[i := Iv(x.off, len)], extra := Iv(x.off + len, x.len - len))
    }

    function Remove(i: nat): Area
      requires i < |live|
    {
      this.(live := Without(live, i), extra := live[i])
    }

    function CutUp(): Area
      requires extra.len <= hi
    {
      this.(hi := hi - extra.len, extra := NONE)
    }

    function CutDown(): Area { this.(lo := lo + extra.len, extra := NONE) }

    /** apfs_node_free_list_add() */
    function Listed(): Area {
      if extra.len >= MIN_SEGMENT then this.(segs := [extra] + segs, extra := NONE)
      else this.(leaks := leaks + [extra], extra := NONE)
    }
  }

  // Every step keeps the account exact

  lemma GrowUpKeeps(a: Area, len: nat)
    requires a.Exact() && a.extra.len == 0
    ensures a.GrowUp(len).Exact()
  {
    hide Cover, SumLen;
    forall b: nat
      ensures a.GrowUp(len).ExactAt(b)
    {
      assert a.ExactAt(b);
    }
  }

  lemma GrowDownKeeps(a: Area, len: nat)
    requires a.Exact() && a.extra.len == 0 && len <= a.lo
    ensures a.GrowDown(len).Exact()
  {
    hide Cover, SumLen;
    forall b: nat
      ensures a.GrowDown(len).ExactAt(b)
    {
      assert a.ExactAt(b);
    }
  }

  lemma ListedKeeps(a: Area)
    requires a.Exact()
    ensures a.Listed().Exact() && a.Listed().ListLen() == a.ListLen() + a.extra.len
  {
    hide Cover, SumLen;
    var r := a.Listed();
    SumConcat([a.extra], a.segs);
    SumConcat(a.leaks, [a.extra]);
    OneIv(a.extra, 0);
    forall b: nat
      ensures r.ExactAt(b)
    {
      assert a.ExactAt(b);
      OneIv(a.extra, b);
      CoverConcat([a.extra], a.segs, b);
      CoverConcat(a.leaks, [a.extra], b);
    }
  }

  lemma UnlinkedKeeps(a: Area, k: nat, len: nat)
    requires a.Exact() && a.extra.len == 0 && k < |a.segs| && len <= a.segs[k].len
    ensures a.Unlinked(k, len).Exact() && a.Unlinked(k, len).ListLen() == a.ListLen() - a.segs[k].len
  {
    hide Cover, SumLen;
    var seg, r := a.segs[k], a.Unlinked(k, len);
    var x := Iv(seg.off, len);
    CoverWithout(a.segs, k, 0);
    SumConcat(a.live, [x]);
    OneIv(x, 0);
    forall b: nat
      ensures r.ExactAt(b)
    {
      assert a.ExactAt(b);
      CoverWithout(a.segs, k, b);
      OneIv(x, b);
      CoverConcat(a.live, [x], b);
    }
  }

  lemma {:induction false} CoverShift(s: seq<Iv>, inc: nat, b: nat)
    ensures Cover(Shift(s, inc), b) == if b < inc then 0 else Cover(s, b - inc)
    ensures SumLen(Shift(s, inc)) == SumLen(s)
  {
    if s != [] {
      assert Shift(s, inc)[..|s| - 1] == Shift(s[..|s| - 1], inc);
      CoverShift(s[..|s| - 1], inc, b);
    }
  }

  lemma ShiftedKeeps(a: Area, inc: nat)
    requires a.Exact()
    ensures a.Shifted(inc).Exact() && a.Shifted(inc).ListLen() == a.ListLen()
  {
    hide Cover, SumLen;
    CoverShift(a.live, inc, 0);
    CoverShift(a.segs, inc, 0);
    CoverShift(a.leaks, inc, 0);
    forall b: nat
      ensures a.Shifted(inc).ExactAt(b)
    {
      if b >= inc { assert a.ExactAt(b - inc); }
      CoverShift(a.live, inc, b);
      CoverShift(a.segs, inc, b);
      CoverShift(a.leaks, inc, b);
    }
  }

  lemma OwnKeeps(a: Area, i: nat)
    requires a.Exact() && i <= |a.live|
    ensures a.Own(i).Exact()
  {
    hide Cover, SumLen;
    CoverInserted(a.live, i, a.extra, 0);
    forall b: nat
      ensures a.Own(i).ExactAt(b)
    {
      assert a.ExactAt(b);
      CoverInserted(a.live, i, a.extra, b);
    }
  }

  lemma FillKeeps(a: Area, i: nat)
    requires a.Exact() && i < |a.live| && a.live[i].len == 0
    ensures a.Fill(i).Exact()
  {
    hide Cover, SumLen;
    CoverUpdated(a.live, i, a.extra, 0);
    forall b: nat
      ensures a.Fill(i).ExactAt(b)
    {
      assert a.ExactAt(b);
      CoverUpdated(a.live, i, a.extra, b);
    }
  }

  lemma ShrinkKeeps(a: Area, i: nat, len: nat)
    requires a.Exact() && a.extra.len == 0 && i < |a.live| && len <= a.live[i].len
    ensures a.Shrink(i, len).Exact()
  {
    hide Cover, SumLen;
    var x := Iv(a.live[i].off, len);
    CoverUpdated(a.live, i, x, 0);
    forall b: nat
      ensures a.Shrink(i, len).ExactAt(b)
    {
      assert a.ExactAt(b);
      CoverUpdated(a.live, i, x, b);
    }
  }

  lemma RemoveKeeps(a: Area, i: nat)
    requires a.Exact() && a.extra.len == 0 && i < |a.live|
    ensures a.Remove(i).Exact()
  {
    hide Cover, SumLen;
    CoverWithout(a.live, i, 0);
    forall b: nat
      ensures a.Remove(i).ExactAt(b)
    {
      assert a.ExactAt(b);
      CoverWithout(a.live, i, b);
    }
  }

  lemma CutUpKeeps(a: Area)
    requires a.Exact() && a.extra.off + a.extra.len == a.hi
    ensures a.CutUp().Exact()
  {
    hide Cover, SumLen;
    forall b: nat
      ensures a.CutUp().ExactAt(b)
    {
      assert a.ExactAt(b);
    }
  }

  lemma CutDownKeeps(a: Area)
    requires a.Exact() && a.extra.off == a.lo
    ensures a.CutDown().Exact()
  {
    hide Cover, SumLen;
    forall b: nat
      ensures a.CutDown().ExactAt(b)
    {
      assert a.ExactAt(b);
    }
  }

  // Where the owners are

  /** None of the intervals holds a byte of a range. */
  ghost predicate Clear(ivs: seq<Iv>, lo: nat, hi: nat) {
    forall i, b: nat :: 0 <= i < |ivs| && ivs[i].Covers(b) ==> !(lo <= b < hi)
  }

  ghost predicate AllClear(a: Area, lo: nat, hi: nat) {
    Clear(a.live, lo, hi) && Clear(a.segs, lo, hi)
  }

  lemma {:induction false} CoverNone(s: seq<Iv>, lo: nat, hi: nat)
    requires forall b: nat :: lo <= b < hi ==> Cover(s, b) == 0
    ensures Clear(s, lo, hi)
  {
    forall i, b: nat | 0 <= i < |s| && s[i].Covers(b)
      ensures !(lo <= b < hi)
    {
      CoverMember(s, i, b);
    }
  }

  /** The areas don't reach past their limits. */
  lemma ClearOutside(a: Area, lo: nat, hi: nat)
    requires a.Exact() && (hi <= a.lo || a.hi <= lo)
    ensures AllClear(a, lo, hi)
  {
    hide Cover, SumLen;
    forall b: nat | lo <= b < hi
      ensures Cover(a.live, b) == 0 && Cover(a.segs, b) == 0
    {
      assert a.ExactAt(b);
    }
    CoverNone(a.live, lo, hi);
    CoverNone(a.segs, lo, hi);
  }

  lemma ClearExtra(a: Area)
    requires a.Exact()
    ensures AllClear(a, a.extra.off, a.extra.off + a.extra.len)
  {
    hide Cover, SumLen;
    var lo, hi := a.extra.off, a.extra.off + a.extra.len;
    forall b: nat | lo <= b < hi
      ensures Cover(a.live, b) == 0 && Cover(a.segs, b) == 0
    {
      assert a.ExactAt(b);
    }
    CoverNone(a.live, lo, hi);
    CoverNone(a.segs, lo, hi);
  }

  lemma ClearSeg(a: Area, k: nat)
    requires a.Exact() && k < |a.segs|
    ensures Clear(a.live, a.segs[k].off, a.segs[k].off + a.segs[k].len)
    ensures Clear(Without(a.segs, k), a.segs[k].off, a.segs[k].off + a.segs[k].len)
  {
    hide Cover, SumLen;
    var x := a.segs[k];
    forall b: nat | x.off <= b < x.off + x.len
      ensures Cover(a.live, b) == 0 && Cover(Without(a.segs, k), b) == 0
    {
      assert a.ExactAt(b) && x.Covers(b);
      CoverWithout(a.segs, k, b);
    }
    CoverNone(a.live, x.off, x.off + x.len);
    CoverNone(Without(a.segs, k), x.off, x.off + x.len);
  }

  lemma InArea(a: Area, x: Iv)
    requires a.Exact() && x.len > 0 && (x in a.live || x in a.segs || x == a.extra)
    ensures a.lo <= x.off && x.off + x.len <= a.hi
  {
    hide Cover, SumLen;
    forall b: nat | x.Covers(b)
      ensures a.lo <= b < a.hi
    {
      assert a.ExactAt(b);
      if x in a.live {
        var i :| 0 <= i < |a.live| && a.live[i] == x;
        CoverMember(a.live, i, b);
      } else if x in a.segs {
        var k :| 0 <= k < |a.segs| && a.segs[k] == x;
        CoverMember(a.segs, k, b);
      }
    }
    assert x.Covers(x.off) && x.Covers(x.off + x.len - 1);
  }

  /** The list can't be longer than the block. */
  lemma {:induction false} FewSegs(segs: seq<Iv>)
    requires forall k :: 0 <= k < |segs| ==> segs[k].len >= MIN_SEGMENT
    ensures MIN_SEGMENT * |segs| <= SumLen(segs)
  {
    if segs != [] { FewSegs(segs[..|segs| - 1]); }
  }

  lemma {:induction false} SegInSum(segs: seq<Iv>, k: nat)
    requires k < |segs|
    ensures segs[k].len <= SumLen(segs)
  {
    if k < |segs| - 1 { SegInSum(segs[..|segs| - 1], k); }
  }

  /** No listed segment is large enough. */
  ghost predicate NoneHolds(segs: seq<Iv>, len: nat) {
    forall k :: 0 <= k < |segs| ==> segs[k].len < len
  }

  /** Where no space is doesn't matter. */
  lemma ZeroExtra(a: Area, x: Iv)
    requires a.Exact() && a.extra.len == 0 && x.len == 0
    ensures a.(extra := x).Exact()
  {
    hide Cover, SumLen;
    forall b: nat
      ensures a.(extra := x).ExactAt(b)
    {
      assert a.ExactAt(b);
    }
  }
}
