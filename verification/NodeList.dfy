/** The free lists of a b-tree node (node.c). Each free segment starts with the offset of
    the next one and its own length. The offsets are relative: from the start of the key
    area, or backwards from the end of the value area. */
module NodeList {
  import opened Bytes
  import opened NodeArea

  const BTOFF_INVALID := 0xFFFF

  /** One of the two ways to give an offset. */
  datatype Side = Keys(start: nat) | Values(end: nat) {

    /** apfs_off_to_key_off() and apfs_off_to_val_off() */
    function Rel(off: int): int { if Keys? then off - start else end - off }

    /** apfs_key_off_to_off() and apfs_val_off_to_off() */
    function Abs(rel: int): (off: int)
      ensures Rel(off) == rel
    {
      if Keys? then rel + start else end - rel
    }
  }

  /** The list in the block that starts with some offset is made of these segments. */
  ghost predicate Chained(data: seq<byte>, side: Side, head: nat, segs: seq<Iv>)
    decreases segs
  {
    if segs == [] then head == BTOFF_INVALID
    else
      && segs[0].off + 4 <= |data| && head == side.Rel(segs[0].off) && head < BTOFF_INVALID
      && U16(data, segs[0].off + 2) == segs[0].len
      && Chained(data, side, U16(data, segs[0].off), segs[1..])
  }

  /** The headers of the segments are the same in both blocks. */
  ghost predicate SameHeaders(data: seq<byte>, data2: seq<byte>, segs: seq<Iv>) {
    && |data| == |data2|
    && forall k, b :: 0 <= k < |segs| && segs[k].off <= b < segs[k].off + 4 && b < |data| ==> data[b] == data2[b]
  }

  lemma {:induction false} ChainedSame(data: seq<byte>, data2: seq<byte>, side: Side, head: nat, segs: seq<Iv>)
    requires Chained(data, side, head, segs) && SameHeaders(data, data2, segs)
    ensures Chained(data2, side, head, segs)
    decreases segs
  {
    if segs != [] {
      var o := segs[0].off;
      assert data[o] == data2[o] && data[o + 1] == data2[o + 1] && data[o + 2] == data2[o + 2] &&
        data[o + 3] == data2[o + 3];
      assert forall k :: 0 <= k < |segs[1..]| ==> segs[1..][k] == segs[k + 1];
      ChainedSame(data, data2, side, U16(data, o), segs[1..]);
    }
  }

  /** A segment with its header in place goes first. */
  lemma ChainedPush(data: seq<byte>, side: Side, head: nat, segs: seq<Iv>, x: Iv)
    requires Chained(data, side, head, segs) && x.off + 4 <= |data| && 0 <= side.Rel(x.off) < BTOFF_INVALID
    requires U16(data, x.off) == head && U16(data, x.off + 2) == x.len
    ensures Chained(data, side, side.Rel(x.off), [x] + segs)
  {
    assert ([x] + segs)[1..] == segs;
  }

  /** Every segment of a list is followed by the next. */
  lemma {:induction false} ChainedAt(data: seq<byte>, side: Side, head: nat, segs: seq<Iv>, k: nat)
    requires Chained(data, side, head, segs) && k < |segs|
    ensures segs[k].off + 4 <= |data| && U16(data, segs[k].off + 2) == segs[k].len &&
      0 <= side.Rel(segs[k].off) < BTOFF_INVALID
    ensures Chained(data, side, U16(data, segs[k].off), segs[k + 1..])
    ensures Chained(data, side, side.Rel(segs[k].off), segs[k..])
    decreases k
  {
    assert segs[0..] == segs;
    if k > 0 {
      ChainedAt(data, side, U16(data, segs[0].off), segs[1..], k - 1);
      assert segs[1..][k - 1] == segs[k] && segs[1..][k..] == segs[k + 1..] && segs[1..][k - 1..] == segs[k..];
    }
  }

  /** A list up to some segment goes on with whatever that segment points to. */
  lemma {:induction false} ChainedRelink(data: seq<byte>, data2: seq<byte>, side: Side, head: nat, segs: seq<Iv>,
      k: nat, rest: seq<Iv>)
    requires Chained(data, side, head, segs) && k < |segs|
    requires SameHeaders(data, data2, segs[..k]) && |data2| == |data| && segs[k].off + 4 <= |data|
    requires U16(data2, segs[k].off + 2) == segs[k].len && Chained(data2, side, U16(data2, segs[k].off), rest)
    ensures Chained(data2, side, head, segs[..k + 1] + rest)
    decreases k
  {
    var r := segs[..k + 1] + rest;
    assert r[0] == segs[0];
    if k == 0 {
      assert r[1..] == rest;
    } else {
      var o := segs[0].off;
      assert segs[..k][0] == segs[0];
      assert data[o] == data2[o] && data[o + 1] == data2[o + 1] && data[o + 2] == data2[o + 2] &&
        data[o + 3] == data2[o + 3];
      assert segs[1..][..k - 1] == segs[..k][1..];
      ChainedRelink(data, data2, side, U16(data, o), segs[1..], k - 1, rest);
      assert r[1..] == segs[1..][..k] + rest;
    }
  }

  // What a write leaves alone

  /** The bytes of a key or a value. */
  function Field(data: seq<byte>, x: Iv): seq<byte> {
    if 0 < x.len && x.off + x.len <= |data| then data[x.off..x.off + x.len] else []
  }

  ghost predicate SameFields(data: seq<byte>, data2: seq<byte>, ivs: seq<Iv>) {
    forall i :: 0 <= i < |ivs| ==> Field(data2, ivs[i]) == Field(data, ivs[i])
  }

  /** Only a range of the block was written. */
  ghost predicate Outside(data: seq<byte>, data2: seq<byte>, lo: nat, hi: nat) {
    |data| == |data2| && forall b: nat :: b < |data| && !(lo <= b < hi) ==> data2[b] == data[b]
  }

  lemma SpliceOutside(data: seq<byte>, d: nat, mid: seq<byte>, lo: nat, hi: nat)
    requires lo <= d && d + |mid| <= hi && d + |mid| <= |data|
    ensures Outside(data, Splice(data, d, mid), lo, hi)
    ensures Splice(data, d, mid)[d..d + |mid|] == mid
  {
  }

  lemma FieldsFrame(data: seq<byte>, data2: seq<byte>, ivs: seq<Iv>, lo: nat, hi: nat)
    requires Outside(data, data2, lo, hi) && Clear(ivs, lo, hi)
    ensures SameFields(data, data2, ivs)
  {
    forall i | 0 <= i < |ivs|
      ensures Field(data2, ivs[i]) == Field(data, ivs[i])
    {
      var x := ivs[i];
      if 0 < x.len && x.off + x.len <= |data| {
        forall b: nat | x.off <= b < x.off + x.len
          ensures data2[b] == data[b]
        {
          assert x.Covers(b);
        }
      }
    }
  }

  lemma HeadersFrame(data: seq<byte>, data2: seq<byte>, segs: seq<Iv>, lo: nat, hi: nat)
    requires Outside(data, data2, lo, hi) && Clear(segs, lo, hi)
    requires forall k :: 0 <= k < |segs| ==> segs[k].len >= MIN_SEGMENT
    ensures SameHeaders(data, data2, segs)
  {
    forall k, b | 0 <= k < |segs| && segs[k].off <= b < segs[k].off + 4 && b < |data|
      ensures data[b] == data2[b]
    {
      assert segs[k].Covers(b);
    }
  }

  // One area with its list

  ghost predicate ListOk(data: seq<byte>, side: Side, head: nat, len: nat, a: Area) {
    && a.Exact() && a.hi <= |data| <= MAX_BLOCK && len == a.ListLen()
    && side.Rel(if side.Keys? then a.lo else a.hi) == 0
    && Chained(data, side, head, a.segs)
  }

  /** Blocks of 64 KiB are not modelled. */
  const MAX_BLOCK := 0x8000

  lemma HeadBound(data: seq<byte>, side: Side, head: nat, segs: seq<Iv>)
    requires Chained(data, side, head, segs)
    ensures head < 65536
  {
  }

  /** Writing to space that has no record and isn't listed is harmless. */
  lemma ListFrame(data: seq<byte>, data2: seq<byte>, side: Side, head: nat, len: nat, a: Area, lo: nat, hi: nat)
    requires ListOk(data, side, head, len, a) && Outside(data, data2, lo, hi) && AllClear(a, lo, hi)
    ensures ListOk(data2, side, head, len, a) && SameFields(data, data2, a.live)
  {
    hide Area.ExactAt, Cover, SumLen, Chained;
    FieldsFrame(data, data2, a.live, lo, hi);
    HeadersFrame(data, data2, a.segs, lo, hi);
    ChainedSame(data, data2, side, head, a.segs);
  }

  /** So is writing to the other area. */
  lemma OtherArea(data: seq<byte>, data2: seq<byte>, side: Side, head: nat, len: nat, a: Area, lo: nat, hi: nat)
    requires ListOk(data, side, head, len, a) && Outside(data, data2, lo, hi) && (hi <= a.lo || a.hi <= lo)
    ensures ListOk(data2, side, head, len, a) && SameFields(data, data2, a.live)
  {
    hide Area.ExactAt, Cover, SumLen, Chained;
    ClearOutside(a, lo, hi);
    ListFrame(data, data2, side, head, len, a, lo, hi);
  }

  lemma AddSmall(data: seq<byte>, side: Side, head: nat, len: nat, a: Area)
    requires ListOk(data, side, head, len, a) && a.extra.len < MIN_SEGMENT
    ensures ListOk(data, side, head, len + a.extra.len, a.Listed())
  {
    hide Area.ExactAt, Cover, SumLen, Chained;
    ListedKeeps(a);
  }

  lemma HeaderWritten(data: seq<byte>, off: nat, next: nat, len: nat)
    requires next < 65536 && len < 65536 && off + 4 <= |data|
    ensures var data2 := Splice(data, off, Le16(next) + Le16(len));
      U16(data2, off) == next && U16(data2, off + 2) == len && Outside(data, data2, off, off + 4)
  {
    var data2 := Splice(data, off, Le16(next) + Le16(len));
    assert data2[off] == next % 256 && data2[off + 1] == next / 256;
    assert data2[off + 2] == len % 256 && data2[off + 3] == len / 256;
  }

  lemma AddLarge(data: seq<byte>, side: Side, head: nat, len: nat, a: Area)
    requires ListOk(data, side, head, len, a) && a.extra.len >= MIN_SEGMENT
    ensures head < 65536 && a.lo <= a.extra.off && a.extra.off + a.extra.len <= a.hi <= |data| <= MAX_BLOCK
    ensures var data2 := Splice(data, a.extra.off, Le16(head) + Le16(a.extra.len));
      && 0 <= side.Rel(a.extra.off) && ListOk(data2, side, side.Rel(a.extra.off), len + a.extra.len, a.Listed())
      && SameFields(data, data2, a.live) && Outside(data, data2, a.lo, a.hi)
  {
    hide Area.ExactAt, Cover, SumLen, Chained;
    var x := a.extra;
    ListedKeeps(a);
    InArea(a, x);
    HeadBound(data, side, head, a.segs);
    var data2 := Splice(data, x.off, Le16(head) + Le16(x.len));
    HeaderWritten(data, x.off, head, x.len);
    ClearExtra(a);
    ListFrame(data, data2, side, head, len, a, x.off, x.off + x.len);
    ChainedPush(data2, side, head, a.segs, x);
  }

  /** The first segment is taken. */
  lemma UnlinkFirst(data: seq<byte>, side: Side, head: nat, len: nat, a: Area, n: nat)
    requires ListOk(data, side, head, len, a) && a.extra.len == 0 && a.segs != [] && n <= a.segs[0].len
    ensures a.segs[0].len <= len && a.segs[0].off + 4 <= |data|
    ensures ListOk(data, side, U16(data, a.segs[0].off), len - a.segs[0].len, a.Unlinked(0, n))
  {
    hide Area.ExactAt, Cover, SumLen, Chained;
    UnlinkedKeeps(a, 0, n);
    ChainedAt(data, side, head, a.segs, 0);
    assert Without(a.segs, 0) == a.segs[1..];
  }

  lemma ClearRest(segs: seq<Iv>, k: nat, lo: nat, hi: nat)
    requires k < |segs| && Clear(Without(segs, k), lo, hi)
    ensures Clear(segs[..k], lo, hi) && Clear(segs[k + 1..], lo, hi)
  {
    var w := Without(segs, k);
    forall i, b: nat | 0 <= i < k && segs[..k][i].Covers(b)
      ensures !(lo <= b < hi)
    {
      assert w[i].Covers(b);
    }
    var rest := segs[k + 1..];
    forall i, b: nat | 0 <= i < |rest| && rest[i].Covers(b)
      ensures !(lo <= b < hi)
    {
      assert w[k + i].Covers(b);
    }
  }

  /** The link to a segment skips it now. */
  lemma Relinked(data: seq<byte>, side: Side, head: nat, a: Area, k: nat)
    requires a.Exact() && a.hi <= |data| && Chained(data, side, head, a.segs) && 0 < k < |a.segs|
    ensures a.segs[k].off + 4 <= |data| && a.segs[k - 1].off + 4 <= |data|
    ensures var data2 := Splice(data, a.segs[k - 1].off, Le16(U16(data, a.segs[k].off)));
      && Chained(data2, side, head, Without(a.segs, k)) && SameFields(data, data2, a.live)
      && Outside(data, data2, a.lo, a.hi)
  {
    hide Area.ExactAt, Cover, SumLen, Chained;
    var prev := a.segs[k - 1];
    ChainedAt(data, side, head, a.segs, k);
    ChainedAt(data, side, head, a.segs, k - 1);
    var next := U16(data, a.segs[k].off);
    var data2 := Splice(data, prev.off, Le16(next));
    LinkWritten(data, prev.off, next);
    InArea(a, prev);
    ClearSeg(a, k - 1);
    ClearRest(a.segs, k - 1, prev.off, prev.off + prev.len);
    FieldsFrame(data, data2, a.live, prev.off, prev.off + prev.len);
    HeadersFrame(data, data2, a.segs[..k - 1], prev.off, prev.off + prev.len);
    HeadersFrame(data, data2, a.segs[k..], prev.off, prev.off + prev.len);
    assert SameHeaders(data, data2, a.segs[k + 1..]) by {
      assert a.segs[k + 1..] == a.segs[k..][1..];
    }
    ChainedSame(data, data2, side, next, a.segs[k + 1..]);
    ChainedRelink(data, data2, side, head, a.segs, k - 1, a.segs[k + 1..]);
    assert a.segs[..k - 1 + 1] + a.segs[k + 1..] == Without(a.segs, k);
  }

  lemma LinkWritten(data: seq<byte>, off: nat, next: nat)
    requires next < 65536 && off + 4 <= |data|
    ensures var data2 := Splice(data, off, Le16(next));
      U16(data2, off) == next && U16(data2, off + 2) == U16(data, off + 2) && Outside(data, data2, off, off + 4)
  {
    var data2 := Splice(data, off, Le16(next));
    assert data2[off] == next % 256 && data2[off + 1] == next / 256;
  }

  /** Some other segment is taken. */
  lemma UnlinkNext(data: seq<byte>, side: Side, head: nat, len: nat, a: Area, k: nat, n: nat)
    requires ListOk(data, side, head, len, a) && a.extra.len == 0 && 0 < k < |a.segs| && n <= a.segs[k].len
    ensures a.segs[k].len <= len && a.segs[k].off + 4 <= |data| && a.segs[k - 1].off + 4 <= |data|
    ensures var data2 := Splice(data, a.segs[k - 1].off, Le16(U16(data, a.segs[k].off)));
      && ListOk(data2, side, head, len - a.segs[k].len, a.Unlinked(k, n)) && SameFields(data, data2, a.live)
      && Outside(data, data2, a.lo, a.hi)
  {
    hide Area.ExactAt, Cover, SumLen, Chained;
    UnlinkedKeeps(a, k, n);
    Relinked(data, side, head, a, k);
  }

  // The whole key area moves

  ghost predicate Moved(data: seq<byte>, data2: seq<byte>, lo: nat, hi: nat, inc: nat) {
    hi <= |data| && hi + inc <= |data2| && forall b :: lo <= b < hi ==> data2[b + inc] == data[b]
  }

  lemma {:induction false} ChainedMoved(data: seq<byte>, data2: seq<byte>, lo: nat, hi: nat, inc: nat, head: nat,
                                        segs: seq<Iv>)
    requires Chained(data, Keys(lo), head, segs) && Moved(data, data2, lo, hi, inc)
    requires forall k :: 0 <= k < |segs| ==> lo <= segs[k].off && segs[k].off + 4 <= hi
    ensures Chained(data2, Keys(lo + inc), head, Shift(segs, inc))
    decreases segs
  {
    if segs != [] {
      var o := segs[0].off;
      assert U16(data2, o + inc) == U16(data, o) by {
        assert data2[o + inc] == data[o];
        assert data2[(o + 1) + inc] == data[o + 1];
      }
      assert U16(data2, o + inc + 2) == U16(data, o + 2) by {
        assert data2[(o + 2) + inc] == data[o + 2];
        assert data2[(o + 3) + inc] == data[o + 3];
      }
      ChainedMoved(data, data2, lo, hi, inc, U16(data, o), segs[1..]);
      assert Shift(segs, inc)[1..] == Shift(segs[1..], inc);
    }
  }

  lemma FieldMoved(data: seq<byte>, data2: seq<byte>, lo: nat, hi: nat, inc: nat, x: Iv)
    requires Moved(data, data2, lo, hi, inc) && (x.len > 0 ==> lo <= x.off && x.off + x.len <= hi)
    ensures Field(data2, Iv(x.off + inc, x.len)) == Field(data, x)
  {
    if x.len > 0 {
      var s, t := data2[x.off + inc..x.off + inc + x.len], data[x.off..x.off + x.len];
      forall j | 0 <= j < x.len
        ensures s[j] == t[j]
      {
        assert data2[(x.off + j) + inc] == data[x.off + j];
      }
      assert s == t;
    }
  }

  lemma ListMoved(data: seq<byte>, head: nat, len: nat, a: Area, inc: nat)
    requires ListOk(data, Keys(a.lo), head, len, a) && a.hi + inc <= |data|
    ensures var data2 := Splice(data, a.lo + inc, data[a.lo..a.hi]);
      && ListOk(data2, Keys(a.lo + inc), head, len, a.Shifted(inc)) && Outside(data, data2, a.lo, a.hi + inc)
      && forall i :: 0 <= i < |a.live| ==> Field(data2, a.Shifted(inc).live[i]) == Field(data, a.live[i])
  {
    hide Area.ExactAt, Cover, SumLen, Chained;
    var data2 := Splice(data, a.lo + inc, data[a.lo..a.hi]);
    ShiftedKeeps(a, inc);
    assert Moved(data, data2, a.lo, a.hi, inc);
    forall k | 0 <= k < |a.segs|
      ensures a.lo <= a.segs[k].off && a.segs[k].off + 4 <= a.hi
    {
      InArea(a, a.segs[k]);
    }
    ChainedMoved(data, data2, a.lo, a.hi, inc, head, a.segs);
    forall i | 0 <= i < |a.live|
      ensures Field(data2, a.Shifted(inc).live[i]) == Field(data, a.live[i])
    {
      if a.live[i].len > 0 { InArea(a, a.live[i]); }
      FieldMoved(data, data2, a.lo, a.hi, inc, a.live[i]);
    }
  }

  // The walk over a list

  /** The next segment of the walk, or the end of the list. */
  lemma WalkStep(data: seq<byte>, side: Side, head: nat, len: nat, a: Area, k: nat, prev: nat)
    requires ListOk(data, side, head, len, a) && k <= |a.segs| && (k > 0 ==> prev == a.segs[k - 1].off)
    ensures k > 0 ==> prev + 2 <= |data|
    ensures 4 * |a.segs| <= |data|
    ensures var curr := if k == 0 then head else U16(data, prev);
      if k == |a.segs| then curr == BTOFF_INVALID
      else
        && curr != BTOFF_INVALID && side.Abs(curr) == a.segs[k].off && a.segs[k].off + 4 <= |data|
        && U16(data, a.segs[k].off + 2) == a.segs[k].len && a.segs[k].off + a.segs[k].len <= |data|
  {
    hide Area.ExactAt, Cover, SumLen;
    FewSegs(a.segs);
    if k > 0 {
      ChainedAt(data, side, head, a.segs, k - 1);
      assert a.segs[k - 1 + 1..] == a.segs[k..];
    } else {
      assert a.segs[k..] == a.segs;
    }
    if k < |a.segs| {
      ChainedAt(data, side, head, a.segs, k);
      InArea(a, a.segs[k]);
    }
  }

  lemma TooLittle(data: seq<byte>, side: Side, head: nat, len: nat, a: Area, n: nat)
    requires ListOk(data, side, head, len, a) && len < n
    ensures NoneHolds(a.segs, n)
  {
    hide Area.ExactAt, Cover, SumLen, Chained;
    forall k | 0 <= k < |a.segs|
      ensures a.segs[k].len < n
    {
      SegInSum(a.segs, k);
    }
  }

  // New keys and values

  lemma FieldWritten(data: seq<byte>, off: nat, s: seq<byte>)
    requires off + |s| <= |data|
    ensures Field(Splice(data, off, s), Iv(off, |s|)) == s
    ensures Outside(data, Splice(data, off, s), off, off + |s|)
  {
    SpliceOutside(data, off, s, off, off + |s|);
  }

  /** Space that was just allocated in one area is written. */
  lemma ExtraWritten(data: seq<byte>, data2: seq<byte>, side: Side, head: nat, len: nat, a: Area)
    requires ListOk(data, side, head, len, a) && Outside(data, data2, a.extra.off, a.extra.off + a.extra.len)
    ensures ListOk(data2, side, head, len, a) && SameFields(data, data2, a.live)
  {
    hide Area.ExactAt, Cover, SumLen, Chained;
    ClearExtra(a);
    ListFrame(data, data2, side, head, len, a, a.extra.off, a.extra.off + a.extra.len);
  }

  /** So it was in the other one. */
  lemma OtherWritten(data: seq<byte>, data2: seq<byte>, side: Side, head: nat, len: nat, a: Area, x: Iv)
    requires ListOk(data, side, head, len, a) && Outside(data, data2, x.off, x.off + x.len)
    requires x.len > 0 ==> x.off + x.len <= a.lo || a.hi <= x.off
    ensures ListOk(data2, side, head, len, a) && SameFields(data, data2, a.live + [a.extra])
  {
    hide Area.ExactAt, Cover, SumLen, Chained;
    if x.len > 0 { ClearOutside(a, x.off, x.off + x.len); }
    ListFrame(data, data2, side, head, len, a, x.off, x.off + x.len);
    if a.extra.len > 0 { InArea(a, a.extra); }
    FieldsFrame(data, data2, [a.extra], x.off, x.off + x.len);
  }
}
