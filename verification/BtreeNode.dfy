/** The records of a b-tree node in its block (node.c): space is taken from the gap in the
    middle or from the free lists, and everything is dealt out again when neither will do. */
module BtreeNode {
  import opened Bytes
  import opened NodeArea
  import opened NodeList

  /** An entry of the table of contents, with offsets relative to the two areas. */
  datatype Loc = Loc(koff: nat, klen: nat, voff: nat, vlen: nat)

  datatype Record = Record(key: seq<byte>, val: seq<byte>)

  datatype Status = Done | NoSpace | Corrupt

  /** The size of struct apfs_btree_node_phys. */
  const HEADER := 56

  /** The size of struct apfs_btree_info, the footer of a root. */
  const FOOTER := 40

  /** APFS_BTREE_TOC_ENTRY_INCREMENT */
  const INCREMENT := 8

  lemma SameAgain(d: seq<byte>, d2: seq<byte>, d3: seq<byte>, ivs: seq<Iv>)
    requires SameFields(d, d2, ivs) && SameFields(d2, d3, ivs)
    ensures SameFields(d, d3, ivs)
  {
    hide Field;
  }

  /** A record with a new key or a new value, or both. */
  function Replaced(recs: seq<Record>, i: nat, hasKey: bool, k: seq<byte>, hasVal: bool, v: seq<byte>): seq<Record>
    requires i < |recs|
  {
    recs[i := Record(if hasKey then k else recs[i].key, if hasVal then v else recs[i].val)]
  }

  /** One record has changed, and only what was meant to. */
  ghost predicate IsReplaced(recs: seq<Record>, i: nat, hasKey: bool, k: seq<byte>, hasVal: bool, v: seq<byte>,
                             t: seq<Record>) {
    && i < |recs| == |t| && (forall j :: 0 <= j < |t| && j != i ==> t[j] == recs[j])
    && t[i].key == (if hasKey then k else recs[i].key) && t[i].val == if hasVal then v else recs[i].val
  }

  lemma ReplacedIs(recs: seq<Record>, i: nat, hasKey: bool, k: seq<byte>, hasVal: bool, v: seq<byte>)
    requires i < |recs|
    ensures IsReplaced(recs, i, hasKey, k, hasVal, v, Replaced(recs, i, hasKey, k, hasVal, v))
  {
  }

  lemma SameItself(d: seq<byte>, ivs: seq<Iv>, ivs2: seq<Iv>)
    ensures SameFields(d, d, ivs) && SameFields(d, d, ivs2)
  {
  }

  lemma SamePart(d: seq<byte>, d2: seq<byte>, ivs: seq<Iv>, x: Iv)
    requires SameFields(d, d2, ivs + [x])
    ensures SameFields(d, d2, ivs) && Field(d2, x) == Field(d, x)
  {
    hide Field;
    var all := ivs + [x];
    assert forall i :: 0 <= i < |ivs| ==> all[i] == ivs[i];
    assert all[|ivs|] == x;
  }

  lemma NoField(d: seq<byte>, off: nat)
    ensures Field(d, Iv(off, 0)) == []
  {
  }

  lemma ShiftedHolds(segs: seq<Iv>, inc: nat, len: nat)
    ensures NoneHolds(Shift(segs, inc), len) <==> NoneHolds(segs, len)
  {
    assert forall k :: 0 <= k < |segs| ==> Shift(segs, inc)[k].len == segs[k].len;
  }

  // The table of contents

  function KeyIv(key: nat, l: Loc): Iv { Iv(key + l.koff, l.klen) }

  function ValIv(end: nat, l: Loc): Iv { Iv(if l.voff <= end then end - l.voff else 0, l.vlen) }

  function KeyIvs(key: nat, toc: seq<Loc>): (r: seq<Iv>)
    ensures |r| == |toc|
  {
    seq(|toc|, i requires 0 <= i < |toc| => KeyIv(key, toc[i]))
  }

  function ValIvs(end: nat, toc: seq<Loc>): (r: seq<Iv>)
    ensures |r| == |toc|
  {
    seq(|toc|, i requires 0 <= i < |toc| => ValIv(end, toc[i]))
  }

  function RecordAt(d: seq<byte>, key: nat, end: nat, l: Loc): Record {
    Record(Field(d, KeyIv(key, l)), Field(d, ValIv(end, l)))
  }

  function Records(d: seq<byte>, key: nat, end: nat, toc: seq<Loc>): (r: seq<Record>)
    ensures |r| == |toc|
  {
    seq(|toc|, i requires 0 <= i < |toc| => RecordAt(d, key, end, toc[i]))
  }

  lemma RecordsSame(d: seq<byte>, d2: seq<byte>, key: nat, end: nat, toc: seq<Loc>)
    requires SameFields(d, d2, KeyIvs(key, toc)) && SameFields(d, d2, ValIvs(end, toc))
    ensures Records(d2, key, end, toc) == Records(d, key, end, toc)
  {
    hide Field;
    forall i | 0 <= i < |toc|
      ensures RecordAt(d2, key, end, toc[i]) == RecordAt(d, key, end, toc[i])
    {
      assert KeyIvs(key, toc)[i] == KeyIv(key, toc[i]) && ValIvs(end, toc)[i] == ValIv(end, toc[i]);
    }
  }

  lemma RecordsShift(d: seq<byte>, d2: seq<byte>, key: nat, inc: nat, end: nat, toc: seq<Loc>)
    requires SameFields(d, d2, ValIvs(end, toc))
    requires forall i :: 0 <= i < |toc| ==> Field(d2, Shift(KeyIvs(key, toc), inc)[i]) == Field(d, KeyIvs(key, toc)[i])
    ensures Shift(KeyIvs(key, toc), inc) == KeyIvs(key + inc, toc)
    ensures Records(d2, key + inc, end, toc) == Records(d, key, end, toc)
  {
    hide Field;
    assert Shift(KeyIvs(key, toc), inc) == KeyIvs(key + inc, toc);
    forall i | 0 <= i < |toc|
      ensures RecordAt(d2, key + inc, end, toc[i]) == RecordAt(d, key, end, toc[i])
    {
      assert KeyIvs(key + inc, toc)[i] == KeyIv(key + inc, toc[i]) && ValIvs(end, toc)[i] == ValIv(end, toc[i]);
    }
  }

  function Put<T>(s: seq<T>, i: nat, x: T): (r: seq<T>)
    requires i <= |s|
    ensures |r| == |s| + 1
  {
    s[..i] + [x] + s[i..]
  }

  /** Something new between what was there. */
  ghost predicate IsPut<T>(s: seq<T>, i: nat, x: T, t: seq<T>) {
    |t| == |s| + 1 && i <= |s| && t[i] == x && t[..i] == s[..i] && t[i + 1..] == s[i..]
  }

  lemma PutIs<T>(s: seq<T>, i: nat, x: T)
    requires i <= |s|
    ensures IsPut(s, i, x, Put(s, i, x))
  {
  }

  lemma PutLast<T>(s: seq<T>, x: T)
    ensures Put(s, |s|, x) == s + [x]
  {
    assert s[..|s|] == s;
  }

  lemma TableInsert(key: nat, end: nat, toc: seq<Loc>, i: nat, l: Loc)
    requires i <= |toc|
    ensures KeyIvs(key, Put(toc, i, l)) == Inserted(KeyIvs(key, toc), i, KeyIv(key, l))
    ensures ValIvs(end, Put(toc, i, l)) == Inserted(ValIvs(end, toc), i, ValIv(end, l))
  {
  }

  lemma KeySet(key: nat, end: nat, toc: seq<Loc>, i: nat, n: nat)
    requires i < |toc|
    ensures KeyIvs(key, toc[i := toc[i].(klen := n)]) == KeyIvs(key, toc)[i := Iv(key + toc[i].koff, n)]
    ensures ValIvs(end, toc[i := toc[i].(klen := n)]) == ValIvs(end, toc)
  {
  }

  lemma ValSet(key: nat, end: nat, toc: seq<Loc>, i: nat, n: nat)
    requires i < |toc|
    ensures KeyIvs(key, toc[i := toc[i].(vlen := n)]) == KeyIvs(key, toc)
    ensures ValIvs(end, toc[i := toc[i].(vlen := n)]) == ValIvs(end, toc)[i := Iv(ValIv(end, toc[i]).off, n)]
  {
  }

  /** The replaced parts of a record are dropped first, if the node must be defragmented. */
  function Crushed(l: Loc, hasKey: bool, hasVal: bool): Loc {
    l.(klen := if hasKey then 0 else l.klen, vlen := if hasVal then 0 else l.vlen)
  }

  lemma TocSet(d: seq<byte>, key: nat, end: nat, toc: seq<Loc>, i: nat, l: Loc)
    requires i < |toc|
    ensures KeyIvs(key, toc[i := l]) == KeyIvs(key, toc)[i := KeyIv(key, l)]
    ensures ValIvs(end, toc[i := l]) == ValIvs(end, toc)[i := ValIv(end, l)]
    ensures Records(d, key, end, toc[i := l]) == Records(d, key, end, toc)[i := RecordAt(d, key, end, l)]
    ensures Records(d, key, end, toc)[i] == RecordAt(d, key, end, toc[i])
    ensures KeyIvs(key, toc)[i] == KeyIv(key, toc[i]) && ValIvs(end, toc)[i] == ValIv(end, toc[i])
  {
    hide RecordAt;
  }

  /** Nothing is read from a value that was dropped. */
  lemma DroppedValue(d: seq<byte>, d2: seq<byte>, key: nat, end: nat, toc: seq<Loc>, i: nat)
    requires i < |toc| && Records(d2, key, end, toc) == Records(d, key, end, toc)
    ensures var t := toc[i := toc[i].(vlen := 0)]; Records(d2, key, end, t) == Records(d, key, end, t)
  {
    hide Records;
    var l := toc[i].(vlen := 0);
    TocSet(d, key, end, toc, i, l);
    TocSet(d2, key, end, toc, i, l);
    NoField(d, ValIv(end, l).off);
    NoField(d2, ValIv(end, l).off);
  }

  /** What was not dropped is what it was. */
  lemma NotDropped(was: seq<byte>, now: seq<byte>, key: nat, end: nat, toc: seq<Loc>, i: nat,
                   hasKey: bool, k: seq<byte>, hasVal: bool, v: seq<byte>)
    requires i < |toc|
    requires var t := toc[i := Crushed(toc[i], hasKey, hasVal)]; Records(now, key, end, t) == Records(was, key, end, t)
    ensures Records(now, key, end, toc[i := Crushed(toc[i], hasKey, hasVal)])
        [i := Record(if hasKey then k else Field(now, KeyIv(key, toc[i])),
                     if hasVal then v else Field(now, ValIv(end, toc[i])))]
      == Replaced(Records(was, key, end, toc), i, hasKey, k, hasVal, v)
  {
    hide Records, Field, KeyIvs, ValIvs;
    var c := Crushed(toc[i], hasKey, hasVal);
    var t := toc[i := c];
    TocSet(was, key, end, toc, i, c);
    TocSet(was, key, end, t, i, c);
    TocSet(now, key, end, t, i, c);
  }

  lemma ReplacedDropped(d: seq<byte>, key: nat, end: nat, toc: seq<Loc>, i: nat,
                        hasKey: bool, k: seq<byte>, hasVal: bool, v: seq<byte>)
    requires i < |toc|
    ensures Replaced(Records(d, key, end, toc[i := Crushed(toc[i], hasKey, hasVal)]), i, hasKey, k, hasVal, v)
      == Replaced(Records(d, key, end, toc), i, hasKey, k, hasVal, v)
  {
    hide Records, Field, KeyIvs, ValIvs;
    TocSet(d, key, end, toc, i, Crushed(toc[i], hasKey, hasVal));
  }

  lemma DroppedIs(d: seq<byte>, key: nat, end: nat, toc: seq<Loc>, i: nat, hasKey: bool, hasVal: bool)
    requires i < |toc|
    ensures Records(d, key, end, toc[i := Crushed(toc[i], hasKey, hasVal)])
      == Replaced(Records(d, key, end, toc), i, hasKey, [], hasVal, [])
    ensures var r := Records(d, key, end, toc[i := Crushed(toc[i], hasKey, hasVal)])[i];
      (hasKey ==> r.key == []) && (hasVal ==> r.val == [])
  {
    hide Records, Field, KeyIvs, ValIvs;
    var c := Crushed(toc[i], hasKey, hasVal);
    TocSet(d, key, end, toc, i, c);
    NoField(d, KeyIv(key, c).off);
    NoField(d, ValIv(end, c).off);
  }

  /** A segment that is too short makes no difference. */
  lemma OneMore(segs: seq<Iv>, x: Iv, len: nat)
    requires x.len < len
    ensures NoneHolds([x] + segs, len) <==> NoneHolds(segs, len)
  {
    assert forall k :: 0 <= k < |segs| ==> ([x] + segs)[k + 1] == segs[k];
  }

  lemma SameCrushed(d: seq<byte>, d2: seq<byte>, ivs: seq<Iv>, i: nat, x: Iv)
    requires SameFields(d, d2, ivs) && i < |ivs| && x.len == 0
    ensures SameFields(d, d2, ivs[i := x])
  {
    NoField(d, x.off);
    NoField(d2, x.off);
  }

  lemma RecordsInsert(d: seq<byte>, key: nat, end: nat, toc: seq<Loc>, i: nat, l: Loc)
    requires i <= |toc|
    ensures Records(d, key, end, Put(toc, i, l)) == Put(Records(d, key, end, toc), i, RecordAt(d, key, end, l))
  {
    hide RecordAt;
  }

  /** The bytes that the keys take up. */
  function KeyBytes(toc: seq<Loc>): nat {
    if toc == [] then 0 else KeyBytes(toc[..|toc| - 1]) + toc[|toc| - 1].klen
  }

  function ValBytes(toc: seq<Loc>): nat {
    if toc == [] then 0 else ValBytes(toc[..|toc| - 1]) + toc[|toc| - 1].vlen
  }

  lemma {:induction false} BytesAre(key: nat, end: nat, toc: seq<Loc>)
    ensures SumLen(KeyIvs(key, toc)) == KeyBytes(toc) && SumLen(ValIvs(end, toc)) == ValBytes(toc)
  {
    if toc != [] {
      var n := |toc| - 1;
      assert KeyIvs(key, toc)[..n] == KeyIvs(key, toc[..n]) && ValIvs(end, toc)[..n] == ValIvs(end, toc[..n]);
      BytesAre(key, end, toc[..n]);
    }
  }

  lemma {:induction false} BytesUpTo(toc: seq<Loc>, n: nat)
    requires n <= |toc|
    ensures KeyBytes(toc[..n]) <= KeyBytes(toc) && ValBytes(toc[..n]) <= ValBytes(toc)
  {
    if n < |toc| {
      BytesUpTo(toc[..|toc| - 1], n);
      assert toc[..|toc| - 1][..n] == toc[..n];
    } else {
      assert toc[..n] == toc;
    }
  }

  lemma BytesSet(toc: seq<Loc>, i: nat, l: Loc)
    requires i < |toc|
    ensures KeyBytes(toc[i := l]) == KeyBytes(toc) - toc[i].klen + l.klen
    ensures ValBytes(toc[i := l]) == ValBytes(toc) - toc[i].vlen + l.vlen
  {
    hide KeyBytes, ValBytes, SumLen, Records;
    BytesAre(0, 0, toc);
    BytesAre(0, 0, toc[i := l]);
    TocSet([], 0, 0, toc, i, l);
    CoverUpdated(KeyIvs(0, toc), i, KeyIv(0, l), 0);
    CoverUpdated(ValIvs(0, toc), i, ValIv(0, l), 0);
  }

  function Cut<T>(s: seq<T>, i: nat): (r: seq<T>)
    requires i < |s|
    ensures |r| == |s| - 1
  {
    s[..i] + s[i + 1..]
  }

  lemma CutIs<T>(s: seq<T>, i: nat)
    requires i < |s|
    ensures IsPut(Cut(s, i), i, s[i], s)
  {
  }

  lemma TocCut(d: seq<byte>, key: nat, end: nat, toc: seq<Loc>, i: nat)
    requires i < |toc|
    ensures KeyIvs(key, Cut(toc, i)) == Without(KeyIvs(key, toc), i)
    ensures ValIvs(end, Cut(toc, i)) == Without(ValIvs(end, toc), i)
    ensures Records(d, key, end, Cut(toc, i)) == Cut(Records(d, key, end, toc), i)
    ensures KeyIvs(key, toc)[i] == KeyIv(key, toc[i]) && ValIvs(end, toc)[i] == ValIv(end, toc[i])
  {
    hide RecordAt;
  }

  lemma BytesCut(toc: seq<Loc>, i: nat)
    requires i < |toc|
    ensures KeyBytes(Cut(toc, i)) == KeyBytes(toc) - toc[i].klen && ValBytes(Cut(toc, i)) == ValBytes(toc) - toc[i].vlen
  {
    hide KeyBytes, ValBytes, SumLen, Records;
    BytesAre(0, 0, toc);
    BytesAre(0, 0, Cut(toc, i));
    TocCut([], 0, 0, toc, i);
    CoverWithout(KeyIvs(0, toc), i, 0);
    CoverWithout(ValIvs(0, toc), i, 0);
  }

  lemma {:induction false} BytesMost(toc: seq<Loc>, maxLen: nat)
    requires forall i :: 0 <= i < |toc| ==> toc[i].klen + toc[i].vlen <= maxLen
    ensures KeyBytes(toc) + ValBytes(toc) <= |toc| * maxLen
  {
    if toc != [] {
      var n := |toc| - 1;
      BytesMost(toc[..n], maxLen);
      assert (n + 1) * maxLen == n * maxLen + maxLen;
    }
  }

  lemma FewTimes(n: nat, m: nat)
    requires n < 4
    ensures n * m <= 3 * m
  {
    assert n == 0 || n == 1 || n == 2 || n == 3;
  }

  /** Every key and value is in the block. */
  predicate InBlock(size: nat, key: nat, end: nat, toc: seq<Loc>) {
    forall i :: 0 <= i < |toc| ==>
      && (toc[i].klen > 0 ==> KeyIv(key, toc[i]).off + toc[i].klen <= size)
      && (toc[i].vlen > 0 ==> ValIv(end, toc[i]).off + toc[i].vlen <= size)
  }

  lemma NextRecord(d: seq<byte>, key: nat, end: nat, toc: seq<Loc>, n: nat)
    requires n < |toc| && InBlock(|d|, key, end, toc)
    ensures Records(d, key, end, toc[..n + 1]) == Records(d, key, end, toc[..n]) + [RecordAt(d, key, end, toc[n])]
    ensures |Field(d, KeyIv(key, toc[n]))| == toc[n].klen && |Field(d, ValIv(end, toc[n]))| == toc[n].vlen
    ensures KeyBytes(toc[..n + 1]) == KeyBytes(toc[..n]) + toc[n].klen
    ensures ValBytes(toc[..n + 1]) == ValBytes(toc[..n]) + toc[n].vlen
  {
    assert toc[..n + 1][..n] == toc[..n];
    assert toc[..n + 1] == toc[..n] + [toc[n]];
  }

  class NodeBlock {
    const data: array<byte>
    const root: bool
    const fixed: bool
    const minTable: nat
    var toc: seq<Loc>
    var key: nat
    var free: nat
    var val: nat
    var keyListLen: nat
    var valListLen: nat
    var keyHead: nat
    var valHead: nat
    ghost var keys: Area
    ghost var vals: Area

    /** A node with no records, such as apfs_make_empty_btree_root() makes. */
    constructor (size: nat, root: bool, fixed: bool, minTable: nat)
      requires HEADER + minTable + FOOTER <= size <= MAX_BLOCK && minTable % (if fixed then 32 else 64) == 0
      ensures fresh(data) && Valid() && Contents() == []
      ensures this.root == root && this.fixed == fixed && this.minTable == minTable && data.Length == size
      ensures HasRoom(End() - HEADER - minTable, true)
    {
      data := new byte[size];
      this.root, this.fixed, this.minTable := root, fixed, minTable;
      toc, keyListLen, valListLen, keyHead, valHead := [], 0, 0, BTOFF_INVALID, BTOFF_INVALID;
      key, free := HEADER + minTable, HEADER + minTable;
      val := if root then size - FOOTER else size;
      keys := Area(HEADER + minTable, HEADER + minTable, [], [], [], NONE);
      var end := if root then size - FOOTER else size;
      vals := Area(end, end, [], [], [], NONE);
      new;
      NothingYet();
    }

    function End(): int { if root then data.Length - FOOTER else data.Length }

    /** Both areas are fully accounted for, and don't overlap. */
    ghost predicate Sound()
      reads this, data
    {
      && HEADER <= key == keys.lo <= free == keys.hi <= val == vals.lo <= vals.hi == End() <= data.Length
      && ListOk(data[..], Keys(key), keyHead, keyListLen, keys)
      && ListOk(data[..], Values(vals.hi), valHead, valListLen, vals)
    }

    ghost predicate SameRecords(was: seq<byte>)
      reads this, data
    {
      SameFields(was, data[..], keys.live) && SameFields(was, data[..], vals.live)
    }

    /** apfs_node_free_list_add() */
    method FreeListAdd(off: nat, len: nat, ghost value: bool)
      requires Sound() && (if value then vals.extra else keys.extra) == Iv(off, len)
      modifies this`keyListLen, this`valListLen, this`keyHead, this`valHead, this`keys, this`vals, data
      ensures Sound() && SameRecords(old(data[..]))
      ensures keys == if value then old(keys) else old(keys).Listed()
      ensures vals == if value then old(vals).Listed() else old(vals)
    {
      hide Area.Exact, Chained, ListOk, U16, Le16, Splice;
      ghost var was, keys0, vals0 := data[..], keys, vals;
      AreaOfExtra(value);
      if off >= val {
        valListLen := valListLen + len;
      } else {
        keyListLen := keyListLen + len;
      }
      if len < MIN_SEGMENT {
        if value { AddSmall(was, Values(vals.hi), valHead, old(valListLen), vals); }
        else { AddSmall(was, Keys(key), keyHead, old(keyListLen), keys); }
      } else if off >= val {
        AddLarge(was, Values(vals.hi), valHead, old(valListLen), vals);
        MemCopy(data, off, Le16(valHead) + Le16(len));
        valHead := End() - off;
        OtherArea(was, data[..], Keys(key), keyHead, keyListLen, keys, vals.lo, vals.hi);
      } else {
        AddLarge(was, Keys(key), keyHead, old(keyListLen), keys);
        MemCopy(data, off, Le16(keyHead) + Le16(len));
        keyHead := off - key;
        OtherArea(was, data[..], Values(vals.hi), valHead, valListLen, vals, keys.lo, keys.hi);
      }
      if value { vals := vals.Listed(); } else { keys := keys.Listed(); }
    }

    /** apfs_node_free_range() */
    method FreeRange(off: nat, len: nat, ghost value: bool)
      requires Sound() && (if value then vals.extra else keys.extra) == Iv(off, len)
      modifies this`keyListLen, this`valListLen, this`keyHead, this`valHead, this`keys, this`vals, data
      modifies this`free, this`val
      ensures Sound() && SameRecords(old(data[..]))
      ensures keys.live == old(keys.live) && (if value then keys == old(keys) else keys.extra.len == 0)
      ensures vals.live == old(vals.live) && (if value then vals.extra.len == 0 else vals == old(vals))
      ensures val == old(val) + (if value && off == old(val) then len else 0)
      ensures free == old(free) - (if !value && off + len == old(free) then len else 0)
      ensures keys.segs == old(keys.segs) || keys.segs == [Iv(off, len)] + old(keys.segs)
      ensures vals.segs == old(vals.segs) || vals.segs == [Iv(off, len)] + old(vals.segs)
    {
      hide Area.Exact, Chained;
      AreaOfExtra(value);
      if off == val {
        val := val + len;
        if value {
          CutDownKeeps(vals);
          vals := vals.CutDown();
        }
      } else if off + len == free {
        free := free - len;
        if !value {
          CutUpKeeps(keys);
          keys := keys.CutUp();
        }
      } else {
        FreeListAdd(off, len, value);
      }
    }

    /** apfs_node_free_list_unlink(): the head or the previous segment skips one. */
    method Unlink(first: bool, prev: nat, seg: nat, segLen: nat, value: bool, ghost k: nat, ghost len: nat)
      requires Sound() && (if value then vals else keys).extra.len == 0 && len <= segLen
      requires k < |(if value then vals else keys).segs| && (if value then vals else keys).segs[k] == Iv(seg, segLen)
      requires first <==> k == 0
      requires !first ==> prev == (if value then vals else keys).segs[k - 1].off
      modifies this`keyListLen, this`valListLen, this`keyHead, this`valHead, this`keys, this`vals, data
      ensures Sound()
      ensures SameFields(old(data[..]), data[..], old(keys.live)) && SameFields(old(data[..]), data[..], old(vals.live))
      ensures keys == if value then old(keys) else old(keys).Unlinked(k, len)
      ensures vals == if value then old(vals).Unlinked(k, len) else old(vals)
    {
      hide Area.Exact, Chained, ListOk, U16, Le16, Splice;
      ghost var was := data[..];
      if value {
        if first { UnlinkFirst(was, Values(vals.hi), valHead, valListLen, vals, len); }
        else { UnlinkNext(was, Values(vals.hi), valHead, valListLen, vals, k, len); }
        valListLen := valListLen - segLen;
      } else {
        if first { UnlinkFirst(was, Keys(key), keyHead, keyListLen, keys, len); }
        else { UnlinkNext(was, Keys(key), keyHead, keyListLen, keys, k, len); }
        keyListLen := keyListLen - segLen;
      }
      var next := U16(data[..], seg);
      if !first {
        MemCopy(data, prev, Le16(next));
        if value { OtherArea(was, data[..], Keys(key), keyHead, keyListLen, keys, vals.lo, vals.hi); }
        else { OtherArea(was, data[..], Values(vals.hi), valHead, valListLen, vals, keys.lo, keys.hi); }
      } else if value {
        valHead := next;
      } else {
        keyHead := next;
      }
      if value { vals := vals.Unlinked(k, len); } else { keys := keys.Unlinked(k, len); }
    }

    /** The last owner gives up its space. */
    ghost method Disown(value: bool)
      requires Sound() && (if value then vals else keys).extra.len == 0 && |(if value then vals else keys).live| > 0
      modifies this`keys, this`vals
      ensures Sound()
      ensures keys == if value then old(keys) else old(keys).Remove(|old(keys.live)| - 1)
      ensures vals == if value then old(vals).Remove(|old(vals.live)| - 1) else old(vals)
    {
      hide Area.Exact, Chained;
      if value {
        RemoveKeeps(vals, |vals.live| - 1);
        vals := vals.Remove(|vals.live| - 1);
      } else {
        RemoveKeeps(keys, |keys.live| - 1);
        keys := keys.Remove(|keys.live| - 1);
      }
    }

    method TakeSegment(first: bool, prev: nat, seg: nat, segLen: nat, len: nat, value: bool, ghost k: nat)
      requires Sound() && (if value then vals else keys).extra.len == 0 && len <= segLen
      requires k < |(if value then vals else keys).segs| && (if value then vals else keys).segs[k] == Iv(seg, segLen)
      requires first <==> k == 0
      requires !first ==> prev == (if value then vals else keys).segs[k - 1].off
      modifies this`keyListLen, this`valListLen, this`keyHead, this`valHead, this`keys, this`vals, data
      ensures Sound() && SameRecords(old(data[..]))
      ensures keys.live == old(keys.live) && (if value then keys == old(keys) else keys.extra == Iv(seg, len))
      ensures vals.live == old(vals.live) && (if value then vals.extra == Iv(seg, len) else vals == old(vals))
    {
      hide Area.Exact, Chained, ListOk, U16, Le16, Splice, Field;
      ghost var was, kl, vl := data[..], keys.live, vals.live;
      Unlink(first, prev, seg, segLen, value, k, len);
      ghost var mid := data[..];
      FreeListAdd(seg + len, segLen - len, value);
      Disown(value);
      assert kl == keys.live && vl == vals.live;
      SameAgain(was, mid, data[..], kl);
      SameAgain(was, mid, data[..], vl);
    }

    /** apfs_node_free_list_alloc(): the first segment of the list that is large enough. */
    method FreeListAlloc(len: nat, value: bool) returns (status: Status, off: nat)
      requires Sound() && (if value then vals else keys).extra.len == 0
      modifies this`keyListLen, this`valListLen, this`keyHead, this`valHead, this`keys, this`vals, data
      ensures Sound() && SameRecords(old(data[..])) && status != Corrupt
      ensures status == NoSpace <==> NoneHolds(old(if value then vals else keys).segs, len)
      ensures status == NoSpace ==> keys == old(keys) && vals == old(vals)
      ensures status == Done && value ==> keys == old(keys) && vals.live == old(vals.live) && vals.extra == Iv(off, len)
      ensures status == Done && !value ==>
        vals == old(vals) && keys.live == old(keys.live) && keys.extra == Iv(off, len)
    {
      hide Area.Exact, Chained, ListOk, U16, Le16, Splice, Field;
      ghost var d, a := data[..], if value then vals else keys;
      var side := if value then Values(End()) else Keys(key);
      var head := if value then valHead else keyHead;
      var listLen := if value then valListLen else keyListLen;
      off := 0;
      if listLen < len {
        TooLittle(d, side, head, listLen, a, len);
        return NoSpace, 0;
      }

      var first, bound := true, data.Length;
      var prev: nat := 0;
      status := Corrupt;
      ghost var k := 0;
      WalkStep(d, side, head, listLen, a, 0, 0);
      while bound > 0
        invariant Sound() && data[..] == d && keys == old(keys) && vals == old(vals)
        invariant k <= |a.segs| && bound == data.Length - k && (first <==> k == 0) &&
          (k > 0 ==> prev == a.segs[k - 1].off)
        invariant NoneHolds(a.segs[..k], len)
      {
        bound := bound - 1;
        WalkStep(d, side, head, listLen, a, k, prev);
        var curr := if first then head else U16(data[..], prev);
        if curr == BTOFF_INVALID {
          assert a.segs[..k] == a.segs;
          return NoSpace, 0;
        }
        var seg := side.Abs(curr);
        if seg + 4 > data.Length {
          break;
        }
        var segLen := U16(data[..], seg + 2);
        if segLen >= len {
          TakeSegment(first, prev, seg, segLen, len, value, k);
          return Done, seg;
        }
        first, prev, k := false, seg, k + 1;
      }
    }

    /** apfs_node_alloc_key() */
    method AllocKey(len: nat) returns (status: Status, off: nat)
      requires Sound() && keys.extra.len == 0
      modifies this`keyListLen, this`valListLen, this`keyHead, this`valHead, this`keys, this`vals, data
      modifies this`free
      ensures Sound() && SameRecords(old(data[..])) && status != Corrupt
      ensures status == NoSpace <==> old(free) + len > val && NoneHolds(old(keys.segs), len)
      ensures status == NoSpace ==> keys == old(keys)
      ensures status == Done ==> keys.live == old(keys.live) && keys.extra == Iv(off, len)
      ensures status == Done ==> key <= off && off + len <= free
      ensures vals == old(vals) && free == if old(free) + len <= val then old(free) + len else old(free)
    {
      hide Area.ExactAt, Cover, SumLen, Chained;
      if free + len <= val {
        GrowUpKeeps(keys, len);
        keys := keys.GrowUp(len);
        off := free;
        free := free + len;
        return Done, off;
      }
      status, off := FreeListAlloc(len, false);
      AreaOfExtra(false);
    }

    /** apfs_node_alloc_val() */
    method AllocVal(len: nat) returns (status: Status, off: nat)
      requires Sound() && vals.extra.len == 0
      modifies this`keyListLen, this`valListLen, this`keyHead, this`valHead, this`keys, this`vals, data
      modifies this`val
      ensures Sound() && SameRecords(old(data[..])) && status != Corrupt
      ensures status == NoSpace <==> free + len > old(val) && NoneHolds(old(vals.segs), len)
      ensures status == NoSpace ==> vals == old(vals)
      ensures status == Done ==> vals.live == old(vals.live) && vals.extra == Iv(off, len)
      ensures status == Done ==> off + len <= End()
      ensures keys == old(keys)
    {
      hide Area.ExactAt, Cover, SumLen, Chained;
      if free + len <= val {
        GrowDownKeeps(vals, len);
        vals := vals.GrowDown(len);
        val := val - len;
        return Done, val;
      }
      status, off := FreeListAlloc(len, true);
      AreaOfExtra(true);
    }

    // Records

    /** The table of contents agrees with the account. */
    ghost predicate Attached()
      reads this, data
    {
      Sound() && keys.live == KeyIvs(key, toc) && vals.live == ValIvs(vals.hi, toc)
    }

    /** What the node holds. */
    ghost function Contents(): seq<Record>
      requires End() >= 0
      reads this, data
    {
      Records(data[..], key, End(), toc)
    }

    method WriteKey(off: nat, k: seq<byte>)
      requires Sound() && keys.extra == Iv(off, |k|)
      modifies data
      ensures Sound() && SameRecords(old(data[..])) && Field(data[..], keys.extra) == k
    {
      hide Area.Exact, Chained, ListOk, Splice, Field;
      ghost var was := data[..];
      AreaOfExtra(false);
      NoField(was, off);
      if k == [] {
        return;
      }
      FieldWritten(was, off, k);
      MemCopy(data, off, k);
      ExtraWritten(was, data[..], Keys(key), keyHead, keyListLen, keys);
      OtherWritten(was, data[..], Values(vals.hi), valHead, valListLen, vals, keys.extra);
      SamePart(was, data[..], vals.live, vals.extra);
    }

    method WriteVal(off: nat, v: seq<byte>)
      requires Sound() && vals.extra == Iv(off, |v|)
      modifies data
      ensures Sound() && SameRecords(old(data[..])) && Field(data[..], vals.extra) == v
      ensures Field(data[..], keys.extra) == Field(old(data[..]), keys.extra)
    {
      hide Area.Exact, Chained, ListOk, Splice, Field;
      ghost var was := data[..];
      AreaOfExtra(true);
      NoField(was, off);
      if v == [] {
        return;
      }
      FieldWritten(was, off, v);
      MemCopy(data, off, v);
      ExtraWritten(was, data[..], Values(vals.hi), valHead, valListLen, vals);
      OtherWritten(was, data[..], Keys(key), keyHead, keyListLen, keys, vals.extra);
      SamePart(was, data[..], keys.live, keys.extra);
    }

    /** apfs_create_toc_entry() */
    method CreateTocEntry(index: nat, koff: nat, klen: nat, voff: nat, vlen: nat)
      requires Attached() && index <= |toc| && key <= koff && voff <= End()
      requires keys.extra == Iv(koff, klen) && vals.extra.len == vlen && (vlen > 0 ==> vals.extra.off == voff)
      modifies this`toc, this`keys, this`vals
      ensures Attached() && keys == old(keys).Own(index) && vals.extra == NONE && vals.segs == old(vals).segs
      ensures Contents() ==
        Put(old(Contents()), index, Record(Field(data[..], Iv(koff, klen)), Field(data[..], Iv(voff, vlen))))
      ensures toc == Put(old(toc), index, Loc(koff - key, klen, End() - voff, vlen))
    {
      hide Area.Exact, Chained, Field, Records, Put, KeyIvs, ValIvs;
      var l := Loc(koff - key, klen, End() - voff, vlen);
      if vlen == 0 { ZeroExtra(vals, Iv(voff, 0)); }
      vals := vals.(extra := Iv(voff, vlen));
      TableInsert(key, vals.hi, toc, index, l);
      RecordsInsert(data[..], key, vals.hi, toc, index, l);
      OwnKeeps(keys, index);
      OwnKeeps(vals, index);
      keys, vals := keys.Own(index), vals.Own(index);
      toc := Put(toc, index, l);
    }

    /** A record is written to the space allocated for it. */
    method PlaceRecord(index: nat, koff: nat, k: seq<byte>, hasVal: bool, voff: nat, v: seq<byte>)
      requires Attached() && index <= |toc| && (!hasVal ==> v == [])
      requires keys.extra == Iv(koff, |k|) && vals.extra.len == |v| && (hasVal ==> vals.extra.off == voff)
      requires key <= koff && voff <= End()
      modifies this`toc, this`keys, this`vals, data
      ensures Attached() && keys.extra == NONE == vals.extra && keys.segs == old(keys.segs) &&
        vals.segs == old(vals.segs)
      ensures Contents() == Put(old(Contents()), index, Record(k, v))
      ensures toc == Put(old(toc), index, Loc(koff - key, |k|, End() - voff, |v|))
    {
      hide Area.Exact, Chained, Field, KeyIvs, ValIvs, Records, ListOk, Put;
      ghost var was := data[..];
      WriteKey(koff, k);
      ghost var mid := data[..];
      if hasVal { WriteVal(voff, v); } else { NoField(mid, voff); }
      SameAgain(was, mid, data[..], keys.live);
      SameAgain(was, mid, data[..], vals.live);
      RecordsSame(was, data[..], key, vals.hi, toc);
      CreateTocEntry(index, koff, |k|, voff, |v|);
    }

    /** A record goes after all others, in the gap. */
    method AppendRecord(k: seq<byte>, v: seq<byte>)
      requires Attached() && keys.extra.len == 0 == vals.extra.len && free + |k| + |v| <= val
      modifies this`free, this`val, this`toc, this`keys, this`vals, data
      ensures Attached() && keys.extra == NONE == vals.extra && keys.segs == old(keys.segs) &&
        vals.segs == old(vals.segs)
      ensures free == old(free) + |k| && val == old(val) - |v|
      ensures Contents() == old(Contents()) + [Record(k, v)]
      ensures |toc| == |old(toc)| + 1
    {
      hide Area.ExactAt, Cover, SumLen, Chained, Field, Records, KeyIvs, ValIvs;
      GrowUpKeeps(keys, |k|);
      keys := keys.GrowUp(|k|);
      var koff := free;
      free := free + |k|;
      GrowDownKeeps(vals, |v|);
      vals := vals.GrowDown(|v|);
      val := val - |v|;
      PutLast(Contents(), Record(k, v));
      PlaceRecord(|toc|, koff, k, true, val, v);
    }

    // The size of the table

    function Entries(n: nat): nat { if fixed then 4 * n else 8 * n }

    /** How much the table grows at once. */
    function Step(): (r: nat)
      ensures r > 0
    {
      Entries(INCREMENT)
    }

    /** The size of the table for some records, if they are dealt out again. */
    function NewTable(n: nat): nat {
      if minTable < Entries(n) then Entries((n + INCREMENT - 1) / INCREMENT * INCREMENT) else minTable
    }

    /** The table of a node is made of whole increments. */
    predicate Aligned()
      reads this
    {
      && minTable % Step() == 0 && HEADER + minTable <= key && (key - HEADER) % Step() == 0
      && HEADER + Entries(|toc|) <= key
    }

    lemma NewTableFits()
      requires Aligned()
      ensures NewTable(|toc|) <= key - HEADER && NewTable(|toc|) % Step() == 0 && Entries(|toc|) <= NewTable(|toc|)
    {
      RoundedUp(|toc|);
      if minTable < Entries(|toc|) && NewTable(|toc|) > key - HEADER {
        assert NewTable(|toc|) - Step() < Entries(|toc|);
        Apart(NewTable(|toc|), key - HEADER);
      }
    }

    /** A defragmentation never needs a larger table than the node has exactly when that
        table has the least size, or is made of whole increments. */
    lemma TableIff(table: nat)
      requires minTable <= table && table % Entries(1) == 0
      ensures (forall n: nat :: Entries(n) <= table ==> NewTable(n) <= table)
        <==> table == minTable || table % Step() == 0
    {
      hide NewTable, Entries, Step;
      if table == minTable || table % Step() == 0 {
        forall n: nat | Entries(n) <= table
          ensures NewTable(n) <= table
        {
          SmallTable(table, n);
        }
      } else {
        var n := LargeTable(table);
        assert Entries(n) <= table && NewTable(n) > table;
      }
    }

    lemma SmallTable(table: nat, n: nat)
      requires minTable <= table && Entries(n) <= table && (table == minTable || table % Step() == 0)
      ensures NewTable(n) <= table
    {
      hide Entries, Step;
      RoundedUp(n);
      if minTable < Entries(n) && table < NewTable(n) { Apart(NewTable(n), table); }
    }

    /** As many records as fit in a table of some other size need a larger one. */
    lemma LargeTable(table: nat) returns (n: nat)
      requires minTable < table && table % Entries(1) == 0 && table % Step() != 0
      ensures Entries(n) == table < NewTable(n)
    {
      n := if fixed then table / 4 else table / 8;
      assert Entries(n) == table by { hide NewTable; }
      RoundedUp(n);
      LargerTable(n, table);
    }

    lemma LargerTable(n: nat, table: nat)
      requires Entries(n) == table > minTable && table % Step() != 0
      requires var r := Entries((n + INCREMENT - 1) / INCREMENT * INCREMENT); r % Step() == 0 && table <= r
      ensures table < NewTable(n)
    {
      hide Entries, Step;
    }

    /** Tables of different sizes are at least an increment apart. */
    lemma Apart(m: nat, n: nat)
      requires m % Step() == 0 == n % Step() && n < m
      ensures n + Step() <= m
    {
      if fixed { assert Step() == 32; } else { assert Step() == 64; }
    }

    lemma RoundedUp(n: nat)
      ensures var r := Entries((n + INCREMENT - 1) / INCREMENT * INCREMENT);
        r % Step() == 0 && Entries(n) <= r < Entries(n) + Step()
    {
      var q := (n + INCREMENT - 1) / INCREMENT;
      assert n <= q * INCREMENT < n + INCREMENT;
      WholeSteps(q);
    }

    lemma WholeSteps(q: nat)
      ensures Entries(q * INCREMENT) % Step() == 0
    {
      if fixed {
        assert Entries(q * INCREMENT) == 32 * q && (32 * q) % 32 == 0;
      } else {
        assert Entries(q * INCREMENT) == 64 * q && (64 * q) % 64 == 0;
      }
    }

    /** The node can be emptied and some records put there. */
    predicate Takes(toc: seq<Loc>) {
      && 0 <= End() <= data.Length <= MAX_BLOCK
      && HEADER + NewTable(|toc|) + KeyBytes(toc) + ValBytes(toc) <= End()
    }

    /** apfs_copy_record_range() */
    method CopyRecordRange(src: seq<byte>, srcKey: nat, srcEnd: nat, srcToc: seq<Loc>, start: nat, end: nat)
      requires start <= end <= |srcToc| && Takes(srcToc[start..end]) &&
        InBlock(|src|, srcKey, srcEnd, srcToc[start..end])
      requires toc == [] && keyListLen == 0 == valListLen && keyHead == BTOFF_INVALID == valHead
      modifies this`key, this`free, this`val, this`toc, this`keys, this`vals, data
      ensures Attached() && keys.extra == NONE == vals.extra && keys.segs == [] == vals.segs
      ensures Contents() == Records(src, srcKey, srcEnd, srcToc[start..end])
      ensures key == HEADER + NewTable(end - start)
      ensures free == key + KeyBytes(srcToc[start..end]) && val == End() - ValBytes(srcToc[start..end])
    {
      hide Area.Exact, Chained, Field, Records, ListOk, KeyBytes, ValBytes, NewTable, InBlock, KeyIvs, ValIvs;
      ghost var part := srcToc[start..end];
      key := HEADER + NewTable(end - start);
      free := key;
      val := End();
      keys, vals := Area(key, key, [], [], [], NONE), Area(val, val, [], [], [], NONE);
      NothingYet();
      assert part[..0] == [];
      var i := start;
      while i < end
        invariant start <= i <= end && |toc| == i - start
        invariant Attached() && keys.extra == NONE == vals.extra && keys.segs == [] == vals.segs
        invariant Contents() == Records(src, srcKey, srcEnd, part[..i - start])
        invariant key == HEADER + NewTable(end - start)
        invariant free == key + KeyBytes(part[..i - start]) && val == End() - ValBytes(part[..i - start])
      {
        var l := srcToc[i];
        BytesUpTo(part, i - start + 1);
        NextRecord(src, srcKey, srcEnd, part, i - start);
        AppendRecord(Field(src, KeyIv(srcKey, l)), Field(src, ValIv(srcEnd, l)));
        i := i + 1;
      }
      assert part[..end - start] == part;
    }

    lemma NothingYet()
      requires HEADER <= key == free <= val == End() <= data.Length <= MAX_BLOCK && toc == []
      requires keyListLen == 0 == valListLen && keyHead == BTOFF_INVALID == valHead
      requires keys == Area(key, key, [], [], [], NONE) && vals == Area(val, val, [], [], [], NONE)
      ensures Attached() && Contents() == [] && KeyBytes([]) == 0 == ValBytes([])
    {
      assert forall b: nat :: keys.ExactAt(b) && vals.ExactAt(b);
    }

    ghost predicate Valid()
      reads this, data
    {
      Attached() && Aligned() && keys.extra.len == 0 == vals.extra.len
    }

    /** The records can be dealt out again. */
    ghost predicate Copyable()
      reads this, data
    {
      && minTable % Step() == 0 && Takes(toc) && InBlock(data.Length, key, End(), toc)
    }

    /** apfs_defragment_node(). The heads of the lists are reset by apfs_update_node(). */
    method Defragment()
      requires Copyable()
      modifies this, data
      ensures Valid() && Contents() == old(Contents())
      ensures keys.segs == [] == vals.segs && |toc| == |old(toc)|
      ensures key == HEADER + NewTable(|toc|) && val - free == End() - key - KeyBytes(old(toc)) - ValBytes(old(toc))
    {
      hide Area.Exact, Chained, Field, ListOk, KeyBytes, ValBytes, InBlock, KeyIvs, ValIvs, Records;
      var src, srcKey, srcToc := data[..], key, toc;
      toc, keyListLen, valListLen, keyHead, valHead := [], 0, 0, BTOFF_INVALID, BTOFF_INVALID;
      assert srcToc[0..|srcToc|] == srcToc;
      CopyRecordRange(src, srcKey, End(), srcToc, 0, |srcToc|);
      RoundedUp(|toc|);
    }

    /** The table grows, and the keys move up. */
    method ExpandTable()
      requires Attached() && keys.extra.len == 0 == vals.extra.len && free + Step() <= val
      modifies this`key, this`free, this`keys, data
      ensures Attached() && Contents() == old(Contents())
      ensures key == old(key) + Step() && free == old(free) + Step() && keys == old(keys).Shifted(Step())
    {
      hide Area.Exact, Chained, Field, Splice, Shift, KeyIvs, ValIvs, Records;
      ghost var was, a := data[..], keys;
      var inc := Step();
      ListMoved(was, keyHead, keyListLen, keys, inc);
      MemMove(data, key + inc, key, free - key);
      OtherArea(was, data[..], Values(vals.hi), valHead, valListLen, vals, key, free + inc);
      RecordsShift(was, data[..], key, inc, vals.hi, toc);
      key, free := key + inc, free + inc;
      keys := keys.Shifted(inc);
    }

    // Insertion

    predicate TableFull()
      reads this
    {
      HEADER + Entries(|toc| + 1) > key
    }

    /** apfs_node_has_room() */
    predicate HasRoom(length: int, replace: bool)
      reads this
    {
      val - free + keyListLen + valListLen >= length + if !replace && TableFull() then Step() else 0
    }

    /** A new record can be put in without a defragmentation. */
    ghost predicate AtOnce(klen: nat, vlen: nat)
      reads this
    {
      var gap := val - free - if TableFull() then Step() else 0;
      && 0 <= gap && (klen <= gap || !NoneHolds(keys.segs, klen))
      && (vlen <= (if klen <= gap then gap - klen else gap) || !NoneHolds(vals.segs, vlen))
    }

    /** A new record can be put in after a defragmentation. */
    predicate FitsAfter(toc: seq<Loc>, length: nat) {
      var n := |toc|;
      HEADER + NewTable(n) + KeyBytes(toc) + ValBytes(toc) + length
        + (if Entries(n + 1) > NewTable(n) then Step() else 0) <= End()
    }

    /** The free space is all that is not in use. */
    lemma RoomIs()
      requires Attached() && keys.extra.len == 0 == vals.extra.len
      ensures val - free + keyListLen + valListLen == End() - key - KeyBytes(toc) - ValBytes(toc)
    {
      hide Area.ExactAt, Chained, Cover, KeyBytes, ValBytes;
      BytesAre(key, vals.hi, toc);
    }

    /** Room as reported is room after a defragmentation. */
    lemma RoomFits(length: nat)
      requires Valid() && HasRoom(length, false)
      ensures FitsAfter(toc, length)
    {
      hide Attached, KeyBytes, ValBytes, NewTable;
      RoomIs();
      NewTableFits();
      var n := |toc|;
      if Entries(n + 1) > NewTable(n) && Entries(n + 1) <= key - HEADER {
        Apart(key - HEADER, NewTable(n));
      }
    }

    /** A node that is called full has at least four records, if they are not too large and
        neither is its table. */
    lemma FullMeansMany(maxLen: nat, length: int, replace: bool)
      requires Valid() && length <= maxLen && !HasRoom(length, replace)
      requires forall i :: 0 <= i < |toc| ==> toc[i].klen + toc[i].vlen <= maxLen
      requires key + Step() + 4 * maxLen <= End()
      ensures |toc| >= 4
    {
      hide Attached, Aligned, KeyBytes, ValBytes;
      RoomIs();
      BytesMost(toc, maxLen);
      if |toc| < 4 { FewTimes(|toc|, maxLen); }
    }

    lemma CanDefragment()
      requires Attached() && Aligned()
      ensures Copyable()
    {
      hide Area.ExactAt, Chained, Cover, KeyBytes, ValBytes, NewTable, SumLen;
      NewTableFits();
      BytesAre(key, vals.hi, toc);
      forall i | 0 <= i < |toc|
        ensures toc[i].klen > 0 ==> KeyIv(key, toc[i]).off + toc[i].klen <= data.Length
        ensures toc[i].vlen > 0 ==> ValIv(End(), toc[i]).off + toc[i].vlen <= data.Length
      {
        assert KeyIv(key, toc[i]) == keys.live[i] && ValIv(End(), toc[i]) == vals.live[i];
        if toc[i].klen > 0 { InArea(keys, keys.live[i]); }
        if toc[i].vlen > 0 { InArea(vals, vals.live[i]); }
      }
    }

    /** Space for the new key and value is allocated. */
    method AllocRecord(klen: nat, hasVal: bool, vlen: nat) returns (ok: bool, koff: nat, voff: nat)
      requires Attached() && keys.extra.len == 0 == vals.extra.len && (!hasVal ==> vlen == 0)
      modifies this`keyListLen, this`valListLen, this`keyHead, this`valHead, this`keys, this`vals, this`free,
        this`val, data
      ensures Attached() && Contents() == old(Contents())
      ensures var gap := old(val - free);
        ok <==> && (klen <= gap || !NoneHolds(old(keys.segs), klen))
                && (vlen <= (if klen <= gap then gap - klen else gap) || !NoneHolds(old(vals.segs), vlen))
      ensures ok ==> keys.extra == Iv(koff, klen) && vals.extra.len == vlen && (hasVal ==> vals.extra.off == voff)
      ensures ok ==> key <= koff && voff <= End()
    {
      hide Area.Exact, Chained, Field, KeyIvs, ValIvs, Records, ListOk, NoneHolds;
      ghost var was := data[..];
      var status;
      voff := 0;
      status, koff := AllocKey(klen);
      RecordsSame(was, data[..], key, vals.hi, toc);
      if status != Done {
        return false, 0, 0;
      }
      if hasVal {
        ghost var mid := data[..];
        status, voff := AllocVal(vlen);
        RecordsSame(mid, data[..], key, vals.hi, toc);
      }
      ok := status == Done;
    }

    /** One attempt at an insertion. */
    method TryInsert(index: nat, k: seq<byte>, hasVal: bool, v: seq<byte>) returns (ok: bool)
      requires Valid() && index <= |toc| && (!hasVal ==> v == [])
      modifies this, data
      ensures ok <==> old(AtOnce(|k|, |v|))
      ensures ok ==> Valid() && Contents() == Put(old(Contents()), index, Record(k, v))
      ensures !ok ==> Attached() && Aligned() && Contents() == old(Contents()) && toc == old(toc)
    {
      hide Area.Exact, Chained, Field, KeyIvs, ValIvs, Records, ListOk, NoneHolds, Put, Shift;
      if TableFull() {
        if free + Step() > val {
          return false;
        }
        ShiftedHolds(keys.segs, Step(), |k|);
        StepMore();
        ExpandTable();
      }
      var koff, voff;
      ok, koff, voff := AllocRecord(|k|, hasVal, |v|);
      if ok {
        PlaceRecord(index, koff, k, hasVal, voff, v);
      }
    }

    /** apfs_node_insert(). A node with enough room always takes the record. */
    method Insert(index: nat, k: seq<byte>, hasVal: bool, v: seq<byte>) returns (status: Status)
      requires Valid() && index <= |toc| && (!hasVal ==> v == [])
      modifies this, data
      ensures old(HasRoom(|k| + |v|, false)) ==> status == Done
      ensures status == Done <==> old(AtOnce(|k|, |v|)) || FitsAfter(old(toc), |k| + |v|)
      ensures status == Done ==> Valid() && Contents() == Put(old(Contents()), index, Record(k, v))
      ensures status == Done ==> IsPut(old(Contents()), index, Record(k, v), Contents())
      ensures status != Done ==> status == Corrupt && Attached() && Aligned() && Contents() == old(Contents())
    {
      hide Attached, Aligned, Records, Put, IsPut, KeyBytes, ValBytes, NewTable, Entries, FitsAfter, Copyable;
      if HasRoom(|k| + |v|, false) { RoomFits(|k| + |v|); }
      EndOk();
      PutIs(Contents(), index, Record(k, v));
      ghost var was := toc;
      var ok := TryInsert(index, k, hasVal, v);
      if !ok {
        CanDefragment();
        Defragment();
        OnlyGap(|k|, |v|, was);
        ok := TryInsert(index, k, hasVal, v);
      }
      status := if ok then Done else Corrupt;
    }

    lemma EndOk()
      requires Valid()
      ensures End() >= 0
    {
      hide Area.Exact, Chained, ListOk;
    }

    /** There is only the gap after a defragmentation. */
    lemma OnlyGap(klen: nat, vlen: nat, was: seq<Loc>)
      requires keys.segs == [] == vals.segs && |toc| == |was| && key == HEADER + NewTable(|toc|)
      requires val - free == End() - key - KeyBytes(was) - ValBytes(was)
      ensures AtOnce(klen, vlen) <==> FitsAfter(was, klen + vlen)
    {
      hide KeyBytes, ValBytes, NewTable;
    }

    lemma StepMore()
      requires Aligned() && TableFull()
      ensures (key + Step() - HEADER) % Step() == 0 && HEADER + Entries(|toc| + 1) <= key + Step()
    {
      var n := key - HEADER;
      if fixed { assert (n + 32) % 32 == n % 32; } else { assert (n + 64) % 64 == n % 64; }
    }

    // Replacement

    /** The account is that of another table of contents. */
    ghost predicate AttachedTo(t: seq<Loc>)
      reads this, data
    {
      Sound() && keys.live == KeyIvs(key, t) && vals.live == ValIvs(vals.hi, t)
    }

    ghost method FillKey(i: nat)
      requires Sound() && i < |keys.live| && keys.live[i].len == 0
      modifies this`keys
      ensures Sound() && keys == old(keys).Fill(i)
    {
      hide Area.Exact, Chained;
      FillKeeps(keys, i);
      keys := keys.Fill(i);
    }

    ghost method FillVal(i: nat)
      requires Sound() && i < |vals.live| && vals.live[i].len == 0
      modifies this`vals
      ensures Sound() && vals == old(vals).Fill(i)
    {
      hide Area.Exact, Chained;
      FillKeeps(vals, i);
      vals := vals.Fill(i);
    }

    ghost method ShrinkLiveKey(i: nat, len: nat)
      requires Sound() && keys.extra.len == 0 && i < |keys.live| && len <= keys.live[i].len
      modifies this`keys
      ensures Sound() && keys == old(keys).Shrink(i, len)
    {
      hide Area.Exact, Chained;
      ShrinkKeeps(keys, i, len);
      keys := keys.Shrink(i, len);
    }

    ghost method ShrinkLiveVal(i: nat, len: nat)
      requires Sound() && vals.extra.len == 0 && i < |vals.live| && len <= vals.live[i].len
      modifies this`vals
      ensures Sound() && vals == old(vals).Shrink(i, len)
    {
      hide Area.Exact, Chained;
      ShrinkKeeps(vals, i, len);
      vals := vals.Shrink(i, len);
    }

    /** The gap, once the space of a key is given up. */
    function KeyFreed(off: nat, klen: nat): int
      reads this
    {
      val - free + if off + klen == free then klen else 0
    }

    /** The gap, once there is space for another key. */
    function KeyResized(off: nat, klen: nat, len: nat): int
      reads this
    {
      if len <= klen then val - free + (if off + klen == free then klen - len else 0)
      else KeyFreed(off, klen) - if len <= KeyFreed(off, klen) then len else 0
    }

    /** A record can be replaced without a defragmentation. */
    ghost predicate ReplacedAtOnce(l: Loc, hasKey: bool, klen: nat, hasVal: bool, vlen: nat)
      requires End() >= 0
      reads this
    {
      var gap := if hasKey then KeyResized(key + l.koff, l.klen, klen) else val - free;
      && (hasKey ==> klen <= l.klen || klen <= KeyFreed(key + l.koff, l.klen) || !NoneHolds(keys.segs, klen))
      && (hasVal ==>
        || vlen <= l.vlen || !NoneHolds(vals.segs, vlen)
        || vlen <= gap + if ValIv(End(), l).off == val then l.vlen else 0)
    }

    /** A record can be replaced after a defragmentation, which leaves out what it had. */
    predicate ReplacedAfter(toc: seq<Loc>, i: nat, hasKey: bool, klen: nat, hasVal: bool, vlen: nat)
      requires i < |toc|
    {
      var t := toc[i := Crushed(toc[i], hasKey, hasVal)];
      HEADER + NewTable(|toc|) + KeyBytes(t) + ValBytes(t) + (if hasKey then klen else 0) + (if hasVal then vlen else 0)
        <= End()
    }

    /** Space for a new key takes the place of the old one. */
    method ResizeKey(off: nat, klen: nat, len: nat, ghost t: seq<Loc>, ghost i: nat) returns (ok: bool, koff: nat)
      requires AttachedTo(t) && keys.extra.len == 0 && i < |t| && KeyIv(key, t[i]) == Iv(off, klen)
      modifies this`keyListLen, this`valListLen, this`keyHead, this`valHead, this`keys, this`vals, this`free,
        this`val, data
      ensures vals == old(vals) && AttachedTo(t[i := t[i].(klen := 0)])
      ensures SameRecords(old(data[..]))
      ensures ok ==> keys.extra == Iv(koff, len) && key <= koff && (len <= klen ==> koff == off)
      ensures ok <==> len <= klen || len <= old(KeyFreed(off, klen)) || !NoneHolds(old(keys.segs), len)
      ensures val - free == old(KeyResized(off, klen, len))
    {
      hide Area.Exact, Chained, Field, ListOk, NoneHolds, SameFields;
      ghost var was := data[..];
      KeySet(key, vals.hi, t, i, 0);
      if len <= klen {
        KeySet(key, vals.hi, t, i, len);
        ShrinkLiveKey(i, len);
        FreeRange(off + len, klen - len, false);
        SameCrushed(was, data[..], keys.live, i, Iv(off, 0));
        ShrinkLiveKey(i, 0);
        koff := off;
        ok := true;
      } else {
        ShrinkLiveKey(i, 0);
        OneMore(keys.segs, Iv(off, klen), len);
        FreeRange(off, klen, false);
        ghost var mid := data[..];
        var status;
        status, koff := AllocKey(len);
        SameAgain(was, mid, data[..], keys.live);
        SameAgain(was, mid, data[..], vals.live);
        ok := status == Done;
      }
    }

    method ResizeVal(off: nat, vlen: nat, len: nat, ghost t: seq<Loc>, ghost i: nat) returns (ok: bool, voff: nat)
      requires AttachedTo(t) && vals.extra.len == 0 && i < |t| && ValIv(vals.hi, t[i]) == Iv(off, vlen)
      modifies this`keyListLen, this`valListLen, this`keyHead, this`valHead, this`keys, this`vals, this`free,
        this`val, data
      ensures keys == old(keys) && AttachedTo(t[i := t[i].(vlen := 0)])
      ensures SameRecords(old(data[..]))
      ensures ok ==> vals.extra == Iv(voff, len) && voff <= End() && (len <= vlen ==> voff == off)
      ensures var gap := old(val - free + if off == val then vlen else 0);
        ok <==> len <= vlen || len <= gap || !NoneHolds(old(vals.segs), len)
    {
      hide Area.Exact, Chained, Field, ListOk, NoneHolds, SameFields;
      ghost var was := data[..];
      ValSet(key, vals.hi, t, i, 0);
      if len <= vlen {
        ValSet(key, vals.hi, t, i, len);
        ShrinkLiveVal(i, len);
        FreeRange(off + len, vlen - len, true);
        SameCrushed(was, data[..], vals.live, i, Iv(off, 0));
        ShrinkLiveVal(i, 0);
        voff := off;
        ok := true;
      } else {
        ShrinkLiveVal(i, 0);
        OneMore(vals.segs, Iv(off, vlen), len);
        FreeRange(off, vlen, true);
        ghost var mid := data[..];
        var status;
        status, voff := AllocVal(len);
        SameAgain(was, mid, data[..], keys.live);
        SameAgain(was, mid, data[..], vals.live);
        ok := status == Done;
      }
    }

    /** The new key and value are written, and the table updated. */
    method UpdateEntry(index: nat, hasKey: bool, koff: nat, k: seq<byte>, hasVal: bool, voff: nat, v: seq<byte>)
      requires index < |toc| && AttachedTo(toc[index := Crushed(toc[index], hasKey, hasVal)])
      requires if hasKey then keys.extra == Iv(koff, |k|) && key <= koff else keys.extra.len == 0
      requires if hasVal then vals.extra == Iv(voff, |v|) && voff <= End() else vals.extra.len == 0
      modifies this`toc, this`keys, this`vals, data
      ensures Attached() && keys.extra.len == 0 == vals.extra.len && |toc| == |old(toc)|
      ensures Contents() ==
        Records(old(data[..]), key, vals.hi, old(toc)[index := Crushed(old(toc)[index], hasKey, hasVal)])
        [index := Record(if hasKey then k else Field(old(data[..]), KeyIv(key, old(toc)[index])),
                         if hasVal then v else Field(old(data[..]), ValIv(vals.hi, old(toc)[index])))]
    {
      hide Area.Exact, Chained, Field, ListOk, KeyIvs, ValIvs, Records, SameFields;
      ghost var was, l, c := data[..], toc[index], Crushed(toc[index], hasKey, hasVal);
      ghost var t := toc[index := c];
      if hasKey { WriteKey(koff, k); } else { SameItself(was, keys.live, vals.live); }
      ghost var mid := data[..];
      if hasVal { WriteVal(voff, v); } else { SameItself(mid, keys.live, vals.live); }
      SameAgain(was, mid, data[..], keys.live);
      SameAgain(was, mid, data[..], vals.live);
      RecordsSame(was, data[..], key, vals.hi, t);
      TocSet(was, key, vals.hi, t, index, c);
      TocSet(data[..], key, vals.hi, t, index, c);

      var entry := Loc(if hasKey then koff - key else toc[index].koff, if hasKey then |k| else toc[index].klen,
                       if hasVal then End() - voff else toc[index].voff, if hasVal then |v| else toc[index].vlen);
      TocSet(data[..], key, vals.hi, t, index, entry);
      assert toc[index := entry] == t[index := entry];
      toc := toc[index := entry];
      if hasKey { FillKey(index); }
      if hasVal { FillVal(index); }
    }

    /** One attempt at a replacement. */
    method TryReplace(index: nat, hasKey: bool, k: seq<byte>, hasVal: bool, v: seq<byte>) returns (ok: bool)
      requires Valid() && index < |toc|
      modifies this, data
      ensures ok ==> Valid() && Contents() == Replaced(old(Contents()), index, hasKey, k, hasVal, v)
      ensures !ok ==> toc == old(toc) && key == old(key)
      ensures !ok ==> var t := toc[index := Crushed(toc[index], hasKey, hasVal)];
        Records(data[..], key, End(), t) == Records(old(data[..]), key, End(), t)
      ensures ok <==> old(ReplacedAtOnce(toc[index], hasKey, |k|, hasVal, |v|))
    {
      hide Area.Exact, Chained, Field, ListOk, KeyIvs, ValIvs, Records, SameFields, NoneHolds, KeyFreed, KeyResized;
      hide Replaced, RecordAt;
      ghost var was, t := data[..], toc;
      var l, koff: nat, voff: nat := toc[index], 0, 0;
      TocSet(was, key, vals.hi, toc, index, Crushed(l, hasKey, hasVal));
      if hasKey {
        ok, koff := ResizeKey(key + l.koff, l.klen, |k|, toc, index);
        t := toc[index := l.(klen := 0)];
        RecordsSame(was, data[..], key, vals.hi, t);
        if !ok {
          if hasVal { DroppedValue(was, data[..], key, vals.hi, t, index); }
          assert t[index := l.(klen := 0, vlen := 0)] == toc[index := l.(klen := 0, vlen := 0)];
          return;
        }
      }
      if hasVal {
        ghost var mid := data[..];
        ok, voff := ResizeVal(ValIv(End(), l).off, l.vlen, |v|, t, index);
        DroppedValue(was, mid, key, vals.hi, t, index);
        t := t[index := t[index].(vlen := 0)];
        RecordsSame(mid, data[..], key, vals.hi, t);
        assert t == toc[index := Crushed(l, hasKey, hasVal)];
        if !ok {
          return;
        }
      }
      NotDropped(was, data[..], key, vals.hi, toc, index, hasKey, k, hasVal, v);
      UpdateEntry(index, hasKey, koff, k, hasVal, voff, v);
      ok := true;
    }

    /** What a replacement adds to the node. */
    function Growth(l: Loc, hasKey: bool, klen: nat, hasVal: bool, vlen: nat): int {
      (if hasKey then klen - l.klen else 0) + (if hasVal then vlen - l.vlen else 0)
    }

    /** A replacement can be done after a defragmentation. */
    lemma ReplaceFits(i: nat, hasKey: bool, klen: nat, hasVal: bool, vlen: nat)
      requires Valid() && i < |toc|
      ensures var t := toc[i := Crushed(toc[i], hasKey, hasVal)];
        && minTable % Step() == 0 && 0 <= End() && Takes(t) && InBlock(data.Length, key, End(), t)
        && (HasRoom(Growth(toc[i], hasKey, klen, hasVal, vlen), true) ==>
          ReplacedAfter(toc, i, hasKey, klen, hasVal, vlen))
    {
      hide Attached, KeyBytes, ValBytes, NewTable;
      RoomIs();
      NewTableFits();
      CanDefragment();
      BytesSet(toc, i, Crushed(toc[i], hasKey, hasVal));
    }

    /** There is only the gap after a defragmentation, and nothing of what is replaced. */
    lemma OnlyGapLeft(was: seq<Loc>, i: nat, hasKey: bool, klen: nat, hasVal: bool, vlen: nat)
      requires i < |toc| == |was| && End() >= 0 && free <= val
      requires keys.segs == [] == vals.segs && key == HEADER + NewTable(|toc|)
      requires (hasKey ==> toc[i].klen == 0) && (hasVal ==> toc[i].vlen == 0)
      requires var t := was[i := Crushed(was[i], hasKey, hasVal)]; val - free == End() - key - KeyBytes(t) - ValBytes(t)
      ensures ReplacedAtOnce(toc[i], hasKey, klen, hasVal, vlen) <==> ReplacedAfter(was, i, hasKey, klen, hasVal, vlen)
    {
      hide KeyBytes, ValBytes, NewTable;
    }

    /** The table tells the lengths of the keys and values. */
    lemma LengthsAre(i: nat)
      requires Valid() && i < |toc|
      ensures |Contents()[i].key| == toc[i].klen && |Contents()[i].val| == toc[i].vlen
    {
      hide Aligned, KeyBytes, ValBytes, KeyIv, ValIv, Field, InBlock;
      CanDefragment();
      NextRecord(data[..], key, End(), toc, i);
    }

    /** apfs_node_replace(). A node with enough room always takes the new key and value; one
        that does not take them has lost the old ones, but nothing else. */
    method Replace(index: nat, hasKey: bool, k: seq<byte>, hasVal: bool, v: seq<byte>) returns (status: Status)
      requires Valid() && index < |toc|
      requires fixed ==> (hasKey ==> |k| == toc[index].klen) && (hasVal ==> |v| == toc[index].vlen)
      modifies this, data
      ensures old(HasRoom(Growth(toc[index], hasKey, |k|, hasVal, |v|), true)) ==> status == Done
      ensures status == Done <==>
        || old(ReplacedAtOnce(toc[index], hasKey, |k|, hasVal, |v|))
        || ReplacedAfter(old(toc), index, hasKey, |k|, hasVal, |v|)
      ensures status == Done ==> Valid() && Contents() == Replaced(old(Contents()), index, hasKey, k, hasVal, v)
      ensures status == Done ==> IsReplaced(old(Contents()), index, hasKey, k, hasVal, v, Contents())
      ensures status != Done ==>
        status == Corrupt && Contents() == Replaced(old(Contents()), index, hasKey, [], hasVal, [])
      ensures status != Done ==> IsReplaced(old(Contents()), index, hasKey, [], hasVal, [], Contents())
    {
      hide Attached, Aligned, Records, Replaced, KeyBytes, ValBytes, NewTable, Entries, InBlock, Takes, RecordAt;
      hide ReplacedAtOnce, ReplacedAfter;
      hide IsReplaced;
      EndOk();
      ReplacedIs(Contents(), index, hasKey, k, hasVal, v);
      ReplacedIs(Contents(), index, hasKey, [], hasVal, []);
      ReplaceFits(index, hasKey, |k|, hasVal, |v|);
      ghost var was, toc0, key0 := data[..], toc, key;
      var ok := TryReplace(index, hasKey, k, hasVal, v);
      if !ok {
        toc := toc[index := Crushed(toc[index], hasKey, hasVal)];
        Defragment();
        ReplacedDropped(was, key0, End(), toc0, index, hasKey, k, hasVal, v);
        DroppedIs(was, key0, End(), toc0, index, hasKey, hasVal);
        NothingLeft(index, hasKey, hasVal);
        OnlyGapLeft(toc0, index, hasKey, |k|, hasVal, |v|);
        ok := TryReplace(index, hasKey, k, hasVal, v);
      }
      status := if ok then Done else Corrupt;
    }

    /** A record that is already crushed can be crushed again. */
    lemma NothingLeft(i: nat, hasKey: bool, hasVal: bool)
      requires Valid() && i < |toc|
      requires (hasKey ==> Contents()[i].key == []) && (hasVal ==> Contents()[i].val == [])
      ensures (hasKey ==> toc[i].klen == 0) && (hasVal ==> toc[i].vlen == 0)
      ensures toc[i := Crushed(toc[i], hasKey, hasVal)] == toc && free <= val
    {
      hide Records, Aligned;
      LengthsAre(i);
    }

    /** What apfs_btree_remove() does to the node. */
    method Remove(index: nat)
      requires Valid() && index < |toc|
      modifies this, data
      ensures Valid() && Contents() == Cut(old(Contents()), index)
      ensures IsPut(Contents(), index, old(Contents())[index], old(Contents()))
      ensures HasRoom(old(toc[index].klen + toc[index].vlen), false)
    {
      hide Area.Exact, Chained, Field, ListOk, KeyIvs, ValIvs, Records, SameFields, Without, KeyBytes, ValBytes, IsPut;
      CutIs(Contents(), index);
      ghost var was, t := data[..], Cut(toc, index);
      var l := toc[index];
      RoomIs();
      TocCut(was, key, vals.hi, toc, index);
      DropLive(index);
      toc := Cut(toc, index);
      FreeRange(key + l.koff, l.klen, false);
      ghost var mid := data[..];
      FreeRange(ValIv(End(), l).off, l.vlen, true);
      SameAgain(was, mid, data[..], keys.live);
      SameAgain(was, mid, data[..], vals.live);
      RecordsSame(was, data[..], key, vals.hi, toc);
      RoomIs();
      BytesCut(old(toc), index);
    }

    ghost method DropLive(i: nat)
      requires Sound() && keys.extra.len == 0 == vals.extra.len && i < |keys.live| && i < |vals.live|
      modifies this`keys, this`vals
      ensures Sound() && keys == old(keys).Remove(i) && vals == old(vals).Remove(i)
    {
      hide Area.Exact, Chained;
      RemoveKeeps(keys, i);
      RemoveKeeps(vals, i);
      keys, vals := keys.Remove(i), vals.Remove(i);
    }

    /** The offset tells the area. */
    lemma AreaOfExtra(value: bool)
      requires Sound()
      ensures value && vals.extra.len > 0 ==> val <= vals.extra.off && vals.extra.off + vals.extra.len <= vals.hi
      ensures !value && keys.extra.len > 0 ==> key <= keys.extra.off && keys.extra.off + keys.extra.len <= free
    {
      hide Area.Exact, Chained;
      if value {
        if vals.extra.len > 0 { InArea(vals, vals.extra); }
      } else if keys.extra.len > 0 {
        InArea(keys, keys.extra);
      }
    }
  }

  /** A table of 72 bytes, with entries for nine records, is not made of whole increments: a
      defragmentation gives the same records a table of 128 bytes. */
  method OddTable() returns (node: NodeBlock)
    ensures fresh(node) && node.Valid() && node.minTable == 64
    ensures node.Entries(9) == 72 < node.NewTable(9) == 128
  {
    node := new NodeBlock(4096, true, false, 64);
  }
}
