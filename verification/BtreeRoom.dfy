/** The room in the nodes of a B-tree, from the bytes in their blocks: what BtreeOps asks
    of a node is what BtreeNode knows about its block. */
module BtreeRoom {
  import opened Btree
  import opened BtreeOps
  import Blocks = BtreeNode

  /** Where the records of a node end in its block, and the size of its table. */
  datatype Block = Block(end: nat, fixed: bool, table: nat) {
    function EntrySize(): nat { if fixed then 4 else 8 }

    function Step(): nat { EntrySize() * Blocks.INCREMENT }

    /** How much the table must grow for one more record. */
    function Growth(count: nat): nat { if EntrySize() * (count + 1) > table then Step() else 0 }

    /** There is always room for four records of the longest kind. */
    predicate Large(maxLen: nat) { Blocks.HEADER + table + Growth(3) + 4 * maxLen <= end }
  }

  /** The values of an index node are the numbers of its children. */
  function Size(n: Node, i: nat): nat
    requires i < Count(n)
  {
    if n.Leaf? then n.recs[i].key.len + n.recs[i].vlen else n.entries[i].key.len + 8
  }

  function Sizes(n: Node, k: nat): nat
    requires k <= Count(n)
  {
    if k == 0 then 0 else Sizes(n, k - 1) + Size(n, k - 1)
  }

  /** apfs_node_has_room() */
  predicate HasRoom(b: Block, n: Node, length: int, replace: bool) {
    b.end - Blocks.HEADER - b.table - Sizes(n, Count(n)) >= length + if replace then 0 else b.Growth(Count(n))
  }

  lemma {:induction false} SizesMost(n: Node, k: nat, maxLen: nat)
    requires Small(n, maxLen) && k <= Count(n)
    ensures Sizes(n, k) <= k * maxLen
  {
    if k > 0 {
      SizesMost(n, k - 1, maxLen);
      assert k * maxLen == (k - 1) * maxLen + maxLen;
    }
  }

  /** A full node has four records at least, so that it can be split. */
  lemma FullHasFour(b: Block, n: Node, maxLen: nat, length: int, replace: bool)
    requires b.Large(maxLen) && Small(n, maxLen) && length <= maxLen && !HasRoom(b, n, length, replace)
    ensures Count(n) >= 4 && Splittable(n)
  {
    SizesMost(n, Count(n), maxLen);
    if Count(n) < 4 { Blocks.FewTimes(Count(n), maxLen); }
  }

  /** A block for four of the longest records is just what it takes. */
  lemma LargeIff(b: Block, maxLen: nat)
    requires maxLen >= 8
    ensures FullSplits(maxLen, (n, length, replace) => HasRoom(b, n, length, replace)) <==> b.Large(maxLen)
  {
    var hasRoom := (n: Node, length: int, replace: bool) => HasRoom(b, n, length, replace);
    if b.Large(maxLen) {
      forall n, length, replace | Small(n, maxLen) && length <= maxLen && !hasRoom(n, length, replace)
        ensures Splittable(n)
      {
        FullHasFour(b, n, maxLen, length, replace);
      }
      assert FullSplits(maxLen, hasRoom);
    } else {
      var e := Entry(Key(0, maxLen - 8), Leaf([]));
      var n := Index([e, e, e]);
      assert Sizes(n, 1) == maxLen && Sizes(n, 2) == 2 * maxLen && Sizes(n, 3) == 3 * maxLen;
      assert Small(n, maxLen) && !hasRoom(n, maxLen, false) && !Splittable(n);
    }
  }

  /** An empty tree whose nodes are in blocks. */
  method NewTree(maxLen: nat, blocks: Node -> Block) returns (t: Tree)
    requires forall n :: blocks(n).Large(maxLen)
    ensures fresh(t) && t.Valid() && Contents(t.root) == [] && t.maxLen == maxLen
    ensures forall n, length, replace :: t.hasRoom(n, length, replace) <==> HasRoom(blocks(n), n, length, replace)
  {
    var hasRoom := (n: Node, length: int, replace: bool) => HasRoom(blocks(n), n, length, replace);
    forall n, length, replace | Small(n, maxLen) && length <= maxLen && !hasRoom(n, length, replace)
      ensures Splittable(n)
    {
      FullHasFour(blocks(n), n, maxLen, length, replace);
    }
    t := new Tree(maxLen, hasRoom);
  }

  // The blocks of BtreeNode

  function BlockOf(b: Blocks.NodeBlock): Block
    requires Blocks.HEADER <= b.key && b.End() >= 0
    reads b
  {
    Block(b.End(), b.fixed, b.key - Blocks.HEADER)
  }

  /** The block has the keys and values of a node, as far as their lengths go. */
  ghost predicate Holds(b: Blocks.NodeBlock, n: Node)
    reads b
  {
    |b.toc| == Count(n) && forall i :: 0 <= i < |b.toc| ==> b.toc[i].klen + b.toc[i].vlen == Size(n, i)
  }

  lemma {:induction false} SizesAre(toc: seq<Blocks.Loc>, n: Node, k: nat)
    requires k <= |toc| == Count(n) && forall i :: 0 <= i < |toc| ==> toc[i].klen + toc[i].vlen == Size(n, i)
    ensures Blocks.KeyBytes(toc[..k]) + Blocks.ValBytes(toc[..k]) == Sizes(n, k)
    decreases k
  {
    hide Size;
    if k > 0 {
      SizesAre(toc, n, k - 1);
      assert toc[..k][..k - 1] == toc[..k - 1];
    }
  }

  /** What a block says about its room is a matter of its node, and the size of its table. */
  lemma RoomAgrees(b: Blocks.NodeBlock, n: Node, length: int, replace: bool)
    requires b.Valid() && Holds(b, n)
    ensures Blocks.HEADER <= b.key && b.End() >= 0
    ensures b.HasRoom(length, replace) <==> HasRoom(BlockOf(b), n, length, replace)
  {
    hide Size, Sizes, Blocks.KeyBytes, Blocks.ValBytes;
    b.RoomIs();
    SizesAre(b.toc, n, |b.toc|);
    assert b.toc[..|b.toc|] == b.toc;
  }
}
