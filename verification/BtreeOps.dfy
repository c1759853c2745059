/** The operations on a B-tree (btree.c, node.c). Each of them may find that some node on
    the way to the leaf has no room; it is then split, and the whole operation starts over
    with a fresh query. */
module BtreeOps {
  import opened Btree

  datatype Status = Ok | Corrupted

  ghost predicate Sorted(s: seq<Rec>) {
    forall i, j :: 0 <= i < j < |s| ==> s[i].key.ord < s[j].key.ord
  }

  /** A node that is called full has enough records to be worth splitting. */
  predicate Splittable(n: Node) {
    if n.Leaf? then |n.recs| >= 2 else |n.entries| >= 4
  }

  /** The records or entries of a node are no longer than some bound. */
  ghost predicate Small(n: Node, maxLen: nat) {
    if n.Leaf? then forall i :: 0 <= i < |n.recs| ==> n.recs[i].key.len + n.recs[i].vlen <= maxLen
    else forall i :: 0 <= i < |n.entries| ==> n.entries[i].key.len + 8 <= maxLen
  }

  /** With such records, only nodes that can be split are ever full. */
  ghost predicate FullSplits(maxLen: nat, hasRoom: (Node, int, bool) -> bool) {
    forall n, len, replace :: Small(n, maxLen) && len <= maxLen && !hasRoom(n, len, replace) ==> Splittable(n)
  }

  /** A key keeps its place in the order. */
  predicate Between(s: seq<Rec>, i: nat, ord: int) {
    (0 < i <= |s| ==> s[i - 1].key.ord < ord) && (i + 1 < |s| ==> ord < s[i + 1].key.ord)
  }

  class Tree {
    var root: Node
    var keyCount: nat
    var nodeCount: nat
    ghost var h: nat
    const maxLen: nat
    const hasRoom: (Node, int, bool) -> bool

    /** An empty tree. */
    constructor (maxLen: nat, hasRoom: (Node, int, bool) -> bool)
      requires FullSplits(maxLen, hasRoom)
      ensures Valid() && Contents(root) == []
      ensures this.maxLen == maxLen && this.hasRoom == hasRoom
    {
      root, keyCount, nodeCount, h := Leaf([]), 0, 1, 0;
      this.maxLen, this.hasRoom := maxLen, hasRoom;
    }

    ghost predicate Roomy() { FullSplits(maxLen, hasRoom) }

    ghost predicate SizesOk(s: seq<Rec>) {
      forall i :: 0 <= i < |s| ==> RecOk(s[i])
    }

    predicate RecOk(rec: Rec) {
      rec.key.len + rec.vlen <= maxLen && rec.key.len + 8 <= maxLen
    }

    /** What holds between the attempts of an operation. */
    ghost predicate Ready()
      reads this
    {
      Roomy() && Wf(root, h) && nodeCount == Nodes(root) && SizesOk(Contents(root))
    }

    /** An attempt has split some node; the tree holds what it did before. */
    twostate predicate Resplit()
      reads this
    {
      Ready() && Contents(root) == old(Contents(root)) && Splits(root) < old(Splits(root))
    }

    /** __apfs_btree_insert() for an index node: adds an entry after the given one. */
    method InsertEntry(path: seq<nat>, i: nat, e: Entry) returns (again: bool)
      requires Ready() && IsPath(root, path) && NodeAt(root, path).Index? && i < |NodeAt(root, path).entries|
      requires e.key.len + 8 <= maxLen
      modifies this`root, this`nodeCount, this`h
      ensures !again ==> root == SetAt(old(root), path, Index(Inserted(old(NodeAt(root, path).entries), i, e)))
      ensures !again ==> nodeCount == old(nodeCount) && h == old(h)
      ensures again ==> Resplit() && Splittable(old(NodeAt(root, path)))
      decreases if path == [] && !Splittable(root) then 0 else 2 * |path| + 4
    {
      var node := NodeAt(root, path);
      NodeSmall(root, h, path);
      if !hasRoom(node, e.key.len + 8, false) {
        SplitNode(path);
        return true;
      }
      root := SetAt(root, path, Index(Inserted(node.entries, i, e)));
      again := false;
    }

    /** apfs_node_split(), or the attempt that ends up with the split of an ancestor. */
    method SplitNode(path: seq<nat>)
      requires Ready() && IsPath(root, path) && Splittable(NodeAt(root, path))
      modifies this`root, this`nodeCount, this`h
      ensures Resplit()
      decreases 2 * |path| + 3
    {
      hide Contents, Nodes, Splits, Wf, Btree.Split;
      var p := path;
      if path == [] {
        RaisedKeeps(root, h);
        root := Raised(root);
        nodeCount := nodeCount + 1;
        h := h + 1;
        p := [0];
      }
      var node := NodeAt(root, p);
      UpPath(root, p);
      SplitInTwo(root, p);
      SplitKeeps(root, h, p);
      var kept := Kept(node);
      var right := Tail(node, kept);
      RightSize(root, h, p);
      var again := InsertEntry(Up(p), Last(p), Entry(First(right), right));
      if again {
        return;
      }
      nodeCount := nodeCount + 1;
      root := SetAt(root, p, Head(node, kept));
    }

    /** __apfs_btree_replace() for an index node: a new key for the entry at a path. */
    method ReplaceKey(path: seq<nat>, key: Key) returns (again: bool)
      requires Ready() && path != [] && IsPath(root, path) && key.len + 8 <= maxLen
      modifies this`root, this`nodeCount, this`h
      ensures !again ==> root == KeySet(old(root), path, key) && nodeCount == old(nodeCount) && h == old(h)
      ensures again ==> Resplit()
      decreases |path|
    {
      hide Contents, Nodes, Splits, Wf, KeySet, SetAt;
      UpPath(root, path);
      KeySetUp(root, path, key);
      var p, i := Up(path), Last(path);
      var node := NodeAt(root, p);
      NodeSmall(root, h, p);
      if !hasRoom(node, key.len - node.entries[i].key.len, true) {
        SplitNode(p);
        return true;
      }
      if p != [] && i == 0 {
        again := ReplaceKey(p, key);
        if again {
          return;
        }
      }
      root := SetAt(root, p, WithKey(node, i, key));
      again := false;
    }

    /** The end of every change to a node: if its first key is about to change, the entries
        above follow, and then the node itself is updated. */
    method PutNode(path: seq<nat>, m: Node, newFirst: bool) returns (again: bool)
      requires Ready() && IsPath(root, path) && Count(m) > 0 && (newFirst ==> First(m).len + 8 <= maxLen)
      requires !newFirst ==> Count(NodeAt(root, path)) > 0 && First(m) == First(NodeAt(root, path))
      modifies this`root, this`nodeCount, this`h
      ensures !again ==> root == Put(old(root), path, m) && nodeCount == old(nodeCount) && h == old(h)
      ensures again ==> Resplit()
    {
      hide Contents, Nodes, Splits, KeySet, SetAt, Put;
      again := false;
      if path == [] {
        PutRoot(root, m);
      } else if newFirst {
        PutKeySet(root, h, path, m);
        again := ReplaceKey(path, First(m));
        if again {
          return;
        }
      } else {
        SetAtSame(root, h, path, m);
      }
      root := SetAt(root, path, m);
    }

    /** Same as Ready(), for a tree that may be empty. */
    ghost predicate Steady()
      reads this
    {
      Roomy() && TreeOk(root, h) && nodeCount == Nodes(root) && SizesOk(Contents(root))
    }

    ghost predicate Valid()
      reads this
    {
      Steady() && Sorted(Contents(root)) && keyCount == |Contents(root)|
    }

    /** __apfs_btree_insert() for a leaf: adds a record after the given one. */
    method InsertRec(path: seq<nat>, i: int, rec: Rec) returns (again: bool)
      requires Steady() && IsPath(root, path) && NodeAt(root, path).Leaf? && -1 <= i < |NodeAt(root, path).recs| &&
        RecOk(rec)
      modifies this`root, this`nodeCount, this`h
      ensures !again ==> Steady()
      ensures !again ==>
        Contents(root) == old(Before(root, path) + RecInserted(NodeAt(root, path).recs, i, rec) + After(root, path))
      ensures again ==> Resplit()
    {
      hide Contents, Nodes, Splits, Put, Before, After, ContentsOf;
      var recs := NodeAt(root, path).recs;
      NodeSmall(root, h, path);
      if !hasRoom(NodeAt(root, path), rec.key.len + rec.vlen, false) {
        SplitNode(path);
        return true;
      }
      ghost var was := root;
      var m := Leaf(RecInserted(recs, i, rec));
      LeafFacts(was, path, m);
      FoundContents(was, h, path);
      InsertedSizes(was, path, i, rec);
      if root == Leaf([]) {
        again := false;
        root := m;
        EmptyPath(was, path);
      } else {
        NodeAtWf(root, h, path);
        again := PutNode(path, m, i == -1);
        if !again {
          PutWf(was, h, path, m);
          PutContents(was, path, m);
        }
      }
    }

    /** apfs_btree_insert(): the retry loop ends, and the tree is the same sorted map with
        one more record. */
    method Insert(rec: Rec) returns (status: Status)
      requires Valid() && RecOk(rec) && !Has(Contents(root), rec.key.ord)
      modifies this
      ensures status == Ok ==> Valid() && Contents(root) == MapInsert(old(Contents(root)), rec)
      ensures status == Corrupted ==> h >= 12
    {
      hide Contents, Nodes, Splits, Found, Has, MapInsert;
      var path, i;
      status, path, i := Query(root, h, rec.key.ord);
      if status != Ok {
        return;
      }
      var again := true;
      while again
        invariant Steady() && status == Ok && keyCount == old(keyCount)
        invariant if again then Contents(root) == old(Contents(root))
          else Contents(root) == MapInsert(old(Contents(root)), rec)
        invariant again ==> Found(root, path, i, rec.key.ord)
        decreases again, Splits(root)
      {
        FoundInsert(root, h, path, i, rec);
        FoundIs(root, path, i, rec.key.ord);
        again := InsertRec(path, i, rec);
        if again {
          status, path, i := Query(root, h, rec.key.ord);
          if status != Ok {
            return;
          }
        }
      }
      MapInsertSorted(old(Contents(root)), rec);
      MapInsertLen(old(Contents(root)), rec);
      keyCount := keyCount + 1;
    }

    /** __apfs_btree_remove() */
    method RemoveAt(path: seq<nat>, i: nat) returns (again: bool)
      requires Ready() && IsPath(root, path) && i < Count(NodeAt(root, path))
      modifies this`root, this`nodeCount, this`h
      ensures !again ==> root == RemovedAt(old(root), path, i) && nodeCount == old(nodeCount) - Deleted(old(root), path)
      ensures !again ==> h == if root == Leaf([]) then 0 else old(h)
      ensures again ==> Resplit()
      decreases |path|
    {
      hide Contents, Nodes, Splits, Put, KeySet, SetAt;
      var node := NodeAt(root, path);
      NodeAtWf(root, h, path);
      if path != [] && Count(node) == 1 {
        UpPath(root, path);
        DeletedCount(root, h, path, i);
        again := RemoveAt(Up(path), Last(path));
        if !again {
          nodeCount := nodeCount - 1;
        }
        return;
      }
      if Count(node) == 1 {
        root := Leaf([]);
        h := 0;
        again := false;
        return;
      }
      ghost var was := root;
      DropKeeps(node, h - |path|, i);
      FirstSize(root, h, path, if i == 0 then 1 else 0);
      again := PutNode(path, Drop(node, i), i == 0);
      if !again {
        PutWf(was, h, path, Drop(node, i));
        WfNotEmpty(root, h);
      }
    }

    /** apfs_btree_remove(): exactly one record goes. */
    method Remove(ord: int) returns (status: Status)
      requires Valid() && Has(Contents(root), ord)
      modifies this
      ensures status == Ok ==> Valid() && Contents(root) == MapRemove(old(Contents(root)), ord)
      ensures status == Corrupted ==> h >= 12
    {
      hide Contents, Nodes, Splits, Found, Has, MapRemove, RemovedAt, Deleted;
      var path, i;
      status, path, i := Query(root, h, ord);
      if status != Ok {
        return;
      }
      var again := true;
      while again
        invariant Steady() && status == Ok && keyCount == old(keyCount)
        invariant if again then Contents(root) == old(Contents(root))
          else Contents(root) == MapRemove(old(Contents(root)), ord)
        invariant again ==> Found(root, path, i, ord)
        decreases again, Splits(root)
      {
        ghost var was, height := root, h;
        FoundExact(root, h, path, i, ord);
        again := RemoveAt(path, i);
        if again {
          status, path, i := Query(root, h, ord);
          if status != Ok {
            return;
          }
        } else {
          RemovedKeeps(was, height, path, i);
          FoundRemove(was, height, path, i, ord);
          RemovedSizes(Contents(was), ord);
        }
      }
      MapRemoveSorted(old(Contents(root)), ord);
      keyCount := keyCount - 1;
    }

    /** __apfs_btree_replace() for a leaf. */
    method ReplaceRec(path: seq<nat>, i: nat, rec: Rec, newKey: bool) returns (again: bool)
      requires Ready() && IsPath(root, path) && NodeAt(root, path).Leaf? && i < |NodeAt(root, path).recs| && RecOk(rec)
      requires !newKey ==> rec.key == NodeAt(root, path).recs[i].key
      modifies this`root, this`nodeCount, this`h
      ensures !again ==> Wf(root, h) && nodeCount == Nodes(root)
      ensures !again ==>
        Contents(root) == old(Before(root, path) + NodeAt(root, path).recs[i := rec] + After(root, path))
      ensures again ==> Resplit()
    {
      hide Contents, Nodes, Splits, Put, Before, After, ContentsOf;
      var recs := NodeAt(root, path).recs;
      var grown := rec.vlen - recs[i].vlen + if newKey then rec.key.len - recs[i].key.len else 0;
      NodeSmall(root, h, path);
      if !hasRoom(NodeAt(root, path), grown, true) {
        SplitNode(path);
        return true;
      }
      ghost var was := root;
      var m := Leaf(recs[i := rec]);
      LeafFacts(was, path, m);
      NodeAtWf(root, h, path);
      again := PutNode(path, m, newKey && i == 0);
      if !again {
        PutWf(was, h, path, m);
        PutContents(was, path, m);
      }
    }

    /** apfs_btree_replace(): exactly one record changes. The tree is in order again exactly
        when the new key is between its neighbours. */
    method Replace(ord: int, rec: Rec, newKey: bool) returns (status: Status)
      requires Valid() && Has(Contents(root), ord) && RecOk(rec)
      requires !newKey ==> rec.key == Contents(root)[KeyPlace(Contents(root), ord)].key
      modifies this
      ensures status == Ok ==> Steady() && Contents(root) == MapReplace(old(Contents(root)), ord, rec)
      ensures status == Ok ==>
        (Valid() <==> Between(old(Contents(root)), KeyPlace(old(Contents(root)), ord), rec.key.ord))
      ensures status == Corrupted ==> h >= 12
    {
      hide Contents, Nodes, Splits, Found, Has, MapReplace, Sorted, KeyPlace;
      var path, i;
      status, path, i := Query(root, h, ord);
      if status != Ok {
        return;
      }
      var again := true;
      while again
        invariant Roomy() && TreeOk(root, h) && nodeCount == Nodes(root) && status == Ok && keyCount == old(keyCount)
        invariant if again then Contents(root) == old(Contents(root))
          else Contents(root) == MapReplace(old(Contents(root)), ord, rec)
        invariant again ==> Found(root, path, i, ord)
        decreases again, Splits(root)
      {
        FoundExact(root, h, path, i, ord);
        FoundReplace(root, h, path, i, ord, rec);
        again := ReplaceRec(path, i, rec, newKey);
        if again {
          status, path, i := Query(root, h, ord);
          if status != Ok {
            return;
          }
        }
      }
      ReplacedSizes(old(Contents(root)), ord, rec);
      ReplacedSorted(old(Contents(root)), ord, rec);
    }

    lemma ReplacedSizes(s: seq<Rec>, ord: int, rec: Rec)
      requires SizesOk(s) && RecOk(rec)
      ensures SizesOk(MapReplace(s, ord, rec)) && |MapReplace(s, ord, rec)| == |s|
    {
    }

    lemma DeletedCount(n: Node, h: nat, path: seq<nat>, i: nat)
      requires Wf(n, h) && IsPath(n, path) && i < Count(NodeAt(n, path)) && path != [] && Count(NodeAt(n, path)) == 1
      ensures IsPath(n, Up(path)) && Deleted(n, path) == 1 + Deleted(n, Up(path)) && Deleted(n, path) < Nodes(n)
      ensures Last(path) < Count(NodeAt(n, Up(path))) && RemovedAt(n, path, i) == RemovedAt(n, Up(path), Last(path))
    {
      UpPath(n, path);
      RemovedKeeps(n, h, path, i);
      SomeNodes(RemovedAt(n, path, i));
    }

    lemma SomeNodes(n: Node)
      ensures Nodes(n) > 0
    {
    }

    /** The keys in the nodes are those of records, so that their sizes are bounded too. */
    lemma FirstSize(n: Node, h: nat, path: seq<nat>, k: nat)
      requires Wf(n, h) && SizesOk(Contents(n)) && IsPath(n, path) && k < Count(NodeAt(n, path))
      ensures KeyAt(NodeAt(n, path), k).len + 8 <= maxLen
    {
      NodeAtWf(n, h, path);
      var m := NodeAt(n, path);
      DropKeeps(m, h - |path|, k);
      if m.Index? {
        assert EntryOk(m.entries[k], h - |path| - 1);
        FirstRecord(m.entries[k].child, h - |path| - 1);
      }
      var j := |Before(n, path)| + |Left(m, k)|;
      assert Contents(n)[j] == Part(m, k)[0];
    }

    /** So the bound holds for every node. */
    lemma NodeSmall(n: Node, h: nat, path: seq<nat>)
      requires TreeOk(n, h) && SizesOk(Contents(n)) && IsPath(n, path)
      ensures Small(NodeAt(n, path), maxLen)
    {
      hide Contents;
      if n == Leaf([]) {
        EmptyPath(n, path);
        return;
      }
      NodeAtWf(n, h, path);
      var m := NodeAt(n, path);
      if m.Index? {
        forall k | 0 <= k < |m.entries|
          ensures m.entries[k].key.len + 8 <= maxLen
        {
          FirstSize(n, h, path, k);
        }
      } else {
        LeafFacts(n, path, m);
        SizesConcat(Before(n, path) + m.recs, After(n, path));
        SizesConcat(Before(n, path), m.recs);
      }
    }

    lemma RemovedSizes(s: seq<Rec>, ord: int)
      requires SizesOk(s)
      ensures SizesOk(MapRemove(s, ord))
    {
    }

    lemma InsertedSizes(n: Node, path: seq<nat>, i: int, rec: Rec)
      requires IsPath(n, path) && NodeAt(n, path).Leaf? && -1 <= i < |NodeAt(n, path).recs| && RecOk(rec)
      requires Contents(n) == Before(n, path) + NodeAt(n, path).recs + After(n, path) && SizesOk(Contents(n))
      ensures SizesOk(Before(n, path) + RecInserted(NodeAt(n, path).recs, i, rec) + After(n, path))
    {
      hide RecOk, Contents, Before, After;
      SizesConcat(Before(n, path) + NodeAt(n, path).recs, After(n, path));
      SizesConcat(Before(n, path), NodeAt(n, path).recs);
      var recs := NodeAt(n, path).recs;
      SizesConcat(recs[..i + 1], recs[i + 1..]);
      assert recs[..i + 1] + recs[i + 1..] == recs;
      SizesConcat(recs[..i + 1] + [rec], recs[i + 1..]);
      SizesConcat(recs[..i + 1], [rec]);
      SizesConcat(Before(n, path), RecInserted(recs, i, rec));
      SizesConcat(Before(n, path) + RecInserted(recs, i, rec), After(n, path));
    }

    lemma SizesConcat(a: seq<Rec>, b: seq<Rec>)
      ensures SizesOk(a + b) <==> SizesOk(a) && SizesOk(b)
    {
      hide RecOk;
      if SizesOk(a + b) {
        forall i | 0 <= i < |a|
          ensures RecOk(a[i])
        {
          assert a[i] == (a + b)[i];
        }
        forall i | 0 <= i < |b|
          ensures RecOk(b[i])
        {
          assert b[i] == (a + b)[|a| + i];
        }
      }
    }

    lemma RightSize(n: Node, h: nat, path: seq<nat>)
      requires Wf(n, h) && SizesOk(Contents(n)) && IsPath(n, path) && Count(NodeAt(n, path)) > 1
      ensures First(Tail(NodeAt(n, path), Kept(NodeAt(n, path)))).len + 8 <= maxLen
    {
      hide Contents, Before, After, Nodes, Splits;
      NodeAtWf(n, h, path);
      var m := NodeAt(n, path);
      Halves(m, h - |path|);
      var right := Tail(m, Kept(m));
      FirstRecord(right, h - |path|);
      var k := |Before(n, path)| + |Contents(Head(m, Kept(m)))|;
      assert Contents(n)[k] == Contents(right)[0];
    }
  }

  function RecInserted(recs: seq<Rec>, i: int, rec: Rec): seq<Rec>
    requires -1 <= i < |recs|
  {
    recs[..i + 1] + [rec] + recs[i + 1..]
  }

  lemma PutRoot(n: Node, m: Node)
    requires Count(m) > 0
    ensures Put(n, [], m) == m == SetAt(n, [], m)
  {
  }

  lemma LeafFacts(n: Node, path: seq<nat>, m: Node)
    requires IsPath(n, path) && NodeAt(n, path).Leaf? && m.Leaf?
    ensures Contents(m) == m.recs && Contents(NodeAt(n, path)) == NodeAt(n, path).recs
    ensures Nodes(m) == Nodes(NodeAt(n, path))
  {
  }

  // Queries

  ghost predicate InOrder(keys: seq<int>) {
    forall i, j :: 0 <= i < j < |keys| ==> keys[i] <= keys[j]
  }

  /** apfs_node_query(): finds the last of the keys that is not above the given one by
      bisection, or -1 if there is none. A single query stops at the first exact match. */
  method NodeQuery(keys: seq<int>, key: int, multiple: bool) returns (index: int)
    requires InOrder(keys)
    requires multiple || forall i, j :: 0 <= i < j < |keys| ==> keys[i] != keys[j]
    ensures -1 <= index < |keys|
    ensures index >= 0 ==> keys[index] <= key
    ensures forall j :: 0 <= j < index ==> keys[j] <= key
    ensures forall j :: index < j < |keys| ==> keys[j] > key
  {
    var left, right, above := 0, |keys|, true;
    index := |keys|;
    var started := false;
    while !started || left != right
      invariant 0 <= left <= right <= |keys| && left <= index <= right
      invariant started <==> index < |keys|
      invariant started ==> right < |keys| && (above <==> keys[index] > key)
      invariant !started ==> above && right == |keys| && left == 0
      invariant left > 0 ==> keys[left] <= key
      invariant forall j :: right < j < |keys| ==> keys[j] > key
      invariant started && left == right ==> index == left
      decreases 2 * (right - left) + (if !above && index == left then 1 else 0) + (if started then 0 else 1)
    {
      if above {
        right := index - 1;
        if right < left {
          index := -1;
          return;
        }
        index := (left + right) / 2;
      } else {
        left := index;
        index := (left + right + 1) / 2;
      }
      started := true;
      above := keys[index] > key;
      if keys[index] == key && !multiple {
        return;
      }
    }
    if above {
      index := -1;
    }
  }

  ghost predicate AllAtMost(s: seq<Rec>, ord: int) { forall i :: 0 <= i < |s| ==> s[i].key.ord <= ord }

  ghost predicate AllAbove(s: seq<Rec>, ord: int) { forall i :: 0 <= i < |s| ==> s[i].key.ord > ord }

  /** The query points to the last record that is not above the key, or right before the
      first one. */
  ghost predicate Found(n: Node, path: seq<nat>, i: int, ord: int) {
    && IsPath(n, path) && NodeAt(n, path).Leaf? && -1 <= i < |NodeAt(n, path).recs|
    && AllAtMost(Before(n, path), ord) && AllAtMost(NodeAt(n, path).recs[..i + 1], ord)
    && AllAbove(NodeAt(n, path).recs[i + 1..], ord) && AllAbove(After(n, path), ord)
    && (i == -1 ==> AllZero(path))
  }

  function Ords(n: Node): (s: seq<int>)
    ensures |s| == Count(n)
  {
    if n.Leaf? then seq(|n.recs|, i requires 0 <= i < |n.recs| => n.recs[i].key.ord)
    else seq(|n.entries|, i requires 0 <= i < |n.entries| => n.entries[i].key.ord)
  }

  lemma {:induction false} PathStep(n: Node, path: seq<nat>, i: nat)
    requires IsPath(n, path) && NodeAt(n, path).Index? && i < |NodeAt(n, path).entries|
    ensures IsPath(n, path + [i]) && NodeAt(n, path + [i]) == NodeAt(n, path).entries[i].child
    ensures Before(n, path + [i]) == Before(n, path) + ContentsOf(NodeAt(n, path).entries[..i])
    ensures After(n, path + [i]) == ContentsOf(NodeAt(n, path).entries[i + 1..]) + After(n, path)
    decreases |path|
  {
    if path != [] {
      PathStep(n.entries[path[0]].child, path[1..], i);
      assert (path + [i])[1..] == path[1..] + [i];
    } else {
      assert (path + [i])[1..] == [];
    }
  }

  lemma SortedPart(a: seq<Rec>, b: seq<Rec>, c: seq<Rec>)
    requires Sorted(a + b + c)
    ensures Sorted(b)
    ensures forall i, j :: 0 <= i < |a| && 0 <= j < |b| ==> a[i].key.ord < b[j].key.ord
    ensures forall i, j :: 0 <= i < |b| && 0 <= j < |c| ==> b[i].key.ord < c[j].key.ord
  {
    var s := a + b + c;
    assert forall i :: 0 <= i < |a| ==> s[i] == a[i];
    assert forall i :: 0 <= i < |b| ==> s[|a| + i] == b[i];
    assert forall i :: 0 <= i < |c| ==> s[|a| + |b| + i] == c[i];
  }

  /** What comes before an entry is below its key; the rest is not. */
  lemma EntryBounds(n: Node, h: nat, i: nat)
    requires Wf(n, h) && n.Index? && i < |n.entries| && Sorted(Contents(n))
    ensures forall k :: 0 <= k < |ContentsOf(n.entries[..i])| ==>
      ContentsOf(n.entries[..i])[k].key.ord < n.entries[i].key.ord
    ensures forall k :: 0 <= k < |ContentsOf(n.entries[i..])| ==>
      ContentsOf(n.entries[i..])[k].key.ord >= n.entries[i].key.ord
  {
    hide ContentsOf;
    var es := n.entries;
    assert EntryOk(es[i], h - 1);
    FirstRecord(es[i].child, h - 1);
    ContentsConcat(es[..i], es[i..]);
    assert es[..i] + es[i..] == es;
    ContentsSplit(es[i..], 0);
    assert es[i..][..0] == [];
    NoEntries();
    var a, b := ContentsOf(es[..i]), ContentsOf(es[i..]);
    assert b[0] == Contents(es[i].child)[0];
    SortedPart(a, b, []);
    assert a + b + [] == Contents(n);
  }

  lemma OrdsInOrder(n: Node, h: nat)
    requires Wf(n, h) && Sorted(Contents(n))
    ensures forall i, j :: 0 <= i < j < Count(n) ==> Ords(n)[i] < Ords(n)[j]
  {
    if n.Index? {
      forall i, j | 0 <= i < j < Count(n)
        ensures Ords(n)[i] < Ords(n)[j]
      {
        EntryBounds(n, h, j);
        assert EntryOk(n.entries[i], h - 1);
        FirstRecord(n.entries[i].child, h - 1);
        FirstAmong(n.entries[..j], i, h - 1);
      }
    }
  }

  lemma FirstAmong(es: seq<Entry>, i: nat, h: nat)
    requires i < |es| && EntryOk(es[i], h)
    ensures |ContentsOf(es[..i])| < |ContentsOf(es)| && ContentsOf(es)[|ContentsOf(es[..i])|].key == es[i].key
  {
    hide ContentsOf;
    FirstRecord(es[i].child, h);
    ContentsSplit(es, i);
  }

  ghost predicate TreeOk(n: Node, h: nat) {
    (n == Leaf([]) && h == 0) || Wf(n, h)
  }

  /** On the way to the leaf, everything on the left is not above the key, and everything
      on the right is. */
  ghost predicate OnTheWay(n: Node, h: nat, path: seq<nat>, ord: int) {
    && TreeOk(n, h) && Sorted(Contents(n)) && IsPath(n, path)
    && AllAtMost(Before(n, path), ord) && AllAbove(After(n, path), ord)
  }

  lemma GoDown(n: Node, h: nat, path: seq<nat>, ord: int, i: nat)
    requires OnTheWay(n, h, path, ord) && NodeAt(n, path).Index? && i < |NodeAt(n, path).entries|
    requires i == 0 || NodeAt(n, path).entries[i].key.ord <= ord
    requires i + 1 < |NodeAt(n, path).entries| ==> NodeAt(n, path).entries[i + 1].key.ord > ord
    ensures OnTheWay(n, h, path + [i], ord) && |path| < h
    ensures NodeAt(n, path + [i]) == NodeAt(n, path).entries[i].child && Count(NodeAt(n, path + [i])) > 0
    ensures First(NodeAt(n, path + [i])) == NodeAt(n, path).entries[i].key
  {
    hide Contents, ContentsOf, Before, After;
    var m := NodeAt(n, path);
    NodeAtWf(n, h, path);
    SortedPart(Before(n, path), Contents(m), After(n, path));
    PathStep(n, path, i);
    EntryBounds(m, h - |path|, i);
    if i + 1 < |m.entries| {
      EntryBounds(m, h - |path|, i + 1);
    } else {
      assert m.entries[i + 1..] == [];
      NoEntries();
    }
    if i == 0 {
      assert m.entries[..0] == [];
      NoEntries();
    }
    assert EntryOk(m.entries[i], h - |path| - 1);
    WfCount(m.entries[i].child, h - |path| - 1);
  }

  lemma WfCount(n: Node, h: nat)
    requires Wf(n, h)
    ensures Count(n) > 0
  {
  }

  lemma PathOrds(n: Node, h: nat, path: seq<nat>, ord: int)
    requires OnTheWay(n, h, path, ord)
    ensures forall i, j :: 0 <= i < j < Count(NodeAt(n, path)) ==> Ords(NodeAt(n, path))[i] < Ords(NodeAt(n, path))[j]
    ensures |path| <= h && (NodeAt(n, path).Leaf? <==> |path| == h)
  {
    hide Contents, ContentsOf, Before, After, Ords;
    if n != Leaf([]) {
      NodeAtWf(n, h, path);
      SortedPart(Before(n, path), Contents(NodeAt(n, path)), After(n, path));
      OrdsInOrder(NodeAt(n, path), h - |path|);
    }
  }

  /** apfs_query_set_before_first() */
  method BeforeFirst(root: Node, ghost h: nat, ghost ord: int) returns (status: Status, path: seq<nat>)
    requires OnTheWay(root, h, [], ord) && root.Index? && root.entries != [] && root.entries[0].key.ord > ord
    ensures status == if h < 12 then Ok else Corrupted
    ensures status == Ok ==> Found(root, path, -1, ord)
  {
    hide Contents, ContentsOf, Before, After, Ords;
    status, path := Ok, [];
    var node := root;
    while node.Index? && |path| < 12
      invariant OnTheWay(root, h, path, ord) && node == NodeAt(root, path) && AllZero(path) && |path| <= 12
      invariant |path| <= h && (node.Leaf? <==> |path| == h)
      invariant Count(node) > 0 && First(node).ord > ord
      decreases h - |path|
    {
      PathOrds(root, h, path, ord);
      assert |node.entries| > 1 ==> Ords(node)[1] > Ords(node)[0];
      OrdsAt(node);
      GoDown(root, h, path, ord, 0);
      node := node.entries[0].child;
      path := path + [0];
      PathOrds(root, h, path, ord);
    }
    if |path| >= 12 {
      status := Corrupted;
    } else {
      PathOrds(root, h, path, ord);
      OrdsAt(node);
    }
  }

  lemma OrdsAt(n: Node)
    ensures n.Leaf? ==> forall i :: 0 <= i < |n.recs| ==> Ords(n)[i] == n.recs[i].key.ord
    ensures n.Index? ==> forall i :: 0 <= i < |n.entries| ==> Ords(n)[i] == n.entries[i].key.ord
  {
  }

  lemma RecsSplit(recs: seq<Rec>, i: int, ord: int)
    requires -1 <= i < |recs| && (forall j :: 0 <= j <= i ==> recs[j].key.ord <= ord)
    requires forall j :: i < j < |recs| ==> recs[j].key.ord > ord
    ensures AllAtMost(recs[..i + 1], ord) && AllAbove(recs[i + 1..], ord)
  {
    var rest := recs[i + 1..];
    forall k | 0 <= k < |rest|
      ensures rest[k].key.ord > ord
    {
      assert rest[k] == recs[i + 1 + k];
    }
  }

  /** The right record of the right leaf. */
  lemma LeafFound(n: Node, h: nat, path: seq<nat>, ord: int, i: int)
    requires OnTheWay(n, h, path, ord) && NodeAt(n, path).Leaf? && -1 <= i < |NodeAt(n, path).recs|
    requires path != [] ==> Count(NodeAt(n, path)) > 0 && First(NodeAt(n, path)).ord <= ord
    requires forall j :: 0 <= j <= i ==> NodeAt(n, path).recs[j].key.ord <= ord
    requires forall j :: i < j < |NodeAt(n, path).recs| ==> NodeAt(n, path).recs[j].key.ord > ord
    ensures Found(n, path, i, ord)
  {
    hide Contents, ContentsOf, Before, After, Wf, AllAtMost, AllAbove, Sorted, TreeOk;
    RecsSplit(NodeAt(n, path).recs, i, ord);
  }

  /** apfs_btree_query() for a single record. */
  method Query(root: Node, ghost h: nat, ord: int) returns (status: Status, path: seq<nat>, i: int)
    requires TreeOk(root, h) && Sorted(Contents(root))
    ensures status == if h < 12 then Ok else Corrupted
    ensures status == Ok ==> Found(root, path, i, ord)
  {
    hide Contents, ContentsOf, Before, After, Ords, Wf, Found, AllAtMost, AllAbove;
    status, path, i := Ok, [], -1;
    var node := root;
    Start(root, h, ord);
    while |path| < 12
      invariant OnTheWay(root, h, path, ord) && node == NodeAt(root, path) && status == Ok && |path| <= h
      invariant path != [] ==> Count(node) > 0 && First(node).ord <= ord
      decreases h - |path|
    {
      PathOrds(root, h, path, ord);
      OrdsAt(node);
      i := NodeQuery(Ords(node), ord, false);
      if node.Leaf? {
        LeafFound(root, h, path, ord, i);
        return;
      }
      if i == -1 {
        status, path := BeforeFirst(root, h, ord);
        return;
      }
      GoDown(root, h, path, ord, i);
      node := node.entries[i].child;
      path := path + [i];
    }
    status := Corrupted;
  }

  lemma Start(n: Node, h: nat, ord: int)
    requires TreeOk(n, h) && Sorted(Contents(n))
    ensures OnTheWay(n, h, [], ord) && (h > 0 ==> Count(n) > 0)
  {
  }

  // The sorted map

  ghost predicate Has(s: seq<Rec>, ord: int) { exists i :: 0 <= i < |s| && s[i].key.ord == ord }

  /** The position of a key in a sorted sequence. */
  function Place(s: seq<Rec>, ord: int): (p: nat)
    ensures p <= |s|
  {
    if s == [] then 0 else if s[|s| - 1].key.ord <= ord then |s| else Place(s[..|s| - 1], ord)
  }

  lemma {:induction false} PlaceIs(a: seq<Rec>, b: seq<Rec>, ord: int)
    requires AllAtMost(a, ord) && AllAbove(b, ord)
    ensures Place(a + b, ord) == |a|
  {
    if b == [] {
      assert a + b == a;
    } else {
      assert (a + b)[..|a + b| - 1] == a + b[..|b| - 1];
      PlaceIs(a, b[..|b| - 1], ord);
    }
  }

  function MapInsert(s: seq<Rec>, rec: Rec): seq<Rec> {
    s[..Place(s, rec.key.ord)] + [rec] + s[Place(s, rec.key.ord)..]
  }

  lemma MapInsertSorted(s: seq<Rec>, rec: Rec)
    requires Sorted(s) && !Has(s, rec.key.ord)
    ensures Sorted(MapInsert(s, rec)) && Has(MapInsert(s, rec), rec.key.ord)
  {
    PlaceSplits(s, rec.key.ord);
    var p, t := Place(s, rec.key.ord), MapInsert(s, rec);
    assert t[p] == rec;
    assert forall i :: 0 <= i < |t| ==> t[i] == if i < p then s[i] else if i == p then rec else s[i - 1];
  }

  /** Exactly one record is new. */
  lemma MapInsertIs(s: seq<Rec>, rec: Rec, r: Rec)
    ensures r in MapInsert(s, rec) <==> r in s || r == rec
  {
    hide Place;
    var p := Place(s, rec.key.ord);
    assert s == s[..p] + s[p..];
  }

  lemma {:induction false} PlaceSplits(s: seq<Rec>, ord: int)
    requires Sorted(s)
    ensures AllAtMost(s[..Place(s, ord)], ord) && AllAbove(s[Place(s, ord)..], ord)
  {
    if s != [] && s[|s| - 1].key.ord > ord {
      var t := s[..|s| - 1];
      PlaceSplits(t, ord);
      assert t[..Place(t, ord)] == s[..Place(t, ord)];
      assert s[Place(t, ord)..] == t[Place(t, ord)..] + [s[|s| - 1]];
    }
  }

  lemma InsertBetween(a: seq<Rec>, b: seq<Rec>, rec: Rec)
    requires AllAtMost(a, rec.key.ord) && AllAbove(b, rec.key.ord)
    ensures MapInsert(a + b, rec) == a + [rec] + b
  {
    hide Place, AllAtMost, AllAbove;
    PlaceIs(a, b, rec.key.ord);
    assert (a + b)[..|a|] == a && (a + b)[|a|..] == b;
  }

  lemma AllConcat(a: seq<Rec>, b: seq<Rec>, ord: int)
    ensures AllAtMost(a, ord) && AllAtMost(b, ord) ==> AllAtMost(a + b, ord)
    ensures AllAbove(a, ord) && AllAbove(b, ord) ==> AllAbove(a + b, ord)
  {
  }

  /** Inserting after the record that the query found is inserting in order. */
  lemma FoundInsert(n: Node, h: nat, path: seq<nat>, i: int, rec: Rec)
    requires TreeOk(n, h) && Found(n, path, i, rec.key.ord)
    ensures Before(n, path) + RecInserted(NodeAt(n, path).recs, i, rec) + After(n, path) == MapInsert(Contents(n), rec)
  {
    hide Contents, ContentsOf, Before, After, Place, AllAtMost, AllAbove, MapInsert;
    FoundContents(n, h, path);
    var recs, before, after := NodeAt(n, path).recs, Before(n, path), After(n, path);
    var l, r := recs[..i + 1], recs[i + 1..];
    AllConcat(before, l, rec.key.ord);
    AllConcat(r, after, rec.key.ord);
    InsertBetween(before + l, r + after, rec);
    assert recs == l + r;
    Regroup(before, l, [], r, after);
    Regroup(before, l, [rec], r, after);
  }

  lemma Regroup(a: seq<Rec>, l: seq<Rec>, m: seq<Rec>, r: seq<Rec>, c: seq<Rec>)
    ensures (a + l) + m + (r + c) == a + (l + m + r) + c
    ensures m == [] ==> l + m + r == l + r && (a + l) + (r + c) == a + (l + r) + c
  {
  }

  lemma FoundContents(n: Node, h: nat, path: seq<nat>)
    requires TreeOk(n, h) && IsPath(n, path) && NodeAt(n, path).Leaf?
    ensures Contents(n) == Before(n, path) + NodeAt(n, path).recs + After(n, path)
  {
    if n == Leaf([]) {
      assert path == [];
    } else {
      NodeAtWf(n, h, path);
    }
  }

  lemma EmptyPath(n: Node, path: seq<nat>)
    requires n == Leaf([]) && IsPath(n, path)
    ensures path == [] && Before(n, path) == [] && After(n, path) == []
  {
  }

  lemma FoundIs(n: Node, path: seq<nat>, i: int, ord: int)
    requires Found(n, path, i, ord)
    ensures IsPath(n, path) && NodeAt(n, path).Leaf? && -1 <= i < |NodeAt(n, path).recs|
  {
  }

  lemma MapInsertLen(s: seq<Rec>, rec: Rec)
    ensures |MapInsert(s, rec)| == |s| + 1
  {
  }

  function KeyAt(n: Node, k: nat): Key
    requires k < Count(n)
  {
    if n.Leaf? then n.recs[k].key else n.entries[k].key
  }

  lemma WfNotEmpty(n: Node, h: nat)
    requires Wf(n, h)
    ensures n != Leaf([])
  {
  }

  /** The record with the given key goes, if there is one. */
  function MapRemove(s: seq<Rec>, ord: int): seq<Rec> {
    var p := Place(s, ord);
    if p == 0 then s else s[..p - 1] + s[p..]
  }

  lemma MapRemoveSorted(s: seq<Rec>, ord: int)
    requires Sorted(s) && Has(s, ord)
    ensures Sorted(MapRemove(s, ord)) && !Has(MapRemove(s, ord), ord) && |MapRemove(s, ord)| == |s| - 1
  {
    PlaceSplits(s, ord);
    var p, t := Place(s, ord), MapRemove(s, ord);
    PlaceHas(s, ord);
    assert forall i :: 0 <= i < |t| ==> t[i] == s[if i < p - 1 then i else i + 1];
  }

  /** Exactly the record with that key is gone. */
  lemma MapRemoveIs(s: seq<Rec>, ord: int, r: Rec)
    requires Sorted(s) && Has(s, ord)
    ensures r in MapRemove(s, ord) <==> r in s && r.key.ord != ord
  {
    hide Place;
    PlaceSplits(s, ord);
    PlaceHas(s, ord);
    var p, t := Place(s, ord), MapRemove(s, ord);
    assert forall i :: 0 <= i < |t| ==> t[i] == s[if i < p - 1 then i else i + 1];
    if r in s && r.key.ord != ord {
      var i :| 0 <= i < |s| && s[i] == r;
      assert t[if i < p - 1 then i else i - 1] == r;
    }
  }

  /** A key that is in a sorted sequence is right before its place. */
  lemma PlaceHas(s: seq<Rec>, ord: int)
    requires Sorted(s) && Has(s, ord)
    ensures Place(s, ord) > 0 && s[Place(s, ord) - 1].key.ord == ord
  {
    hide Place;
    PlaceSplits(s, ord);
    var p := Place(s, ord);
    var k :| 0 <= k < |s| && s[k].key.ord == ord;
    if k < p { assert s[..p][p - 1] == s[p - 1]; }
  }

  lemma FoundPlace(n: Node, h: nat, path: seq<nat>, i: int, ord: int)
    requires TreeOk(n, h) && Found(n, path, i, ord)
    ensures Place(Contents(n), ord) == |Before(n, path)| + i + 1
    ensures Contents(n) == Before(n, path) + NodeAt(n, path).recs + After(n, path)
  {
    hide Contents, ContentsOf, Before, After, Place, AllAtMost, AllAbove;
    FoundContents(n, h, path);
    var recs, before, after := NodeAt(n, path).recs, Before(n, path), After(n, path);
    var l, r := recs[..i + 1], recs[i + 1..];
    AllConcat(before, l, ord);
    AllConcat(r, after, ord);
    PlaceIs(before + l, r + after, ord);
    assert recs == l + r;
    Regroup(before, l, [], r, after);
  }

  /** An exact query for a record of the tree points to it. */
  lemma FoundExact(n: Node, h: nat, path: seq<nat>, i: int, ord: int)
    requires TreeOk(n, h) && Found(n, path, i, ord) && Sorted(Contents(n)) && Has(Contents(n), ord)
    ensures IsPath(n, path) && NodeAt(n, path).Leaf? && 0 <= i < |NodeAt(n, path).recs| &&
      NodeAt(n, path).recs[i].key.ord == ord
    ensures Wf(n, h)
  {
    hide ContentsOf, Place, AllAtMost, AllAbove, Sorted;
    FoundPlace(n, h, path, i, ord);
    PlaceHas(Contents(n), ord);
    var before := Before(n, path);
    if i == -1 {
      BeforeZero(n, path);
    } else {
      assert Contents(n)[|before| + i] == NodeAt(n, path).recs[i];
    }
  }

  lemma {:induction false} BeforeZero(n: Node, path: seq<nat>)
    requires IsPath(n, path) && AllZero(path)
    ensures Before(n, path) == []
    decreases |path|
  {
    if path != [] {
      BeforeZero(n.entries[0].child, path[1..]);
      assert n.entries[..0] == [];
    }
  }

  lemma FoundRemove(n: Node, h: nat, path: seq<nat>, i: nat, ord: int)
    requires TreeOk(n, h) && Found(n, path, i, ord)
    ensures Before(n, path) + NodeAt(n, path).recs[..i] + NodeAt(n, path).recs[i + 1..] + After(n, path) ==
      MapRemove(Contents(n), ord)
  {
    hide Contents, ContentsOf, Before, After, Place, AllAtMost, AllAbove;
    FoundPlace(n, h, path, i, ord);
    var recs, before, after := NodeAt(n, path).recs, Before(n, path), After(n, path);
    CutAt(before, recs, after, i);
  }

  lemma CutAt(a: seq<Rec>, recs: seq<Rec>, c: seq<Rec>, i: nat)
    requires i < |recs|
    ensures var s := a + recs + c;
      s[..|a| + i] + s[|a| + i + 1..] == a + recs[..i] + recs[i + 1..] + c
  {
    var s := a + recs + c;
    assert s[..|a| + i] == a + recs[..i];
    assert s[|a| + i + 1..] == recs[i + 1..] + c;
  }

  /** The index of the record with a key. */
  function KeyPlace(s: seq<Rec>, ord: int): (k: nat)
    requires Has(s, ord) && Sorted(s)
    ensures k < |s| && s[k].key.ord == ord
  {
    PlaceHas(s, ord);
    Place(s, ord) - 1
  }

  function MapReplace(s: seq<Rec>, ord: int, rec: Rec): seq<Rec> {
    var p := Place(s, ord);
    if p == 0 then s else s[p - 1 := rec]
  }

  /** Exactly the record with that key is another one. */
  lemma MapReplaceIs(s: seq<Rec>, ord: int, rec: Rec, r: Rec)
    requires Sorted(s) && Has(s, ord)
    ensures r in MapReplace(s, ord, rec) <==> r == rec || (r in s && r.key.ord != ord)
    ensures |MapReplace(s, ord, rec)| == |s|
  {
    hide Place;
    PlaceHas(s, ord);
    var p, t := Place(s, ord), MapReplace(s, ord, rec);
    assert t[p - 1] == rec;
    if r in s && r.key.ord != ord {
      var i :| 0 <= i < |s| && s[i] == r;
      assert t[i] == r;
    }
  }

  lemma ReplacedSorted(s: seq<Rec>, ord: int, rec: Rec)
    requires Has(s, ord) && Sorted(s)
    ensures Sorted(MapReplace(s, ord, rec)) <==> Between(s, KeyPlace(s, ord), rec.key.ord)
  {
    hide Place, Has;
    var k, t := KeyPlace(s, ord), MapReplace(s, ord, rec);
    assert t == s[k := rec] by { PlaceHas(s, ord); }
    if Sorted(t) {
      assert k > 0 ==> t[k - 1].key.ord < t[k].key.ord;
      assert k + 1 < |s| ==> t[k].key.ord < t[k + 1].key.ord;
    }
    if Between(s, k, rec.key.ord) {
      forall i, j | 0 <= i < j < |t|
        ensures t[i].key.ord < t[j].key.ord
      {
        if j == k && i < k - 1 { assert s[i].key.ord < s[k - 1].key.ord; }
        if i == k && j > k + 1 { assert s[k + 1].key.ord < s[j].key.ord; }
      }
    }
  }

  lemma FoundReplace(n: Node, h: nat, path: seq<nat>, i: nat, ord: int, rec: Rec)
    requires TreeOk(n, h) && Found(n, path, i, ord) && Sorted(Contents(n)) && Has(Contents(n), ord)
    ensures Before(n, path) + NodeAt(n, path).recs[i := rec] + After(n, path) == MapReplace(Contents(n), ord, rec)
    ensures NodeAt(n, path).recs[i] == Contents(n)[KeyPlace(Contents(n), ord)]
  {
    hide Contents, ContentsOf, Before, After, Place, AllAtMost, AllAbove;
    FoundPlace(n, h, path, i, ord);
    var recs, before, after := NodeAt(n, path).recs, Before(n, path), After(n, path);
    assert (before + recs + after)[|before| + i := rec] == before + recs[i := rec] + after;
  }
}
