/** What a single (not multiple) b-tree query reports about a tree with distinct
    keys: the position of the greatest key that is not above the wanted one. The
    trees themselves are the subject of module `Btree`; the modules for extents,
    object maps and free queues only depend on this view of them. */
module Records {

  ghost predicate Increasing(keys: seq<nat>) {
    forall i, j :: 0 <= i < j < |keys| ==> keys[i] < keys[j]
  }

  /** Index of the last key not above `key`, or -1 if they are all above. */
  function Floor(keys: seq<nat>, key: nat): (r: int)
    requires Increasing(keys)
    ensures -1 <= r < |keys|
    ensures forall i :: 0 <= i <= r ==> keys[i] <= key
    ensures forall i :: r < i < |keys| ==> keys[i] > key
  {
    if keys == [] then -1
    else if keys[|keys| - 1] <= key then |keys| - 1
    else Floor(keys[..|keys| - 1], key)
  }
}
