/** Allocation bitmaps: a set bit is a block in use. */
module Bitmaps {

  function Zeros(bits: seq<bool>): nat {
    if bits == [] then 0 else Zeros(bits[..|bits| - 1]) + if bits[|bits| - 1] then 0 else 1
  }

  /** find_next_zero_bit_le() from the start: the first clear bit, or the length. */
  function FindZero(bits: seq<bool>): (k: nat)
    ensures k <= |bits| && (forall j :: 0 <= j < k ==> bits[j]) && (k < |bits| ==> !bits[k])
    decreases |bits|
  {
    if bits == [] then 0
    else
      var k := FindZero(bits[..|bits| - 1]);
      if k < |bits| - 1 then k
      else if bits[|bits| - 1] then |bits| else |bits| - 1
  }

  lemma {:induction false} ZerosUpdate(bits: seq<bool>, k: nat, v: bool)
    requires k < |bits|
    ensures Zeros(bits[k := v]) == Zeros(bits) + (if bits[k] then 1 else 0) - (if v then 1 else 0)
    decreases |bits|
  {
    var n := |bits| - 1;
    var t := bits[k := v];
    if k < n {
      ZerosUpdate(bits[..n], k, v);
      assert t[..n] == bits[..n][k := v];
    } else {
      assert t[..n] == bits[..n];
    }
  }

  lemma {:induction false} SomeZero(bits: seq<bool>)
    ensures Zeros(bits) > 0 <==> FindZero(bits) < |bits|
    ensures Zeros(bits) <= |bits|
    decreases |bits|
  {
    if bits != [] { SomeZero(bits[..|bits| - 1]); }
  }

  lemma {:induction false} ClearZeros(n: nat)
    ensures Zeros(Clear(n)) == n
    decreases n
  {
    if n > 0 {
      ClearZeros(n - 1);
      assert Clear(n)[..n - 1] == Clear(n - 1);
    }
  }

  function Clear(n: nat): (bits: seq<bool>)
    ensures |bits| == n && forall k :: 0 <= k < n ==> !bits[k]
  {
    seq(n, _ => false)
  }

  /** The first clear bit of a longer bitmap is one of those that count, if any is. */
  lemma FirstZeroInPrefix(bits: seq<bool>, n: nat)
    requires n <= |bits| && Zeros(bits[..n]) > 0
    ensures FindZero(bits) < n
  {
    SomeZero(bits[..n]);
    var k := FindZero(bits[..n]);
    assert !bits[k];
  }
}
