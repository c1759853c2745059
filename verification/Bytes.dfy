/** Raw bytes: little-endian fields, and copies within a buffer. */
module Bytes {

  type byte = x: int | 0 <= x < 256

  function Le16(n: nat): (r: seq<byte>)
    requires n < 65536
    ensures |r| == 2
  {
    [n % 256, n / 256]
  }

  function U16(s: seq<byte>, at: nat): (n: nat)
    requires at + 2 <= |s|
    ensures n < 65536
  {
    s[at] as int + 256 * s[at + 1] as int
  }

  /** The low byte comes first. */
  lemma LittleEndian(s: seq<byte>, at: nat, n: nat)
    requires at + 2 <= |s| && n < 65536
    ensures s[at..at + 2] == Le16(n) <==> U16(s, at) == n
    ensures U16(s, at) % 256 == s[at] && U16(s, at) / 256 == s[at + 1]
  {
    assert s[at..at + 2] == [s[at], s[at + 1]];
  }

  function Splice(s: seq<byte>, d: nat, mid: seq<byte>): (r: seq<byte>)
    requires d + |mid| <= |s|
    ensures |r| == |s|
  {
    s[..d] + mid + s[d + |mid|..]
  }

  method MemCopy(a: array<byte>, d: nat, s: seq<byte>)
    requires d + |s| <= a.Length
    modifies a
    ensures a[..] == Splice(old(a[..]), d, s)
  {
    forall i | 0 <= i < |s| { a[d + i] := s[i]; }
  }

  method MemMove(a: array<byte>, d: nat, from: nat, n: nat)
    requires d + n <= a.Length && from + n <= a.Length
    modifies a
    ensures a[..] == Splice(old(a[..]), d, old(a[from..from + n]))
  {
    forall i | 0 <= i < n { a[d + i] := a[from + i]; }
  }
}
