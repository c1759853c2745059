/** Object checksums (object.c): a variant of Fletcher-64 over 32-bit words, with both sums
    reduced only at the end. */
module Fletcher {

  const M: nat := 0xFFFF_FFFF
  const TWO64: nat := 0x1_0000_0000_0000_0000

  type word = x: int | 0 <= x <= 0xFFFF_FFFF

  /** The largest object that gets a checksum has two blocks of 64 KiB. */
  const MAX_WORDS := 32768

  // The sums, without limits

  function Sum1(w: seq<word>): nat {
    if w == [] then 0 else Sum1(w[..|w| - 1]) + w[|w| - 1] as int
  }

  function Sum2(w: seq<word>): nat {
    if w == [] then 0 else Sum2(w[..|w| - 1]) + Sum1(w)
  }

  function Low(w: seq<word>): (c: word)
    ensures c > 0
  {
    M - (Sum1(w) + Sum2(w)) % M
  }

  function High(w: seq<word>): (c: word)
    ensures c > 0
  {
    M - (Sum1(w) + Low(w) as int) % M
  }

  function Checksum(w: seq<word>): nat {
    High(w) as int * 0x1_0000_0000 + Low(w) as int
  }

  lemma {:induction false} SumsBounded(w: seq<word>)
    requires |w| <= MAX_WORDS
    ensures Sum1(w) <= |w| * M && Sum2(w) <= |w| * MAX_WORDS * M
  {
    if w != [] {
      SumsBounded(w[..|w| - 1]);
    }
  }

  lemma NoOverflow(w: seq<word>)
    requires |w| <= MAX_WORDS
    ensures Sum1(w) + M < TWO64 && Sum1(w) + Sum2(w) < TWO64
  {
    hide Sum1, Sum2;
    SumsBounded(w);
  }

  lemma SumsStep(w: seq<word>, i: nat)
    requires i < |w|
    ensures Sum1(w[..i + 1]) == Sum1(w[..i]) + w[i] as int && Sum2(w[..i + 1]) == Sum2(w[..i]) + Sum1(w[..i + 1])
  {
    assert w[..i + 1][..i] == w[..i];
  }

  /** apfs_fletcher64(), with the sums kept in 64 bits. */
  method Fletcher64(w: seq<word>) returns (csum: nat)
    requires |w| <= MAX_WORDS
    ensures csum == Checksum(w) < TWO64
  {
    hide Sum1, Sum2;
    var sum1, sum2, i := 0, 0, 0;
    NoSums(w[..0]);
    while i < |w|
      invariant i <= |w| && sum1 == Sum1(w[..i]) && sum2 == Sum2(w[..i])
    {
      SumsStep(w, i);
      NoOverflow(w[..i + 1]);
      sum1 := Wrap(sum1 + w[i] as int);
      sum2 := Wrap(sum2 + sum1);
      i := i + 1;
    }
    assert w[..i] == w;
    NoOverflow(w);
    var c1 := M - Wrap(sum1 + sum2) % M;
    var c2 := M - Wrap(sum1 + c1) % M;
    csum := c2 * 0x1_0000_0000 + c1;
  }

  /** Unsigned 64-bit arithmetic. */
  function Wrap(x: nat): (r: nat)
    ensures r < TWO64 && (x < TWO64 ==> r == x)
  {
    x % TWO64
  }

  lemma NoSums(w: seq<word>)
    requires w == []
    ensures Sum1(w) == 0 && Sum2(w) == 0
  {
  }

  // What the checksum is for

  lemma Append(w: seq<word>, x: word)
    ensures Sum1(w + [x]) == Sum1(w) + x as int && Sum2(w + [x]) == Sum2(w) + Sum1(w) + x as int
  {
    assert (w + [x])[..|w|] == w;
  }

  /** The checksum words are the only nonzero ones that bring both sums to zero. */
  lemma ChecksToZero(w: seq<word>, low: word, high: word)
    requires low > 0 && high > 0
    ensures Sum1(w + [low] + [high]) % M == 0 && Sum2(w + [low] + [high]) % M == 0 <==> low == Low(w) && high == High(w)
  {
    hide Sum1, Sum2;
    Append(w, low);
    Append(w + [low], high);
    var s1, s2: int := Sum1(w), Sum2(w);
    assert Sum1(w + [low] + [high]) == s1 + low as int + high as int;
    assert Sum2(w + [low] + [high]) == s2 + s1 + low as int + s1 + low as int + high as int;
    ZeroIff(Sum1(w), Sum2(w), low, high);
  }

  lemma ZeroIff(s1: nat, s2: nat, low: int, high: int)
    requires 0 < low <= M && 0 < high <= M
    ensures (s1 + low + high) % M == 0 && (s2 + s1 + low + s1 + low + high) % M == 0 <==>
            low == M - (s1 + s2) % M && high == M - (s1 + (M - (s1 + s2) % M)) % M
  {
  }

  lemma {:induction false} OneWord(w: seq<word>, i: nat, x: word)
    requires i < |w|
    ensures Sum1(w[i := x]) - Sum1(w) == x as int - w[i] as int
    ensures (x as int - w[i] as int) % M == 0 ==> (Sum2(w[i := x]) - Sum2(w)) % M == 0
    decreases |w|
  {
    hide Sum1, Sum2;
    var n, t := |w| - 1, w[i := x];
    LastWord(w);
    LastWord(t);
    if i < n {
      OneWord(w[..n], i, x);
      assert t[..n] == w[..n][i := x];
    } else {
      assert t[..n] == w[..n];
    }
  }

  lemma LastWord(w: seq<word>)
    requires w != []
    ensures var init, x := w[..|w| - 1], w[|w| - 1] as int; Sum1(w) == Sum1(init) + x && Sum2(w) == Sum2(init) + Sum1(w)
  {
  }

  /** A change to a single word goes unnoticed if and only if it is a multiple of M, that is,
      if it swaps a zero word and an all-ones word. */
  lemma SingleChange(w: seq<word>, i: nat, x: word)
    requires i < |w|
    ensures Checksum(w[i := x]) == Checksum(w) <==> x == w[i] || (x == 0 && w[i] == M) || (x == M && w[i] == 0)
  {
    hide Sum1, Sum2, Checksum;
    var t := w[i := x];
    OneWord(w, i, x);
    Congruent(x, w[i]);
    Halves(w);
    Halves(t);
    SameSums(Sum1(w), Sum2(w), Sum1(t), Sum2(t));
    SameHalves(w, t);
  }

  lemma Congruent(x: word, y: word)
    ensures (x as int - y as int) % M == 0 <==> x == y || (x == 0 && y == M) || (x == M && y == 0)
  {
  }

  lemma SameHalves(w: seq<word>, t: seq<word>)
    ensures Checksum(w) == Checksum(t) <==> Low(w) == Low(t) && High(w) == High(t)
  {
    hide Low, High;
    Halves(w);
    Halves(t);
  }

  lemma SameSums(s1: nat, s2: nat, t1: nat, t2: nat)
    requires (t1 - s1) % M == 0 ==> (t2 - s2) % M == 0
    ensures var c, d := M - (s1 + s2) % M, M - (t1 + t2) % M;
      c == d && M - (s1 + c) % M == M - (t1 + d) % M <==> (t1 - s1) % M == 0
  {
  }

  // Objects

  /** apfs_multiblock_set_csum(): the checksum goes in the first two words. */
  method SetCsum(obj: array<word>)
    requires 2 <= obj.Length <= MAX_WORDS
    modifies obj
    ensures obj[2..] == old(obj[2..]) && obj[0] == Low(obj[2..]) && obj[1] == High(obj[2..])
  {
    var csum := Fletcher64(obj[2..]);
    Halves(obj[2..]);
    obj[0] := csum % 0x1_0000_0000;
    obj[1] := csum / 0x1_0000_0000;
    assert obj[2..] == old(obj[2..]);
  }

  lemma Halves(w: seq<word>)
    ensures Checksum(w) % 0x1_0000_0000 == Low(w) && Checksum(w) / 0x1_0000_0000 == High(w)
  {
  }

  /** apfs_multiblock_verify_csum() accepts exactly the objects whose words, with the
      checksum moved to the end, add up to zero both ways. */
  method VerifyCsum(obj: seq<word>) returns (ok: bool)
    requires 2 <= |obj| <= MAX_WORDS
    ensures ok <==> obj[0] > 0 && obj[1] > 0 &&
                    Sum1(obj[2..] + [obj[0]] + [obj[1]]) % M == 0 && Sum2(obj[2..] + [obj[0]] + [obj[1]]) % M == 0
  {
    hide Sum1, Sum2;
    var header := obj[1] as int * 0x1_0000_0000 + obj[0] as int;
    var actual := Fletcher64(obj[2..]);
    ok := header == actual;
    if obj[0] > 0 && obj[1] > 0 { ChecksToZero(obj[2..], obj[0], obj[1]); }
  }
}
