/** Division and remainder, for block numbers and positions in a ring. */
module Arith {

  lemma MulGap(i: nat, q: nat, n: nat)
    requires i < q
    ensures i * n + n <= q * n
  {
    assert q * n == i * n + (q - i) * n;
    assert (q - i) * n == n + (q - i - 1) * n;
  }

  lemma DivOf(i: nat, k: nat, n: nat)
    requires k < n
    ensures (i * n + k) / n == i && (i * n + k) % n == k
  {
    var b := i * n + k;
    var q, r := b / n, b % n;
    assert b == q * n + r && 0 <= r < n;
    if q < i { MulGap(q, i, n); } else if q > i { MulGap(i, q, n); }
  }

  lemma ModGap(a: nat, d: nat, n: nat)
    requires 0 < d < n
    ensures a % n != (a + d) % n
  {
    var q, r := a / n, a % n;
    assert a == q * n + r;
    if r + d < n {
      DivOf(q, r + d, n);
    } else {
      assert (q + 1) * n == q * n + n;
      DivOf(q + 1, r + d - n, n);
    }
  }

  /** Stepping an index with a reset at the end is the same as stepping it modulo. */
  lemma ModStep(i: nat, n: nat)
    requires n > 0
    ensures (i + 1) % n == if i % n + 1 == n then 0 else i % n + 1
  {
    var q, r := i / n, i % n;
    assert i == q * n + r;
    if r + 1 == n {
      assert (q + 1) * n == q * n + n;
      DivOf(q + 1, 0, n);
    } else {
      DivOf(q, r + 1, n);
    }
  }

  lemma ModTwice(i: nat, j: nat, n: nat)
    requires n > 0
    ensures (i % n + j) % n == (i + j) % n
  {
    var q, r := i / n, i % n;
    var s, t := (r + j) / n, (r + j) % n;
    assert i == q * n + r && r + j == s * n + t;
    assert (q + s) * n == q * n + s * n;
    DivOf(q + s, t, n);
  }

  lemma ModAround(i: nat, n: nat)
    requires n > 0
    ensures (i + n) % n == i % n
  {
    var q, r := i / n, i % n;
    assert i == q * n + r;
    assert (q + 1) * n == q * n + n;
    DivOf(q + 1, r, n);
  }
}
