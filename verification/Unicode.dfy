/** Normalized forms of filenames (unicode.c). The Unicode tables are parameters: for each
    character, its canonical decomposition, its case folding and its combining class. */
module Unicode {

  // Decomposition of a single character

  const HANGUL_S_BASE := 0xac00
  const HANGUL_L_BASE := 0x1100
  const HANGUL_V_BASE := 0x1161
  const HANGUL_T_BASE := 0x11a7
  const HANGUL_L_COUNT := 19
  const HANGUL_V_COUNT := 21
  const HANGUL_T_COUNT := 28
  const HANGUL_N_COUNT := 588
  const HANGUL_S_COUNT := 11172
  const NORM_END := 0xFFFF_FFFF
  const UNICODE_MAX := 0x10FFFF

  predicate IsHangul(c: nat) { HANGUL_S_BASE <= c < HANGUL_S_BASE + HANGUL_S_COUNT }

  /** The decomposition of a Hangul syllable in section 3.12 of the Unicode Standard. */
  function Jamos(c: nat): (r: seq<nat>)
    requires IsHangul(c)
    ensures 2 <= |r| <= 3
  {
    var index := c - HANGUL_S_BASE;
    var l, v := HANGUL_L_BASE + index / HANGUL_N_COUNT, HANGUL_V_BASE + index % HANGUL_N_COUNT / HANGUL_T_COUNT;
    [l, v] + if index % HANGUL_T_COUNT == 0 then [] else [HANGUL_T_BASE + index % HANGUL_T_COUNT]
  }

  /** The composition of jamos, also from section 3.12. */
  function Syllable(jamos: seq<nat>): int
    requires 2 <= |jamos| <= 3
  {
    var l, v := jamos[0] - HANGUL_L_BASE, jamos[1] - HANGUL_V_BASE;
    HANGUL_S_BASE + (l * HANGUL_V_COUNT + v) * HANGUL_T_COUNT + if |jamos| == 3 then jamos[2] - HANGUL_T_BASE else 0
  }

  lemma JamosCompose(c: nat)
    requires IsHangul(c)
    ensures Syllable(Jamos(c)) == c
    ensures HANGUL_L_BASE <= Jamos(c)[0] < HANGUL_L_BASE + HANGUL_L_COUNT
    ensures HANGUL_V_BASE <= Jamos(c)[1] < HANGUL_V_BASE + HANGUL_V_COUNT
    ensures |Jamos(c)| == 3 ==> HANGUL_T_BASE < Jamos(c)[2] < HANGUL_T_BASE + HANGUL_T_COUNT
  {
    var index := c - HANGUL_S_BASE;
    var l, n := index / HANGUL_N_COUNT, index % HANGUL_N_COUNT;
    assert n / HANGUL_T_COUNT * HANGUL_T_COUNT + n % HANGUL_T_COUNT == n;
    assert index == l * HANGUL_N_COUNT + n && n % HANGUL_T_COUNT == index % HANGUL_T_COUNT;
  }

  /** The first syllable with a final consonant, and the last syllable. */
  lemma SyllableExamples()
    ensures IsHangul(0xAC01) && Jamos(0xAC01) == [0x1100, 0x1161, 0x11A8]
    ensures IsHangul(0xD7A3) && Jamos(0xD7A3) == [0x1112, 0x1175, 0x11C2]
    ensures !IsHangul(0xABFF) && !IsHangul(0xD7A4)
  {
  }

  /** The tables, and whether names are also case folded. */
  datatype Tables = Tables(nfd: nat -> seq<nat>, cf: nat -> seq<nat>, ccc: nat -> nat, fold: bool) {

    function FoldAll(s: seq<nat>): seq<nat> {
      if s == [] then [] else cf(s[0]) + FoldAll(s[1..])
    }

    /** What a character turns into. */
    function Expand(c: nat): seq<nat> {
      if IsHangul(c) then Jamos(c) else if fold then FoldAll(nfd(c)) else nfd(c)
    }

    function Ccc(x: nat): nat { ccc(x) }

    /** Starters, followed only by characters that combine with them. */
    ghost predicate Shaped(s: seq<nat>) {
      forall i, j :: 0 <= i < j < |s| && Ccc(s[i]) > 0 ==> Ccc(s[j]) > 0
    }

    /** What is needed of the tables, with or without case folding. */
    ghost predicate Valid() {
      && (forall c :: 0 < c <= UNICODE_MAX ==> Expand(c) != [])
      && (forall c, i :: 0 < c <= UNICODE_MAX && 0 <= i < |Expand(c)| ==>
        0 < Expand(c)[i] < NORM_END && Ccc(Expand(c)[i]) < 255)
      && (forall c :: 0 < c < 128 ==> Expand(c) == [Lower(c)] && Ccc(Lower(c)) == 0)
    }

    /** tolower(), for names that are case folded. */
    function Lower(c: nat): nat {
      if fold && 'A' as int <= c <= 'Z' as int then c + 32 else c
    }

    lemma {:induction false} FoldAllAt(s: seq<nat>, k: nat)
      requires k < |s|
      ensures FoldAll(s[k..]) == cf(s[k]) + FoldAll(s[k + 1..])
    {
      assert s[k..][1..] == s[k + 1..];
    }

    /** apfs_normalize_char() */
    method NormalizeChar(c: nat, off: nat) returns (r: nat)
      ensures r == if off < |Expand(c)| then Expand(c)[off] else NORM_END
    {
      if IsHangul(c) {
        r := DecomposeHangul(c, off);
        return;
      }
      var d := nfd(c);
      if !fold {
        return if off < |d| then d[off] else NORM_END;
      }
      var k, rest := 0, off;
      assert d[0..] == d;
      while k < |d|
        invariant k <= |d| && 0 <= rest
        invariant off < |FoldAll(d)| <==> rest < |FoldAll(d[k..])|
        invariant off < |FoldAll(d)| ==> FoldAll(d)[off] == FoldAll(d[k..])[rest]
      {
        FoldAllAt(d, k);
        var f := cf(d[k]);
        if rest < |f| {
          return f[rest];
        }
        rest := rest - |f|;
        k := k + 1;
      }
      r := NORM_END;
    }
  }

  /** apfs_decompose_hangul() */
  method DecomposeHangul(c: nat, off: nat) returns (r: nat)
    requires IsHangul(c)
    ensures r == if off < |Jamos(c)| then Jamos(c)[off] else NORM_END
  {
    var index := c - HANGUL_S_BASE;
    var l := HANGUL_L_BASE + index / HANGUL_N_COUNT;
    if off == 0 {
      return l;
    }
    var v := HANGUL_V_BASE + index % HANGUL_N_COUNT / HANGUL_T_COUNT;
    if off == 1 {
      return v;
    }
    var t := HANGUL_T_BASE + index % HANGUL_T_COUNT;
    if off == 2 && t != HANGUL_T_BASE {
      return t;
    }
    r := NORM_END;
  }
}
