/**
  The pinned Unicode tables as a parameter, single-code-point decomposition and pair
  composition (with the algorithmic Hangul parts), and the facts about the tables that
  the normal-form theorem needs.
  */
module NfkcTables {
  import opened Wrappers

  const HANGUL_S_BASE := 0xAC00
  const HANGUL_L_BASE := 0x1100
  const HANGUL_V_BASE := 0x1161
  const HANGUL_T_BASE := 0x11A7
  const HANGUL_L_COUNT := 19
  const HANGUL_V_COUNT := 21
  const HANGUL_T_COUNT := 28
  const HANGUL_N_COUNT := HANGUL_V_COUNT * HANGUL_T_COUNT
  const HANGUL_S_COUNT := HANGUL_L_COUNT * HANGUL_N_COUNT

  const SURROGATE_FIRST := 0xD800
  const SURROGATE_LAST := 0xDFFF

  datatype Tables = Tables(
    decomposition: map<int, seq<int>>,
    ccc: map<int, nat>,
    composition: map<(int, int), int>,
    assignedStarts: seq<int>,
    assignedEnds: seq<int>)

  function Ccc(t: Tables, cp: int): nat {
    if cp in t.ccc then t.ccc[cp] else 0
  }

  predicate IsHangulSyllable(cp: int) {
    HANGUL_S_BASE <= cp < HANGUL_S_BASE + HANGUL_S_COUNT
  }

  predicate IsHangulL(cp: int) { HANGUL_L_BASE <= cp < HANGUL_L_BASE + HANGUL_L_COUNT }

  predicate IsHangulV(cp: int) { HANGUL_V_BASE <= cp < HANGUL_V_BASE + HANGUL_V_COUNT }

  predicate IsHangulT(cp: int) { HANGUL_T_BASE < cp < HANGUL_T_BASE + HANGUL_T_COUNT }

  function DecomposeOne(t: Tables, cp: int): seq<int> {
    if IsHangulSyllable(cp) then
      var sIndex := cp - HANGUL_S_BASE;
      var lv := [HANGUL_L_BASE + sIndex / HANGUL_N_COUNT,
                 HANGUL_V_BASE + sIndex % HANGUL_N_COUNT / HANGUL_T_COUNT];
      if sIndex % HANGUL_T_COUNT != 0 then lv + [HANGUL_T_BASE + sIndex % HANGUL_T_COUNT] else lv
    else if cp in t.decomposition then t.decomposition[cp]
    else [cp]
  }

  function ComposePair(t: Tables, a: int, b: int): Option<int> {
    if IsHangulL(a) && IsHangulV(b) then
      Some(HANGUL_S_BASE + ((a - HANGUL_L_BASE) * HANGUL_V_COUNT + (b - HANGUL_V_BASE)) * HANGUL_T_COUNT)
    else if IsHangulSyllable(a) && (a - HANGUL_S_BASE) % HANGUL_T_COUNT == 0 && IsHangulT(b) then
      Some(a + (b - HANGUL_T_BASE))
    else if (a, b) in t.composition then Some(t.composition[(a, b)])
    else None
  }

  // ----- the assigned ranges -------------------------------------------------------

  /** The insertion point of `x` in sorted `xs`, after any entries equal to it. */
  function BisectRight(xs: seq<int>, x: int): (r: nat)
    ensures r <= |xs|
  {
    if xs == [] || xs[|xs| - 1] <= x then |xs| else BisectRight(xs[..|xs| - 1], x)
  }

  predicate InRanges(starts: seq<int>, ends: seq<int>, cp: int)
    requires |starts| == |ends|
  {
    var index := BisectRight(starts, cp) - 1;
    index >= 0 && cp <= ends[index]
  }

  predicate SortedRanges(starts: seq<int>, ends: seq<int>) {
    && |starts| == |ends|
    && (forall i :: 0 <= i < |starts| ==> starts[i] <= ends[i])
    && (forall i, j :: 0 <= i < j < |starts| ==> ends[i] < starts[j])
  }

  lemma {:induction false} BisectRightMeaning(xs: seq<int>, x: int)
    requires forall i, j :: 0 <= i < j < |xs| ==> xs[i] <= xs[j]
    ensures forall i :: 0 <= i < BisectRight(xs, x) ==> xs[i] <= x
    ensures forall i :: BisectRight(xs, x) <= i < |xs| ==> x < xs[i]
  {
    if xs != [] && xs[|xs| - 1] > x {
      var init := xs[..|xs| - 1];
      BisectRightMeaning(init, x);
      forall i | BisectRight(xs, x) <= i < |xs| ensures x < xs[i] {
        if i < |init| { assert xs[i] == init[i]; }
      }
      forall i | 0 <= i < BisectRight(xs, x) ensures xs[i] <= x {
        assert xs[i] == init[i];
      }
    }
  }

  /** The bisection agrees with membership in one of the ranges. */
  lemma InRangesIsMembership(starts: seq<int>, ends: seq<int>, cp: int)
    requires SortedRanges(starts, ends)
    ensures InRanges(starts, ends, cp) <==> exists k :: 0 <= k < |starts| && starts[k] <= cp <= ends[k]
  {
    forall i, j | 0 <= i < j < |starts| ensures starts[i] <= starts[j] {
      assert starts[i] <= ends[i] < starts[j];
    }
    BisectRightMeaning(starts, cp);
    var index := BisectRight(starts, cp) - 1;
    forall k | 0 <= k < index ensures ends[k] < cp {
      assert ends[k] < starts[index];
    }
  }

  /** A code point that validation lets through. */
  predicate IsValidScalar(t: Tables, cp: int)
    requires |t.assignedStarts| == |t.assignedEnds|
  {
    !(SURROGATE_FIRST <= cp <= SURROGATE_LAST) && InRanges(t.assignedStarts, t.assignedEnds, cp)
  }

  // ----- what the theorem assumes of the tables ------------------------------------

  predicate IsDecomposed(t: Tables, cp: int) { DecomposeOne(t, cp) == [cp] }

  ghost predicate SoundTables(t: Tables) {
    && |t.assignedStarts| == |t.assignedEnds|
    // decomposition values are fully decomposed and assigned
    && (forall k, d :: k in t.decomposition && d in t.decomposition[k] ==> IsDecomposed(t, d) && IsValidScalar(t, d))
    // a table composite decomposes to its pair, and is an assigned starter
    && (forall p :: p in t.composition ==>
          var c := t.composition[p];
          DecomposeOne(t, c) == DecomposeOne(t, p.0) + [p.1] && Ccc(t, c) == 0 && IsValidScalar(t, c))
    // jamo are fully decomposed and assigned; syllables are assigned starters
    && (forall cp :: IsHangulL(cp) || IsHangulV(cp) || IsHangulT(cp) ==> IsDecomposed(t, cp) && IsValidScalar(t, cp))
    && (forall cp :: IsHangulSyllable(cp) ==> Ccc(t, cp) == 0 && IsValidScalar(t, cp))
  }

  predicate Ordered(t: Tables, s: seq<int>) {
    forall i :: 0 < i < |s| ==> Ccc(t, s[i]) == 0 || Ccc(t, s[i - 1]) <= Ccc(t, s[i])
  }

  /** Every decomposition is non-empty and in canonical order. */
  ghost predicate OrderedTables(t: Tables) {
    forall cp :: DecomposeOne(t, cp) != [] && Ordered(t, DecomposeOne(t, cp))
  }

  /** The assumptions can hold together: a table with A + ring = A-ring meets them. */
  lemma SoundTablesExist()
    ensures SoundTables(RING_TABLES) && OrderedTables(RING_TABLES)
  {
    hide OrderedTables;
    forall cp | 0 <= cp ensures BisectRight([0], cp) == 1 {
    }
    RingOrdered();
  }

  const RING_TABLES: Tables :=
    Tables(map[0xC5 := [0x41, 0x30A]], map[0x30A := 230], map[(0x41, 0x30A) := 0xC5], [0], [0x10FFFF])

  lemma RingOrdered()
    ensures OrderedTables(RING_TABLES)
  {
  }

  /** Every composition, table or Hangul, is undone by decomposition. */
  lemma ComposePairDecomposes(t: Tables, a: int, b: int)
    requires SoundTables(t) && ComposePair(t, a, b).Some?
    ensures var c := ComposePair(t, a, b).value;
            DecomposeOne(t, c) == DecomposeOne(t, a) + [b] && Ccc(t, c) == 0 && IsValidScalar(t, c)
  {
    var c := ComposePair(t, a, b).value;
    if IsHangulL(a) && IsHangulV(b) {
      var l, v := a - HANGUL_L_BASE, b - HANGUL_V_BASE;
      var sIndex := c - HANGUL_S_BASE;
      assert sIndex == l * 588 + v * 28;
      assert sIndex / 588 == l && sIndex % 588 == v * 28;
      assert IsHangulSyllable(c);
    } else if IsHangulSyllable(a) && (a - HANGUL_S_BASE) % HANGUL_T_COUNT == 0 && IsHangulT(b) {
      var s, d := a - HANGUL_S_BASE, b - HANGUL_T_BASE;
      HangulSameBlock(s, d);
      assert IsHangulSyllable(c);
    } else {
      assert (a, b) in t.composition;
    }
  }

  /** The arithmetic on the syllables of the Unicode Standard's own example, and on its last syllable. */
  lemma HangulExamples(t: Tables)
    ensures DecomposeOne(t, 0xD4DB) == [0x1111, 0x1171, 0x11B6] && DecomposeOne(t, 0xAC00) == [0x1100, 0x1161]
    ensures DecomposeOne(t, 0xD7A3) == [0x1112, 0x1175, 0x11C2]
    ensures ComposePair(t, 0x1111, 0x1171) == Some(0xD4CC) && ComposePair(t, 0xD4CC, 0x11B6) == Some(0xD4DB)
  {
  }

  /** A pair outside the table composes to the one Hangul syllable that decomposes to it, or to nothing. */
  lemma HangulComposesExactly(t: Tables, a: int, b: int, c: int)
    requires SoundTables(t) && (IsDecomposed(t, a) || IsHangulSyllable(a)) && (a, b) !in t.composition
    ensures ComposePair(t, a, b) == Some(c) <==> IsHangulSyllable(c) && DecomposeOne(t, c) == DecomposeOne(t, a) + [b]
  {
    if ComposePair(t, a, b) == Some(c) {
      ComposePairDecomposes(t, a, b);
    }
    if IsHangulSyllable(c) && DecomposeOne(t, c) == DecomposeOne(t, a) + [b] {
      SyllableParts(t, c);
      var d := DecomposeOne(t, c);
      assert d[|d| - 1] == b && d[..|d| - 1] == DecomposeOne(t, a);
      if IsHangulSyllable(a) {
        SyllableParts(t, a);
      }
    }
  }

  /** A syllable's number from its jamo. */
  lemma SyllableParts(t: Tables, c: int)
    requires IsHangulSyllable(c)
    ensures var d := DecomposeOne(t, c);
            && 2 <= |d| <= 3
            && IsHangulL(d[0])
            && IsHangulV(d[1])
            && (|d| == 3 ==> IsHangulT(d[2]))
            && c == 0xAC00 + ((d[0] - 0x1100) * 21 + (d[1] - 0x1161)) * 28 + if |d| == 3 then d[2] - 0x11A7 else 0
  {
    var s := c - 0xAC00;
    HangulPartsInRange(s);
    assert s % 588 % 28 == s % 28;
  }

  /** Any other pair composes to what the table gives for it. */
  lemma TableComposes(t: Tables, a: int, b: int)
    requires (a, b) in t.composition && !IsHangulV(b) && !IsHangulT(b)
    ensures ComposePair(t, a, b) == Some(t.composition[(a, b)])
  {
  }

  /** What a composition absorbs is fully decomposed; the composite is not. */
  lemma CompositeTakesApart(t: Tables, a: int, b: int)
    requires SoundTables(t) && OrderedTables(t) && ComposePair(t, a, b).Some?
    ensures IsDecomposed(t, b) && !IsDecomposed(t, ComposePair(t, a, b).value)
  {
    var c := ComposePair(t, a, b).value;
    ComposePairDecomposes(t, a, b);
    DecomposeOneIsDecomposed(t, c);
    assert b in DecomposeOne(t, a) + [b];
    assert DecomposeOne(t, a) != [];
  }

  /** Adding a trailing consonant keeps the leading and vowel parts. */
  lemma HangulSameBlock(s: nat, d: nat)
    requires s % 28 == 0 && d < 28 && s < 11172
    ensures (s + d) / 588 == s / 588 && (s + d) % 588 / 28 == s % 588 / 28 && (s + d) % 28 == d
    ensures s + d < 11172
  {
    var q := s / 28;
    assert s == 28 * q;
    assert q < 399;
    var l, v := q / 21, q % 21;
    assert s == 588 * l + 28 * v;
    assert s / 588 == l && (s + d) / 588 == l;
    assert s % 588 == 28 * v && (s + d) % 588 == 28 * v + d;
  }

  lemma HangulPartsInRange(s: nat)
    requires s < HANGUL_S_COUNT
    ensures 0 <= s / HANGUL_N_COUNT < HANGUL_L_COUNT
    ensures 0 <= s % HANGUL_N_COUNT / HANGUL_T_COUNT < HANGUL_V_COUNT
    ensures s % HANGUL_T_COUNT != 0 ==> IsHangulT(HANGUL_T_BASE + s % HANGUL_T_COUNT)
  {
  }

  /** Decomposition yields fully decomposed, assigned code points. */
  lemma DecomposeOneIsDecomposed(t: Tables, cp: int)
    requires SoundTables(t) && IsValidScalar(t, cp)
    ensures forall d :: d in DecomposeOne(t, cp) ==> IsDecomposed(t, d) && IsValidScalar(t, d)
  {
    if IsHangulSyllable(cp) {
      var sIndex := cp - HANGUL_S_BASE;
      HangulPartsInRange(sIndex);
      var lv := [HANGUL_L_BASE + sIndex / HANGUL_N_COUNT,
                 HANGUL_V_BASE + sIndex % HANGUL_N_COUNT / HANGUL_T_COUNT];
      assert DecomposeOne(t, cp) <= lv + [HANGUL_T_BASE + sIndex % HANGUL_T_COUNT];
      assert IsHangulL(lv[0]) && IsHangulV(lv[1]);
    }
  }
}
