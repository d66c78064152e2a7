/**
  Pinned NFKC: validate, decompose, reorder, compose.  The composition loop's
  constant-time "blocked" test is proved equal to the quantified definition of UAX #15,
  and composition is proved to be undone by decomposing and reordering, which makes the
  whole function an idempotent normal form.
  */
module Nfkc {
  import opened Wrappers
  import opened ByteStrings
  import opened NfkcTables
  import opened CanonicalOrder

  datatype NfkcError = UnpairedSurrogate(codePoint: int) | UnassignedCodePoint(codePoint: int)

  // ----- validation ----------------------------------------------------------------

  predicate IsValidText(t: Tables, text: seq<int>)
    requires |t.assignedStarts| == |t.assignedEnds|
  {
    forall i :: 0 <= i < |text| ==> IsValidScalar(t, text[i])
  }

  predicate FirstBad(t: Tables, text: seq<int>, i: nat)
    requires |t.assignedStarts| == |t.assignedEnds|
  {
    i < |text| && IsValidText(t, text[..i]) && !IsValidScalar(t, text[i])
  }

  function ErrorFor(cp: int): NfkcError {
    if SURROGATE_FIRST <= cp <= SURROGATE_LAST then UnpairedSurrogate(cp) else UnassignedCodePoint(cp)
  }

  /** Checks every code point and reports the first bad one. */
  method Validate(t: Tables, text: seq<int>) returns (r: Result<seq<int>, NfkcError>)
    requires |t.assignedStarts| == |t.assignedEnds|
    ensures r.Ok? <==> IsValidText(t, text)
    ensures r.Ok? ==> r.value == text
    ensures r.Err? ==> exists i :: 0 <= i < |text| && FirstBad(t, text, i) && r.error == ErrorFor(text[i])
  {
    var codePoints := [];
    for i := 0 to |text|
      invariant codePoints == text[..i]
      invariant forall k :: 0 <= k < i ==> IsValidScalar(t, text[k])
    {
      var cp := text[i];
      if SURROGATE_FIRST <= cp <= SURROGATE_LAST {
        assert FirstBad(t, text, i);
        return Err(UnpairedSurrogate(cp));
      }
      if !InRanges(t.assignedStarts, t.assignedEnds, cp) {
        assert FirstBad(t, text, i);
        return Err(UnassignedCodePoint(cp));
      }
      codePoints := codePoints + [cp];
    }
    return Ok(codePoints);
  }

  // ----- decomposition -------------------------------------------------------------

  function Decomposer(t: Tables): int -> seq<int> {
    cp => DecomposeOne(t, cp)
  }

  function Decompose(t: Tables, s: seq<int>): seq<int> {
    FlatMap(Decomposer(t), s)
  }

  method DecomposeText(t: Tables, s: seq<int>) returns (out: seq<int>)
    ensures out == Decompose(t, s)
  {
    out := [];
    for i := 0 to |s|
      invariant out == Decompose(t, s[..i])
    {
      var cp := s[i];
      FlatMapLast(Decomposer(t), s[..i], cp);
      assert s[..i + 1] == s[..i] + [cp];
      ghost var before := out;
      if HANGUL_S_BASE <= cp < HANGUL_S_BASE + HANGUL_S_COUNT {
        var sIndex := cp - HANGUL_S_BASE;
        out := out + [HANGUL_L_BASE + sIndex / HANGUL_N_COUNT];
        out := out + [HANGUL_V_BASE + sIndex % HANGUL_N_COUNT / HANGUL_T_COUNT];
        var trailing := sIndex % HANGUL_T_COUNT;
        if trailing != 0 {
          out := out + [HANGUL_T_BASE + trailing];
        }
      } else if cp in t.decomposition {
        out := out + t.decomposition[cp];
      } else {
        out := out + [cp];
      }
      assert out == before + DecomposeOne(t, cp);
    }
    assert s[..|s|] == s;
  }

  predicate AllDecomposed(t: Tables, s: seq<int>) {
    forall i :: 0 <= i < |s| ==> IsDecomposed(t, s[i])
  }

  lemma {:induction false} DecomposeIsDecomposed(t: Tables, s: seq<int>)
    requires SoundTables(t) && IsValidText(t, s)
    ensures AllDecomposed(t, Decompose(t, s)) && IsValidText(t, Decompose(t, s))
  {
    if s != [] {
      DecomposeIsDecomposed(t, s[..|s| - 1]);
      DecomposeOneIsDecomposed(t, s[|s| - 1]);
    }
  }

  // ----- composition, as UAX #15 defines it ----------------------------------------

  /** The index of the last starter, or -1. */
  function LastStarter(t: Tables, out: seq<int>): (i: int)
    ensures -1 <= i < |out|
    ensures i >= 0 ==> Ccc(t, out[i]) == 0
    ensures forall j :: i < j < |out| ==> Ccc(t, out[j]) != 0
  {
    if out == [] then -1
    else if Ccc(t, out[|out| - 1]) == 0 then |out| - 1
    else LastStarter(t, out[..|out| - 1])
  }

  /** No character between the starter at `i` and `cp` is a starter or has a class at or above `cp`'s. */
  predicate NotBlocked(t: Tables, out: seq<int>, i: int, cp: int)
    requires 0 <= i < |out|
  {
    forall j :: i < j < |out| ==> 0 < Ccc(t, out[j]) < Ccc(t, cp)
  }

  type Composer = (int, int) -> Option<int>

  function TableComposer(t: Tables): Composer {
    (a, b) => ComposePair(t, a, b)
  }

  function ComposeStep(t: Tables, g: Composer, out: seq<int>, cp: int): seq<int> {
    var i := LastStarter(t, out);
    if i >= 0 && NotBlocked(t, out, i, cp) && g(out[i], cp).Some? then out[i := g(out[i], cp).value]
    else out + [cp]
  }

  function ComposeWith(t: Tables, g: Composer, s: seq<int>): seq<int> {
    if s == [] then [] else ComposeStep(t, g, ComposeWith(t, g, s[..|s| - 1]), s[|s| - 1])
  }

  function Compose(t: Tables, s: seq<int>): seq<int> {
    ComposeWith(t, TableComposer(t), s)
  }

  /** `f` decomposes a character; every composition of `g` is a starter that `f` takes apart. */
  ghost predicate Undoes(t: Tables, f: int -> seq<int>, g: Composer) {
    forall a, b :: g(a, b).Some? ==> f(g(a, b).value) == f(a) + [b] && Ccc(t, g(a, b).value) == 0
  }

  lemma TablesUndo(t: Tables)
    requires SoundTables(t)
    ensures Undoes(t, Decomposer(t), TableComposer(t))
  {
    forall a, b | ComposePair(t, a, b).Some?
      ensures Decomposer(t)(ComposePair(t, a, b).value) == Decomposer(t)(a) + [b]
      ensures Ccc(t, ComposePair(t, a, b).value) == 0
    {
      ComposePairDecomposes(t, a, b);
    }
  }

  // ----- the composition loop ------------------------------------------------------

  /** What the loop knows of `out`: where the last starter is, that the characters after it
      are in order, and that `lastCcc` is the class of the last of them, at most `previous`. */
  ghost predicate LoopState(t: Tables, out: seq<int>, starterIdx: int, lastCcc: nat, previous: nat) {
    && starterIdx == LastStarter(t, out)
    && (forall j, k :: starterIdx < j < k < |out| ==> Ccc(t, out[j]) <= Ccc(t, out[k]))
    && (starterIdx < |out| - 1 ==> lastCcc == Ccc(t, out[|out| - 1]) <= previous)
  }

  lemma LastStarterAppend(t: Tables, out: seq<int>, cp: int)
    ensures LastStarter(t, out + [cp]) == if Ccc(t, cp) == 0 then |out| else LastStarter(t, out)
  {
    assert (out + [cp])[..|out|] == out;
  }

  lemma LastStarterUnique(t: Tables, out: seq<int>, i: int)
    requires 0 <= i < |out| && Ccc(t, out[i]) == 0
    requires forall j :: i < j < |out| ==> Ccc(t, out[j]) != 0
    ensures LastStarter(t, out) == i
  {
  }

  /** The constant-time test is the quantified one. */
  lemma BlockedTestAgrees(t: Tables, out: seq<int>, starterIdx: int, lastCcc: nat, previous: nat, cp: int)
    requires LoopState(t, out, starterIdx, lastCcc, previous) && starterIdx >= 0
    ensures starterIdx == |out| - 1 || lastCcc < Ccc(t, cp) <==> NotBlocked(t, out, starterIdx, cp)
  {
  }

  lemma StateAfterCompose(t: Tables, out: seq<int>, starterIdx: int, lastCcc: nat, previous: nat, cp: int, c: int)
    requires LoopState(t, out, starterIdx, lastCcc, previous) && starterIdx >= 0
    requires NotBlocked(t, out, starterIdx, cp) && Ccc(t, c) == 0
    ensures LoopState(t, out[starterIdx := c], starterIdx, lastCcc, Ccc(t, cp))
  {
    LastStarterUnique(t, out[starterIdx := c], starterIdx);
  }

  lemma StateAfterAppend(t: Tables, out: seq<int>, starterIdx: int, lastCcc: nat, previous: nat, cp: int)
    requires LoopState(t, out, starterIdx, lastCcc, previous)
    requires Ccc(t, cp) == 0 || previous <= Ccc(t, cp)
    ensures LoopState(t, out + [cp], if Ccc(t, cp) == 0 then |out| else starterIdx, Ccc(t, cp), Ccc(t, cp))
  {
    LastStarterAppend(t, out, cp);
  }

  lemma ComposeLast(t: Tables, g: Composer, s: seq<int>, i: nat)
    requires i < |s|
    ensures ComposeWith(t, g, s[..i + 1]) == ComposeStep(t, g, ComposeWith(t, g, s[..i]), s[i])
  {
    assert s[..i + 1][..i] == s[..i];
  }

  method ComposeText(t: Tables, s: seq<int>) returns (out: seq<int>)
    requires SoundTables(t) && Ordered(t, s)
    ensures out == Compose(t, s)
  {
    out := [];
    var starterIdx := -1;
    var lastCcc := 0;
    ghost var previous := 0;
    ghost var g := TableComposer(t);
    TablesUndo(t);
    for i := 0 to |s|
      invariant out == ComposeWith(t, g, s[..i])
      invariant -1 <= starterIdx < |out|
      invariant LoopState(t, out, starterIdx, lastCcc, previous)
      invariant previous == if i == 0 then 0 else Ccc(t, s[i - 1])
    {
      var cp := s[i];
      ComposeLast(t, g, s, i);
      var combining := Ccc(t, cp);
      var composed := None;
      if starterIdx >= 0 {
        BlockedTestAgrees(t, out, starterIdx, lastCcc, previous, cp);
        if starterIdx == |out| - 1 || lastCcc < combining {
          composed := ComposePair(t, out[starterIdx], cp);
          assert composed == g(out[starterIdx], cp);
        }
      }
      if composed.Some? {
        StateAfterCompose(t, out, starterIdx, lastCcc, previous, cp, composed.value);
        out := out[starterIdx := composed.value];
      } else {
        StateAfterAppend(t, out, starterIdx, lastCcc, previous, cp);
        out := out + [cp];
        lastCcc := combining;
        if combining == 0 {
          starterIdx := |out| - 1;
        }
      }
      previous := combining;
    }
    assert s[..|s|] == s;
  }

  // ----- composition is undone by decomposing and reordering -----------------------

  lemma SlideStep(t: Tables, before: seq<int>, rest: seq<int>, cp: int, z: int)
    requires Reorder(t, before) == Reorder(t, rest + [cp]) && 0 < Ccc(t, z) < Ccc(t, cp)
    ensures Reorder(t, before + [z]) == Reorder(t, rest + [z] + [cp])
  {
    ReorderLast(t, before, z);
    ReorderLast(t, rest + [cp], z);
    SwappedTailsAgree(t, rest, z, cp);
  }

  /** A character slides left over characters of smaller nonzero class. */
  lemma {:induction false} SlideOver(t: Tables, u: seq<int>, cp: int, w: seq<int>)
    requires forall j :: 0 <= j < |w| ==> 0 < Ccc(t, w[j]) < Ccc(t, cp)
    ensures Reorder(t, u + [cp] + w) == Reorder(t, u + w + [cp])
    decreases |w|
  {
    hide Reorder, Ccc;
    if w == [] {
      assert u + [cp] + w == u + w + [cp];
    } else {
      var init, z := w[..|w| - 1], w[|w| - 1];
      assert w == init + [z];
      SlideOver(t, u, cp, init);
      SlideStep(t, u + [cp] + init, u + init, cp, z);
      assert u + [cp] + w == u + [cp] + init + [z];
      assert u + w == u + init + [z];
    }
  }

  lemma SlideOutOf(t: Tables, x: seq<int>, y: seq<int>, cp: int, w: seq<int>)
    requires forall j :: 0 <= j < |w| ==> 0 < Ccc(t, w[j]) < Ccc(t, cp)
    ensures Reorder(t, x + (y + [cp]) + w) == Reorder(t, x + y + w + [cp])
  {
    SlideOver(t, x + y, cp, w);
    assert x + (y + [cp]) == x + y + [cp];
  }

  /** Nonstarters in the output came straight from the decomposed input. */
  ghost predicate NonstartersFixed(t: Tables, f: int -> seq<int>, out: seq<int>) {
    forall j :: 0 <= j < |out| && Ccc(t, out[j]) != 0 ==> f(out[j]) == [out[j]]
  }

  /** Replacing starter `a` by composite `c` amounts to appending the character it absorbed.
      `f` is the decomposition of one character. */
  lemma ReplaceStarterUndone(t: Tables, f: int -> seq<int>, u: seq<int>, a: int, w: seq<int>, cp: int, c: int)
    requires f(c) == f(a) + [cp]
    requires forall j :: 0 <= j < |w| ==> f(w[j]) == [w[j]] && 0 < Ccc(t, w[j]) < Ccc(t, cp)
    ensures Reorder(t, FlatMap(f, u + [c] + w)) == Reorder(t, FlatMap(f, u + [a] + w) + [cp])
  {
    FlatMapAround(f, u, a, w);
    FlatMapAround(f, u, c, w);
    SlideOutOf(t, FlatMap(f, u), f(a), cp, w);
  }

  lemma FlatMapAround(f: int -> seq<int>, u: seq<int>, a: int, w: seq<int>)
    requires forall j :: 0 <= j < |w| ==> f(w[j]) == [w[j]]
    ensures FlatMap(f, u + [a] + w) == FlatMap(f, u) + f(a) + w
  {
    FlatMapAppend(f, u + [a], w);
    FlatMapLast(f, u, a);
    FlatMapFixed(f, w);
  }

  lemma StarterUpdateUndone(t: Tables, f: int -> seq<int>, out: seq<int>, i: nat, cp: int, c: int)
    requires i < |out| && f(c) == f(out[i]) + [cp]
    requires forall j :: i < j < |out| ==> f(out[j]) == [out[j]] && 0 < Ccc(t, out[j]) < Ccc(t, cp)
    ensures Reorder(t, FlatMap(f, out[i := c])) == Reorder(t, FlatMap(f, out) + [cp])
  {
    var u, w := out[..i], out[i + 1..];
    ReplaceStarterUndone(t, f, u, out[i], w, cp, c);
    assert out == u + [out[i]] + w;
    assert out[i := c] == u + [c] + w;
  }

  lemma ComposeStepUndone(t: Tables, f: int -> seq<int>, g: Composer, out: seq<int>, cp: int)
    requires Undoes(t, f, g) && NonstartersFixed(t, f, out) && f(cp) == [cp]
    ensures Reorder(t, FlatMap(f, ComposeStep(t, g, out, cp))) == Reorder(t, FlatMap(f, out) + [cp])
    ensures NonstartersFixed(t, f, ComposeStep(t, g, out, cp))
  {
    var i := LastStarter(t, out);
    if i >= 0 && NotBlocked(t, out, i, cp) && g(out[i], cp).Some? {
      StarterUpdateUndone(t, f, out, i, cp, g(out[i], cp).value);
    } else {
      FlatMapLast(f, out, cp);
    }
  }

  /** Decomposing and reordering a composed text gives back the text it was composed from. */
  lemma {:induction false} ComposeUndone(t: Tables, f: int -> seq<int>, g: Composer, s: seq<int>)
    requires Undoes(t, f, g) && forall i :: 0 <= i < |s| ==> f(s[i]) == [s[i]]
    ensures Reorder(t, FlatMap(f, ComposeWith(t, g, s))) == Reorder(t, s)
    ensures NonstartersFixed(t, f, ComposeWith(t, g, s))
  {
    if s != [] {
      var init, last := s[..|s| - 1], s[|s| - 1];
      var out := ComposeWith(t, g, init);
      ComposeUndone(t, f, g, init);
      ComposeStepUndone(t, f, g, out, last);
      ReorderAppend(t, FlatMap(f, out), init, [last]);
      assert s == init + [last];
    }
  }

  lemma {:induction false} ComposeKeepsValid(t: Tables, s: seq<int>)
    requires SoundTables(t) && IsValidText(t, s)
    ensures IsValidText(t, Compose(t, s))
  {
    if s != [] {
      var init, last := s[..|s| - 1], s[|s| - 1];
      ComposeKeepsValid(t, init);
      var out := Compose(t, init);
      var i := LastStarter(t, out);
      if i >= 0 && ComposePair(t, out[i], last).Some? {
        ComposePairDecomposes(t, out[i], last);
      }
    }
  }

  // ----- composition composes whatever can be --------------------------------------

  /** A starter at `i`, and nothing between it and `j` that blocks their composition. */
  predicate Unblocked(t: Tables, out: seq<int>, i: nat, j: nat) {
    && i < j < |out|
    && Ccc(t, out[i]) == 0
    && forall k :: i < k < j ==> 0 < Ccc(t, out[k]) < Ccc(t, out[j])
  }

  /** No starter composes with any later character that is not blocked from it. */
  ghost predicate FullyComposed(t: Tables, out: seq<int>) {
    forall i: nat, j: nat :: Unblocked(t, out, i, j) ==> ComposePair(t, out[i], out[j]) == None
  }

  /** Appending a character that composes with nothing keeps a text fully composed. */
  lemma AppendKeepsComposed(t: Tables, out: seq<int>, cp: int)
    requires FullyComposed(t, out)
    requires var s := LastStarter(t, out); s >= 0 && NotBlocked(t, out, s, cp) ==> ComposePair(t, out[s], cp) == None
    ensures FullyComposed(t, out + [cp])
  {
    hide ComposePair, LastStarter;
    var after := out + [cp];
    forall i: nat, j: nat | Unblocked(t, after, i, j) ensures ComposePair(t, after[i], after[j]) == None {
      if j < |out| {
        assert Unblocked(t, out, i, j) by {
          assert forall k :: 0 <= k < |out| ==> after[k] == out[k];
        }
      } else {
        assert forall k :: i < k < |out| ==> after[k] == out[k];
        LastStarterUnique(t, out, i);
      }
    }
  }

  /** A composite takes up nothing that its starter's followers hold: their classes are below what it absorbed. */
  lemma CompositeTakesNoSmaller(t: Tables, a: int, b: int, z: int)
    requires SoundTables(t) && OrderedTables(t) && ComposePair(t, a, b).Some?
    requires 0 < Ccc(t, z) < Ccc(t, b)
    ensures ComposePair(t, ComposePair(t, a, b).value, z) == None
  {
    var c := ComposePair(t, a, b).value;
    ComposePairDecomposes(t, a, b);
    if ComposePair(t, c, z).Some? {
      ComposePairDecomposes(t, c, z);
      OrderedEnd(t, DecomposeOne(t, a), b, z);
    }
  }

  lemma OrderedEnd(t: Tables, front: seq<int>, b: int, z: int)
    requires Ordered(t, front + [b] + [z])
    ensures Ccc(t, z) == 0 || Ccc(t, b) <= Ccc(t, z)
  {
    var d, n := front + [b] + [z], |front|;
    assert d[n] == b && d[n + 1] == z;
  }

  /** No starter takes up a composite. */
  lemma CompositeNotTaken(t: Tables, x: int, a: int, b: int)
    requires SoundTables(t) && OrderedTables(t) && ComposePair(t, a, b).Some?
    ensures ComposePair(t, x, ComposePair(t, a, b).value) == None
  {
    CompositeTakesApart(t, a, b);
    if ComposePair(t, x, ComposePair(t, a, b).value).Some? {
      CompositeTakesApart(t, x, ComposePair(t, a, b).value);
    }
  }

  /** A starter other than the last reaches only characters before the last. */
  lemma OthersBefore(t: Tables, out: seq<int>, s: nat, cp: int, after: seq<int>, i: nat, j: nat)
    requires s < |out| == |after| && NotBlocked(t, out, s, cp) && Ccc(t, after[s]) == 0
    requires forall k :: 0 <= k < |out| && k != s ==> after[k] == out[k]
    requires Unblocked(t, after, i, j) && i != s && j != s
    ensures j < s
  {
    assert Ccc(t, after[i]) == 0;
    if s < i {
      assert false;
    }
  }

  /** Replacing the last starter by a composite keeps a text fully composed. */
  lemma ReplaceKeepsComposed(t: Tables, out: seq<int>, s: nat, cp: int)
    requires SoundTables(t) && OrderedTables(t) && FullyComposed(t, out)
    requires s < |out| && Ccc(t, out[s]) == 0 && NotBlocked(t, out, s, cp) && ComposePair(t, out[s], cp).Some?
    ensures FullyComposed(t, out[s := ComposePair(t, out[s], cp).value])
  {
    hide SoundTables, OrderedTables, ComposePair;
    var c := ComposePair(t, out[s], cp).value;
    var after := out[s := c];
    CompositeIsStarter(t, out[s], cp);
    forall i: nat, j: nat | Unblocked(t, after, i, j) ensures ComposePair(t, after[i], after[j]) == None {
      if j == s {
        CompositeNotTaken(t, after[i], out[s], cp);
      } else if i == s {
        CompositeTakesNoSmaller(t, out[s], cp, out[j]);
      } else {
        OthersBefore(t, out, s, cp, after, i, j);
        assert forall k :: i <= k <= j ==> after[k] == out[k];
        assert Unblocked(t, out, i, j);
      }
    }
  }

  lemma CompositeIsStarter(t: Tables, a: int, b: int)
    requires SoundTables(t) && ComposePair(t, a, b).Some?
    ensures Ccc(t, ComposePair(t, a, b).value) == 0
  {
    ComposePairDecomposes(t, a, b);
  }

  lemma {:induction false} ComposeIsFullyComposed(t: Tables, s: seq<int>)
    requires SoundTables(t) && OrderedTables(t)
    ensures FullyComposed(t, Compose(t, s))
  {
    hide SoundTables, OrderedTables, ComposePair, FullyComposed, LastStarter, NotBlocked;
    if s == [] {
      NothingToCompose(t);
    } else {
      var init, last := s[..|s| - 1], s[|s| - 1];
      ComposeIsFullyComposed(t, init);
      var out := Compose(t, init);
      var i := LastStarter(t, out);
      if i >= 0 && NotBlocked(t, out, i, last) && ComposePair(t, out[i], last).Some? {
        ReplaceKeepsComposed(t, out, i, last);
      } else {
        AppendKeepsComposed(t, out, last);
      }
    }
  }

  lemma NothingToCompose(t: Tables)
    ensures FullyComposed(t, [])
  {
  }

  /** Nothing in a normal form is left that could still be composed. */
  lemma NormalFormIsComposed(t: Tables, text: seq<int>)
    requires SoundTables(t) && OrderedTables(t)
    ensures forall i: nat, j: nat :: Unblocked(t, NormalForm(t, text), i, j) ==>
              ComposePair(t, NormalForm(t, text)[i], NormalForm(t, text)[j]) == None
  {
    ComposeIsFullyComposed(t, CanonicalText(t, text));
  }

  // ----- the normal form -----------------------------------------------------------

  /** The fully decomposed, reordered text: what two equivalent texts share. */
  function CanonicalText(t: Tables, text: seq<int>): seq<int> {
    Reorder(t, Decompose(t, text))
  }

  function NormalForm(t: Tables, text: seq<int>): seq<int> {
    Compose(t, CanonicalText(t, text))
  }

  method Nfkc16(t: Tables, text: seq<int>) returns (r: Result<seq<int>, NfkcError>)
    requires SoundTables(t)
    ensures r.Ok? <==> IsValidText(t, text)
    ensures r.Ok? ==> r.value == NormalForm(t, text)
  {
    var validated := Validate(t, text);
    if validated.Err? {
      return Err(validated.error);
    }
    var decomposed := DecomposeText(t, validated.value);
    var codePoints := new int[|decomposed|](i requires 0 <= i < |decomposed| => decomposed[i]);
    assert codePoints[..] == decomposed;
    CanonicalReorder(t, codePoints);
    ReorderIsOrdered(t, decomposed);
    var composed := ComposeText(t, codePoints[..]);
    return Ok(composed);
  }

  lemma NormalFormKeepsCanonicalText(t: Tables, text: seq<int>)
    requires SoundTables(t) && IsValidText(t, text)
    ensures CanonicalText(t, NormalForm(t, text)) == CanonicalText(t, text)
    ensures IsValidText(t, NormalForm(t, text))
  {
    var decomposed := Decompose(t, text);
    var d := Reorder(t, decomposed);
    DecomposeIsDecomposed(t, text);
    ReorderIsStable(t, decomposed);
    forall i | 0 <= i < |d| ensures IsDecomposed(t, d[i]) && IsValidScalar(t, d[i]) {
      assert d[i] in multiset(d);
      assert d[i] in decomposed;
    }
    TablesUndo(t);
    ComposeUndone(t, Decomposer(t), TableComposer(t), d);
    ReorderIsOrdered(t, decomposed);
    FixedPointIffOrdered(t, d);
    ComposeKeepsValid(t, d);
  }

  /** Normalising twice changes nothing. */
  lemma NormalFormIdempotent(t: Tables, text: seq<int>)
    requires SoundTables(t) && IsValidText(t, text)
    ensures IsValidText(t, NormalForm(t, text))
    ensures NormalForm(t, NormalForm(t, text)) == NormalForm(t, text)
  {
    NormalFormKeepsCanonicalText(t, text);
  }

  /** Allowed swaps lead both texts to one and the same text. */
  ghost predicate Equivalent(t: Tables, a: seq<int>, b: seq<int>) {
    exists r :: Reaches(t, a, r) && Reaches(t, b, r)
  }

  lemma EquivalentIffSameOrder(t: Tables, a: seq<int>, b: seq<int>)
    ensures Reorder(t, a) == Reorder(t, b) <==> Equivalent(t, a, b)
  {
    ReorderIsTheNormalForm(t, a, Reorder(t, a));
    ReorderIsTheNormalForm(t, b, Reorder(t, b));
    if r :| Reaches(t, a, r) && Reaches(t, b, r) {
      var va :| ApplySwaps(t, a, va) == Some(r);
      var vb :| ApplySwaps(t, b, vb) == Some(r);
      SwapsKeepReorder(t, a, va);
      SwapsKeepReorder(t, b, vb);
    }
  }

  /** Two texts normalise alike exactly when their decompositions differ only by allowed
      swaps of combining characters. */
  lemma NormalFormDecidesEquivalence(t: Tables, x: seq<int>, y: seq<int>)
    requires SoundTables(t) && IsValidText(t, x) && IsValidText(t, y)
    ensures NormalForm(t, x) == NormalForm(t, y) <==> Equivalent(t, Decompose(t, x), Decompose(t, y))
  {
    var dx, dy := Decompose(t, x), Decompose(t, y);
    EquivalentIffSameOrder(t, dx, dy);
    assert NormalForm(t, x) == NormalForm(t, y) ==> CanonicalText(t, x) == CanonicalText(t, y) by {
      NormalFormKeepsCanonicalText(t, x);
      NormalFormKeepsCanonicalText(t, y);
    }
  }
}
