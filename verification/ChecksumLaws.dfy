/**
  Checksums that fold symbols into a state: from a few laws of the operations, the fold is
  injective, its last six symbols are unique, and a change confined to six consecutive
  symbols is always seen.  The state type is a parameter.
  */
module ChecksumLaws {
  /** The operations of a checksum over states `S`.  A step moves the low part of the state
      up and adds the feedback selected by the top part; a symbol is a state that fits in one. */
  datatype Ops<!S> = Ops(
    zero: S,
    low: S -> S,
    top: S -> S,
    taps: S -> S,
    xor: (S, S) -> S,
    shift: S -> S,
    fits: (S, nat) -> bool)
  {
    function step(x: S): S { xor(low(x), taps(top(x))) }
  }

  ghost predicate XorAssociative<S(!new)>(o: Ops<S>) {
    forall x, y, z {:trigger o.xor(x, o.xor(y, z))} :: o.xor(o.xor(x, y), z) == o.xor(x, o.xor(y, z))
  }

  ghost predicate XorCommutative<S(!new)>(o: Ops<S>) {
    forall x, y :: o.xor(x, y) == o.xor(y, x)
  }

  ghost predicate NoFeedback<S(!new)>(o: Ops<S>) {
    && (forall x, y :: o.fits(y, 5) ==> o.top(o.xor(x, y)) == o.top(x))
    && (forall x, y :: o.fits(y, 5) ==> o.low(o.xor(x, y)) == o.xor(o.low(x), o.shift(y)))
  }

  ghost predicate StepInjective<S(!new)>(o: Ops<S>) {
    forall x, y :: o.step(x) == o.step(y) ==> x == y
  }

  ghost predicate XorCancels<S(!new)>(o: Ops<S>) {
    && (forall x, y, v :: o.xor(x, v) == o.xor(y, v) ==> x == y)
    && (forall x, y, v :: o.xor(v, x) == o.xor(v, y) ==> x == y)
  }

  ghost predicate XorUnit<S(!new)>(o: Ops<S>) {
    forall x :: o.xor(x, o.zero) == x
  }

  ghost predicate SymbolsStack<S(!new)>(o: Ops<S>) {
    && o.fits(o.zero, 0)
    && (forall x, k: nat :: k <= 5 && o.fits(x, k) ==> o.fits(x, 5))
    && (forall x, v, k: nat :: k < 5 && o.fits(x, k) && o.fits(v, 1) ==> o.fits(o.xor(o.shift(x), v), k + 1))
  }

  ghost predicate SymbolsUnstack<S(!new)>(o: Ops<S>) {
    forall x, y, v, w :: o.fits(x, 5) && o.fits(y, 5) && o.fits(v, 1) && o.fits(w, 1)
      ==> o.xor(o.shift(x), v) == o.xor(o.shift(y), w) ==> x == y && v == w
  }

  ghost predicate SmallDifferencesTravel<S(!new)>(o: Ops<S>) {
    forall x, y, v :: o.fits(y, 5) ==> o.xor(o.step(o.xor(x, y)), v) == o.xor(o.step(x), o.xor(o.shift(y), v))
  }

  /** What a checksum needs of its operations. */
  ghost predicate Laws<S(!new)>(o: Ops<S>) {
    && StepInjective(o)
    && XorCancels(o)
    && XorUnit(o)
    && SymbolsStack(o)
    && SymbolsUnstack(o)
    && SmallDifferencesTravel(o)
  }

  lemma GatherLaws<S(!new)>(o: Ops<S>)
    requires XorAssociative(o) && XorCommutative(o) && NoFeedback(o)
    requires StepInjective(o) && XorCancels(o) && XorUnit(o) && SymbolsStack(o) && SymbolsUnstack(o)
    ensures Laws(o)
  {
    forall x, y, v | o.fits(y, 5) ensures o.xor(o.step(o.xor(x, y)), v) == o.xor(o.step(x), o.xor(o.shift(y), v)) {
      SmallDifference(o, x, y, v);
    }
  }

  /** A difference below the top part moves up and triggers no feedback. */
  lemma SmallDifference<S(!new)>(o: Ops<S>, x: S, y: S, v: S)
    requires XorAssociative(o) && XorCommutative(o) && NoFeedback(o) && o.fits(y, 5)
    ensures o.xor(o.step(o.xor(x, y)), v) == o.xor(o.step(x), o.xor(o.shift(y), v))
  {
    var a, d, t := o.low(x), o.shift(y), o.taps(o.top(x));
    assert o.step(o.xor(x, y)) == o.xor(o.xor(a, d), t);
    calc {
      o.xor(o.xor(a, d), t);
      o.xor(a, o.xor(d, t));
      o.xor(a, o.xor(t, d));
      o.xor(o.xor(a, t), d);
    }
    assert o.xor(o.xor(o.step(x), d), v) == o.xor(o.step(x), o.xor(d, v));
  }

  predicate AreSymbols<S>(o: Ops<S>, values: seq<S>) {
    forall i :: 0 <= i < |values| ==> o.fits(values[i], 1)
  }

  function Fold<S>(o: Ops<S>, chk: S, values: seq<S>): S {
    if values == [] then chk else o.xor(o.step(Fold(o, chk, values[..|values| - 1])), values[|values| - 1])
  }

  lemma {:induction false} FoldAppend<S>(o: Ops<S>, chk: S, a: seq<S>, b: seq<S>)
    ensures Fold(o, chk, a + b) == Fold(o, Fold(o, chk, a), b)
    decreases |b|
  {
    if b == [] {
      assert a + b == a;
    } else {
      var init := b[..|b| - 1];
      FoldAppend(o, chk, a, init);
      assert (a + b)[..|a + b| - 1] == a + init;
    }
  }

  /** Different states stay different whatever follows. */
  lemma {:induction false} FoldIsInjective<S(!new)>(o: Ops<S>, x: S, y: S, values: seq<S>)
    requires StepInjective(o) && XorCancels(o) && Fold(o, x, values) == Fold(o, y, values)
    ensures x == y
  {
    if values != [] {
      FoldIsInjective(o, x, y, values[..|values| - 1]);
    }
  }

  // ----- up to six symbols fill the state ------------------------------------------

  function Iterate<S>(o: Ops<S>, chk: S, k: nat): S {
    if k == 0 then chk else o.step(Iterate(o, chk, k - 1))
  }

  function Pack<S>(o: Ops<S>, values: seq<S>): S {
    if values == [] then o.zero else o.xor(o.shift(Pack(o, values[..|values| - 1])), values[|values| - 1])
  }

  lemma {:induction false} PackFits<S(!new)>(o: Ops<S>, values: seq<S>)
    requires SymbolsStack(o) && |values| <= 5 && AreSymbols(o, values)
    ensures o.fits(Pack(o, values), |values|) && o.fits(Pack(o, values), 5)
  {
    if values != [] {
      PackFits(o, values[..|values| - 1]);
    }
  }

  lemma {:induction false} PackIsInjective<S(!new)>(o: Ops<S>, a: seq<S>, b: seq<S>)
    requires SymbolsStack(o) && SymbolsUnstack(o)
    requires |a| == |b| <= 6 && AreSymbols(o, a) && AreSymbols(o, b) && Pack(o, a) == Pack(o, b)
    ensures a == b
  {
    hide SymbolsStack, SymbolsUnstack, AreSymbols, Pack;
    if a != [] {
      var n := |a| - 1;
      SymbolsBefore(o, a, n);
      SymbolsBefore(o, b, n);
      PackFits(o, a[..n]);
      PackFits(o, b[..n]);
      LastSymbolSame(o, a, b, n);
      PackIsInjective(o, a[..n], b[..n]);
      assert a == a[..n] + [a[n]] == b[..n] + [b[n]] == b;
    }
  }

  lemma SymbolsBefore<S>(o: Ops<S>, a: seq<S>, n: nat)
    requires AreSymbols(o, a) && n <= |a|
    ensures AreSymbols(o, a[..n])
  {
  }

  lemma LastSymbolSame<S(!new)>(o: Ops<S>, a: seq<S>, b: seq<S>, n: nat)
    requires SymbolsUnstack(o) && |a| == |b| == n + 1 && AreSymbols(o, a) && AreSymbols(o, b) && Pack(o, a) == Pack(o, b)
    requires o.fits(Pack(o, a[..n]), 5) && o.fits(Pack(o, b[..n]), 5)
    ensures Pack(o, a[..n]) == Pack(o, b[..n]) && a[n] == b[n] && AreSymbols(o, a[..n]) && AreSymbols(o, b[..n])
  {
  }

  /** At most six symbols land in the state as they are, beside what the state would become. */
  lemma {:induction false} FoldOfFew<S(!new)>(o: Ops<S>, chk: S, values: seq<S>)
    requires SymbolsStack(o) && SmallDifferencesTravel(o) && XorUnit(o) && |values| <= 6 && AreSymbols(o, values)
    ensures Fold(o, chk, values) == o.xor(Iterate(o, chk, |values|), Pack(o, values))
  {
    if values != [] {
      var init := values[..|values| - 1];
      FoldOfFew(o, chk, init);
      PackFits(o, init);
    }
  }

  /** Two messages of the same length that differ only within six consecutive symbols
      never lead to the same state. */
  lemma BurstDetected<S(!new)>(o: Ops<S>, chk: S, before: seq<S>, a: seq<S>, b: seq<S>, after: seq<S>)
    requires Laws(o) && |a| == |b| <= 6 && AreSymbols(o, a) && AreSymbols(o, b)
    requires Fold(o, chk, before + a + after) == Fold(o, chk, before + b + after)
    ensures a == b
  {
    var start := Fold(o, chk, before);
    FoldAppend(o, chk, before + a, after);
    FoldAppend(o, chk, before + b, after);
    FoldAppend(o, chk, before, a);
    FoldAppend(o, chk, before, b);
    FoldIsInjective(o, Fold(o, start, a), Fold(o, start, b), after);
    FoldOfFew(o, start, a);
    FoldOfFew(o, start, b);
    PackIsInjective(o, a, b);
  }

  /** Exactly one choice of six symbols leads to a given state. */
  lemma SixSymbolsReachOnce<S(!new)>(o: Ops<S>, chk: S, a: seq<S>, target: S, b: seq<S>)
    requires Laws(o) && |a| == |b| == 6 && AreSymbols(o, a) && AreSymbols(o, b)
    requires o.xor(Iterate(o, chk, 6), Pack(o, a)) == target
    ensures Fold(o, chk, b) == target <==> b == a
  {
    FoldOfFew(o, chk, a);
    FoldOfFew(o, chk, b);
    if Fold(o, chk, b) == target {
      PackIsInjective(o, a, b);
    }
  }
}
