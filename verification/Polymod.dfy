/**
  The bech32 checksum: one step of the generator polynomial on 30-bit states, the laws it
  satisfies, and what follows from them: the six checksum symbols are unique, and any change
  confined to six consecutive symbols is detected at every message length.
  */
module Polymod {
  import opened BitOps
  import opened ByteStrings
  import opened ChecksumLaws

  type State = x: nat | x < 0x4000_0000 witness 0

  const GENERATORS: seq<nat> := [0x3B6A57B2, 0x26508E6D, 0x1EA119FA, 0x3D4233DD, 0x2A1462B3]

  lemma Powers()
    ensures Pow2(5) == 32 && Pow2(10) == 0x400 && Pow2(15) == 0x8000 && Pow2(20) == 0x100000
    ensures Pow2(25) == 0x2000000 && Pow2(30) == 0x40000000
  {
    Pow2Add(5, 5);
    Pow2Add(10, 5);
    Pow2Add(10, 10);
    Pow2Add(20, 5);
    Pow2Add(20, 10);
  }

  // ----- one step ------------------------------------------------------------------

  /** The first `n` generators, each taken when its bit of `b` is set. */
  function Taps(b: nat, n: nat): (r: nat)
    requires n <= 5
    ensures r < 0x4000_0000
  {
    if n == 0 then 0
    else
      var rest := Taps(b, n - 1);
      Powers();
      XorBound(rest, GENERATORS[n - 1], 30);
      if Bit(b, n - 1) then Xor(rest, GENERATORS[n - 1]) else rest
  }

  function LowPart(pre: State): State {
    Powers();
    ShiftLeftBound(LowBits(pre, 25), 25, 5);
    ShiftLeft(LowBits(pre, 25), 5)
  }

  function TopPart(pre: State): (b: State)
    ensures b < 32
  {
    Powers();
    ShiftRightBound(pre, 5, 25);
    ShiftRight(pre, 25)
  }

  function StateXor(x: State, y: State): State {
    Powers();
    XorBound(x, y, 30);
    Xor(x, y)
  }

  function PolymodStep(pre: State): State {
    StateXor(LowPart(pre), Taps(TopPart(pre), 5))
  }

  /** The step as a loop over the generators. */
  method PolymodStepLoop(pre: State) returns (chk: State)
    ensures chk == PolymodStep(pre)
  {
    var b := TopPart(pre);
    chk := LowPart(pre);
    XorSelf(chk);
    for i := 0 to 5
      invariant chk == StateXor(LowPart(pre), Taps(b, i))
    {
      if Bit(b, i) {
        XorAssociates(LowPart(pre), Taps(b, i), GENERATORS[i]);
        chk := StateXor(chk, GENERATORS[i]);
      }
    }
  }

  // ----- injectivity ---------------------------------------------------------------

  /** Bit `i` of the sum of the selected generators, as a parity. */
  function TapsParity(b: nat, n: nat, i: nat): bool
    requires n <= 5
  {
    n > 0 && TapsParity(b, n - 1, i) != (Bit(b, n - 1) && Bit(GENERATORS[n - 1], i))
  }

  lemma {:induction false} TapsBit(b: nat, n: nat, i: nat)
    requires n <= 5
    ensures Bit(Taps(b, n), i) == TapsParity(b, n, i)
  {
    if n > 0 {
      TapsBit(b, n - 1, i);
      XorBit(Taps(b, n - 1), GENERATORS[n - 1], i);
    } else {
      SmallShifts(0, i);
    }
  }

  lemma GeneratorBits()
    ensures Bit(GENERATORS[1], 0) && Bit(GENERATORS[3], 0) && Bit(GENERATORS[4], 0) && !Bit(GENERATORS[0], 0) && !Bit(GENERATORS[2], 0)
    ensures Bit(GENERATORS[0], 1) && Bit(GENERATORS[2], 1) && Bit(GENERATORS[4], 1) && !Bit(GENERATORS[1], 1) && !Bit(GENERATORS[3], 1)
    ensures Bit(GENERATORS[1], 2) && Bit(GENERATORS[3], 2) && !Bit(GENERATORS[0], 2) && !Bit(GENERATORS[2], 2) && !Bit(GENERATORS[4], 2)
    ensures Bit(GENERATORS[1], 3) && Bit(GENERATORS[2], 3) && Bit(GENERATORS[3], 3) && !Bit(GENERATORS[0], 3) && !Bit(GENERATORS[4], 3)
    ensures Bit(GENERATORS[0], 4) && Bit(GENERATORS[2], 4) && Bit(GENERATORS[3], 4) && Bit(GENERATORS[4], 4) && !Bit(GENERATORS[1], 4)
  {
  }

  function Parity(p: bool, q: bool): bool { p != q }

  /** Which generators contribute to each of the five low bits. */
  lemma TapsLowBits(b: nat)
    ensures var t := Taps(b, 5);
            && Bit(t, 0) == Parity(Parity(Bit(b, 1), Bit(b, 3)), Bit(b, 4))
            && Bit(t, 1) == Parity(Parity(Bit(b, 0), Bit(b, 2)), Bit(b, 4))
            && Bit(t, 2) == Parity(Bit(b, 1), Bit(b, 3))
            && Bit(t, 3) == Parity(Parity(Bit(b, 1), Bit(b, 2)), Bit(b, 3))
            && Bit(t, 4) == Parity(Parity(Parity(Bit(b, 0), Bit(b, 2)), Bit(b, 3)), Bit(b, 4))
  {
    GeneratorBits();
    TapsUnrolled(b, 0);
    TapsUnrolled(b, 1);
    TapsUnrolled(b, 2);
    TapsUnrolled(b, 3);
    TapsUnrolled(b, 4);
  }

  lemma TapsUnrolled(b: nat, i: nat)
    ensures Bit(Taps(b, 5), i)
         == Parity(Parity(Parity(Parity(Bit(b, 0) && Bit(GENERATORS[0], i), Bit(b, 1) && Bit(GENERATORS[1], i)),
                                 Bit(b, 2) && Bit(GENERATORS[2], i)), Bit(b, 3) && Bit(GENERATORS[3], i)),
                   Bit(b, 4) && Bit(GENERATORS[4], i))
  {
    TapsBit(b, 5, i);
    var p := n requires 0 <= n <= 5 => TapsParity(b, n, i);
    assert !p(0);
    assert p(1) == Parity(p(0), Bit(b, 0) && Bit(GENERATORS[0], i));
    assert p(2) == Parity(p(1), Bit(b, 1) && Bit(GENERATORS[1], i));
    assert p(3) == Parity(p(2), Bit(b, 2) && Bit(GENERATORS[2], i));
    assert p(4) == Parity(p(3), Bit(b, 3) && Bit(GENERATORS[3], i));
    assert p(5) == Parity(p(4), Bit(b, 4) && Bit(GENERATORS[4], i));
  }

  /** The five low bits of the feedback reveal which generators were added. */
  lemma TapsVisible(b: nat, c: nat)
    requires b < 32 && c < 32 && LowBits(Taps(b, 5), 5) == LowBits(Taps(c, 5), 5)
    ensures b == c
  {
    TapsLowBits(b);
    TapsLowBits(c);
    forall i | 0 <= i < 5 ensures Bit(Taps(b, 5), i) == Bit(Taps(c, 5), i) {
      LowBitsBit(Taps(b, 5), 5, i);
      LowBitsBit(Taps(c, 5), 5, i);
    }
    SameBits(b, c);
  }

  lemma SameBits(b: nat, c: nat)
    requires b < 32 && c < 32
    requires Bit(b, 0) == Bit(c, 0) && Bit(b, 1) == Bit(c, 1) && Bit(b, 2) == Bit(c, 2) && Bit(b, 3) == Bit(c, 3) && Bit(b, 4) == Bit(c, 4)
    ensures b == c
  {
    Powers();
    BitsDetermine(b, c, 5);
    SmallShifts(b, 5);
    SmallShifts(c, 5);
  }

  /** The step loses nothing: distinct states stay distinct. */
  lemma StepIsInjective(x: State, y: State)
    requires PolymodStep(x) == PolymodStep(y)
    ensures x == y
  {
    var b, c := TopPart(x), TopPart(y);
    XorLowBits(LowPart(x), Taps(b, 5), 5);
    XorLowBits(LowPart(y), Taps(c, 5), 5);
    ShiftLeftLowBits(LowBits(x, 25), 5);
    ShiftLeftLowBits(LowBits(y, 25), 5);
    TapsVisible(b, c);
    XorCancel(LowPart(x), LowPart(y), Taps(b, 5));
    ShiftLeftInjective(LowBits(x, 25), LowBits(y, 25), 5);
    PartsDetermine(x, y, 25);
  }

  // ----- the laws ------------------------------------------------------------------

  /** `x` is made of at most `k` symbols. */
  predicate Fits(x: State, k: nat) {
    k <= 5 && x < Pow2(5 * k)
  }

  /** Makes room for one symbol below `x`; used on states of at most five symbols. */
  function ShiftSymbol(x: State): State {
    Powers();
    ShiftLeftBound(LowBits(x, 25), 25, 5);
    ShiftLeft(LowBits(x, 25), 5)
  }

  function Bech32Ops(): Ops<State> {
    Ops<State>.Ops(0, (x: State) => LowPart(x), (x: State) => TopPart(x), (b: State) => Taps(b, 5),
                   (x: State, y: State) => StateXor(x, y), (x: State) => ShiftSymbol(x), (x: State, k: nat) => Fits(x, k))
  }

  lemma OpsXorLaws()
    ensures XorAssociative(Bech32Ops()) && XorCommutative(Bech32Ops()) && XorUnit(Bech32Ops())
  {
    forall x: State, y: State, z: State {:trigger StateXor(x, StateXor(y, z))}
      ensures StateXor(StateXor(x, y), z) == StateXor(x, StateXor(y, z))
    {
      XorAssociates(x, y, z);
    }
    forall x: State, y: State ensures StateXor(x, y) == StateXor(y, x) {
      XorCommutes(x, y);
    }
    forall x: State ensures StateXor(x, 0) == x {
      XorSelf(x);
    }
  }

  lemma OpsXorCancels()
    ensures XorCancels(Bech32Ops())
  {
    forall x: State, y: State, v: State | StateXor(x, v) == StateXor(y, v) ensures x == y {
      XorCancel(x, y, v);
    }
    forall x: State, y: State, v: State | StateXor(v, x) == StateXor(v, y) ensures x == y {
      XorCancel(x, y, v);
    }
  }

  lemma OpsNoFeedback()
    ensures NoFeedback(Bech32Ops())
  {
    forall x: State, y: State | Fits(y, 5)
      ensures TopPart(StateXor(x, y)) == TopPart(x)
      ensures LowPart(StateXor(x, y)) == StateXor(LowPart(x), ShiftSymbol(y))
    {
      XorShiftRight(x, y, 25);
      SmallShifts(y, 25);
      XorSelf(ShiftRight(x, 25));
      XorLowBits(x, y, 25);
      XorShiftLeft(LowBits(x, 25), LowBits(y, 25), 5);
    }
  }

  lemma OpsStepInjective()
    ensures StepInjective(Bech32Ops())
  {
    var o := Bech32Ops();
    forall x: State, y: State | o.step(x) == o.step(y) ensures x == y {
      StepIsInjective(x, y);
    }
  }

  lemma OpsSymbolsStack()
    ensures SymbolsStack(Bech32Ops())
  {
    Powers();
    forall x: State, k: nat | Fits(x, k) ensures Fits(x, 5) {
    }
    forall x: State, v: State, k: nat | k < 5 && Fits(x, k) && Fits(v, 1) ensures Fits(StateXor(ShiftSymbol(x), v), k + 1) {
      StackedBound(x, v, k);
    }
  }

  lemma StackedBound(x: State, v: State, k: nat)
    requires k < 5 && Fits(x, k) && Fits(v, 1)
    ensures Fits(StateXor(ShiftSymbol(x), v), k + 1)
  {
    Powers();
    SmallShifts(x, 25);
    ShiftLeftBound(x, 5 * k, 5);
    XorBound(ShiftLeft(x, 5), v, 5 * (k + 1));
  }

  lemma OpsSymbolsUnstack()
    ensures SymbolsUnstack(Bech32Ops())
  {
    forall x: State, y: State, v: State, w: State
      | Fits(x, 5) && Fits(y, 5) && Fits(v, 1) && Fits(w, 1) && StateXor(ShiftSymbol(x), v) == StateXor(ShiftSymbol(y), w)
      ensures x == y && v == w
    {
      Unstacked(x, y, v, w);
    }
  }

  lemma Unstacked(x: State, y: State, v: State, w: State)
    requires Fits(x, 5) && Fits(y, 5) && Fits(v, 1) && Fits(w, 1) && StateXor(ShiftSymbol(x), v) == StateXor(ShiftSymbol(y), w)
    ensures x == y && v == w
  {
    SmallShifts(x, 25);
    SmallShifts(y, 25);
    SmallShifts(v, 5);
    SmallShifts(w, 5);
    ShiftLeftLowBits(x, 5);
    ShiftLeftLowBits(y, 5);
    XorLowBits(ShiftLeft(x, 5), v, 5);
    XorLowBits(ShiftLeft(y, 5), w, 5);
    XorCancel(ShiftLeft(x, 5), ShiftLeft(y, 5), v);
    ShiftLeftInjective(x, y, 5);
  }

  lemma Bech32Laws()
    ensures Laws(Bech32Ops())
  {
    OpsXorLaws();
    OpsXorCancels();
    OpsNoFeedback();
    OpsStepInjective();
    OpsSymbolsStack();
    OpsSymbolsUnstack();
    GatherLaws(Bech32Ops());
  }

  // ----- the checksum --------------------------------------------------------------

  /** The `k` five-bit groups of a value, most significant first. */
  function Unpack(d: State, k: nat): (values: seq<State>)
    ensures |values| == k && AreSymbols(Bech32Ops(), values)
    ensures forall i :: 0 <= i < k ==> values[i] < 32
  {
    Powers();
    if k == 0 then []
    else
      ShiftRightSmaller(d);
      Unpack(ShiftRight(d, 5), k - 1) + [LowBits(d, 5)]
  }

  lemma ShiftRightSmaller(d: nat)
    ensures ShiftRight(d, 5) <= d
  {
    ShiftRightShrinks(d, 5);
  }

  lemma {:induction false} ShiftRightShrinks(d: nat, k: nat)
    ensures ShiftRight(d, k) <= d
    decreases k
  {
    if k > 0 {
      ShiftRightShrinks(d / 2, k - 1);
    }
  }

  lemma {:induction false} ShiftRightTwice(d: nat, a: nat, b: nat)
    ensures ShiftRight(ShiftRight(d, a), b) == ShiftRight(d, a + b)
    decreases a
  {
    if a > 0 {
      ShiftRightTwice(d / 2, a - 1, b);
    }
  }

  /** Group `i` of `k` is the value shifted down to it, as the encoder computes it. */
  lemma {:induction false} UnpackAt(d: State, k: nat, i: nat)
    requires i < k
    ensures Unpack(d, k)[i] == LowBits(ShiftRight(d, 5 * (k - 1 - i)), 5)
    decreases k
  {
    ShiftRightSmaller(d);
    if i < k - 1 {
      UnpackAt(ShiftRight(d, 5), k - 1, i);
      ShiftRightTwice(d, 5, 5 * (k - 2 - i));
    }
  }

  lemma {:induction false} JoinParts(d: nat, k: nat)
    ensures Xor(ShiftLeft(ShiftRight(d, k), k), LowBits(d, k)) == d
    decreases k
  {
    if k > 0 {
      JoinParts(d / 2, k - 1);
      XorDoubled(ShiftLeft(ShiftRight(d / 2, k - 1), k - 1), 0, LowBits(d / 2, k - 1), d % 2);
    } else {
      XorSelf(d);
    }
  }

  lemma {:induction false} PackUnpack(d: State, k: nat)
    requires k <= 6 && d < Pow2(5 * k)
    ensures Pack(Bech32Ops(), Unpack(d, k)) == d
    decreases k
  {
    if k > 0 {
      var high := ShiftRight(d, 5);
      ShiftRightSmaller(d);
      ShiftRightBound(d, 5 * (k - 1), 5);
      PackUnpack(high, k - 1);
      Powers();
      ShiftRightBound(d, 25, 5);
      SmallShifts(high, 25);
      JoinParts(d, 5);
      assert Unpack(d, k)[..k - 1] == Unpack(high, k - 1);
    }
  }

  /** The state after the human-readable part and the data. */
  function MessageState(values: seq<State>): State {
    Fold(Bech32Ops(), 1, values)
  }

  /** The six checksum symbols of a message. */
  function ChecksumSymbols(values: seq<State>): (symbols: seq<State>)
    ensures |symbols| == 6 && AreSymbols(Bech32Ops(), symbols)
    ensures forall i :: 0 <= i < 6 ==> symbols[i] < 32
  {
    Unpack(StateXor(Iterate(Bech32Ops(), MessageState(values), 6), 1), 6)
  }

  lemma ChecksumPacksToOne(values: seq<State>)
    ensures var o := Bech32Ops();
            o.xor(Iterate(o, MessageState(values), 6), Pack(o, ChecksumSymbols(values))) == 1
  {
    var x := Iterate(Bech32Ops(), MessageState(values), 6);
    Powers();
    PackUnpack(StateXor(x, 1), 6);
    XorAssociates(x, x, 1);
    XorSelf(x);
  }

  /** The checksum makes the message valid, and no other six symbols do. */
  lemma ChecksumIsUnique(values: seq<State>, symbols: seq<State>)
    requires |symbols| == 6 && AreSymbols(Bech32Ops(), symbols)
    ensures MessageState(values + symbols) == 1 <==> symbols == ChecksumSymbols(values)
  {
    Bech32Laws();
    ChecksumPacksToOne(values);
    FoldAppend(Bech32Ops(), 1, values, symbols);
    SixSymbolsReachOnce(Bech32Ops(), MessageState(values), ChecksumSymbols(values), 1, symbols);
  }

  /** Two valid messages of one length never differ only within six consecutive symbols. */
  lemma TyposDetected(before: seq<State>, a: seq<State>, b: seq<State>, after: seq<State>)
    requires |a| == |b| <= 6 && AreSymbols(Bech32Ops(), a) && AreSymbols(Bech32Ops(), b)
    requires MessageState(before + a + after) == 1 && a != b
    ensures MessageState(before + b + after) != 1
  {
    Bech32Laws();
    if MessageState(before + b + after) == 1 {
      BurstDetected(Bech32Ops(), 1, before, a, b, after);
    }
  }
}
