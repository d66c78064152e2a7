/**
  The checksum code of BIP-173, stated without the five integer generators: polynomials over the field of
  32 elements, divided by the generator polynomial of the code.
*/
module Bip173 {
  import opened ByteStrings
  import opened BitOps
  import opened BitGroups
  import opened ChecksumLaws
  import opened Polymod
  import opened Bech32

  // ----- the field -----------------------------------------------------------------

  /** `v` times the root `a` of x^5 + x^3 + 1: the fifth power of `a` is `a^3 + 1`, written 9. */
  function TimesRoot(v: nat): nat
    requires v < 32
  {
    if v < 16 then 2 * v else Xor(2 * v - 32, 9)
  }

  lemma TimesRootBound(v: nat)
    requires v < 32
    ensures TimesRoot(v) < 32
  {
    Powers();
    if v >= 16 {
      XorBound(2 * v - 32, 9, 5);
    }
  }

  function TimesRootPower(v: nat, i: nat): (r: nat)
    requires v < 32
    ensures r < 32
  {
    if i == 0 then v
    else
      var w := TimesRootPower(v, i - 1);
      TimesRootBound(w);
      TimesRoot(w)
  }

  /** The product of `v` with the field element that the `n` low bits of `b` spell. */
  function Times(b: nat, v: nat, n: nat): nat
    requires v < 32
  {
    if n == 0 then 0
    else if Bit(b, n - 1) then Xor(Times(b, v, n - 1), TimesRootPower(v, n - 1))
    else Times(b, v, n - 1)
  }

  // ----- the generator -------------------------------------------------------------

  /** The coefficients below x^6, from the constant up: x^6 + 29 x^5 + 22 x^4 + 20 x^3 + 21 x^2 + 29 x + 18. */
  const COEFFICIENTS: seq<nat> := [18, 29, 21, 20, 22, 29]

  /** Coefficient `k` of the polynomial that a state packs. */
  function Digit(x: nat, k: nat): nat {
    LowBits(ShiftRight(x, 5 * k), 5)
  }

  lemma NoBits(v: nat)
    ensures LowBits(v, 0) == 0
  {
  }

  lemma ShiftFive(v: nat)
    ensures ShiftRight(v, 5) == v / 32
  {
    var a, b, c, d := v / 2, v / 4, v / 8, v / 16;
    assert ShiftRight(v, 5) == ShiftRight(a, 4) == ShiftRight(b, 3) == ShiftRight(c, 2) == ShiftRight(d, 1) == d / 2;
  }

  lemma LowOne(v: nat)
    ensures LowBits(v, 1) == v % 2
  {
    NoBits(v / 2);
    LowBitsHalf(v, 1);
  }

  lemma LowTwo(v: nat)
    ensures LowBits(v, 2) == v % 4
  {
    hide LowBits;
    LowOne(v / 2);
    LowBitsHalf(v, 2);
  }

  lemma LowThree(v: nat)
    ensures LowBits(v, 3) == v % 8
  {
    hide LowBits;
    LowTwo(v / 2);
    LowBitsHalf(v, 3);
  }

  lemma LowFour(v: nat)
    ensures LowBits(v, 4) == v % 16
  {
    hide LowBits;
    LowThree(v / 2);
    LowBitsHalf(v, 4);
  }

  lemma LowFive(v: nat)
    ensures LowBits(v, 5) == v % 32
  {
    hide LowBits;
    LowFour(v / 2);
    LowBitsHalf(v, 5);
  }

  lemma DigitBelow(v: nat, k: nat)
    ensures Digit(v, k) == if k == 0 then v % 32 else Digit(v / 32, k - 1)
  {
    ShiftFive(v);
    LowFive(v);
    if k > 0 {
      ShiftRightTwice(v, 5, 5 * (k - 1));
    }
  }

  /** `v` is written with these coefficients, from the constant up. */
  predicate Written(v: nat, d: seq<nat>) {
    if d == [] then v == 0 else v % 32 == d[0] && Written(v / 32, d[1..])
  }

  lemma {:induction false} WrittenDigits(v: nat, d: seq<nat>, k: nat)
    requires Written(v, d) && k < |d|
    ensures Digit(v, k) == d[k]
    decreases k
  {
    hide Digit;
    DigitBelow(v, k);
    if k > 0 {
      WrittenDigits(v / 32, d[1..], k - 1);
    }
  }

  predicate Scales(v: nat, powers: seq<nat>)
    requires v < 32
  {
    |powers| == 5 && forall i :: 0 <= i < 5 ==> powers[i] == TimesRootPower(v, i)
  }

  lemma ScalesWhen(v: nat, powers: seq<nat>)
    requires v < 32 && |powers| == 5 && powers[0] == v
    requires forall i :: 0 <= i < 5 ==> powers[i] < 32
    requires forall i :: 0 < i < 5 ==> powers[i] == TimesRoot(powers[i - 1])
    ensures Scales(v, powers)
  {
    hide TimesRoot;
    assert TimesRootPower(v, 0) == powers[0];
    assert TimesRootPower(v, 1) == powers[1];
    assert TimesRootPower(v, 2) == powers[2];
    assert TimesRootPower(v, 3) == powers[3];
    assert TimesRootPower(v, 4) == powers[4];
  }

  lemma XorNine(w: nat)
    requires w % 2 == 0
    ensures Xor(w, 9) == if w / 8 % 2 == 0 then w + 9 else w - 7
  {
    hide Xor;
    XorParts(w, 9);
    XorParts(w / 2, 4);
    XorParts(w / 4, 2);
    XorParts(w / 8, 1);
    XorSelf(w / 16);
  }

  lemma TimesRootIs(v: nat)
    requires v < 32
    ensures TimesRoot(v) == if v < 16 then 2 * v else if v / 4 % 2 == 0 then 2 * v - 23 else 2 * v - 39
  {
    hide Xor;
    if v >= 16 {
      XorNine(2 * v - 32);
    }
  }

  lemma TimesRootsAre()
    ensures forall v: nat :: v < 32 ==>
      TimesRoot(v) == if v < 16 then 2 * v else if v / 4 % 2 == 0 then 2 * v - 23 else 2 * v - 39
  {
    forall v: nat | v < 32
      ensures TimesRoot(v) == if v < 16 then 2 * v else if v / 4 % 2 == 0 then 2 * v - 23 else 2 * v - 39
    {
      TimesRootIs(v);
    }
  }

  lemma Powers18()
    ensures Scales(18, [18, 13, 26, 29, 19])
  {
    hide TimesRoot, Scales;
    TimesRootsAre();
    ScalesWhen(18, [18, 13, 26, 29, 19]);
  }

  lemma Powers29()
    ensures Scales(29, [29, 19, 15, 30, 21])
  {
    hide TimesRoot, Scales;
    TimesRootsAre();
    ScalesWhen(29, [29, 19, 15, 30, 21]);
  }

  lemma Powers21()
    ensures Scales(21, [21, 3, 6, 12, 24])
  {
    hide TimesRoot, Scales;
    TimesRootsAre();
    ScalesWhen(21, [21, 3, 6, 12, 24]);
  }

  lemma Powers20()
    ensures Scales(20, [20, 1, 2, 4, 8])
  {
    hide TimesRoot, Scales;
    TimesRootsAre();
    ScalesWhen(20, [20, 1, 2, 4, 8]);
  }

  lemma Powers22()
    ensures Scales(22, [22, 5, 10, 20, 1])
  {
    hide TimesRoot, Scales;
    TimesRootsAre();
    ScalesWhen(22, [22, 5, 10, 20, 1]);
  }

  /** Packed generator `i` is the generator polynomial times `a^i`. */
  lemma GeneratorDigits(i: nat, k: nat)
    requires i < 5 && k < 6
    ensures COEFFICIENTS[k] < 32 && Digit(GENERATORS[i], k) == TimesRootPower(COEFFICIENTS[k], i)
  {
    hide Digit, TimesRootPower, Written;
    Powers18();
    Powers29();
    Powers21();
    Powers20();
    Powers22();
    GeneratorsWritten();
    WrittenDigits(GENERATORS[i], ROWS[i], k);
  }

  /** The coefficients of the generators, from the constant up. */
  const ROWS: seq<seq<nat>> := [
    [18, 29, 21, 20, 22, 29],
    [13, 19, 3, 1, 5, 19],
    [26, 15, 6, 2, 10, 15],
    [29, 30, 12, 4, 20, 30],
    [19, 21, 24, 8, 1, 21]]

  lemma GeneratorsWritten()
    ensures forall i :: 0 <= i < 5 ==> Written(GENERATORS[i], ROWS[i])
  {
    hide Written;
    SixWritten(0x3B6A57B2, 18, 29, 21, 20, 22, 29);
    SixWritten(0x26508E6D, 13, 19, 3, 1, 5, 19);
    SixWritten(0x1EA119FA, 26, 15, 6, 2, 10, 15);
    SixWritten(0x3D4233DD, 29, 30, 12, 4, 20, 30);
    SixWritten(0x2A1462B3, 19, 21, 24, 8, 1, 21);
  }

  lemma SixWritten(v: nat, a: nat, b: nat, c: nat, d: nat, e: nat, f: nat)
    requires a < 32 && b < 32 && c < 32 && d < 32 && e < 32 && f < 32
    requires v == a + 32 * (b + 32 * (c + 32 * (d + 32 * (e + 32 * f))))
    ensures Written(v, [a, b, c, d, e, f])
  {
    assert Written(f, [f]);
    assert Written(e + 32 * f, [e] + [f]);
    var four := d + 32 * (e + 32 * f);
    assert four % 32 == d && four / 32 == e + 32 * f;
    assert [d, e, f][1..] == [e] + [f] && Written(four, [d, e, f]);
    var five := c + 32 * four;
    assert five % 32 == c && five / 32 == four;
    assert [c, d, e, f][1..] == [d, e, f] && Written(five, [c, d, e, f]);
    var six := b + 32 * five;
    assert six % 32 == b && six / 32 == five;
    assert [b, c, d, e, f][1..] == [c, d, e, f] && Written(six, [b, c, d, e, f]);
    assert v % 32 == a && v / 32 == six;
    assert [a, b, c, d, e, f][1..] == [b, c, d, e, f];
  }

  lemma XorDigit(x: nat, y: nat, k: nat)
    ensures Digit(Xor(x, y), k) == Xor(Digit(x, k), Digit(y, k))
  {
    XorShiftRight(x, y, 5 * k);
    XorLowBits(ShiftRight(x, 5 * k), ShiftRight(y, 5 * k), 5);
  }

  lemma ZeroDigit(k: nat)
    ensures Digit(0, k) == 0
  {
    SmallShifts(0, 5 * k);
    SmallShifts(0, 5);
  }

  /** The feedback is the generator polynomial times the symbol `b`. */
  lemma {:induction false} TapsDigit(b: nat, n: nat, k: nat)
    requires n <= 5 && k < 6
    ensures COEFFICIENTS[k] < 32 && Digit(Taps(b, n), k) == Times(b, COEFFICIENTS[k], n)
  {
    hide Digit, Xor;
    if n == 0 {
      ZeroDigit(k);
    } else {
      TapsDigit(b, n - 1, k);
      GeneratorDigits(n - 1, k);
      XorDigit(Taps(b, n - 1), GENERATORS[n - 1], k);
    }
  }

  // ----- one step ------------------------------------------------------------------

  lemma {:induction false} ShiftBack(v: nat, k: nat)
    ensures ShiftRight(ShiftLeft(v, k), k) == v
  {
    if k > 0 {
      ShiftBack(v, k - 1);
      assert ShiftLeft(v, k) / 2 == ShiftLeft(v, k - 1);
    }
  }

  /** Low bits that reach far enough do not change a group below. */
  lemma {:induction false} GroupBelow(v: nat, n: nat, j: nat, m: nat)
    requires j + m <= n
    ensures LowBits(ShiftRight(LowBits(v, n), j), m) == LowBits(ShiftRight(v, j), m)
    decreases j, m
  {
    if j > 0 {
      LowBitsHalf(v, n);
      GroupBelow(v / 2, n - 1, j - 1, m);
    } else {
      FewerBits(v, n, m);
    }
  }

  lemma {:induction false} FewerBits(v: nat, n: nat, m: nat)
    requires m <= n
    ensures LowBits(LowBits(v, n), m) == LowBits(v, m)
    decreases m
  {
    hide LowBits;
    if m == 0 {
      NoBits(v);
      NoBits(LowBits(v, n));
    } else {
      LowBitsHalf(v, n);
      LowBitsHalf(LowBits(v, n), m);
      LowBitsHalf(v, m);
      FewerBits(v / 2, n - 1, m - 1);
    }
  }

  /** Moving up by one symbol moves every coefficient up by one place. */
  lemma LowPartDigit(x: State, k: nat)
    requires k < 6
    ensures Digit(LowPart(x), k) == if k == 0 then 0 else Digit(x, k - 1)
  {
    var v := LowBits(x, 25);
    if k == 0 {
      ShiftLeftLowBits(v, 5);
    } else {
      ShiftRightTwice(ShiftLeft(v, 5), 5, 5 * (k - 1));
      ShiftBack(v, 5);
      GroupBelow(x, 25, 5 * (k - 1), 5);
    }
  }

  lemma TopDigit(x: State)
    ensures TopPart(x) == Digit(x, 5)
  {
    Powers();
    SmallShifts(TopPart(x), 5);
  }

  /** One step is multiplication by x modulo the generator polynomial, coefficient by coefficient. */
  lemma StepDividesByGenerator(x: State, k: nat)
    requires k < 6
    ensures COEFFICIENTS[k] < 32
    ensures Digit(PolymodStep(x), k) == Xor(if k == 0 then 0 else Digit(x, k - 1), Times(Digit(x, 5), COEFFICIENTS[k], 5))
  {
    hide Digit, Taps, Times, LowPart, TopPart, Xor;
    XorDigit(LowPart(x), Taps(TopPart(x), 5), k);
    LowPartDigit(x, k);
    TopDigit(x);
    TapsDigit(TopPart(x), 5, k);
  }

  // ----- whole messages ------------------------------------------------------------

  /** The polynomial so far, times x, plus the next symbol, modulo the generator. */
  function NextRemainder(d: seq<nat>, v: nat): (r: seq<nat>)
    requires |d| == 6
    ensures |r| == 6
  {
    seq(6, k requires 0 <= k < 6 => Xor(if k == 0 then v else d[k - 1], Times(d[5], COEFFICIENTS[k], 5)))
  }

  /** The message behind a leading 1, modulo the generator; coefficients from the constant up. */
  function Remainder(message: seq<nat>): (r: seq<nat>)
    ensures |r| == 6
  {
    if message == [] then [1, 0, 0, 0, 0, 0]
    else NextRemainder(Remainder(message[..|message| - 1]), message[|message| - 1])
  }

  function Digits(x: nat): (d: seq<nat>)
    ensures |d| == 6
  {
    seq(6, k requires 0 <= k < 6 => Digit(x, k))
  }

  lemma SymbolDigit(v: nat, k: nat)
    requires v < 32
    ensures Digit(v, k) == if k == 0 then v else 0
  {
    hide Digit;
    DigitBelow(v, k);
    ZeroDigit(k - if k == 0 then 0 else 1);
  }

  lemma AbsorbedDigit(x: State, v: State, k: nat)
    requires v < 32 && k < 6
    ensures Digit(StateXor(PolymodStep(x), v), k) == NextRemainder(Digits(x), v)[k]
  {
    hide Digit, Times, PolymodStep, Xor;
    XorDigit(PolymodStep(x), v, k);
    StepDividesByGenerator(x, k);
    SymbolDigit(v, k);
    var fed := Times(Digit(x, 5), COEFFICIENTS[k], 5);
    if k == 0 {
      XorWithZero(fed);
      XorCommutes(fed, v);
    } else {
      XorWithZero(Xor(Digit(x, k - 1), fed));
    }
  }

  lemma XorWithZero(x: nat)
    ensures Xor(x, 0) == x && Xor(0, x) == x
  {
    XorSelf(x);
    XorCommutes(x, 0);
  }

  lemma StateSnoc(message: seq<State>, v: State)
    ensures MessageState(message + [v]) == StateXor(PolymodStep(MessageState(message)), v)
  {
    assert (message + [v])[..|message|] == message;
  }

  /** The 30-bit state of the source is that remainder. */
  lemma {:induction false} StateIsRemainder(message: seq<State>)
    requires forall i :: 0 <= i < |message| ==> message[i] < 32
    ensures Digits(MessageState(message)) == Remainder(message)
  {
    hide Digit, NextRemainder, PolymodStep, StateXor;
    if message == [] {
      OneDigits();
    } else {
      var init, v := message[..|message| - 1], message[|message| - 1];
      StateIsRemainder(init);
      var x := MessageState(init);
      StateSnoc(init, v);
      assert init + [v] == message;
      forall k | 0 <= k < 6 ensures Digit(MessageState(message), k) == NextRemainder(Digits(x), v)[k] {
        AbsorbedDigit(x, v, k);
      }
      assert Digits(MessageState(message)) == NextRemainder(Digits(x), v);
    }
  }

  lemma OneDigits()
    ensures Digits(1) == [1, 0, 0, 0, 0, 0]
  {
    hide Digit;
    forall k: nat | k < 6 ensures Digit(1, k) == if k == 0 then 1 else 0 {
      SymbolDigit(1, k);
    }
  }

  lemma OnlyZeroFits(x: nat)
    ensures x < Pow2(5 * 0) ==> x == 0
  {
  }

  lemma QuotientFits(x: nat, n: nat)
    requires x < Pow2(5 * (n + 1))
    ensures x / 32 < Pow2(5 * n)
  {
    hide Pow2;
    Pow2Add(5 * n, 5);
    Powers();
  }

  lemma {:induction false} DigitsDetermine(x: nat, y: nat, n: nat)
    requires x < Pow2(5 * n) && y < Pow2(5 * n) && forall k: nat :: k < n ==> Digit(x, k) == Digit(y, k)
    ensures x == y
  {
    hide Digit, Pow2;
    if n == 0 {
      OnlyZeroFits(x);
      OnlyZeroFits(y);
    } else {
      DigitBelow(x, 0);
      DigitBelow(y, 0);
      QuotientFits(x, n - 1);
      QuotientFits(y, n - 1);
      forall k: nat | k < n - 1 ensures Digit(x / 32, k) == Digit(y / 32, k) {
        DigitBelow(x, k + 1);
        DigitBelow(y, k + 1);
      }
      DigitsDetermine(x / 32, y / 32, n - 1);
    }
  }

  predicate RemainderIsOne(message: seq<nat>) {
    Remainder(message) == [1, 0, 0, 0, 0, 0]
  }

  /** A message is valid when its remainder is 1. */
  lemma ValidIffRemainderOne(message: seq<State>)
    requires forall i :: 0 <= i < |message| ==> message[i] < 32
    ensures MessageState(message) == 1 <==> RemainderIsOne(message)
  {
    hide Digit, Remainder, MessageState;
    StateIsRemainder(message);
    OneDigits();
    var x := MessageState(message);
    if Digits(x) == Digits(1) {
      forall k: nat | k < 6 ensures Digit(x, k) == Digit(1, k) {
        assert Digits(x)[k] == Digits(1)[k];
      }
      Powers();
      DigitsDetermine(x, 1, 6);
    }
  }

  // ----- whole texts ---------------------------------------------------------------

  /** The symbols, eight to a row, by their values. */
  function SymbolOf(w: Word): char {
    if w < 8 then "qpzry9x8"[w]
    else if w < 16 then "gf2tvdw0"[w - 8]
    else if w < 24 then "s3jn54kh"[w - 16]
    else "ce6mua7l"[w - 24]
  }

  lemma SymbolInAlphabet(w: Word)
    ensures ALPHABET[w] == SymbolOf(w)
  {
  }

  /** The character code is three high bits and five low bits. */
  predicate SplitCode(c: char, high: nat, low: nat) {
    high < 8 && low < 32 && c as int == 32 * high + low
  }

  /** The high bits of every character, a zero, and the low bits of every character. */
  predicate Expands(hrp: string, values: seq<nat>) {
    && |values| == |hrp| + 1 + |hrp|
    && values[|hrp|] == 0
    && forall i :: 0 <= i < |hrp| ==> SplitCode(hrp[i], values[i], values[|hrp| + 1 + i])
  }

  /** Behind the expanded prefix, the words make the remainder 1. */
  ghost predicate CodeWords(hrp: string, words: seq<Word>) {
    exists head: seq<nat> :: Expands(hrp, head) && RemainderIsOne(head + words)
  }

  predicate WrittenAs(text: string, hrp: string, words: seq<Word>) {
    && |text| == |hrp| + 1 + |words|
    && text[..|hrp|] == hrp
    && text[|hrp|] == '1'
    && forall i :: 0 <= i < |words| ==> text[|hrp| + 1 + i] == SymbolOf(words[i])
  }

  lemma HrpExpands(hrp: string)
    requires ValidHrp(hrp)
    ensures Expands(hrp, HrpValues(hrp))
    ensures forall head :: Expands(hrp, head) ==> head == HrpValues(hrp)
  {
    forall i | 0 <= i < |hrp| ensures SplitCode(hrp[i], HrpValues(hrp)[i], HrpValues(hrp)[|hrp| + 1 + i]) {
      assert ValidHrpChar(hrp[i]);
    }
    forall head | Expands(hrp, head) ensures head == HrpValues(hrp) {
      ExpandsOnce(hrp, head, HrpValues(hrp));
    }
  }

  lemma ExpandsOnce(hrp: string, a: seq<nat>, b: seq<nat>)
    requires Expands(hrp, a) && Expands(hrp, b)
    ensures a == b
  {
    forall i | 0 <= i < |a| ensures a[i] == b[i] {
      if i < |hrp| {
        assert SplitCode(hrp[i], a[i], a[|hrp| + 1 + i]) && SplitCode(hrp[i], b[i], b[|hrp| + 1 + i]);
      } else if i > |hrp| {
        var k := i - |hrp| - 1;
        assert SplitCode(hrp[k], a[k], a[|hrp| + 1 + k]) && SplitCode(hrp[k], b[k], b[|hrp| + 1 + k]);
      }
    }
  }

  /** The checksum test of the source is the remainder test. */
  lemma ValidIffCodeWords(hrp: string, words: seq<Word>)
    requires ValidHrp(hrp)
    ensures ValidChecksum(hrp, words) <==> CodeWords(hrp, words)
  {
    hide RemainderIsOne, MessageState, HrpValues;
    HrpExpands(hrp);
    Powers();
    var message: seq<State> := HrpValues(hrp) + words;
    forall i | 0 <= i < |message| ensures message[i] < 32 {
      if i < |hrp| {
        assert SplitCode(hrp[i], HrpValues(hrp)[i], HrpValues(hrp)[|hrp| + 1 + i]);
      } else if |hrp| < i < 2 * |hrp| + 1 {
        var k := i - |hrp| - 1;
        assert SplitCode(hrp[k], HrpValues(hrp)[k], HrpValues(hrp)[|hrp| + 1 + k]);
      }
    }
    ValidIffRemainderOne(message);
    assert ValidChecksum(hrp, words) <==> MessageState(message) == 1;
    if RemainderIsOne(message) {
      var head: seq<nat> := HrpValues(hrp);
      assert head + words == message;
    }
    if CodeWords(hrp, words) {
      var head: seq<nat> :| Expands(hrp, head) && RemainderIsOne(head + words);
      assert head + words == message;
    }
  }

  lemma AssembledIsWritten(text: string, hrp: string, words: seq<Word>)
    ensures text == Assemble(hrp, words) <==> WrittenAs(text, hrp, words)
  {
    forall i | 0 <= i < |words| ensures ALPHABET[words[i]] == SymbolOf(words[i]) {
      SymbolInAlphabet(words[i]);
    }
    var t := Assemble(hrp, words);
    assert t[..|hrp|] == hrp && t[|hrp|] == '1' && t[|hrp| + 1..] == Chars(words);
    if WrittenAs(text, hrp, words) {
      assert text == text[..|hrp|] + [text[|hrp|]] + text[|hrp| + 1..];
      assert text[|hrp| + 1..] == Chars(words);
    }
  }

  /** What encoding writes for (hrp, data) is the one code string whose payload regroups the data. */
  lemma EncodesExactly(text: string, hrp: string, data: Bytes)
    requires ValidHrp(hrp)
    ensures text == Encoding(hrp, data)
            <==> exists payload: seq<Word>, check: seq<Word> ::
                   |check| == 6 && Regroups(data, payload) && CodeWords(hrp, payload + check) && WrittenAs(text, hrp, payload + check)
  {
    hide CodeWords, Regroups, WrittenAs, ValidChecksum, Chars, Assemble, ChecksumWords;
    if text == Encoding(hrp, data) {
      var payload, check := ToWords(data), ChecksumWords(hrp, ToWords(data));
      WordsOfEncoding(hrp, data, payload, check);
      ValidIffCodeWords(hrp, payload + check);
      AssembledIsWritten(text, hrp, payload + check);
    }
    if payload: seq<Word>, check: seq<Word> :|
      |check| == 6 && Regroups(data, payload) && CodeWords(hrp, payload + check) && WrittenAs(text, hrp, payload + check)
    {
      WordsOfEncoding(hrp, data, payload, check);
      ValidIffCodeWords(hrp, payload + check);
      AssembledIsWritten(text, hrp, payload + check);
    }
  }
}
