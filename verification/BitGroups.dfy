/**
  Bit strings, and the regrouping of 8-bit bytes into 5-bit words and back that bech32 uses.
  The two loops work on an accumulator and a bit count; they are specified by the bit
  strings that bytes and words spell out.
  */
module BitGroups {
  import opened Wrappers
  import opened BitOps
  import opened ByteStrings

  type Word = w: int | 0 <= w < 32

  type Bits = seq<bool>

  /** The `k` low bits of `v`, most significant first. */
  function BitsOf(v: nat, k: nat): (r: Bits)
    ensures |r| == k
  {
    if k == 0 then [] else BitsOf(v / 2, k - 1) + [v % 2 == 1]
  }

  function Zeros(k: nat): Bits { seq(k, _ => false) }

  function ByteBits(): byte -> Bits { (b: byte) => BitsOf(b, 8) }

  function WordBits(): Word -> Bits { (w: Word) => BitsOf(w, 5) }

  lemma {:induction false} BitsOfLowBits(v: nat, k: nat)
    ensures BitsOf(LowBits(v, k), k) == BitsOf(v, k)
  {
    if k > 0 {
      BitsOfLowBits(v / 2, k - 1);
    }
  }

  /** Writing down `a + b` bits writes the shifted value's `a` bits, then the low `b`. */
  lemma {:induction false} BitsSplit(v: nat, a: nat, b: nat)
    ensures BitsOf(v, a + b) == BitsOf(ShiftRight(v, b), a) + BitsOf(v, b)
    decreases b
  {
    if b > 0 {
      BitsSplit(v / 2, a, b - 1);
    }
  }

  /** A group is pushed under the accumulator. */
  lemma {:induction false} PushGroup(carry: nat, pos: nat, n: nat, k: nat)
    requires n < Pow2(k)
    ensures BitsOf(ShiftLeft(carry, k) + n, pos + k) == BitsOf(carry, pos) + BitsOf(n, k)
    decreases k
  {
    if k > 0 {
      PushGroup(carry, pos, n / 2, k - 1);
      assert (ShiftLeft(carry, k) + n) / 2 == ShiftLeft(carry, k - 1) + n / 2;
    }
  }

  /** One group leaves the accumulator: its top `k` of `pos + k` bits. */
  lemma TakeGroup(carry: nat, pos: nat, k: nat)
    ensures BitsOf(carry, pos + k) == BitsOf(LowBits(ShiftRight(carry, pos), k), k) + BitsOf(carry, pos)
  {
    BitsSplit(carry, k, pos);
    BitsOfLowBits(ShiftRight(carry, pos), k);
    assert k + pos == pos + k;
  }

  lemma {:induction false} BitsInjective(x: nat, y: nat, k: nat)
    requires x < Pow2(k) && y < Pow2(k) && BitsOf(x, k) == BitsOf(y, k)
    ensures x == y
  {
    if k > 0 {
      var bx, by' := BitsOf(x, k), BitsOf(y, k);
      assert bx[..k - 1] == BitsOf(x / 2, k - 1) && by'[..k - 1] == BitsOf(y / 2, k - 1);
      assert bx[k - 1] == (x % 2 == 1) && by'[k - 1] == (y % 2 == 1);
      BitsInjective(x / 2, y / 2, k - 1);
    }
  }

  lemma {:induction false} BitsOfZero(k: nat)
    ensures BitsOf(0, k) == Zeros(k)
  {
    if k > 0 {
      BitsOfZero(k - 1);
    }
  }

  lemma {:induction false} FlatBitsLength<T>(f: T -> Bits, k: nat, s: seq<T>)
    requires forall x :: |f(x)| == k
    ensures |FlatMap(f, s)| == k * |s|
  {
    if s != [] {
      FlatBitsLength(f, k, s[..|s| - 1]);
      assert k * |s| == k * (|s| - 1) + k;
    }
  }

  /** Equal bit strings of equally many groups spell equal groups. */
  lemma {:induction false} FlatBitsInjective<T>(f: T -> Bits, k: nat, s: seq<T>, r: seq<T>)
    requires forall x :: |f(x)| == k
    requires forall x, y :: f(x) == f(y) ==> x == y
    requires |s| == |r| && FlatMap(f, s) == FlatMap(f, r)
    ensures s == r
  {
    if s != [] {
      var s', r' := s[..|s| - 1], r[..|r| - 1];
      FlatBitsLength(f, k, s');
      FlatBitsLength(f, k, r');
      var bits := FlatMap(f, s);
      assert bits[..k * |s'|] == FlatMap(f, s') && bits[k * |s'|..] == f(s[|s| - 1]);
      assert bits[..k * |s'|] == FlatMap(f, r') && bits[k * |s'|..] == f(r[|r| - 1]);
      FlatBitsInjective(f, k, s', r');
      assert s == s' + [s[|s| - 1]] && r == r' + [r[|r| - 1]];
    }
  }

  lemma Pow2Values()
    ensures Pow2(5) == 32 && Pow2(8) == 256
  {
    assert Pow2(4) == 16 && Pow2(6) == 64;
  }

  lemma GroupBitsInjective()
    ensures forall x, y :: ByteBits()(x) == ByteBits()(y) ==> x == y
    ensures forall x, y :: WordBits()(x) == WordBits()(y) ==> x == y
  {
    Pow2Values();
    forall x: byte, y: byte | BitsOf(x, 8) == BitsOf(y, 8) ensures x == y {
      BitsInjective(x, y, 8);
    }
    forall x: Word, y: Word | BitsOf(x, 5) == BitsOf(y, 5) ensures x == y {
      BitsInjective(x, y, 5);
    }
  }

  // ----- the relation between bytes and words --------------------------------------

  /** `words` spell the bits of `data` followed by fewer than five zero bits. */
  predicate Regroups(data: Bytes, words: seq<Word>) {
    && 0 <= 5 * |words| - 8 * |data| < 5
    && FlatMap(WordBits(), words) == FlatMap(ByteBits(), data) + Zeros(5 * |words| - 8 * |data|)
  }

  /** The relation is one-to-one in both directions. */
  lemma RegroupsUnique(data: Bytes, words: seq<Word>, data': Bytes, words': seq<Word>)
    requires Regroups(data, words) && Regroups(data', words')
    ensures data == data' <==> words == words'
  {
    GroupBitsInjective();
    if data == data' {
      FlatBitsInjective(WordBits(), 5, words, words');
    }
    if words == words' {
      var a, b := FlatMap(ByteBits(), data), FlatMap(ByteBits(), data');
      FlatBitsLength(ByteBits(), 8, data);
      FlatBitsLength(ByteBits(), 8, data');
      var bits := FlatMap(WordBits(), words);
      assert bits[..8 * |data|] == a && bits[..8 * |data|] == b;
      FlatBitsInjective(ByteBits(), 8, data, data');
    }
  }

  /** The bits written so far and those still in the accumulator spell what was read. */
  ghost predicate Pending<S, T>(f: S -> Bits, out: seq<S>, g: T -> Bits, read: seq<T>, acc: Bits) {
    FlatMap(f, out) + acc == FlatMap(g, read)
  }

  lemma Absorb<S, T>(f: S -> Bits, out: seq<S>, g: T -> Bits, read: seq<T>, acc: Bits, x: T)
    requires Pending(f, out, g, read, acc)
    ensures Pending(f, out, g, read + [x], acc + g(x))
  {
    FlatMapLast(g, read, x);
  }

  lemma Emit<S, T>(f: S -> Bits, out: seq<S>, g: T -> Bits, read: seq<T>, x: S, acc: Bits)
    requires Pending(f, out, g, read, f(x) + acc)
    ensures Pending(f, out + [x], g, read, acc)
  {
    FlatMapLast(f, out, x);
  }

  /** 8-bit bytes to 5-bit words, the last one padded with zero bits. */
  method BytesToWords(data: Bytes) returns (words: seq<Word>)
    ensures Regroups(data, words)
  {
    Pow2Values();
    words := [];
    var carry, pos := 0, 0;
    ghost var f, g := WordBits(), ByteBits();
    for i := 0 to |data|
      invariant 0 <= carry && 0 <= pos < 5
      invariant Pending(f, words, g, data[..i], BitsOf(carry, pos))
    {
      hide Pending, BitsOf;
      var n := data[i];
      PushGroup(carry, pos, n, 8);
      Absorb<Word, byte>(f, words, g, data[..i], BitsOf(carry, pos), n);
      assert data[..i + 1] == data[..i] + [n];
      carry := ShiftLeft(carry, 8) + n;
      pos := pos + 8;
      while pos >= 5
        invariant 0 <= pos
        invariant Pending(f, words, g, data[..i + 1], BitsOf(carry, pos))
      {
        pos := pos - 5;
        var w := LowBits(ShiftRight(carry, pos), 5);
        TakeGroup(carry, pos, 5);
        Emit<Word, byte>(f, words, g, data[..i + 1], w, BitsOf(carry, pos));
        words := words + [w];
      }
      BitsOfLowBits(carry, pos);
      carry := LowBits(carry, pos);
    }
    assert data[..|data|] == data;
    LastWord(data, words, carry, pos);
    if pos > 0 {
      words := words + [LowBits(ShiftLeft(carry, 5 - pos), 5)];
    }
  }

  /** What is left in the accumulator, padded, is the last word. */
  lemma LastWord(data: Bytes, words: seq<Word>, carry: nat, pos: nat)
    requires pos < 5 && Pending(WordBits(), words, ByteBits(), data, BitsOf(carry, pos))
    ensures var last := LowBits(ShiftLeft(carry, 5 - pos), 5);
            last < 32 && Regroups(data, if pos > 0 then words + [last] else words)
  {
    Pow2Values();
    FlatBitsLength<byte>(ByteBits(), 8, data);
    FlatBitsLength<Word>(WordBits(), 5, words);
    if pos > 0 {
      PadWord(carry, pos);
      FlatMapLast<Word, bool>(WordBits(), words, LowBits(ShiftLeft(carry, 5 - pos), 5));
    } else {
      assert Zeros(0) == [];
    }
  }

  lemma PadWord(carry: nat, pos: nat)
    requires 0 < pos < 5
    ensures BitsOf(LowBits(ShiftLeft(carry, 5 - pos), 5), 5) == BitsOf(carry, pos) + Zeros(5 - pos)
  {
    var k := 5 - pos;
    BitsOfLowBits(ShiftLeft(carry, k), 5);
    PushGroup(carry, pos, 0, k);
    BitsOfZero(k);
  }

  /** 5-bit words to 8-bit bytes.  Fails exactly when the words are no regrouping of any bytes:
      five or more bits are left over, or a leftover bit is set. */
  method WordsToBytes(words: seq<Word>) returns (r: Option<Bytes>)
    ensures r.Some? ==> Regroups(r.value, words)
    ensures forall data :: Regroups(data, words) ==> r == Some(data)
  {
    Pow2Values();
    var out: Bytes := [];
    var carry, pos := 0, 0;
    ghost var f, g := WordBits(), ByteBits();
    for i := 0 to |words|
      invariant 0 <= pos < 8 && 0 <= carry < Pow2(pos)
      invariant Pending(g, out, f, words[..i], BitsOf(carry, pos))
    {
      var w := words[i];
      PushGroup(carry, pos, w, 5);
      Absorb<byte, Word>(g, out, f, words[..i], BitsOf(carry, pos), w);
      assert words[..i + 1] == words[..i] + [w];
      carry := ShiftLeft(carry, 5) + w;
      pos := pos + 5;
      while pos >= 8
        invariant 0 <= pos
        invariant Pending(g, out, f, words[..i + 1], BitsOf(carry, pos))
      {
        pos := pos - 8;
        var b := LowBits(ShiftRight(carry, pos), 8);
        TakeGroup(carry, pos, 8);
        Emit<byte, Word>(g, out, f, words[..i + 1], b, BitsOf(carry, pos));
        out := out + [b];
      }
      BitsOfLowBits(carry, pos);
      carry := LowBits(carry, pos);
    }
    assert words[..|words|] == words;
    if pos >= 5 || carry != 0 {
      NoRegrouping(words, out, carry, pos);
      return None;
    }
    OnlyRegrouping(words, out, pos);
    return Some(out);
  }

  lemma OnlyRegrouping(words: seq<Word>, out: Bytes, pos: nat)
    requires pos < 5 && FlatMap(ByteBits(), out) + BitsOf(0, pos) == FlatMap(WordBits(), words)
    ensures Regroups(out, words)
    ensures forall data :: Regroups(data, words) ==> data == out
  {
    FlatBitsLength<Word>(WordBits(), 5, words);
    FlatBitsLength<byte>(ByteBits(), 8, out);
    BitsOfZero(pos);
    forall data | Regroups(data, words) ensures data == out {
      RegroupsUnique(data, words, out, words);
    }
  }

  lemma NoRegrouping(words: seq<Word>, out: Bytes, carry: nat, pos: nat)
    requires pos < 8 && carry < Pow2(pos) && (pos >= 5 || carry != 0)
    requires FlatMap(ByteBits(), out) + BitsOf(carry, pos) == FlatMap(WordBits(), words)
    ensures forall data :: !Regroups(data, words)
  {
    FlatBitsLength<Word>(WordBits(), 5, words);
    FlatBitsLength<byte>(ByteBits(), 8, out);
    forall data ensures !Regroups(data, words) {
      FlatBitsLength<byte>(ByteBits(), 8, data);
      if Regroups(data, words) {
        var bits := FlatMap(WordBits(), words);
        assert |data| == |out|;
        assert bits[8 * |out|..] == BitsOf(carry, pos) && bits[8 * |out|..] == Zeros(pos);
        BitsOfZero(pos);
        BitsInjective(carry, 0, pos);
      }
    }
  }

  // ----- the regroupings as functions ----------------------------------------------

  function ValueOf(bits: Bits): (v: nat)
    ensures v < Pow2(|bits|) && BitsOf(v, |bits|) == bits
  {
    if bits == [] then 0
    else
      var init := bits[..|bits| - 1];
      assert bits == init + [bits[|bits| - 1]];
      2 * ValueOf(init) + if bits[|bits| - 1] then 1 else 0
  }

  function WordsOfBits(bits: Bits): (words: seq<Word>)
    requires |bits| % 5 == 0
    ensures FlatMap(WordBits(), words) == bits && 5 * |words| == |bits|
  {
    Pow2Values();
    if bits == [] then []
    else
      var init, last := bits[..|bits| - 5], bits[|bits| - 5..];
      assert bits == init + last;
      FlatMapLast<Word, bool>(WordBits(), WordsOfBits(init), ValueOf(last));
      WordsOfBits(init) + [ValueOf(last)]
  }

  /** The one word sequence that regroups `data`. */
  function ToWords(data: Bytes): (words: seq<Word>)
    ensures Regroups(data, words)
  {
    FlatBitsLength(ByteBits(), 8, data);
    WordsOfBits(FlatMap(ByteBits(), data) + Zeros((5 - 8 * |data| % 5) % 5))
  }
}
