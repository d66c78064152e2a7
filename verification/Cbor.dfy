/** CBOR at the byte level: item heads with explicit argument widths, items and their encodings. */
module Cbor {
  import opened Wrappers
  import opened ByteStrings

  // ----- heads ---------------------------------------------------------------------

  /** Major type, additional information, and the argument it announces. */
  datatype Head = Head(mt: nat, ai: nat, value: nat)

  function ArgWidth(ai: nat): nat {
    if ai < 24 then 0 else if ai == 24 then 1 else if ai == 25 then 2 else if ai == 26 then 4 else 8
  }

  predicate ValidHead(h: Head) {
    h.mt < 8 && h.ai <= 27 && if h.ai < 24 then h.value == h.ai else h.value < Pow256(ArgWidth(h.ai))
  }

  function HeadBytes(h: Head): (r: Bytes)
    requires h.mt < 8 && h.ai <= 27
    ensures |r| == 1 + ArgWidth(h.ai)
  {
    [32 * h.mt + h.ai] + BigEndian(h.value, ArgWidth(h.ai))
  }

  datatype HeadAt = HeadAt(head: Head, payloadStart: nat)

  /** The head at `pos`; None when it is cut off, reserved or of indefinite length. */
  function ReadHead(data: Bytes, pos: nat): (r: Option<HeadAt>)
    ensures r.Some? ==> pos < r.value.payloadStart <= |data| && r.value.head.mt < 8 && r.value.head.ai <= 27
  {
    if pos >= |data| then None
    else
      var mt, ai, p := data[pos] / 32, data[pos] % 32, pos + 1;
      if ai > 27 || p + ArgWidth(ai) > |data| then None
      else Some(HeadAt(Head(mt, ai, if ai < 24 then ai else BigEndianValue(data[p..p + ArgWidth(ai)])), p + ArgWidth(ai)))
  }

  /** What is read is a valid head, and its bytes are those passed over. */
  lemma ReadHeadSound(data: Bytes, pos: nat)
    requires ReadHead(data, pos).Some?
    ensures var h := ReadHead(data, pos).value;
            ValidHead(h.head) && data[pos..h.payloadStart] == HeadBytes(h.head)
  {
    var h := ReadHead(data, pos).value;
    var p := pos + 1;
    BigEndianOfValue(data[p..h.payloadStart]);
    assert data[pos..h.payloadStart] == [data[pos]] + data[p..h.payloadStart];
  }

  /** `part` stands in `data` at `pos`. */
  predicate At(data: Bytes, pos: nat, part: Bytes) {
    pos + |part| <= |data| && data[pos..pos + |part|] == part
  }

  lemma AtSplit(data: Bytes, pos: nat, a: Bytes, b: Bytes)
    ensures At(data, pos, a + b) <==> At(data, pos, a) && At(data, pos + |a|, b)
  {
    if At(data, pos, a + b) {
      var whole := data[pos..pos + |a + b|];
      assert whole[..|a|] == a && whole[|a|..] == b;
      assert data[pos..pos + |a|] == whole[..|a|];
      assert data[pos + |a|..pos + |a| + |b|] == whole[|a|..];
    }
    if At(data, pos, a) && At(data, pos + |a|, b) {
      assert data[pos..pos + |a + b|] == data[pos..pos + |a|] + data[pos + |a|..pos + |a| + |b|];
    }
  }

  /** Every valid head is read back from its bytes. */
  lemma ReadHeadComplete(data: Bytes, pos: nat, h: Head)
    requires ValidHead(h) && At(data, pos, HeadBytes(h))
    ensures ReadHead(data, pos) == Some(HeadAt(h, pos + |HeadBytes(h)|))
  {
    var w := ArgWidth(h.ai);
    AtSplit(data, pos, [32 * h.mt + h.ai], BigEndian(h.value, w));
    assert data[pos] == data[pos..pos + 1][0];
    assert data[pos] / 32 == h.mt && data[pos] % 32 == h.ai;
    if h.ai >= 24 {
      ValueOfBigEndian(h.value, w);
    }
  }

  lemma HeadReadAt(data: Bytes, pos: nat, h: Head, next: nat)
    requires ValidHead(h) && At(data, pos, HeadBytes(h)) && next == pos + |HeadBytes(h)|
    ensures ReadHead(data, pos) == Some(HeadAt(h, next))
    ensures pos < |data| && data[pos] / 32 == h.mt && data[pos] % 32 == h.ai
  {
    ReadHeadComplete(data, pos, h);
  }

  lemma ThreeSlices(data: Bytes, a: nat, b: nat, c: nat, d: nat)
    requires a <= b <= c <= d <= |data|
    ensures data[a..d] == data[a..b] + data[b..c] + data[c..d]
  {
  }

  // ----- shortest heads ------------------------------------------------------------

  /** The argument does not fit a shorter form. */
  predicate Minimal(h: Head) {
    || h.ai < 24
    || (h.ai == 24 && h.value >= 24)
    || (h.ai == 25 && h.value > 0xFF)
    || (h.ai == 26 && h.value > 0xFFFF)
    || (h.ai == 27 && h.value > 0xFFFF_FFFF)
  }

  const LIMIT: nat := 0x1_0000_0000_0000_0000

  /** The head that canonical encoding writes. */
  function ShortestHead(mt: nat, value: nat): Head {
    Head(mt,
         if value < 24 then value else if value <= 0xFF then 24 else if value <= 0xFFFF then 25
         else if value <= 0xFFFF_FFFF then 26 else 27,
         value)
  }

  lemma Powers256()
    ensures Pow256(1) == 0x100 && Pow256(2) == 0x1_0000 && Pow256(4) == 0x1_0000_0000 && Pow256(8) == LIMIT
  {
    assert Pow256(6) == 0x1_0000_0000_0000;
  }

  /** A valid head is minimal exactly when it is the one canonical encoding writes. */
  lemma MinimalIffShortest(h: Head)
    requires ValidHead(h)
    ensures h.value < LIMIT
    ensures Minimal(h) <==> h == ShortestHead(h.mt, h.value)
  {
    Powers256();
  }

  lemma ShortestIsValid(mt: nat, value: nat)
    requires mt < 8 && value < LIMIT
    ensures ValidHead(ShortestHead(mt, value)) && Minimal(ShortestHead(mt, value))
  {
    Powers256();
  }

  /** Appendix A of RFC 8949: 10, 24, 100, 1000, 1000000, -500, and an array of 25 items. */
  lemma HeadExamples()
    ensures HeadBytes(ShortestHead(0, 10)) == [0x0A] && HeadBytes(ShortestHead(0, 24)) == [0x18, 0x18]
    ensures HeadBytes(ShortestHead(0, 100)) == [0x18, 0x64] && HeadBytes(ShortestHead(0, 1000)) == [0x19, 0x03, 0xE8]
    ensures HeadBytes(ShortestHead(0, 1000000)) == [0x1A, 0x00, 0x0F, 0x42, 0x40]
    ensures HeadBytes(ShortestHead(1, 499)) == [0x39, 0x01, 0xF3] && HeadBytes(ShortestHead(4, 25)) == [0x98, 0x19]
  {
  }

  // ----- items ---------------------------------------------------------------------

  /** A head, the raw bytes that belong to it, and the items nested in it. */
  datatype Item = Item(head: Head, content: Bytes, children: seq<Item>)

  function ContentLength(h: Head, simpleExtra: nat): nat {
    if h.mt == 2 || h.mt == 3 then h.value
    else if h.mt == 7 && h.ai == 24 then simpleExtra
    else 0
  }

  function ChildCount(h: Head): nat {
    if h.mt == 4 then h.value else if h.mt == 5 then 2 * h.value else if h.mt == 6 then 1 else 0
  }

  /** One definite-length item; `simpleExtra` bytes follow the argument of a two-byte simple value. */
  predicate WellFormed(item: Item, simpleExtra: nat) {
    && ValidHead(item.head)
    && |item.content| == ContentLength(item.head, simpleExtra)
    && |item.children| == ChildCount(item.head)
    && AllWellFormed(item.children, simpleExtra)
  }

  predicate AllWellFormed(items: seq<Item>, simpleExtra: nat) {
    forall i :: 0 <= i < |items| ==> WellFormed(items[i], simpleExtra)
  }

  function Encode(item: Item, simpleExtra: nat): (r: Bytes)
    requires WellFormed(item, simpleExtra)
    ensures |r| >= 1
  {
    HeadBytes(item.head) + item.content + EncodeAll(item.children, simpleExtra)
  }

  function EncodeAll(items: seq<Item>, simpleExtra: nat): Bytes
    requires AllWellFormed(items, simpleExtra)
  {
    if items == [] then [] else Encode(items[0], simpleExtra) + EncodeAll(items[1..], simpleExtra)
  }

  lemma EncodeAllFirst(first: Item, rest: seq<Item>, simpleExtra: nat)
    requires WellFormed(first, simpleExtra) && AllWellFormed(rest, simpleExtra)
    ensures AllWellFormed([first] + rest, simpleExtra)
    ensures EncodeAll([first] + rest, simpleExtra) == Encode(first, simpleExtra) + EncodeAll(rest, simpleExtra)
  {
    assert ([first] + rest)[1..] == rest;
  }

  /** No two-byte simple value occurs anywhere in the item. */
  predicate NoLongSimple(item: Item) {
    !(item.head.mt == 7 && item.head.ai == 24) && forall i :: 0 <= i < |item.children| ==> NoLongSimple(item.children[i])
  }

  /** Without two-byte simple values every reading of them gives the same items and bytes. */
  lemma {:induction false} NoLongSimpleAgrees(item: Item, m: nat, n: nat)
    requires NoLongSimple(item) && WellFormed(item, m)
    ensures WellFormed(item, n) && Encode(item, n) == Encode(item, m)
    decreases item, 1
  {
    NoLongSimpleAgreeAll(item.children, m, n);
  }

  lemma {:induction false} NoLongSimpleAgreeAll(items: seq<Item>, m: nat, n: nat)
    requires (forall i :: 0 <= i < |items| ==> NoLongSimple(items[i])) && AllWellFormed(items, m)
    ensures AllWellFormed(items, n) && EncodeAll(items, n) == EncodeAll(items, m)
    decreases items, 0
  {
    if items != [] {
      NoLongSimpleAgrees(items[0], m, n);
      NoLongSimpleAgreeAll(items[1..], m, n);
      assert forall i :: 0 < i < |items| ==> items[i] == items[1..][i - 1];
    }
  }
}
