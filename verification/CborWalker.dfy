/** The position-aware walker: reading heads and skipping one definite-length item. */
module CborWalker {
  import opened Wrappers
  import opened ByteStrings
  import opened Cbor

  /** The position after the item at `pos`; two-byte simple values take one byte more than their head. */
  function Skip(data: Bytes, pos: nat): (r: Option<nat>)
    ensures r.Some? ==> pos < r.value <= |data|
    decreases |data| - pos, 0, 0
  {
    var h := ReadHead(data, pos);
    if h.None? then None
    else
      var p := h.value.payloadStart + ContentLength(h.value.head, 1);
      if p > |data| then None else SkipMany(data, p, ChildCount(h.value.head))
  }

  function SkipMany(data: Bytes, pos: nat, n: nat): (r: Option<nat>)
    ensures r.Some? ==> pos <= r.value && (pos <= |data| ==> r.value <= |data|)
    decreases |data| - pos, 1, n
  {
    if n == 0 then Some(pos)
    else
      var q := Skip(data, pos);
      if q.None? then None else SkipMany(data, q.value, n - 1)
  }

  // ----- the walker's own form -----------------------------------------------------

  /** Reads the head branch by branch on the additional information. */
  method ReadCborHead(data: Bytes, pos: nat) returns (r: Option<HeadAt>)
    ensures r == ReadHead(data, pos)
  {
    if pos >= |data| {
      return None;
    }
    var head := data[pos];
    var mt, ai := head / 32, head % 32;
    var p := pos + 1;
    var value;
    if ai < 24 {
      value := ai;
    } else if ai == 24 {
      if p + 1 > |data| {
        return None;
      }
      value := data[p];
      OneByte(data, p);
      p := p + 1;
    } else if ai == 25 {
      if p + 2 > |data| {
        return None;
      }
      value := 256 * (data[p] as int) + data[p + 1];
      TwoBytes(data, p);
      p := p + 2;
    } else if ai == 26 {
      if p + 4 > |data| {
        return None;
      }
      value := BigEndianValue(data[p..p + 4]);
      p := p + 4;
    } else if ai == 27 {
      if p + 8 > |data| {
        return None;
      }
      value := BigEndianValue(data[p..p + 8]);
      p := p + 8;
    } else {
      return None;
    }
    return Some(HeadAt(Head(mt, ai, value), p));
  }

  lemma OneByte(data: Bytes, p: nat)
    requires p + 1 <= |data|
    ensures BigEndianValue(data[p..p + 1]) == data[p]
  {
    assert data[p..p + 1] == [] + [data[p]];
    assert BigEndianValue([]) == 0;
  }

  lemma TwoBytes(data: Bytes, p: nat)
    requires p + 2 <= |data|
    ensures BigEndianValue(data[p..p + 2]) == 256 * (data[p] as int) + data[p + 1]
  {
    OneByte(data, p);
    assert data[p..p + 2][..1] == data[p..p + 1];
  }

  lemma SkipOne(data: Bytes, pos: nat)
    ensures SkipMany(data, pos, 1) == Skip(data, pos)
  {
    var q := Skip(data, pos);
    if q.Some? {
      assert SkipMany(data, q.value, 0) == q;
    }
  }

  method SkipCborItem(data: Bytes, pos: nat) returns (r: Option<nat>)
    ensures r == Skip(data, pos)
    decreases |data| - pos, 0
  {
    var h := ReadCborHead(data, pos);
    if h.None? {
      return None;
    }
    var p, mt, ai, value := h.value.payloadStart, h.value.head.mt, h.value.head.ai, h.value.head.value;
    if mt == 0 || mt == 1 {
      return Some(p);
    }
    if mt == 2 || mt == 3 {
      return if p + value > |data| then None else Some(p + value);
    }
    if mt == 4 {
      r := SkipCborItems(data, p, value);
      return;
    }
    if mt == 5 {
      r := SkipCborItems(data, p, value * 2);
      return;
    }
    if mt == 6 {
      SkipOne(data, p);
      r := SkipCborItem(data, p);
      return;
    }
    if ai == 24 {
      return if p + 1 > |data| then None else Some(p + 1);
    }
    return Some(p);
  }

  method SkipCborItems(data: Bytes, pos: nat, n: nat) returns (r: Option<nat>)
    requires pos <= |data|
    ensures r == SkipMany(data, pos, n)
    decreases |data| - pos, 1
  {
    var p := pos;
    for i := 0 to n
      invariant pos <= p <= |data|
      invariant SkipMany(data, pos, n) == SkipMany(data, p, n - i)
    {
      var q := SkipCborItem(data, p);
      if q.None? {
        return None;
      }
      p := q.value;
    }
    return Some(p);
  }

  // ----- exactly one item ----------------------------------------------------------

  lemma SkipByParts(data: Bytes, pos: nat, h: Head, start: nat, q: nat)
    requires ReadHead(data, pos) == Some(HeadAt(h, start)) && start + ContentLength(h, 1) <= |data|
    requires SkipMany(data, start + ContentLength(h, 1), ChildCount(h)) == Some(q)
    ensures Skip(data, pos) == Some(q)
  {
  }

  lemma SkipManyByParts(data: Bytes, pos: nat, next: nat, n: nat, q: nat)
    requires Skip(data, pos) == Some(next) && SkipMany(data, next, n) == Some(q)
    ensures SkipMany(data, pos, n + 1) == Some(q)
  {
  }

  lemma NothingSkipped(data: Bytes, pos: nat)
    ensures SkipMany(data, pos, 0) == Some(pos) && EncodeAll([], 1) == []
  {
  }

  lemma EncodeAllParts(items: seq<Item>, first: Item, rest: seq<Item>, simpleExtra: nat)
    requires items != [] && first == items[0] && rest == items[1..] && AllWellFormed(items, simpleExtra)
    ensures WellFormed(first, simpleExtra) && AllWellFormed(rest, simpleExtra)
    ensures EncodeAll(items, simpleExtra) == Encode(first, simpleExtra) + EncodeAll(rest, simpleExtra)
  {
  }

  /** Wherever an item stands, skipping passes over exactly it. */
  lemma {:induction false} EncodedIsSkipped(data: Bytes, pos: nat, item: Item)
    requires WellFormed(item, 1) && At(data, pos, Encode(item, 1))
    ensures Skip(data, pos) == Some(pos + |Encode(item, 1)|)
    decreases item, 1
  {
    hide Skip, SkipMany, EncodeAll, HeadBytes;
    var head, content, rest := HeadBytes(item.head), item.content, EncodeAll(item.children, 1);
    AtSplit(data, pos, head + content, rest);
    AtSplit(data, pos, head, content);
    ReadHeadComplete(data, pos, item.head);
    EncodedAllSkipped(data, pos + |head + content|, item.children);
    SkipByParts(data, pos, item.head, pos + |head|, pos + |Encode(item, 1)|);
  }

  lemma {:induction false} EncodedAllSkipped(data: Bytes, pos: nat, items: seq<Item>)
    requires AllWellFormed(items, 1) && At(data, pos, EncodeAll(items, 1))
    ensures SkipMany(data, pos, |items|) == Some(pos + |EncodeAll(items, 1)|)
    decreases items, 0
  {
    hide Skip, SkipMany, Encode, EncodeAll, WellFormed, AllWellFormed, At;
    if items == [] {
      NothingSkipped(data, pos);
    } else {
      var first, rest := items[0], items[1..];
      EncodeAllParts(items, first, rest, 1);
      var head, tail := Encode(first, 1), EncodeAll(rest, 1);
      AtSplit(data, pos, head, tail);
      EncodedIsSkipped(data, pos, first);
      EncodedAllSkipped(data, pos + |head|, rest);
      SkipManyByParts(data, pos, pos + |head|, |rest|, pos + |EncodeAll(items, 1)|);
    }
  }

  lemma TwoSlices(data: Bytes, a: nat, b: nat, c: nat)
    requires a <= b <= c <= |data|
    ensures data[a..c] == data[a..b] + data[b..c]
  {
  }

  /** What is skipped is one item. */
  lemma {:induction false} SkippedIsItem(data: Bytes, pos: nat) returns (item: Item)
    requires Skip(data, pos).Some?
    ensures WellFormed(item, 1) && data[pos..Skip(data, pos).value] == Encode(item, 1)
    decreases |data| - pos, 0, 0
  {
    var h := ReadHead(data, pos).value;
    ReadHeadSound(data, pos);
    var p := h.payloadStart + ContentLength(h.head, 1);
    var children := SkippedAreItems(data, p, ChildCount(h.head));
    item := Item(h.head, data[h.payloadStart..p], children);
    ThreeSlices(data, pos, h.payloadStart, p, Skip(data, pos).value);
  }

  lemma {:induction false} SkippedAreItems(data: Bytes, pos: nat, n: nat) returns (items: seq<Item>)
    requires pos <= |data| && SkipMany(data, pos, n).Some?
    ensures |items| == n && AllWellFormed(items, 1)
    ensures data[pos..SkipMany(data, pos, n).value] == EncodeAll(items, 1)
    decreases |data| - pos, 1, n
  {
    if n == 0 {
      items := [];
    } else {
      var q := Skip(data, pos).value;
      var first := SkippedIsItem(data, pos);
      var rest := SkippedAreItems(data, q, n - 1);
      items := [first] + rest;
      EncodeAllFirst(first, rest, 1);
      TwoSlices(data, pos, q, SkipMany(data, pos, n).value);
    }
  }

  predicate Spans(data: Bytes, pos: nat, q: nat, item: Item) {
    WellFormed(item, 1) && At(data, pos, Encode(item, 1)) && q == pos + |Encode(item, 1)|
  }

  /** Skipping succeeds at `q` exactly when one item of the walker's grammar spans `pos..q`. */
  lemma SkipsExactlyOneItem(data: Bytes, pos: nat, q: nat)
    ensures Skip(data, pos) == Some(q) <==> exists item :: Spans(data, pos, q, item)
  {
    hide Skip, Encode, WellFormed;
    if Skip(data, pos) == Some(q) {
      var item := SkippedIsItem(data, pos);
      assert Spans(data, pos, q, item);
    }
    if exists item :: Spans(data, pos, q, item) {
      var item :| Spans(data, pos, q, item);
      EncodedIsSkipped(data, pos, item);
    }
  }

  /** `v` is one item of the walker's grammar and nothing more. */
  predicate IsItem(v: Bytes) {
    Skip(v, 0) == Some(|v|)
  }

  lemma EncodedIsItem(item: Item, v: Bytes)
    requires WellFormed(item, 1) && v == Encode(item, 1)
    ensures IsItem(v)
  {
    hide Skip, Encode, WellFormed;
    WholeAt(v);
    EncodedIsSkipped(v, 0, item);
  }

  lemma WholeAt(v: Bytes)
    ensures At(v, 0, v)
  {
    assert v[0..|v|] == v;
  }

  /** An item is passed over exactly, whatever surrounds it. */
  lemma ItemSkipped(data: Bytes, a: nat, b: nat, v: Bytes)
    requires IsItem(v) && At(data, a, v) && b == a + |v|
    ensures Skip(data, a) == Some(b)
  {
    hide Skip, Encode, WellFormed, At;
    var item := SkippedIsItem(v, 0);
    assert v[0..|v|] == v;
    EncodedIsSkipped(data, a, item);
  }

  lemma SkippedSliceIsItem(data: Bytes, a: nat, b: nat)
    requires Skip(data, a) == Some(b)
    ensures IsItem(data[a..b])
  {
    hide Encode, WellFormed, IsItem;
    var item := SkippedIsItem(data, a);
    EncodedIsItem(item, data[a..b]);
  }

  /** An RFC 8949 item without two-byte simple values is passed over exactly. */
  lemma StandardItemSkipped(data: Bytes, pos: nat, item: Item)
    requires WellFormed(item, 0) && NoLongSimple(item) && At(data, pos, Encode(item, 0))
    ensures Skip(data, pos) == Some(pos + |Encode(item, 0)|)
  {
    NoLongSimpleAgrees(item, 0, 1);
    EncodedIsSkipped(data, pos, item);
  }

  /** A two-byte simple value is passed over only together with the byte after it. */
  lemma LongSimpleOverrun(data: Bytes, pos: nat, value: byte)
    requires At(data, pos, [0xF8, value])
    ensures Skip(data, pos) == if pos + 3 <= |data| then Some(pos + 3) else None
    ensures var item := Item(Head(7, 24, value), [], []);
            WellFormed(item, 0) && Encode(item, 0) == [0xF8, value]
  {
    var h := Head(7, 24, value);
    Powers256();
    BigEndianByte(value);
    assert HeadBytes(h) == [0xF8, value];
    ReadHeadComplete(data, pos, h);
  }

  /** The bytes of the standard item `item` are also those of the item `w` of the walker's grammar. */
  predicate ReadsAs(item: Item, w: Item)
    requires WellFormed(item, 0)
  {
    WellFormed(w, 1) && Encode(w, 1) == Encode(item, 0)
  }

  /**
    A standard item is passed over exactly if and only if its bytes are also one item when every two-byte
    simple value takes one byte more.
    */
  lemma StandardItemSkippedIff(data: Bytes, pos: nat, item: Item)
    requires WellFormed(item, 0) && At(data, pos, Encode(item, 0))
    ensures Skip(data, pos) == Some(pos + |Encode(item, 0)|) <==> exists w :: ReadsAs(item, w)
  {
    hide Skip, Encode, WellFormed;
    if Skip(data, pos) == Some(pos + |Encode(item, 0)|) {
      var w := SkippedIsItem(data, pos);
      assert ReadsAs(item, w);
    }
    if w :| ReadsAs(item, w) {
      EncodedIsSkipped(data, pos, w);
    }
  }

  /** An array of two items, without a head longer than one byte. */
  function PairOf(a: Item, b: Item): Item { Item(Head(4, 2, 2), [], [a, b]) }

  lemma PairEncodes(a: Item, b: Item, simpleExtra: nat)
    requires WellFormed(a, simpleExtra) && WellFormed(b, simpleExtra)
    ensures WellFormed(PairOf(a, b), simpleExtra)
    ensures Encode(PairOf(a, b), simpleExtra) == [0x82] + (Encode(a, simpleExtra) + Encode(b, simpleExtra))
  {
    assert BigEndian(2, 0) == [] && HeadBytes(Head(4, 2, 2)) == [0x82];
    assert [a, b][1..] == [b] && [b][1..] == [];
    assert EncodeAll([b], simpleExtra) == Encode(b, simpleExtra);
  }

  lemma LeafEncodes(h: Head, content: Bytes, simpleExtra: nat)
    requires ValidHead(h) && |content| == ContentLength(h, simpleExtra) && ChildCount(h) == 0
    ensures WellFormed(Item(h, content, []), simpleExtra)
    ensures Encode(Item(h, content, []), simpleExtra) == HeadBytes(h) + content
  {
    assert EncodeAll([], simpleExtra) == [];
  }

  lemma SmallHeads()
    ensures ValidHead(Head(7, 24, 32)) && HeadBytes(Head(7, 24, 32)) == [0xF8, 0x20]
    ensures HeadBytes(Head(2, 1, 1)) == [0x41] && HeadBytes(Head(0, 0, 0)) == [0x00]
  {
    Powers256();
    BigEndianByte(32);
  }

  /** The array of simple(32) and h'00' is such an item: it holds a two-byte simple value and is passed over exactly. */
  lemma LongSimpleInStep(data: Bytes, pos: nat)
    requires At(data, pos, [0x82, 0xF8, 0x20, 0x41, 0x00])
    ensures Skip(data, pos) == Some(pos + 5)
    ensures var item := PairOf(Item(Head(7, 24, 32), [], []), Item(Head(2, 1, 1), [0], []));
            WellFormed(item, 0) && !NoLongSimple(item) && Encode(item, 0) == [0x82, 0xF8, 0x20, 0x41, 0x00]
  {
    var simple, bytes, zero := Head(7, 24, 32), Head(2, 1, 1), Head(0, 0, 0);
    SmallHeads();
    hide HeadBytes, Skip, Encode, WellFormed;
    LeafEncodes(simple, [], 0);
    LeafEncodes(bytes, [0], 0);
    LeafEncodes(simple, [0x41], 1);
    LeafEncodes(zero, [], 1);
    var item := PairOf(Item(simple, [], []), Item(bytes, [0], []));
    PairEncodes(Item(simple, [], []), Item(bytes, [0], []), 0);
    PairEncodes(Item(simple, [0x41], []), Item(zero, [], []), 1);
    assert item.children[0] == Item(simple, [], []);
    EncodedIsSkipped(data, pos, PairOf(Item(simple, [0x41], []), Item(zero, [], [])));
  }

  lemma BigEndianByte(value: byte)
    ensures BigEndian(value, 1) == [value]
  {
    assert BigEndian(value / 256, 0) == [];
  }
}
