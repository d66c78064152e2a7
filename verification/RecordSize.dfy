/** Sizes of deterministically encoded CBOR values, and the record values that publishing encodes. */
module RecordSize {
  import opened ByteStrings
  import opened Cbor
  import opened KeyOrder

  // ----- sizes of items ------------------------------------------------------------

  /** The width of the shortest head for the argument `n`. */
  function HeaderLen(n: nat): nat {
    if n <= 23 then 1 else if n <= 0xFF then 2 else if n <= 0xFFFF then 3 else if n <= 0xFFFF_FFFF then 5 else 9
  }

  /** The encoded size of an item, head by head. */
  function Size(item: Item): nat {
    1 + ArgWidth(item.head.ai) + |item.content| + Sizes(item.children)
  }

  function Sizes(items: seq<Item>): nat {
    if items == [] then 0 else Size(items[0]) + Sizes(items[1..])
  }

  lemma {:induction false} SizeIsLength(item: Item)
    requires WellFormed(item, 0)
    ensures |Encode(item, 0)| == Size(item)
    decreases item, 1
  {
    SizesAreLengths(item.children);
  }

  lemma {:induction false} SizesAreLengths(items: seq<Item>)
    requires AllWellFormed(items, 0)
    ensures |EncodeAll(items, 0)| == Sizes(items)
    decreases items, 0
  {
    if items != [] {
      SizeIsLength(items[0]);
      SizesAreLengths(items[1..]);
    }
  }

  lemma {:induction false} SizesAppend(a: seq<Item>, b: seq<Item>)
    ensures Sizes(a + b) == Sizes(a) + Sizes(b)
    decreases |a|
  {
    if a == [] {
      assert a + b == b;
    } else {
      SizesAppend(a[1..], b);
      assert (a + b)[1..] == a[1..] + b;
    }
  }

  // ----- values --------------------------------------------------------------------

  function UInt(n: nat): Item { Item(ShortestHead(0, n), [], []) }

  function ByteString(b: Bytes): Item { Item(ShortestHead(2, |b|), b, []) }

  /** A text string, by its UTF-8 bytes. */
  function Text(b: Bytes): Item { Item(ShortestHead(3, |b|), b, []) }

  function Array(items: seq<Item>): Item { Item(ShortestHead(4, |items|), [], items) }

  function Field(name: string, value: Item): Entry { Entry(Text(Ascii(name)), value) }

  function EntrySizes(entries: seq<Entry>): nat {
    if entries == [] then 0
    else EntrySizes(entries[..|entries| - 1]) + Size(entries[|entries| - 1].key) + Size(entries[|entries| - 1].value)
  }

  lemma Times(n: nat, k: nat)
    requires n > 0
    ensures n * k == k + (n - 1) * k
  {
  }

  lemma HeadWidth(mt: nat, n: nat)
    ensures 1 + ArgWidth(ShortestHead(mt, n).ai) == HeaderLen(n)
  {
  }

  lemma UIntSize(n: nat)
    ensures Size(UInt(n)) == HeaderLen(n)
  {
    HeadWidth(0, n);
    assert Sizes([]) == 0;
  }

  lemma StringSize(b: Bytes)
    ensures Size(ByteString(b)) == HeaderLen(|b|) + |b| && Size(Text(b)) == HeaderLen(|b|) + |b|
  {
    HeadWidth(2, |b|);
    HeadWidth(3, |b|);
    assert Sizes([]) == 0;
  }

  lemma ArraySize(items: seq<Item>)
    ensures Size(Array(items)) == HeaderLen(|items|) + Sizes(items)
  {
    HeadWidth(4, |items|);
  }

  lemma SizesPair(a: Item, b: Item)
    ensures Sizes([a, b]) == Size(a) + Size(b)
  {
    assert [a, b][1..] == [b] && [b][1..] == [];
    assert Sizes([b]) == Size(b) + Sizes([]);
  }

  lemma EntrySizesSnoc(init: seq<Entry>, last: Entry)
    ensures EntrySizes(init + [last]) == EntrySizes(init) + Size(last.key) + Size(last.value)
  {
    assert (init + [last])[..|init|] == init;
  }

  function EntrySize(e: Entry): nat { Size(e.key) + Size(e.value) }

  lemma {:induction false} EntrySizesAppend(a: seq<Entry>, b: seq<Entry>)
    ensures EntrySizes(a + b) == EntrySizes(a) + EntrySizes(b)
    decreases |b|
  {
    if b == [] {
      assert a + b == a;
    } else {
      var init, last := b[..|b| - 1], b[|b| - 1];
      EntrySizesAppend(a, init);
      EntrySizesSnoc(a + init, last);
      assert a + b == a + init + [last];
    }
  }

  lemma OneEntry(e: Entry)
    ensures EntrySizes([e]) == EntrySize(e)
  {
    EntrySizesSnoc([], e);
    assert [] + [e] == [e];
  }

  lemma SameWithout(init: seq<Entry>, front: seq<Entry>, back: seq<Entry>, e: Entry)
    requires multiset(init + [e]) == multiset(front + [e] + back)
    ensures multiset(init) == multiset(front + back)
  {
    var a, b, one := multiset(init), multiset(front) + multiset(back), multiset{e};
    assert multiset(init + [e]) == a + one && multiset(front + [e] + back) == b + one;
    assert a == (a + one) - one && b == (b + one) - one;
    assert multiset(front + back) == b;
  }

  /** The size of a map does not depend on the order of its entries. */
  lemma {:induction false} EntryOrderIrrelevant(a: seq<Entry>, b: seq<Entry>)
    requires multiset(a) == multiset(b)
    ensures EntrySizes(a) == EntrySizes(b)
    decreases |a|
  {
    if a == [] {
      assert |multiset(b)| == |b|;
    } else {
      var init, last := a[..|a| - 1], a[|a| - 1];
      assert a == init + [last];
      assert last in multiset(b);
      var i :| 0 <= i < |b| && b[i] == last;
      var front, back := b[..i], b[i + 1..];
      assert b == front + [last] + back;
      SameWithout(init, front, back, last);
      EntryOrderIrrelevant(init, front + back);
      EntrySizesRemove(front, last, back);
    }
  }

  lemma {:induction false} EntrySizesRemove(front: seq<Entry>, e: Entry, back: seq<Entry>)
    ensures EntrySizes(front + [e] + back) == EntrySizes(front + back) + Size(e.key) + Size(e.value)
    decreases |back|
  {
    if back == [] {
      assert front + [e] + back == front + [e] && front + back == front;
      EntrySizesSnoc(front, e);
    } else {
      var init, last := back[..|back| - 1], back[|back| - 1];
      EntrySizesRemove(front, e, init);
      assert front + [e] + back == front + [e] + init + [last];
      assert front + back == front + init + [last];
      EntrySizesSnoc(front + [e] + init, last);
      EntrySizesSnoc(front + init, last);
    }
  }

  lemma {:induction false} FlattenSizes(entries: seq<Entry>)
    ensures Sizes(Flatten(entries)) == EntrySizes(entries)
    decreases |entries|
  {
    if entries != [] {
      hide Size, Sizes, EntrySizes;
      var first, rest := entries[0], entries[1..];
      FlattenSizes(rest);
      SizesAppend([first.key, first.value], Flatten(rest));
      SizesPair(first.key, first.value);
      OneEntry(first);
      EntrySizesAppend([first], rest);
      assert entries == [first] + rest;
    }
  }

  /** A map takes its head and its entries, in whatever order they were given. */
  lemma MapSize(entries: seq<Entry>)
    ensures Size(Map(entries)) == HeaderLen(|entries|) + EntrySizes(entries)
  {
    hide Sizes, EntrySizes, Flatten, SortByKey;
    var sorted := SortByKey(entries);
    HeadWidth(5, |entries|);
    FlattenSizes(sorted);
    SortKeeps(entries);
    EntryOrderIrrelevant(sorted, entries);
  }
}
