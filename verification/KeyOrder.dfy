/** Map entries in the order of their encoded keys, as deterministic encoding (section 4.2.1 of RFC 8949) writes them. */
module KeyOrder {
  import opened Wrappers
  import opened ByteStrings
  import opened Cbor
  import opened CanonicalScan

  datatype Entry = Entry(key: Item, value: Item)

  /** The encoded key that entries are ordered by. */
  function KeyBytes(e: Entry): Bytes {
    if WellFormed(e.key, 0) then Encode(e.key, 0) else []
  }

  /** Puts `e` before the first entry whose key does not precede its own. */
  function Place(e: Entry, rest: seq<Entry>): (r: seq<Entry>)
    ensures |r| == |rest| + 1
  {
    if rest == [] || !LexLess(KeyBytes(rest[0]), KeyBytes(e)) then [e] + rest
    else [rest[0]] + Place(e, rest[1..])
  }

  function SortByKey(entries: seq<Entry>): (r: seq<Entry>)
    ensures |r| == |entries|
  {
    if entries == [] then [] else Place(entries[0], SortByKey(entries[1..]))
  }

  lemma FirstApart(first: Entry, rest: seq<Entry>, entries: seq<Entry>)
    requires entries == [first] + rest || (entries != [] && first == entries[0] && rest == entries[1..])
    ensures multiset(entries) == multiset{first} + multiset(rest)
  {
    assert entries == [first] + rest;
  }

  lemma {:induction false} PlaceKeeps(e: Entry, rest: seq<Entry>)
    ensures multiset(Place(e, rest)) == multiset{e} + multiset(rest)
    decreases |rest|
  {
    hide KeyBytes;
    if rest != [] && LexLess(KeyBytes(rest[0]), KeyBytes(e)) {
      var placed := Place(e, rest[1..]);
      PlaceKeeps(e, rest[1..]);
      FirstApart(rest[0], rest[1..], rest);
      FirstApart(rest[0], placed, [rest[0]] + placed);
    }
  }

  /** Sorting loses and adds no entry. */
  lemma {:induction false} SortKeeps(entries: seq<Entry>)
    ensures multiset(SortByKey(entries)) == multiset(entries)
    decreases |entries|
  {
    hide Place;
    if entries != [] {
      var first, rest := entries[0], entries[1..];
      SortKeeps(rest);
      PlaceKeeps(first, SortByKey(rest));
      FirstApart(first, rest, entries);
    }
  }

  lemma {:induction false} LexTotal(a: Bytes, b: Bytes)
    requires a != b
    ensures LexLess(a, b) || LexLess(b, a)
    decreases |a|
  {
    if a != [] && b != [] && a[0] == b[0] {
      assert a == [a[0]] + a[1..] && b == [b[0]] + b[1..];
      LexTotal(a[1..], b[1..]);
    }
  }

  /** Each key strictly precedes the next. */
  predicate Ascending(entries: seq<Entry>) {
    |entries| < 2 || (LexLess(KeyBytes(entries[0]), KeyBytes(entries[1])) && Ascending(entries[1..]))
  }

  predicate NewKey(e: Entry, entries: seq<Entry>) {
    forall i :: 0 <= i < |entries| ==> KeyBytes(entries[i]) != KeyBytes(e)
  }

  /** No two entries have one encoded key. */
  predicate DistinctKeys(entries: seq<Entry>) {
    entries == [] || (NewKey(entries[0], entries[1..]) && DistinctKeys(entries[1..]))
  }

  lemma {:induction false} PlaceAscends(e: Entry, rest: seq<Entry>)
    requires Ascending(rest) && NewKey(e, rest)
    ensures Ascending(Place(e, rest))
    decreases |rest|
  {
    hide KeyBytes, LexLess;
    if rest != [] {
      LexTotal(KeyBytes(rest[0]), KeyBytes(e));
      if LexLess(KeyBytes(rest[0]), KeyBytes(e)) {
        PlaceAscends(e, rest[1..]);
        assert Place(e, rest)[1..] == Place(e, rest[1..]);
      } else {
        assert ([e] + rest)[1..] == rest;
      }
    }
  }

  lemma NewAfterSort(e: Entry, entries: seq<Entry>)
    requires NewKey(e, entries)
    ensures NewKey(e, SortByKey(entries))
  {
    hide KeyBytes;
    var sorted := SortByKey(entries);
    SortKeeps(entries);
    forall i | 0 <= i < |sorted| ensures KeyBytes(sorted[i]) != KeyBytes(e) {
      assert sorted[i] in multiset(entries);
    }
  }

  lemma {:induction false} SortAscends(entries: seq<Entry>)
    requires DistinctKeys(entries)
    ensures Ascending(SortByKey(entries))
    ensures forall i :: 0 <= i < |entries| - 1 ==> Precedes(KeyBytes(SortByKey(entries)[i]), KeyBytes(SortByKey(entries)[i + 1]))
    decreases |entries|
  {
    hide NewKey;
    if entries != [] {
      SortAscends(entries[1..]);
      NewAfterSort(entries[0], entries[1..]);
      PlaceAscends(entries[0], SortByKey(entries[1..]));
      AscendingPrecede(SortByKey(entries));
    }
  }

  /** Each key comes before the next, by their first difference. */
  lemma {:induction false} AscendingPrecede(entries: seq<Entry>)
    requires Ascending(entries)
    ensures forall i :: 0 <= i < |entries| - 1 ==> Precedes(KeyBytes(entries[i]), KeyBytes(entries[i + 1]))
    decreases |entries|
  {
    hide KeyBytes, Precedes, LexLess;
    if |entries| >= 2 {
      var rest := entries[1..];
      AscendingPrecede(rest);
      LexLessIff(KeyBytes(entries[0]), KeyBytes(entries[1]));
      forall i | 0 <= i < |entries| - 1 ensures Precedes(KeyBytes(entries[i]), KeyBytes(entries[i + 1])) {
        if i > 0 {
          assert rest[i - 1] == entries[i] && rest[i] == entries[i + 1];
        }
      }
    }
  }

  // ----- the map's children --------------------------------------------------------

  /** Keys and values in turn. */
  function Flatten(entries: seq<Entry>): (r: seq<Item>)
    ensures |r| == 2 * |entries|
  {
    if entries == [] then [] else [entries[0].key, entries[0].value] + Flatten(entries[1..])
  }

  predicate AllOk(entries: seq<Entry>) {
    forall i :: 0 <= i < |entries| ==> WellFormed(entries[i].key, 0) && WellFormed(entries[i].value, 0)
  }

  lemma {:induction false} FlattenWellFormed(entries: seq<Entry>)
    requires AllOk(entries)
    ensures AllWellFormed(Flatten(entries), 0)
    decreases |entries|
  {
    hide WellFormed;
    if entries != [] {
      assert AllOk(entries[1..]);
      FlattenWellFormed(entries[1..]);
    }
  }

  /** Ascending entries are accepted by the canonical pre-scan. */
  lemma {:induction false} FlattenAscends(entries: seq<Entry>, prev: Option<Bytes>)
    requires AllOk(entries) && Ascending(entries) && AllWellFormed(Flatten(entries), 0)
    requires prev.Some? && entries != [] ==> LexLess(prev.value, KeyBytes(entries[0]))
    ensures KeysAscend(Flatten(entries), prev)
    decreases |entries|
  {
    hide LexLess, Encode;
    if entries != [] {
      assert AllOk(entries[1..]);
      FlattenWellFormed(entries[1..]);
      assert Flatten(entries)[2..] == Flatten(entries[1..]);
      FlattenAscends(entries[1..], Some(KeyBytes(entries[0])));
    }
  }

  // ----- deterministic items -------------------------------------------------------

  predicate ShortestHeads(item: Item) {
    && item.head == ShortestHead(item.head.mt, item.head.value)
    && forall i :: 0 <= i < |item.children| ==> ShortestHeads(item.children[i])
  }

  /** One item with the shortest heads and strictly ascending keys in every map. */
  predicate Deterministic(item: Item) {
    WellFormed(item, 0) && ShortestHeads(item) && Canonical(item)
  }

  predicate AllDeterministic(items: seq<Item>) {
    forall i :: 0 <= i < |items| ==> Deterministic(items[i])
  }

  lemma LeafDeterministic(mt: nat, value: nat, content: Bytes)
    requires mt < 4 && value < LIMIT && (if mt >= 2 then value == |content| else content == [])
    ensures Deterministic(Item(ShortestHead(mt, value), content, []))
  {
    ShortestIsValid(mt, value);
  }

  lemma ArrayDeterministic(items: seq<Item>)
    requires |items| < LIMIT && AllDeterministic(items)
    ensures Deterministic(Item(ShortestHead(4, |items|), [], items))
  {
    ShortestIsValid(4, |items|);
    assert forall i :: 0 <= i < |items| ==> Deterministic(items[i]);
  }

  /** The map of these entries, sorted by key. */
  function Map(entries: seq<Entry>): Item { Item(ShortestHead(5, |entries|), [], Flatten(SortByKey(entries))) }

  predicate EntryDeterministic(e: Entry) { Deterministic(e.key) && Deterministic(e.value) }

  predicate EntriesDeterministic(entries: seq<Entry>) {
    forall i :: 0 <= i < |entries| ==> EntryDeterministic(entries[i])
  }

  lemma {:induction false} FlattenDeterministic(entries: seq<Entry>)
    requires EntriesDeterministic(entries)
    ensures AllDeterministic(Flatten(entries)) && AllOk(entries)
    decreases |entries|
  {
    hide Deterministic;
    if entries != [] {
      var rest := entries[1..];
      assert EntryDeterministic(entries[0]);
      assert EntriesDeterministic(rest);
      FlattenDeterministic(rest);
      assert forall i :: 0 < i < |entries| ==> entries[i] == rest[i - 1];
      DeterministicIsWellFormed(entries[0]);
    }
  }

  lemma DeterministicIsWellFormed(e: Entry)
    requires EntryDeterministic(e)
    ensures WellFormed(e.key, 0) && WellFormed(e.value, 0)
  {
  }

  /** With distinct keys, the sorted map is deterministic, in whatever order its entries were given. */
  lemma MapDeterministic(entries: seq<Entry>)
    requires |entries| < LIMIT && EntriesDeterministic(entries) && DistinctKeys(entries)
    ensures Deterministic(Map(entries))
  {
    var sorted := SortByKey(entries);
    SortKeeps(entries);
    forall i | 0 <= i < |sorted| ensures EntryDeterministic(sorted[i]) {
      assert sorted[i] in multiset(entries);
    }
    SortAscends(entries);
    FlattenDeterministic(sorted);
    FlattenWellFormed(sorted);
    FlattenAscends(sorted, None);
    ShortestIsValid(5, |entries|);
    MapOfAscending(ShortestHead(5, |entries|), Flatten(sorted));
  }

  lemma MapOfAscending(head: Head, children: seq<Item>)
    requires ValidHead(head) && head.mt == 5 && head == ShortestHead(5, head.value) && |children| == 2 * head.value
    requires AllDeterministic(children) && AllWellFormed(children, 0) && KeysAscend(children, None)
    ensures Deterministic(Item(head, [], children))
  {
    hide KeysAscend, ShortestHead;
    forall i | 0 <= i < |children| ensures WellFormed(children[i], 0) && ShortestHeads(children[i]) && Canonical(children[i]) {
      assert Deterministic(children[i]);
    }
  }

  /** The canonical pre-scan passes a deterministic item exactly. */
  lemma DeterministicScans(item: Item)
    requires Deterministic(item)
    ensures Walk(Encode(item, 0), 0) == Done(|Encode(item, 0)|)
    ensures InOrder(item)
  {
    CanonicalIffInOrder(item);
    hide Walk, Encode, Canonical, WellFormed;
    var data := Encode(item, 0);
    assert data[0..|data|] == data;
    assert Stands(data, 0, item, |data|);
    ScansItem(data, 0, item, |data|);
  }
}
