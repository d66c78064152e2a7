/** The structural pre-scan of the canonical decoder: plain primitives only, map keys strictly ascending. */
module CanonicalScan {
  import opened Wrappers
  import opened ByteStrings
  import opened Cbor

  /** The scan's position, its silent abort (left to the decoder), or the malformed-CBOR error. */
  datatype Scan = Done(pos: nat) | Abort | Reject

  /** Bytewise lexicographic order; a proper prefix comes first. */
  predicate LexLess(a: Bytes, b: Bytes) {
    if b == [] then false
    else if a == [] then true
    else if a[0] != b[0] then a[0] < b[0]
    else LexLess(a[1..], b[1..])
  }

  /** false, true and null. */
  predicate PlainPrimitive(ai: nat) { 20 <= ai <= 22 }

  function Walk(data: Bytes, pos: nat): (r: Scan)
    ensures r.Done? ==> pos < r.pos <= |data|
    decreases |data| - pos, 0, 0
  {
    if pos >= |data| || data[pos] % 32 == 31 then Abort
    else if data[pos] / 32 == 7 then
      if PlainPrimitive(data[pos] % 32) then Done(pos + 1) else Reject
    else
      var h := ReadHead(data, pos);
      if h.None? then Abort
      else
        var p, mt, value := h.value.payloadStart, h.value.head.mt, h.value.head.value;
        if mt == 2 || mt == 3 then
          if p + value > |data| then Abort else Done(p + value)
        else if mt == 4 then WalkMany(data, p, value)
        else if mt == 5 then WalkPairs(data, p, value, None)
        else if mt == 6 then Walk(data, p)
        else Done(p)
  }

  function WalkMany(data: Bytes, pos: nat, n: nat): (r: Scan)
    ensures r.Done? ==> pos <= r.pos && (pos <= |data| ==> r.pos <= |data|)
    decreases |data| - pos, 1, n
  {
    if n == 0 then Done(pos)
    else
      var q := Walk(data, pos);
      if !q.Done? then q else WalkMany(data, q.pos, n - 1)
  }

  /** `n` entries whose encoded keys ascend from `prev` on. */
  function WalkPairs(data: Bytes, pos: nat, n: nat, prev: Option<Bytes>): (r: Scan)
    ensures r.Done? ==> pos <= r.pos && (pos <= |data| ==> r.pos <= |data|)
    decreases |data| - pos, 1, n
  {
    if n == 0 then Done(pos)
    else
      var k := Walk(data, pos);
      if !k.Done? then k
      else
        var key := data[pos..k.pos];
        if prev.Some? && !LexLess(prev.value, key) then Reject
        else
          var v := Walk(data, k.pos);
          if !v.Done? then v else WalkPairs(data, v.pos, n - 1, Some(key))
  }

  // ----- the scanning loops --------------------------------------------------------

  method WalkItem(data: Bytes, start: nat) returns (r: Scan)
    ensures r == Walk(data, start)
    decreases |data| - start, 0
  {
    if start >= |data| {
      return Abort;
    }
    var major, addl := data[start] / 32, data[start] % 32;
    if addl == 31 {
      return Abort;
    }
    if major == 7 {
      return if PlainPrimitive(addl) then Done(start + 1) else Reject;
    }
    var h := ReadHead(data, start);
    if h.None? {
      return Abort;
    }
    var pos, arg := h.value.payloadStart, h.value.head.value;
    if major == 0 || major == 1 {
      return Done(pos);
    }
    if major == 2 || major == 3 {
      return if pos + arg > |data| then Abort else Done(pos + arg);
    }
    if major == 4 {
      r := WalkElements(data, pos, arg);
      return;
    }
    if major == 5 {
      r := WalkEntries(data, pos, arg);
      return;
    }
    r := WalkItem(data, pos);
  }

  method WalkElements(data: Bytes, start: nat, arg: nat) returns (r: Scan)
    requires start <= |data|
    ensures r == WalkMany(data, start, arg)
    decreases |data| - start, 1
  {
    var pos := start;
    for i := 0 to arg
      invariant start <= pos <= |data| && WalkMany(data, start, arg) == WalkMany(data, pos, arg - i)
    {
      var q := WalkItem(data, pos);
      if !q.Done? {
        return q;
      }
      pos := q.pos;
    }
    return Done(pos);
  }

  /** Remembers the previous key from one entry to the next. */
  method WalkEntries(data: Bytes, start: nat, arg: nat) returns (r: Scan)
    requires start <= |data|
    ensures r == WalkPairs(data, start, arg, None)
    decreases |data| - start, 1
  {
    var pos := start;
    var prevKey: Option<Bytes> := None;
    for i := 0 to arg
      invariant start <= pos <= |data| && WalkPairs(data, start, arg, None) == WalkPairs(data, pos, arg - i, prevKey)
    {
      var k := WalkItem(data, pos);
      if !k.Done? {
        return k;
      }
      var key := data[pos..k.pos];
      if prevKey.Some? && !LexLess(prevKey.value, key) {
        return Reject;
      }
      prevKey := Some(key);
      var v := WalkItem(data, k.pos);
      if !v.Done? {
        return v;
      }
      pos := v.pos;
    }
    return Done(pos);
  }

  // ----- what the scan decides -----------------------------------------------------

  /** The keys, every other child from the first, strictly ascend after `prev`. */
  predicate KeysAscend(children: seq<Item>, prev: Option<Bytes>)
    requires AllWellFormed(children, 0)
  {
    |children| < 2 || (
      var key := Encode(children[0], 0);
      && (prev.Some? ==> LexLess(prev.value, key))
      && KeysAscend(children[2..], Some(key)))
  }

  /** Only plain primitives, and ascending keys in every map. */
  predicate Canonical(item: Item)
    requires WellFormed(item, 0)
  {
    var children := item.children;
    assert AllWellFormed(children, 0);
    && (item.head.mt == 7 ==> PlainPrimitive(item.head.ai))
    && (item.head.mt == 5 ==> KeysAscend(children, None))
    && forall i :: 0 <= i < |children| ==> WellFormed(children[i], 0) && Canonical(children[i])
  }

  predicate AllCanonical(items: seq<Item>)
    requires AllWellFormed(items, 0)
  {
    forall i :: 0 <= i < |items| ==> Canonical(items[i])
  }

  /** A complete item standing anywhere in the data. */
  predicate Stands(data: Bytes, pos: nat, item: Item, end: nat) {
    WellFormed(item, 0) && At(data, pos, Encode(item, 0)) && end == pos + |Encode(item, 0)|
  }

  predicate AllStand(data: Bytes, pos: nat, items: seq<Item>, end: nat)
    decreases |items|
  {
    if items == [] then pos == end
    else WellFormed(items[0], 0) && Stands(data, pos, items[0], pos + |Encode(items[0], 0)|)
         && AllStand(data, pos + |Encode(items[0], 0)|, items[1..], end)
  }

  lemma {:induction false} ChildrenStand(data: Bytes, pos: nat, items: seq<Item>)
    requires AllWellFormed(items, 0) && At(data, pos, EncodeAll(items, 0))
    ensures AllStand(data, pos, items, pos + |EncodeAll(items, 0)|)
    decreases |items|
  {
    if items != [] {
      var first, rest := Encode(items[0], 0), EncodeAll(items[1..], 0);
      AtSplit(data, pos, first, rest);
      ChildrenStand(data, pos + |first|, items[1..]);
    }
  }

  lemma {:induction false} AllStandWellFormed(data: Bytes, pos: nat, items: seq<Item>, end: nat)
    requires AllStand(data, pos, items, end)
    ensures AllWellFormed(items, 0)
    decreases |items|
  {
    if items != [] {
      var next := pos + |Encode(items[0], 0)|;
      AllStandWellFormed(data, next, items[1..], end);
      assert forall i :: 0 < i < |items| ==> items[i] == items[1..][i - 1];
    }
  }

  /** The parts of a standing item. */
  lemma ItemParts(data: Bytes, pos: nat, item: Item, end: nat) returns (start: nat, p: nat)
    requires Stands(data, pos, item, end)
    ensures start == pos + |HeadBytes(item.head)| && p == start + |item.content| <= |data|
    ensures ReadHead(data, pos) == Some(HeadAt(item.head, start))
    ensures pos < |data| && data[pos] / 32 == item.head.mt && data[pos] % 32 == item.head.ai
    ensures AllStand(data, p, item.children, end)
  {
    var head, content, rest := HeadBytes(item.head), item.content, EncodeAll(item.children, 0);
    AtSplit(data, pos, head + content, rest);
    AtSplit(data, pos, head, content);
    start := pos + |head|;
    p := start + |content|;
    HeadReadAt(data, pos, item.head, start);
    ChildrenStand(data, p, item.children);
  }

  function Verdict(ok: bool, end: nat): Scan {
    if ok then Done(end) else Reject
  }

  /** On a complete item the scan ends behind it when it is canonical and rejects it otherwise. */
  lemma {:induction false} ScansItem(data: Bytes, pos: nat, item: Item, end: nat)
    requires Stands(data, pos, item, end)
    ensures Walk(data, pos) == Verdict(Canonical(item), end)
    decreases item, 1
  {
    hide Stands, Encode, HeadBytes;
    var start, p := ItemParts(data, pos, item, end);
    assert WellFormed(item, 0) by {
      StandsWellFormed(data, pos, item, end);
    }
    AllStandWellFormed(data, p, item.children, end);
    if item.head.mt == 4 || item.head.mt == 6 {
      ScansItems(data, p, item.children, end);
      if item.head.mt == 6 {
        WalkOne(data, p);
      }
    } else if item.head.mt == 5 {
      ScansPairs(data, p, item.children, end, None, item.head.value);
    }
  }

  lemma StandsWellFormed(data: Bytes, pos: nat, item: Item, end: nat)
    requires Stands(data, pos, item, end)
    ensures WellFormed(item, 0)
  {
  }

  lemma WalkOne(data: Bytes, pos: nat)
    ensures WalkMany(data, pos, 1) == Walk(data, pos)
  {
    var q := Walk(data, pos);
    if q.Done? {
      assert WalkMany(data, q.pos, 0) == q;
    }
  }

  lemma {:induction false} ScansItems(data: Bytes, pos: nat, items: seq<Item>, end: nat)
    requires AllWellFormed(items, 0) && AllStand(data, pos, items, end)
    ensures WalkMany(data, pos, |items|) == Verdict(AllCanonical(items), end)
    decreases items, 0
  {
    hide Stands, Canonical;
    if items != [] {
      var first, rest := items[0], items[1..];
      var next := pos + |Encode(first, 0)|;
      ScansItem(data, pos, first, next);
      ScansItems(data, next, rest, end);
      AllCanonicalFirst(items);
    }
  }

  lemma AllCanonicalFirst(items: seq<Item>)
    requires AllWellFormed(items, 0) && items != []
    ensures AllWellFormed(items[1..], 0)
    ensures AllCanonical(items) <==> Canonical(items[0]) && AllCanonical(items[1..])
  {
    hide Canonical, WellFormed;
    assert forall i :: 0 < i < |items| ==> items[i] == items[1..][i - 1];
  }

  lemma {:induction false} ScansPairs(data: Bytes, pos: nat, items: seq<Item>, end: nat, prev: Option<Bytes>, n: nat)
    requires AllWellFormed(items, 0) && AllStand(data, pos, items, end) && |items| == 2 * n
    ensures WalkPairs(data, pos, n, prev) == Verdict(AllCanonical(items) && KeysAscend(items, prev), end)
    decreases items, 0
  {
    hide Stands, Canonical;
    if n > 0 {
      var key, value, rest := items[0], items[1], items[2..];
      var mid := pos + |Encode(key, 0)|;
      var next := mid + |Encode(value, 0)|;
      assert items[1..][0] == value && items[1..][1..] == rest;
      ScansItem(data, pos, key, mid);
      ScansItem(data, mid, value, next);
      StandsSlice(data, pos, key, mid);
      ScansPairs(data, next, rest, end, Some(Encode(key, 0)), n - 1);
      AllCanonicalFirst(items);
      AllCanonicalFirst(items[1..]);
    }
  }

  lemma StandsSlice(data: Bytes, pos: nat, item: Item, end: nat)
    requires Stands(data, pos, item, end)
    ensures WellFormed(item, 0) && pos <= end <= |data| && data[pos..end] == Encode(item, 0)
  {
  }

  lemma ItemAssembled(data: Bytes, pos: nat, h: HeadAt, p: nat, children: seq<Item>, end: nat) returns (item: Item)
    requires ReadHead(data, pos) == Some(h) && p == h.payloadStart + ContentLength(h.head, 0) && p <= end <= |data|
    requires AllWellFormed(children, 0) && |children| == ChildCount(h.head) && data[p..end] == EncodeAll(children, 0)
    ensures Stands(data, pos, item, end)
  {
    hide HeadBytes, EncodeAll;
    ReadHeadSound(data, pos);
    item := Item(h.head, data[h.payloadStart..p], children);
    ThreeSlices(data, pos, h.payloadStart, p, end);
  }

  /** A scan that neither aborts nor rejects has passed exactly one canonical item. */
  lemma {:induction false} ScannedIsItem(data: Bytes, pos: nat) returns (item: Item)
    requires Walk(data, pos).Done?
    ensures Stands(data, pos, item, Walk(data, pos).pos)
    decreases |data| - pos, 0, 0
  {
    hide Stands, EncodeAll;
    ReadsPrimitive(data, pos);
    var h := ReadHead(data, pos).value;
    var end := Walk(data, pos).pos;
    var p := h.payloadStart + ContentLength(h.head, 0);
    var children: seq<Item> := [];
    NoChildren();
    if h.head.mt == 4 {
      children := ScannedAreItems(data, p, h.head.value);
    } else if h.head.mt == 5 {
      children := ScannedArePairs(data, p, h.head.value, None);
    } else if h.head.mt == 6 {
      var inner := ScannedIsItem(data, p);
      children := [inner];
      StandsSlice(data, p, inner, end);
      OneChild(inner);
    }
    item := ItemAssembled(data, pos, h, p, children, end);
  }

  lemma NoChildren()
    ensures EncodeAll([], 0) == []
  {
  }

  lemma ReadsPrimitive(data: Bytes, pos: nat)
    requires Walk(data, pos).Done?
    ensures ReadHead(data, pos).Some?
    ensures var h := ReadHead(data, pos).value;
            && (h.head.mt == 7 ==> PlainPrimitive(h.head.ai) && Walk(data, pos) == Done(h.payloadStart))
            && (h.head.mt == 2 || h.head.mt == 3 ==> Walk(data, pos) == Done(h.payloadStart + h.head.value))
            && (h.head.mt == 0 || h.head.mt == 1 ==> Walk(data, pos) == Done(h.payloadStart))
  {
  }

  lemma OneChild(inner: Item)
    requires WellFormed(inner, 0)
    ensures EncodeAll([inner], 0) == Encode(inner, 0)
  {
    assert [inner][1..] == [];
    assert EncodeAll([inner][1..], 0) == [];
  }

  lemma {:induction false} ScannedAreItems(data: Bytes, pos: nat, n: nat) returns (items: seq<Item>)
    requires pos <= |data| && WalkMany(data, pos, n).Done?
    ensures |items| == n && AllWellFormed(items, 0)
    ensures data[pos..WalkMany(data, pos, n).pos] == EncodeAll(items, 0)
    decreases |data| - pos, 1, n
  {
    hide Walk, Encode, EncodeAll, WellFormed, Stands;
    if n == 0 {
      items := [];
      NoChildren();
    } else {
      var q, end := Walk(data, pos).pos, WalkMany(data, pos, n).pos;
      var first := ScannedIsItem(data, pos);
      var rest := ScannedAreItems(data, q, n - 1);
      items := [first] + rest;
      StandsSlice(data, pos, first, q);
      EncodeAllFirst(first, rest, 0);
      ThreeSlices(data, pos, q, q, end);
      assert data[q..q] == [];
    }
  }

  lemma PairAssembled(data: Bytes, pos: nat, key: Item, k: nat, value: Item, v: nat, rest: seq<Item>, end: nat) returns (items: seq<Item>)
    requires Stands(data, pos, key, k) && Stands(data, k, value, v) && v <= end <= |data|
    requires AllWellFormed(rest, 0) && data[v..end] == EncodeAll(rest, 0)
    ensures |items| == 2 + |rest| && AllWellFormed(items, 0) && data[pos..end] == EncodeAll(items, 0)
  {
    hide Stands;
    StandsSlice(data, pos, key, k);
    StandsSlice(data, k, value, v);
    EncodeAllFirst(value, rest, 0);
    EncodeAllFirst(key, [value] + rest, 0);
    items := [key] + ([value] + rest);
    ThreeSlices(data, pos, k, v, end);
  }

  lemma {:induction false} ScannedArePairs(data: Bytes, pos: nat, n: nat, prev: Option<Bytes>) returns (items: seq<Item>)
    requires pos <= |data| && WalkPairs(data, pos, n, prev).Done?
    ensures |items| == 2 * n && AllWellFormed(items, 0)
    ensures data[pos..WalkPairs(data, pos, n, prev).pos] == EncodeAll(items, 0)
    decreases |data| - pos, 1, n
  {
    hide Stands, Encode;
    if n == 0 {
      items := [];
      NoChildren();
    } else {
      var end := WalkPairs(data, pos, n, prev).pos;
      var k := Walk(data, pos).pos;
      var v := Walk(data, k).pos;
      var key := ScannedIsItem(data, pos);
      var value := ScannedIsItem(data, k);
      var rest := ScannedArePairs(data, v, n - 1, Some(data[pos..k]));
      items := PairAssembled(data, pos, key, k, value, v, rest, end);
    }
  }

  // ----- the key order, by first difference ----------------------------------------

  /** Up to `k` the strings agree; there the first ends, or has the smaller byte. */
  predicate DiffersAt(a: Bytes, b: Bytes, k: nat) {
    && k <= |a|
    && k < |b|
    && a[..k] == b[..k]
    && (k < |a| ==> a[k] < b[k])
  }

  ghost predicate Precedes(a: Bytes, b: Bytes) {
    exists k: nat :: DiffersAt(a, b, k)
  }

  lemma DiffersNext(a: Bytes, b: Bytes, k: nat)
    requires a != [] && b != [] && a[0] == b[0]
    ensures DiffersAt(a, b, k + 1) <==> DiffersAt(a[1..], b[1..], k)
  {
    if k + 1 <= |a| && k + 1 < |b| {
      assert a[..k + 1] == [a[0]] + a[1..][..k] && b[..k + 1] == [b[0]] + b[1..][..k];
    }
  }

  /** The recursive comparison finds the first difference. */
  lemma {:induction false} LexLessIff(a: Bytes, b: Bytes)
    ensures LexLess(a, b) <==> Precedes(a, b)
    decreases |b|
  {
    if a == [] || b == [] || a[0] != b[0] {
      DiffersAtStart(a, b);
    } else {
      LexLessIff(a[1..], b[1..]);
      if k: nat :| DiffersAt(a[1..], b[1..], k) {
        DiffersNext(a, b, k);
      }
      if k: nat :| DiffersAt(a, b, k) {
        assert k > 0;
        DiffersNext(a, b, k - 1);
      }
    }
  }

  lemma DiffersAtStart(a: Bytes, b: Bytes)
    requires a == [] || b == [] || a[0] != b[0]
    ensures Precedes(a, b) <==> b != [] && (a == [] || a[0] < b[0])
  {
    if b != [] && (a == [] || a[0] < b[0]) {
      assert DiffersAt(a, b, 0);
    }
    if k: nat :| DiffersAt(a, b, k) {
      if k > 0 {
        AgreeAtStart(a, b, k);
      }
    }
  }

  lemma AgreeAtStart(a: Bytes, b: Bytes, k: nat)
    requires DiffersAt(a, b, k) && k > 0
    ensures a != [] && b != [] && a[0] == b[0]
  {
    assert a[..k][0] == b[..k][0];
  }

  /** Each key comes before the next, by their first difference. */
  ghost predicate KeysPrecede(children: seq<Item>)
    requires AllWellFormed(children, 0)
  {
    forall i: nat, j: nat :: j == 2 * i + 2 < |children| ==> Precedes(Encode(children[2 * i], 0), Encode(children[j], 0))
  }

  /** Only plain primitives, and keys in that order in every map. */
  ghost predicate InOrder(item: Item)
    requires WellFormed(item, 0)
  {
    var children := item.children;
    assert AllWellFormed(children, 0);
    && (item.head.mt == 7 ==> PlainPrimitive(item.head.ai))
    && (item.head.mt == 5 ==> KeysPrecede(children))
    && forall i :: 0 <= i < |children| ==> WellFormed(children[i], 0) && InOrder(children[i])
  }

  lemma FirstKeys(children: seq<Item>, rest: seq<Item>)
    requires AllWellFormed(children, 0) && |children| >= 2 && |children| % 2 == 0 && rest == children[2..]
    ensures AllWellFormed(rest, 0)
    ensures KeysPrecede(children) <==>
            KeysPrecede(rest) && (rest != [] ==> Precedes(Encode(children[0], 0), Encode(rest[0], 0)))
  {
    hide Precedes, Encode, WellFormed;
    if KeysPrecede(children) {
      forall i: nat, j: nat | j == 2 * i + 2 < |rest| ensures Precedes(Encode(rest[2 * i], 0), Encode(rest[j], 0)) {
        assert rest[2 * i] == children[2 * (i + 1)] && rest[j] == children[j + 2];
      }
      assert rest != [] ==> children[2] == rest[0] && children[2 * 0] == children[0];
    }
    if KeysPrecede(rest) && (rest != [] ==> Precedes(Encode(children[0], 0), Encode(rest[0], 0))) {
      forall i: nat, j: nat | j == 2 * i + 2 < |children| ensures Precedes(Encode(children[2 * i], 0), Encode(children[j], 0)) {
        if i > 0 {
          assert children[2 * i] == rest[2 * (i - 1)] && children[j] == rest[j - 2];
        } else {
          assert children[j] == rest[0];
        }
      }
    }
  }

  lemma {:induction false} KeysAscendIff(children: seq<Item>, prev: Option<Bytes>)
    requires AllWellFormed(children, 0) && |children| % 2 == 0
    ensures KeysAscend(children, prev) <==>
            KeysPrecede(children) && (prev.Some? && children != [] ==> Precedes(prev.value, Encode(children[0], 0)))
    decreases |children|
  {
    hide Precedes, Encode, WellFormed, LexLess, KeysPrecede;
    if children == [] {
      NoKeys();
    } else {
      var key, rest := Encode(children[0], 0), children[2..];
      FirstKeys(children, rest);
      KeysAscendIff(rest, Some(key));
      if prev.Some? {
        LexLessIff(prev.value, key);
      }
    }
  }

  lemma NoKeys()
    ensures KeysPrecede([])
  {
  }

  /** The two readings of "canonical" agree. */
  lemma {:induction false} CanonicalIffInOrder(item: Item)
    requires WellFormed(item, 0)
    ensures Canonical(item) <==> InOrder(item)
    decreases item
  {
    hide KeysAscend, KeysPrecede;
    if item.head.mt == 5 {
      KeysAscendIff(item.children, None);
    }
    forall i | 0 <= i < |item.children| ensures Canonical(item.children[i]) <==> InOrder(item.children[i]) {
      CanonicalIffInOrder(item.children[i]);
    }
  }

  ghost predicate ScansAs(data: Bytes, pos: nat, item: Item, end: nat) {
    Stands(data, pos, item, end) && InOrder(item)
  }

  /** The scan ends at `end` exactly when one item with its keys in order spans up to there. */
  lemma ScansExactlyCanonical(data: Bytes, pos: nat, end: nat)
    ensures Walk(data, pos) == Done(end) <==> exists item :: ScansAs(data, pos, item, end)
  {
    if Walk(data, pos) == Done(end) {
      var item := ScannedIsItem(data, pos);
      ScansItem(data, pos, item, end);
      CanonicalIffInOrder(item);
      assert ScansAs(data, pos, item, end);
    }
    if exists item :: ScansAs(data, pos, item, end) {
      var item :| ScansAs(data, pos, item, end);
      CanonicalIffInOrder(item);
      ScansItem(data, pos, item, end);
    }
  }

  // ----- ascending keys are distinct -----------------------------------------------

  lemma {:induction false} LexTransitive(a: Bytes, b: Bytes, c: Bytes)
    requires LexLess(a, b) && LexLess(b, c)
    ensures LexLess(a, c)
    decreases |b|
  {
    if a != [] && a[0] == b[0] && b[0] == c[0] {
      LexTransitive(a[1..], b[1..], c[1..]);
    }
  }

  lemma {:induction false} LexIrreflexive(a: Bytes)
    ensures !LexLess(a, a)
  {
    if a != [] {
      LexIrreflexive(a[1..]);
    }
  }

  lemma {:induction false} KeysAbove(children: seq<Item>, prev: Bytes, i: nat)
    requires AllWellFormed(children, 0) && KeysAscend(children, Some(prev)) && 2 * i + 1 < |children|
    ensures LexLess(prev, Encode(children[2 * i], 0))
    decreases |children|
  {
    if i > 0 {
      var key, rest := Encode(children[0], 0), children[2..];
      KeysAbove(rest, key, i - 1);
      assert rest[2 * (i - 1)] == children[2 * i];
      LexTransitive(prev, key, Encode(children[2 * i], 0));
    }
  }

  /** So no canonical map has two entries with one encoded key. */
  lemma {:induction false} CanonicalKeysDistinct(children: seq<Item>, prev: Option<Bytes>, i: nat, j: nat)
    requires AllWellFormed(children, 0) && KeysAscend(children, prev) && i < j && 2 * j + 1 < |children|
    ensures Encode(children[2 * i], 0) != Encode(children[2 * j], 0)
    decreases |children|
  {
    var key, rest := Encode(children[0], 0), children[2..];
    assert rest[2 * (j - 1)] == children[2 * j];
    if i == 0 {
      KeysAbove(rest, key, j - 1);
      LexIrreflexive(key);
    } else {
      assert rest[2 * (i - 1)] == children[2 * i];
      CanonicalKeysDistinct(rest, Some(key), i - 1, j - 1);
    }
  }
}
