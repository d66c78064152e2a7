/** The auxiliary-data layouts that the unwrapper accepts, and what it returns on each of them. */
module AuxLayouts {
  import opened Wrappers
  import opened ByteStrings
  import opened Cbor
  import opened CborWalker
  import opened AuxData

  // ----- metadata maps -------------------------------------------------------------

  /** A label and its value. */
  datatype Entry = Entry(key: Head, value: Bytes)

  predicate LabelOk(key: Head) {
    ValidHead(key) && key.mt == 0
  }

  /** Labels are unsigned integers. */
  predicate LabelsOk(entries: seq<Entry>) {
    forall i :: 0 <= i < |entries| ==> LabelOk(entries[i].key)
  }

  /** Label by label, the entries stand in `data` from `pos` up to `end`, each value one item. */
  predicate EntriesAt(data: Bytes, pos: nat, entries: seq<Entry>, end: nat)
    requires LabelsOk(entries)
    decreases |entries|
  {
    if entries == [] then pos == end
    else
      var e := entries[0];
      var valueStart := pos + |HeadBytes(e.key)|;
      && At(data, pos, HeadBytes(e.key))
      && At(data, valueStart, e.value)
      && IsItem(e.value)
      && EntriesAt(data, valueStart + |e.value|, entries[1..], end)
  }

  /** The pairs hold the labels of the entries and mark the bytes of their values. */
  predicate Matches(data: Bytes, pairs: seq<Pair>, entries: seq<Entry>)
    requires LabelsOk(entries)
  {
    && |pairs| == |entries|
    && forall i :: 0 <= i < |pairs| ==> PairMatches(data, pairs[i], entries[i])
  }

  predicate PairMatches(data: Bytes, p: Pair, e: Entry)
    requires LabelOk(e.key)
  {
    PairIn(data, p) && p.key == e.key && data[p.valueStart..p.valueEnd] == e.value
  }

  /** An unsigned integer is skipped like its head. */
  lemma KeySkipped(data: Bytes, pos: nat, key: Head, valueStart: nat)
    requires ValidHead(key) && key.mt == 0 && At(data, pos, HeadBytes(key)) && valueStart == pos + |HeadBytes(key)|
    ensures ReadHead(data, pos) == Some(HeadAt(key, valueStart)) && Skip(data, pos) == Some(valueStart)
  {
    ReadHeadComplete(data, pos, key);
  }

  lemma EntryWalked(data: Bytes, pos: nat, e: Entry, n: nat, valueStart: nat, valueEnd: nat)
    requires LabelOk(e.key) && At(data, pos, HeadBytes(e.key)) && valueStart == pos + |HeadBytes(e.key)|
    requires IsItem(e.value) && At(data, valueStart, e.value) && valueEnd == valueStart + |e.value|
    ensures WalkPairs(data, pos, n + 1) == PrependPair(Pair(e.key, valueStart, valueEnd), WalkPairs(data, valueEnd, n))
  {
    KeySkipped(data, pos, e.key, valueStart);
    assert Skip(data, valueStart) == Some(valueEnd) by {
      ItemSkipped(data, valueStart, valueEnd, e.value);
    }
  }

  lemma EntriesWalkedStep(data: Bytes, pos: nat, e: Entry, rest: seq<Entry>, end: nat, valueEnd: nat)
    requires LabelOk(e.key) && LabelsOk(rest) && LabelsOk([e] + rest) && EntriesAt(data, pos, [e] + rest, end)
    requires valueEnd == pos + |HeadBytes(e.key)| + |e.value|
    requires WalkPairs(data, valueEnd, |rest|).Some? && Matches(data, WalkPairs(data, valueEnd, |rest|).value, rest)
    ensures WalkPairs(data, pos, |rest| + 1).Some?
    ensures Matches(data, WalkPairs(data, pos, |rest| + 1).value, [e] + rest)
  {
    var valueStart := pos + |HeadBytes(e.key)|;
    EntryWalked(data, pos, e, |rest|, valueStart, valueEnd);
    MatchesStep(data, Pair(e.key, valueStart, valueEnd), WalkPairs(data, valueEnd, |rest|).value, e, rest);
  }

  /** Entries that stand at `pos` are walked, label and value slice by label and value slice. */
  lemma {:induction false} EntriesWalked(data: Bytes, pos: nat, entries: seq<Entry>, end: nat)
    requires LabelsOk(entries) && EntriesAt(data, pos, entries, end)
    ensures WalkPairs(data, pos, |entries|).Some?
    ensures Matches(data, WalkPairs(data, pos, |entries|).value, entries)
    decreases |entries|
  {
    if entries != [] {
      var e, rest := entries[0], entries[1..];
      var valueEnd := pos + |HeadBytes(e.key)| + |e.value|;
      EntriesWalked(data, valueEnd, rest, end);
      assert entries == [e] + rest;
      EntriesWalkedStep(data, pos, e, rest, end, valueEnd);
    }
  }

  lemma MatchesStep(data: Bytes, p: Pair, pairs: seq<Pair>, e: Entry, entries: seq<Entry>)
    requires LabelOk(e.key) && LabelsOk(entries) && PairMatches(data, p, e) && Matches(data, pairs, entries)
    ensures LabelsOk([e] + entries) && Matches(data, [p] + pairs, [e] + entries)
  {
  }

  lemma LabelRead(data: Bytes, pos: nat)
    requires ReadHead(data, pos).Some? && ReadHead(data, pos).value.head.mt == 0
    ensures var h := ReadHead(data, pos).value;
            && LabelOk(h.head)
            && At(data, pos, HeadBytes(h.head))
            && h.payloadStart == pos + |HeadBytes(h.head)|
            && Skip(data, pos) == Some(h.payloadStart)
  {
    ReadHeadSound(data, pos);
  }

  lemma FirstEntry(data: Bytes, pos: nat, n: nat) returns (e: Entry, valueStart: nat, valueEnd: nat)
    requires n > 0 && WalkPairs(data, pos, n).Some?
    ensures LabelOk(e.key) && At(data, pos, HeadBytes(e.key)) && valueStart == pos + |HeadBytes(e.key)|
    ensures At(data, valueStart, e.value) && valueEnd == valueStart + |e.value| <= |data|
    ensures IsItem(e.value)
    ensures WalkPairs(data, valueEnd, n - 1).Some?
  {
    var h := ReadHead(data, pos).value;
    LabelRead(data, pos);
    valueStart := h.payloadStart;
    valueEnd := Skip(data, valueStart).value;
    e := Entry(h.head, data[valueStart..valueEnd]);
    assert IsItem(e.value) by {
      SkippedSliceIsItem(data, valueStart, valueEnd);
    }
  }

  /** What is walked are entries. */
  lemma {:induction false} WalkedAreEntries(data: Bytes, pos: nat, n: nat) returns (entries: seq<Entry>, end: nat)
    requires pos <= |data| && WalkPairs(data, pos, n).Some?
    ensures |entries| == n && LabelsOk(entries) && EntriesAt(data, pos, entries, end)
    decreases n
  {
    hide At, IsItem, HeadBytes, WalkPairs, LabelOk;
    if n == 0 {
      entries, end := [], pos;
    } else {
      var e, valueStart, valueEnd := FirstEntry(data, pos, n);
      var rest;
      rest, end := WalkedAreEntries(data, valueEnd, n - 1);
      entries := [e] + rest;
      assert entries[1..] == rest;
    }
  }

  /** The value of the last entry under `wanted`. */
  function LastOf(entries: seq<Entry>, wanted: nat): Option<Bytes>
    requires LabelsOk(entries)
  {
    if entries == [] then None
    else
      var last := entries[|entries| - 1];
      if last.key.value == wanted then Some(last.value) else LastOf(entries[..|entries| - 1], wanted)
  }

  function Keys(entries: seq<Entry>): seq<nat> {
    if entries == [] then [] else Keys(entries[..|entries| - 1]) + [entries[|entries| - 1].key.value]
  }

  lemma {:induction false} MatchedLast(data: Bytes, pairs: seq<Pair>, entries: seq<Entry>, wanted: nat)
    requires LabelsOk(entries) && Matches(data, pairs, entries)
    ensures LastValue(data, pairs, wanted) == LastOf(entries, wanted) && Labels(pairs) == Keys(entries)
    decreases |entries|
  {
    if entries != [] {
      var n := |entries| - 1;
      assert PairMatches(data, pairs[n], entries[n]);
      MatchedLast(data, pairs[..n], entries[..n], wanted);
    }
  }

  /** A metadata map stands in `data` from `pos` up to `end`. */
  predicate MapAt(data: Bytes, pos: nat, head: Head, entries: seq<Entry>, end: nat) {
    && ValidHead(head)
    && head.mt == 5
    && head.value == |entries|
    && LabelsOk(entries)
    && At(data, pos, HeadBytes(head))
    && EntriesAt(data, pos + |HeadBytes(head)|, entries, end)
  }

  function ReadingOf(entries: seq<Entry>): Unwrapped
    requires LabelsOk(entries)
  {
    Unwrapped(LastOf(entries, POE_LABEL), SortLabels(Keys(entries)))
  }

  lemma MetadataIs(data: Bytes, pos: nat, head: Head, start: nat, pairs: seq<Pair>)
    requires ReadHead(data, pos) == Some(HeadAt(head, start)) && head.mt == 5
    requires WalkPairs(data, start, head.value) == Some(pairs)
    ensures MetadataAt(data, pos) == Some(Unwrapped(LastValue(data, pairs, POE_LABEL), SortLabels(Labels(pairs))))
  {
  }

  /** A map's last label-309 value and its sorted labels are returned. */
  lemma MapRead(data: Bytes, pos: nat, head: Head, entries: seq<Entry>, end: nat)
    requires MapAt(data, pos, head, entries, end)
    ensures MetadataAt(data, pos) == Some(ReadingOf(entries))
  {
    var start := pos + |HeadBytes(head)|;
    assert ReadHead(data, pos) == Some(HeadAt(head, start)) by {
      ReadHeadComplete(data, pos, head);
    }
    EntriesWalked(data, start, entries, end);
    var pairs := WalkPairs(data, start, |entries|).value;
    MatchedLast(data, pairs, entries, POE_LABEL);
    MetadataIs(data, pos, head, start, pairs);
  }

  /** Where a reading is returned, a map stands. */
  lemma MapStands(data: Bytes, pos: nat) returns (head: Head, entries: seq<Entry>, end: nat)
    requires MetadataAt(data, pos).Some?
    ensures MapAt(data, pos, head, entries, end)
  {
    hide HeadBytes, EntriesAt, LabelsOk, ReadHead;
    var h := ReadHead(data, pos).value;
    ReadHeadSound(data, pos);
    head := h.head;
    entries, end := WalkedAreEntries(data, h.payloadStart, h.head.value);
  }

  predicate ReadFrom(data: Bytes, pos: nat, u: Unwrapped, head: Head, entries: seq<Entry>, end: nat) {
    MapAt(data, pos, head, entries, end) && u == ReadingOf(entries)
  }

  /** A metadata reading is returned exactly where a map with that reading stands. */
  lemma ReadsExactlyMaps(data: Bytes, pos: nat, u: Unwrapped)
    ensures MetadataAt(data, pos) == Some(u) <==> exists head, entries, end: nat :: ReadFrom(data, pos, u, head, entries, end)
  {
    hide MetadataAt, MapAt, ReadingOf;
    if MetadataAt(data, pos) == Some(u) {
      var head, entries, end := MapStands(data, pos);
      MapRead(data, pos, head, entries, end);
      assert ReadFrom(data, pos, u, head, entries, end);
    }
    if exists head, entries, end: nat :: ReadFrom(data, pos, u, head, entries, end) {
      var head, entries, end: nat :| ReadFrom(data, pos, u, head, entries, end);
      MapRead(data, pos, head, entries, end);
    }
  }

  /** With one label-309 entry, that one is returned. */
  lemma {:induction false} LastOfUnique(entries: seq<Entry>, wanted: nat, k: nat)
    requires LabelsOk(entries) && k < |entries| && entries[k].key.value == wanted
    requires forall i :: k < i < |entries| ==> entries[i].key.value != wanted
    ensures LastOf(entries, wanted) == Some(entries[k].value)
    decreases |entries|
  {
    if k < |entries| - 1 {
      LastOfUnique(entries[..|entries| - 1], wanted, k);
    }
  }

  // ----- the three envelopes -------------------------------------------------------

  lemma EntrySkipped(data: Bytes, pos: nat, e: Entry, n: nat, valueStart: nat, valueEnd: nat)
    requires LabelOk(e.key) && At(data, pos, HeadBytes(e.key)) && valueStart == pos + |HeadBytes(e.key)|
    requires IsItem(e.value) && At(data, valueStart, e.value) && valueEnd == valueStart + |e.value|
    ensures SkipMany(data, pos, n + 2) == SkipMany(data, valueEnd, n)
  {
    KeySkipped(data, pos, e.key, valueStart);
    assert Skip(data, valueStart) == Some(valueEnd) by {
      ItemSkipped(data, valueStart, valueEnd, e.value);
    }
    SkipTwo(data, pos, valueStart, valueEnd, n);
  }

  lemma FirstEntrySkipped(data: Bytes, pos: nat, entries: seq<Entry>, end: nat, n: nat, next: nat)
    requires LabelsOk(entries) && EntriesAt(data, pos, entries, end) && entries != []
    requires next == pos + |HeadBytes(entries[0].key)| + |entries[0].value|
    ensures SkipMany(data, pos, n + 2) == SkipMany(data, next, n)
  {
    EntrySkipped(data, pos, entries[0], n, pos + |HeadBytes(entries[0].key)|, next);
  }

  lemma {:induction false} EntriesSkipped(data: Bytes, pos: nat, entries: seq<Entry>, end: nat)
    requires LabelsOk(entries) && EntriesAt(data, pos, entries, end)
    ensures SkipMany(data, pos, 2 * |entries|) == Some(end)
    decreases |entries|
  {
    hide At, IsItem, HeadBytes;
    if entries != [] {
      var n, next := 2 * |entries| - 2, pos + |HeadBytes(entries[0].key)| + |entries[0].value|;
      FirstEntrySkipped(data, pos, entries, end, n, next);
      EntriesSkipped(data, next, entries[1..], end);
    }
  }

  lemma SkipTwo(data: Bytes, a: nat, b: nat, c: nat, n: nat)
    requires Skip(data, a) == Some(b) && Skip(data, b) == Some(c)
    ensures SkipMany(data, a, n + 2) == SkipMany(data, c, n)
  {
    assert SkipMany(data, b, n + 1) == SkipMany(data, c, n);
  }

  /** A metadata map is one item. */
  lemma MapSkipped(data: Bytes, pos: nat, head: Head, entries: seq<Entry>, end: nat)
    requires MapAt(data, pos, head, entries, end)
    ensures Skip(data, pos) == Some(end)
  {
    var start := pos + |HeadBytes(head)|;
    assert ReadHead(data, pos) == Some(HeadAt(head, start)) by {
      ReadHeadComplete(data, pos, head);
    }
    EntriesSkipped(data, start, entries, end);
  }

  /** A field of the keyed form, before its unsigned key 0. */
  datatype Field = Field(keyHead: Head, key: Bytes, value: Bytes)

  predicate FieldsAt(data: Bytes, pos: nat, fields: seq<Field>, end: nat)
    decreases |fields|
  {
    if fields == [] then pos == end
    else
      var f := fields[0];
      var valueStart := pos + |f.key|;
      && ValidHead(f.keyHead)
      && !(f.keyHead.mt == 0 && f.keyHead.value == 0)
      && At(data, pos, HeadBytes(f.keyHead))
      && IsItem(f.key)
      && At(data, pos, f.key)
      && IsItem(f.value)
      && At(data, valueStart, f.value)
      && FieldsAt(data, valueStart + |f.value|, fields[1..], end)
  }

  lemma FieldPassed(data: Bytes, pos: nat, f: Field, n: nat, valueStart: nat, valueEnd: nat)
    requires ValidHead(f.keyHead) && !(f.keyHead.mt == 0 && f.keyHead.value == 0) && At(data, pos, HeadBytes(f.keyHead))
    requires IsItem(f.key) && At(data, pos, f.key) && valueStart == pos + |f.key|
    requires IsItem(f.value) && At(data, valueStart, f.value) && valueEnd == valueStart + |f.value|
    ensures FindKeyZero(data, pos, n + 1) == FindKeyZero(data, valueEnd, n)
  {
    assert ReadHead(data, pos) == Some(HeadAt(f.keyHead, pos + |HeadBytes(f.keyHead)|)) by {
      ReadHeadComplete(data, pos, f.keyHead);
    }
    assert Skip(data, pos) == Some(valueStart) by {
      ItemSkipped(data, pos, valueStart, f.key);
    }
    assert Skip(data, valueStart) == Some(valueEnd) by {
      ItemSkipped(data, valueStart, valueEnd, f.value);
    }
  }

  lemma FirstFieldPassed(data: Bytes, pos: nat, fields: seq<Field>, end: nat, n: nat, next: nat)
    requires FieldsAt(data, pos, fields, end) && fields != [] && next == pos + |fields[0].key| + |fields[0].value|
    ensures FindKeyZero(data, pos, n + 1) == FindKeyZero(data, next, n)
  {
    FieldPassed(data, pos, fields[0], n, pos + |fields[0].key|, next);
  }

  lemma {:induction false} FieldsPassed(data: Bytes, pos: nat, fields: seq<Field>, n: nat, end: nat)
    requires FieldsAt(data, pos, fields, end)
    ensures FindKeyZero(data, pos, |fields| + n) == FindKeyZero(data, end, n)
    decreases |fields|
  {
    hide At, IsItem, HeadBytes;
    if fields != [] {
      var m, next := |fields| - 1 + n, pos + |fields[0].key| + |fields[0].value|;
      FirstFieldPassed(data, pos, fields, end, m, next);
      FieldsPassed(data, next, fields[1..], n, end);
    }
  }

  /** An untagged map, the metadata map itself. */
  predicate PlainForm(aux: Bytes, meta: Head, entries: seq<Entry>, end: nat) {
    MapAt(aux, 0, meta, entries, end)
  }

  /** An untagged two-element array whose first element is the metadata map. */
  predicate ScriptsForm(aux: Bytes, outer: Head, meta: Head, entries: seq<Entry>, end: nat) {
    && ValidHead(outer)
    && outer.mt == 4
    && outer.value == 2
    && At(aux, 0, HeadBytes(outer))
    && MapAt(aux, |HeadBytes(outer)|, meta, entries, end)
  }

  /** Tag 259 over a map whose first unsigned key 0 holds the metadata map. */
  predicate KeyedForm(aux: Bytes, tag: Head, outer: Head, before: seq<Field>, keyPos: nat, key: Head, meta: Head, entries: seq<Entry>, end: nat) {
    && ValidHead(tag)
    && tag.mt == 6
    && tag.value == AUX_DATA_TAG
    && At(aux, 0, HeadBytes(tag))
    && ValidHead(outer)
    && outer.mt == 5
    && outer.value > |before|
    && At(aux, |HeadBytes(tag)|, HeadBytes(outer))
    && FieldsAt(aux, |HeadBytes(tag)| + |HeadBytes(outer)|, before, keyPos)
    && ValidHead(key)
    && key.mt == 0
    && key.value == 0
    && At(aux, keyPos, HeadBytes(key))
    && MapAt(aux, keyPos + |HeadBytes(key)|, meta, entries, end)
  }

  lemma PlainUnwrapped(aux: Bytes, meta: Head, entries: seq<Entry>, end: nat)
    requires PlainForm(aux, meta, entries, end)
    ensures UnwrapAux(aux) == Some(ReadingOf(entries))
  {
    ReadHeadComplete(aux, 0, meta);
    MapRead(aux, 0, meta, entries, end);
  }

  lemma ScriptsUnwrapped(aux: Bytes, outer: Head, meta: Head, entries: seq<Entry>, end: nat)
    requires ScriptsForm(aux, outer, meta, entries, end)
    ensures UnwrapAux(aux) == Some(ReadingOf(entries))
  {
    ReadHeadComplete(aux, 0, outer);
    MapRead(aux, |HeadBytes(outer)|, meta, entries, end);
  }

  lemma KeyZeroFound(data: Bytes, keyPos: nat, n: nat, key: Head, meta: Head, entries: seq<Entry>, valueStart: nat, end: nat)
    requires n > 0 && ValidHead(key) && key.mt == 0 && key.value == 0 && At(data, keyPos, HeadBytes(key))
    requires valueStart == keyPos + |HeadBytes(key)| && MapAt(data, valueStart, meta, entries, end)
    ensures FindKeyZero(data, keyPos, n) == Some(Some(valueStart))
  {
    KeySkipped(data, keyPos, key, valueStart);
    MapSkipped(data, valueStart, meta, entries, end);
  }

  lemma UnwrapKeyedIs(aux: Bytes, tag: Head, a: nat, outer: Head, b: nat, valueStart: nat)
    requires ReadHead(aux, 0) == Some(HeadAt(tag, a)) && tag.mt == 6 && tag.value == AUX_DATA_TAG
    requires ReadHead(aux, a) == Some(HeadAt(outer, b)) && outer.mt == 5
    requires FindKeyZero(aux, b, outer.value) == Some(Some(valueStart))
    ensures UnwrapAux(aux) == MetadataAt(aux, valueStart)
  {
  }

  lemma KeyedUnwrapped(aux: Bytes, tag: Head, outer: Head, before: seq<Field>, keyPos: nat, key: Head, meta: Head, entries: seq<Entry>, end: nat)
    requires KeyedForm(aux, tag, outer, before, keyPos, key, meta, entries, end)
    ensures UnwrapAux(aux) == Some(ReadingOf(entries))
  {
    hide At, HeadBytes, MetadataAt, UnwrapAux, ReadingOf, FindKeyZero, ReadHead, FieldsAt;
    var a := |HeadBytes(tag)|;
    var b := a + |HeadBytes(outer)|;
    var n := outer.value - |before|;
    var valueStart := keyPos + |HeadBytes(key)|;
    HeadReadAt(aux, 0, tag, a);
    HeadReadAt(aux, a, outer, b);
    FieldsPassed(aux, b, before, n, keyPos);
    KeyZeroFound(aux, keyPos, n, key, meta, entries, valueStart, end);
    UnwrapKeyedIs(aux, tag, a, outer, b, valueStart);
    MapRead(aux, valueStart, meta, entries, end);
  }

  /** The auxiliary data carries a metadata map with these entries, in one of the three forms. */
  ghost predicate Carries(aux: Bytes, entries: seq<Entry>) {
    || (exists meta, end: nat :: PlainForm(aux, meta, entries, end))
    || (exists outer, meta, end: nat :: ScriptsForm(aux, outer, meta, entries, end))
    || (exists tag, outer, before, keyPos: nat, key, meta, end: nat :: KeyedForm(aux, tag, outer, before, keyPos, key, meta, entries, end))
  }

  /** Whichever form carries the entries, unwrapping reads them. */
  lemma CarriedIsUnwrapped(aux: Bytes, entries: seq<Entry>)
    requires LabelsOk(entries) && Carries(aux, entries)
    ensures UnwrapAux(aux) == Some(ReadingOf(entries))
  {
    if meta, end: nat :| PlainForm(aux, meta, entries, end) {
      PlainUnwrapped(aux, meta, entries, end);
    } else if outer, meta, end: nat :| ScriptsForm(aux, outer, meta, entries, end) {
      ScriptsUnwrapped(aux, outer, meta, entries, end);
    } else {
      var tag, outer, before, keyPos: nat, key, meta, end: nat :| KeyedForm(aux, tag, outer, before, keyPos, key, meta, entries, end);
      KeyedUnwrapped(aux, tag, outer, before, keyPos, key, meta, entries, end);
    }
  }
}
