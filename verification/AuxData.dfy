/** Unwrapping auxiliary data: its three envelope forms and the metadata map inside them. */
module AuxData {
  import opened Wrappers
  import opened ByteStrings
  import opened Cbor
  import opened CborWalker

  const POE_LABEL: nat := 309
  const AUX_DATA_TAG: nat := 259

  datatype Unwrapped = Unwrapped(label309: Option<Bytes>, labels: seq<nat>)

  // ----- walking the metadata map --------------------------------------------------

  /** One metadata entry: its label's head and the slice of its value. */
  datatype Pair = Pair(key: Head, valueStart: nat, valueEnd: nat)

  predicate PairIn(data: Bytes, p: Pair) {
    p.valueStart <= p.valueEnd <= |data|
  }

  /** `n` entries with unsigned labels from `pos` on. */
  function WalkPairs(data: Bytes, pos: nat, n: nat): (r: Option<seq<Pair>>)
    ensures r.Some? ==> |r.value| == n && forall i :: 0 <= i < n ==> PairIn(data, r.value[i])
    decreases n
  {
    if n == 0 then Some([])
    else
      var h := ReadHead(data, pos);
      if h.None? || h.value.head.mt != 0 then None
      else
        var valueStart := Skip(data, pos);
        if valueStart.None? then None
        else
          var valueEnd := Skip(data, valueStart.value);
          if valueEnd.None? then None
          else PrependPair(Pair(h.value.head, valueStart.value, valueEnd.value), WalkPairs(data, valueEnd.value, n - 1))
  }

  function PrependPair(p: Pair, rest: Option<seq<Pair>>): Option<seq<Pair>> {
    if rest.Some? then Some([p] + rest.value) else None
  }

  function LastValue(data: Bytes, pairs: seq<Pair>, wanted: nat): Option<Bytes>
    requires forall i :: 0 <= i < |pairs| ==> PairIn(data, pairs[i])
  {
    if pairs == [] then None
    else
      var last := pairs[|pairs| - 1];
      assert PairIn(data, last);
      if last.key.value == wanted then Some(data[last.valueStart..last.valueEnd])
      else LastValue(data, pairs[..|pairs| - 1], wanted)
  }

  function Labels(pairs: seq<Pair>): seq<nat> {
    if pairs == [] then [] else Labels(pairs[..|pairs| - 1]) + [pairs[|pairs| - 1].key.value]
  }

  predicate Ascending(s: seq<nat>) {
    forall i, j :: 0 <= i < j < |s| ==> s[i] <= s[j]
  }

  function InsertLabel(x: nat, s: seq<nat>): (r: seq<nat>)
    requires Ascending(s)
    ensures Ascending(r)
    ensures forall i :: 0 <= i < |r| ==> r[i] == x || r[i] in s
  {
    if s == [] || s[|s| - 1] <= x then s + [x]
    else InsertLabel(x, s[..|s| - 1]) + [s[|s| - 1]]
  }

  lemma {:induction false} InsertLabelKeeps(x: nat, s: seq<nat>)
    requires Ascending(s)
    ensures multiset(InsertLabel(x, s)) == multiset(s) + multiset{x}
  {
    if s != [] && s[|s| - 1] > x {
      InsertLabelKeeps(x, s[..|s| - 1]);
      assert s == s[..|s| - 1] + [s[|s| - 1]];
    }
  }

  /** `labels.sort()`. */
  function SortLabels(s: seq<nat>): (r: seq<nat>)
    ensures Ascending(r)
  {
    if s == [] then [] else InsertLabel(s[|s| - 1], SortLabels(s[..|s| - 1]))
  }

  lemma {:induction false} SortLabelsKeeps(s: seq<nat>)
    ensures multiset(SortLabels(s)) == multiset(s)
  {
    hide InsertLabel;
    if s != [] {
      var init, last := s[..|s| - 1], s[|s| - 1];
      SortLabelsKeeps(init);
      InsertLabelKeeps(last, SortLabels(init));
      assert s == init + [last];
    }
  }

  /** The last label-309 value and all labels of the metadata map at `mapPos`. */
  function MetadataAt(data: Bytes, mapPos: nat): Option<Unwrapped> {
    var h := ReadHead(data, mapPos);
    if h.None? || h.value.head.mt != 5 then None
    else
      var pairs := WalkPairs(data, h.value.payloadStart, h.value.head.value);
      if pairs.None? then None
      else Some(Unwrapped(LastValue(data, pairs.value, POE_LABEL), SortLabels(Labels(pairs.value))))
  }

  function PrependPairs(done: seq<Pair>, rest: Option<seq<Pair>>): Option<seq<Pair>> {
    if rest.Some? then Some(done + rest.value) else None
  }

  lemma PrependPairsStep(done: seq<Pair>, p: Pair, rest: Option<seq<Pair>>)
    ensures PrependPairs(done, PrependPair(p, rest)) == PrependPairs(done + [p], rest)
  {
    if rest.Some? {
      assert done + ([p] + rest.value) == done + [p] + rest.value;
    }
  }

  lemma PrependNoPairs(rest: Option<seq<Pair>>)
    ensures PrependPairs([], rest) == rest
  {
    if rest.Some? {
      assert [] + rest.value == rest.value;
    }
  }

  /** Reads one entry; None when it is malformed or its label is not unsigned. */
  method ReadPair(data: Bytes, pos: nat, ghost n: nat) returns (r: Option<Pair>)
    ensures WalkPairs(data, pos, n + 1) == if r.None? then None else PrependPair(r.value, WalkPairs(data, r.value.valueEnd, n))
    ensures r.Some? ==> PairIn(data, r.value)
  {
    var keyHead := ReadCborHead(data, pos);
    if keyHead.None? || keyHead.value.head.mt != 0 {
      return None;
    }
    var valueStart := SkipCborItem(data, pos);
    if valueStart.None? {
      return None;
    }
    var valueEnd := SkipCborItem(data, valueStart.value);
    if valueEnd.None? {
      return None;
    }
    return Some(Pair(keyHead.value.head, valueStart.value, valueEnd.value));
  }

  method WalkMetadataMap(data: Bytes, mapPos: nat) returns (r: Option<Unwrapped>)
    ensures r == MetadataAt(data, mapPos)
  {
    var head := ReadCborHead(data, mapPos);
    if head.None? || head.value.head.mt != 5 {
      return None;
    }
    var labels: seq<nat> := [];
    var label309: Option<Bytes> := None;
    var start, n := head.value.payloadStart, head.value.head.value;
    var pos := start;
    ghost var done: seq<Pair> := [];
    PrependNoPairs(WalkPairs(data, start, n));
    for i := 0 to n
      invariant forall k :: 0 <= k < |done| ==> PairIn(data, done[k])
      invariant WalkPairs(data, start, n) == PrependPairs(done, WalkPairs(data, pos, n - i))
      invariant labels == Labels(done) && label309 == LastValue(data, done, POE_LABEL)
    {
      var pair := ReadPair(data, pos, n - i - 1);
      if pair.None? {
        return None;
      }
      labels := labels + [pair.value.key.value];
      if pair.value.key.value == POE_LABEL {
        label309 := Some(data[pair.value.valueStart..pair.value.valueEnd]);
      }
      PrependPairsStep(done, pair.value, WalkPairs(data, pair.value.valueEnd, n - i - 1));
      assert (done + [pair.value])[..|done|] == done;
      done := done + [pair.value];
      pos := pair.value.valueEnd;
    }
    assert done + [] == done;
    return Some(Unwrapped(label309, SortLabels(labels)));
  }

  // ----- the keyed form ------------------------------------------------------------

  /** The value position of the first unsigned key 0; None inside when there is none. */
  function FindKeyZero(data: Bytes, pos: nat, n: nat): Option<Option<nat>>
    decreases n
  {
    if n == 0 then Some(None)
    else
      var h := ReadHead(data, pos);
      var valueStart := Skip(data, pos);
      if h.None? || valueStart.None? then None
      else
        var valueEnd := Skip(data, valueStart.value);
        if valueEnd.None? then None
        else if h.value.head.mt == 0 && h.value.head.value == 0 then Some(valueStart)
        else FindKeyZero(data, valueEnd.value, n - 1)
  }

  method FindTag259MetadataMap(data: Bytes, mapHead: HeadAt) returns (r: Option<Option<nat>>)
    ensures r == FindKeyZero(data, mapHead.payloadStart, mapHead.head.value)
  {
    var pos, n := mapHead.payloadStart, mapHead.head.value;
    for i := 0 to n
      invariant FindKeyZero(data, mapHead.payloadStart, n) == FindKeyZero(data, pos, n - i)
    {
      var keyHead := ReadCborHead(data, pos);
      if keyHead.None? {
        return None;
      }
      var valueStart := SkipCborItem(data, pos);
      if valueStart.None? {
        return None;
      }
      var valueEnd := SkipCborItem(data, valueStart.value);
      if valueEnd.None? {
        return None;
      }
      if keyHead.value.head.mt == 0 && keyHead.value.head.value == 0 {
        return Some(valueStart);
      }
      pos := valueEnd.value;
    }
    return Some(None);
  }

  // ----- the three envelope forms --------------------------------------------------

  function UnwrapKeyed(aux: Bytes, pos: nat): Option<Unwrapped> {
    var inner := ReadHead(aux, pos);
    if inner.None? || inner.value.head.mt != 5 then None
    else
      var found := FindKeyZero(aux, inner.value.payloadStart, inner.value.head.value);
      if found.None? then None
      else if found.value.None? then Some(Unwrapped(None, []))
      else MetadataAt(aux, found.value.value)
  }

  /** Dispatches on the top-level type and tag only. */
  function UnwrapAux(aux: Bytes): Option<Unwrapped> {
    var h := ReadHead(aux, 0);
    if h.None? then None
    else
      var mt, value := h.value.head.mt, h.value.head.value;
      if mt == 6 then
        if value != AUX_DATA_TAG then None else UnwrapKeyed(aux, h.value.payloadStart)
      else if mt == 4 then
        if value != 2 then None else MetadataAt(aux, h.value.payloadStart)
      else if mt == 5 then MetadataAt(aux, 0)
      else None
  }

  method UnwrapAuxiliaryData(aux: Bytes) returns (r: Option<Unwrapped>)
    ensures r == UnwrapAux(aux)
  {
    var h := ReadCborHead(aux, 0);
    if h.None? {
      return None;
    }
    var mt, value, pos := h.value.head.mt, h.value.head.value, h.value.payloadStart;
    if mt == 6 {
      if value != AUX_DATA_TAG {
        return None;
      }
      var inner := ReadCborHead(aux, pos);
      if inner.None? || inner.value.head.mt != 5 {
        return None;
      }
      var found := FindTag259MetadataMap(aux, inner.value);
      if found.None? {
        return None;
      }
      if found.value.None? {
        return Some(Unwrapped(None, []));
      }
      r := WalkMetadataMap(aux, found.value.value);
      return;
    }
    if mt == 4 {
      if value != 2 {
        return None;
      }
      var first := ReadCborHead(aux, pos);
      if first.None? || first.value.head.mt != 5 {
        return None;
      }
      r := WalkMetadataMap(aux, pos);
      return;
    }
    if mt == 5 {
      r := WalkMetadataMap(aux, 0);
      return;
    }
    return None;
  }
}
