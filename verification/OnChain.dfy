/** From a transaction's bytes to the record body: slicing, unwrapping and reassembling together. */
module OnChain {
  import opened Wrappers
  import opened ByteStrings
  import opened Cbor
  import opened CborWalker
  import opened TxSlicing
  import opened AuxData
  import opened AuxLayouts
  import opened Carriage

  /** The byte string item of one chunk. */
  function ChunkItem(c: Bytes): Item {
    Item(ShortestHead(2, |c|), c, [])
  }

  function ChunkItems(chunks: seq<Bytes>): (r: seq<Item>)
    ensures |r| == |chunks|
    ensures forall i :: 0 <= i < |chunks| ==> r[i] == ChunkItem(chunks[i])
  {
    if chunks == [] then [] else [ChunkItem(chunks[0])] + ChunkItems(chunks[1..])
  }

  lemma ChunkItemEncodes(c: Bytes)
    requires |c| <= CHUNK_MAX
    ensures WellFormed(ChunkItem(c), 1) && Encode(ChunkItem(c), 1) == ChunkBytes(c)
  {
    ShortestIsValid(2, |c|);
    assert HeadBytes(ShortestHead(2, |c|)) + c + [] == ChunkBytes(c);
  }

  lemma {:induction false} ChunkItemsEncode(chunks: seq<Bytes>)
    requires Fits(chunks)
    ensures AllWellFormed(ChunkItems(chunks), 1) && EncodeAll(ChunkItems(chunks), 1) == ChunksBytes(chunks)
    decreases |chunks|
  {
    if chunks != [] {
      ChunkItemEncodes(chunks[0]);
      ChunkItemsEncode(chunks[1..]);
      EncodeAllFirst(ChunkItem(chunks[0]), ChunkItems(chunks[1..]), 1);
    }
  }

  /** A label-309 value is one item, so it can stand in any metadata map. */
  lemma Label309ValueIsItem(body: Bytes)
    requires body != [] && |body| <= 64 * (LIMIT - 1)
    ensures IsItem(EncodeLabel309Value(body).value)
  {
    ChunksMakeUpBody(body);
    var chunks := ChunkRecordBody(body).value;
    ArrayIsItem(chunks);
  }

  lemma ArrayIsItem(chunks: seq<Bytes>)
    requires |chunks| < LIMIT && Fits(chunks)
    ensures IsItem(ArrayBytes(chunks))
  {
    hide IsItem;
    var head := ShortestHead(4, |chunks|);
    var item := Item(head, [], ChunkItems(chunks));
    ShortestIsValid(4, |chunks|);
    ChunkItemsEncode(chunks);
    assert HeadBytes(head) + [] + ChunksBytes(chunks) == ArrayBytes(chunks);
    EncodedIsItem(item, ArrayBytes(chunks));
  }

  /** The record body that the verifier recovers from a transaction. */
  function RecordBody(tx: Bytes): Option<Bytes> {
    var c := SliceTxComponents(tx);
    if c.None? || c.value.auxiliaryData.None? then None
    else
      var u := UnwrapAux(c.value.auxiliaryData.value);
      if u.None? || u.value.label309.None? then None
      else
        var body := Reassemble(u.value.label309.value);
        if body.Ok? then Some(body.value) else None
  }

  /**
    A transaction of either shape, whose auxiliary data carries in any of the three forms a metadata
    map with `body`'s chunk array as its last label-309 value, gives back exactly `body`.
    */
  lemma RecordBodyRecovered(l: TxLayout, entries: seq<Entry>, k: nat, body: Bytes)
    requires LayoutOk(l) && l.aux.Present?
    requires LabelsOk(entries) && Carries(Encode(l.aux.item, 1), entries)
    requires k < |entries| && entries[k].key.value == POE_LABEL
    requires forall i :: k < i < |entries| ==> entries[i].key.value != POE_LABEL
    requires body != [] && |body| <= 64 * (LIMIT - 1) && entries[k].value == EncodeLabel309Value(body).value
    ensures RecordBody(TxBytes(l)) == Some(body)
  {
    hide Carries, TxBytes, SliceTxComponents, UnwrapAux, Reassemble, EncodeLabel309Value;
    LayoutSliced(l);
    CarriedIsUnwrapped(Encode(l.aux.item, 1), entries);
    LastOfUnique(entries, POE_LABEL, k);
    CarriageRoundTrip(body);
  }

  /** Metadata without label 309 yields no record. */
  lemma NoRecordWithoutLabel(l: TxLayout, entries: seq<Entry>)
    requires LayoutOk(l) && l.aux.Present?
    requires LabelsOk(entries) && Carries(Encode(l.aux.item, 1), entries)
    requires forall i :: 0 <= i < |entries| ==> entries[i].key.value != POE_LABEL
    ensures RecordBody(TxBytes(l)) == None
  {
    hide Carries, TxBytes, SliceTxComponents, UnwrapAux, Reassemble;
    LayoutSliced(l);
    CarriedIsUnwrapped(Encode(l.aux.item, 1), entries);
    LastOfAbsent(entries, POE_LABEL);
  }

  lemma {:induction false} LastOfAbsent(entries: seq<Entry>, wanted: nat)
    requires LabelsOk(entries)
    requires forall i :: 0 <= i < |entries| ==> entries[i].key.value != wanted
    ensures LastOf(entries, wanted) == None
    decreases |entries|
  {
    if entries != [] {
      LastOfAbsent(entries[..|entries| - 1], wanted);
    }
  }

  // ----- one concrete embedding ----------------------------------------------------

  const EMPTY_MAP: Item := Item(Head(5, 0, 0), [], [])

  function ArrayItem(chunks: seq<Bytes>): Item {
    Item(ShortestHead(4, |chunks|), [], ChunkItems(chunks))
  }

  /** A one-entry metadata map under label 309. */
  function MetadataItem(chunks: seq<Bytes>): Item {
    Item(Head(5, 1, 1), [], [Item(ShortestHead(0, POE_LABEL), [], []), ArrayItem(chunks)])
  }

  function Embedding(chunks: seq<Bytes>): TxLayout {
    TxLayout(Head(4, 3, 3), EMPTY_MAP, EMPTY_MAP, [], Present(MetadataItem(chunks)), [])
  }

  lemma ArrayItemEncodes(chunks: seq<Bytes>)
    requires |chunks| < LIMIT && Fits(chunks)
    ensures WellFormed(ArrayItem(chunks), 1) && Encode(ArrayItem(chunks), 1) == ArrayBytes(chunks)
  {
    ShortestIsValid(4, |chunks|);
    ChunkItemsEncode(chunks);
    assert HeadBytes(ShortestHead(4, |chunks|)) + [] + ChunksBytes(chunks) == ArrayBytes(chunks);
  }

  lemma MetadataItemEncodes(chunks: seq<Bytes>)
    requires |chunks| < LIMIT && Fits(chunks)
    ensures WellFormed(MetadataItem(chunks), 1)
    ensures Encode(MetadataItem(chunks), 1) == HeadBytes(Head(5, 1, 1)) + (HeadBytes(ShortestHead(0, POE_LABEL)) + ArrayBytes(chunks))
  {
    var key, value := Item(ShortestHead(0, POE_LABEL), [], []), ArrayItem(chunks);
    ShortestIsValid(0, POE_LABEL);
    ArrayItemEncodes(chunks);
    assert Encode(key, 1) == HeadBytes(key.head);
    EncodeAllFirst(value, [], 1);
    assert [value] + [] == [value];
    EncodeAllFirst(key, [value], 1);
    assert [key] + [value] == [key, value];
  }

  /** Every body can be embedded, so the recovery theorem is not empty. */
  lemma EmbeddedBodyRecovered(body: Bytes)
    requires body != [] && |body| <= 64 * (LIMIT - 1)
    ensures var chunks := ChunkRecordBody(body).value;
            LayoutOk(Embedding(chunks)) && RecordBody(TxBytes(Embedding(chunks))) == Some(body)
  {
    hide IsItem, RecordBody, EncodeLabel309Value;
    ChunksMakeUpBody(body);
    var chunks := ChunkRecordBody(body).value;
    MetadataItemEncodes(chunks);
    Label309ValueIsItem(body);
    ValueOfChunks(body);
    var entries := [Entry(ShortestHead(0, POE_LABEL), ArrayBytes(chunks))];
    ShortestIsValid(0, POE_LABEL);
    EmbeddedPlainly(Encode(MetadataItem(chunks), 1), entries[0]);
    RecordBodyRecovered(Embedding(chunks), entries, 0, body);
  }

  lemma ValueOfChunks(body: Bytes)
    requires body != []
    ensures EncodeLabel309Value(body) == Some(ArrayBytes(ChunkRecordBody(body).value))
  {
  }

  lemma EmbeddedPlainly(aux: Bytes, e: Entry)
    requires LabelOk(e.key) && IsItem(e.value) && aux == HeadBytes(Head(5, 1, 1)) + (HeadBytes(e.key) + e.value)
    ensures LabelsOk([e]) && Carries(aux, [e])
  {
    hide IsItem;
    var head, key := HeadBytes(Head(5, 1, 1)), HeadBytes(e.key);
    assert aux[0..|aux|] == aux;
    AtSplit(aux, 0, head, key + e.value);
    AtSplit(aux, |head|, key, e.value);
    assert [e][1..] == [];
    assert EntriesAt(aux, |head|, [e], |aux|);
    assert PlainForm(aux, Head(5, 1, 1), [e], |aux|);
  }
}
