/** Byte-faithful slices of a transaction and of its auxiliary data. */
module TxSlicing {
  import opened Wrappers
  import opened ByteStrings
  import opened Cbor
  import opened CborWalker

  // ----- the transaction -----------------------------------------------------------

  datatype TxComponents = TxComponents(txBody: Bytes, witnessSet: Bytes, auxiliaryData: Option<Bytes>)

  /** The auxiliary-data slot: null or undefined, or one item. */
  function SliceAuxiliary(tx: Bytes, pos: nat): Option<Option<Bytes>> {
    if pos >= |tx| then None
    else if tx[pos] == 0xF6 || tx[pos] == 0xF7 then Some(None)
    else
      var end := Skip(tx, pos);
      if end.None? then None else Some(Some(tx[pos..end.value]))
  }

  /** Where the items of a transaction end; one more item stands before the auxiliary data of four. */
  datatype Marks = Marks(head: Head, start: nat, bodyEnd: nat, witnessEnd: nat, auxStart: nat)

  function TxMarks(tx: Bytes): (r: Option<Marks>)
    ensures r.Some? ==> r.value.start <= r.value.bodyEnd <= r.value.witnessEnd <= r.value.auxStart <= |tx|
  {
    var h := ReadHead(tx, 0);
    if h.None? || h.value.head.mt != 4 || !(h.value.head.value == 3 || h.value.head.value == 4) then None
    else
      var start := h.value.payloadStart;
      var bodyEnd := Skip(tx, start);
      if bodyEnd.None? then None
      else
        var witnessEnd := Skip(tx, bodyEnd.value);
        if witnessEnd.None? then None
        else
          var auxStart := SkipMany(tx, witnessEnd.value, h.value.head.value - 3);
          if auxStart.None? then None
          else Some(Marks(h.value.head, start, bodyEnd.value, witnessEnd.value, auxStart.value))
  }

  /** Cuts `[body, witness_set, (is_valid,) auxiliary_data]` without decoding any of it. */
  function SliceTxComponents(tx: Bytes): Option<TxComponents> {
    var m := TxMarks(tx);
    if m.None? then None
    else
      var aux := SliceAuxiliary(tx, m.value.auxStart);
      if aux.None? then None
      else Some(TxComponents(tx[m.value.start..m.value.bodyEnd], tx[m.value.bodyEnd..m.value.witnessEnd], aux.value))
  }

  datatype AuxSlot = Null | Undefined | Present(item: Item)

  /** A transaction laid out item by item; bytes after the last item are not looked at. */
  datatype TxLayout = TxLayout(head: Head, body: Item, witnesses: Item, isValid: seq<Item>, aux: AuxSlot, trailing: Bytes)

  predicate AuxSlotOk(aux: AuxSlot) {
    aux.Present? ==> WellFormed(aux.item, 1) && !(aux.item.head.mt == 7 && (aux.item.head.ai == 22 || aux.item.head.ai == 23))
  }

  predicate LayoutOk(l: TxLayout) {
    && ValidHead(l.head)
    && l.head.mt == 4
    && l.head.value == 3 + |l.isValid|
    && |l.isValid| <= 1
    && WellFormed(l.body, 1)
    && WellFormed(l.witnesses, 1)
    && AllWellFormed(l.isValid, 1)
    && AuxSlotOk(l.aux)
  }

  function AuxSlotBytes(aux: AuxSlot): Bytes
    requires AuxSlotOk(aux)
  {
    match aux
    case Null => [0xF6]
    case Undefined => [0xF7]
    case Present(item) => Encode(item, 1)
  }

  function TxBytes(l: TxLayout): Bytes
    requires LayoutOk(l)
  {
    HeadBytes(l.head) + (Encode(l.body, 1) + (Encode(l.witnesses, 1) + (EncodeAll(l.isValid, 1) + (AuxSlotBytes(l.aux) + l.trailing))))
  }

  function ComponentsOf(l: TxLayout): TxComponents
    requires LayoutOk(l)
  {
    TxComponents(Encode(l.body, 1), Encode(l.witnesses, 1), if l.aux.Present? then Some(Encode(l.aux.item, 1)) else None)
  }

  lemma FirstByteOfItem(item: Item)
    requires WellFormed(item, 1)
    ensures Encode(item, 1)[0] == 32 * item.head.mt + item.head.ai
  {
  }

  lemma AuxiliarySliced(tx: Bytes, pos: nat, aux: AuxSlot)
    requires AuxSlotOk(aux) && At(tx, pos, AuxSlotBytes(aux))
    ensures SliceAuxiliary(tx, pos) == Some(if aux.Present? then Some(Encode(aux.item, 1)) else None)
  {
    assert tx[pos] == tx[pos..pos + |AuxSlotBytes(aux)|][0];
    if aux.Present? {
      FirstByteOfItem(aux.item);
      EncodedIsSkipped(tx, pos, aux.item);
    }
  }

  lemma AuxiliaryFound(tx: Bytes, pos: nat) returns (aux: AuxSlot)
    requires SliceAuxiliary(tx, pos).Some?
    ensures AuxSlotOk(aux) && At(tx, pos, AuxSlotBytes(aux))
  {
    if tx[pos] == 0xF6 {
      aux := Null;
    } else if tx[pos] == 0xF7 {
      aux := Undefined;
    } else {
      var item := SkippedIsItem(tx, pos);
      FirstByteOfItem(item);
      assert tx[pos] == Encode(item, 1)[0];
      aux := Present(item);
    }
  }

  /** The parts of a layout, one after the other from `pos` on. */
  predicate PartsAt(tx: Bytes, pos: nat, body: Bytes, witnesses: Bytes, isValid: Bytes, aux: Bytes) {
    && At(tx, pos, body)
    && At(tx, pos + |body|, witnesses)
    && At(tx, pos + |body| + |witnesses|, isValid)
    && At(tx, pos + |body| + |witnesses| + |isValid|, aux)
  }

  lemma PartsOfLayout(tx: Bytes, head: Bytes, body: Bytes, witnesses: Bytes, isValid: Bytes, aux: Bytes, trailing: Bytes)
    requires tx == head + (body + (witnesses + (isValid + (aux + trailing))))
    ensures At(tx, 0, head) && PartsAt(tx, |head|, body, witnesses, isValid, aux)
  {
    var rest := body + (witnesses + (isValid + (aux + trailing)));
    AtSplit(tx, 0, head, rest);
    AtSplit(tx, |head|, body, witnesses + (isValid + (aux + trailing)));
    AtSplit(tx, |head| + |body|, witnesses, isValid + (aux + trailing));
    AtSplit(tx, |head| + |body| + |witnesses|, isValid, aux + trailing);
    AtSplit(tx, |head| + |body| + |witnesses| + |isValid|, aux, trailing);
  }

  lemma MarksRead(tx: Bytes, m: Marks)
    requires ReadHead(tx, 0) == Some(HeadAt(m.head, m.start)) && m.head.mt == 4 && 3 <= m.head.value <= 4
    requires Skip(tx, m.start) == Some(m.bodyEnd) && Skip(tx, m.bodyEnd) == Some(m.witnessEnd)
    requires SkipMany(tx, m.witnessEnd, m.head.value - 3) == Some(m.auxStart)
    ensures TxMarks(tx) == Some(m)
  {
  }

  function MarksOf(l: TxLayout): Marks
    requires LayoutOk(l)
  {
    var a := |HeadBytes(l.head)|;
    var b := a + |Encode(l.body, 1)|;
    var c := b + |Encode(l.witnesses, 1)|;
    Marks(l.head, a, b, c, c + |EncodeAll(l.isValid, 1)|)
  }

  /** The items of the layout stand at their marks. */
  predicate ItemsAt(tx: Bytes, m: Marks, l: TxLayout)
    requires LayoutOk(l)
  {
    && At(tx, 0, HeadBytes(l.head))
    && At(tx, m.start, Encode(l.body, 1))
    && At(tx, m.bodyEnd, Encode(l.witnesses, 1))
    && At(tx, m.witnessEnd, EncodeAll(l.isValid, 1))
    && At(tx, m.auxStart, AuxSlotBytes(l.aux))
  }

  lemma LayoutItemsAt(l: TxLayout)
    requires LayoutOk(l)
    ensures ItemsAt(TxBytes(l), MarksOf(l), l)
  {
    PartsOfLayout(TxBytes(l), HeadBytes(l.head), Encode(l.body, 1), Encode(l.witnesses, 1), EncodeAll(l.isValid, 1),
                  AuxSlotBytes(l.aux), l.trailing);
  }

  /** The marks at which each part was passed over. */
  predicate PassedOver(tx: Bytes, m: Marks, h: Head)
    requires h.value >= 3
  {
    && ReadHead(tx, 0) == Some(HeadAt(h, m.start))
    && Skip(tx, m.start) == Some(m.bodyEnd)
    && Skip(tx, m.bodyEnd) == Some(m.witnessEnd)
    && SkipMany(tx, m.witnessEnd, h.value - 3) == Some(m.auxStart)
  }

  lemma ItemPassedOver(tx: Bytes, a: nat, b: nat, item: Item)
    requires WellFormed(item, 1) && At(tx, a, Encode(item, 1)) && b == a + |Encode(item, 1)|
    ensures Skip(tx, a) == Some(b)
  {
    EncodedIsSkipped(tx, a, item);
  }

  lemma ItemsPassedOver(tx: Bytes, a: nat, b: nat, items: seq<Item>, n: nat)
    requires AllWellFormed(items, 1) && At(tx, a, EncodeAll(items, 1)) && b == a + |EncodeAll(items, 1)| && n == |items|
    ensures SkipMany(tx, a, n) == Some(b)
  {
    EncodedAllSkipped(tx, a, items);
  }

  lemma LayoutPassedOver(tx: Bytes, m: Marks, l: TxLayout)
    requires LayoutOk(l) && m == MarksOf(l) && ItemsAt(tx, m, l)
    ensures l.head.value >= 3 && PassedOver(tx, m, l.head)
  {
    HeadReadAt(tx, 0, l.head, m.start);
    ItemPassedOver(tx, m.start, m.bodyEnd, l.body);
    ItemPassedOver(tx, m.bodyEnd, m.witnessEnd, l.witnesses);
    ItemsPassedOver(tx, m.witnessEnd, m.auxStart, l.isValid, l.head.value - 3);
  }

  lemma SliceOfParts(tx: Bytes, m: Marks, body: Bytes, witnesses: Bytes, aux: Option<Bytes>)
    requires TxMarks(tx) == Some(m) && SliceAuxiliary(tx, m.auxStart) == Some(aux)
    requires tx[m.start..m.bodyEnd] == body && tx[m.bodyEnd..m.witnessEnd] == witnesses
    ensures SliceTxComponents(tx) == Some(TxComponents(body, witnesses, aux))
  {
  }

  /** Every laid-out transaction is cut into its own items. */
  lemma LayoutSliced(l: TxLayout)
    requires LayoutOk(l)
    ensures SliceTxComponents(TxBytes(l)) == Some(ComponentsOf(l))
  {
    var tx, m, c := TxBytes(l), MarksOf(l), ComponentsOf(l);
    LayoutItemsAt(l);
    LayoutPassedOver(tx, m, l);
    MarksRead(tx, m);
    AuxiliarySliced(tx, m.auxStart, l.aux);
    SliceOfParts(tx, m, c.txBody, c.witnessSet, c.auxiliaryData);
  }

  lemma MarkedItems(tx: Bytes) returns (body: Item, witnesses: Item, isValid: seq<Item>)
    requires TxMarks(tx).Some?
    ensures var m := TxMarks(tx).value;
            && ValidHead(m.head)
            && m.head.mt == 4
            && m.head.value == 3 + |isValid|
            && |isValid| <= 1
            && WellFormed(body, 1)
            && WellFormed(witnesses, 1)
            && AllWellFormed(isValid, 1)
            && tx[0..m.start] == HeadBytes(m.head)
            && tx[m.start..m.bodyEnd] == Encode(body, 1)
            && tx[m.bodyEnd..m.witnessEnd] == Encode(witnesses, 1)
            && tx[m.witnessEnd..m.auxStart] == EncodeAll(isValid, 1)
  {
    var m := TxMarks(tx).value;
    ReadHeadSound(tx, 0);
    body := SkippedIsItem(tx, m.start);
    witnesses := SkippedIsItem(tx, m.bodyEnd);
    isValid := SkippedAreItems(tx, m.witnessEnd, m.head.value - 3);
  }

  /** Whatever is cut was laid out so. */
  lemma SlicedIsLayout(tx: Bytes) returns (l: TxLayout)
    requires SliceTxComponents(tx).Some?
    ensures LayoutOk(l) && tx == TxBytes(l)
  {
    var m := TxMarks(tx).value;
    var body, witnesses, isValid := MarkedItems(tx);
    var aux := AuxiliaryFound(tx, m.auxStart);
    var end := m.auxStart + |AuxSlotBytes(aux)|;
    l := TxLayout(m.head, body, witnesses, isValid, aux, tx[end..]);
    SixSlices(tx, m.start, m.bodyEnd, m.witnessEnd, m.auxStart, end);
  }

  lemma SixSlices(tx: Bytes, a: nat, b: nat, c: nat, d: nat, e: nat)
    requires a <= b <= c <= d <= e <= |tx|
    ensures tx == tx[0..a] + (tx[a..b] + (tx[b..c] + (tx[c..d] + (tx[d..e] + tx[e..]))))
  {
  }

  predicate LaidOutAs(tx: Bytes, c: TxComponents, l: TxLayout) {
    LayoutOk(l) && tx == TxBytes(l) && c == ComponentsOf(l)
  }

  /** Slicing yields `c` exactly on the transactions laid out from the items of `c`. */
  lemma SlicesExactlyLayouts(tx: Bytes, c: TxComponents)
    ensures SliceTxComponents(tx) == Some(c) <==> exists l :: LaidOutAs(tx, c, l)
  {
    if SliceTxComponents(tx) == Some(c) {
      var l := SlicedIsLayout(tx);
      LayoutSliced(l);
      assert LaidOutAs(tx, c, l);
    }
    if exists l :: LaidOutAs(tx, c, l) {
      var l :| LaidOutAs(tx, c, l);
      LayoutSliced(l);
    }
  }
}
