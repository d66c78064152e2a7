/** Records, their deterministic values, and by how much the size estimate of their shape exceeds the value's size. */
module EstimateBound {
  import opened Wrappers
  import opened ByteStrings
  import opened Cbor
  import opened KeyOrder
  import opened RecordSize
  import opened Estimate

  // ----- records -------------------------------------------------------------------

  /** A recipient's slot: `epk` or `kem_ct`, and the wrapped key. */
  datatype Slot = Slot(material: Bytes, wrap: Bytes)

  datatype Enc =
    | KemEnc(x25519: bool, nonce: Bytes, slots: seq<Slot>, slotsMac: Bytes)
    | PassphraseEnc(nonce: Bytes, salt: Bytes, m: nat, t: nat, p: nat)

  datatype Hash = Hash(alg: Bytes, digest: Bytes)

  datatype RecordItem = RecordItem(hashes: seq<Hash>, uris: seq<Bytes>, enc: Option<Enc>)

  datatype Merkle = Merkle(alg: Bytes, root: Bytes, leafCount: nat, uris: seq<Bytes>)

  datatype Record = Record(items: seq<RecordItem>, merkle: Option<Merkle>, supersedes: Option<Bytes>, coseSign1: Option<Bytes>)

  predicate EncSized(enc: Enc) {
    match enc
    case KemEnc(x25519, nonce, slots, slotsMac) =>
      && |nonce| == 24
      && |slotsMac| == 32
      && forall i :: 0 <= i < |slots| ==> |slots[i].material| == (if x25519 then 32 else 1120) && |slots[i].wrap| == 48
    case PassphraseEnc(nonce, salt, _, _, _) => |nonce| == 24
  }

  predicate ItemSized(item: RecordItem) {
    && (forall i :: 0 <= i < |item.hashes| ==> |item.hashes[i].digest| == 32)
    && (item.enc.Some? ==> EncSized(item.enc.value))
  }

  /** The fixed field widths of the format. */
  predicate RecordSized(r: Record) {
    && (forall i :: 0 <= i < |r.items| ==> ItemSized(r.items[i]))
    && (r.merkle.Some? ==> |r.merkle.value.root| == 32)
    && (r.supersedes.Some? ==> |r.supersedes.value| == 32)
    && (r.coseSign1.Some? ==> |r.coseSign1.value| == 109)
  }

  // ----- their shapes --------------------------------------------------------------

  function EncShapeOf(enc: Enc): EncShape {
    match enc
    case KemEnc(x25519, _, slots, _) => KemShape(x25519, |slots|)
    case PassphraseEnc(_, _, _, _, _) => PassphraseShape
  }

  function Algs(hashes: seq<Hash>): (r: seq<Bytes>)
    ensures |r| == |hashes|
  {
    if hashes == [] then [] else Algs(hashes[..|hashes| - 1]) + [hashes[|hashes| - 1].alg]
  }

  function ItemShapeOf(item: RecordItem): ItemShape {
    ItemShape(Algs(item.hashes), item.uris, if item.enc.Some? then Some(EncShapeOf(item.enc.value)) else None)
  }

  function ItemShapes(items: seq<RecordItem>): (r: seq<ItemShape>)
    ensures |r| == |items|
  {
    if items == [] then [] else ItemShapes(items[..|items| - 1]) + [ItemShapeOf(items[|items| - 1])]
  }

  function ShapeOf(r: Record): RecordShape {
    RecordShape(ItemShapes(r.items), r.coseSign1.Some?, r.supersedes.Some?,
                if r.merkle.Some? then Some(MerkleShape(r.merkle.value.alg, r.merkle.value.uris)) else None)
  }

  // ----- their encoded values ------------------------------------------------------

  function SlotValue(x25519: bool, s: Slot): Item {
    Map([Field(if x25519 then "epk" else "kem_ct", ByteString(s.material)), Field("wrap", ByteString(s.wrap))])
  }

  function SlotValues(x25519: bool, slots: seq<Slot>): (r: seq<Item>)
    ensures |r| == |slots|
  {
    if slots == [] then [] else [SlotValue(x25519, slots[0])] + SlotValues(x25519, slots[1..])
  }

  const AEAD_ID: string := "chacha20-poly1305-stream64k"

  /** The fields that every envelope begins with. */
  function Header(nonce: Bytes): seq<Entry> {
    [Field("scheme", UInt(1)), Field("aead", Text(Ascii(AEAD_ID))), Field("nonce", ByteString(nonce))]
  }

  function EncValue(enc: Enc): Item {
    match enc
    case KemEnc(x25519, nonce, slots, slotsMac) =>
      Map(Header(nonce)
          + [Field("kem", Text(Ascii(if x25519 then "x25519" else "mlkem768x25519"))),
             Field("slots_mac", ByteString(slotsMac)), Field("slots", Array(SlotValues(x25519, slots)))])
    case PassphraseEnc(nonce, salt, m, t, p) =>
      Map(Header(nonce) + [Field("passphrase", PassphraseValue(salt, m, t, p))])
  }

  function PassphraseValue(salt: Bytes, m: nat, t: nat, p: nat): Item {
    Map([Field("alg", Text(Ascii("argon2id"))), Field("salt", ByteString(salt)), Field("params", ParamsValue(m, t, p))])
  }

  function ParamsValue(m: nat, t: nat, p: nat): Item {
    Map([Field("m", UInt(m)), Field("t", UInt(t)), Field("p", UInt(p))])
  }

  function HashEntries(hashes: seq<Hash>): (r: seq<Entry>)
    ensures |r| == |hashes|
  {
    if hashes == [] then []
    else HashEntries(hashes[..|hashes| - 1]) + [Entry(Text(hashes[|hashes| - 1].alg), ByteString(hashes[|hashes| - 1].digest))]
  }

  function Texts(strings: seq<Bytes>): (r: seq<Item>)
    ensures |r| == |strings|
  {
    if strings == [] then [] else Texts(strings[..|strings| - 1]) + [Text(strings[|strings| - 1])]
  }

  /** Present fields only: empty URI lists and missing parts are omitted. */
  function When(present: bool, e: Entry): (r: seq<Entry>)
    ensures |r| == Flag(present)
  {
    if present then [e] else []
  }

  function ItemValue(item: RecordItem): Item {
    Map([Field("hashes", Map(HashEntries(item.hashes)))]
        + When(item.uris != [], Field("uris", Array(Texts(item.uris))))
        + When(item.enc.Some?, Field("enc", if item.enc.Some? then EncValue(item.enc.value) else UInt(0))))
  }

  function ItemValues(items: seq<RecordItem>): (r: seq<Item>)
    ensures |r| == |items|
  {
    if items == [] then [] else ItemValues(items[..|items| - 1]) + [ItemValue(items[|items| - 1])]
  }

  function MerkleValue(m: Merkle): Item {
    Array([Map([Field("alg", Text(m.alg)), Field("root", ByteString(m.root)), Field("leaf_count", UInt(m.leafCount))]
               + When(m.uris != [], Field("uris", Array(Texts(m.uris)))))])
  }

  function SigsValue(cose: Bytes): Item {
    Array([Map([Field("cose_sign1", ByteString(cose))])])
  }

  function RecordValue(r: Record): Item {
    Map([Field("v", UInt(1))]
        + When(r.items != [], Field("items", Array(ItemValues(r.items))))
        + When(r.merkle.Some?, Field("merkle", if r.merkle.Some? then MerkleValue(r.merkle.value) else UInt(0)))
        + When(r.supersedes.Some?, Field("supersedes", if r.supersedes.Some? then ByteString(r.supersedes.value) else UInt(0)))
        + When(r.coseSign1.Some?, Field("sigs", if r.coseSign1.Some? then SigsValue(r.coseSign1.value) else UInt(0))))
  }

  // ----- sizes, part by part -------------------------------------------------------

  lemma FieldSize(name: string, value: Item)
    ensures Size(Field(name, value).key) + Size(Field(name, value).value) == StrBytes(|name|) + Size(value)
  {
    StringSize(Ascii(name));
  }

  lemma TwoEntries(a: Entry, b: Entry)
    ensures EntrySizes([a, b]) == EntrySize(a) + EntrySize(b)
  {
    OneEntry(a);
    EntrySizesSnoc([a], b);
    assert [a] + [b] == [a, b];
  }

  lemma ThreeEntries(a: Entry, b: Entry, c: Entry)
    ensures EntrySizes([a, b, c]) == EntrySize(a) + EntrySize(b) + EntrySize(c)
  {
    TwoEntries(a, b);
    EntrySizesSnoc([a, b], c);
    assert [a, b] + [c] == [a, b, c];
  }

  lemma WhenSize(present: bool, e: Entry)
    ensures EntrySizes(When(present, e)) == if present then EntrySize(e) else 0
  {
    if present {
      OneEntry(e);
    }
  }

  lemma SlotSize(x25519: bool, s: Slot)
    requires |s.material| == (if x25519 then 32 else 1120) && |s.wrap| == 48
    ensures Size(SlotValue(x25519, s)) == SlotBytes(x25519)
  {
    hide Size, EntrySizes;
    var a, b := Field(if x25519 then "epk" else "kem_ct", ByteString(s.material)), Field("wrap", ByteString(s.wrap));
    MapSize([a, b]);
    TwoEntries(a, b);
    FieldSize(if x25519 then "epk" else "kem_ct", ByteString(s.material));
    FieldSize("wrap", ByteString(s.wrap));
    StringSize(s.material);
    StringSize(s.wrap);
  }

  lemma {:induction false} SlotsSize(x25519: bool, slots: seq<Slot>)
    requires forall i :: 0 <= i < |slots| ==> |slots[i].material| == (if x25519 then 32 else 1120) && |slots[i].wrap| == 48
    ensures Sizes(SlotValues(x25519, slots)) == SlotBytes(x25519) * |slots|
  {
    hide Size, EntrySizes, SlotBytes, SlotValue;
    if slots != [] {
      SlotSize(x25519, slots[0]);
      SlotsSize(x25519, slots[1..]);
      Times(|slots|, SlotBytes(x25519));
      assert ([SlotValue(x25519, slots[0])] + SlotValues(x25519, slots[1..]))[1..] == SlotValues(x25519, slots[1..]);
    }
  }

  /** How much more the estimate charges for an envelope than it takes; negative for an over-long passphrase block. */
  function EncSlack(enc: Enc): int {
    match enc
    case KemEnc(x25519, _, _, _) => if x25519 then 8 else 0
    case PassphraseEnc(_, salt, m, t, p) =>
      StrBytes(16) - StrBytes(|salt|) + HeaderLen(65536) - HeaderLen(m) + 1 - HeaderLen(t) + 1 - HeaderLen(p)
  }

  lemma HeaderSize(nonce: Bytes)
    requires |nonce| == 24
    ensures EntrySizes(Header(nonce)) == StrBytes(6) + HeaderLen(1) + StrBytes(4) + StrBytes(27) + StrBytes(5) + StrBytes(24)
  {
    hide Size, EntrySizes, Ascii;
    ThreeEntries(Field("scheme", UInt(1)), Field("aead", Text(Ascii(AEAD_ID))), Field("nonce", ByteString(nonce)));
    FieldSize("scheme", UInt(1));
    FieldSize("aead", Text(Ascii(AEAD_ID)));
    FieldSize("nonce", ByteString(nonce));
    UIntSize(1);
    StringSize(Ascii(AEAD_ID));
    StringSize(nonce);
  }

  lemma KemFieldsSize(kem: string, slotsMac: Bytes, slots: Item)
    requires |slotsMac| == 32
    ensures EntrySizes([Field("kem", Text(Ascii(kem))), Field("slots_mac", ByteString(slotsMac)), Field("slots", slots)])
            == StrBytes(3) + StrBytes(|kem|) + StrBytes(9) + StrBytes(32) + StrBytes(5) + Size(slots)
  {
    hide Size, EntrySizes, Ascii;
    ThreeEntries(Field("kem", Text(Ascii(kem))), Field("slots_mac", ByteString(slotsMac)), Field("slots", slots));
    FieldSize("kem", Text(Ascii(kem)));
    FieldSize("slots_mac", ByteString(slotsMac));
    FieldSize("slots", slots);
    StringSize(Ascii(kem));
    StringSize(slotsMac);
  }

  lemma KemEncSize(enc: Enc)
    requires enc.KemEnc? && EncSized(enc)
    ensures Size(EncValue(enc)) + EncSlack(enc) == EnvelopeBytes(EncShapeOf(enc))
  {
    hide Size, Sizes, EntrySizes, SlotBytes, Ascii, Header, Map;
    var kem := if enc.x25519 then "x25519" else "mlkem768x25519";
    var slots := Array(SlotValues(enc.x25519, enc.slots));
    var fields := [Field("kem", Text(Ascii(kem))), Field("slots_mac", ByteString(enc.slotsMac)), Field("slots", slots)];
    MapSize(Header(enc.nonce) + fields);
    EntrySizesAppend(Header(enc.nonce), fields);
    HeaderSize(enc.nonce);
    HeaderCount(enc.nonce);
    KemFieldsSize(kem, enc.slotsMac, slots);
    ArraySize(SlotValues(enc.x25519, enc.slots));
    SlotsSize(enc.x25519, enc.slots);
  }

  lemma HeaderCount(nonce: Bytes)
    ensures |Header(nonce)| == 3
  {
  }

  lemma ParamsSize(m: nat, t: nat, p: nat)
    ensures Size(ParamsValue(m, t, p)) == HeaderLen(3) + 3 * StrBytes(1) + HeaderLen(m) + HeaderLen(t) + HeaderLen(p)
  {
    hide Size, EntrySizes;
    MapSize([Field("m", UInt(m)), Field("t", UInt(t)), Field("p", UInt(p))]);
    ThreeEntries(Field("m", UInt(m)), Field("t", UInt(t)), Field("p", UInt(p)));
    FieldSize("m", UInt(m));
    FieldSize("t", UInt(t));
    FieldSize("p", UInt(p));
    UIntSize(m);
    UIntSize(t);
    UIntSize(p);
  }

  lemma PassphraseSize(salt: Bytes, m: nat, t: nat, p: nat)
    ensures Size(PassphraseValue(salt, m, t, p))
            == HeaderLen(3) + StrBytes(3) + StrBytes(8) + StrBytes(4) + StrBytes(|salt|) + StrBytes(6) + Size(ParamsValue(m, t, p))
  {
    hide Size, EntrySizes;
    var a, b, c := Field("alg", Text(Ascii("argon2id"))), Field("salt", ByteString(salt)), Field("params", ParamsValue(m, t, p));
    MapSize([a, b, c]);
    ThreeEntries(a, b, c);
    FieldSize("alg", Text(Ascii("argon2id")));
    FieldSize("salt", ByteString(salt));
    FieldSize("params", ParamsValue(m, t, p));
    StringSize(Ascii("argon2id"));
    StringSize(salt);
  }

  lemma PassphraseEncSize(enc: Enc)
    requires enc.PassphraseEnc? && EncSized(enc)
    ensures Size(EncValue(enc)) + EncSlack(enc) == EnvelopeBytes(EncShapeOf(enc))
  {
    hide Size, EntrySizes, Ascii, ParamsValue, PassphraseValue, Header, Map;
    var block := PassphraseValue(enc.salt, enc.m, enc.t, enc.p);
    MapSize(Header(enc.nonce) + [Field("passphrase", block)]);
    EntrySizesAppend(Header(enc.nonce), [Field("passphrase", block)]);
    HeaderSize(enc.nonce);
    HeaderCount(enc.nonce);
    OneEntry(Field("passphrase", block));
    FieldSize("passphrase", block);
    PassphraseSize(enc.salt, enc.m, enc.t, enc.p);
    ParamsSize(enc.m, enc.t, enc.p);
  }

  lemma EncSize(enc: Enc)
    requires EncSized(enc)
    ensures Size(EncValue(enc)) + EncSlack(enc) == EnvelopeBytes(EncShapeOf(enc))
  {
    if enc.KemEnc? {
      KemEncSize(enc);
    } else {
      PassphraseEncSize(enc);
    }
  }

  lemma {:induction false} TextsSize(strings: seq<Bytes>)
    ensures Sizes(Texts(strings)) == StringsTotal(strings)
  {
    hide Size;
    if strings != [] {
      var init, last := strings[..|strings| - 1], strings[|strings| - 1];
      TextsSize(init);
      SizesAppend(Texts(init), [Text(last)]);
      StringSize(last);
      SizesOne(Text(last));
    }
  }

  lemma SizesOne(item: Item)
    ensures Sizes([item]) == Size(item)
  {
    assert Sizes([item]) == Size(item) + Sizes([item][1..]);
    assert [item][1..] == [];
  }

  lemma UrisSize(uris: seq<Bytes>)
    ensures EntrySizes(When(uris != [], Field("uris", Array(Texts(uris))))) == UrisBytes(uris)
  {
    hide Size, Sizes, EntrySizes, When;
    var e := Field("uris", Array(Texts(uris)));
    WhenSize(uris != [], e);
    FieldSize("uris", Array(Texts(uris)));
    ArraySize(Texts(uris));
    TextsSize(uris);
  }

  lemma {:induction false} HashesSize(hashes: seq<Hash>)
    requires forall i :: 0 <= i < |hashes| ==> |hashes[i].digest| == 32
    ensures EntrySizes(HashEntries(hashes)) == HashesTotal(Algs(hashes))
  {
    hide Size;
    if hashes != [] {
      var init, last := hashes[..|hashes| - 1], hashes[|hashes| - 1];
      HashesSize(init);
      EntrySizesSnoc(HashEntries(init), Entry(Text(last.alg), ByteString(last.digest)));
      StringSize(last.alg);
      StringSize(last.digest);
      assert (Algs(init) + [last.alg])[..|init|] == Algs(init);
    }
  }

  function ItemSlack(item: RecordItem): int {
    if item.enc.Some? then EncSlack(item.enc.value) else 0
  }

  lemma ItemSize(item: RecordItem)
    requires ItemSized(item)
    ensures Size(ItemValue(item)) + ItemSlack(item) == ItemBytes(ItemShapeOf(item))
  {
    hide Size, EntrySizes, HashEntries, EncValue, When, EncSlack, EnvelopeBytes, HashesTotal, UrisBytes;
    var a := Field("hashes", Map(HashEntries(item.hashes)));
    var u := When(item.uris != [], Field("uris", Array(Texts(item.uris))));
    var value := if item.enc.Some? then EncValue(item.enc.value) else UInt(0);
    var e := When(item.enc.Some?, Field("enc", value));
    MapSize([a] + u + e);
    EntrySizesAppend([a] + u, e);
    EntrySizesAppend([a], u);
    OneEntry(a);
    FieldSize("hashes", Map(HashEntries(item.hashes)));
    MapSize(HashEntries(item.hashes));
    HashesSize(item.hashes);
    UrisSize(item.uris);
    WhenSize(item.enc.Some?, Field("enc", value));
    FieldSize("enc", value);
    if item.enc.Some? {
      EncSize(item.enc.value);
    }
  }

  function ItemsSlack(items: seq<RecordItem>): int {
    if items == [] then 0 else ItemsSlack(items[..|items| - 1]) + ItemSlack(items[|items| - 1])
  }

  lemma {:induction false} ItemsSize(items: seq<RecordItem>)
    requires forall i :: 0 <= i < |items| ==> ItemSized(items[i])
    ensures Sizes(ItemValues(items)) + ItemsSlack(items) == ItemsTotal(ItemShapes(items))
  {
    hide Size, ItemValue, ItemBytes, ItemShapeOf, ItemSlack, ItemSized;
    if items != [] {
      var init, last := items[..|items| - 1], items[|items| - 1];
      ItemsSize(init);
      ItemSize(last);
      SizesAppend(ItemValues(init), [ItemValue(last)]);
      SizesOne(ItemValue(last));
      assert (ItemShapes(init) + [ItemShapeOf(last)])[..|init|] == ItemShapes(init);
    }
  }

  lemma MerkleSize(m: Merkle)
    requires |m.root| == 32
    ensures StrBytes(6) + Size(MerkleValue(m)) + 9 - HeaderLen(m.leafCount) == MerkleBytes(MerkleShape(m.alg, m.uris))
  {
    hide Size, Sizes, EntrySizes, When, UrisBytes;
    var a, b, c := Field("alg", Text(m.alg)), Field("root", ByteString(m.root)), Field("leaf_count", UInt(m.leafCount));
    var u := When(m.uris != [], Field("uris", Array(Texts(m.uris))));
    var commit := Map([a, b, c] + u);
    ArraySize([commit]);
    SizesOne(commit);
    MapSize([a, b, c] + u);
    EntrySizesAppend([a, b, c], u);
    ThreeEntries(a, b, c);
    FieldSize("alg", Text(m.alg));
    FieldSize("root", ByteString(m.root));
    FieldSize("leaf_count", UInt(m.leafCount));
    StringSize(m.alg);
    StringSize(m.root);
    UIntSize(m.leafCount);
    UrisSize(m.uris);
  }

  lemma SigsSize(cose: Bytes)
    requires |cose| == 109
    ensures Size(SigsValue(cose)) == HeaderLen(1) + HeaderLen(1) + StrBytes(10) + StrBytes(109)
  {
    hide Size, Sizes, EntrySizes;
    var e := Field("cose_sign1", ByteString(cose));
    ArraySize([Map([e])]);
    SizesOne(Map([e]));
    MapSize([e]);
    OneEntry(e);
    FieldSize("cose_sign1", ByteString(cose));
    StringSize(cose);
  }

  // ----- the estimate --------------------------------------------------------------

  function MerkleSlack(m: Option<Merkle>): nat {
    if m.Some? then 9 - HeaderLen(m.value.leafCount) else 0
  }

  function Slack(r: Record): int {
    SAFETY_MARGIN + ItemsSlack(r.items) + MerkleSlack(r.merkle)
  }

  lemma ItemsFieldSize(r: Record)
    requires RecordSized(r)
    ensures EntrySizes(When(r.items != [], Field("items", Array(ItemValues(r.items))))) + ItemsSlack(r.items)
            == if r.items != [] then StrBytes(5) + HeaderLen(|r.items|) + ItemsTotal(ItemShapes(r.items)) else 0
  {
    hide Size, Sizes, EntrySizes, When, ItemValues, ItemsTotal;
    var value := Array(ItemValues(r.items));
    WhenSize(r.items != [], Field("items", value));
    FieldSize("items", value);
    ArraySize(ItemValues(r.items));
    ItemsSize(r.items);
  }

  lemma MerkleFieldSize(r: Record)
    requires RecordSized(r)
    ensures var value := if r.merkle.Some? then MerkleValue(r.merkle.value) else UInt(0);
            EntrySizes(When(r.merkle.Some?, Field("merkle", value))) + MerkleSlack(r.merkle)
            == if r.merkle.Some? then MerkleBytes(MerkleShape(r.merkle.value.alg, r.merkle.value.uris)) else 0
  {
    hide Size, EntrySizes, When, MerkleBytes, MerkleValue;
    var value := if r.merkle.Some? then MerkleValue(r.merkle.value) else UInt(0);
    WhenSize(r.merkle.Some?, Field("merkle", value));
    FieldSize("merkle", value);
    if r.merkle.Some? {
      MerkleSize(r.merkle.value);
    }
  }

  lemma SupersedesFieldSize(r: Record)
    requires RecordSized(r)
    ensures var value := if r.supersedes.Some? then ByteString(r.supersedes.value) else UInt(0);
            EntrySizes(When(r.supersedes.Some?, Field("supersedes", value))) == if r.supersedes.Some? then StrBytes(10) + StrBytes(32) else 0
  {
    hide Size, EntrySizes, When;
    var value := if r.supersedes.Some? then ByteString(r.supersedes.value) else UInt(0);
    WhenSize(r.supersedes.Some?, Field("supersedes", value));
    FieldSize("supersedes", value);
    if r.supersedes.Some? {
      StringSize(r.supersedes.value);
    }
  }

  lemma SigsFieldSize(r: Record)
    requires RecordSized(r)
    ensures var value := if r.coseSign1.Some? then SigsValue(r.coseSign1.value) else UInt(0);
            EntrySizes(When(r.coseSign1.Some?, Field("sigs", value)))
            == if r.coseSign1.Some? then StrBytes(4) + HeaderLen(1) + HeaderLen(1) + StrBytes(10) + StrBytes(109) else 0
  {
    hide Size, EntrySizes, When, SigsValue;
    var value := if r.coseSign1.Some? then SigsValue(r.coseSign1.value) else UInt(0);
    WhenSize(r.coseSign1.Some?, Field("sigs", value));
    FieldSize("sigs", value);
    if r.coseSign1.Some? {
      SigsSize(r.coseSign1.value);
    }
  }

  /** The estimate is the encoded size plus this slack, for every record of the format's widths. */
  lemma EstimateIsSizePlusSlack(r: Record)
    requires RecordSized(r)
    ensures EstimateRecordBytes(ShapeOf(r)) == Size(RecordValue(r)) + Slack(r)
  {
    hide Size, EntrySizes, When, ItemsTotal, MerkleBytes, MerkleValue, SigsValue, ItemValues, ItemsSlack, MerkleSlack, RecordSized;
    var v := Field("v", UInt(1));
    var items := When(r.items != [], Field("items", Array(ItemValues(r.items))));
    var merkle := When(r.merkle.Some?, Field("merkle", if r.merkle.Some? then MerkleValue(r.merkle.value) else UInt(0)));
    var supersedes := When(r.supersedes.Some?, Field("supersedes", if r.supersedes.Some? then ByteString(r.supersedes.value) else UInt(0)));
    var sigs := When(r.coseSign1.Some?, Field("sigs", if r.coseSign1.Some? then SigsValue(r.coseSign1.value) else UInt(0)));
    MapSize([v] + items + merkle + supersedes + sigs);
    EntrySizesAppend([v] + items + merkle + supersedes, sigs);
    EntrySizesAppend([v] + items + merkle, supersedes);
    EntrySizesAppend([v] + items, merkle);
    EntrySizesAppend([v], items);
    OneEntry(v);
    FieldSize("v", UInt(1));
    UIntSize(1);
    ItemsFieldSize(r);
    MerkleFieldSize(r);
    SupersedesFieldSize(r);
    SigsFieldSize(r);
  }
}
