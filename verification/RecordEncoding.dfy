/** The deterministic encoding of a record, and exactly when the size estimate bounds its length. */
module RecordEncoding {
  import opened Wrappers
  import opened ByteStrings
  import opened Cbor
  import opened CanonicalScan
  import opened KeyOrder
  import opened RecordSize
  import opened Estimate
  import opened EstimateBound

  // ----- what can be encoded -------------------------------------------------------

  predicate StringsFit(strings: seq<Bytes>) {
    |strings| < LIMIT && forall i :: 0 <= i < |strings| ==> |strings[i]| < LIMIT
  }

  predicate EncFits(enc: Enc) {
    match enc
    case KemEnc(_, _, slots, _) => |slots| < LIMIT
    case PassphraseEnc(_, salt, m, t, p) => |salt| < LIMIT && m < LIMIT && t < LIMIT && p < LIMIT
  }

  predicate DistinctAlgs(hashes: seq<Hash>) {
    forall i, j :: 0 <= i < j < |hashes| ==> hashes[i].alg != hashes[j].alg
  }

  /** The hashes are a dictionary: one digest an algorithm. */
  predicate ItemFits(item: RecordItem) {
    && |item.hashes| < LIMIT
    && (forall i :: 0 <= i < |item.hashes| ==> |item.hashes[i].alg| < LIMIT)
    && DistinctAlgs(item.hashes)
    && StringsFit(item.uris)
    && (item.enc.Some? ==> EncFits(item.enc.value))
  }

  /** Every count, length and number fits the 64-bit argument of a head. */
  predicate Encodable(r: Record) {
    && |r.items| < LIMIT
    && (forall i :: 0 <= i < |r.items| ==> ItemFits(r.items[i]))
    && (r.merkle.Some? ==> |r.merkle.value.alg| < LIMIT && r.merkle.value.leafCount < LIMIT && StringsFit(r.merkle.value.uris))
  }

  // ----- fields and their keys -----------------------------------------------------

  predicate AsciiText(s: string) {
    |s| < 64 && forall i :: 0 <= i < |s| ==> s[i] as int < 256
  }

  lemma {:induction false} AsciiInjective(a: string, b: string)
    requires AsciiText(a) && AsciiText(b) && Ascii(a) == Ascii(b)
    ensures a == b
    decreases |a|
  {
    if a != "" {
      var n := |a| - 1;
      assert |b| == |a|;
      assert Ascii(a)[n] == a[n] as int % 256 && Ascii(b)[n] == b[n] as int % 256;
      assert Ascii(a)[..n] == Ascii(a[..n]) && Ascii(b)[..n] == Ascii(b[..n]);
      AsciiInjective(a[..n], b[..n]);
      assert a == a[..n] + [a[n]] && b == b[..n] + [b[n]];
    }
  }

  lemma TextDeterministic(b: Bytes)
    requires |b| < LIMIT
    ensures Deterministic(Text(b)) && Deterministic(ByteString(b))
  {
    LeafDeterministic(3, |b|, b);
    LeafDeterministic(2, |b|, b);
  }

  lemma UIntDeterministic(n: nat)
    requires n < LIMIT
    ensures Deterministic(UInt(n))
  {
    LeafDeterministic(0, n, []);
  }

  /** Texts with one encoding are one text: the heads tell the lengths. */
  lemma SameText(a: Bytes, b: Bytes, v: Item, w: Item)
    requires |a| < LIMIT && |b| < LIMIT && KeyBytes(Entry(Text(a), v)) == KeyBytes(Entry(Text(b), w))
    ensures a == b
  {
    TextBytes(a, v);
    TextBytes(b, w);
    hide HeadBytes, KeyBytes, ShortestHead;
    var x, y := HeadBytes(ShortestHead(3, |a|)), HeadBytes(ShortestHead(3, |b|));
    HeadAtStart(a, x + a);
    HeadAtStart(b, y + b);
    assert (x + a)[|x|..] == a && (y + b)[|y|..] == b;
  }

  lemma TextBytes(b: Bytes, v: Item)
    requires |b| < LIMIT
    ensures KeyBytes(Entry(Text(b), v)) == HeadBytes(ShortestHead(3, |b|)) + b
  {
    TextDeterministic(b);
    assert EncodeAll([], 0) == [];
  }

  lemma HeadAtStart(b: Bytes, whole: Bytes)
    requires |b| < LIMIT && whole == HeadBytes(ShortestHead(3, |b|)) + b
    ensures ReadHead(whole, 0) == Some(HeadAt(ShortestHead(3, |b|), |HeadBytes(ShortestHead(3, |b|))|))
    ensures ShortestHead(3, |b|).value == |b|
  {
    hide HeadBytes;
    ShortestIsValid(3, |b|);
    ReadHeadComplete(whole, 0, ShortestHead(3, |b|));
  }

  /** A named field differs in its key from every field of another name. */
  lemma FieldsDiffer(a: string, v: Item, b: string, w: Item)
    requires AsciiText(a) && AsciiText(b) && a != b
    ensures KeyBytes(Field(a, v)) != KeyBytes(Field(b, w))
  {
    hide KeyBytes;
    if KeyBytes(Field(a, v)) == KeyBytes(Field(b, w)) {
      SameText(Ascii(a), Ascii(b), v, w);
      AsciiInjective(a, b);
    }
  }

  predicate Named(e: Entry, name: string) {
    AsciiText(name) && e == Field(name, e.value)
  }

  predicate AmongNames(e: Entry, names: seq<string>) {
    exists k :: 0 <= k < |names| && Named(e, names[k])
  }

  /** Deterministic fields under distinct keys, all with names of this list. */
  predicate FieldsOf(entries: seq<Entry>, names: seq<string>) {
    && DistinctKeys(entries)
    && EntriesDeterministic(entries)
    && forall i :: 0 <= i < |entries| ==> AmongNames(entries[i], names)
  }

  lemma NewName(name: string, v: Item, rest: seq<Entry>, names: seq<string>)
    requires AsciiText(name) && name !in names && FieldsOf(rest, names)
    ensures NewKey(Field(name, v), rest)
  {
    hide KeyBytes, AsciiText, Field, DistinctKeys, EntriesDeterministic;
    forall i | 0 <= i < |rest| ensures KeyBytes(rest[i]) != KeyBytes(Field(name, v)) {
      assert AmongNames(rest[i], names);
      var k :| 0 <= k < |names| && Named(rest[i], names[k]);
      FieldsDiffer(names[k], rest[i].value, name, v);
    }
  }

  lemma FieldDeterministic(name: string, v: Item)
    requires AsciiText(name) && Deterministic(v)
    ensures EntryDeterministic(Field(name, v))
  {
    TextDeterministic(Ascii(name));
  }

  /** One more field, if it is present at all, under a name not yet taken. */
  lemma AddField(present: bool, name: string, v: Item, rest: seq<Entry>, names: seq<string>)
    requires AsciiText(name) && name !in names && FieldsOf(rest, names) && (present ==> Deterministic(v))
    ensures FieldsOf(When(present, Field(name, v)) + rest, [name] + names)
    ensures |When(present, Field(name, v)) + rest| <= 1 + |rest|
  {
    hide KeyBytes, AsciiText, Field, NewKey, Deterministic;
    var entries, all := When(present, Field(name, v)) + rest, [name] + names;
    var n := |When(present, Field(name, v))|;
    forall i | 0 <= i < |rest| ensures AmongNames(rest[i], all) {
      assert AmongNames(rest[i], names);
      var k :| 0 <= k < |names| && Named(rest[i], names[k]);
      assert all[k + 1] == names[k];
    }
    assert forall i :: n <= i < |entries| ==> entries[i] == rest[i - n];
    if present {
      NewName(name, v, rest, names);
      FieldDeterministic(name, v);
      FieldIsNamed(name, v);
      assert all[0] == name && entries[0] == Field(name, v) && entries[1..] == rest;
    } else {
      assert entries == rest;
    }
  }

  lemma FieldIsNamed(name: string, v: Item)
    requires AsciiText(name)
    ensures Named(Field(name, v), name)
  {
  }

  lemma NoFields()
    ensures FieldsOf([], [])
  {
  }

  lemma FieldsDeterministic(entries: seq<Entry>, names: seq<string>)
    requires FieldsOf(entries, names) && |entries| < LIMIT
    ensures Deterministic(Map(entries))
  {
    hide Deterministic, Map;
    MapDeterministic(entries);
  }

  lemma AddPresent(name: string, v: Item, rest: seq<Entry>, names: seq<string>, all: seq<Entry>)
    requires AsciiText(name) && name !in names && FieldsOf(rest, names) && Deterministic(v)
    requires all == [Field(name, v)] + rest
    ensures FieldsOf(all, [name] + names)
  {
    hide FieldsOf, Deterministic, Field, AsciiText;
    AddField(true, name, v, rest, names);
  }

  /** The one-field, two-field and three-field maps of the format. */
  lemma Fields1(a: string, v: Item)
    requires AsciiText(a) && Deterministic(v)
    ensures FieldsOf([Field(a, v)], [a])
  {
    hide FieldsOf, Deterministic, Field, AsciiText;
    NoFields();
    AddPresent(a, v, [], [], [Field(a, v)]);
    assert [a] + [] == [a];
  }

  lemma Fields2(a: string, v: Item, b: string, w: Item)
    requires AsciiText(a) && AsciiText(b) && a != b && Deterministic(v) && Deterministic(w)
    ensures FieldsOf([Field(a, v), Field(b, w)], [a, b])
  {
    hide FieldsOf, Deterministic, Field, AsciiText;
    Fields1(b, w);
    AddPresent(a, v, [Field(b, w)], [b], [Field(a, v), Field(b, w)]);
    assert [a] + [b] == [a, b];
  }

  lemma Fields3(a: string, u: Item, b: string, v: Item, c: string, w: Item)
    requires AsciiText(a) && AsciiText(b) && AsciiText(c) && a != b && a != c && b != c
    requires Deterministic(u) && Deterministic(v) && Deterministic(w)
    ensures FieldsOf([Field(a, u), Field(b, v), Field(c, w)], [a, b, c])
  {
    hide FieldsOf, Deterministic, Field, AsciiText;
    Fields2(b, v, c, w);
    AddPresent(a, u, [Field(b, v), Field(c, w)], [b, c], [Field(a, u), Field(b, v), Field(c, w)]);
    assert [a] + [b, c] == [a, b, c];
  }

  // ----- the values of a record ----------------------------------------------------

  lemma SlotDeterministic(x25519: bool, s: Slot)
    requires |s.material| == (if x25519 then 32 else 1120) && |s.wrap| == 48
    ensures Deterministic(SlotValue(x25519, s))
  {
    hide FieldsOf, Deterministic, Field, Map;
    TextDeterministic(s.material);
    TextDeterministic(s.wrap);
    var name := if x25519 then "epk" else "kem_ct";
    Fields2(name, ByteString(s.material), "wrap", ByteString(s.wrap));
    FieldsDeterministic([Field(name, ByteString(s.material)), Field("wrap", ByteString(s.wrap))], [name, "wrap"]);
  }

  lemma {:induction false} SlotsDeterministic(x25519: bool, slots: seq<Slot>)
    requires forall i :: 0 <= i < |slots| ==> |slots[i].material| == (if x25519 then 32 else 1120) && |slots[i].wrap| == 48
    ensures AllDeterministic(SlotValues(x25519, slots))
    decreases |slots|
  {
    hide Deterministic, SlotValue;
    if slots != [] {
      SlotDeterministic(x25519, slots[0]);
      SlotsDeterministic(x25519, slots[1..]);
    }
  }

  lemma KemEncDeterministic(enc: Enc)
    requires enc.KemEnc? && EncSized(enc) && EncFits(enc)
    ensures Deterministic(EncValue(enc))
  {
    hide FieldsOf, Deterministic, Field, Map, AsciiText;
    var kem := Ascii(if enc.x25519 then "x25519" else "mlkem768x25519");
    var slots := SlotValues(enc.x25519, enc.slots);
    ShortNames();
    UIntDeterministic(1);
    TextDeterministic(Ascii(AEAD_ID));
    TextDeterministic(enc.nonce);
    TextDeterministic(kem);
    TextDeterministic(enc.slotsMac);
    SlotsDeterministic(enc.x25519, enc.slots);
    ArrayDeterministic(slots);
    var d, e, f := Field("kem", Text(kem)), Field("slots_mac", ByteString(enc.slotsMac)), Field("slots", Array(slots));
    Fields3("kem", Text(kem), "slots_mac", ByteString(enc.slotsMac), "slots", Array(slots));
    HeaderFields(enc.nonce, [d, e, f], ["kem", "slots_mac", "slots"]);
  }

  lemma ShortNames()
    ensures AsciiText("scheme") && AsciiText("aead") && AsciiText("nonce") && AsciiText("kem") && AsciiText("slots_mac")
    ensures AsciiText("slots") && AsciiText("passphrase") && "nonce"[0] != "slots"[0]
    ensures AsciiText("alg") && AsciiText("salt") && AsciiText("params") && AsciiText("m") && AsciiText("t") && AsciiText("p")
    ensures AsciiText("hashes") && AsciiText("uris") && AsciiText("enc") && AsciiText("root") && AsciiText("leaf_count")
    ensures AsciiText("v") && AsciiText("items") && AsciiText("merkle") && AsciiText("supersedes") && AsciiText("sigs")
    ensures AsciiText("cose_sign1") && "root"[0] != "uris"[0]
  {
  }

  lemma HeaderFields(nonce: Bytes, rest: seq<Entry>, names: seq<string>)
    requires |nonce| == 24 && FieldsOf(rest, names) && |rest| <= 3
    requires "scheme" !in names && "aead" !in names && "nonce" !in names
    ensures Deterministic(Map(Header(nonce) + rest))
  {
    hide FieldsOf, Deterministic, Field, Map, AsciiText;
    ShortNames();
    UIntDeterministic(1);
    TextDeterministic(Ascii(AEAD_ID));
    TextDeterministic(nonce);
    var a, b, c := Field("scheme", UInt(1)), Field("aead", Text(Ascii(AEAD_ID))), Field("nonce", ByteString(nonce));
    AddPresent("nonce", ByteString(nonce), rest, names, [c] + rest);
    AddPresent("aead", Text(Ascii(AEAD_ID)), [c] + rest, ["nonce"] + names, [b] + ([c] + rest));
    AddPresent("scheme", UInt(1), [b] + ([c] + rest), ["aead"] + (["nonce"] + names), [a] + ([b] + ([c] + rest)));
    assert Header(nonce) + rest == [a] + ([b] + ([c] + rest));
    FieldsDeterministic(Header(nonce) + rest, ["scheme"] + (["aead"] + (["nonce"] + names)));
  }

  lemma PassphraseEncDeterministic(enc: Enc)
    requires enc.PassphraseEnc? && EncSized(enc) && EncFits(enc)
    ensures Deterministic(EncValue(enc))
  {
    hide FieldsOf, Deterministic, Field, Map, AsciiText, PassphraseValue;
    ShortNames();
    var block := PassphraseValue(enc.salt, enc.m, enc.t, enc.p);
    BlockDeterministic(enc.salt, enc.m, enc.t, enc.p);
    Fields1("passphrase", block);
    HeaderFields(enc.nonce, [Field("passphrase", block)], ["passphrase"]);
  }

  lemma BlockDeterministic(salt: Bytes, m: nat, t: nat, p: nat)
    requires |salt| < LIMIT && m < LIMIT && t < LIMIT && p < LIMIT
    ensures Deterministic(PassphraseValue(salt, m, t, p))
  {
    hide FieldsOf, Deterministic, Field, Map, AsciiText;
    ShortNames();
    UIntDeterministic(m);
    UIntDeterministic(t);
    UIntDeterministic(p);
    Fields3("m", UInt(m), "t", UInt(t), "p", UInt(p));
    FieldsDeterministic([Field("m", UInt(m)), Field("t", UInt(t)), Field("p", UInt(p))], ["m", "t", "p"]);
    TextDeterministic(Ascii("argon2id"));
    TextDeterministic(salt);
    var params := ParamsValue(m, t, p);
    Fields3("alg", Text(Ascii("argon2id")), "salt", ByteString(salt), "params", params);
    FieldsDeterministic([Field("alg", Text(Ascii("argon2id"))), Field("salt", ByteString(salt)), Field("params", params)],
                        ["alg", "salt", "params"]);
  }

  lemma EncDeterministic(enc: Enc)
    requires EncSized(enc) && EncFits(enc)
    ensures Deterministic(EncValue(enc))
  {
    if enc.KemEnc? {
      KemEncDeterministic(enc);
    } else {
      PassphraseEncDeterministic(enc);
    }
  }

  lemma {:induction false} TextsDeterministic(strings: seq<Bytes>)
    requires forall i :: 0 <= i < |strings| ==> |strings[i]| < LIMIT
    ensures AllDeterministic(Texts(strings))
    decreases |strings|
  {
    hide Deterministic;
    if strings != [] {
      TextsDeterministic(strings[..|strings| - 1]);
      TextDeterministic(strings[|strings| - 1]);
    }
  }

  lemma UrisDeterministic(uris: seq<Bytes>)
    requires StringsFit(uris)
    ensures Deterministic(Array(Texts(uris)))
  {
    TextsDeterministic(uris);
    ArrayDeterministic(Texts(uris));
  }

  lemma HashEntryAt(hashes: seq<Hash>, i: nat)
    requires i < |hashes|
    ensures HashEntries(hashes)[i] == Entry(Text(hashes[i].alg), ByteString(hashes[i].digest))
  {
    var n := |hashes| - 1;
    if i < n {
      HashEntryAt(hashes[..n], i);
    }
  }

  lemma {:induction false} PairwiseDistinctKeys(entries: seq<Entry>)
    requires forall i, j :: 0 <= i < j < |entries| ==> KeyBytes(entries[i]) != KeyBytes(entries[j])
    ensures DistinctKeys(entries)
    decreases |entries|
  {
    hide KeyBytes;
    if entries != [] {
      PairwiseDistinctKeys(entries[1..]);
    }
  }

  lemma HashesDeterministic(hashes: seq<Hash>)
    requires |hashes| < LIMIT && DistinctAlgs(hashes)
    requires forall i :: 0 <= i < |hashes| ==> |hashes[i].alg| < LIMIT && |hashes[i].digest| == 32
    ensures Deterministic(Map(HashEntries(hashes)))
  {
    hide KeyBytes, Deterministic, HashEntries, Map;
    var entries := HashEntries(hashes);
    forall i, j | 0 <= i < j < |entries| ensures KeyBytes(entries[i]) != KeyBytes(entries[j]) {
      HashEntryAt(hashes, i);
      HashEntryAt(hashes, j);
      if KeyBytes(entries[i]) == KeyBytes(entries[j]) {
        SameText(hashes[i].alg, hashes[j].alg, entries[i].value, entries[j].value);
      }
    }
    PairwiseDistinctKeys(entries);
    forall i | 0 <= i < |entries| ensures EntryDeterministic(entries[i]) {
      HashEntryAt(hashes, i);
      TextDeterministic(hashes[i].alg);
      TextDeterministic(hashes[i].digest);
    }
    MapDeterministic(entries);
  }

  lemma ItemDeterministic(item: RecordItem)
    requires ItemSized(item) && ItemFits(item)
    ensures Deterministic(ItemValue(item))
  {
    hide FieldsOf, Deterministic, Field, Map, AsciiText, HashEntries, EncValue, EncSized, EncFits, DistinctAlgs, When;
    ShortNames();
    HashesDeterministic(item.hashes);
    var hashes, uris := Map(HashEntries(item.hashes)), Array(Texts(item.uris));
    var enc := if item.enc.Some? then EncValue(item.enc.value) else UInt(0);
    UrisDeterministic(item.uris);
    if item.enc.Some? {
      EncDeterministic(item.enc.value);
    }
    NoFields();
    AddField(item.enc.Some?, "enc", enc, [], []);
    var e := When(item.enc.Some?, Field("enc", enc));
    var u := When(item.uris != [], Field("uris", uris));
    assert e + [] == e;
    AddField(item.uris != [], "uris", uris, e, ["enc"] + []);
    AddPresent("hashes", hashes, u + e, ["uris"] + (["enc"] + []), [Field("hashes", hashes)] + (u + e));
    assert [Field("hashes", hashes)] + u + e == [Field("hashes", hashes)] + (u + e);
    FieldsDeterministic([Field("hashes", hashes)] + u + e, ["hashes"] + (["uris"] + (["enc"] + [])));
  }

  lemma {:induction false} ItemsDeterministic(items: seq<RecordItem>)
    requires forall i :: 0 <= i < |items| ==> ItemSized(items[i]) && ItemFits(items[i])
    ensures AllDeterministic(ItemValues(items))
    decreases |items|
  {
    hide Deterministic, ItemValue, ItemSized, ItemFits;
    if items != [] {
      ItemsDeterministic(items[..|items| - 1]);
      ItemDeterministic(items[|items| - 1]);
    }
  }

  lemma MerkleDeterministic(m: Merkle)
    requires |m.root| == 32 && |m.alg| < LIMIT && m.leafCount < LIMIT && StringsFit(m.uris)
    ensures Deterministic(MerkleValue(m))
  {
    hide FieldsOf, Deterministic, Field, Map, AsciiText, When;
    ShortNames();
    TextDeterministic(m.alg);
    TextDeterministic(m.root);
    UIntDeterministic(m.leafCount);
    UrisDeterministic(m.uris);
    NoFields();
    var uris := Array(Texts(m.uris));
    var u := When(m.uris != [], Field("uris", uris));
    var a, b, c := Field("alg", Text(m.alg)), Field("root", ByteString(m.root)), Field("leaf_count", UInt(m.leafCount));
    AddField(m.uris != [], "uris", uris, [], []);
    assert u + [] == u;
    AddPresent("leaf_count", UInt(m.leafCount), u, ["uris"] + [], [c] + u);
    AddPresent("root", ByteString(m.root), [c] + u, ["leaf_count"] + (["uris"] + []), [b] + ([c] + u));
    AddPresent("alg", Text(m.alg), [b] + ([c] + u), ["root"] + (["leaf_count"] + (["uris"] + [])), [a] + ([b] + ([c] + u)));
    assert [a, b, c] + u == [a] + ([b] + ([c] + u));
    FieldsDeterministic([a, b, c] + u, ["alg"] + (["root"] + (["leaf_count"] + (["uris"] + []))));
    OneDeterministic(Map([a, b, c] + u));
  }

  lemma OneDeterministic(item: Item)
    requires Deterministic(item)
    ensures Deterministic(Array([item]))
  {
    hide Deterministic;
    assert AllDeterministic([item]);
    ArrayDeterministic([item]);
  }

  lemma SigsDeterministic(cose: Bytes)
    requires |cose| == 109
    ensures Deterministic(SigsValue(cose))
  {
    hide FieldsOf, Deterministic, Field, Map, AsciiText;
    ShortNames();
    TextDeterministic(cose);
    Fields1("cose_sign1", ByteString(cose));
    FieldsDeterministic([Field("cose_sign1", ByteString(cose))], ["cose_sign1"]);
    OneDeterministic(Map([Field("cose_sign1", ByteString(cose))]));
  }

  /** Four optional fields behind the version, in the order the builder gives them. */
  lemma RecordFields(hasItems: bool, items: Item, hasMerkle: bool, merkle: Item, hasSupersedes: bool, supersedes: Item,
                     hasSigs: bool, sigs: Item)
    requires hasItems ==> Deterministic(items)
    requires hasMerkle ==> Deterministic(merkle)
    requires hasSupersedes ==> Deterministic(supersedes)
    requires hasSigs ==> Deterministic(sigs)
    ensures Deterministic(Map([Field("v", UInt(1))] + When(hasItems, Field("items", items)) + When(hasMerkle, Field("merkle", merkle))
                              + When(hasSupersedes, Field("supersedes", supersedes)) + When(hasSigs, Field("sigs", sigs))))
  {
    hide FieldsOf, Deterministic, Field, Map, AsciiText, When;
    ShortNames();
    UIntDeterministic(1);
    NoFields();
    var v, i, m := [Field("v", UInt(1))], When(hasItems, Field("items", items)), When(hasMerkle, Field("merkle", merkle));
    var s, g := When(hasSupersedes, Field("supersedes", supersedes)), When(hasSigs, Field("sigs", sigs));
    var sg := s + g;
    var msg := m + sg;
    var imsg := i + msg;
    Regrouped(v, i, m, s, g);
    AddField(hasSigs, "sigs", sigs, [], []);
    assert g + [] == g && ["sigs"] + [] == ["sigs"];
    AddField(hasSupersedes, "supersedes", supersedes, g, ["sigs"]);
    assert ["supersedes"] + ["sigs"] == ["supersedes", "sigs"];
    AddField(hasMerkle, "merkle", merkle, sg, ["supersedes", "sigs"]);
    assert ["merkle"] + ["supersedes", "sigs"] == ["merkle", "supersedes", "sigs"];
    AddField(hasItems, "items", items, msg, ["merkle", "supersedes", "sigs"]);
    assert ["items"] + ["merkle", "supersedes", "sigs"] == ["items", "merkle", "supersedes", "sigs"];
    AddPresent("v", UInt(1), imsg, ["items", "merkle", "supersedes", "sigs"], v + imsg);
    FieldsDeterministic(v + imsg, ["v"] + ["items", "merkle", "supersedes", "sigs"]);
  }

  lemma Regrouped(v: seq<Entry>, i: seq<Entry>, m: seq<Entry>, s: seq<Entry>, g: seq<Entry>)
    ensures v + i + m + s + g == v + (i + (m + (s + g)))
  {
  }

  /** The value of a record is deterministic: shortest heads, and ascending keys in every map. */
  lemma RecordDeterministic(r: Record)
    requires RecordSized(r) && Encodable(r)
    ensures Deterministic(RecordValue(r))
  {
    PartsDeterministic(r);
    hide Deterministic, Field, Map, When, RecordSized, Encodable, MerkleValue, SigsValue, ItemValues;
    RecordFields(r.items != [], Array(ItemValues(r.items)),
                 r.merkle.Some?, if r.merkle.Some? then MerkleValue(r.merkle.value) else UInt(0),
                 r.supersedes.Some?, if r.supersedes.Some? then ByteString(r.supersedes.value) else UInt(0),
                 r.coseSign1.Some?, if r.coseSign1.Some? then SigsValue(r.coseSign1.value) else UInt(0));
  }

  lemma PartsDeterministic(r: Record)
    requires RecordSized(r) && Encodable(r)
    ensures Deterministic(Array(ItemValues(r.items)))
    ensures r.merkle.Some? ==> Deterministic(MerkleValue(r.merkle.value))
    ensures r.supersedes.Some? ==> Deterministic(ByteString(r.supersedes.value))
    ensures r.coseSign1.Some? ==> Deterministic(SigsValue(r.coseSign1.value))
  {
    hide Deterministic, MerkleValue, SigsValue, ItemValue, ItemSized, ItemFits;
    ItemsDeterministic(r.items);
    ArrayDeterministic(ItemValues(r.items));
    if r.merkle.Some? {
      MerkleDeterministic(r.merkle.value);
    }
    if r.supersedes.Some? {
      TextDeterministic(r.supersedes.value);
    }
    if r.coseSign1.Some? {
      SigsDeterministic(r.coseSign1.value);
    }
  }

  // ----- the estimate and the encoded length ---------------------------------------

  /** The deterministic encoding of a record. */
  function EncodedRecord(r: Record): Bytes
    requires RecordSized(r) && Encodable(r)
  {
    RecordDeterministic(r);
    Encode(RecordValue(r), 0)
  }

  /** The canonical pre-scan passes an encoded record exactly. */
  lemma EncodedRecordScans(r: Record)
    requires RecordSized(r) && Encodable(r)
    ensures Deterministic(RecordValue(r)) && InOrder(RecordValue(r)) && EncodedRecord(r) == Encode(RecordValue(r), 0)
    ensures Walk(EncodedRecord(r), 0) == Done(|EncodedRecord(r)|)
  {
    hide Walk, Encode, Deterministic;
    RecordDeterministic(r);
    DeterministicScans(RecordValue(r));
  }

  /** The estimate is the length of the deterministic encoding plus the slack, for every record of the format's widths. */
  lemma EstimateIsLengthPlusSlack(r: Record)
    requires RecordSized(r) && Encodable(r)
    ensures EstimateRecordBytes(ShapeOf(r)) == |EncodedRecord(r)| + Slack(r)
  {
    hide EstimateRecordBytes, Size, RecordValue, Slack, Encode, RecordSized, Encodable;
    EstimateIsSizePlusSlack(r);
    RecordDeterministic(r);
    SizeIsLength(RecordValue(r));
  }

  /** A passphrase envelope as the reference producers write it. */
  predicate CanonicalEnc(enc: Enc) {
    enc.PassphraseEnc? ==> |enc.salt| == 16 && 65536 <= enc.m <= 0xFFFF_FFFF && enc.t <= 23 && enc.p <= 23
  }

  function X25519Items(items: seq<RecordItem>): nat {
    if items == [] then 0
    else
      var last := items[|items| - 1];
      X25519Items(items[..|items| - 1]) + Flag(last.enc.Some? && last.enc.value.KemEnc? && last.enc.value.x25519)
  }

  lemma {:induction false} CanonicalItemsSlack(items: seq<RecordItem>)
    requires forall i :: 0 <= i < |items| && items[i].enc.Some? ==> CanonicalEnc(items[i].enc.value)
    ensures ItemsSlack(items) == 8 * X25519Items(items)
  {
    if items != [] {
      CanonicalItemsSlack(items[..|items| - 1]);
    }
  }

  /** With canonical passphrase blocks: 16, plus 8 per x25519 item, plus what `leaf_count` leaves of 9. */
  lemma CanonicalOvershoot(r: Record)
    requires RecordSized(r) && Encodable(r)
    requires forall i :: 0 <= i < |r.items| && r.items[i].enc.Some? ==> CanonicalEnc(r.items[i].enc.value)
    ensures EstimateRecordBytes(ShapeOf(r)) == |EncodedRecord(r)| + 16 + 8 * X25519Items(r.items) + MerkleSlack(r.merkle)
  {
    hide EncodedRecord, EstimateRecordBytes;
    EstimateIsLengthPlusSlack(r);
    CanonicalItemsSlack(r.items);
  }

  /** The estimate bounds the encoded record exactly when the slack, which salts and work factors decide, is not negative. */
  lemma UpperBoundIff(r: Record)
    requires RecordSized(r) && Encodable(r)
    ensures EstimateRecordBytes(ShapeOf(r)) >= |EncodedRecord(r)| <==> Slack(r) >= 0
  {
    hide EstimateRecordBytes, EncodedRecord, Slack;
    EstimateIsLengthPlusSlack(r);
  }

  /** A record of one item with a 64-byte salt is longer than its estimate. */
  lemma LongSaltExceeds(r: Record, item: RecordItem)
    requires item.enc.Some? && item.enc.value.PassphraseEnc? && |item.enc.value.salt| == 64 && item.enc.value.m >= 65536
    requires r == Record([item], None, None, None) && RecordSized(r) && Encodable(r)
    ensures EstimateRecordBytes(ShapeOf(r)) < |EncodedRecord(r)|
  {
    hide EstimateRecordBytes, EncodedRecord, RecordSized, Encodable;
    assert ItemsSlack([item]) == ItemsSlack([]) + ItemSlack(item) by {
      assert [item][..0] == [];
    }
    EstimateIsLengthPlusSlack(r);
  }

  function Zeros(n: nat): (b: Bytes)
    ensures |b| == n
  {
    seq(n, _ => 0)
  }

  /** There is one: a SHA-256 item sealed under the default work factors and a 64-byte salt. */
  lemma LongSaltRecord()
    ensures var item := RecordItem([Hash(Ascii("sha2-256"), Zeros(32))], [], Some(PassphraseEnc(Zeros(24), Zeros(64), 65536, 3, 4)));
            var r := Record([item], None, None, None);
            RecordSized(r) && Encodable(r) && EstimateRecordBytes(ShapeOf(r)) < |EncodedRecord(r)|
  {
    hide EstimateRecordBytes, EncodedRecord;
    var item := RecordItem([Hash(Ascii("sha2-256"), Zeros(32))], [], Some(PassphraseEnc(Zeros(24), Zeros(64), 65536, 3, 4)));
    assert ItemSized(item) && ItemFits(item);
    LongSaltExceeds(Record([item], None, None, None), item);
  }
}
