/** The size estimate that publishing is priced on: the component sums of the source and their accumulating loops. */
module Estimate {
  import opened Wrappers
  import opened ByteStrings
  import opened RecordSize

  const SAFETY_MARGIN: nat := 16
  const DIGEST_BYTES: nat := 32
  const U64_MAX: nat := 0xFFFF_FFFF_FFFF_FFFF

  // ----- shapes and their estimate -------------------------------------------------

  datatype EncShape = KemShape(x25519: bool, recipients: nat) | PassphraseShape

  /** Algorithm ids and URIs by their UTF-8 bytes. */
  datatype ItemShape = ItemShape(hashAlgs: seq<Bytes>, uris: seq<Bytes>, enc: Option<EncShape>)

  datatype MerkleShape = MerkleShape(alg: Bytes, uris: seq<Bytes>)

  datatype RecordShape = RecordShape(items: seq<ItemShape>, signed: bool, supersedes: bool, merkle: Option<MerkleShape>)

  function StrBytes(length: nat): nat { HeaderLen(length) + length }

  function StringsTotal(strings: seq<Bytes>): nat {
    if strings == [] then 0 else StringsTotal(strings[..|strings| - 1]) + StrBytes(|strings[|strings| - 1]|)
  }

  function UrisBytes(uris: seq<Bytes>): nat {
    if uris == [] then 0 else StrBytes(4) + HeaderLen(|uris|) + StringsTotal(uris)
  }

  function SlotBytes(x25519: bool): nat {
    if x25519 then HeaderLen(2) + StrBytes(3) + StrBytes(32) + StrBytes(4) + StrBytes(48)
    else HeaderLen(2) + StrBytes(6) + StrBytes(1120) + StrBytes(4) + StrBytes(48)
  }

  function EnvelopeBytes(enc: EncShape): nat {
    match enc
    case KemShape(x25519, recipients) =>
      HeaderLen(6) + StrBytes(6) + HeaderLen(1) + StrBytes(4) + StrBytes(27) + StrBytes(5) + StrBytes(24)
      + StrBytes(3) + StrBytes(14) + StrBytes(9) + StrBytes(32) + StrBytes(5) + HeaderLen(recipients)
      + SlotBytes(x25519) * recipients
    case PassphraseShape =>
      HeaderLen(4) + StrBytes(6) + HeaderLen(1) + StrBytes(4) + StrBytes(27) + StrBytes(5) + StrBytes(24)
      + StrBytes(10) + HeaderLen(3) + StrBytes(3) + StrBytes(8) + StrBytes(4) + StrBytes(16)
      + StrBytes(6) + HeaderLen(3) + StrBytes(1) + HeaderLen(65536) + StrBytes(1) + HeaderLen(3) + StrBytes(1) + HeaderLen(1)
  }

  function HashesTotal(algs: seq<Bytes>): nat {
    if algs == [] then 0 else HashesTotal(algs[..|algs| - 1]) + StrBytes(|algs[|algs| - 1]|) + StrBytes(DIGEST_BYTES)
  }

  function Flag(b: bool): nat { if b then 1 else 0 }

  function ItemBytes(item: ItemShape): nat {
    HeaderLen(1 + Flag(item.uris != []) + Flag(item.enc.Some?))
    + StrBytes(6) + HeaderLen(|item.hashAlgs|) + HashesTotal(item.hashAlgs)
    + UrisBytes(item.uris)
    + if item.enc.Some? then StrBytes(3) + EnvelopeBytes(item.enc.value) else 0
  }

  function MerkleBytes(m: MerkleShape): nat {
    StrBytes(6) + HeaderLen(1)
    + HeaderLen(3 + Flag(m.uris != [])) + StrBytes(3) + StrBytes(|m.alg|) + StrBytes(4) + StrBytes(DIGEST_BYTES)
    + StrBytes(10) + HeaderLen(U64_MAX) + UrisBytes(m.uris)
  }

  function ItemsTotal(items: seq<ItemShape>): nat {
    if items == [] then 0 else ItemsTotal(items[..|items| - 1]) + ItemBytes(items[|items| - 1])
  }

  function EstimateRecordBytes(shape: RecordShape): nat {
    HeaderLen(1 + Flag(shape.items != []) + Flag(shape.merkle.Some?) + Flag(shape.supersedes) + Flag(shape.signed))
    + StrBytes(1) + HeaderLen(1)
    + (if shape.items != [] then StrBytes(5) + HeaderLen(|shape.items|) + ItemsTotal(shape.items) else 0)
    + (if shape.merkle.Some? then MerkleBytes(shape.merkle.value) else 0)
    + (if shape.supersedes then StrBytes(10) + StrBytes(32) else 0)
    + (if shape.signed then StrBytes(4) + HeaderLen(1) + HeaderLen(1) + StrBytes(10) + StrBytes(109) else 0)
    + SAFETY_MARGIN
  }

  // ----- the accumulating loops ----------------------------------------------------

  method UrisBytesLoop(uris: seq<Bytes>) returns (total: nat)
    ensures total == UrisBytes(uris)
  {
    if |uris| == 0 {
      return 0;
    }
    total := StrBytes(4) + HeaderLen(|uris|);
    for i := 0 to |uris|
      invariant total == StrBytes(4) + HeaderLen(|uris|) + StringsTotal(uris[..i])
    {
      assert uris[..i + 1][..i] == uris[..i];
      total := total + StrBytes(|uris[i]|);
    }
    assert uris[..|uris|] == uris;
  }

  method ItemBytesLoop(item: ItemShape) returns (total: nat)
    ensures total == ItemBytes(item)
  {
    var itemKeys := 1;
    if |item.uris| > 0 {
      itemKeys := itemKeys + 1;
    }
    if item.enc.Some? {
      itemKeys := itemKeys + 1;
    }
    total := HeaderLen(itemKeys) + StrBytes(6) + HeaderLen(|item.hashAlgs|);
    ghost var head := total;
    for i := 0 to |item.hashAlgs|
      invariant total == head + HashesTotal(item.hashAlgs[..i])
    {
      assert item.hashAlgs[..i + 1][..i] == item.hashAlgs[..i];
      total := total + StrBytes(|item.hashAlgs[i]|) + StrBytes(DIGEST_BYTES);
    }
    assert item.hashAlgs[..|item.hashAlgs|] == item.hashAlgs;
    var uris := UrisBytesLoop(item.uris);
    total := total + uris;
    if item.enc.Some? {
      total := total + StrBytes(3) + EnvelopeBytes(item.enc.value);
    }
  }

  method EstimateRecordBytesLoop(shape: RecordShape) returns (total: nat)
    ensures total == EstimateRecordBytes(shape)
  {
    hide ItemBytes, MerkleBytes;
    var keyCount := 1;
    if |shape.items| > 0 {
      keyCount := keyCount + 1;
    }
    if shape.merkle.Some? {
      keyCount := keyCount + 1;
    }
    if shape.supersedes {
      keyCount := keyCount + 1;
    }
    if shape.signed {
      keyCount := keyCount + 1;
    }
    total := HeaderLen(keyCount) + StrBytes(1) + HeaderLen(1);
    ghost var head := total;
    if |shape.items| > 0 {
      total := total + StrBytes(5) + HeaderLen(|shape.items|);
      for i := 0 to |shape.items|
        invariant total == head + StrBytes(5) + HeaderLen(|shape.items|) + ItemsTotal(shape.items[..i])
      {
        assert shape.items[..i + 1][..i] == shape.items[..i];
        var one := ItemBytesLoop(shape.items[i]);
        total := total + one;
      }
      assert shape.items[..|shape.items|] == shape.items;
    }
    if shape.merkle.Some? {
      total := total + MerkleBytes(shape.merkle.value);
    }
    if shape.supersedes {
      total := total + StrBytes(10) + StrBytes(32);
    }
    if shape.signed {
      total := total + StrBytes(4) + HeaderLen(1) + HeaderLen(1) + StrBytes(10) + StrBytes(109);
    }
    total := total + SAFETY_MARGIN;
  }
}
