/**
  Inclusion certificates: building one over the committed leaves, re-verifying one from its own bytes,
  and the exact condition under which a built certificate verifies.
  */
module Certificate {
  import opened Wrappers
  import opened ByteStrings
  import Hex
  import opened Merkle

  const FORMAT_V1: string := "label-309-inclusion-certificate-v1"
  const TREE_ALG: string := "rfc9162-sha256"
  const METADATA_LABEL: int := 309
  const MAX_BLOCK_TIME_EXCLUSIVE: int := 253402300800

  datatype Anchor = Anchor(chain: string, network: string, txHash: string, blockTime: int)

  datatype Commitment = Commitment(treeAlg: string, root: Bytes, treeSize: int)

  datatype Item = Item(leaf: string, index: int, proof: seq<string>, verified: bool, error: Option<string>)

  datatype Cert = Cert(format: string, anchor: Option<Anchor>, metadataLabel: int, treeAlg: string, root: string, treeSize: int, items: seq<Item>)

  datatype BuildError = BadTreeAlg | BadRootLength | SizeMismatch | BadLeaves | RootMismatch | BadBlockTime | ProofOutOfRange

  // ----- building ------------------------------------------------------------------

  /** The first leaf equal to the target, or -1. */
  method FindLeafIndex(leaves: seq<Bytes>, target: Bytes) returns (index: int)
    ensures index == FirstIndex(leaves, target)
  {
    for i := 0 to |leaves|
      invariant forall k :: 0 <= k < i ==> leaves[k] != target
    {
      if |leaves[i]| == |target| && leaves[i] == target {
        FirstIndexIs(leaves, target, i);
        return i;
      }
    }
    return -1;
  }

  function FirstIndex(leaves: seq<Bytes>, target: Bytes): (i: int)
    ensures i == -1 <==> target !in leaves
    ensures i != -1 ==> 0 <= i < |leaves| && leaves[i] == target && forall k :: 0 <= k < i ==> leaves[k] != target
  {
    if target !in leaves then -1
    else if leaves[0] == target then 0
    else
      assert leaves == [leaves[0]] + leaves[1..];
      1 + FirstIndex(leaves[1..], target)
  }

  lemma FirstIndexIs(leaves: seq<Bytes>, target: Bytes, i: nat)
    requires i < |leaves| && leaves[i] == target && forall k :: 0 <= k < i ==> leaves[k] != target
    ensures FirstIndex(leaves, target) == i
  {
  }

  function HexAll(hashes: seq<Bytes>): (r: seq<string>)
    ensures |r| == |hashes|
    ensures forall i :: 0 <= i < |r| ==> r[i] == Hex.Encode(hashes[i])
  {
    if hashes == [] then [] else HexAll(hashes[..|hashes| - 1]) + [Hex.Encode(hashes[|hashes| - 1])]
  }

  /** A target of the committed set gets its audit path and a recomputed flag; any other an honest error. */
  function BuiltItem(sha: Hash, leaves: seq<Bytes>, root: Bytes, target: Bytes): Item {
    if |target| != DIGEST_LENGTH then Item(Hex.Encode(target), -1, [], false, Some("leaf must be a 32-byte value"))
    else
      var index := FirstIndex(leaves, target);
      if index < 0 then Item(Hex.Encode(target), -1, [], false, Some("leaf not found in the committed leaf set"))
      else
        var path := AuditPath(sha, leaves, index);
        Item(Hex.Encode(target), index, HexAll(path), Accepts(sha, target, index, |leaves|, path, root), None)
  }

  method BuildItem(sha: Hash, target: Bytes, leaves: seq<Bytes>, root: Bytes) returns (r: Result<Item, BuildError>)
    requires ValidLeaves(leaves)
    ensures r.Err? <==> |target| == DIGEST_LENGTH && target in leaves && |leaves| > MAX_TREE_SIZE
    ensures r.Ok? ==> r.value == BuiltItem(sha, leaves, root, target)
  {
    hide Accepts;
    if |target| != DIGEST_LENGTH {
      return Ok(Item(Hex.Encode(target), -1, [], false, Some("leaf must be a 32-byte value")));
    }
    var index := FindLeafIndex(leaves, target);
    if index < 0 {
      return Ok(Item(Hex.Encode(target), -1, [], false, Some("leaf not found in the committed leaf set")));
    }
    var sibling := InclusionProof(sha, leaves, index);
    if sibling.Err? {
      return Err(ProofOutOfRange);
    }
    var verified := VerifyInclusion(sha, target, index, |leaves|, sibling.value, root);
    return Ok(Item(Hex.Encode(target), index, HexAll(sibling.value), verified.value, None));
  }

  predicate Buildable(sha: Hash, anchor: Anchor, merkle: Commitment, leaves: seq<Bytes>) {
    && merkle.treeAlg == TREE_ALG
    && |merkle.root| == DIGEST_LENGTH
    && merkle.treeSize == |leaves|
    && ValidLeaves(leaves)
    && Root(sha, leaves) == merkle.root
    && 0 <= anchor.blockTime < MAX_BLOCK_TIME_EXCLUSIVE
  }

  function BuiltItems(sha: Hash, leaves: seq<Bytes>, root: Bytes, targets: seq<Bytes>): (r: seq<Item>)
    ensures |r| == |targets|
    ensures forall i :: 0 <= i < |r| ==> r[i] == BuiltItem(sha, leaves, root, targets[i])
  {
    if targets == [] then []
    else BuiltItems(sha, leaves, root, targets[..|targets| - 1]) + [BuiltItem(sha, leaves, root, targets[|targets| - 1])]
  }

  /** The certificate of a commitment: one item per target, in order. */
  function CertificateOf(sha: Hash, anchor: Anchor, merkle: Commitment, leaves: seq<Bytes>, targets: seq<Bytes>): Cert {
    Cert(FORMAT_V1, Some(anchor), METADATA_LABEL, TREE_ALG, Hex.Encode(merkle.root), |leaves|, BuiltItems(sha, leaves, merkle.root, targets))
  }

  /** No target asks for a path in a tree beyond the 32-bit range. */
  predicate PathsInRange(leaves: seq<Bytes>, targets: seq<Bytes>) {
    |leaves| <= MAX_TREE_SIZE || forall i :: 0 <= i < |targets| ==> !(|targets[i]| == DIGEST_LENGTH && targets[i] in leaves)
  }

  method BuildItems(sha: Hash, targets: seq<Bytes>, leaves: seq<Bytes>, root: Bytes) returns (r: Result<seq<Item>, BuildError>)
    requires ValidLeaves(leaves)
    ensures r.Ok? <==> PathsInRange(leaves, targets)
    ensures r.Ok? ==> r.value == BuiltItems(sha, leaves, root, targets)
  {
    hide BuiltItem, BuiltItems;
    var items: seq<Item> := [];
    for i := 0 to |targets|
      invariant |items| == i && forall k :: 0 <= k < i ==> items[k] == BuiltItem(sha, leaves, root, targets[k])
      invariant PathsInRange(leaves, targets[..i])
    {
      var item := BuildItem(sha, targets[i], leaves, root);
      if item.Err? {
        return Err(item.error);
      }
      items := items + [item.value];
    }
    assert targets[..|targets|] == targets;
    return Ok(items);
  }

  method BuildCertificate(sha: Hash, anchor: Anchor, merkle: Commitment, leaves: seq<Bytes>, targets: seq<Bytes>)
    returns (r: Result<Cert, BuildError>)
    ensures r.Ok? <==> Buildable(sha, anchor, merkle, leaves) && PathsInRange(leaves, targets)
    ensures r.Ok? ==> r.value == CertificateOf(sha, anchor, merkle, leaves, targets)
  {
    if merkle.treeAlg != TREE_ALG {
      return Err(BadTreeAlg);
    }
    if |merkle.root| != DIGEST_LENGTH {
      return Err(BadRootLength);
    }
    if merkle.treeSize != |leaves| {
      return Err(SizeMismatch);
    }
    if leaves == [] {
      return Err(BadLeaves);
    }
    for i := 0 to |leaves|
      invariant forall k :: 0 <= k < i ==> |leaves[k]| == DIGEST_LENGTH
    {
      if |leaves[i]| != DIGEST_LENGTH {
        assert leaves[i] in leaves;
        return Err(BadLeaves);
      }
    }
    if Root(sha, leaves) != merkle.root {
      return Err(RootMismatch);
    }
    if anchor.blockTime < 0 || anchor.blockTime >= MAX_BLOCK_TIME_EXCLUSIVE {
      return Err(BadBlockTime);
    }
    var items := BuildItems(sha, targets, leaves, merkle.root);
    if items.Err? {
      return Err(items.error);
    }
    return Ok(Cert(FORMAT_V1, Some(anchor), METADATA_LABEL, TREE_ALG, Hex.Encode(merkle.root), |leaves|, items.value));
  }

  // ----- verifying -----------------------------------------------------------------

  datatype Verdict = Verdict(verified: bool, error: Option<string>)

  datatype VerifyResult = VerifyResult(ok: bool, items: seq<Verdict>, error: Option<string>)

  predicate HeaderAccepted(cert: Cert) {
    && cert.format == FORMAT_V1
    && cert.treeAlg == TREE_ALG
    && cert.anchor.Some?
    && cert.anchor.value.chain == "cardano"
    && cert.metadataLabel == METADATA_LABEL
    && 1 <= cert.treeSize <= MAX_TREE_SIZE
    && Hex.Decode(cert.root).Some?
  }

  predicate AllHex(proof: seq<string>) {
    forall i :: 0 <= i < |proof| ==> Hex.Decode(proof[i]).Some?
  }

  function DecodeAll(proof: seq<string>): (r: seq<Bytes>)
    requires AllHex(proof)
    ensures |r| == |proof|
    ensures forall i :: 0 <= i < |r| ==> Hex.Decode(proof[i]) == Some(r[i])
  {
    if proof == [] then [] else DecodeAll(proof[..|proof| - 1]) + [Hex.Decode(proof[|proof| - 1]).value]
  }

  /** An item verifies when it carries no error and its own leaf, index and path reach the root. */
  predicate ItemVerifies(sha: Hash, item: Item, treeSize: nat, root: Bytes) {
    && item.error.None?
    && 0 <= item.index < treeSize
    && Hex.Decode(item.leaf).Some?
    && AllHex(item.proof)
    && Accepts(sha, Hex.Decode(item.leaf).value, item.index, treeSize, DecodeAll(item.proof), root)
  }

  method VerifyItem(sha: Hash, item: Item, treeSize: nat, root: Bytes) returns (v: Verdict)
    requires 1 <= treeSize <= MAX_TREE_SIZE
    ensures v.verified == ItemVerifies(sha, item, treeSize, root)
    ensures item.error.Some? ==> v.error == item.error
  {
    hide Accepts, Hex.Decode;
    if item.error.Some? {
      return Verdict(false, item.error);
    }
    if item.index < 0 || item.index >= treeSize {
      return Verdict(false, Some("index out of range"));
    }
    var leaf := Hex.Decode(item.leaf);
    if leaf.None? {
      return Verdict(false, Some("malformed leaf"));
    }
    var proof: seq<Bytes> := [];
    for i := 0 to |item.proof|
      invariant |proof| == i && forall k :: 0 <= k < i ==> Hex.Decode(item.proof[k]) == Some(proof[k])
    {
      var sibling := Hex.Decode(item.proof[i]);
      if sibling.None? {
        return Verdict(false, Some("malformed proof"));
      }
      proof := proof + [sibling.value];
    }
    assert proof == DecodeAll(item.proof);
    var verified := VerifyInclusion(sha, leaf.value, item.index, treeSize, proof, root);
    return Verdict(verified.value, None);
  }

  /** The verdict never trusts the stored flags: it recomputes every item. */
  predicate CertVerifies(sha: Hash, cert: Cert) {
    && HeaderAccepted(cert)
    && cert.items != []
    && forall i :: 0 <= i < |cert.items| ==> ItemVerifies(sha, cert.items[i], cert.treeSize, Hex.Decode(cert.root).value)
  }

  method VerifyCertificate(sha: Hash, cert: Cert) returns (r: VerifyResult)
    ensures r.ok == CertVerifies(sha, cert)
    ensures HeaderAccepted(cert) ==>
      && |r.items| == |cert.items|
      && forall i :: 0 <= i < |r.items| ==> r.items[i].verified == ItemVerifies(sha, cert.items[i], cert.treeSize, Hex.Decode(cert.root).value)
    ensures r.error.Some? <==> !HeaderAccepted(cert)
  {
    if cert.format != FORMAT_V1 {
      return VerifyResult(false, [], Some("unsupported certificate format"));
    }
    if cert.treeAlg != TREE_ALG {
      return VerifyResult(false, [], Some("unsupported tree_alg"));
    }
    if cert.anchor.None? {
      return VerifyResult(false, [], Some("missing anchor"));
    }
    if cert.anchor.value.chain != "cardano" {
      return VerifyResult(false, [], Some("unsupported anchor.chain"));
    }
    if cert.metadataLabel != METADATA_LABEL {
      return VerifyResult(false, [], Some("unsupported anchor.metadata_label"));
    }
    if cert.treeSize < 1 || cert.treeSize > MAX_TREE_SIZE {
      return VerifyResult(false, [], Some("merkle.tree_size out of range"));
    }
    var root := Hex.Decode(cert.root);
    if root.None? {
      return VerifyResult(false, [], Some("malformed merkle.root"));
    }
    var items: seq<Verdict> := [];
    var all := true;
    for i := 0 to |cert.items|
      invariant |items| == i
      invariant forall k :: 0 <= k < i ==> items[k].verified == ItemVerifies(sha, cert.items[k], cert.treeSize, root.value)
      invariant all <==> forall k :: 0 <= k < i ==> items[k].verified
    {
      var v := VerifyItem(sha, cert.items[i], cert.treeSize, root.value);
      items := items + [v];
      all := all && v.verified;
    }
    return VerifyResult(|items| > 0 && all, items, None);
  }

  /** The headers of certificates that verify: every one of these fields is decisive. */
  lemma VerifiedHeader(sha: Hash, cert: Cert)
    requires CertVerifies(sha, cert)
    ensures cert.format == "label-309-inclusion-certificate-v1" && cert.treeAlg == "rfc9162-sha256" && cert.metadataLabel == 309
    ensures cert.anchor.Some? && cert.anchor.value.chain == "cardano"
    ensures 1 <= cert.treeSize < 0x1_0000_0000
    ensures exists root :: Hex.Spells(cert.root, root)
  {
    Hex.DecodesExactly(cert.root, Hex.Decode(cert.root).value);
  }

  /** A certificate that verifies no longer does with any one of these fields changed. */
  lemma ChangedHeaderRefused(sha: Hash, cert: Cert, text: string, number: int)
    requires CertVerifies(sha, cert)
    ensures text != cert.format ==> !CertVerifies(sha, cert.(format := text))
    ensures text != cert.treeAlg ==> !CertVerifies(sha, cert.(treeAlg := text))
    ensures number != cert.metadataLabel ==> !CertVerifies(sha, cert.(metadataLabel := number))
    ensures number < 1 || number >= 0x1_0000_0000 ==> !CertVerifies(sha, cert.(treeSize := number))
    ensures !CertVerifies(sha, cert.(anchor := None))
    ensures text != "cardano" ==> !CertVerifies(sha, cert.(anchor := Some(cert.anchor.value.(chain := text))))
    ensures (forall root :: !Hex.Spells(text, root)) ==> !CertVerifies(sha, cert.(root := text))
  {
    hide ItemVerifies;
    if Hex.Decode(text).Some? {
      Hex.DecodesExactly(text, Hex.Decode(text).value);
    }
  }

  // ----- building, then verifying --------------------------------------------------

  /** The path of a committed leaf is accepted under the root of the leaves. */
  lemma AuditPathAccepted(sha: Hash, leaves: seq<Bytes>, i: nat)
    requires ValidLeaves(leaves) && i < |leaves| && DigestLengths(sha)
    ensures Accepts(sha, leaves[i], i, |leaves|, AuditPath(sha, leaves, i), Root(sha, leaves))
  {
    assert leaves[i] in leaves;
    AuditPathShapes(sha, leaves, i);
    RootLength(sha, leaves);
    AuditPathFoldsToRoot(sha, leaves, i);
  }

  lemma HexProofDecodes(hashes: seq<Bytes>)
    ensures AllHex(HexAll(hashes)) && DecodeAll(HexAll(hashes)) == hashes
  {
    var proof := HexAll(hashes);
    forall i | 0 <= i < |proof| ensures Hex.Decode(proof[i]) == Some(hashes[i]) {
      Hex.RoundTrip(hashes[i]);
    }
  }

  /** An item verifies exactly when its target is a 32-byte member of the leaves. */
  lemma BuiltItemVerifiesIff(sha: Hash, leaves: seq<Bytes>, root: Bytes, target: Bytes)
    requires ValidLeaves(leaves) && DigestLengths(sha) && root == Root(sha, leaves)
    ensures ItemVerifies(sha, BuiltItem(sha, leaves, root, target), |leaves|, root) <==> target in leaves
  {
    hide Accepts, Hex.Decode;
    if |target| == DIGEST_LENGTH && target in leaves {
      var index := FirstIndex(leaves, target);
      AuditPathAccepted(sha, leaves, index);
      Hex.RoundTrip(target);
      HexProofDecodes(AuditPath(sha, leaves, index));
    }
  }

  /** A built item is honest about itself: no error and a true flag exactly for a committed 32-byte leaf. */
  lemma BuiltItemHonest(sha: Hash, leaves: seq<Bytes>, target: Bytes)
    requires ValidLeaves(leaves) && DigestLengths(sha)
    ensures var item := BuiltItem(sha, leaves, Root(sha, leaves), target);
            && (item.verified <==> target in leaves)
            && (item.error.None? <==> target in leaves)
            && (item.index == -1 <==> target !in leaves)
            && Hex.Decode(item.leaf) == Some(target)
  {
    hide Accepts, Hex.Decode, AuditPath, Root;
    Hex.RoundTrip(target);
    if target in leaves {
      AuditPathAccepted(sha, leaves, FirstIndex(leaves, target));
    }
  }

  /**
    A built certificate verifies exactly when it names the Cardano chain, its tree is within the
    32-bit range, it has a target, and every target is a committed leaf.
    */
  lemma BuiltVerifiesIff(sha: Hash, anchor: Anchor, merkle: Commitment, leaves: seq<Bytes>, targets: seq<Bytes>)
    requires DigestLengths(sha) && Buildable(sha, anchor, merkle, leaves)
    ensures CertVerifies(sha, CertificateOf(sha, anchor, merkle, leaves, targets))
       <==> && anchor.chain == "cardano"
            && |leaves| <= MAX_TREE_SIZE
            && targets != []
            && forall i :: 0 <= i < |targets| ==> targets[i] in leaves
  {
    hide ItemVerifies, BuiltItem, BuiltItems, Root, Hex.Encode, Hex.Decode;
    Hex.RoundTrip(merkle.root);
    var items := BuiltItems(sha, leaves, merkle.root, targets);
    forall i | 0 <= i < |targets|
      ensures ItemVerifies(sha, items[i], |leaves|, merkle.root) <==> targets[i] in leaves
    {
      BuiltItemVerifiesIff(sha, leaves, merkle.root, targets[i]);
    }
  }
}
