/**
  Sealing under a passphrase: one blob of a 32-byte commitment and the STREAM chunks, opened whole or
  piece by piece with a 48-byte lookahead.
  */
module PassphrasePath {
  import opened Wrappers
  import opened ByteStrings
  import opened Stream
  import opened StreamBody

  const COMMITMENT_LENGTH: nat := 32
  const MIN_BLOB_LENGTH: nat := 48

  datatype Params = Params(m: int, t: int, p: int)

  datatype Envelope = Envelope(scheme: int, aead: string, nonce: Bytes, alg: string, salt: Bytes, params: Params)

  /** Key derivation, the commitment over all envelope fields and the hash claim, and the AEAD. */
  datatype Suite = Suite(
    aead: Aead,
    normalize: string -> Option<Bytes>,
    kdf: (Bytes, Bytes, Params) -> Option<Bytes>,
    commitment: (Bytes, Envelope, Bytes) -> Bytes,
    payloadKey: (Bytes, Bytes) -> Bytes,
    itemHash: map<string, Bytes> -> Bytes)

  ghost predicate WellSized(s: Suite) {
    (forall c, e, h :: |s.commitment(c, e, h)| == COMMITMENT_LENGTH) && forall c, n :: |s.payloadKey(c, n)| == 32
  }

  datatype Error = NoContentHash | BadPassphrase | Scheme | AeadAlg | KdfAlg | NonceLength | SaltTooShort | SaltTooLong
    | ParamRange | ParamsTooLow | KdfFailed | ContentTooLong

  // ----- shape checks --------------------------------------------------------------

  predicate ParamsOk(p: Params) {
    && 65536 <= p.m <= 0xFFFF_FFFF
    && 3 <= p.t <= 0xFFFF_FFFF
    && 1 <= p.p <= 0xFFFF_FFFF
  }

  predicate EnvelopeOk(e: Envelope) {
    && e.scheme == 1
    && e.aead == "chacha20-poly1305-stream64k"
    && e.alg == "argon2id"
    && |e.nonce| == 24
    && 16 <= |e.salt| <= 64
    && ParamsOk(e.params)
  }

  function InWireRange(v: int): bool { 0 <= v <= 0xFFFF_FFFF }

  /** Range before floors. */
  method CheckParams(p: Params) returns (r: Option<Error>)
    ensures r.None? <==> ParamsOk(p)
    ensures r == Some(ParamRange) <==> !(InWireRange(p.m) && InWireRange(p.t) && InWireRange(p.p))
  {
    if !InWireRange(p.m) || !InWireRange(p.t) || !InWireRange(p.p) {
      return Some(ParamRange);
    }
    if p.m < 65536 || p.t < 3 || p.p < 1 {
      return Some(ParamsTooLow);
    }
    return None;
  }

  method CheckSalt(salt: Bytes) returns (r: Option<Error>)
    ensures r.None? <==> 16 <= |salt| <= 64
    ensures r == Some(SaltTooShort) <==> |salt| < 16
  {
    if |salt| < 16 {
      return Some(SaltTooShort);
    }
    return if |salt| > 64 then Some(SaltTooLong) else None;
  }

  method CheckEnvelope(e: Envelope) returns (r: Option<Error>)
    ensures r.None? <==> EnvelopeOk(e)
  {
    if e.scheme != 1 {
      return Some(Scheme);
    }
    if e.aead != "chacha20-poly1305-stream64k" {
      return Some(AeadAlg);
    }
    if e.alg != "argon2id" {
      return Some(KdfAlg);
    }
    if |e.nonce| != 24 {
      return Some(NonceLength);
    }
    r := CheckSalt(e.salt);
    if r.None? {
      r := CheckParams(e.params);
    }
  }

  // ----- whole blobs ---------------------------------------------------------------

  /** The blob of a plaintext under a content key. */
  function BlobOf(s: Suite, e: Envelope, hashesHash: Bytes, cek: Bytes, plaintext: Bytes): Option<Bytes> {
    Prepend(s.commitment(cek, e, hashesHash), SealFrom(s.aead, s.payloadKey(cek, e.nonce), 0, plaintext))
  }

  /** The single generic rejection is None. */
  function OpenBlob(s: Suite, e: Envelope, hashesHash: Bytes, cek: Bytes, blob: Bytes): Option<Bytes> {
    if |blob| < MIN_BLOB_LENGTH || s.commitment(cek, e, hashesHash) != blob[..COMMITMENT_LENGTH] then None
    else OpenFrom(s.aead, s.payloadKey(cek, e.nonce), 0, blob[COMMITMENT_LENGTH..])
  }

  lemma ShortStreamRejected(a: Aead, key: Bytes, c: Bytes)
    requires |c| < TAG_SIZE
    ensures OpenFrom(a, key, 0, c) == None
  {
    OpenFromLast(a, key, 0, c);
  }

  /** Opening yields `plaintext` exactly on the blob that sealing it under the same key writes. */
  lemma OpensExactlySealed(s: Suite, e: Envelope, hashesHash: Bytes, cek: Bytes, blob: Bytes, plaintext: Bytes)
    requires Exact(s.aead) && WellSized(s)
    ensures OpenBlob(s, e, hashesHash, cek, blob) == Some(plaintext) <==> BlobOf(s, e, hashesHash, cek, plaintext) == Some(blob)
  {
    hide SealFrom, OpenFrom, OpenChunks;
    var head, key := s.commitment(cek, e, hashesHash), s.payloadKey(cek, e.nonce);
    if |blob| >= COMMITMENT_LENGTH {
      var body := blob[COMMITMENT_LENGTH..];
      OpenExactlySealed(s.aead, key, body, plaintext);
      assert blob == blob[..COMMITMENT_LENGTH] + body;
      if |blob| < MIN_BLOB_LENGTH {
        ShortStreamRejected(s.aead, key, body);
      }
      if BlobOf(s, e, hashesHash, cek, plaintext) == Some(blob) {
        var sealed := SealFrom(s.aead, key, 0, plaintext).value;
        assert (head + sealed)[..COMMITMENT_LENGTH] == head && (head + sealed)[COMMITMENT_LENGTH..] == sealed;
      }
    }
  }

  function Header(nonce: Bytes, salt: Bytes, params: Params): Envelope {
    Envelope(1, "chacha20-poly1305-stream64k", nonce, "argon2id", salt, params)
  }

  predicate InputsOk(s: Suite, e: Envelope, passphrase: string, hashes: map<string, Bytes>) {
    hashes != map[] && s.normalize(passphrase).Some? && EnvelopeOk(e)
  }

  /** What sealing gives once the inputs are in order: None when key derivation or the stream fails. */
  function SealedWith(s: Suite, e: Envelope, plaintext: Bytes, passphrase: string, hashes: map<string, Bytes>): Option<Bytes>
    requires InputsOk(s, e, passphrase, hashes)
  {
    var cek := s.kdf(s.normalize(passphrase).value, e.salt, e.params);
    if cek.None? then None else BlobOf(s, e, s.itemHash(hashes), cek.value, plaintext)
  }

  method Seal(s: Suite, plaintext: Bytes, passphrase: string, hashes: map<string, Bytes>, params: Params, salt: Bytes, nonce: Bytes)
    returns (r: Result<(Envelope, Bytes), Error>)
    requires WellSized(s)
    ensures var e := Header(nonce, salt, params);
            if InputsOk(s, e, passphrase, hashes) && SealedWith(s, e, plaintext, passphrase, hashes).Some?
            then r == Ok((e, SealedWith(s, e, plaintext, passphrase, hashes).value)) else r.Err?
  {
    hide SealFrom;
    var bad := CheckParams(params);
    if bad.Some? {
      return Err(bad.value);
    }
    bad := CheckSalt(salt);
    if bad.Some? {
      return Err(bad.value);
    }
    if |nonce| != 24 {
      return Err(NonceLength);
    }
    if hashes == map[] {
      return Err(NoContentHash);
    }
    var password := s.normalize(passphrase);
    if password.None? {
      return Err(BadPassphrase);
    }
    var cek := s.kdf(password.value, salt, params);
    if cek.None? {
      return Err(KdfFailed);
    }
    var e := Header(nonce, salt, params);
    var sealed := StreamSeal(s.aead, s.payloadKey(cek.value, nonce), plaintext);
    if sealed.Err? {
      return Err(ContentTooLong);
    }
    return Ok((e, s.commitment(cek.value, e, s.itemHash(hashes)) + sealed.value));
  }

  /** The caller-input checks, in their pinned order; the normalized password when all pass. */
  method CheckOpenInputs(s: Suite, e: Envelope, passphrase: string, hashes: map<string, Bytes>) returns (r: Result<Bytes, Error>)
    ensures r.Ok? <==> hashes != map[] && s.normalize(passphrase).Some? && EnvelopeOk(e)
    ensures r.Ok? ==> Some(r.value) == s.normalize(passphrase)
    ensures hashes == map[] ==> r == Err(NoContentHash)
    ensures hashes != map[] && s.normalize(passphrase).None? ==> r == Err(BadPassphrase)
  {
    if hashes == map[] {
      return Err(NoContentHash);
    }
    var password := s.normalize(passphrase);
    if password.None? {
      return Err(BadPassphrase);
    }
    var bad := CheckEnvelope(e);
    return if bad.Some? then Err(bad.value) else Ok(password.value);
  }

  /** None for a typed input or derivation error; Some(None) is the single generic rejection. */
  function OpenedWith(s: Suite, e: Envelope, blob: Bytes, passphrase: string, hashes: map<string, Bytes>): Option<Option<Bytes>> {
    if !InputsOk(s, e, passphrase, hashes) then None
    else if |blob| < MIN_BLOB_LENGTH then Some(None)
    else
      var cek := s.kdf(s.normalize(passphrase).value, e.salt, e.params);
      if cek.None? then None else Some(OpenBlob(s, e, s.itemHash(hashes), cek.value, blob))
  }

  /** A short blob is rejected before any key derivation, a wrong commitment before any chunk is opened. */
  method Open(s: Suite, e: Envelope, blob: Bytes, passphrase: string, hashes: map<string, Bytes>) returns (r: Result<Option<Bytes>, Error>)
    requires WellSized(s)
    ensures match OpenedWith(s, e, blob, passphrase, hashes)
            case Some(outcome) => r == Ok(outcome)
            case None => r.Err?
  {
    hide OpenFrom;
    var password := CheckOpenInputs(s, e, passphrase, hashes);
    if password.Err? {
      return Err(password.error);
    }
    if |blob| < MIN_BLOB_LENGTH {
      return Ok(None);
    }
    var cek := s.kdf(password.value, e.salt, e.params);
    if cek.None? {
      return Err(KdfFailed);
    }
    if s.commitment(cek.value, e, s.itemHash(hashes)) != blob[..COMMITMENT_LENGTH] {
      return Ok(None);
    }
    var plaintext := StreamOpen(s.aead, s.payloadKey(cek.value, e.nonce), blob[COMMITMENT_LENGTH..]);
    return Ok(plaintext);
  }

  /** What a passphrase sealed, the same passphrase opens. */
  lemma OpenInvertsSeal(s: Suite, e: Envelope, plaintext: Bytes, passphrase: string, hashes: map<string, Bytes>)
    requires Exact(s.aead) && WellSized(s) && InputsOk(s, e, passphrase, hashes)
    requires SealedWith(s, e, plaintext, passphrase, hashes).Some?
    ensures OpenedWith(s, e, SealedWith(s, e, plaintext, passphrase, hashes).value, passphrase, hashes) == Some(Some(plaintext))
  {
    hide OpenBlob, BlobOf;
    var cek := s.kdf(s.normalize(passphrase).value, e.salt, e.params).value;
    var blob := SealedWith(s, e, plaintext, passphrase, hashes).value;
    OpensExactlySealed(s, e, s.itemHash(hashes), cek, blob, plaintext);
    OpenedIsLong(s, e, s.itemHash(hashes), cek, blob);
  }

  /** Under another header, hash claim or content key, the blob is refused if the commitment tells the two apart. */
  lemma ForeignBlobRefused(s: Suite, e: Envelope, hashesHash: Bytes, cek: Bytes, plaintext: Bytes,
                           other: Envelope, otherHash: Bytes, otherCek: Bytes)
    requires WellSized(s) && BlobOf(s, e, hashesHash, cek, plaintext).Some?
    requires s.commitment(otherCek, other, otherHash) != s.commitment(cek, e, hashesHash)
    ensures OpenBlob(s, other, otherHash, otherCek, BlobOf(s, e, hashesHash, cek, plaintext).value) == None
  {
    hide SealFrom, OpenFrom;
    var sealed := SealFrom(s.aead, s.payloadKey(cek, e.nonce), 0, plaintext).value;
    assert (s.commitment(cek, e, hashesHash) + sealed)[..COMMITMENT_LENGTH] == s.commitment(cek, e, hashesHash);
  }

  lemma OpenedIsLong(s: Suite, e: Envelope, hashesHash: Bytes, cek: Bytes, blob: Bytes)
    requires OpenBlob(s, e, hashesHash, cek, blob).Some?
    ensures |blob| >= MIN_BLOB_LENGTH
  {
  }

  // ----- piece by piece ------------------------------------------------------------

  /** Reads pieces until 48 bytes are in hand; `taken` pieces were read. */
  method FillLookahead(pieces: seq<Bytes>) returns (lookahead: Bytes, taken: nat)
    ensures taken <= |pieces| && lookahead == Concat(pieces[..taken])
    ensures |lookahead| < MIN_BLOB_LENGTH ==> taken == |pieces|
  {
    lookahead, taken := [], 0;
    while |lookahead| < MIN_BLOB_LENGTH
      invariant taken <= |pieces| && lookahead == Concat(pieces[..taken])
      decreases |pieces| - taken
    {
      if taken == |pieces| {
        return;
      }
      assert pieces[..taken + 1] == pieces[..taken] + [pieces[taken]];
      ConcatSnoc(pieces[..taken], pieces[taken]);
      lookahead := lookahead + pieces[taken];
      taken := taken + 1;
    }
  }

  lemma SplitHead(whole: Bytes, lookahead: Bytes, rest: Bytes)
    requires whole == lookahead + rest && |lookahead| >= COMMITMENT_LENGTH
    ensures whole[..COMMITMENT_LENGTH] == lookahead[..COMMITMENT_LENGTH]
    ensures whole[COMMITMENT_LENGTH..] == lookahead[COMMITMENT_LENGTH..] + rest
  {
  }

  lemma BodyOfPieces(pieces: seq<Bytes>, taken: nat, lookahead: Bytes)
    requires taken <= |pieces| && lookahead == Concat(pieces[..taken]) && |lookahead| >= COMMITMENT_LENGTH
    ensures |Concat(pieces)| >= |lookahead| && Concat(pieces)[..COMMITMENT_LENGTH] == lookahead[..COMMITMENT_LENGTH]
    ensures Concat([lookahead[COMMITMENT_LENGTH..]] + pieces[taken..]) == Concat(pieces)[COMMITMENT_LENGTH..]
  {
    hide Concat;
    var first, later := lookahead[COMMITMENT_LENGTH..], pieces[taken..];
    assert pieces == pieces[..taken] + later;
    ConcatAppend(pieces[..taken], later);
    SplitHead(Concat(pieces), lookahead, Concat(later));
    ConcatAppend([first], later);
    ConcatOne(first);
  }

  /**
    The streaming open of a content key: it accepts exactly when the buffered open of the whole blob
    does, with the same plaintext, and yields nothing unless the commitment matches.
    */
  method OpenStreamWith(s: Suite, e: Envelope, hashesHash: Bytes, cek: Bytes, pieces: seq<Bytes>) returns (out: seq<Bytes>, opens: bool)
    requires WellSized(s)
    ensures opens <==> OpenBlob(s, e, hashesHash, cek, Concat(pieces)).Some?
    ensures opens ==> OpenBlob(s, e, hashesHash, cek, Concat(pieces)) == Some(Concat(out))
    ensures |Concat(pieces)| < MIN_BLOB_LENGTH || s.commitment(cek, e, hashesHash) != Concat(pieces)[..COMMITMENT_LENGTH] ==> out == []
  {
    hide OpenChunks;
    var lookahead, taken := FillLookahead(pieces);
    if |lookahead| < MIN_BLOB_LENGTH {
      assert pieces[..taken] == pieces;
      return [], false;
    }
    BodyOfPieces(pieces, taken, lookahead);
    if s.commitment(cek, e, hashesHash) != lookahead[..COMMITMENT_LENGTH] {
      return [], false;
    }
    out, opens := UnwrapStreamBody(s.aead, s.payloadKey(cek, e.nonce), [lookahead[COMMITMENT_LENGTH..]] + pieces[taken..]);
  }

  /** The streaming seal: the commitment first, then the body's chunks, together the buffered blob. */
  method SealStreamWith(s: Suite, e: Envelope, hashesHash: Bytes, cek: Bytes, pieces: seq<Bytes>) returns (r: Result<seq<Bytes>, SealError>)
    requires WellSized(s)
    ensures r.Ok? <==> BlobOf(s, e, hashesHash, cek, Concat(pieces)).Some?
    ensures r.Ok? ==> BlobOf(s, e, hashesHash, cek, Concat(pieces)) == Some(Concat(r.value))
  {
    hide SealFrom;
    var body := SealStreamBody(s.aead, s.payloadKey(cek, e.nonce), pieces);
    if body.Err? {
      return Err(body.error);
    }
    var head := s.commitment(cek, e, hashesHash);
    assert ([head] + body.value)[1..] == body.value;
    return Ok([head] + body.value);
  }
}
