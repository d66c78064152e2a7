/** The streaming forms of sealing and opening for recipients: the same envelope, body and verdict as the buffered ones. */
module SealedStream {
  import opened Wrappers
  import opened ByteStrings
  import Stream
  import opened StreamBody
  import opened SealedEnvelope
  import opened SealedSlots
  import opened SealedPoe
  import opened Shuffle

  /** The envelope first, then the body piece by piece. */
  method WrapStream(p: Suite, pieces: seq<Bytes>, kem: Kem, pubs: seq<Bytes>, secrets: seq<Bytes>, cek: Bytes, nonce: Bytes,
                    hashes: map<string, Bytes>, draws: seq<nat>) returns (r: Result<(Envelope, seq<Bytes>), WrapError>)
    requires ArePicks(draws, |pubs|)
    requires forall k, s, i :: |p.hkdf(k, s, i)| == 32
    ensures r.Ok? <==> WrapSucceeds(p, kem, pubs, secrets, cek, nonce, hashes, Concat(pieces))
    ensures r.Ok? ==>
      && HonestEnvelope(p, r.value.0, kem, nonce, cek, p.itemHash(hashes), WrapAll(p, kem, nonce, pubs, secrets, cek).value)
      && Stream.SealFrom(p.aead, SlotsPayloadKey(p, cek, nonce), 0, Concat(pieces)) == Some(Concat(r.value.1))
  {
    hide HonestEnvelope, SlotsWrap, Stream.SealFrom;
    var invalid := CheckWrapInputs(kem, pubs, secrets, cek, nonce, hashes);
    if invalid.Some? {
      return Err(invalid.value);
    }
    var envelope := BuildEnvelope(p, kem, pubs, secrets, cek, nonce, p.itemHash(hashes), draws);
    if envelope.Err? {
      return Err(envelope.error);
    }
    var body := SealStreamBody(p.aead, SlotsPayloadKey(p, cek, nonce), pieces);
    if body.Err? {
      return Err(ContentTooLong);
    }
    return Ok((envelope.value, body.value));
  }

  /** What the streaming open has released, and why it stopped short, if it did. */
  datatype Released = Released(chunks: seq<Bytes>, failure: Option<Reason>)

  /** The streaming form gives one reason for every header without a match, the tampered one included. */
  function StreamReason(reason: Reason): Reason {
    if reason == TamperedHeader then WrongRecipientKey else reason
  }

  /** The header is tried first; without a matching key nothing is released. */
  method UnwrapStream(p: Suite, e: Envelope, pieces: seq<Bytes>, hashes: map<string, Bytes>, keys: Keys)
    returns (r: Result<Released, UnwrapError>)
    requires Stream.Exact(p.aead)
    requires forall k, s, i :: |p.hkdf(k, s, i)| == 32
    ensures keys.Bundle? && KeysFor(e, keys) == [] ==> r == Ok(Released([], Some(WrongRecipientKey)))
    ensures keys.KeyList? && KeysFor(e, keys) == [] ==> r == Err(NoKeys)
    ensures KeysFor(e, keys) != [] ==>
      match UnwrapResult(p, e, Concat(pieces), hashes, KeysFor(e, keys))
      case None => r.Err? && if PassesGate(e, KeysFor(e, keys)) then r.error == MissingContentHash else r.error.Gate?
      case Some(Matched(plaintext)) => r.Ok? && r.value.failure == None && Concat(r.value.chunks) == plaintext
      case Some(NotMatched(reason)) =>
        && r.Ok?
        && r.value.failure == Some(StreamReason(reason))
        && (reason != TamperedCiphertext ==> r.value.chunks == [])
  {
    hide Stream.OpenChunks, TryKeys, Scanner;
    var privs := KeysFor(e, keys);
    if |privs| == 0 {
      return if keys.Bundle? then Ok(Released([], Some(WrongRecipientKey))) else Err(NoKeys);
    }
    var gate := AssertEnvelopeStructure(e, privs);
    if gate.Some? {
      return Err(Gate(gate.value));
    }
    if hashes == map[] {
      return Err(MissingContentHash);
    }
    var search := FindKey(p, e, HashOfSlots(p, e, p.itemHash(hashes)), privs);
    match search {
      case HeaderAnomaly => return Ok(Released([], Some(WrongRecipientKey)));
      case NoKeyMatches(_) => return Ok(Released([], Some(WrongRecipientKey)));
      case Found(cek) =>
        var chunks, matched := UnwrapStreamBody(p.aead, SlotsPayloadKey(p, cek, e.nonce), pieces);
        return Ok(Released(chunks, if matched then None else Some(TamperedCiphertext)));
    }
  }
}
