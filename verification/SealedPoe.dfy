/**
  Sealing a payload for several recipients and opening it again: the producer's wrap, the consumer's
  unwrap over one or more private keys, and the proof that unwrap recovers exactly what an honest
  wrap sealed whenever the envelope fits the gate's bounds.
  */
module SealedPoe {
  import opened Wrappers
  import opened ByteStrings
  import Stream
  import opened SealedEnvelope
  import opened SealedSlots
  import opened Shuffle

  function SlotsPayloadKey(p: Suite, cek: Bytes, nonce: Bytes): Bytes {
    p.hkdf(cek, nonce, "cardano-poe-payload-v1")
  }

  // ----- wrap ----------------------------------------------------------------------

  datatype WrapError =
    | UnsupportedKemAlg
    | NoRecipients
    | RecipientKeyLength
    | SecretsCountMismatch
    | SecretLength
    | CekLength
    | WrapNonceLength
    | NoContentHash
    | LowOrderPoint
    | InvalidPublicKey
    | RepeatedKemMaterial
    | ContentTooLong

  function PublicKeyLength(kem: Kem): nat {
    if kem.X25519? then 32 else 1216
  }

  function SecretLengthOf(kem: Kem): nat {
    if kem.X25519? then 32 else 64
  }

  /** The slot that wraps `cek` for the holder of `pub`, under one ephemeral secret. */
  function WrapSlot(p: Suite, kem: Kem, nonce: Bytes, pub: Bytes, secret: Bytes, cek: Bytes): Result<Slot, WrapError> {
    if |secret| != SecretLengthOf(kem) then Err(SecretLength)
    else if kem.X25519? then
      var epk, shared := p.x25519Public(secret), p.x25519Shared(secret, pub);
      if shared.None? then Err(LowOrderPoint)
      else
        var kek := Kek(p, kem, nonce, shared.value, epk, pub);
        Ok(Slot(Some(epk), None, p.aead.enc(kek, ZERO_NONCE_12, Ascii(KekInfo(kem)), cek)))
    else
      var encapsulated := p.xwingEncapsulate(pub, secret);
      if encapsulated.None? then Err(InvalidPublicKey)
      else
        var (kemCt, shared) := encapsulated.value;
        var kek := Kek(p, kem, nonce, shared, kemCt, pub);
        Ok(Slot(None, Some(kemCt), p.aead.enc(kek, ZERO_NONCE_12, Ascii(KekInfo(kem)), cek)))
  }

  /** The slots of all recipients in order, or the first failure. */
  function WrapAll(p: Suite, kem: Kem, nonce: Bytes, pubs: seq<Bytes>, secrets: seq<Bytes>, cek: Bytes): (r: Result<seq<Slot>, WrapError>)
    requires |pubs| == |secrets|
    ensures r.Ok? ==> |r.value| == |pubs|
    ensures r.Ok? ==> forall i :: 0 <= i < |pubs| ==> WrapSlot(p, kem, nonce, pubs[i], secrets[i], cek) == Ok(r.value[i])
  {
    if pubs == [] then Ok([])
    else
      var n := |pubs| - 1;
      var init := WrapAll(p, kem, nonce, pubs[..n], secrets[..n], cek);
      if init.Err? then init
      else
        var last := WrapSlot(p, kem, nonce, pubs[n], secrets[n], cek);
        if last.Err? then Err(last.error) else Ok(init.value + [last.value])
  }

  lemma {:induction false} WrapAllFails(p: Suite, kem: Kem, nonce: Bytes, pubs: seq<Bytes>, secrets: seq<Bytes>, cek: Bytes, n: nat)
    requires |pubs| == |secrets| && n <= |pubs|
    requires WrapAll(p, kem, nonce, pubs[..n], secrets[..n], cek).Err?
    ensures WrapAll(p, kem, nonce, pubs, secrets, cek) == WrapAll(p, kem, nonce, pubs[..n], secrets[..n], cek)
    decreases |pubs|
  {
    if n == |pubs| {
      assert pubs[..n] == pubs && secrets[..n] == secrets;
    } else {
      var m := |pubs| - 1;
      assert pubs[..m][..n] == pubs[..n] && secrets[..m][..n] == secrets[..n];
      WrapAllFails(p, kem, nonce, pubs[..m], secrets[..m], cek, n);
    }
  }

  lemma WrapAllStep(p: Suite, kem: Kem, nonce: Bytes, pubs: seq<Bytes>, secrets: seq<Bytes>, cek: Bytes, i: nat)
    requires |pubs| == |secrets| && i < |pubs|
    requires WrapAll(p, kem, nonce, pubs[..i], secrets[..i], cek).Ok?
    ensures WrapAll(p, kem, nonce, pubs[..i + 1], secrets[..i + 1], cek)
            == match WrapSlot(p, kem, nonce, pubs[i], secrets[i], cek)
               case Ok(slot) => Ok(WrapAll(p, kem, nonce, pubs[..i], secrets[..i], cek).value + [slot])
               case Err(e) => Err(e)
  {
    assert pubs[..i + 1][..i] == pubs[..i] && secrets[..i + 1][..i] == secrets[..i];
  }

  method WrapSlots(p: Suite, kem: Kem, nonce: Bytes, pubs: seq<Bytes>, secrets: seq<Bytes>, cek: Bytes)
    returns (r: Result<seq<Slot>, WrapError>)
    requires |pubs| == |secrets|
    ensures r == WrapAll(p, kem, nonce, pubs, secrets, cek)
  {
    var slots: seq<Slot> := [];
    for i := 0 to |pubs|
      invariant WrapAll(p, kem, nonce, pubs[..i], secrets[..i], cek) == Ok(slots)
    {
      WrapAllStep(p, kem, nonce, pubs, secrets, cek, i);
      var slot := WrapSlot(p, kem, nonce, pubs[i], secrets[i], cek);
      if slot.Err? {
        WrapAllFails(p, kem, nonce, pubs, secrets, cek, i + 1);
        return Err(slot.error);
      }
      slots := slots + [slot.value];
    }
    assert pubs[..|pubs|] == pubs && secrets[..|pubs|] == secrets;
    return Ok(slots);
  }

  /** Swaps downwards: position `i` with the drawn one at or below it. */
  method CsprngShuffle(items: seq<Slot>, draws: seq<nat>) returns (out: seq<Slot>)
    requires ArePicks(draws, |items|)
    ensures out == Shuffled(items, draws)
    ensures forall kem :: MaterialsDistinct(kem, items) ==> MaterialsDistinct(kem, out)
  {
    out := items;
    var i := |out| - 1;
    AllTurnsLeft(items, draws);
    while i > 0
      invariant -1 <= i < |items| && TurnsLeft(items, draws, out, i + 1)
      invariant forall kem :: MaterialsDistinct(kem, items) ==> MaterialsDistinct(kem, out)
    {
      var j := draws[i];
      Turn(items, draws, out, i);
      forall kem | MaterialsDistinct(kem, out) ensures MaterialsDistinct(kem, SwapAt(out, i, j)) {
        SwapKeepsDistinct(kem, out, i, j);
      }
      out := SwapAt(out, i, j);
      i := i - 1;
    }
    NoTurnsLeft(items, draws, out, i + 1);
  }

  lemma SwapKeepsDistinct(kem: Kem, s: seq<Slot>, i: nat, j: nat)
    requires i < |s| && j < |s| && MaterialsDistinct(kem, s)
    ensures MaterialsDistinct(kem, SwapAt(s, i, j))
  {
  }

  /** What the checks in front of the wrapping loop demand. */
  predicate WrapInputsValid(kem: Kem, pubs: seq<Bytes>, secrets: seq<Bytes>, cek: Bytes, nonce: Bytes, hashes: map<string, Bytes>) {
    && !kem.OtherKem?
    && pubs != []
    && (forall i :: 0 <= i < |pubs| ==> |pubs[i]| == PublicKeyLength(kem))
    && |secrets| == |pubs|
    && (kem.MlKem768X25519? ==> forall i :: 0 <= i < |secrets| ==> |secrets[i]| == 64)
    && |cek| == 32
    && |nonce| == 24
    && hashes != map[]
  }

  /** The envelope of the slots in some order, with the MAC that commits `cek` to all of it. */
  predicate HonestEnvelope(p: Suite, e: Envelope, kem: Kem, nonce: Bytes, cek: Bytes, hashesHash: Bytes, slots: seq<Slot>) {
    && e == Envelope(1, STREAM64K, kem, nonce, e.slots, p.slotsMac(cek, p.slotsHash(nonce, e.slots, kem, hashesHash)))
    && multiset(e.slots) == multiset(slots)
    && MaterialsDistinct(kem, e.slots)
  }

  predicate SlotsWrap(p: Suite, kem: Kem, pubs: seq<Bytes>, secrets: seq<Bytes>, cek: Bytes, nonce: Bytes)
    requires |pubs| == |secrets|
  {
    var slots := WrapAll(p, kem, nonce, pubs, secrets, cek);
    slots.Ok? && MaterialsDistinct(kem, slots.value)
  }

  predicate WrapSucceeds(p: Suite, kem: Kem, pubs: seq<Bytes>, secrets: seq<Bytes>, cek: Bytes, nonce: Bytes,
                         hashes: map<string, Bytes>, plaintext: Bytes)
  {
    && WrapInputsValid(kem, pubs, secrets, cek, nonce, hashes)
    && SlotsWrap(p, kem, pubs, secrets, cek, nonce)
    && Stream.SealFrom(p.aead, SlotsPayloadKey(p, cek, nonce), 0, plaintext).Some?
  }

  /** The argument checks, in order. */
  method CheckWrapInputs(kem: Kem, pubs: seq<Bytes>, secrets: seq<Bytes>, cek: Bytes, nonce: Bytes, hashes: map<string, Bytes>)
    returns (r: Option<WrapError>)
    ensures r.None? <==> WrapInputsValid(kem, pubs, secrets, cek, nonce, hashes)
  {
    if kem.OtherKem? {
      return Some(UnsupportedKemAlg);
    }
    if |pubs| < 1 {
      return Some(NoRecipients);
    }
    for i := 0 to |pubs|
      invariant forall k :: 0 <= k < i ==> |pubs[k]| == PublicKeyLength(kem)
    {
      if |pubs[i]| != PublicKeyLength(kem) {
        return Some(RecipientKeyLength);
      }
    }
    if |secrets| != |pubs| {
      return Some(SecretsCountMismatch);
    }
    if kem.MlKem768X25519? {
      for i := 0 to |secrets|
        invariant forall k :: 0 <= k < i ==> |secrets[k]| == 64
      {
        if |secrets[i]| != 64 {
          return Some(SecretLength);
        }
      }
    }
    if |cek| != 32 {
      return Some(CekLength);
    }
    if |nonce| != 24 {
      return Some(WrapNonceLength);
    }
    if hashes == map[] {
      return Some(NoContentHash);
    }
    return None;
  }

  /** The envelope, resolved before any content is sealed; `draws` are the shuffle's random picks. */
  method BuildEnvelope(p: Suite, kem: Kem, pubs: seq<Bytes>, secrets: seq<Bytes>, cek: Bytes, nonce: Bytes,
                       hashesHash: Bytes, draws: seq<nat>) returns (r: Result<Envelope, WrapError>)
    requires |pubs| == |secrets| && ArePicks(draws, |pubs|)
    ensures r.Ok? <==> SlotsWrap(p, kem, pubs, secrets, cek, nonce)
    ensures r.Ok? ==> HonestEnvelope(p, r.value, kem, nonce, cek, hashesHash, WrapAll(p, kem, nonce, pubs, secrets, cek).value)
    ensures r.Ok? ==> r.value.slots == Shuffled(WrapAll(p, kem, nonce, pubs, secrets, cek).value, draws)
  {
    var wrapped := WrapSlots(p, kem, nonce, pubs, secrets, cek);
    if wrapped.Err? {
      return Err(wrapped.error);
    }
    var repeated := HasDuplicateMaterial(kem, wrapped.value);
    if repeated {
      return Err(RepeatedKemMaterial);
    }
    var slots := CsprngShuffle(wrapped.value, draws);
    ShuffleKeepsContents(wrapped.value, draws);
    var slotsMac := p.slotsMac(cek, p.slotsHash(nonce, slots, kem, hashesHash));
    return Ok(Envelope(1, STREAM64K, kem, nonce, slots, slotsMac));
  }

  /** `cek`, `nonce` and `secrets` are the freshly drawn or the given ones. */
  method Wrap(p: Suite, plaintext: Bytes, kem: Kem, pubs: seq<Bytes>, secrets: seq<Bytes>, cek: Bytes, nonce: Bytes,
              hashes: map<string, Bytes>, draws: seq<nat>) returns (r: Result<(Envelope, Bytes), WrapError>)
    requires ArePicks(draws, |pubs|)
    requires forall k, s, i :: |p.hkdf(k, s, i)| == 32
    ensures r.Ok? <==> WrapSucceeds(p, kem, pubs, secrets, cek, nonce, hashes, plaintext)
    ensures r.Ok? ==>
      && HonestEnvelope(p, r.value.0, kem, nonce, cek, p.itemHash(hashes), WrapAll(p, kem, nonce, pubs, secrets, cek).value)
      && Stream.SealFrom(p.aead, SlotsPayloadKey(p, cek, nonce), 0, plaintext) == Some(r.value.1)
  {
    hide HonestEnvelope, SlotsWrap, Stream.SealFrom;
    var invalid := CheckWrapInputs(kem, pubs, secrets, cek, nonce, hashes);
    if invalid.Some? {
      return Err(invalid.value);
    }
    var envelope := BuildEnvelope(p, kem, pubs, secrets, cek, nonce, p.itemHash(hashes), draws);
    if envelope.Err? {
      return Err(envelope.error);
    }
    var ciphertext := Stream.StreamSeal(p.aead, SlotsPayloadKey(p, cek, nonce), plaintext);
    if ciphertext.Err? {
      return Err(ContentTooLong);
    }
    return Ok((envelope.value, ciphertext.value));
  }

  // ----- unwrap --------------------------------------------------------------------

  datatype Reason = WrongRecipientKey | TamperedHeader | TamperedCiphertext

  datatype Outcome = Matched(plaintext: Bytes) | NotMatched(reason: Reason)

  datatype UnwrapError = NoKeys | Gate(error: GateError) | MissingContentHash

  /** The three ways a caller may supply private keys. */
  datatype Keys = OneKey(priv: Bytes) | KeyList(privs: seq<Bytes>) | Bundle(x25519: seq<Bytes>, hybrid: seq<Bytes>)

  function KeysFor(e: Envelope, keys: Keys): seq<Bytes> {
    match keys
    case OneKey(priv) => [priv]
    case KeyList(privs) => privs
    case Bundle(x25519, hybrid) => if e.kem.X25519? then x25519 else hybrid
  }

  datatype Search = NoKeyMatches(anyWrapOpened: bool) | HeaderAnomaly | Found(cek: Bytes)

  /** The scan of an envelope's slots, as a function of the private key. */
  function Scanner(p: Suite, e: Envelope, slotsHash: Bytes): Bytes -> Scan {
    (priv: Bytes) => ScanOf(Attempts(p, e, priv, slotsHash))
  }

  /** Tries the keys in order: the first with an accepted slot wins, a conflict ends the search. */
  function TryKeys(scanWith: Bytes -> Scan, privs: seq<Bytes>, any: bool): Search {
    if privs == [] then NoKeyMatches(any)
    else
      var scan := scanWith(privs[0]);
      if scan.cekConflict then HeaderAnomaly
      else if scan.found then Found(scan.cek)
      else TryKeys(scanWith, privs[1..], any || scan.anyWrapOpened)
  }

  function HashOfSlots(p: Suite, e: Envelope, hashesHash: Bytes): Bytes {
    p.slotsHash(e.nonce, e.slots, e.kem, hashesHash)
  }

  /** The content, opened under the key the search found. */
  function OpenFound(p: Suite, nonce: Bytes, ciphertext: Bytes, search: Search): Outcome {
    match search
    case HeaderAnomaly => NotMatched(TamperedHeader)
    case NoKeyMatches(any) => NotMatched(if any then TamperedHeader else WrongRecipientKey)
    case Found(cek) =>
      var plaintext := Stream.OpenFrom(p.aead, SlotsPayloadKey(p, cek, nonce), 0, ciphertext);
      if plaintext.Some? then Matched(plaintext.value) else NotMatched(TamperedCiphertext)
  }

  function OpenWith(p: Suite, e: Envelope, ciphertext: Bytes, hashesHash: Bytes, privs: seq<Bytes>): Outcome {
    OpenFound(p, e.nonce, ciphertext, TryKeys(Scanner(p, e, HashOfSlots(p, e, hashesHash)), privs, false))
  }

  method FindKey(p: Suite, e: Envelope, slotsHash: Bytes, privs: seq<Bytes>) returns (r: Search)
    requires Stream.Exact(p.aead)
    requires forall i :: 0 <= i < |e.slots| ==> |e.slots[i].wrap| == 48
    ensures r == TryKeys(Scanner(p, e, slotsHash), privs, false)
  {
    var any := false;
    assert privs[0..] == privs;
    for k := 0 to |privs|
      invariant TryKeys(Scanner(p, e, slotsHash), privs, false) == TryKeys(Scanner(p, e, slotsHash), privs[k..], any)
    {
      assert privs[k..][1..] == privs[k + 1..];
      var scan := ScanSlots(p, e, privs[k], slotsHash);
      if scan.cekConflict {
        return HeaderAnomaly;
      }
      if scan.found {
        return Found(scan.cek);
      }
      any := any || scan.anyWrapOpened;
    }
    return NoKeyMatches(any);
  }

  method OpenContent(p: Suite, nonce: Bytes, ciphertext: Bytes, search: Search) returns (r: Outcome)
    requires forall k, s, i :: |p.hkdf(k, s, i)| == 32
    ensures r == OpenFound(p, nonce, ciphertext, search)
  {
    match search {
      case HeaderAnomaly => return NotMatched(TamperedHeader);
      case NoKeyMatches(any) => return NotMatched(if any then TamperedHeader else WrongRecipientKey);
      case Found(cek) =>
        var plaintext := Stream.StreamOpen(p.aead, SlotsPayloadKey(p, cek, nonce), ciphertext);
        return if plaintext.None? then NotMatched(TamperedCiphertext) else Matched(plaintext.value);
    }
  }

  /** What unwrap answers once it has at least one private key. */
  function UnwrapResult(p: Suite, e: Envelope, ciphertext: Bytes, hashes: map<string, Bytes>, privs: seq<Bytes>): Option<Outcome> {
    if PassesGate(e, privs) && hashes != map[] then Some(OpenWith(p, e, ciphertext, p.itemHash(hashes), privs)) else None
  }

  /** A bundle without a key for this KEM is a plain mismatch; everything else passes the gate first. */
  method Unwrap(p: Suite, e: Envelope, ciphertext: Bytes, hashes: map<string, Bytes>, keys: Keys)
    returns (r: Result<Outcome, UnwrapError>)
    requires Stream.Exact(p.aead)
    requires forall k, s, i :: |p.hkdf(k, s, i)| == 32
    ensures keys.Bundle? && KeysFor(e, keys) == [] ==> r == Ok(NotMatched(WrongRecipientKey))
    ensures keys.KeyList? && KeysFor(e, keys) == [] ==> r == Err(NoKeys)
    ensures KeysFor(e, keys) != [] ==>
      match UnwrapResult(p, e, ciphertext, hashes, KeysFor(e, keys))
      case Some(outcome) => r == Ok(outcome)
      case None => r.Err? && if PassesGate(e, KeysFor(e, keys)) then r.error == MissingContentHash else r.error.Gate?
  {
    var privs := KeysFor(e, keys);
    if |privs| == 0 {
      return if keys.Bundle? then Ok(NotMatched(WrongRecipientKey)) else Err(NoKeys);
    }
    var gate := AssertEnvelopeStructure(e, privs);
    if gate.Some? {
      return Err(Gate(gate.value));
    }
    if hashes == map[] {
      return Err(MissingContentHash);
    }
    var search := FindKey(p, e, HashOfSlots(p, e, p.itemHash(hashes)), privs);
    var outcome := OpenContent(p, e.nonce, ciphertext, search);
    return Ok(outcome);
  }
}
