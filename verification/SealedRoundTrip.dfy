/** What an honest wrap sealed, unwrap recovers: exactly for the envelopes that fit the gate's bounds. */
module SealedRoundTrip {
  import opened Wrappers
  import opened ByteStrings
  import Stream
  import opened SealedEnvelope
  import opened SealedSlots
  import opened SealedPoe

  /** The output lengths of the primitives. */
  ghost predicate WellSized(p: Suite) {
    && (forall k :: |p.x25519Public(k)| == 32)
    && (forall k, s :: p.xwingEncapsulate(k, s).Some? ==> |p.xwingEncapsulate(k, s).value.0| == 1120)
    && (forall c, h :: |p.slotsMac(c, h)| == 32)
    && (forall k, s, i :: |p.hkdf(k, s, i)| == 32)
  }

  /** Both ends of one slot's key agreement reach the same shared secret. */
  predicate Agrees(p: Suite, kem: Kem, priv: Bytes, secret: Bytes) {
    if kem.X25519? then
      p.x25519Shared(priv, p.x25519Public(secret)) == p.x25519Shared(secret, p.x25519Public(priv))
    else
      var sent := p.xwingEncapsulate(p.xwingPublic(priv), secret);
      sent.Some? ==> p.xwingDecapsulate(priv, sent.value.0) == sent.value.1
  }

  /** No other content key reproduces this envelope's slot MAC. */
  ghost predicate CommitsTo(p: Suite, e: Envelope, slotsHash: Bytes, cek: Bytes) {
    forall c :: |c| == 32 && p.slotsMac(c, slotsHash) == e.slotsMac ==> c == cek
  }

  /** What the theorems below assume of the primitives, for every key, secret and envelope. */
  ghost predicate Ideal(p: Suite) {
    && Stream.Exact(p.aead)
    && WellSized(p)
    && (forall kem, priv, secret :: Agrees(p, kem, priv, secret))
    && forall e: Envelope, h, cek :: |cek| == 32 && e.slotsMac == p.slotsMac(cek, h) ==> CommitsTo(p, e, h, cek)
  }

  /** Constant shared secrets under this cipher; a private key is its own public key, and a content key its own MAC. */
  function ToySuite(a: Stream.Aead): Suite {
    Suite.Suite(
      a,
      (k: Bytes, s: Bytes, i: string) => ZERO_32,
      (k: Kem, n: Bytes, m: Bytes, q: Bytes) => [],
      (n: Bytes, s: seq<Slot>, k: Kem, h: Bytes) => [],
      (h: map<string, Bytes>) => [],
      (c: Bytes, h: Bytes) => if |c| == 32 then c else ZERO_32,
      (k: Bytes) => if |k| == 32 then k else ZERO_32,
      (k: Bytes, q: Bytes) => Some(ZERO_32),
      (k: Bytes) => [],
      (k: Bytes, s: Bytes) => Some((Zeros(1120), ZERO_32)),
      (k: Bytes, c: Bytes) => ZERO_32)
  }

  lemma ToyIsWellSized(a: Stream.Aead)
    ensures WellSized(ToySuite(a))
  {
    hide Zeros;
    var p := ToySuite(a);
    assert forall k :: |p.x25519Public(k)| == 32;
    assert forall k, s, i :: |p.hkdf(k, s, i)| == 32;
    assert forall c, h :: |p.slotsMac(c, h)| == 32;
  }

  lemma ToyAgrees(a: Stream.Aead, kem: Kem, priv: Bytes, secret: Bytes)
    ensures Agrees(ToySuite(a), kem, priv, secret)
  {
    hide Zeros;
  }

  lemma ToyCommits(a: Stream.Aead, e: Envelope, h: Bytes, cek: Bytes)
    requires |cek| == 32 && e.slotsMac == ToySuite(a).slotsMac(cek, h)
    ensures CommitsTo(ToySuite(a), e, h, cek)
  {
    hide Zeros;
  }

  /** The hypotheses can hold together. */
  lemma HypothesesConsistent()
    ensures exists p :: Ideal(p)
  {
    hide Stream.Exact, ToySuite, WellSized, Agrees, CommitsTo;
    Stream.HypothesesConsistent();
    var a :| Stream.Exact(a);
    var p := ToySuite(a);
    assert p.aead == a by {
      ToyCipher(a);
    }
    ToyIsWellSized(a);
    forall kem, priv, secret ensures Agrees(p, kem, priv, secret) {
      ToyAgrees(a, kem, priv, secret);
    }
    forall e: Envelope, h, cek | |cek| == 32 && e.slotsMac == p.slotsMac(cek, h) ensures CommitsTo(p, e, h, cek) {
      ToyCommits(a, e, h, cek);
    }
    assert Ideal(p);
  }

  lemma ToyCipher(a: Stream.Aead)
    ensures ToySuite(a).aead == a
  {
  }

  /** The private key `priv` has an accepted slot. */
  predicate HasAccepted(p: Suite, e: Envelope, slotsHash: Bytes, priv: Bytes) {
    exists i :: 0 <= i < |e.slots| && Accepted(TrySlot(p, e, priv, slotsHash, e.slots[i]))
  }

  predicate WrapsSized(e: Envelope) {
    forall i :: 0 <= i < |e.slots| ==> |e.slots[i].wrap| == 48
  }

  // ----- searching under a committing MAC ------------------------------------------

  /** Whatever other slots are mixed in, the scan finds the committed key or nothing, without conflict. */
  lemma ScanUnderCommitment(p: Suite, e: Envelope, slotsHash: Bytes, cek: Bytes, priv: Bytes)
    requires Stream.Exact(p.aead) && WrapsSized(e) && CommitsTo(p, e, slotsHash, cek)
    ensures var scan := ScanOf(Attempts(p, e, priv, slotsHash));
            && !scan.cekConflict
            && (scan.found <==> HasAccepted(p, e, slotsHash, priv))
            && (scan.found ==> scan.cek == cek)
  {
    var ts := Attempts(p, e, priv, slotsHash);
    forall i | 0 <= i < |ts| && Accepted(ts[i]) ensures ts[i].cek == cek {
      CandidateLength(p, e, priv, slotsHash, e.slots[i]);
    }
    if HasAccepted(p, e, slotsHash, priv) {
      var i :| 0 <= i < |e.slots| && Accepted(TrySlot(p, e, priv, slotsHash, e.slots[i]));
      assert Accepted(ts[i]);
    }
  }

  /** Scans that can only find `cek` make the whole search find `cek` or nothing. */
  lemma {:induction false} SearchFinds(scanWith: Bytes -> Scan, privs: seq<Bytes>, any: bool, cek: Bytes)
    requires forall k :: 0 <= k < |privs| ==>
      !scanWith(privs[k]).cekConflict && (scanWith(privs[k]).found ==> scanWith(privs[k]).cek == cek)
    ensures var r := TryKeys(scanWith, privs, any);
            if exists k :: 0 <= k < |privs| && scanWith(privs[k]).found then r == Found(cek) else r.NoKeyMatches?
    decreases |privs|
  {
    if privs != [] {
      var rest := privs[1..];
      forall k | 0 < k < |privs| ensures privs[k] == rest[k - 1] {
      }
      SearchFinds(scanWith, rest, any || scanWith(privs[0]).anyWrapOpened, cek);
    }
  }

  lemma SearchUnderCommitment(p: Suite, e: Envelope, slotsHash: Bytes, cek: Bytes, privs: seq<Bytes>)
    requires Stream.Exact(p.aead) && WrapsSized(e) && CommitsTo(p, e, slotsHash, cek)
    ensures var r := TryKeys(Scanner(p, e, slotsHash), privs, false);
            if exists k :: 0 <= k < |privs| && HasAccepted(p, e, slotsHash, privs[k]) then r == Found(cek) else r.NoKeyMatches?
  {
    var scanWith := Scanner(p, e, slotsHash);
    forall k | 0 <= k < |privs|
      ensures !scanWith(privs[k]).cekConflict
      ensures scanWith(privs[k]).found ==> scanWith(privs[k]).cek == cek
      ensures scanWith(privs[k]).found <==> HasAccepted(p, e, slotsHash, privs[k])
    {
      ScanUnderCommitment(p, e, slotsHash, cek, privs[k]);
    }
    SearchFinds(scanWith, privs, false, cek);
  }

  /** Under a committing MAC, opening matches exactly when some key has an accepted slot and the content opens. */
  lemma MatchesIff(p: Suite, e: Envelope, ciphertext: Bytes, hashesHash: Bytes, cek: Bytes, privs: seq<Bytes>, plaintext: Bytes)
    requires Stream.Exact(p.aead) && WrapsSized(e) && CommitsTo(p, e, HashOfSlots(p, e, hashesHash), cek)
    ensures OpenWith(p, e, ciphertext, hashesHash, privs) == Matched(plaintext)
            <==> && (exists k :: 0 <= k < |privs| && HasAccepted(p, e, HashOfSlots(p, e, hashesHash), privs[k]))
                 && Stream.SealFrom(p.aead, SlotsPayloadKey(p, cek, e.nonce), 0, plaintext) == Some(ciphertext)
  {
    SearchUnderCommitment(p, e, HashOfSlots(p, e, hashesHash), cek, privs);
    Stream.OpenExactlySealed(p.aead, SlotsPayloadKey(p, cek, e.nonce), ciphertext, plaintext);
  }

  // ----- why nothing was opened ----------------------------------------------------

  /** The KEM and the wrap of some slot open under this private key. */
  predicate HasOpened(p: Suite, e: Envelope, slotsHash: Bytes, priv: Bytes) {
    exists i :: 0 <= i < |e.slots| && TrySlot(p, e, priv, slotsHash, e.slots[i]).kemOk && TrySlot(p, e, priv, slotsHash, e.slots[i]).openOk
  }

  lemma ScanOpened(p: Suite, e: Envelope, slotsHash: Bytes, priv: Bytes)
    ensures var scan := ScanOf(Attempts(p, e, priv, slotsHash));
            && (scan.anyWrapOpened <==> HasOpened(p, e, slotsHash, priv))
            && (scan.found || scan.cekConflict ==> scan.anyWrapOpened)
  {
    hide TrySlot;
    var ts := Attempts(p, e, priv, slotsHash);
    if HasOpened(p, e, slotsHash, priv) {
      var i :| 0 <= i < |e.slots| && TrySlot(p, e, priv, slotsHash, e.slots[i]).kemOk && TrySlot(p, e, priv, slotsHash, e.slots[i]).openOk;
      assert ts[i].kemOk && ts[i].openOk;
    }
  }

  /** The search reports no opened wrap exactly when no scan saw one. */
  lemma {:induction false} SearchSeesNothing(scanWith: Bytes -> Scan, privs: seq<Bytes>, any: bool)
    requires forall k :: 0 <= k < |privs| ==>
      scanWith(privs[k]).found || scanWith(privs[k]).cekConflict ==> scanWith(privs[k]).anyWrapOpened
    ensures TryKeys(scanWith, privs, any) == NoKeyMatches(false)
            <==> !any && forall k :: 0 <= k < |privs| ==> !scanWith(privs[k]).anyWrapOpened
    decreases |privs|
  {
    if privs != [] {
      var rest := privs[1..];
      forall k | 0 < k < |privs| ensures privs[k] == rest[k - 1] {
      }
      SearchSeesNothing(scanWith, rest, any || scanWith(privs[0]).anyWrapOpened);
    }
  }

  /** A stranger's keys: the reason is a wrong key exactly when they open no slot at all, honest envelope or not. */
  lemma WrongKeyIff(p: Suite, e: Envelope, ciphertext: Bytes, hashesHash: Bytes, privs: seq<Bytes>)
    ensures OpenWith(p, e, ciphertext, hashesHash, privs) == NotMatched(WrongRecipientKey)
            <==> forall k :: 0 <= k < |privs| ==> !HasOpened(p, e, HashOfSlots(p, e, hashesHash), privs[k])
  {
    hide ScanOf, HasOpened, TryKeys;
    var h := HashOfSlots(p, e, hashesHash);
    var scanWith := Scanner(p, e, h);
    forall k | 0 <= k < |privs|
      ensures scanWith(privs[k]).found || scanWith(privs[k]).cekConflict ==> scanWith(privs[k]).anyWrapOpened
      ensures scanWith(privs[k]).anyWrapOpened <==> HasOpened(p, e, h, privs[k])
    {
      ScanOpened(p, e, h, privs[k]);
    }
    SearchSeesNothing(scanWith, privs, false);
  }

  /**
    Under a committing MAC: a tampered header when a slot opens but none is accepted, and tampered
    ciphertext when one is accepted but the content was sealed from nothing.
    */
  lemma TamperedIff(p: Suite, e: Envelope, ciphertext: Bytes, hashesHash: Bytes, cek: Bytes, privs: seq<Bytes>)
    requires Stream.Exact(p.aead) && WrapsSized(e) && CommitsTo(p, e, HashOfSlots(p, e, hashesHash), cek)
    ensures var h := HashOfSlots(p, e, hashesHash);
            && (OpenWith(p, e, ciphertext, hashesHash, privs) == NotMatched(TamperedHeader)
                <==> && (exists k :: 0 <= k < |privs| && HasOpened(p, e, h, privs[k]))
                     && forall k :: 0 <= k < |privs| ==> !HasAccepted(p, e, h, privs[k]))
            && (OpenWith(p, e, ciphertext, hashesHash, privs) == NotMatched(TamperedCiphertext)
                <==> && (exists k :: 0 <= k < |privs| && HasAccepted(p, e, h, privs[k]))
                     && forall plaintext :: Stream.SealFrom(p.aead, SlotsPayloadKey(p, cek, e.nonce), 0, plaintext) != Some(ciphertext))
  {
    hide TryKeys, HasOpened, HasAccepted, Stream.SealFrom, Stream.OpenFrom, SlotsPayloadKey, Stream.Exact;
    var h := HashOfSlots(p, e, hashesHash);
    SearchUnderCommitment(p, e, h, cek, privs);
    WrongKeyIff(p, e, ciphertext, hashesHash, privs);
    ContentOpensIff(p.aead, SlotsPayloadKey(p, cek, e.nonce), ciphertext);
  }

  lemma ContentOpensIff(a: Stream.Aead, key: Bytes, ciphertext: Bytes)
    requires Stream.Exact(a)
    ensures Stream.OpenFrom(a, key, 0, ciphertext) == None
            <==> forall plaintext :: Stream.SealFrom(a, key, 0, plaintext) != Some(ciphertext)
  {
    hide Stream.Exact, Stream.OpenFrom, Stream.SealFrom;
    var content := Stream.OpenFrom(a, key, 0, ciphertext);
    if content.Some? {
      Stream.OpenExactlySealed(a, key, ciphertext, content.value);
    }
    forall plaintext | Stream.SealFrom(a, key, 0, plaintext) == Some(ciphertext) ensures content == Some(plaintext) {
      Stream.OpenExactlySealed(a, key, ciphertext, plaintext);
    }
  }

  /** No content key reproduces this envelope's slot MAC over another transcript. */
  ghost predicate MacBinds(p: Suite, e: Envelope, slotsHash: Bytes) {
    forall c, h :: |c| == 32 && p.slotsMac(c, h) == e.slotsMac ==> h == slotsHash
  }

  /**
    A header whose nonce, slots, KEM or content hashes were changed has no accepted slot under any key,
    when the MAC binds the transcript and the transcript hash tells the two headers apart.
    */
  lemma ChangedHeaderRefused(p: Suite, e: Envelope, hashesHash: Bytes, changed: Envelope, changedHash: Bytes, priv: Bytes)
    requires Stream.Exact(p.aead) && WrapsSized(changed) && changed.slotsMac == e.slotsMac
    requires p.slotsHash(changed.nonce, changed.slots, changed.kem, changedHash) != p.slotsHash(e.nonce, e.slots, e.kem, hashesHash)
    requires MacBinds(p, e, HashOfSlots(p, e, hashesHash))
    ensures !HasAccepted(p, changed, HashOfSlots(p, changed, changedHash), priv)
  {
    var h := HashOfSlots(p, changed, changedHash);
    forall i | 0 <= i < |changed.slots| ensures !Accepted(TrySlot(p, changed, priv, h, changed.slots[i])) {
      CandidateLength(p, changed, priv, h, changed.slots[i]);
    }
  }

  // ----- what the derived keys are bound to ----------------------------------------

  /** Key derivation and its salt do not collide. */
  ghost predicate CollisionFree(p: Suite) {
    && (forall k, s, i, k', s', i' {:trigger p.hkdf(k, s, i), p.hkdf(k', s', i')} ::
          p.hkdf(k, s, i) == p.hkdf(k', s', i') ==> k == k' && s == s' && i == i')
    && (forall k, n, m, q, k', n', m', q' {:trigger p.kekSalt(k, n, m, q), p.kekSalt(k', n', m', q')} ::
          p.kekSalt(k, n, m, q) == p.kekSalt(k', n', m', q') ==> k == k' && n == n' && m == m' && q == q')
  }

  /** A slot's key is bound to the KEM, the envelope, the secret, the slot and the recipient; the content's to its key and the envelope. */
  lemma KeysBound(p: Suite, kem: Kem, nonce: Bytes, shared: Bytes, material: Bytes, pub: Bytes,
                  kem': Kem, nonce': Bytes, shared': Bytes, material': Bytes, pub': Bytes)
    requires CollisionFree(p)
    ensures Kek(p, kem, nonce, shared, material, pub) == Kek(p, kem', nonce', shared', material', pub')
            <==> kem == kem' && nonce == nonce' && shared == shared' && material == material' && pub == pub'
    ensures SlotsPayloadKey(p, shared, nonce) == SlotsPayloadKey(p, shared', nonce') <==> shared == shared' && nonce == nonce'
    ensures Kek(p, kem, nonce, shared, material, pub) != SlotsPayloadKey(p, shared', nonce')
  {
    InfosDiffer(kem);
  }

  lemma InfosDiffer(kem: Kem)
    ensures KekInfo(kem) != "cardano-poe-payload-v1"
  {
    assert KekInfo(kem)[12] == 'k';
  }

  // ----- honest envelopes ----------------------------------------------------------

  /** A recipient's own slot is accepted and yields the wrapped key. */
  lemma HonestSlotAccepted(p: Suite, e: Envelope, slotsHash: Bytes, priv: Bytes, secret: Bytes, cek: Bytes, slot: Slot)
    requires Stream.Exact(p.aead) && !e.kem.OtherKem? && Agrees(p, e.kem, priv, secret)
    requires WrapSlot(p, e.kem, e.nonce, PublicKey(p, e.kem, priv), secret, cek) == Ok(slot)
    requires e.slotsMac == p.slotsMac(cek, slotsHash)
    ensures Accepted(TrySlot(p, e, priv, slotsHash, slot))
  {
    var shared := SharedSecret(p, e.kem, priv, slot);
    assert shared.Some?;
    var kek := Kek(p, e.kem, e.nonce, shared.value, Material(e.kem, slot), PublicKey(p, e.kem, priv));
    assert slot.wrap == p.aead.enc(kek, ZERO_NONCE_12, Ascii(KekInfo(e.kem)), cek);
    assert p.aead.dec(kek, ZERO_NONCE_12, Ascii(KekInfo(e.kem)), slot.wrap) == Some(cek);
  }

  lemma WrappedSlotShaped(p: Suite, kem: Kem, nonce: Bytes, pub: Bytes, secret: Bytes, cek: Bytes, slot: Slot)
    requires Stream.Exact(p.aead) && WellSized(p) && |cek| == 32
    requires WrapSlot(p, kem, nonce, pub, secret, cek) == Ok(slot)
    ensures SlotShaped(kem, slot)
  {
  }

  /** The most recipients an envelope can have and still pass the gate. */
  function RecipientLimit(kem: Kem): nat {
    if kem.X25519? then 818 else 56
  }

  lemma PermutedMember(a: seq<Slot>, b: seq<Slot>, i: nat) returns (j: nat)
    requires multiset(a) == multiset(b) && i < |a|
    ensures j < |b| && b[j] == a[i]
  {
    assert a[i] in multiset(a);
    assert a[i] in b;
    j :| 0 <= j < |b| && b[j] == a[i];
  }

  lemma PermutedLength(a: seq<Slot>, b: seq<Slot>)
    requires multiset(a) == multiset(b)
    ensures |a| == |b|
  {
    assert |multiset(a)| == |a| && |multiset(b)| == |b|;
  }

  lemma HonestSlotsShaped(p: Suite, e: Envelope, kem: Kem, nonce: Bytes, cek: Bytes, hashesHash: Bytes, pubs: seq<Bytes>, secrets: seq<Bytes>)
    requires Stream.Exact(p.aead) && WellSized(p) && |pubs| == |secrets| && |cek| == 32
    requires WrapAll(p, kem, nonce, pubs, secrets, cek).Ok?
    requires HonestEnvelope(p, e, kem, nonce, cek, hashesHash, WrapAll(p, kem, nonce, pubs, secrets, cek).value)
    ensures |e.slots| == |pubs|
    ensures forall i :: 0 <= i < |e.slots| ==> SlotShaped(kem, e.slots[i])
  {
    var slots := WrapAll(p, kem, nonce, pubs, secrets, cek).value;
    PermutedLength(e.slots, slots);
    forall i | 0 <= i < |e.slots| ensures SlotShaped(kem, e.slots[i]) {
      var j := PermutedMember(e.slots, slots, i);
      WrappedSlotShaped(p, kem, nonce, pubs[j], secrets[j], cek, slots[j]);
    }
  }

  /** An honest envelope passes the gate exactly when it has few enough recipients. */
  lemma HonestPassesGateIff(p: Suite, e: Envelope, kem: Kem, nonce: Bytes, cek: Bytes, hashes: map<string, Bytes>,
                            pubs: seq<Bytes>, secrets: seq<Bytes>, privs: seq<Bytes>)
    requires Stream.Exact(p.aead) && WellSized(p) && WrapInputsValid(kem, pubs, secrets, cek, nonce, hashes)
    requires WrapAll(p, kem, nonce, pubs, secrets, cek).Ok?
    requires HonestEnvelope(p, e, kem, nonce, cek, p.itemHash(hashes), WrapAll(p, kem, nonce, pubs, secrets, cek).value)
    ensures PassesGate(e, privs) <==> |pubs| <= RecipientLimit(kem) && KeysPass(privs)
  {
    HonestSlotsShaped(p, e, kem, nonce, cek, p.itemHash(hashes), pubs, secrets);
    var n := |e.slots|;
    assert 1 <= n;
    assert DecodedBytes(kem, n) == 56 + n * (if kem.X25519? then 80 else 1168);
  }

  lemma RecipientHasAccepted(p: Suite, e: Envelope, kem: Kem, nonce: Bytes, cek: Bytes, hashesHash: Bytes,
                             pubs: seq<Bytes>, secrets: seq<Bytes>, i: nat, priv: Bytes)
    requires Stream.Exact(p.aead) && !kem.OtherKem? && |pubs| == |secrets| && i < |pubs|
    requires WrapAll(p, kem, nonce, pubs, secrets, cek).Ok?
    requires HonestEnvelope(p, e, kem, nonce, cek, hashesHash, WrapAll(p, kem, nonce, pubs, secrets, cek).value)
    requires pubs[i] == PublicKey(p, kem, priv) && Agrees(p, kem, priv, secrets[i])
    ensures HasAccepted(p, e, HashOfSlots(p, e, hashesHash), priv)
  {
    var slots := WrapAll(p, kem, nonce, pubs, secrets, cek).value;
    HonestSlotAccepted(p, e, HashOfSlots(p, e, hashesHash), priv, secrets[i], cek, slots[i]);
    var j := PermutedMember(slots, e.slots, i);
    assert Accepted(TrySlot(p, e, priv, HashOfSlots(p, e, hashesHash), e.slots[j]));
  }

  /**
    Every recipient of a successful wrap recovers the plaintext, with any list of 32-byte keys that
    holds theirs, exactly when the number of recipients is within the gate's limit.
    */
  lemma UnwrapRecoversIff(p: Suite, e: Envelope, kem: Kem, nonce: Bytes, cek: Bytes, hashes: map<string, Bytes>,
                          pubs: seq<Bytes>, secrets: seq<Bytes>, plaintext: Bytes, ciphertext: Bytes,
                          i: nat, privs: seq<Bytes>, k: nat)
    requires Stream.Exact(p.aead) && WellSized(p)
    requires WrapSucceeds(p, kem, pubs, secrets, cek, nonce, hashes, plaintext)
    requires HonestEnvelope(p, e, kem, nonce, cek, p.itemHash(hashes), WrapAll(p, kem, nonce, pubs, secrets, cek).value)
    requires Stream.SealFrom(p.aead, SlotsPayloadKey(p, cek, nonce), 0, plaintext) == Some(ciphertext)
    requires CommitsTo(p, e, HashOfSlots(p, e, p.itemHash(hashes)), cek)
    requires i < |pubs| && k < |privs| && KeysPass(privs)
    requires pubs[i] == PublicKey(p, kem, privs[k]) && Agrees(p, kem, privs[k], secrets[i])
    ensures UnwrapResult(p, e, ciphertext, hashes, privs) == Some(Matched(plaintext)) <==> |pubs| <= RecipientLimit(kem)
    ensures UnwrapResult(p, e, ciphertext, hashes, privs) == None <==> |pubs| > RecipientLimit(kem)
  {
    HonestPassesGateIff(p, e, kem, nonce, cek, hashes, pubs, secrets, privs);
    HonestSlotsShaped(p, e, kem, nonce, cek, p.itemHash(hashes), pubs, secrets);
    RecipientHasAccepted(p, e, kem, nonce, cek, p.itemHash(hashes), pubs, secrets, i, privs[k]);
    MatchesIff(p, e, ciphertext, p.itemHash(hashes), cek, privs, plaintext);
  }
}
