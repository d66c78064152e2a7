/** The sealed envelope on the wire and the structural gate in front of every trial decryption. */
module SealedEnvelope {
  import opened Wrappers
  import opened ByteStrings

  const STREAM64K: string := "chacha20-poly1305-stream64k"
  const MAX_SLOTS: nat := 1024
  const MAX_DECODED_ENVELOPE_BYTES: nat := 65536

  datatype Kem = X25519 | MlKem768X25519 | OtherKem(name: string)

  datatype Slot = Slot(epk: Option<Bytes>, kemCt: Option<Bytes>, wrap: Bytes)

  datatype Envelope = Envelope(scheme: int, aead: string, kem: Kem, nonce: Bytes, slots: seq<Slot>, slotsMac: Bytes)

  datatype GateError =
    | UnsupportedScheme
    | UnsupportedAead
    | UnsupportedKem
    | SlotsEmpty
    | TooManySlots
    | NonceLength
    | SlotsMacLength
    | EpkLength
    | KemCtLength
    | WrapLength
    | EnvelopeTooLarge
    | DuplicateKemMaterial
    | InvalidRecipientKey

  function OrEmpty(b: Option<Bytes>): Bytes {
    if b.Some? then b.value else []
  }

  /** The per-slot KEM material: `epk` on the classical path, `kem_ct` on the hybrid one. */
  function Material(kem: Kem, slot: Slot): Bytes {
    OrEmpty(if kem.X25519? then slot.epk else slot.kemCt)
  }

  function MaterialLength(kem: Kem): nat {
    if kem.X25519? then 32 else 1120
  }

  // ----- the structural gate -------------------------------------------------------

  predicate SlotShaped(kem: Kem, slot: Slot) {
    |Material(kem, slot)| == MaterialLength(kem) && |slot.wrap| == 48
  }

  predicate MaterialsDistinct(kem: Kem, slots: seq<Slot>) {
    forall i, j :: 0 <= i < j < |slots| ==> Material(kem, slots[i]) != Material(kem, slots[j])
  }

  function DecodedBytes(kem: Kem, n: nat): nat {
    24 + 32 + n * (MaterialLength(kem) + 48)
  }

  predicate HeaderPasses(e: Envelope) {
    && e.scheme == 1
    && e.aead == STREAM64K
    && !e.kem.OtherKem?
    && 1 <= |e.slots| <= MAX_SLOTS
    && |e.nonce| == 24
    && |e.slotsMac| == 32
  }

  predicate SlotsPass(e: Envelope) {
    && (forall i :: 0 <= i < |e.slots| ==> SlotShaped(e.kem, e.slots[i]))
    && DecodedBytes(e.kem, |e.slots|) <= MAX_DECODED_ENVELOPE_BYTES
    && MaterialsDistinct(e.kem, e.slots)
  }

  predicate KeysPass(privs: seq<Bytes>) {
    forall k :: 0 <= k < |privs| ==> |privs[k]| == 32
  }

  predicate PassesGate(e: Envelope, privs: seq<Bytes>) {
    HeaderPasses(e) && SlotsPass(e) && KeysPass(privs)
  }

  method CheckHeader(e: Envelope) returns (r: Option<GateError>)
    ensures r.None? <==> HeaderPasses(e)
    ensures r == Some(SlotsEmpty) <==> e.scheme == 1 && e.aead == STREAM64K && !e.kem.OtherKem? && e.slots == []
    ensures r.Some? ==> r.value in {UnsupportedScheme, UnsupportedAead, UnsupportedKem, SlotsEmpty, TooManySlots, NonceLength, SlotsMacLength}
  {
    if e.scheme != 1 {
      return Some(UnsupportedScheme);
    }
    if e.aead != STREAM64K {
      return Some(UnsupportedAead);
    }
    if e.kem.OtherKem? {
      return Some(UnsupportedKem);
    }
    var n := |e.slots|;
    if n < 1 {
      return Some(SlotsEmpty);
    }
    if n > MAX_SLOTS {
      return Some(TooManySlots);
    }
    if |e.nonce| != 24 {
      return Some(NonceLength);
    }
    if |e.slotsMac| != 32 {
      return Some(SlotsMacLength);
    }
    return None;
  }

  /** Reports the first malformed slot, its KEM material before its wrap. */
  method CheckSlotLengths(kem: Kem, slots: seq<Slot>) returns (r: Option<GateError>)
    requires !kem.OtherKem?
    ensures r.None? <==> forall i :: 0 <= i < |slots| ==> SlotShaped(kem, slots[i])
    ensures r.Some? ==> exists i ::
      && 0 <= i < |slots|
      && !SlotShaped(kem, slots[i])
      && (forall j :: 0 <= j < i ==> SlotShaped(kem, slots[j]))
      && r.value == if |Material(kem, slots[i])| == MaterialLength(kem) then WrapLength
                    else if kem.X25519? then EpkLength else KemCtLength
  {
    for i := 0 to |slots|
      invariant forall j :: 0 <= j < i ==> SlotShaped(kem, slots[j])
    {
      var length := |Material(kem, slots[i])|;
      if length != MaterialLength(kem) {
        assert !SlotShaped(kem, slots[i]);
        return Some(if kem.X25519? then EpkLength else KemCtLength);
      }
      if |slots[i].wrap| != 48 {
        assert !SlotShaped(kem, slots[i]);
        return Some(WrapLength);
      }
    }
    return None;
  }

  /** Walks the slots with the set of materials seen so far. */
  method HasDuplicateMaterial(kem: Kem, slots: seq<Slot>) returns (found: bool)
    ensures found <==> !MaterialsDistinct(kem, slots)
  {
    var seen: set<Bytes> := {};
    for i := 0 to |slots|
      invariant forall m :: m in seen <==> exists j :: 0 <= j < i && Material(kem, slots[j]) == m
      invariant forall j, k :: 0 <= j < k < i ==> Material(kem, slots[j]) != Material(kem, slots[k])
    {
      var material := Material(kem, slots[i]);
      if material in seen {
        return true;
      }
      seen := seen + {material};
    }
    return false;
  }

  /** Every length is settled before any key is used; lengths, then size, uniqueness and keys. */
  method AssertEnvelopeStructure(e: Envelope, privs: seq<Bytes>) returns (r: Option<GateError>)
    ensures r.None? <==> PassesGate(e, privs)
    ensures r == Some(InvalidRecipientKey) <==> HeaderPasses(e) && SlotsPass(e) && !KeysPass(privs)
    ensures r == Some(DuplicateKemMaterial) <==>
      && HeaderPasses(e)
      && (forall i :: 0 <= i < |e.slots| ==> SlotShaped(e.kem, e.slots[i]))
      && DecodedBytes(e.kem, |e.slots|) <= MAX_DECODED_ENVELOPE_BYTES
      && !MaterialsDistinct(e.kem, e.slots)
    ensures r == Some(EnvelopeTooLarge) <==>
      && HeaderPasses(e)
      && (forall i :: 0 <= i < |e.slots| ==> SlotShaped(e.kem, e.slots[i]))
      && DecodedBytes(e.kem, |e.slots|) > MAX_DECODED_ENVELOPE_BYTES
  {
    r := CheckHeader(e);
    if r.Some? {
      return;
    }
    r := CheckSlotLengths(e.kem, e.slots);
    if r.Some? {
      return;
    }
    var perSlot := if e.kem.X25519? then 32 + 48 else 1120 + 48;
    if 24 + 32 + |e.slots| * perSlot > MAX_DECODED_ENVELOPE_BYTES {
      return Some(EnvelopeTooLarge);
    }
    var duplicate := HasDuplicateMaterial(e.kem, e.slots);
    if duplicate {
      return Some(DuplicateKemMaterial);
    }
    for k := 0 to |privs|
      invariant forall j :: 0 <= j < k ==> |privs[j]| == 32
    {
      if |privs[k]| != 32 {
        return Some(InvalidRecipientKey);
      }
    }
    return None;
  }
}
