/**
  The structural validator on a sealed-recipient `enc` block, the projection onto the envelope that
  unwrap consumes, and exactly when a block without issues passes unwrap's own gate.
  */
module ValidatorAgreement {
  import opened Wrappers
  import opened ByteStrings
  import Cbor
  import K = KeyOrder
  import R = RecordSize
  import opened SealedEnvelope

  /** A field of a decoded map: missing, present as CBOR null, or present with a value of its type. */
  datatype Wire<+T> = Absent | Null | Given(value: T)

  datatype WireSlot = WireSlot(epk: Wire<Bytes>, kemCt: Wire<Bytes>, wrap: Wire<Bytes>, stray: seq<K.Entry>)

  /** A scheme-1 block with the supported cipher and no passphrase part; fields hold their wire types. */
  datatype WireEnc = WireEnc(nonce: Wire<Bytes>, kem: Wire<Kem>, slots: Wire<seq<WireSlot>>, slotsMac: Wire<Bytes>)

  datatype Issue =
    | BlockTooLarge
    | NonceMissing
    | NonceType
    | NonceBadLength
    | SlotsMacBadLength
    | SlotsMacRequired
    | SlotsRequired
    | KemRequired
    | NoKeyPath
    | NoSlots
    | SlotCountTooLarge
    | SlotShape(index: nat)
    | MaterialBadLength(index: nat)
    | SlotWrapLength(index: nat)
    | RepeatedMaterial(index: nat)

  /** Crashed stands for an uncaught type or key error; Opaque for the unsupported-identifier reading. */
  datatype Verdict = Checked(issues: seq<Issue>) | Opaque | Crashed

  // ----- encoded size --------------------------------------------------------------

  const NULL_ITEM: Cbor.Item := Cbor.Item(Cbor.Head(7, 22, 22), [], [])

  function WireField(name: string, w: Wire<Cbor.Item>): seq<K.Entry> {
    match w
    case Absent => []
    case Null => [R.Field(name, NULL_ITEM)]
    case Given(v) => [R.Field(name, v)]
  }

  function BytesField(name: string, w: Wire<Bytes>): seq<K.Entry> {
    WireField(name, match w case Absent => Absent case Null => Null case Given(b) => Given(R.ByteString(b)))
  }

  function SlotItem(s: WireSlot): Cbor.Item {
    K.Map(BytesField("epk", s.epk) + BytesField("kem_ct", s.kemCt) + BytesField("wrap", s.wrap) + s.stray)
  }

  function SlotItems(slots: seq<WireSlot>): (r: seq<Cbor.Item>)
    ensures |r| == |slots|
  {
    if slots == [] then [] else [SlotItem(slots[0])] + SlotItems(slots[1..])
  }

  function KemId(k: Kem): string {
    match k
    case X25519 => "x25519"
    case MlKem768X25519 => "mlkem768x25519"
    case OtherKem(name) => name
  }

  /** The canonical encoding of the block, whose length is the resource bound's measure. */
  function EncItem(e: WireEnc): Cbor.Item {
    K.Map([R.Field("scheme", R.UInt(1)), R.Field("aead", R.Text(Ascii(STREAM64K)))]
          + WireField("kem", match e.kem case Absent => Absent case Null => Null case Given(k) => Given(R.Text(Ascii(KemId(k)))))
          + WireField("slots", match e.slots case Absent => Absent case Null => Null case Given(s) => Given(R.Array(SlotItems(s))))
          + BytesField("nonce", e.nonce)
          + BytesField("slots_mac", e.slotsMac))
  }

  // ----- the validator -------------------------------------------------------------

  function MaterialField(kem: Kem, s: WireSlot): Wire<Bytes> {
    if kem.X25519? then s.epk else s.kemCt
  }

  function ForeignField(kem: Kem, s: WireSlot): Wire<Bytes> {
    if kem.X25519? then s.kemCt else s.epk
  }

  predicate SlotClean(kem: Kem, s: WireSlot) {
    && ForeignField(kem, s).Absent?
    && s.stray == []
    && MaterialField(kem, s).Given?
    && |MaterialField(kem, s).value| == MaterialLength(kem)
    && s.wrap.Given?
    && |s.wrap.value| == 48
  }

  method CheckSlotShape(kem: Kem, s: WireSlot, i: nat) returns (issues: seq<Issue>)
    ensures issues == [] <==> SlotClean(kem, s)
  {
    issues := [];
    if !ForeignField(kem, s).Absent? {
      issues := issues + [SlotShape(i)];
    }
    for k := 0 to |s.stray|
      invariant |issues| >= k && (k == 0 ==> (issues == [] <==> ForeignField(kem, s).Absent?))
    {
      issues := issues + [SlotShape(i)];
    }
    var material := MaterialField(kem, s);
    if !material.Given? {
      issues := issues + [SlotShape(i)];
    } else if |material.value| != MaterialLength(kem) {
      issues := issues + [MaterialBadLength(i)];
    }
    if !s.wrap.Given? {
      issues := issues + [SlotShape(i)];
    } else if |s.wrap.value| != 48 {
      issues := issues + [SlotWrapLength(i)];
    }
  }

  predicate AllClean(kem: Kem, slots: seq<WireSlot>) {
    forall i :: 0 <= i < |slots| ==> SlotClean(kem, slots[i])
  }

  predicate GivenDistinct(kem: Kem, slots: seq<WireSlot>) {
    forall i, j :: 0 <= i < j < |slots| && MaterialField(kem, slots[i]).Given? ==> MaterialField(kem, slots[i]) != MaterialField(kem, slots[j])
  }

  predicate Repeats(kem: Kem, before: seq<WireSlot>, s: WireSlot) {
    MaterialField(kem, s).Given? && exists j :: 0 <= j < |before| && MaterialField(kem, before[j]) == MaterialField(kem, s)
  }

  lemma SlotsSnoc(kem: Kem, before: seq<WireSlot>, s: WireSlot)
    ensures AllClean(kem, before + [s]) <==> AllClean(kem, before) && SlotClean(kem, s)
    ensures GivenDistinct(kem, before + [s]) <==> GivenDistinct(kem, before) && !Repeats(kem, before, s)
  {
    hide SlotClean;
    var all := before + [s];
    assert forall i :: 0 <= i < |before| ==> all[i] == before[i];
    assert all[|before|] == s;
  }

  /** Walks the slots, growing the issue list and the set of materials seen. */
  method CheckSlots(kem: Kem, slots: seq<WireSlot>) returns (issues: seq<Issue>)
    ensures issues == [] <==> AllClean(kem, slots) && GivenDistinct(kem, slots)
  {
    assert AllClean(kem, []) && GivenDistinct(kem, []);
    hide SlotClean, AllClean, GivenDistinct;
    issues := [];
    var seen: set<Bytes> := {};
    for i := 0 to |slots|
      invariant forall m :: m in seen <==> exists j :: 0 <= j < i && MaterialField(kem, slots[j]) == Given(m)
      invariant issues == [] <==> AllClean(kem, slots[..i]) && GivenDistinct(kem, slots[..i])
    {
      var shape := CheckSlotShape(kem, slots[i], i);
      assert slots[..i + 1] == slots[..i] + [slots[i]];
      SlotsSnoc(kem, slots[..i], slots[i]);
      issues := issues + shape;
      var material := MaterialField(kem, slots[i]);
      if material.Given? {
        if material.value in seen {
          issues := issues + [RepeatedMaterial(i)];
        } else {
          seen := seen + {material.value};
        }
      }
    }
    assert slots[..|slots|] == slots;
  }

  /** The typed shape gate: fields whose own length or type is wrong. */
  predicate ShapeClean(e: WireEnc) {
    e.nonce.Given? && (e.slotsMac.Given? ==> |e.slotsMac.value| == 32)
  }

  /** The cross-field and per-slot rules; a null list or algorithm id is not caught by the shape gate. */
  method CheckScheme1(e: WireEnc) returns (v: Verdict)
    requires ShapeClean(e) && !(e.kem.Given? && e.kem.value.OtherKem?)
    ensures v == Crashed <==> e.slots.Null? || (e.slots.Given? && 1 <= |e.slots.value| <= MAX_SLOTS && e.kem.Null?)
    ensures v == Checked([]) <==>
      && |e.nonce.value| == 24
      && e.slots.Given?
      && !e.slotsMac.Absent?
      && e.kem.Given?
      && 1 <= |e.slots.value| <= MAX_SLOTS
      && AllClean(e.kem.value, e.slots.value)
      && GivenDistinct(e.kem.value, e.slots.value)
    ensures v != Opaque
  {
    var issues: seq<Issue> := [];
    if |e.nonce.value| != 24 {
      issues := issues + [NonceBadLength];
    }
    var hasSlots, hasSlotsMac, hasKem := !e.slots.Absent?, !e.slotsMac.Absent?, !e.kem.Absent?;
    if hasSlots && !hasSlotsMac {
      issues := issues + [SlotsMacRequired];
    }
    if hasSlotsMac && !hasSlots {
      issues := issues + [SlotsRequired];
    }
    if hasSlots && !hasKem {
      issues := issues + [KemRequired];
    }
    if !hasSlots {
      return Checked(issues + [NoKeyPath]);
    }
    if e.slots.Null? {
      return Crashed;
    }
    if |e.slots.value| < 1 {
      issues := issues + [NoSlots];
    } else if |e.slots.value| > MAX_SLOTS {
      issues := issues + [SlotCountTooLarge];
    } else if hasKem {
      if e.kem.Null? {
        return Crashed;
      }
      var slotIssues := CheckSlots(e.kem.value, e.slots.value);
      issues := issues + slotIssues;
    }
    return Checked(issues);
  }

  /** No issue is reported for the block. */
  predicate Accepted(e: WireEnc) {
    && R.Size(EncItem(e)) <= MAX_DECODED_ENVELOPE_BYTES
    && ShapeClean(e)
    && |e.nonce.value| == 24
    && e.slots.Given?
    && !e.slotsMac.Absent?
    && e.kem.Given?
    && !e.kem.value.OtherKem?
    && 1 <= |e.slots.value| <= MAX_SLOTS
    && AllClean(e.kem.value, e.slots.value)
    && GivenDistinct(e.kem.value, e.slots.value)
  }

  /** The size bound, the identifier dispatch, the shape gate, then the scheme-1 rules. */
  method CheckEnvelope(e: WireEnc) returns (v: Verdict)
    ensures v == Checked([]) <==> Accepted(e)
    ensures v == Opaque <==> e.kem.Given? && e.kem.value.OtherKem?
  {
    hide AllClean, GivenDistinct, EncItem, R.Size;
    var issues: seq<Issue> := [];
    if R.Size(EncItem(e)) > MAX_DECODED_ENVELOPE_BYTES {
      issues := issues + [BlockTooLarge];
    }
    if e.kem.Given? && e.kem.value.OtherKem? {
      return Opaque;
    }
    var shape: seq<Issue> := [];
    if e.nonce.Absent? {
      shape := shape + [NonceMissing];
    } else if e.nonce.Null? {
      shape := shape + [NonceType];
    }
    if e.slotsMac.Given? && |e.slotsMac.value| != 32 {
      shape := shape + [SlotsMacBadLength];
    }
    if shape != [] {
      return Checked(issues + shape);
    }
    var typed := CheckScheme1(e);
    if typed.Crashed? {
      return Crashed;
    }
    return Checked(issues + typed.issues);
  }

  // ----- the projection onto unwrap's envelope -------------------------------------

  function OptionOf(w: Wire<Bytes>): Option<Bytes> {
    if w.Given? then Some(w.value) else None
  }

  /** One slot; None when its material or wrap is missing. */
  function ProjectSlot(kem: Kem, s: WireSlot): Option<Slot> {
    if !MaterialField(kem, s).Given? || !s.wrap.Given? then None
    else if kem.X25519? then Some(Slot(Some(s.epk.value), None, s.wrap.value))
    else Some(Slot(None, Some(s.kemCt.value), s.wrap.value))
  }

  function ProjectSlots(kem: Kem, slots: seq<WireSlot>): (r: Option<seq<Slot>>)
    ensures r.Some? ==> |r.value| == |slots| && forall i :: 0 <= i < |slots| ==> ProjectSlot(kem, slots[i]) == Some(r.value[i])
    ensures r.None? ==> exists i :: 0 <= i < |slots| && ProjectSlot(kem, slots[i]).None?
  {
    if slots == [] then Some([])
    else
      var n := |slots| - 1;
      var init, last := ProjectSlots(kem, slots[..n]), ProjectSlot(kem, slots[n]);
      if init.None? || last.None? then None else Some(init.value + [last.value])
  }

  function Project(e: WireEnc): Option<Envelope> {
    if !e.nonce.Given? || !e.slotsMac.Given? || !e.slots.Given? || e.slots.value == [] || !e.kem.Given? || e.kem.value.OtherKem? then None
    else
      var slots := ProjectSlots(e.kem.value, e.slots.value);
      if slots.None? then None
      else Some(Envelope(1, STREAM64K, e.kem.value, e.nonce.value, slots.value, e.slotsMac.value))
  }

  // ----- the encoding is at least the raw fields -----------------------------------

  lemma FieldAtLeast(name: string, b: Bytes)
    ensures R.EntrySizes(BytesField(name, Given(b))) >= |b|
  {
    hide R.Size;
    var f := R.Field(name, R.ByteString(b));
    R.OneEntry(f);
    R.StringSize(b);
  }

  lemma SlotAtLeast(kem: Kem, s: WireSlot)
    requires SlotClean(kem, s)
    ensures R.Size(SlotItem(s)) >= MaterialLength(kem) + 48
  {
    hide R.Size, R.EntrySizes, BytesField;
    var a, b, c := BytesField("epk", s.epk), BytesField("kem_ct", s.kemCt), BytesField("wrap", s.wrap);
    R.MapSize(a + b + c + s.stray);
    R.EntrySizesAppend(a + b + c, s.stray);
    R.EntrySizesAppend(a + b, c);
    R.EntrySizesAppend(a, b);
    FieldAtLeast("wrap", s.wrap.value);
    if kem.X25519? {
      FieldAtLeast("epk", s.epk.value);
    } else {
      FieldAtLeast("kem_ct", s.kemCt.value);
    }
  }

  lemma {:induction false} SlotsAtLeast(kem: Kem, slots: seq<WireSlot>)
    requires AllClean(kem, slots)
    ensures R.Sizes(SlotItems(slots)) >= |slots| * (MaterialLength(kem) + 48)
  {
    hide R.Size, SlotClean;
    if slots != [] {
      SlotAtLeast(kem, slots[0]);
      SlotsAtLeast(kem, slots[1..]);
      R.Times(|slots|, MaterialLength(kem) + 48);
      assert ([SlotItem(slots[0])] + SlotItems(slots[1..]))[1..] == SlotItems(slots[1..]);
    }
  }

  lemma OneField(name: string, v: Cbor.Item)
    ensures R.EntrySizes(WireField(name, Given(v))) >= R.Size(v)
  {
    hide R.Size;
    var f := R.Field(name, v);
    R.OneEntry(f);
  }

  /** The measured encoding covers nonce, MAC and every slot's raw bytes. */
  lemma EncodingCoversRawSum(e: WireEnc)
    requires Accepted(e) && e.slotsMac.Given?
    ensures R.Size(EncItem(e)) >= DecodedBytes(e.kem.value, |e.slots.value|)
  {
    hide R.Size, R.EntrySizes, BytesField, WireField, AllClean, GivenDistinct;
    var head := [R.Field("scheme", R.UInt(1)), R.Field("aead", R.Text(Ascii(STREAM64K)))];
    var kem := WireField("kem", Given(R.Text(Ascii(KemId(e.kem.value)))));
    var list := R.Array(SlotItems(e.slots.value));
    var slots, nonce, mac := WireField("slots", Given(list)), BytesField("nonce", e.nonce), BytesField("slots_mac", e.slotsMac);
    R.MapSize(head + kem + slots + nonce + mac);
    R.EntrySizesAppend(head + kem + slots + nonce, mac);
    R.EntrySizesAppend(head + kem + slots, nonce);
    R.EntrySizesAppend(head + kem, slots);
    OneField("slots", list);
    R.ArraySize(SlotItems(e.slots.value));
    SlotsAtLeast(e.kem.value, e.slots.value);
    FieldAtLeast("nonce", e.nonce.value);
    FieldAtLeast("slots_mac", e.slotsMac.value);
  }

  // ----- agreement -----------------------------------------------------------------

  lemma ProjectedSlotShaped(kem: Kem, s: WireSlot)
    requires SlotClean(kem, s)
    ensures ProjectSlot(kem, s).Some? && SlotShaped(kem, ProjectSlot(kem, s).value)
    ensures Material(kem, ProjectSlot(kem, s).value) == MaterialField(kem, s).value
  {
  }

  lemma ProjectedSlotsPass(kem: Kem, slots: seq<WireSlot>)
    requires AllClean(kem, slots) && GivenDistinct(kem, slots)
    ensures ProjectSlots(kem, slots).Some?
    ensures forall i :: 0 <= i < |slots| ==> SlotShaped(kem, ProjectSlots(kem, slots).value[i])
    ensures MaterialsDistinct(kem, ProjectSlots(kem, slots).value)
  {
    forall i | 0 <= i < |slots|
      ensures ProjectSlot(kem, slots[i]).Some? && SlotShaped(kem, ProjectSlot(kem, slots[i]).value)
      ensures MaterialField(kem, slots[i]) == Given(Material(kem, ProjectSlot(kem, slots[i]).value))
    {
      ProjectedSlotShaped(kem, slots[i]);
    }
  }

  /**
    A block without issues reaches unwrap and passes its gate, for 32-byte keys, exactly when its
    `slots_mac` is not a CBOR null: the one value that validation lets through and unwrap cannot use.
    */
  lemma AgreeIff(e: WireEnc, privs: seq<Bytes>)
    requires Accepted(e) && KeysPass(privs)
    ensures Project(e).Some? && PassesGate(Project(e).value, privs) <==> !e.slotsMac.Null?
  {
    hide R.Size, SlotClean, EncItem;
    if e.slotsMac.Given? {
      ProjectedSlotsPass(e.kem.value, e.slots.value);
      EncodingCoversRawSum(e);
    }
  }

  /** Any clean block turns into such a case by nulling its MAC: still no issue, but no envelope. */
  lemma NullMacAccepted(e: WireEnc)
    requires Accepted(e) && e.slotsMac.Given?
    ensures Accepted(e.(slotsMac := Null)) && Project(e.(slotsMac := Null)) == None
  {
    hide R.Size, R.EntrySizes, BytesField, WireField, AllClean, GivenDistinct;
    var f := e.(slotsMac := Null);
    var head := [R.Field("scheme", R.UInt(1)), R.Field("aead", R.Text(Ascii(STREAM64K)))]
                + WireField("kem", Given(R.Text(Ascii(KemId(e.kem.value)))))
                + WireField("slots", Given(R.Array(SlotItems(e.slots.value))))
                + BytesField("nonce", e.nonce);
    var mac, none := BytesField("slots_mac", e.slotsMac), BytesField("slots_mac", Null);
    MacFieldShrinks(e.slotsMac.value);
    R.MapSize(head + mac);
    R.MapSize(head + none);
    R.EntrySizesAppend(head, mac);
    R.EntrySizesAppend(head, none);
  }

  lemma MacFieldShrinks(mac: Bytes)
    requires |mac| == 32
    ensures |BytesField("slots_mac", Null)| == |BytesField("slots_mac", Given(mac))| == 1
    ensures R.EntrySizes(BytesField("slots_mac", Null)) <= R.EntrySizes(BytesField("slots_mac", Given(mac)))
  {
    hide R.Size;
    var a, b := R.Field("slots_mac", NULL_ITEM), R.Field("slots_mac", R.ByteString(mac));
    R.OneEntry(a);
    R.OneEntry(b);
    R.StringSize(mac);
    NullSize();
  }

  lemma NullSize()
    ensures R.Size(NULL_ITEM) == 1
  {
  }
}
