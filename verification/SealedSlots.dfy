/**
  Trial decryption of the slots under one private key: a fold over 0|1 bits and byte masks that
  visits every slot, equal to a plain first-match search.
  */
module SealedSlots {
  import opened Wrappers
  import opened ByteStrings
  import Stream
  import opened SealedEnvelope
  import B = SignedBits

  const KEK_INFO: string := "cardano-poe-kek-v1"
  const KEK_INFO_HYBRID: string := "cardano-poe-kek-mlkem768x25519-v1"

  const ZERO_32: Bytes := Zeros(32)
  const ZERO_NONCE_12: Bytes := Zeros(12)

  function Zeros(n: nat): (r: Bytes)
    ensures |r| == n
  {
    if n == 0 then [] else Zeros(n - 1) + [0]
  }

  /** The primitives: AEAD, key derivation, the two KEMs and the hashes over transcripts. */
  datatype Suite = Suite(
    aead: Stream.Aead,
    hkdf: (Bytes, Bytes, string) -> Bytes,
    kekSalt: (Kem, Bytes, Bytes, Bytes) -> Bytes,
    slotsHash: (Bytes, seq<Slot>, Kem, Bytes) -> Bytes,
    itemHash: map<string, Bytes> -> Bytes,
    slotsMac: (Bytes, Bytes) -> Bytes,
    x25519Public: Bytes -> Bytes,
    x25519Shared: (Bytes, Bytes) -> Option<Bytes>,
    xwingPublic: Bytes -> Bytes,
    xwingEncapsulate: (Bytes, Bytes) -> Option<(Bytes, Bytes)>,
    xwingDecapsulate: (Bytes, Bytes) -> Bytes)

  function KekInfo(kem: Kem): string {
    if kem.X25519? then KEK_INFO else KEK_INFO_HYBRID
  }

  function PublicKey(p: Suite, kem: Kem, priv: Bytes): Bytes {
    if kem.X25519? then p.x25519Public(priv) else p.xwingPublic(priv)
  }

  /** The shared secret of a slot; None for the all-zero X25519 result. */
  function SharedSecret(p: Suite, kem: Kem, priv: Bytes, slot: Slot): Option<Bytes> {
    if kem.X25519? then p.x25519Shared(priv, Material(kem, slot))
    else Some(p.xwingDecapsulate(priv, Material(kem, slot)))
  }

  /** Key encryption key from a shared secret bound to the envelope, the slot and the recipient. */
  function Kek(p: Suite, kem: Kem, nonce: Bytes, shared: Bytes, material: Bytes, pub: Bytes): Bytes {
    p.hkdf(shared, p.kekSalt(kem, nonce, material, pub), KekInfo(kem))
  }

  // ----- one slot ------------------------------------------------------------------

  /** What trying one slot yields: three acceptance bits and the candidate content key. */
  datatype Attempt = Attempt(kemOk: bool, openOk: bool, macOk: bool, cek: Bytes)

  predicate Accepted(t: Attempt) {
    t.kemOk && t.openOk && t.macOk
  }

  /** A failed KEM still tries a dummy key; a failed open still tries the MAC of a zero key. */
  function TrySlot(p: Suite, e: Envelope, priv: Bytes, slotsHash: Bytes, slot: Slot): Attempt {
    var shared := SharedSecret(p, e.kem, priv, slot);
    var ikm := if shared.Some? then shared.value else ZERO_32;
    var kek := Kek(p, e.kem, e.nonce, ikm, Material(e.kem, slot), PublicKey(p, e.kem, priv));
    var opening := p.aead.dec(kek, ZERO_NONCE_12, Ascii(KekInfo(e.kem)), slot.wrap);
    var cek := if opening.Some? then opening.value else ZERO_32;
    Attempt(shared.Some?, opening.Some?, p.slotsMac(cek, slotsHash) == e.slotsMac, cek)
  }

  function Attempts(p: Suite, e: Envelope, priv: Bytes, slotsHash: Bytes): (r: seq<Attempt>)
    ensures |r| == |e.slots|
  {
    seq(|e.slots|, i requires 0 <= i < |e.slots| => TrySlot(p, e, priv, slotsHash, e.slots[i]))
  }

  // ----- the first-match specification ---------------------------------------------

  datatype Scan = Scan(found: bool, cek: Bytes, slotIdx: int, anyWrapOpened: bool, cekConflict: bool)

  function FirstAccepted(ts: seq<Attempt>): (k: nat)
    ensures k <= |ts|
    ensures forall i :: 0 <= i < k ==> !Accepted(ts[i])
    ensures k < |ts| ==> Accepted(ts[k])
  {
    if ts == [] || Accepted(ts[0]) then 0 else 1 + FirstAccepted(ts[1..])
  }

  predicate AnyOpened(ts: seq<Attempt>) {
    exists i :: 0 <= i < |ts| && ts[i].kemOk && ts[i].openOk
  }

  /** Two accepted slots hold different content keys. */
  predicate Conflicting(ts: seq<Attempt>) {
    exists i, j :: 0 <= i < j < |ts| && Accepted(ts[i]) && Accepted(ts[j]) && ts[i].cek != ts[j].cek
  }

  /** The first accepted slot, if any, with the two anomalies noted. */
  function ScanOf(ts: seq<Attempt>): Scan {
    var k := FirstAccepted(ts);
    if k == |ts| then Scan(false, ZERO_32, -1, AnyOpened(ts), false)
    else Scan(true, ts[k].cek, k, AnyOpened(ts), Conflicting(ts))
  }

  lemma FirstAcceptedIs(ts: seq<Attempt>, k: nat)
    requires k <= |ts| && (forall i :: 0 <= i < k ==> !Accepted(ts[i])) && (k < |ts| ==> Accepted(ts[k]))
    ensures FirstAccepted(ts) == k
  {
  }

  lemma FirstAcceptedSnoc(ts: seq<Attempt>, t: Attempt)
    ensures FirstAccepted(ts + [t])
            == if FirstAccepted(ts) < |ts| || Accepted(t) then FirstAccepted(ts) else |ts| + 1
  {
    var k := FirstAccepted(ts);
    FirstAcceptedIs(ts + [t], if k < |ts| || Accepted(t) then k else |ts| + 1);
  }

  lemma AnyOpenedSnoc(ts: seq<Attempt>, t: Attempt)
    ensures AnyOpened(ts + [t]) <==> AnyOpened(ts) || (t.kemOk && t.openOk)
  {
    var us := ts + [t];
    if AnyOpened(ts) {
      var i :| 0 <= i < |ts| && ts[i].kemOk && ts[i].openOk;
      assert us[i] == ts[i];
    }
    if t.kemOk && t.openOk {
      assert us[|ts|] == t;
    }
  }

  /** Two accepted slots differ exactly when a later one differs from the first. */
  lemma ConflictSeenFromFirst(ts: seq<Attempt>)
    ensures Conflicting(ts) <==>
            exists j :: FirstAccepted(ts) < j < |ts| && Accepted(ts[j]) && ts[j].cek != ts[FirstAccepted(ts)].cek
  {
    var k := FirstAccepted(ts);
    if Conflicting(ts) {
      var i, j :| 0 <= i < j < |ts| && Accepted(ts[i]) && Accepted(ts[j]) && ts[i].cek != ts[j].cek;
      assert k <= i;
      if ts[i].cek != ts[k].cek {
        assert k < i;
      }
    }
  }

  lemma ConflictingSnoc(ts: seq<Attempt>, t: Attempt)
    ensures var k := FirstAccepted(ts);
            Conflicting(ts + [t]) <==> Conflicting(ts) || (k < |ts| && Accepted(t) && t.cek != ts[k].cek)
  {
    var us, k := ts + [t], FirstAccepted(ts);
    if Conflicting(ts) {
      var i, j :| 0 <= i < j < |ts| && Accepted(ts[i]) && Accepted(ts[j]) && ts[i].cek != ts[j].cek;
      assert us[i] == ts[i] && us[j] == ts[j];
    }
    if k < |ts| && Accepted(t) && t.cek != ts[k].cek {
      assert us[k] == ts[k] && us[|ts|] == t;
    }
    if Conflicting(us) {
      ConflictSeenFromFirst(us);
      FirstAcceptedSnoc(ts, t);
      var j :| FirstAccepted(us) < j < |us| && Accepted(us[j]) && us[j].cek != us[FirstAccepted(us)].cek;
      if j < |ts| {
        assert us[k] == ts[k] && us[j] == ts[j];
      }
    }
  }

  lemma NoConflictBeforeFirst(ts: seq<Attempt>)
    ensures FirstAccepted(ts) == |ts| ==> !Conflicting(ts)
  {
  }

  /** One step of the fold, in plain Boolean terms. */
  lemma ScanSnoc(ts: seq<Attempt>, t: Attempt)
    ensures var s, ok := ScanOf(ts), Accepted(t);
            ScanOf(ts + [t])
            == Scan(s.found || ok,
                    if ok && !s.found then t.cek else s.cek,
                    if ok && !s.found then |ts| else s.slotIdx,
                    s.anyWrapOpened || (t.kemOk && t.openOk),
                    s.cekConflict || (ok && s.found && t.cek != s.cek))
  {
    FirstAcceptedSnoc(ts, t);
    AnyOpenedSnoc(ts, t);
    ConflictingSnoc(ts, t);
    NoConflictBeforeFirst(ts);
    NoConflictBeforeFirst(ts + [t]);
  }

  // ----- the mask fold -------------------------------------------------------------

  /** Selects byte by byte through the mask of `first`. */
  method SelectBytes(candidate: Bytes, selected: Bytes, first: bool) returns (r: Bytes)
    requires |candidate| == |selected|
    ensures r == if first then candidate else selected
  {
    var byteMask := B.And(-B.Bit(first), 0xFF);
    var invByteMask := B.SignedXor(byteMask, 0xFF);
    r := [];
    for i := 0 to |candidate|
      invariant r == if first then candidate[..i] else selected[..i]
    {
      B.MaskSelects(candidate[i], selected[i], first);
      r := r + [B.Or(B.And(candidate[i], byteMask), B.And(selected[i], invByteMask))];
    }
    assert candidate[..|candidate|] == candidate && selected[..|candidate|] == selected;
  }

  /** The running selection state: 0|1 bits, the selected key and the selected index. */
  datatype Fold = Fold(found: int, conflict: int, opening: int, cek: Bytes, idx: int)

  predicate FoldIs(f: Fold, s: Scan) {
    f == Fold(B.Bit(s.found), B.Bit(s.cekConflict), B.Bit(s.anyWrapOpened), s.cek, s.slotIdx)
  }

  /** Folds one attempt in with masks only, never a branch on what matched. */
  method FoldAttempt(f: Fold, i: nat, t: Attempt, ghost before: seq<Attempt>) returns (g: Fold)
    requires FoldIs(f, ScanOf(before)) && i == |before|
    requires |t.cek| == 32 && |f.cek| == 32
    ensures FoldIs(g, ScanOf(before + [t])) && |g.cek| == 32
  {
    ghost var s := ScanOf(before);
    ScanSnoc(before, t);
    B.BitAnd(t.kemOk, t.openOk);
    B.BitAnd(t.kemOk && t.openOk, t.macOk);
    var opens := B.And(B.Bit(t.kemOk), B.Bit(t.openOk));
    var ok := B.And(opens, B.Bit(t.macOk));
    B.BitFlip(s.found);
    B.BitAnd(Accepted(t), !s.found);
    var first := B.And(ok, B.SignedXor(f.found, 1));
    B.BitFlip(t.cek == f.cek);
    var neq := B.SignedXor(B.Bit(t.cek == f.cek), 1);
    B.BitAnd(Accepted(t), s.found);
    B.BitAnd(Accepted(t) && s.found, t.cek != f.cek);
    var conflict := FoldBit(f.conflict, B.And(B.And(ok, f.found), neq), s.cekConflict, Accepted(t) && s.found && t.cek != f.cek);
    var opening := FoldBit(f.opening, opens, s.anyWrapOpened, t.kemOk && t.openOk);
    var found := FoldBit(f.found, ok, s.found, Accepted(t));
    var cek := SelectBytes(t.cek, f.cek, first == 1);
    B.WordSelects(i, f.idx, Accepted(t) && !s.found);
    var idx := B.Or(B.And(i, -first), B.And(f.idx, B.Not(-first)));
    g := Fold(found, conflict, opening, cek, idx);
  }

  /** `bit |= more`. */
  method FoldBit(bit: int, more: int, ghost b: bool, ghost m: bool) returns (r: int)
    requires bit == B.Bit(b) && more == B.Bit(m)
    ensures r == B.Bit(b || m)
  {
    B.BitOr(b, m);
    r := B.Or(bit, more);
  }

  function TryEach(attempt: Slot -> Attempt, slots: seq<Slot>): (r: seq<Attempt>)
    ensures |r| == |slots|
    ensures forall i :: 0 <= i < |slots| ==> r[i] == attempt(slots[i])
  {
    if slots == [] then [] else TryEach(attempt, slots[..|slots| - 1]) + [attempt(slots[|slots| - 1])]
  }

  /** Visits every slot, whatever the earlier ones gave. */
  method FoldSlots(attempt: Slot -> Attempt, slots: seq<Slot>) returns (r: Scan)
    requires forall i :: 0 <= i < |slots| ==> |attempt(slots[i]).cek| == 32
    ensures r == ScanOf(TryEach(attempt, slots))
  {
    ghost var ts := TryEach(attempt, slots);
    var f := Fold(0, 0, 0, ZERO_32, -1);
    for i := 0 to |slots|
      invariant FoldIs(f, ScanOf(ts[..i])) && |f.cek| == 32
    {
      assert ts[..i + 1] == ts[..i] + [attempt(slots[i])];
      f := FoldAttempt(f, i, attempt(slots[i]), ts[..i]);
    }
    assert ts[..|slots|] == ts;
    return Scan(f.found == 1, f.cek, f.idx, f.opening == 1, f.conflict == 1);
  }

  /** The scan under one private key finds what the first-match search finds. */
  method ScanSlots(p: Suite, e: Envelope, priv: Bytes, slotsHash: Bytes) returns (r: Scan)
    requires Stream.Exact(p.aead)
    requires forall i :: 0 <= i < |e.slots| ==> |e.slots[i].wrap| == 48
    ensures r == ScanOf(Attempts(p, e, priv, slotsHash))
  {
    var attempt := (slot: Slot) => TrySlot(p, e, priv, slotsHash, slot);
    forall i | 0 <= i < |e.slots| ensures |attempt(e.slots[i]).cek| == 32 {
      CandidateLength(p, e, priv, slotsHash, e.slots[i]);
    }
    r := FoldSlots(attempt, e.slots);
    assert TryEach(attempt, e.slots) == Attempts(p, e, priv, slotsHash);
  }

  lemma CandidateLength(p: Suite, e: Envelope, priv: Bytes, slotsHash: Bytes, slot: Slot)
    requires Stream.Exact(p.aead) && |slot.wrap| == 48
    ensures |TrySlot(p, e, priv, slotsHash, slot).cek| == 32
  {
    var shared := SharedSecret(p, e.kem, priv, slot);
    var ikm := if shared.Some? then shared.value else ZERO_32;
    var kek := Kek(p, e.kem, e.nonce, ikm, Material(e.kem, slot), PublicKey(p, e.kem, priv));
    OpenedLength(p.aead, kek, Ascii(KekInfo(e.kem)), slot.wrap);
  }

  lemma OpenedLength(a: Stream.Aead, kek: Bytes, ad: Bytes, wrap: Bytes)
    requires Stream.Exact(a)
    ensures a.dec(kek, ZERO_NONCE_12, ad, wrap).Some? ==> |a.dec(kek, ZERO_NONCE_12, ad, wrap).value| == |wrap| - 16
  {
    var r := a.dec(kek, ZERO_NONCE_12, ad, wrap);
    if r.Some? {
      assert wrap == a.enc(kek, ZERO_NONCE_12, ad, r.value);
    }
  }
}
