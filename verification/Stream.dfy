/**
  The segmented STREAM content format: chunk machines that seal and open one chunk at a time, the
  whole-buffer operations built on them, and the proof that opening accepts exactly what sealing
  writes.
  */
module Stream {
  import opened Wrappers
  import opened ByteStrings

  const CHUNK_SIZE: nat := 65536
  const TAG_SIZE: nat := 16
  const SEALED_CHUNK_SIZE: nat := 65552
  const MAX_COUNTER: nat := 0xFF_FFFF_FFFF_FFFF_FFFF_FFFF

  /** An AEAD cipher: key, nonce, associated data, and the plaintext or ciphertext. */
  datatype Aead = Aead(
    enc: (Bytes, Bytes, Bytes, Bytes) -> Bytes,
    dec: (Bytes, Bytes, Bytes, Bytes) -> Option<Bytes>)

  /** Decryption yields a plaintext on its own encryption and on nothing else; tags take 16 bytes. */
  ghost predicate Exact(a: Aead) {
    && (forall k, n, ad, p, c :: a.dec(k, n, ad, c) == Some(p) <==> c == a.enc(k, n, ad, p))
    && (forall k, n, ad, p :: |a.enc(k, n, ad, p)| == |p| + TAG_SIZE)
  }

  // ----- chunk nonces --------------------------------------------------------------

  function ChunkNonce(counter: nat, final: bool): Bytes {
    BigEndian(counter, 11) + [if final then 1 else 0]
  }

  lemma MaxCounterFits()
    ensures MAX_COUNTER + 1 == Pow256(11)
  {
    assert Pow256(4) == 0x1_0000_0000;
    assert Pow256(8) == 0x1_0000_0000_0000_0000 by {
      assert Pow256(6) == 0x1_0000_0000_0000;
    }
    assert Pow256(10) == 0x1_0000_0000_0000_0000_0000;
  }

  /** Eleven bytes of counter, the most significant first, and one byte for the last chunk. */
  lemma ChunkNonceBytes(counter: nat, final: bool)
    requires counter <= MAX_COUNTER
    ensures |ChunkNonce(counter, final)| == 12 && ChunkNonce(counter, final)[11] == (if final then 1 else 0)
    ensures forall i :: 0 <= i < 11 ==> ChunkNonce(counter, final)[i] == counter / Pow256(10 - i) % 256
    ensures BigEndianValue(ChunkNonce(counter, final)[..11]) == counter
  {
    MaxCounterFits();
    ValueOfBigEndian(counter, 11);
    assert ChunkNonce(counter, final)[..11] == BigEndian(counter, 11);
    forall i | 0 <= i < 11 ensures ChunkNonce(counter, final)[i] == counter / Pow256(10 - i) % 256 {
      BigEndianAt(counter, 11, i);
    }
  }

  lemma ChunkNonceDistinct(i: nat, f: bool, j: nat, g: bool)
    requires i <= MAX_COUNTER && j <= MAX_COUNTER
    requires ChunkNonce(i, f) == ChunkNonce(j, g)
    ensures i == j && f == g
  {
    MaxCounterFits();
    ValueOfBigEndian(i, 11);
    ValueOfBigEndian(j, 11);
    assert ChunkNonce(i, f)[..11] == BigEndian(i, 11) && ChunkNonce(j, g)[..11] == BigEndian(j, 11);
    assert ChunkNonce(i, f)[11] == ChunkNonce(j, g)[11];
  }

  /** No ciphertext is an encryption under two different chunk nonces of one key. */
  ghost predicate NoncesDisjoint(a: Aead, key: Bytes) {
    forall i: nat, f, j: nat, g, p, q ::
      && i <= MAX_COUNTER
      && j <= MAX_COUNTER
      && a.enc(key, ChunkNonce(i, f), [], p) == a.enc(key, ChunkNonce(j, g), [], q)
      ==> i == j && f == g
  }

  function PlainTag(nonce: Bytes): (r: Bytes)
    ensures |r| == TAG_SIZE
  {
    if |nonce| == 12 then nonce + [0, 0, 0, 0] else seq(TAG_SIZE, _ => 0)
  }

  /** The hypotheses about the cipher can be met together. */
  lemma HypothesesConsistent()
    ensures exists a: Aead :: Exact(a) && forall key :: NoncesDisjoint(a, key)
  {
    var a := Aead.Aead(
      (k: Bytes, n: Bytes, ad: Bytes, p: Bytes) => p + PlainTag(n),
      (k: Bytes, n: Bytes, ad: Bytes, c: Bytes) =>
        if |c| >= TAG_SIZE && c[|c| - TAG_SIZE..] == PlainTag(n) then Some(c[..|c| - TAG_SIZE]) else None);
    forall k, n, ad, p, c ensures a.dec(k, n, ad, c) == Some(p) <==> c == a.enc(k, n, ad, p) {
      if |c| >= TAG_SIZE {
        assert c == c[..|c| - TAG_SIZE] + c[|c| - TAG_SIZE..];
      }
    }
    assert Exact(a);
    forall i: nat, f, j: nat, g, p: Bytes, q: Bytes
      | i <= MAX_COUNTER && j <= MAX_COUNTER && p + PlainTag(ChunkNonce(i, f)) == q + PlainTag(ChunkNonce(j, g))
      ensures i == j && f == g
    {
      var c := p + PlainTag(ChunkNonce(i, f));
      assert c[|p|..] == PlainTag(ChunkNonce(i, f)) && c[|p|..] == PlainTag(ChunkNonce(j, g));
      assert c[|p|..][..12] == ChunkNonce(i, f) && c[|p|..][..12] == ChunkNonce(j, g);
      ChunkNonceDistinct(i, f, j, g);
    }
    assert forall key :: NoncesDisjoint(a, key);
  }

  // ----- sealing one chunk ---------------------------------------------------------

  datatype SealError = BadKeyLength | AfterFinalChunk | CounterExhausted | FinalTooLong | EmptyFinal | BadChunkLength

  class StreamSealer {
    const aead: Aead
    const key: Bytes
    var counter: nat
    var finished: bool
    ghost var nonces: seq<Bytes>

    /** One nonce per sealed chunk, in counter order; only the last may carry the final flag. */
    ghost predicate Valid()
      reads this
    {
      && |key| == 32
      && counter <= MAX_COUNTER + 1
      && (finished ==> counter > 0)
      && |nonces| == counter
      && forall i :: 0 <= i < counter ==> nonces[i] == ChunkNonce(i, finished && i == counter - 1)
    }

    constructor (aead: Aead, key: Bytes)
      requires |key| == 32
      ensures Valid() && this.aead == aead && this.key == key
      ensures counter == 0 && !finished && nonces == []
    {
      this.aead := aead;
      this.key := key;
      counter := 0;
      finished := false;
      nonces := [];
    }

    method SealChunk(plaintext: Bytes, final: bool) returns (r: Result<Bytes, SealError>)
      requires Valid()
      modifies this
      ensures Valid()
      ensures r.Ok? <==>
        && !old(finished)
        && old(counter) <= MAX_COUNTER
        && (if final then |plaintext| <= CHUNK_SIZE && (plaintext == [] ==> old(counter) == 0) else |plaintext| == CHUNK_SIZE)
      ensures r.Ok? ==>
        && r.value == aead.enc(key, ChunkNonce(old(counter), final), [], plaintext)
        && counter == old(counter) + 1
        && finished == final
        && nonces == old(nonces) + [ChunkNonce(old(counter), final)]
      ensures r.Err? ==> counter == old(counter) && finished == old(finished) && nonces == old(nonces)
      ensures r == Err(AfterFinalChunk) <==> old(finished)
      ensures r == Err(CounterExhausted) <==> !old(finished) && old(counter) > MAX_COUNTER
    {
      if finished {
        return Err(AfterFinalChunk);
      }
      if counter > MAX_COUNTER {
        return Err(CounterExhausted);
      }
      if final {
        if |plaintext| > CHUNK_SIZE {
          return Err(FinalTooLong);
        }
        if |plaintext| == 0 && counter != 0 {
          return Err(EmptyFinal);
        }
      } else if |plaintext| != CHUNK_SIZE {
        return Err(BadChunkLength);
      }
      var sealed := aead.enc(key, ChunkNonce(counter, final), [], plaintext);
      nonces := nonces + [ChunkNonce(counter, final)];
      counter := counter + 1;
      finished := final;
      return Ok(sealed);
    }
  }

  /** No run of a sealer, however it is called, uses a nonce twice. */
  lemma SealerNoncesDistinct(s: StreamSealer, i: nat, j: nat)
    requires s.Valid() && i < j < s.counter
    ensures s.nonces[i] != s.nonces[j]
  {
    if s.nonces[i] == s.nonces[j] {
      ChunkNonceDistinct(i, false, j, s.finished && j == s.counter - 1);
    }
  }

  // ----- opening one chunk ---------------------------------------------------------

  /** What one sealed chunk at position `counter` opens to, if its size, tag and place are right. */
  function OpenedChunk(a: Aead, key: Bytes, counter: nat, sealed: Bytes, final: bool): Option<Bytes> {
    if counter > MAX_COUNTER then None
    else if !(if final then TAG_SIZE <= |sealed| <= SEALED_CHUNK_SIZE else |sealed| == SEALED_CHUNK_SIZE) then None
    else
      var p := a.dec(key, ChunkNonce(counter, final), [], sealed);
      if p.Some? && final && p.value == [] && counter != 0 then None else p
  }

  class StreamOpener {
    const aead: Aead
    const key: Bytes
    var counter: nat
    var finished: bool

    constructor (aead: Aead, key: Bytes)
      requires |key| == 32
      ensures this.aead == aead && this.key == key && counter == 0 && !finished
    {
      this.aead := aead;
      this.key := key;
      counter := 0;
      finished := false;
    }

    /** None stands for the single tampered-ciphertext failure. */
    method OpenChunk(sealed: Bytes, final: bool) returns (r: Option<Bytes>)
      modifies this
      ensures old(finished) ==> r == None
      ensures !old(finished) ==> r == OpenedChunk(aead, key, old(counter), sealed, final)
      ensures r.Some? ==> counter == old(counter) + 1 && finished == final
      ensures r.None? ==> counter == old(counter) && finished == old(finished)
    {
      if finished {
        return None;
      }
      if counter > MAX_COUNTER {
        return None;
      }
      if final {
        if |sealed| < TAG_SIZE || |sealed| > SEALED_CHUNK_SIZE {
          return None;
        }
      } else if |sealed| != SEALED_CHUNK_SIZE {
        return None;
      }
      var plaintext := aead.dec(key, ChunkNonce(counter, final), [], sealed);
      if plaintext.None? {
        return None;
      }
      if final && |plaintext.value| == 0 && counter != 0 {
        return None;
      }
      counter := counter + 1;
      finished := final;
      return plaintext;
    }
  }

  // ----- whole streams -------------------------------------------------------------

  function Prepend(head: Bytes, tail: Option<Bytes>): Option<Bytes> {
    if tail.Some? then Some(head + tail.value) else None
  }

  /** The sealed form of the plaintext `p` whose first chunk has number `counter`. */
  function SealFrom(a: Aead, key: Bytes, counter: nat, p: Bytes): Option<Bytes>
    decreases |p|
  {
    if counter > MAX_COUNTER then None
    else if |p| <= CHUNK_SIZE then Some(a.enc(key, ChunkNonce(counter, true), [], p))
    else Prepend(a.enc(key, ChunkNonce(counter, false), [], p[..CHUNK_SIZE]),
                 SealFrom(a, key, counter + 1, p[CHUNK_SIZE..]))
  }

  /** The chunks of `c` that verify, up to the first that does not, and whether all do. */
  function OpenChunks(a: Aead, key: Bytes, counter: nat, c: Bytes): (seq<Bytes>, bool)
    decreases |c|
  {
    if |c| <= SEALED_CHUNK_SIZE then
      var p := OpenedChunk(a, key, counter, c, true);
      if p.Some? then ([p.value], true) else ([], false)
    else
      var p := OpenedChunk(a, key, counter, c[..SEALED_CHUNK_SIZE], false);
      if p.None? then ([], false)
      else
        var rest := OpenChunks(a, key, counter + 1, c[SEALED_CHUNK_SIZE..]);
        ([p.value] + rest.0, rest.1)
  }

  function OpenFrom(a: Aead, key: Bytes, counter: nat, c: Bytes): Option<Bytes> {
    var r := OpenChunks(a, key, counter, c);
    if r.1 then Some(Concat(r.0)) else None
  }

  lemma OpenFromStep(a: Aead, key: Bytes, counter: nat, c: Bytes)
    requires |c| > SEALED_CHUNK_SIZE
    ensures var p := OpenedChunk(a, key, counter, c[..SEALED_CHUNK_SIZE], false);
            OpenFrom(a, key, counter, c)
            == if p.None? then None else Prepend(p.value, OpenFrom(a, key, counter + 1, c[SEALED_CHUNK_SIZE..]))
  {
    var p := OpenedChunk(a, key, counter, c[..SEALED_CHUNK_SIZE], false);
    if p.Some? {
      var rest := OpenChunks(a, key, counter + 1, c[SEALED_CHUNK_SIZE..]);
      assert ([p.value] + rest.0)[1..] == rest.0;
    }
  }

  lemma OpenFromLast(a: Aead, key: Bytes, counter: nat, c: Bytes)
    requires |c| <= SEALED_CHUNK_SIZE
    ensures OpenFrom(a, key, counter, c) == OpenedChunk(a, key, counter, c, true)
  {
    var p := OpenedChunk(a, key, counter, c, true);
    if p.Some? {
      assert Concat([p.value]) == p.value;
    }
  }

  /** A chunk opens to `p` exactly when it is the sealed form of `p` at that place. */
  lemma OpenedIffSealed(a: Aead, key: Bytes, counter: nat, sealed: Bytes, final: bool, p: Bytes)
    requires Exact(a)
    ensures OpenedChunk(a, key, counter, sealed, final) == Some(p)
            <==> && counter <= MAX_COUNTER
                 && sealed == a.enc(key, ChunkNonce(counter, final), [], p)
                 && (if final then |p| <= CHUNK_SIZE && (p == [] ==> counter == 0) else |p| == CHUNK_SIZE)
  {
    assert a.dec(key, ChunkNonce(counter, final), [], sealed) == Some(p)
      <==> sealed == a.enc(key, ChunkNonce(counter, final), [], p);
    assert |a.enc(key, ChunkNonce(counter, final), [], p)| == |p| + TAG_SIZE;
  }

  // ----- lengths -------------------------------------------------------------------

  function ChunkCount(n: nat): (k: nat)
    ensures k >= 1
  {
    if n <= CHUNK_SIZE then 1 else (n + CHUNK_SIZE - 1) / CHUNK_SIZE
  }

  /** The predicted sealed length of `n` plaintext bytes. */
  function StreamSealedLength(n: nat): nat {
    n + ChunkCount(n) * TAG_SIZE
  }

  lemma ChunkCountStep(n: nat)
    requires n > CHUNK_SIZE
    ensures ChunkCount(n) == 1 + ChunkCount(n - CHUNK_SIZE)
  {
  }

  /** Sealing fails exactly when the counter would pass 2^88 - 1, and its length is the predicted one. */
  lemma {:induction false} SealedLength(a: Aead, key: Bytes, counter: nat, p: Bytes)
    requires Exact(a)
    ensures SealFrom(a, key, counter, p).Some? <==> counter + ChunkCount(|p|) <= MAX_COUNTER + 1
    ensures SealFrom(a, key, counter, p).Some? ==> |SealFrom(a, key, counter, p).value| == StreamSealedLength(|p|)
    decreases |p|
  {
    if |p| > CHUNK_SIZE {
      ChunkCountStep(|p|);
      SealedLength(a, key, counter + 1, p[CHUNK_SIZE..]);
    }
  }

  lemma ShiftedSlices(head: Bytes, tail: Bytes, size: nat, k: nat)
    requires |head| == size && k > 0
    requires size * k == size * (k - 1) + size && size * (k + 1) == size * k + size
    ensures size * (k - 1) >= 0
    ensures size * k <= |head + tail| ==> size * (k - 1) <= |tail| && (head + tail)[size * k..] == tail[size * (k - 1)..]
    ensures size * (k + 1) <= |head + tail| ==>
              size * k <= |tail| && (head + tail)[size * k..size * (k + 1)] == tail[size * (k - 1)..size * k]
  {
  }

  /** Where chunk `k` of a sealed stream begins, and what it is: 65536 bytes of the plaintext, or the rest of it. */
  lemma {:induction false} SealedChunkFrom(a: Aead, key: Bytes, counter: nat, p: Bytes, c: Bytes, k: nat)
    requires Exact(a) && SealFrom(a, key, counter, p) == Some(c) && k < ChunkCount(|p|)
    ensures |c| == StreamSealedLength(|p|)
    ensures k + 1 < ChunkCount(|p|) ==>
              c[65552 * k..65552 * (k + 1)] == a.enc(key, ChunkNonce(counter + k, false), [], p[65536 * k..65536 * (k + 1)])
    ensures k + 1 == ChunkCount(|p|) ==>
              c[65552 * k..] == a.enc(key, ChunkNonce(counter + k, true), [], p[65536 * k..])
    decreases k
  {
    hide ChunkNonce;
    SealedLength(a, key, counter, p);
    if |p| > CHUNK_SIZE {
      ChunkCountStep(|p|);
      var head, rest := a.enc(key, ChunkNonce(counter, false), [], p[..CHUNK_SIZE]), p[CHUNK_SIZE..];
      var tail := SealFrom(a, key, counter + 1, rest).value;
      assert c == head + tail && |head| == SEALED_CHUNK_SIZE;
      if k > 0 {
        SealedChunkFrom(a, key, counter + 1, rest, tail, k - 1);
        ShiftedSlices(head, tail, SEALED_CHUNK_SIZE, k);
        ShiftedSlices(p[..CHUNK_SIZE], rest, CHUNK_SIZE, k);
        assert p == p[..CHUNK_SIZE] + rest;
      }
    }
  }

  lemma {:induction false} OpenedNonEmpty(a: Aead, key: Bytes, counter: nat, c: Bytes)
    requires Exact(a) && counter > 0
    ensures OpenFrom(a, key, counter, c) != Some([])
    decreases |c|
  {
    if |c| <= SEALED_CHUNK_SIZE {
      OpenFromLast(a, key, counter, c);
    } else {
      OpenFromStep(a, key, counter, c);
      var x := OpenedChunk(a, key, counter, c[..SEALED_CHUNK_SIZE], false);
      if x.Some? {
        OpenedIffSealed(a, key, counter, c[..SEALED_CHUNK_SIZE], false, x.value);
      }
    }
  }

  /** A longer stream opens to the plaintext of its first chunk and that of the rest. */
  lemma OpenedSplit(a: Aead, key: Bytes, counter: nat, head: Bytes, tail: Bytes, p: Bytes)
    requires Exact(a) && |head| == SEALED_CHUNK_SIZE && tail != []
    requires OpenFrom(a, key, counter, head + tail) == Some(p)
    ensures |p| > CHUNK_SIZE
    ensures OpenedChunk(a, key, counter, head, false) == Some(p[..CHUNK_SIZE])
    ensures OpenFrom(a, key, counter + 1, tail) == Some(p[CHUNK_SIZE..])
  {
    OpenFromStep(a, key, counter, head + tail);
    assert (head + tail)[..SEALED_CHUNK_SIZE] == head && (head + tail)[SEALED_CHUNK_SIZE..] == tail;
    var x := OpenedChunk(a, key, counter, head, false).value;
    var y := OpenFrom(a, key, counter + 1, tail).value;
    OpenedIffSealed(a, key, counter, head, false, x);
    OpenedNonEmpty(a, key, counter + 1, tail);
    assert (x + y)[..CHUNK_SIZE] == x && (x + y)[CHUNK_SIZE..] == y;
  }

  lemma OpenedJoin(a: Aead, key: Bytes, counter: nat, head: Bytes, tail: Bytes, x: Bytes, y: Bytes)
    requires |head| == SEALED_CHUNK_SIZE && tail != []
    requires OpenedChunk(a, key, counter, head, false) == Some(x)
    requires OpenFrom(a, key, counter + 1, tail) == Some(y)
    ensures OpenFrom(a, key, counter, head + tail) == Some(x + y)
  {
    OpenFromStep(a, key, counter, head + tail);
    assert (head + tail)[..SEALED_CHUNK_SIZE] == head && (head + tail)[SEALED_CHUNK_SIZE..] == tail;
  }

  /** What opens to `p` is the sealed form of `p`. */
  lemma {:induction false} OpenedIsSealed(a: Aead, key: Bytes, counter: nat, c: Bytes, p: Bytes)
    requires Exact(a) && OpenFrom(a, key, counter, c) == Some(p)
    ensures SealFrom(a, key, counter, p) == Some(c) && (p == [] ==> counter == 0)
    decreases |c|
  {
    if |c| <= SEALED_CHUNK_SIZE {
      OpenFromLast(a, key, counter, c);
      OpenedIffSealed(a, key, counter, c, true, p);
    } else {
      var head, tail := c[..SEALED_CHUNK_SIZE], c[SEALED_CHUNK_SIZE..];
      assert c == head + tail;
      OpenedSplit(a, key, counter, head, tail, p);
      OpenedIsSealed(a, key, counter + 1, tail, p[CHUNK_SIZE..]);
      OpenedIffSealed(a, key, counter, head, false, p[..CHUNK_SIZE]);
    }
  }

  /** The sealed form of `p` opens to `p`. */
  lemma {:induction false} SealedOpens(a: Aead, key: Bytes, counter: nat, c: Bytes, p: Bytes)
    requires Exact(a) && SealFrom(a, key, counter, p) == Some(c) && (p == [] ==> counter == 0)
    ensures OpenFrom(a, key, counter, c) == Some(p)
    decreases |p|
  {
    if |p| <= CHUNK_SIZE {
      OpenedIffSealed(a, key, counter, c, true, p);
      OpenFromLast(a, key, counter, c);
    } else {
      var first, rest := p[..CHUNK_SIZE], p[CHUNK_SIZE..];
      var head := a.enc(key, ChunkNonce(counter, false), [], first);
      var tail := SealFrom(a, key, counter + 1, rest).value;
      SealedLength(a, key, counter + 1, rest);
      SealedOpens(a, key, counter + 1, tail, rest);
      OpenedIffSealed(a, key, counter, head, false, first);
      OpenedJoin(a, key, counter, head, tail, first, rest);
      assert p == first + rest;
    }
  }

  /** Opening yields `p` exactly on the sealed form of `p`. */
  lemma OpenExactlySealed(a: Aead, key: Bytes, c: Bytes, p: Bytes)
    requires Exact(a)
    ensures OpenFrom(a, key, 0, c) == Some(p) <==> SealFrom(a, key, 0, p) == Some(c)
  {
    if OpenFrom(a, key, 0, c) == Some(p) {
      OpenedIsSealed(a, key, 0, c, p);
    }
    if SealFrom(a, key, 0, p) == Some(c) {
      SealedOpens(a, key, 0, c, p);
    }
  }

  // ----- cutting a stream short ----------------------------------------------------

  /** The first `k` full chunks of a stream that opens are themselves accepted non-final chunks. */
  lemma {:induction false} TruncatedOpens(a: Aead, key: Bytes, counter: nat, c: Bytes, k: nat)
    requires OpenFrom(a, key, counter, c).Some? && 0 < k && k * SEALED_CHUNK_SIZE < |c|
    ensures OpenFrom(a, key, counter, c[..k * SEALED_CHUNK_SIZE]).Some?
            <==> OpenedChunk(a, key, counter + k - 1, c[(k - 1) * SEALED_CHUNK_SIZE..k * SEALED_CHUNK_SIZE], true).Some?
    decreases k
  {
    hide OpenFrom, OpenedChunk;
    var cut := c[..k * SEALED_CHUNK_SIZE];
    if k == 1 {
      OpenFromLast(a, key, counter, cut);
    } else {
      var tail := c[SEALED_CHUNK_SIZE..];
      OpenFromStep(a, key, counter, c);
      OpenFromStep(a, key, counter, cut);
      assert cut[..SEALED_CHUNK_SIZE] == c[..SEALED_CHUNK_SIZE];
      var m := (k - 1) * SEALED_CHUNK_SIZE;
      assert cut[SEALED_CHUNK_SIZE..] == tail[..m];
      TruncatedOpens(a, key, counter + 1, tail, k - 1);
      assert tail[m - SEALED_CHUNK_SIZE..m] == c[m..m + SEALED_CHUNK_SIZE];
    }
  }

  /** Every full chunk before the last opens under the non-final flag. */
  lemma {:induction false} ChunkOpens(a: Aead, key: Bytes, counter: nat, c: Bytes, k: nat)
    requires OpenFrom(a, key, counter, c).Some? && (k + 1) * SEALED_CHUNK_SIZE < |c|
    ensures OpenedChunk(a, key, counter + k, c[k * SEALED_CHUNK_SIZE..(k + 1) * SEALED_CHUNK_SIZE], false).Some?
    decreases k
  {
    hide OpenFrom, OpenedChunk;
    OpenFromStep(a, key, counter, c);
    if k > 0 {
      var tail := c[SEALED_CHUNK_SIZE..];
      ChunkOpens(a, key, counter + 1, tail, k - 1);
      var m := k * SEALED_CHUNK_SIZE;
      assert tail[m - SEALED_CHUNK_SIZE..m] == c[m..m + SEALED_CHUNK_SIZE];
    }
  }

  lemma OneFlagOnly(a: Aead, key: Bytes, counter: nat, chunk: Bytes)
    requires Exact(a) && NoncesDisjoint(a, key)
    requires OpenedChunk(a, key, counter, chunk, false).Some?
    ensures OpenedChunk(a, key, counter, chunk, true) == None
  {
    var m := ChunkNonce(counter, false);
    var p := a.dec(key, m, [], chunk).value;
    assert chunk == a.enc(key, m, [], p);
  }

  /** A stream cut after any chunk but its last is rejected when nonces give disjoint ciphertexts. */
  lemma TruncationRejected(a: Aead, key: Bytes, c: Bytes, k: nat)
    requires Exact(a) && NoncesDisjoint(a, key)
    requires OpenFrom(a, key, 0, c).Some? && k * SEALED_CHUNK_SIZE < |c|
    ensures OpenFrom(a, key, 0, c[..k * SEALED_CHUNK_SIZE]) == None
  {
    hide OpenFrom, ChunkNonce;
    if k == 0 {
      OpenFromLast(a, key, 0, []);
    } else {
      TruncatedOpens(a, key, 0, c, k);
      ChunkOpens(a, key, 0, c, k - 1);
      OneFlagOnly(a, key, k - 1, c[(k - 1) * SEALED_CHUNK_SIZE..k * SEALED_CHUNK_SIZE]);
    }
  }

  // ----- whole-buffer operations ---------------------------------------------------

  lemma PrependNothing(tail: Option<Bytes>)
    ensures Prepend([], tail) == tail
  {
    if tail.Some? {
      assert [] + tail.value == tail.value;
    }
  }

  lemma PrependPrepend(x: Bytes, y: Bytes, tail: Option<Bytes>)
    ensures Prepend(x, Prepend(y, tail)) == Prepend(x + y, tail)
  {
    if tail.Some? {
      assert x + (y + tail.value) == x + y + tail.value;
    }
  }

  lemma SealFromSplit(a: Aead, key: Bytes, counter: nat, chunk: Bytes, rest: Bytes)
    requires |chunk| == CHUNK_SIZE && rest != []
    ensures SealFrom(a, key, counter, chunk + rest)
            == if counter > MAX_COUNTER then None
               else Prepend(a.enc(key, ChunkNonce(counter, false), [], chunk), SealFrom(a, key, counter + 1, rest))
  {
    assert (chunk + rest)[..CHUNK_SIZE] == chunk && (chunk + rest)[CHUNK_SIZE..] == rest;
  }

  method StreamSeal(a: Aead, key: Bytes, plaintext: Bytes) returns (r: Result<Bytes, SealError>)
    ensures |key| != 32 ==> r == Err(BadKeyLength)
    ensures |key| == 32 ==> r == match SealFrom(a, key, 0, plaintext)
                                 case Some(c) => Ok(c)
                                 case None => Err(CounterExhausted)
  {
    if |key| != 32 {
      return Err(BadKeyLength);
    }
    var sealer := new StreamSealer(a, key);
    var out: Bytes := [];
    var pos := 0;
    assert plaintext[0..] == plaintext;
    PrependNothing(SealFrom(a, key, 0, plaintext));
    while |plaintext| - pos > CHUNK_SIZE
      invariant 0 <= pos <= |plaintext| && (pos > 0 ==> pos < |plaintext|)
      invariant sealer.Valid() && fresh(sealer) && !sealer.finished && (sealer.counter == 0 <==> pos == 0)
      invariant sealer.aead == a && sealer.key == key
      invariant SealFrom(a, key, 0, plaintext) == Prepend(out, SealFrom(a, key, sealer.counter, plaintext[pos..]))
    {
      ghost var counter, rest := sealer.counter, plaintext[pos + CHUNK_SIZE..];
      var chunk := plaintext[pos..pos + CHUNK_SIZE];
      assert plaintext[pos..] == chunk + rest;
      SealFromSplit(a, key, counter, chunk, rest);
      var sealed := sealer.SealChunk(chunk, false);
      if sealed.Err? {
        return sealed;
      }
      PrependPrepend(out, sealed.value, SealFrom(a, key, counter + 1, rest));
      out := out + sealed.value;
      pos := pos + CHUNK_SIZE;
    }
    var last := sealer.SealChunk(plaintext[pos..], true);
    if last.Err? {
      return last;
    }
    return Ok(out + last.value);
  }

  function PrependChunks(head: seq<Bytes>, tail: (seq<Bytes>, bool)): (seq<Bytes>, bool) {
    (head + tail.0, tail.1)
  }

  lemma OpenChunksSplit(a: Aead, key: Bytes, counter: nat, chunk: Bytes, rest: Bytes)
    requires |chunk| == SEALED_CHUNK_SIZE && rest != []
    ensures var p := OpenedChunk(a, key, counter, chunk, false);
            OpenChunks(a, key, counter, chunk + rest)
            == if p.None? then ([], false) else PrependChunks([p.value], OpenChunks(a, key, counter + 1, rest))
  {
    assert (chunk + rest)[..SEALED_CHUNK_SIZE] == chunk && (chunk + rest)[SEALED_CHUNK_SIZE..] == rest;
  }

  lemma PrependNoChunks(tail: (seq<Bytes>, bool))
    ensures PrependChunks([], tail) == tail
  {
    assert [] + tail.0 == tail.0;
  }

  lemma PrependChunksTwice(x: seq<Bytes>, y: Bytes, tail: (seq<Bytes>, bool))
    ensures PrependChunks(x, PrependChunks([y], tail)) == PrependChunks(x + [y], tail)
  {
    assert x + ([y] + tail.0) == x + [y] + tail.0;
  }

  /** None stands for the tampered-ciphertext failure. */
  method StreamOpen(a: Aead, key: Bytes, ciphertext: Bytes) returns (r: Option<Bytes>)
    requires |key| == 32
    ensures r == OpenFrom(a, key, 0, ciphertext)
  {
    var opener := new StreamOpener(a, key);
    var n := |ciphertext|;
    if n < TAG_SIZE {
      return None;
    }
    var out: Bytes := [];
    ghost var chunks: seq<Bytes> := [];
    var pos := 0;
    assert ciphertext[0..] == ciphertext;
    PrependNoChunks(OpenChunks(a, key, 0, ciphertext));
    while true
      invariant 0 <= pos <= n && (pos > 0 ==> pos < n)
      invariant fresh(opener) && !opener.finished && opener.aead == a && opener.key == key
      invariant out == Concat(chunks)
      invariant OpenChunks(a, key, 0, ciphertext) == PrependChunks(chunks, OpenChunks(a, key, opener.counter, ciphertext[pos..]))
      decreases n - pos
    {
      var remaining := n - pos;
      var final := remaining <= SEALED_CHUNK_SIZE;
      var take := if final then remaining else SEALED_CHUNK_SIZE;
      ghost var counter, rest := opener.counter, ciphertext[pos + take..];
      var chunk := ciphertext[pos..pos + take];
      assert ciphertext[pos..] == chunk + rest;
      if final {
        assert chunk == ciphertext[pos..];
      } else {
        OpenChunksSplit(a, key, counter, chunk, rest);
      }
      var p := opener.OpenChunk(chunk, final);
      if p.None? {
        return None;
      }
      ConcatSnoc(chunks, p.value);
      out := out + p.value;
      if final {
        return Some(out);
      }
      PrependChunksTwice(chunks, p.value, OpenChunks(a, key, counter + 1, rest));
      chunks := chunks + [p.value];
      pos := pos + take;
    }
  }
}
