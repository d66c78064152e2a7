/** The label-309 carriage: a record body split into a chunk array, and put together again. */
module Carriage {
  import opened Wrappers
  import opened ByteStrings
  import opened Cbor

  const CHUNK_MAX: nat := 64

  datatype CarriageError = MalformedCbor | ChunkTooLarge

  // ----- splitting -----------------------------------------------------------------

  /** Every chunk but the last has 64 bytes; an empty body has no chunk array. */
  function ChunkRecordBody(body: Bytes): Option<seq<Bytes>> {
    if body == [] then None
    else Some(seq((|body| + 63) / 64, i requires 0 <= i < (|body| + 63) / 64 => body[64 * i..Min(64 * i + 64, |body|)]))
  }

  lemma {:induction false} ChunkPrefix(body: Bytes, k: nat)
    requires body != [] && k <= |ChunkRecordBody(body).value|
    ensures Concat(ChunkRecordBody(body).value[..k]) == body[..Min(64 * k, |body|)]
  {
    var chunks := ChunkRecordBody(body).value;
    if k == 0 {
      assert chunks[..0] == [] && body[..0] == [];
    } else {
      var a, b := 64 * (k - 1), Min(64 * k, |body|);
      ChunkPrefix(body, k - 1);
      assert chunks[..k] == chunks[..k - 1] + [chunks[k - 1]];
      ConcatSnoc(chunks[..k - 1], chunks[k - 1]);
      assert a < |body| && chunks[k - 1] == body[a..b];
      assert body[..a] + body[a..b] == body[..b];
    }
  }

  /** The chunks make up the body, are never empty, and only the last may be short. */
  lemma ChunksMakeUpBody(body: Bytes)
    requires body != []
    ensures var chunks := ChunkRecordBody(body).value;
            && Concat(chunks) == body
            && (forall i :: 0 <= i < |chunks| ==> 1 <= |chunks[i]| <= CHUNK_MAX)
            && (forall i :: 0 <= i < |chunks| - 1 ==> |chunks[i]| == CHUNK_MAX)
  {
    var chunks := ChunkRecordBody(body).value;
    ChunkPrefix(body, |chunks|);
    assert chunks[..|chunks|] == chunks;
    assert body[..|body|] == body;
  }

  // ----- the encoded chunk array ---------------------------------------------------

  function ChunkBytes(chunk: Bytes): Bytes
  {
    HeadBytes(ShortestHead(2, |chunk|)) + chunk
  }

  function ChunksBytes(chunks: seq<Bytes>): Bytes {
    if chunks == [] then [] else ChunkBytes(chunks[0]) + ChunksBytes(chunks[1..])
  }

  function ArrayBytes(chunks: seq<Bytes>): Bytes {
    HeadBytes(ShortestHead(4, |chunks|)) + ChunksBytes(chunks)
  }

  /** The label-309 value of a body. */
  function EncodeLabel309Value(body: Bytes): Option<Bytes> {
    var chunks := ChunkRecordBody(body);
    if chunks.Some? then Some(ArrayBytes(chunks.value)) else None
  }

  // ----- reading it back -----------------------------------------------------------

  /** A head in its shortest form. */
  function StrictHead(data: Bytes, pos: nat): (r: Option<HeadAt>)
    ensures r.Some? ==> pos < r.value.payloadStart <= |data| && r.value.head.mt < 8
  {
    var h := ReadHead(data, pos);
    if h.Some? && Minimal(h.value.head) then h else None
  }

  datatype Chunks = Chunks(chunks: seq<Bytes>, end: nat)

  function PrependChunk(c: Bytes, rest: Result<Chunks, CarriageError>): Result<Chunks, CarriageError> {
    match rest
    case Ok(r) => Ok(Chunks([c] + r.chunks, r.end))
    case Err(e) => Err(e)
  }

  /** `n` byte strings of at most 64 bytes from `pos` on. */
  function ReadChunks(data: Bytes, pos: nat, n: nat): Result<Chunks, CarriageError>
    decreases n
  {
    if n == 0 then Ok(Chunks([], pos))
    else
      var h := StrictHead(data, pos);
      if h.None? || h.value.head.mt != 2 then Err(MalformedCbor)
      else
        var start, end := h.value.payloadStart, h.value.payloadStart + h.value.head.value;
        if end > |data| then Err(MalformedCbor)
        else if h.value.head.value > CHUNK_MAX then Err(ChunkTooLarge)
        else PrependChunk(data[start..end], ReadChunks(data, end, n - 1))
  }

  function Reassemble(data: Bytes): Result<Bytes, CarriageError> {
    var h := StrictHead(data, 0);
    if h.None? || h.value.head.mt != 4 then Err(MalformedCbor)
    else
      match ReadChunks(data, h.value.payloadStart, h.value.head.value)
      case Err(e) => Err(e)
      case Ok(r) => if r.end != |data| then Err(MalformedCbor) else Ok(Concat(r.chunks))
  }

  /** The strict reader, branch by branch. */
  method ReadStrictHead(data: Bytes, pos: nat) returns (r: Option<HeadAt>)
    ensures r == StrictHead(data, pos)
  {
    if pos >= |data| {
      return None;
    }
    var mt, ai, p := data[pos] / 32, data[pos] % 32, pos + 1;
    if ai < 24 {
      return Some(HeadAt(Head(mt, ai, ai), p));
    }
    if ai == 24 {
      if p + 1 > |data| {
        return None;
      }
      var value := BigEndianValue(data[p..p + 1]);
      return if value < 24 then None else Some(HeadAt(Head(mt, ai, value), p + 1));
    }
    if ai == 25 {
      if p + 2 > |data| {
        return None;
      }
      var value := BigEndianValue(data[p..p + 2]);
      return if value <= 0xFF then None else Some(HeadAt(Head(mt, ai, value), p + 2));
    }
    if ai == 26 {
      if p + 4 > |data| {
        return None;
      }
      var value := BigEndianValue(data[p..p + 4]);
      return if value <= 0xFFFF then None else Some(HeadAt(Head(mt, ai, value), p + 4));
    }
    if ai == 27 {
      if p + 8 > |data| {
        return None;
      }
      var value := BigEndianValue(data[p..p + 8]);
      return if value <= 0xFFFF_FFFF then None else Some(HeadAt(Head(mt, ai, value), p + 8));
    }
    return None;
  }

  /** A strict head is read exactly where the shortest head of its argument stands. */
  lemma StrictHeadExact(data: Bytes, pos: nat, mt: nat, value: nat, start: nat)
    requires mt < 8
    ensures StrictHead(data, pos) == Some(HeadAt(ShortestHead(mt, value), start))
            <==> value < LIMIT && At(data, pos, HeadBytes(ShortestHead(mt, value))) && start == pos + |HeadBytes(ShortestHead(mt, value))|
  {
    var s := ShortestHead(mt, value);
    if StrictHead(data, pos) == Some(HeadAt(s, start)) {
      ReadHeadSound(data, pos);
      MinimalIffShortest(s);
    }
    if value < LIMIT && At(data, pos, HeadBytes(s)) && start == pos + |HeadBytes(s)| {
      ShortestIsValid(mt, value);
      ReadHeadComplete(data, pos, s);
    }
  }

  lemma StrictIsShortest(data: Bytes, pos: nat)
    requires StrictHead(data, pos).Some?
    ensures var h := StrictHead(data, pos).value;
            && h.head == ShortestHead(h.head.mt, h.head.value)
            && h.head.value < LIMIT
            && At(data, pos, HeadBytes(h.head))
            && h.payloadStart == pos + |HeadBytes(h.head)|
  {
    ReadHeadSound(data, pos);
    MinimalIffShortest(StrictHead(data, pos).value.head);
  }

  predicate Fits(chunks: seq<Bytes>) {
    forall i :: 0 <= i < |chunks| ==> |chunks[i]| <= CHUNK_MAX
  }

  lemma ChunkRead(data: Bytes, pos: nat, c: Bytes, n: nat, next: nat)
    requires |c| <= CHUNK_MAX && At(data, pos, ChunkBytes(c)) && n > 0 && next == pos + |ChunkBytes(c)|
    ensures ReadChunks(data, pos, n) == PrependChunk(c, ReadChunks(data, next, n - 1))
  {
    var head := HeadBytes(ShortestHead(2, |c|));
    AtSplit(data, pos, head, c);
    StrictHeadExact(data, pos, 2, |c|, pos + |head|);
  }

  /** Chunk by chunk, the chunks stand in `data` from `pos` up to `end`. */
  predicate ChunksAt(data: Bytes, pos: nat, chunks: seq<Bytes>, end: nat)
    decreases |chunks|
  {
    if chunks == [] then pos == end
    else At(data, pos, ChunkBytes(chunks[0])) && ChunksAt(data, pos + |ChunkBytes(chunks[0])|, chunks[1..], end)
  }

  lemma {:induction false} ChunksAtIff(data: Bytes, pos: nat, chunks: seq<Bytes>, end: nat)
    requires pos <= |data|
    ensures ChunksAt(data, pos, chunks, end) <==> At(data, pos, ChunksBytes(chunks)) && end == pos + |ChunksBytes(chunks)|
    decreases |chunks|
  {
    if chunks != [] {
      var first, rest := ChunkBytes(chunks[0]), chunks[1..];
      AtSplit(data, pos, first, ChunksBytes(rest));
      if At(data, pos, first) {
        ChunksAtIff(data, pos + |first|, rest, end);
      }
    }
  }

  /** Chunks that stand at `pos` are read back. */
  lemma {:induction false} ChunksRead(data: Bytes, pos: nat, chunks: seq<Bytes>, n: nat, end: nat)
    requires Fits(chunks) && ChunksAt(data, pos, chunks, end) && n >= |chunks|
    ensures ReadChunks(data, pos, n) == PrependChunks(chunks, ReadChunks(data, end, n - |chunks|))
    decreases |chunks|
  {
    hide At, ChunkBytes, ReadChunks, PrependChunk, PrependChunks;
    if chunks == [] {
      PrependNoChunks(ReadChunks(data, pos, n));
    } else {
      var c, rest := chunks[0], chunks[1..];
      assert chunks == [c] + rest;
      var next := pos + |ChunkBytes(c)|;
      ChunkRead(data, pos, c, n, next);
      ChunksRead(data, next, rest, n - 1, end);
      PrependChunksStep(c, rest, ReadChunks(data, end, n - |chunks|));
    }
  }

  function PrependChunks(cs: seq<Bytes>, rest: Result<Chunks, CarriageError>): Result<Chunks, CarriageError> {
    match rest
    case Ok(r) => Ok(Chunks(cs + r.chunks, r.end))
    case Err(e) => Err(e)
  }

  lemma PrependNoChunks(rest: Result<Chunks, CarriageError>)
    ensures PrependChunks([], rest) == rest
  {
    if rest.Ok? {
      assert [] + rest.value.chunks == rest.value.chunks;
    }
  }

  lemma PrependChunksStep(c: Bytes, cs: seq<Bytes>, rest: Result<Chunks, CarriageError>)
    ensures PrependChunk(c, PrependChunks(cs, rest)) == PrependChunks([c] + cs, rest)
  {
    if rest.Ok? {
      assert [c] + (cs + rest.value.chunks) == [c] + cs + rest.value.chunks;
    }
  }

  lemma PrependChunksSnoc(cs: seq<Bytes>, c: Bytes, rest: Result<Chunks, CarriageError>)
    ensures PrependChunks(cs, PrependChunk(c, rest)) == PrependChunks(cs + [c], rest)
  {
    if rest.Ok? {
      assert cs + ([c] + rest.value.chunks) == cs + [c] + rest.value.chunks;
    }
  }

  /** The reader loop: collects the chunks, then insists on the end of the value. */
  method ReassembleLabel309Value(data: Bytes) returns (r: Result<Bytes, CarriageError>)
    ensures r == Reassemble(data)
  {
    var head := ReadStrictHead(data, 0);
    if head.None? || head.value.head.mt != 4 {
      return Err(MalformedCbor);
    }
    var start, n := head.value.payloadStart, head.value.head.value;
    var pos: nat := start;
    var chunks: seq<Bytes> := [];
    PrependNoChunks(ReadChunks(data, start, n));
    for i := 0 to n
      invariant ReadChunks(data, start, n) == PrependChunks(chunks, ReadChunks(data, pos, n - i))
    {
      var chunkHead := ReadStrictHead(data, pos);
      if chunkHead.None? || chunkHead.value.head.mt != 2 {
        return Err(MalformedCbor);
      }
      var from := chunkHead.value.payloadStart;
      var end: nat := from + chunkHead.value.head.value;
      if end > |data| {
        return Err(MalformedCbor);
      }
      if chunkHead.value.head.value > CHUNK_MAX {
        return Err(ChunkTooLarge);
      }
      PrependChunksSnoc(chunks, data[from..end], ReadChunks(data, end, n - i - 1));
      chunks := chunks + [data[from..end]];
      pos := end;
    }
    assert chunks + [] == chunks;
    return if pos != |data| then Err(MalformedCbor) else Ok(Concat(chunks));
  }

  lemma ChunkStood(data: Bytes, pos: nat, h: HeadAt, c: Bytes, end: nat)
    requires StrictHead(data, pos) == Some(h) && h.head.mt == 2 && end == h.payloadStart + h.head.value <= |data|
    requires c == data[h.payloadStart..end]
    ensures At(data, pos, ChunkBytes(c)) && end == pos + |ChunkBytes(c)| && |c| < LIMIT
  {
    StrictIsShortest(data, pos);
    AtSplit(data, pos, HeadBytes(h.head), c);
  }

  /** What is read stood there in shortest form. */
  lemma {:induction false} ReadChunksStood(data: Bytes, pos: nat, n: nat)
    requires pos <= |data| && ReadChunks(data, pos, n).Ok?
    ensures var r := ReadChunks(data, pos, n).value;
            |r.chunks| == n && Fits(r.chunks) && ChunksAt(data, pos, r.chunks, r.end)
    decreases n
  {
    hide At, ChunkBytes, StrictHead;
    if n > 0 {
      var h := StrictHead(data, pos).value;
      var end := h.payloadStart + h.head.value;
      var c := data[h.payloadStart..end];
      ChunkStood(data, pos, h, c, end);
      ReadChunksStood(data, end, n - 1);
      var rest := ReadChunks(data, end, n - 1).value.chunks;
      assert ([c] + rest)[1..] == rest;
    }
  }

  predicate CarriedAs(data: Bytes, body: Bytes, chunks: seq<Bytes>) {
    |chunks| < LIMIT && Fits(chunks) && data == ArrayBytes(chunks) && body == Concat(chunks)
  }

  lemma ArrayRead(data: Bytes, chunks: seq<Bytes>, head: Bytes, rest: Bytes)
    requires |chunks| < LIMIT && Fits(chunks) && At(data, 0, head) && At(data, |head|, rest) && |data| == |head| + |rest|
    requires head == HeadBytes(ShortestHead(4, |chunks|)) && rest == ChunksBytes(chunks)
    ensures Reassemble(data) == Ok(Concat(chunks))
  {
    StrictHeadExact(data, 0, 4, |chunks|, |head|);
    ChunksAtIff(data, |head|, chunks, |data|);
    ChunksRead(data, |head|, chunks, |chunks|, |data|);
    assert chunks + [] == chunks;
  }

  lemma ArrayReassembles(data: Bytes, chunks: seq<Bytes>)
    requires |chunks| < LIMIT && Fits(chunks) && data == ArrayBytes(chunks)
    ensures Reassemble(data) == Ok(Concat(chunks))
  {
    var head, rest := HeadBytes(ShortestHead(4, |chunks|)), ChunksBytes(chunks);
    WholeSplits(data, head, rest);
    ArrayRead(data, chunks, head, rest);
  }

  lemma WholeSplits(data: Bytes, head: Bytes, rest: Bytes)
    ensures data == head + rest <==> At(data, 0, head) && At(data, |head|, rest) && |data| == |head| + |rest|
  {
    assert data[0..|data|] == data;
    AtSplit(data, 0, head, rest);
  }

  lemma ReassembledStood(data: Bytes) returns (chunks: seq<Bytes>)
    requires Reassemble(data).Ok?
    ensures CarriedAs(data, Reassemble(data).value, chunks)
  {
    var h := StrictHead(data, 0).value;
    StrictIsShortest(data, 0);
    ReadChunksStood(data, h.payloadStart, h.head.value);
    chunks := ReadChunks(data, h.payloadStart, h.head.value).value.chunks;
    ChunksAtIff(data, h.payloadStart, chunks, |data|);
    WholeSplits(data, HeadBytes(h.head), ChunksBytes(chunks));
  }

  /** Reassembly yields `body` exactly on the arrays of at most 64-byte chunks that concatenate to it. */
  lemma ReassemblesExactly(data: Bytes, body: Bytes)
    ensures Reassemble(data) == Ok(body) <==> exists chunks :: CarriedAs(data, body, chunks)
  {
    if Reassemble(data) == Ok(body) {
      var chunks := ReassembledStood(data);
    }
    if exists chunks :: CarriedAs(data, body, chunks) {
      var chunks :| CarriedAs(data, body, chunks);
      ArrayReassembles(data, chunks);
    }
  }

  /** An array head for more elements than `chunks`, those chunks, then one longer than 64 bytes. */
  predicate OversizedAfter(data: Bytes, n: nat, chunks: seq<Bytes>, at: nat, big: Bytes) {
    var start := |HeadBytes(ShortestHead(4, n))|;
    && |chunks| < n < LIMIT
    && Fits(chunks)
    && CHUNK_MAX < |big| < LIMIT
    && At(data, 0, HeadBytes(ShortestHead(4, n)))
    && At(data, start, ChunksBytes(chunks))
    && at == start + |ChunksBytes(chunks)|
    && At(data, at, ChunkBytes(big))
  }

  lemma BigChunkRefused(data: Bytes, pos: nat, big: Bytes, n: nat)
    requires CHUNK_MAX < |big| < LIMIT && At(data, pos, ChunkBytes(big)) && n > 0
    ensures ReadChunks(data, pos, n) == Err(ChunkTooLarge)
  {
    var head := HeadBytes(ShortestHead(2, |big|));
    AtSplit(data, pos, head, big);
    StrictHeadExact(data, pos, 2, |big|, pos + |head|);
  }

  lemma {:induction false} RefusedHasBigChunk(data: Bytes, pos: nat, n: nat) returns (chunks: seq<Bytes>, at: nat, big: Bytes)
    requires pos <= |data| && ReadChunks(data, pos, n) == Err(ChunkTooLarge)
    ensures |chunks| < n && Fits(chunks) && At(data, pos, ChunksBytes(chunks)) && at == pos + |ChunksBytes(chunks)|
    ensures CHUNK_MAX < |big| < LIMIT && At(data, at, ChunkBytes(big))
    decreases n
  {
    hide At, ChunkBytes, StrictHead;
    var h := StrictHead(data, pos).value;
    var end := h.payloadStart + h.head.value;
    var c := data[h.payloadStart..end];
    ChunkStood(data, pos, h, c, end);
    if h.head.value > CHUNK_MAX {
      chunks, at, big := [], pos, c;
      NothingAt(data, pos);
    } else {
      var rest;
      rest, at, big := RefusedHasBigChunk(data, end, n - 1);
      chunks := [c] + rest;
      assert chunks[1..] == rest;
      AtSplit(data, pos, ChunkBytes(c), ChunksBytes(rest));
    }
  }

  lemma NothingAt(data: Bytes, pos: nat)
    requires pos <= |data|
    ensures At(data, pos, [])
  {
  }

  lemma OversizedRefused(data: Bytes, n: nat, chunks: seq<Bytes>, at: nat, big: Bytes)
    requires OversizedAfter(data, n, chunks, at, big)
    ensures Reassemble(data) == Err(ChunkTooLarge)
  {
    var start := |HeadBytes(ShortestHead(4, n))|;
    StrictHeadExact(data, 0, 4, n, start);
    ChunksAtIff(data, start, chunks, at);
    ChunksRead(data, start, chunks, n, at);
    BigChunkRefused(data, at, big, n - |chunks|);
  }

  /** The oversize error means that, and every other refusal is the malformed one. */
  lemma RefusesOversizeExactly(data: Bytes)
    ensures Reassemble(data) == Err(ChunkTooLarge) <==> exists n: nat, chunks, at: nat, big :: OversizedAfter(data, n, chunks, at, big)
  {
    if Reassemble(data) == Err(ChunkTooLarge) {
      var h := StrictHead(data, 0).value;
      StrictIsShortest(data, 0);
      var chunks, at, big := RefusedHasBigChunk(data, h.payloadStart, h.head.value);
      assert OversizedAfter(data, h.head.value, chunks, at, big);
    }
    if exists n: nat, chunks, at: nat, big :: OversizedAfter(data, n, chunks, at, big) {
      var n: nat, chunks, at: nat, big :| OversizedAfter(data, n, chunks, at, big);
      OversizedRefused(data, n, chunks, at, big);
    }
  }

  /** A body survives the carriage whatever its length, up to 2^64 chunks. */
  lemma CarriageRoundTrip(body: Bytes)
    requires body != [] && |body| <= 64 * (LIMIT - 1)
    ensures Reassemble(EncodeLabel309Value(body).value) == Ok(body)
  {
    ChunksMakeUpBody(body);
    var chunks := ChunkRecordBody(body).value;
    ArrayReassembles(ArrayBytes(chunks), chunks);
  }
}
