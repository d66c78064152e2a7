/**
  The lazy re-chunkers around the STREAM machines: input arrives in pieces of any size, one full
  chunk is always held back, and the output is that of the whole-buffer operations.
  */
module StreamBody {
  import opened Wrappers
  import opened ByteStrings
  import opened Stream

  /** The chunk held back until more input, or its end, shows whether it is the final one. */
  function Held(pending: Option<Bytes>): Bytes {
    if pending.Some? then pending.value else []
  }

  /** Of `n` bytes read, exactly `k` chunks are known to be followed by more input. */
  predicate Settled(k: nat, n: nat, size: nat) {
    (k + 1) * size <= n < (k + 2) * size || (k == 0 && n < size)
  }

  // ----- sealing -------------------------------------------------------------------

  predicate FlushedBefore(a: Aead, key: Bytes, counter: nat, done: Bytes, out: Bytes, rest: Bytes) {
    SealFrom(a, key, 0, done + rest) == Prepend(out, SealFrom(a, key, counter, rest))
  }

  /** `out` is the sealed form of the whole chunks `done`, whatever non-empty input follows. */
  ghost predicate Flushed(a: Aead, key: Bytes, counter: nat, done: Bytes, out: Bytes) {
    forall rest :: rest != [] ==> FlushedBefore(a, key, counter, done, out, rest)
  }

  lemma FlushedStart(a: Aead, key: Bytes)
    ensures Flushed(a, key, 0, [], [])
  {
    forall rest: Bytes | rest != [] ensures FlushedBefore(a, key, 0, [], [], rest) {
      assert [] + rest == rest;
      PrependNothing(SealFrom(a, key, 0, rest));
    }
  }

  lemma FlushedStepBefore(a: Aead, key: Bytes, counter: nat, done: Bytes, out: Bytes, chunk: Bytes, sealed: Bytes, rest: Bytes)
    requires FlushedBefore(a, key, counter, done, out, chunk + rest) && counter <= MAX_COUNTER && rest != []
    requires |chunk| == CHUNK_SIZE && sealed == a.enc(key, ChunkNonce(counter, false), [], chunk)
    ensures FlushedBefore(a, key, counter + 1, done + chunk, out + sealed, rest)
  {
    assert done + chunk + rest == done + (chunk + rest);
    SealFromSplit(a, key, counter, chunk, rest);
    PrependPrepend(out, sealed, SealFrom(a, key, counter + 1, rest));
  }

  lemma FlushedStep(a: Aead, key: Bytes, counter: nat, done: Bytes, out: Bytes, chunk: Bytes, sealed: Bytes)
    requires Flushed(a, key, counter, done, out) && counter <= MAX_COUNTER
    requires |chunk| == CHUNK_SIZE && sealed == a.enc(key, ChunkNonce(counter, false), [], chunk)
    ensures Flushed(a, key, counter + 1, done + chunk, out + sealed)
  {
    var next, plain, cipher := counter + 1, done + chunk, out + sealed;
    forall rest: Bytes | rest != [] ensures FlushedBefore(a, key, next, plain, cipher, rest) {
      FlushedStepBefore(a, key, counter, done, out, chunk, sealed, rest);
    }
  }

  lemma FlushedThenExhausted(a: Aead, key: Bytes, counter: nat, done: Bytes, out: Bytes, rest: Bytes)
    requires Flushed(a, key, counter, done, out) && counter > MAX_COUNTER && rest != []
    ensures SealFrom(a, key, 0, done + rest) == None
  {
    assert FlushedBefore(a, key, counter, done, out, rest);
  }

  /** Sealing in progress: what has been read is what was sealed, then held, then buffered. */
  class SealBody {
    const sealer: StreamSealer
    var buffer: Bytes
    var pending: Option<Bytes>
    ghost var done: Bytes
    ghost var yielded: seq<Bytes>

    ghost predicate Valid()
      reads this, sealer
    {
      && sealer.Valid()
      && !sealer.finished
      && Flushed(sealer.aead, sealer.key, sealer.counter, done, Concat(yielded))
      && |done| == sealer.counter * CHUNK_SIZE
      && |yielded| == sealer.counter
      && (pending.Some? ==> |pending.value| == CHUNK_SIZE)
      && (pending.None? ==> sealer.counter == 0)
    }

    /** Everything read so far. */
    ghost function Consumed(): Bytes
      reads this
    {
      done + Held(pending) + buffer
    }

    constructor (a: Aead, key: Bytes)
      requires |key| == 32
      ensures Valid() && fresh(sealer) && sealer.aead == a && sealer.key == key
      ensures Consumed() == [] && yielded == [] && buffer == []
    {
      sealer := new StreamSealer(a, key);
      buffer := [];
      pending := None;
      done := [];
      yielded := [];
      new;
      FlushedStart(a, key);
    }

    /** Seals the held chunk, if any, as a non-final one. */
    method FlushPending() returns (r: Result<seq<Bytes>, SealError>)
      requires Valid() && buffer != []
      modifies this, sealer
      ensures buffer == old(buffer)
      ensures r.Err? ==> SealFrom(sealer.aead, sealer.key, 0, old(Consumed())) == None
      ensures r.Ok? ==>
        && yielded == old(yielded) + r.value
        && Flushed(sealer.aead, sealer.key, sealer.counter, done, Concat(yielded))
        && done == old(done) + Held(old(pending))
        && |done| == sealer.counter * CHUNK_SIZE
        && |yielded| == sealer.counter
        && sealer.Valid() && !sealer.finished
    {
      if pending.None? {
        assert done + Held(pending) == done;
        return Ok([]);
      }
      var chunk := pending.value;
      ghost var a, key, counter := sealer.aead, sealer.key, sealer.counter;
      var sealed := sealer.SealChunk(chunk, false);
      if sealed.Err? {
        assert Consumed() == done + (chunk + buffer);
        FlushedThenExhausted(a, key, counter, done, Concat(yielded), chunk + buffer);
        return Err(sealed.error);
      }
      FlushedStep(a, key, counter, done, Concat(yielded), chunk, sealed.value);
      ConcatSnoc(yielded, sealed.value);
      done := done + chunk;
      yielded := yielded + [sealed.value];
      return Ok([sealed.value]);
    }

    /** Cuts one full chunk off the buffer and holds it back in place of the previous one. */
    method Advance() returns (r: Result<seq<Bytes>, SealError>)
      requires Valid() && |buffer| >= CHUNK_SIZE
      modifies this, sealer
      ensures r.Err? ==> SealFrom(sealer.aead, sealer.key, 0, old(Consumed())) == None
      ensures r.Ok? ==>
        && Valid()
        && Consumed() == old(Consumed())
        && yielded == old(yielded) + r.value
        && buffer == old(buffer)[CHUNK_SIZE..]
    {
      r := FlushPending();
      if r.Err? {
        return;
      }
      pending := Some(buffer[..CHUNK_SIZE]);
      buffer := buffer[CHUNK_SIZE..];
      assert old(buffer) == Held(pending) + buffer;
      assert Consumed() == old(Consumed()) by {
        assert done + Held(pending) + buffer == done + (Held(pending) + buffer);
      }
    }

    /** Reads one piece and yields the chunks it settles. */
    method Feed(piece: Bytes) returns (r: Result<seq<Bytes>, SealError>)
      requires Valid() && |buffer| < CHUNK_SIZE
      modifies this, sealer
      ensures r.Err? ==> SealFrom(sealer.aead, sealer.key, 0, old(Consumed()) + piece) == None
      ensures r.Ok? ==>
        && Valid()
        && |buffer| < CHUNK_SIZE
        && Consumed() == old(Consumed()) + piece
        && yielded == old(yielded) + r.value
        && Settled(|yielded|, |Consumed()|, CHUNK_SIZE)
    {
      buffer := buffer + piece;
      assert Consumed() == old(Consumed()) + piece;
      var out: seq<Bytes> := [];
      while |buffer| >= CHUNK_SIZE
        invariant Valid()
        invariant Consumed() == old(Consumed()) + piece
        invariant yielded == old(yielded) + out
      {
        var more := Advance();
        if more.Err? {
          return more;
        }
        out := out + more.value;
      }
      return Ok(out);
    }

    /** End of input: the short rest, else the held chunk, else an empty chunk is the final one. */
    method Close() returns (r: Result<seq<Bytes>, SealError>)
      requires Valid() && |buffer| < CHUNK_SIZE
      modifies this, sealer
      ensures r.Ok? <==> SealFrom(sealer.aead, sealer.key, 0, old(Consumed())).Some?
      ensures r.Ok? ==> Some(Concat(old(yielded) + r.value)) == SealFrom(sealer.aead, sealer.key, 0, old(Consumed()))
    {
      var before: seq<Bytes> := [];
      var last := buffer;
      if |buffer| > 0 {
        var flushed := FlushPending();
        if flushed.Err? {
          return flushed;
        }
        before := flushed.value;
      } else if pending.Some? {
        last := pending.value;
        assert Consumed() == done + last;
      }
      ghost var a, key, counter := sealer.aead, sealer.key, sealer.counter;
      assert done + last == old(Consumed());
      assert last == [] ==> counter == 0 && done == [];
      var sealed := sealer.SealChunk(last, true);
      FinalChunk(a, key, counter, done, yielded, last);
      if sealed.Err? {
        return Err(sealed.error);
      }
      r := Ok(before + [sealed.value]);
      assert old(yielded) + r.value == yielded + [sealed.value];
    }
  }

  lemma FinalChunk(a: Aead, key: Bytes, counter: nat, done: Bytes, yielded: seq<Bytes>, last: Bytes)
    requires Flushed(a, key, counter, done, Concat(yielded)) && |last| <= CHUNK_SIZE
    requires last == [] ==> counter == 0 && done == [] && yielded == []
    ensures SealFrom(a, key, 0, done + last)
            == if counter > MAX_COUNTER then None
               else Some(Concat(yielded + [a.enc(key, ChunkNonce(counter, true), [], last)]))
  {
    ConcatSnoc(yielded, a.enc(key, ChunkNonce(counter, true), [], last));
    if last == [] {
      assert done + last == [];
      assert Concat(yielded) + a.enc(key, ChunkNonce(counter, true), [], last) == a.enc(key, ChunkNonce(counter, true), [], last);
    } else {
      assert FlushedBefore(a, key, counter, done, Concat(yielded), last);
    }
  }

  /** However the plaintext is cut into pieces, the yielded chunks concatenate to its sealed form. */
  method SealStreamBody(a: Aead, key: Bytes, pieces: seq<Bytes>) returns (r: Result<seq<Bytes>, SealError>)
    requires |key| == 32
    ensures r.Ok? <==> SealFrom(a, key, 0, Concat(pieces)).Some?
    ensures r.Ok? ==> Some(Concat(r.value)) == SealFrom(a, key, 0, Concat(pieces))
  {
    var body := new SealBody(a, key);
    var out: seq<Bytes> := [];
    for i := 0 to |pieces|
      invariant fresh(body) && fresh(body.sealer) && body.sealer.aead == a && body.sealer.key == key
      invariant body.Valid() && |body.buffer| < CHUNK_SIZE
      invariant body.Consumed() == Concat(pieces[..i]) && body.yielded == out
    {
      assert pieces[..i + 1] == pieces[..i] + [pieces[i]];
      ConcatSnoc(pieces[..i], pieces[i]);
      var more := body.Feed(pieces[i]);
      if more.Err? {
        assert pieces == pieces[..i + 1] + pieces[i + 1..];
        ConcatAppend(pieces[..i + 1], pieces[i + 1..]);
        SealExhaustedLonger(a, key, 0, Concat(pieces[..i + 1]), Concat(pieces[i + 1..]));
        return more;
      }
      out := out + more.value;
    }
    assert pieces[..|pieces|] == pieces;
    var last := body.Close();
    if last.Err? {
      return last;
    }
    return Ok(out + last.value);
  }

  /** A plaintext with too many chunks still has too many when more follows. */
  lemma {:induction false} SealExhaustedLonger(a: Aead, key: Bytes, counter: nat, p: Bytes, more: Bytes)
    requires SealFrom(a, key, counter, p) == None
    ensures SealFrom(a, key, counter, p + more) == None
    decreases |p|
  {
    if counter <= MAX_COUNTER {
      SealExhaustedLonger(a, key, counter + 1, p[CHUNK_SIZE..], more);
      assert (p + more)[CHUNK_SIZE..] == p[CHUNK_SIZE..] + more;
    }
  }

  // ----- opening -------------------------------------------------------------------

  predicate OpenedBefore(a: Aead, key: Bytes, counter: nat, done: Bytes, chunks: seq<Bytes>, rest: Bytes) {
    OpenChunks(a, key, 0, done + rest) == PrependChunks(chunks, OpenChunks(a, key, counter, rest))
  }

  /** The sealed chunks `done` opened to `chunks`, whatever non-empty input follows. */
  ghost predicate Opened(a: Aead, key: Bytes, counter: nat, done: Bytes, chunks: seq<Bytes>) {
    forall rest :: rest != [] ==> OpenedBefore(a, key, counter, done, chunks, rest)
  }

  lemma OpenedStart(a: Aead, key: Bytes)
    ensures Opened(a, key, 0, [], [])
  {
    forall rest: Bytes | rest != [] ensures OpenedBefore(a, key, 0, [], [], rest) {
      assert [] + rest == rest;
      PrependNoChunks(OpenChunks(a, key, 0, rest));
    }
  }

  lemma OpenedStepBefore(a: Aead, key: Bytes, counter: nat, done: Bytes, chunks: seq<Bytes>, chunk: Bytes, p: Bytes, rest: Bytes)
    requires OpenedBefore(a, key, counter, done, chunks, chunk + rest) && rest != []
    requires |chunk| == SEALED_CHUNK_SIZE && OpenedChunk(a, key, counter, chunk, false) == Some(p)
    ensures OpenedBefore(a, key, counter + 1, done + chunk, chunks + [p], rest)
  {
    assert done + chunk + rest == done + (chunk + rest);
    OpenChunksSplit(a, key, counter, chunk, rest);
    PrependChunksTwice(chunks, p, OpenChunks(a, key, counter + 1, rest));
  }

  lemma OpenedStep(a: Aead, key: Bytes, counter: nat, done: Bytes, chunks: seq<Bytes>, chunk: Bytes, p: Bytes)
    requires Opened(a, key, counter, done, chunks)
    requires |chunk| == SEALED_CHUNK_SIZE && OpenedChunk(a, key, counter, chunk, false) == Some(p)
    ensures Opened(a, key, counter + 1, done + chunk, chunks + [p])
  {
    var next, sealed, plain := counter + 1, done + chunk, chunks + [p];
    forall rest: Bytes | rest != [] ensures OpenedBefore(a, key, next, sealed, plain, rest) {
      OpenedStepBefore(a, key, counter, done, chunks, chunk, p, rest);
    }
  }

  lemma OpenedThenFails(a: Aead, key: Bytes, counter: nat, done: Bytes, chunks: seq<Bytes>, chunk: Bytes, rest: Bytes)
    requires Opened(a, key, counter, done, chunks) && rest != []
    requires |chunk| == SEALED_CHUNK_SIZE && OpenedChunk(a, key, counter, chunk, false) == None
    ensures OpenChunks(a, key, 0, done + (chunk + rest)) == (chunks, false)
  {
    assert OpenedBefore(a, key, counter, done, chunks, chunk + rest);
    OpenChunksSplit(a, key, counter, chunk, rest);
    assert chunks + [] == chunks;
  }

  lemma OpenedLast(a: Aead, key: Bytes, counter: nat, done: Bytes, chunks: seq<Bytes>, last: Bytes)
    requires Opened(a, key, counter, done, chunks) && |last| <= SEALED_CHUNK_SIZE
    requires last == [] ==> counter == 0 && done == [] && chunks == []
    ensures var p := OpenedChunk(a, key, counter, last, true);
            OpenChunks(a, key, 0, done + last) == if p.Some? then (chunks + [p.value], true) else (chunks, false)
  {
    if last == [] {
      assert done + last == [];
    } else {
      assert OpenedBefore(a, key, counter, done, chunks, last);
      assert chunks + [] == chunks;
    }
  }

  /** Opening in progress. */
  class OpenBody {
    const opener: StreamOpener
    var buffer: Bytes
    var pending: Option<Bytes>
    ghost var done: Bytes
    ghost var yielded: seq<Bytes>

    ghost predicate Valid()
      reads this, opener
    {
      && !opener.finished
      && Opened(opener.aead, opener.key, opener.counter, done, yielded)
      && |done| == opener.counter * SEALED_CHUNK_SIZE
      && |yielded| == opener.counter
      && (pending.Some? ==> |pending.value| == SEALED_CHUNK_SIZE)
      && (pending.None? ==> opener.counter == 0)
    }

    /** Everything read so far. */
    ghost function Consumed(): Bytes
      reads this
    {
      done + Held(pending) + buffer
    }

    /** The yielded chunks are all that verifies of `c`, now and whatever is appended to it. */
    ghost predicate Rejects(c: Bytes)
      reads this
    {
      forall more :: OpenChunks(opener.aead, opener.key, 0, c + more) == (yielded, false)
    }

    constructor (a: Aead, key: Bytes)
      requires |key| == 32
      ensures Valid() && fresh(opener) && opener.aead == a && opener.key == key
      ensures Consumed() == [] && yielded == [] && buffer == []
    {
      opener := new StreamOpener(a, key);
      buffer := [];
      pending := None;
      done := [];
      yielded := [];
      new;
      OpenedStart(a, key);
    }

    lemma HeldChunkFails(chunk: Bytes)
      requires Valid() && pending == Some(chunk) && buffer != []
      requires OpenedChunk(opener.aead, opener.key, opener.counter, chunk, false) == None
      ensures Rejects(Consumed())
    {
      var c := Consumed();
      forall more ensures OpenChunks(opener.aead, opener.key, 0, c + more) == (yielded, false) {
        assert c + more == done + (chunk + (buffer + more));
        OpenedThenFails(opener.aead, opener.key, opener.counter, done, yielded, chunk, buffer + more);
      }
    }

    /** Opens the held chunk, if any, as a non-final one. */
    method FlushPending() returns (r: Option<seq<Bytes>>)
      requires Valid() && buffer != []
      modifies this, opener
      ensures buffer == old(buffer)
      ensures r.None? ==> yielded == old(yielded) && Rejects(old(Consumed()))
      ensures r.Some? ==>
        && yielded == old(yielded) + r.value
        && Opened(opener.aead, opener.key, opener.counter, done, yielded)
        && done == old(done) + Held(old(pending))
        && |done| == opener.counter * SEALED_CHUNK_SIZE
        && |yielded| == opener.counter
        && !opener.finished
    {
      if pending.None? {
        assert done + Held(pending) == done;
        return Some([]);
      }
      var chunk := pending.value;
      ghost var a, key, counter := opener.aead, opener.key, opener.counter;
      if OpenedChunk(a, key, counter, chunk, false) == None {
        HeldChunkFails(chunk);
      }
      var p := opener.OpenChunk(chunk, false);
      if p.None? {
        return None;
      }
      OpenedStep(a, key, counter, done, yielded, chunk, p.value);
      done := done + chunk;
      yielded := yielded + [p.value];
      return Some([p.value]);
    }

    /** Cuts one full sealed chunk off the buffer and holds it back in place of the previous one. */
    method Advance() returns (r: Option<seq<Bytes>>)
      requires Valid() && |buffer| >= SEALED_CHUNK_SIZE
      modifies this, opener
      ensures r.None? ==> yielded == old(yielded) && Rejects(old(Consumed()))
      ensures r.Some? ==>
        && Valid()
        && Consumed() == old(Consumed())
        && yielded == old(yielded) + r.value
        && buffer == old(buffer)[SEALED_CHUNK_SIZE..]
    {
      r := FlushPending();
      if r.None? {
        return;
      }
      pending := Some(buffer[..SEALED_CHUNK_SIZE]);
      buffer := buffer[SEALED_CHUNK_SIZE..];
      assert old(buffer) == Held(pending) + buffer;
      assert Consumed() == old(Consumed()) by {
        assert done + Held(pending) + buffer == done + (Held(pending) + buffer);
      }
    }

    /** Reads one piece; yields the chunks it settles, and says whether all of them verified. */
    method Feed(piece: Bytes) returns (out: seq<Bytes>, ok: bool)
      requires Valid() && |buffer| < SEALED_CHUNK_SIZE
      modifies this, opener
      ensures yielded == old(yielded) + out
      ensures !ok ==> Rejects(old(Consumed()) + piece)
      ensures ok ==>
        && Valid()
        && |buffer| < SEALED_CHUNK_SIZE
        && Consumed() == old(Consumed()) + piece
        && Settled(|yielded|, |Consumed()|, SEALED_CHUNK_SIZE)
    {
      buffer := buffer + piece;
      assert Consumed() == old(Consumed()) + piece;
      out := [];
      while |buffer| >= SEALED_CHUNK_SIZE
        invariant Valid()
        invariant Consumed() == old(Consumed()) + piece
        invariant yielded == old(yielded) + out
      {
        var more := Advance();
        if more.None? {
          return out, false;
        }
        out := out + more.value;
      }
      return out, true;
    }

    /** End of input. */
    method Close() returns (out: seq<Bytes>, ok: bool)
      requires Valid() && |buffer| < SEALED_CHUNK_SIZE
      modifies this, opener
      ensures (old(yielded) + out, ok) == OpenChunks(opener.aead, opener.key, 0, old(Consumed()))
    {
      out := [];
      var last := buffer;
      ghost var all := Consumed();
      assert all + [] == all;
      if |buffer| > 0 {
        var flushed := FlushPending();
        if flushed.None? {
          assert OpenChunks(opener.aead, opener.key, 0, all + []) == (yielded, false);
          assert yielded + [] == yielded;
          return [], false;
        }
        out := flushed.value;
      } else if pending.Some? {
        last := pending.value;
        assert Consumed() == done + last;
      }
      assert done + last == all && yielded == old(yielded) + out;
      assert last == [] ==> opener.counter == 0 && done == [];
      OpenedLast(opener.aead, opener.key, opener.counter, done, yielded, last);
      var p := opener.OpenChunk(last, true);
      if p.None? {
        return out, false;
      }
      assert old(yielded) + (out + [p.value]) == yielded + [p.value];
      return out + [p.value], true;
    }
  }

  /**
    However the ciphertext is cut into pieces, the yielded chunks are exactly those that verify,
    in order, and the outcome is a match exactly when all do.
    */
  method UnwrapStreamBody(a: Aead, key: Bytes, pieces: seq<Bytes>) returns (out: seq<Bytes>, matched: bool)
    requires |key| == 32
    ensures (out, matched) == OpenChunks(a, key, 0, Concat(pieces))
  {
    var body := new OpenBody(a, key);
    out := [];
    for i := 0 to |pieces|
      invariant fresh(body) && fresh(body.opener) && body.opener.aead == a && body.opener.key == key
      invariant body.Valid() && |body.buffer| < SEALED_CHUNK_SIZE
      invariant body.Consumed() == Concat(pieces[..i]) && body.yielded == out
    {
      assert pieces[..i + 1] == pieces[..i] + [pieces[i]];
      ConcatSnoc(pieces[..i], pieces[i]);
      var more, ok := body.Feed(pieces[i]);
      out := out + more;
      if !ok {
        assert pieces == pieces[..i + 1] + pieces[i + 1..];
        ConcatAppend(pieces[..i + 1], pieces[i + 1..]);
        return out, false;
      }
    }
    assert pieces[..|pieces|] == pieces;
    var last, ok := body.Close();
    return out + last, ok;
  }

  /** Unwrapping in pieces recovers what was sealed in pieces. */
  lemma UnwrapInvertsSeal(a: Aead, key: Bytes, pieces: seq<Bytes>, sealed: seq<Bytes>)
    requires Exact(a) && SealFrom(a, key, 0, Concat(pieces)) == Some(Concat(sealed))
    ensures var r := OpenChunks(a, key, 0, Concat(sealed));
            r.1 && Concat(r.0) == Concat(pieces)
  {
    OpenExactlySealed(a, key, Concat(sealed), Concat(pieces));
  }
}
