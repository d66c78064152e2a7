/**
  Submitting prepared ciphertexts: a price-capped quote, one upload per item that has no receipt yet,
  a refreshed price lock, and the publication. The gateway's answers are arbitrary.
  */
module SubmitSealed {
  import opened Wrappers
  import opened ByteStrings
  import opened Decimal
  import opened UploadReceipts

  /** A price lock; the amount is the gateway's decimal string. */
  datatype Quote = Quote(id: string, amount: string)

  /** Without a cap anything goes; with one, the amount must be a decimal number not above it. */
  predicate WithinCap(max: Option<int>, q: Quote) {
    max.Some? ==> DecimalValue(q.amount).Some? && DecimalValue(q.amount).value <= max.value
  }

  datatype Call = Call(argsOk: bool, max: Option<int>, quote: Option<Quote>, uploaded: seq<Receipt>)

  /** Clock and gateway: freshness of the locks, the answer to each request (None for an error), the encoder. */
  datatype World = World(
    callerQuoteFresh: bool,
    firstQuote: Option<Quote>,
    upload: nat -> Option<string>,
    lockFresh: bool,
    secondQuote: Option<Quote>,
    encode: seq<string> -> Option<Bytes>,
    publish: Option<string>)

  datatype Action = AskQuote | Upload(index: nat, quote: Quote) | Publish(quote: Quote, uris: seq<string>)

  datatype Outcome =
    | Submitted(uploads: seq<Receipt>, uris: seq<string>, quote: Quote, record: Bytes, response: string)
    | Failed(uploads: seq<Receipt>)

  // ----- uploading the items that have no receipt ----------------------------------

  /** The first item from `i` on whose upload fails, or `n`. */
  function FirstFailure(resumed: map<nat, Receipt>, upload: nat -> Option<string>, i: nat, n: nat): (k: nat)
    requires i <= n
    ensures i <= k <= n
    decreases n - i
  {
    if i == n then n
    else if i !in resumed && upload(i).None? then i
    else FirstFailure(resumed, upload, i + 1, n)
  }

  lemma {:induction false} FirstFailureFails(resumed: map<nat, Receipt>, upload: nat -> Option<string>, i: nat, n: nat, j: nat)
    requires i <= j < n && j <= FirstFailure(resumed, upload, i, n)
    ensures j < FirstFailure(resumed, upload, i, n) <==> j in resumed || upload(j).Some?
    decreases n - i
  {
    if i < j {
      FirstFailureFails(resumed, upload, i + 1, n, j);
    }
  }

  /** The receipts in hand once the items below `k` are through. */
  function Finished(p: Prepared, resumed: map<nat, Receipt>, upload: nat -> Option<string>, k: nat): map<nat, Receipt>
    requires k <= |p.items|
  {
    resumed + map i: nat | i < k && i !in resumed && upload(i).Some? :: ReceiptFor(p, i, upload(i).value)
  }

  function UploadTrace(resumed: map<nat, Receipt>, q: Quote, k: nat): seq<Action> {
    if k == 0 then []
    else if k - 1 in resumed then UploadTrace(resumed, q, k - 1)
    else UploadTrace(resumed, q, k - 1) + [Upload(k - 1, q)]
  }

  /** `rest` is what `m` holds from item `k` on. */
  predicate From(rest: map<nat, Receipt>, m: map<nat, Receipt>, k: nat) {
    && (forall i :: i in rest ==> i >= k && i in m && rest[i] == m[i])
    && (forall i :: i in m && i >= k ==> i in rest)
  }

  /** Splits the ordered receipts at item `k`. */
  lemma {:induction false} InOrderSplit(m: map<nat, Receipt>, rest: map<nat, Receipt>, k: nat, n: nat)
    requires k <= n && From(rest, m, k)
    ensures InOrder(m, n) == InOrder(m, k) + InOrder(rest, n)
    decreases n
  {
    if n == k {
      InOrderNone(rest, n);
    } else {
      InOrderSplit(m, rest, k, n - 1);
    }
  }

  lemma {:induction false} InOrderNone(m: map<nat, Receipt>, n: nat)
    requires forall i :: i in m ==> i >= n
    ensures InOrder(m, n) == []
  {
    if n > 0 {
      InOrderNone(m, n - 1);
    }
  }

  lemma FinishedAt(p: Prepared, resumed: map<nat, Receipt>, upload: nat -> Option<string>, k: nat, i: nat)
    requires k <= |p.items| && i < k && (i in resumed || upload(i).Some?)
    ensures var done := Finished(p, resumed, upload, k);
            i in done && done[i] == if i in resumed then resumed[i] else ReceiptFor(p, i, upload(i).value)
  {
  }

  lemma FromNext(rest: map<nat, Receipt>, m: map<nat, Receipt>, k: nat)
    requires From(rest, m, k)
    ensures k in rest <==> k in m
    ensures k in rest ==> rest[k] == m[k]
    ensures From(rest - {k}, m, k + 1)
  {
  }

  lemma FromAll(m: map<nat, Receipt>)
    ensures From(m, m, 0)
  {
  }

  /** When item `k` fails, the receipts from there on are the unused resumed ones. */
  lemma UnusedResumed(p: Prepared, resumed0: map<nat, Receipt>, upload: nat -> Option<string>, k: nat, rest: map<nat, Receipt>)
    requires k <= |p.items| && From(rest, resumed0, k)
    ensures From(rest, Finished(p, resumed0, upload, k), k)
  {
  }

  lemma NextInOrder(m: map<nat, Receipt>, k: nat)
    ensures k in m ==> InOrder(m, k + 1) == InOrder(m, k) + [m[k]]
  {
  }

  lemma NextTrace(resumed: map<nat, Receipt>, q: Quote, k: nat)
    ensures UploadTrace(resumed, q, k + 1) == if k in resumed then UploadTrace(resumed, q, k) else UploadTrace(resumed, q, k) + [Upload(k, q)]
  {
  }

  /** The loop over the items: pops receipts, uploads the others, gives all receipts back on a failure. */
  method UploadItems(p: Prepared, resumed0: map<nat, Receipt>, upload: nat -> Option<string>, q: Quote)
    returns (uploads: seq<Receipt>, failed: bool, trace: seq<Action>)
    requires forall i :: i in resumed0 ==> i < |p.items|
    ensures var n := |p.items|;
            var k := FirstFailure(resumed0, upload, 0, n);
            && failed == (k < n)
            && uploads == InOrder(Finished(p, resumed0, upload, k), n)
            && trace == UploadTrace(resumed0, q, if k < n then k + 1 else n)
  {
    var n := |p.items|;
    ghost var k := FirstFailure(resumed0, upload, 0, n);
    ghost var done := Finished(p, resumed0, upload, k);
    var resumed: map<nat, Receipt> := resumed0;
    uploads, failed, trace := [], false, [];
    FromAll(resumed0);
    for index := 0 to n
      invariant index <= k
      invariant From(resumed, resumed0, index)
      invariant uploads == InOrder(done, index)
      invariant trace == UploadTrace(resumed0, q, index)
      invariant !failed
    {
      hide Finished, FirstFailure, From, InOrder, UploadTrace, ReceiptFor;
      NextInOrder(done, index);
      FirstFailureFails(resumed0, upload, 0, n, index);
      NextTrace(resumed0, q, index);
      FromNext(resumed, resumed0, index);
      if index in resumed {
        FinishedAt(p, resumed0, upload, k, index);
        uploads := uploads + [resumed[index]];
        resumed := resumed - {index};
      } else {
        trace := trace + [Upload(index, q)];
        var uri := upload(index);
        if uri.None? {
          UnusedResumed(p, resumed0, upload, k, resumed);
          InOrderSplit(done, resumed, index, n);
          return uploads + InOrder(resumed, n), true, trace;
        }
        assert resumed - {index} == resumed;
        FinishedAt(p, resumed0, upload, k, index);
        uploads := uploads + [ReceiptFor(p, index, uri.value)];
      }
    }
  }

  // ----- the whole submission ------------------------------------------------------

  function Uris(receipts: seq<Receipt>): (r: seq<string>)
    ensures |r| == |receipts|
    ensures forall i :: 0 <= i < |r| ==> r[i] == receipts[i].uri
  {
    if receipts == [] then [] else Uris(receipts[..|receipts| - 1]) + [receipts[|receipts| - 1].uri]
  }

  /** After the uploads: a live lock under the cap, the record, the publication. */
  function Conclude(w: World, max: Option<int>, uploads: seq<Receipt>, active: Quote, trace: seq<Action>): (Outcome, seq<Action>) {
    var lock := if w.lockFresh then Some(active) else w.secondQuote;
    var asked := if w.lockFresh then trace else trace + [AskQuote];
    if lock.None? || (!w.lockFresh && !WithinCap(max, lock.value)) then (Failed(uploads), asked)
    else
      var uris := Uris(uploads);
      var record := w.encode(uris);
      if record.None? then (Failed(uploads), asked)
      else
        var sent := asked + [Publish(lock.value, uris)];
        if w.publish.None? then (Failed(uploads), sent)
        else (Submitted(uploads, uris, lock.value, record.value, w.publish.value), sent)
  }

  function ActiveQuote(w: World, c: Call): (Option<Quote>, seq<Action>) {
    if c.quote.Some? && w.callerQuoteFresh then (c.quote, []) else (w.firstQuote, [AskQuote])
  }

  /** What a submission answers, and the requests it makes on the way. */
  function Submit(p: Prepared, w: World, c: Call): (Outcome, seq<Action>) {
    var resumed := Validate(p, c.uploaded);
    if !c.argsOk || resumed.None? then (Failed([]), [])
    else
      var n := |p.items|;
      var (active, asked) := ActiveQuote(w, c);
      if active.None? || !WithinCap(c.max, active.value) then (Failed(InOrder(resumed.value, n)), asked)
      else
        var k := FirstFailure(resumed.value, w.upload, 0, n);
        var uploads := InOrder(Finished(p, resumed.value, w.upload, k), n);
        if k < n then (Failed(uploads), asked + UploadTrace(resumed.value, active.value, k + 1))
        else Conclude(w, c.max, uploads, active.value, asked + UploadTrace(resumed.value, active.value, n))
  }

  method EnforceCap(max: Option<int>, q: Quote) returns (ok: bool)
    ensures ok == WithinCap(max, q)
  {
    if max.None? {
      return true;
    }
    var amount := DecimalValue(q.amount);
    return amount.Some? && amount.value <= max.value;
  }

  method SubmitSealed(p: Prepared, w: World, c: Call) returns (r: Outcome, trace: seq<Action>)
    ensures (r, trace) == Submit(p, w, c)
  {
    hide Validate, InOrder, Finished, FirstFailure, UploadTrace, Conclude, WithinCap, Uris;
    trace := [];
    if !c.argsOk {
      return Failed([]), trace;
    }
    var resumed := ValidateReceipts(p, c.uploaded);
    if resumed.None? {
      return Failed([]), trace;
    }
    var active := c.quote;
    if !(c.quote.Some? && w.callerQuoteFresh) {
      trace := [AskQuote];
      active := w.firstQuote;
      if active.None? {
        return Failed(InOrder(resumed.value, |p.items|)), trace;
      }
    }
    var affordable := EnforceCap(c.max, active.value);
    if !affordable {
      return Failed(InOrder(resumed.value, |p.items|)), trace;
    }
    var uploads, failed, uploading := UploadItems(p, resumed.value, w.upload, active.value);
    trace := trace + uploading;
    if failed {
      return Failed(uploads), trace;
    }
    r, trace := FinishSubmission(w, c.max, uploads, active.value, trace);
  }

  method FinishSubmission(w: World, max: Option<int>, uploads: seq<Receipt>, active: Quote, before: seq<Action>)
    returns (r: Outcome, trace: seq<Action>)
    ensures (r, trace) == Conclude(w, max, uploads, active, before)
  {
    hide WithinCap, Uris;
    trace := before;
    var lock := active;
    if !w.lockFresh {
      trace := trace + [AskQuote];
      if w.secondQuote.None? {
        return Failed(uploads), trace;
      }
      lock := w.secondQuote.value;
      var affordable := EnforceCap(max, lock);
      if !affordable {
        return Failed(uploads), trace;
      }
    }
    var uris := Uris(uploads);
    var record := w.encode(uris);
    if record.None? {
      return Failed(uploads), trace;
    }
    trace := trace + [Publish(lock, uris)];
    if w.publish.None? {
      return Failed(uploads), trace;
    }
    return Submitted(uploads, uris, lock, record.value, w.publish.value), trace;
  }
}
