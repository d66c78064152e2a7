/** What holds of every submission and of every chain of retries, whatever the gateway answers. */
module SubmitSafety {
  import opened Wrappers
  import opened Decimal
  import opened UploadReceipts
  import opened SubmitSealed

  // ----- the price cap -------------------------------------------------------------

  predicate Spends(a: Action) {
    a.Upload? || a.Publish?
  }

  predicate AllWithin(max: Option<int>, trace: seq<Action>) {
    forall i :: 0 <= i < |trace| && Spends(trace[i]) ==> WithinCap(max, trace[i].quote)
  }

  lemma {:induction false} UploadTraceWithin(max: Option<int>, resumed: map<nat, Receipt>, q: Quote, k: nat)
    requires WithinCap(max, q)
    ensures AllWithin(max, UploadTrace(resumed, q, k))
  {
    if k > 0 {
      UploadTraceWithin(max, resumed, q, k - 1);
    }
  }

  lemma ConcludeWithin(w: World, max: Option<int>, uploads: seq<Receipt>, active: Quote, trace: seq<Action>)
    requires WithinCap(max, active) && AllWithin(max, trace)
    ensures AllWithin(max, Conclude(w, max, uploads, active, trace).1)
  {
  }

  /** The amount spells a number, digit by digit, that is at most the cap. */
  ghost predicate Affordable(max: int, q: Quote) {
    exists n: nat :: SpellsNumber(q.amount, n) && n <= max
  }

  /** A quote is let through exactly without a cap, or when its amount spells a number not above it. */
  lemma WithinCapIff(max: Option<int>, q: Quote)
    ensures WithinCap(max, q) <==> max == None || Affordable(max.value, q)
  {
    hide DecimalValue, SpellsNumber;
    if max.Some? {
      if WithinCap(max, q) {
        ReadsExactlySpelled(q.amount, DecimalValue(q.amount).value);
      }
      if n: nat :| SpellsNumber(q.amount, n) && n <= max.value {
        ReadsExactlySpelled(q.amount, n);
      }
    }
  }

  /** Nothing is uploaded or published under a quote unless its amount spells a number not above the cap. */
  lemma CapRespected(p: Prepared, w: World, c: Call)
    ensures c.max.Some? ==>
              forall i :: 0 <= i < |Submit(p, w, c).1| && Spends(Submit(p, w, c).1[i]) ==>
                Affordable(c.max.value, Submit(p, w, c).1[i].quote)
  {
    hide WithinCap, Submit, Affordable;
    var trace := Submit(p, w, c).1;
    SpendsWithin(p, w, c);
    forall i | c.max.Some? && 0 <= i < |trace| && Spends(trace[i]) ensures Affordable(c.max.value, trace[i].quote) {
      WithinCapIff(c.max, trace[i].quote);
    }
  }

  lemma SpendsWithin(p: Prepared, w: World, c: Call)
    ensures AllWithin(c.max, Submit(p, w, c).1)
  {
    hide WithinCap, Finished, FirstFailure, InOrder;
    var resumed := Validate(p, c.uploaded);
    if c.argsOk && resumed.Some? {
      var (active, asked) := ActiveQuote(w, c);
      if active.Some? && WithinCap(c.max, active.value) {
        var n := |p.items|;
        var k := FirstFailure(resumed.value, w.upload, 0, n);
        UploadTraceWithin(c.max, resumed.value, active.value, if k < n then k + 1 else n);
        if k == n {
          var trace := asked + UploadTrace(resumed.value, active.value, n);
          ConcludeWithin(w, c.max, InOrder(Finished(p, resumed.value, w.upload, k), n), active.value, trace);
        }
      }
    }
  }

  // ----- receipts are never lost ---------------------------------------------------

  /** Whether the submission got as far as the uploads. */
  predicate ReachesUploads(p: Prepared, w: World, c: Call) {
    && c.argsOk
    && Validate(p, c.uploaded).Some?
    && ActiveQuote(w, c).0.Some?
    && WithinCap(c.max, ActiveQuote(w, c).0.value)
  }

  /** The receipts in hand when it ends, keyed by item. */
  function InHand(p: Prepared, w: World, c: Call): map<nat, Receipt>
    requires Validate(p, c.uploaded).Some?
  {
    var resumed := Validate(p, c.uploaded).value;
    if ReachesUploads(p, w, c) then Finished(p, resumed, w.upload, FirstFailure(resumed, w.upload, 0, |p.items|))
    else resumed
  }

  /** Once the arguments and receipts are valid, success and every error carry all receipts, in item order. */
  lemma ReceiptsCarried(p: Prepared, w: World, c: Call)
    requires c.argsOk && Validate(p, c.uploaded).Some?
    ensures Submit(p, w, c).0.uploads == InOrder(InHand(p, w, c), |p.items|)
  {
    hide Finished, FirstFailure, WithinCap, InOrder;
  }

  /** The receipts in hand are the resumed ones and those of the uploads that succeeded. */
  lemma InHandIs(p: Prepared, w: World, c: Call, i: nat)
    requires Validate(p, c.uploaded).Some? && i < |p.items|
    ensures i in InHand(p, w, c) <==>
            || i in Validate(p, c.uploaded).value
            || (ReachesUploads(p, w, c) && i < FirstFailure(Validate(p, c.uploaded).value, w.upload, 0, |p.items|))
  {
    var resumed, n := Validate(p, c.uploaded).value, |p.items|;
    var k := FirstFailure(resumed, w.upload, 0, n);
    if i < k {
      FirstFailureFails(resumed, w.upload, 0, n, i);
    }
  }

  // ----- one upload per item -------------------------------------------------------

  /** Uploads of items below `k` without a receipt. */
  predicate UploadsMissing(t: seq<Action>, resumed: map<nat, Receipt>, k: nat) {
    forall i :: 0 <= i < |t| ==> t[i].Upload? && t[i].index < k && t[i].index !in resumed
  }

  predicate Ascending(t: seq<Action>) {
    forall i, j :: 0 <= i < j < |t| && t[i].Upload? && t[j].Upload? ==> t[i].index < t[j].index
  }

  lemma UploadsSnoc(t: seq<Action>, resumed: map<nat, Receipt>, q: Quote, k: nat)
    requires UploadsMissing(t, resumed, k) && Ascending(t) && k !in resumed
    ensures UploadsMissing(t + [Upload(k, q)], resumed, k + 1) && Ascending(t + [Upload(k, q)])
  {
  }

  /** Within one call, each item without a receipt is uploaded at most once, in item order. */
  lemma {:induction false} UploadTraceOnly(resumed: map<nat, Receipt>, q: Quote, k: nat)
    ensures UploadsMissing(UploadTrace(resumed, q, k), resumed, k) && Ascending(UploadTrace(resumed, q, k))
  {
    if k > 0 {
      UploadTraceOnly(resumed, q, k - 1);
      if k - 1 !in resumed {
        UploadsSnoc(UploadTrace(resumed, q, k - 1), resumed, q, k - 1);
      }
    }
  }

  /** Concluding makes no upload. */
  lemma ConcludeUploadsNothing(w: World, max: Option<int>, uploads: seq<Receipt>, active: Quote, trace: seq<Action>)
    ensures var after := Conclude(w, max, uploads, active, trace).1;
            |trace| <= |after| && forall x :: 0 <= x < |after| ==> if x < |trace| then after[x] == trace[x] else !after[x].Upload?
  {
  }

  predicate Attempts(trace: seq<Action>, i: nat) {
    exists k :: 0 <= k < |trace| && trace[k].Upload? && trace[k].index == i
  }

  /** An attempt in the whole trace is one of the upload loop. */
  lemma AttemptIsInLoop(p: Prepared, w: World, c: Call, i: nat)
    requires Attempts(Submit(p, w, c).1, i)
    ensures ReachesUploads(p, w, c)
    ensures var resumed, n := Validate(p, c.uploaded).value, |p.items|;
            var k := FirstFailure(resumed, w.upload, 0, n);
            Attempts(UploadTrace(resumed, ActiveQuote(w, c).0.value, if k < n then k + 1 else n), i)
  {
    hide WithinCap, Finished, FirstFailure, InOrder, Conclude;
    var trace := Submit(p, w, c).1;
    var x :| 0 <= x < |trace| && trace[x].Upload? && trace[x].index == i;
    assert ReachesUploads(p, w, c);
    var resumed, n, active := Validate(p, c.uploaded).value, |p.items|, ActiveQuote(w, c).0.value;
    var k := FirstFailure(resumed, w.upload, 0, n);
    var t := UploadTrace(resumed, active, if k < n then k + 1 else n);
    var asked := ActiveQuote(w, c).1;
    if k == n {
      ConcludeUploadsNothing(w, c.max, InOrder(Finished(p, resumed, w.upload, k), n), active, asked + t);
    }
    assert (asked + t)[x] == trace[x];
    assert t[x - |asked|] == trace[x];
  }

  /** An item is attempted only without a receipt, and then holds one exactly when its upload succeeded. */
  lemma AttemptsOnlyMissing(p: Prepared, w: World, c: Call, i: nat)
    requires Attempts(Submit(p, w, c).1, i)
    ensures ReachesUploads(p, w, c) && i < |p.items| && i !in Validate(p, c.uploaded).value
    ensures i in InHand(p, w, c) <==> w.upload(i).Some?
  {
    hide Submit, WithinCap, InHand, UploadTrace;
    AttemptIsInLoop(p, w, c, i);
    var resumed, n, active := Validate(p, c.uploaded).value, |p.items|, ActiveQuote(w, c).0.value;
    var k := FirstFailure(resumed, w.upload, 0, n);
    UploadTraceOnly(resumed, active, if k < n then k + 1 else n);
    assert i < n && i <= k && i !in resumed;
    InHandIs(p, w, c, i);
    FirstFailureFails(resumed, w.upload, 0, n, i);
  }

  // ----- chains of retries ---------------------------------------------------------

  /** One call of a chain; its receipts are those the previous call gave back. */
  datatype Round = Round(world: World, max: Option<int>, quote: Option<Quote>)

  function CallOf(r: Round, uploaded: seq<Receipt>): Call {
    Call(true, r.max, r.quote, uploaded)
  }

  /** The receipts that a chain has given back so far. */
  function Kept(p: Prepared, rounds: seq<Round>): seq<Receipt> {
    if rounds == [] then []
    else
      var last := rounds[|rounds| - 1];
      Submit(p, last.world, CallOf(last, Kept(p, rounds[..|rounds| - 1]))).0.uploads
  }

  /** No two items share an id. */
  predicate DistinctIds(p: Prepared) {
    forall i, j :: 0 <= i < j < |p.items| ==> p.items[i].itemId != p.items[j].itemId
  }

  ghost predicate GoodUris(p: Prepared, w: World) {
    forall i: nat :: w.upload(i).Some? ==> p.isArweaveUri(w.upload(i).value)
  }

  lemma EarliestOfItsId(p: Prepared, i: nat)
    requires DistinctIds(p) && i < |p.items|
    ensures IndexOf(p.items, p.items[i].itemId) == i
  {
  }

  /** Receipts given back by one call are accepted by the next, as they are. */
  lemma CarriedAreAccepted(p: Prepared, r: Round, uploaded: seq<Receipt>)
    requires DistinctIds(p) && GoodUris(p, r.world) && Validate(p, uploaded).Some?
    ensures Validate(p, Submit(p, r.world, CallOf(r, uploaded)).0.uploads) == Some(InHand(p, r.world, CallOf(r, uploaded)))
  {
    var c := CallOf(r, uploaded);
    var m := InHand(p, r.world, c);
    ReceiptsCarried(p, r.world, c);
    InHandRevalidable(p, r.world, c);
    KeptRevalidateIff(p, m);
  }

  lemma InHandRevalidable(p: Prepared, w: World, c: Call)
    requires DistinctIds(p) && GoodUris(p, w) && Validate(p, c.uploaded).Some?
    ensures ReceiptsOf(p, InHand(p, w, c)) && Revalidable(p, InHand(p, w, c))
  {
    hide FirstFailure, ReachesUploads;
    var m := InHand(p, w, c);
    forall i | i in m
      ensures i < |p.items| && m[i] == ReceiptFor(p, i, m[i].uri) && IndexOf(p.items, p.items[i].itemId) == i && p.isArweaveUri(m[i].uri)
    {
      EarliestOfItsId(p, i);
    }
  }

  lemma {:induction false} KeptIsAccepted(p: Prepared, rounds: seq<Round>)
    requires DistinctIds(p) && forall k :: 0 <= k < |rounds| ==> GoodUris(p, rounds[k].world)
    ensures Validate(p, Kept(p, rounds)).Some?
    decreases |rounds|
  {
    if rounds != [] {
      var n := |rounds| - 1;
      KeptIsAccepted(p, rounds[..n]);
      CarriedAreAccepted(p, rounds[n], Kept(p, rounds[..n]));
    }
  }

  predicate Holds(p: Prepared, rounds: seq<Round>, i: nat) {
    Validate(p, Kept(p, rounds)).Some? && i in Validate(p, Kept(p, rounds)).value
  }

  lemma KeptOneMore(p: Prepared, rounds: seq<Round>, r: Round)
    ensures Kept(p, rounds + [r]) == Submit(p, r.world, CallOf(r, Kept(p, rounds))).0.uploads
  {
    assert (rounds + [r])[..|rounds|] == rounds;
  }

  lemma HoldsOneMore(p: Prepared, rounds: seq<Round>, r: Round, i: nat)
    requires DistinctIds(p) && GoodUris(p, r.world) && Holds(p, rounds, i)
    ensures Holds(p, rounds + [r], i)
  {
    hide Submit, InHand;
    KeptOneMore(p, rounds, r);
    CarriedAreAccepted(p, r, Kept(p, rounds));
    InHandIs(p, r.world, CallOf(r, Kept(p, rounds)), i);
  }

  /** The receipts held after some rounds are still held after more. */
  lemma {:induction false} KeptGrows(p: Prepared, rounds: seq<Round>, k: nat, i: nat)
    requires DistinctIds(p) && forall l :: 0 <= l < |rounds| ==> GoodUris(p, rounds[l].world)
    requires k <= |rounds| && Holds(p, rounds[..k], i)
    ensures Holds(p, rounds, i)
    decreases |rounds|
  {
    hide Holds, GoodUris;
    if k == |rounds| {
      assert rounds[..k] == rounds;
    } else {
      var n := |rounds| - 1;
      var init := rounds[..n];
      assert init[..k] == rounds[..k];
      KeptGrows(p, init, k, i);
      HoldsOneMore(p, init, rounds[n], i);
      assert rounds == init + [rounds[n]];
    }
  }

  /** The requests of round `k` of a chain. */
  function TraceOf(p: Prepared, rounds: seq<Round>, k: nat): seq<Action>
    requires k < |rounds|
  {
    Submit(p, rounds[k].world, CallOf(rounds[k], Kept(p, rounds[..k]))).1
  }

  /** Along a chain of retries, an item whose upload succeeded is never uploaded again. */
  lemma UploadedOnce(p: Prepared, rounds: seq<Round>, k: nat, l: nat, i: nat)
    requires DistinctIds(p) && forall m :: 0 <= m < |rounds| ==> GoodUris(p, rounds[m].world)
    requires k < l < |rounds| && Attempts(TraceOf(p, rounds, k), i) && rounds[k].world.upload(i).Some?
    ensures !Attempts(TraceOf(p, rounds, l), i)
  {
    hide Submit, InHand, GoodUris;
    KeptIsAccepted(p, rounds[..k]);
    AttemptsOnlyMissing(p, rounds[k].world, CallOf(rounds[k], Kept(p, rounds[..k])), i);
    CarriedAreAccepted(p, rounds[k], Kept(p, rounds[..k]));
    assert rounds[..k + 1][..k] == rounds[..k];
    assert Holds(p, rounds[..k + 1], i);
    assert rounds[..l][..k + 1] == rounds[..k + 1];
    KeptGrows(p, rounds[..l], k + 1, i);
    if Attempts(TraceOf(p, rounds, l), i) {
      AttemptsOnlyMissing(p, rounds[l].world, CallOf(rounds[l], Kept(p, rounds[..l])), i);
      assert false;
    }
  }

  // ----- the record's URIs ---------------------------------------------------------

  /** A published record lists one URI per item, in item order: the receipt's or the fresh upload's. */
  lemma UrisInItemOrder(p: Prepared, w: World, c: Call)
    requires Submit(p, w, c).0.Submitted?
    ensures |Submit(p, w, c).0.uris| == |p.items|
    ensures forall i :: 0 <= i < |p.items| ==>
      && Validate(p, c.uploaded).Some?
      && (i in Validate(p, c.uploaded).value || w.upload(i).Some?)
      && Submit(p, w, c).0.uris[i]
         == if i in Validate(p, c.uploaded).value then Validate(p, c.uploaded).value[i].uri else w.upload(i).value
  {
    hide WithinCap, FirstFailure, Finished, InOrder;
    var resumed, n := Validate(p, c.uploaded).value, |p.items|;
    var done := Finished(p, resumed, w.upload, n);
    forall i: nat | i < n
      ensures (i in resumed || w.upload(i).Some?) && i in done
      ensures done[i].uri == if i in resumed then resumed[i].uri else w.upload(i).value
    {
      FirstFailureFails(resumed, w.upload, 0, n, i);
      FinishedAt(p, resumed, w.upload, n, i);
    }
    InOrderComplete(done, n);
  }

  lemma {:induction false} InOrderComplete(m: map<nat, Receipt>, n: nat)
    requires forall i: nat :: i < n ==> i in m
    ensures |InOrder(m, n)| == n && forall i :: 0 <= i < n ==> InOrder(m, n)[i] == m[i]
  {
    if n > 0 {
      InOrderComplete(m, n - 1);
    }
  }

  // ----- when it succeeds ----------------------------------------------------------

  /** One URI an item: the receipt's, or that of the fresh upload. */
  predicate UrisAre(p: Prepared, resumed: map<nat, Receipt>, w: World, uris: seq<string>) {
    && |uris| == |p.items|
    && forall i :: 0 <= i < |uris| ==>
         if i in resumed then uris[i] == resumed[i].uri else w.upload(i) == Some(uris[i])
  }

  lemma FinishedUris(p: Prepared, resumed: map<nat, Receipt>, w: World)
    requires forall i: nat :: i < |p.items| ==> i in resumed || w.upload(i).Some?
    ensures FirstFailure(resumed, w.upload, 0, |p.items|) == |p.items|
    ensures var uris := Uris(InOrder(Finished(p, resumed, w.upload, |p.items|), |p.items|));
            UrisAre(p, resumed, w, uris) && forall other :: UrisAre(p, resumed, w, other) ==> other == uris
  {
    hide Uris, InOrder, FirstFailure, Finished;
    var n := |p.items|;
    var done := Finished(p, resumed, w.upload, n);
    var k := FirstFailure(resumed, w.upload, 0, n);
    if k < n {
      FirstFailureFails(resumed, w.upload, 0, n, k);
    }
    forall i: nat | i < n ensures i in done && done[i].uri == if i in resumed then resumed[i].uri else w.upload(i).value {
      FinishedAt(p, resumed, w.upload, n, i);
    }
    InOrderComplete(done, n);
    var uris := Uris(InOrder(done, n));
    forall other | UrisAre(p, resumed, w, other) ensures other == uris {
      assert forall i :: 0 <= i < n ==> other[i] == uris[i];
    }
  }

  /** The quote that the uploads go under: the caller's while it is fresh. */
  function FirstLock(w: World, c: Call): Option<Quote> {
    if c.quote.Some? && w.callerQuoteFresh then c.quote else w.firstQuote
  }

  /** The quote that is published under. */
  function LastLock(w: World, c: Call): Option<Quote> {
    if w.lockFresh then FirstLock(w, c) else w.secondQuote
  }

  ghost predicate Lets(c: Call, lock: Option<Quote>) {
    lock.Some? && (c.max.Some? ==> Affordable(c.max.value, lock.value))
  }

  ghost predicate Publishable(p: Prepared, w: World, resumed: map<nat, Receipt>) {
    w.publish.Some? && exists uris :: UrisAre(p, resumed, w, uris) && w.encode(uris).Some?
  }

  predicate UploadsSucceed(p: Prepared, w: World, resumed: map<nat, Receipt>) {
    forall i: nat :: i < |p.items| ==> i in resumed || w.upload(i).Some?
  }

  lemma ConcludesIff(p: Prepared, w: World, c: Call, resumed: map<nat, Receipt>, active: Quote, trace: seq<Action>)
    requires UploadsSucceed(p, w, resumed) && Lets(c, Some(active))
    ensures var uploads := InOrder(Finished(p, resumed, w.upload, |p.items|), |p.items|);
            Conclude(w, c.max, uploads, active, trace).0.Submitted?
            <==> Lets(c, if w.lockFresh then Some(active) else w.secondQuote) && Publishable(p, w, resumed)
  {
    hide WithinCap, Affordable, Uris, InOrder, Finished, FirstFailure, UrisAre;
    FinishedUris(p, resumed, w);
    if !w.lockFresh && w.secondQuote.Some? {
      WithinCapIff(c.max, w.secondQuote.value);
    }
  }

  /** A submission succeeds exactly when the arguments, the receipts, both price locks, every upload and the publication do. */
  lemma SubmitsIff(p: Prepared, w: World, c: Call)
    ensures Submit(p, w, c).0.Submitted?
            <==> && c.argsOk
                 && Validate(p, c.uploaded).Some?
                 && Lets(c, FirstLock(w, c))
                 && UploadsSucceed(p, w, Validate(p, c.uploaded).value)
                 && Lets(c, LastLock(w, c))
                 && Publishable(p, w, Validate(p, c.uploaded).value)
  {
    hide WithinCap, Affordable, Validate, InOrder, Finished, FirstFailure, UploadTrace, Conclude, Publishable;
    var first, resumed := FirstLock(w, c), Validate(p, c.uploaded);
    if first.Some? && resumed.Some? {
      WithinCapIff(c.max, first.value);
      var n := |p.items|;
      var k := FirstFailure(resumed.value, w.upload, 0, n);
      if UploadsSucceed(p, w, resumed.value) {
        FinishedUris(p, resumed.value, w);
        if Lets(c, first) {
          ConcludesIff(p, w, c, resumed.value, first.value, ActiveQuote(w, c).1 + UploadTrace(resumed.value, first.value, n));
        }
      } else {
        var i: nat :| i < n && i !in resumed.value && w.upload(i).None?;
        if k == n {
          FirstFailureFails(resumed.value, w.upload, 0, n, i);
        }
      }
    }
  }

  /** What was published, last of all requests and once: those URIs, under that lock, encoded as the record returned. */
  lemma PublishedIs(p: Prepared, w: World, c: Call)
    requires Submit(p, w, c).0.Submitted?
    ensures Validate(p, c.uploaded).Some?
    ensures var r, trace := Submit(p, w, c).0, Submit(p, w, c).1;
            && UrisAre(p, Validate(p, c.uploaded).value, w, r.uris)
            && Some(r.quote) == LastLock(w, c)
            && w.encode(r.uris) == Some(r.record)
            && w.publish == Some(r.response)
            && trace != []
            && trace[|trace| - 1] == Publish(r.quote, r.uris)
            && forall i :: 0 <= i < |trace| - 1 ==> !trace[i].Publish?
  {
    hide WithinCap, InOrder, Finished, FirstFailure, Uris, Validate;
    SubmitsIff(p, w, c);
    var resumed, n := Validate(p, c.uploaded).value, |p.items|;
    FinishedUris(p, resumed, w);
    UploadTraceOnly(resumed, ActiveQuote(w, c).0.value, n);
  }
}
