/** Receipts of finished uploads: what a resumed submission accepts back, and in which order they are kept. */
module UploadReceipts {
  import opened Wrappers
  import opened ByteStrings

  datatype PreparedItem = PreparedItem(itemId: string, ciphertext: Bytes)

  datatype Receipt = Receipt(itemId: string, uri: string, sha256: Bytes, length: nat)

  /** The items to submit, with the digest and the URI grammar that receipts are checked against. */
  datatype Prepared = Prepared(items: seq<PreparedItem>, sha256: Bytes -> Bytes, isArweaveUri: string -> bool)

  function ReceiptFor(p: Prepared, i: nat, uri: string): Receipt
    requires i < |p.items|
  {
    Receipt(p.items[i].itemId, uri, p.sha256(p.items[i].ciphertext), |p.items[i].ciphertext|)
  }

  /** The earliest item with this id. */
  function IndexOf(items: seq<PreparedItem>, id: string): (i: nat)
    ensures i <= |items|
    ensures i < |items| ==> items[i].itemId == id
    ensures forall k :: 0 <= k < i ==> items[k].itemId != id
  {
    if items == [] || items[0].itemId == id then 0 else 1 + IndexOf(items[1..], id)
  }

  /** Digest, byte count and URI all match the earliest item of that id. */
  predicate Fits(p: Prepared, r: Receipt) {
    var i := IndexOf(p.items, r.itemId);
    i < |p.items| && r == ReceiptFor(p, i, r.uri) && p.isArweaveUri(r.uri)
  }

  /** Keys the receipts by item; an unknown, mismatched or repeated one refuses them all. */
  function Validate(p: Prepared, uploaded: seq<Receipt>): (m: Option<map<nat, Receipt>>)
    ensures m.Some? ==> forall i :: i in m.value ==> i < |p.items| && Fits(p, m.value[i]) && IndexOf(p.items, m.value[i].itemId) == i
  {
    if uploaded == [] then Some(map[])
    else
      var last := uploaded[|uploaded| - 1];
      var m := Validate(p, uploaded[..|uploaded| - 1]);
      var i := IndexOf(p.items, last.itemId);
      if m.None? || !Fits(p, last) || i in m.value then None else Some(m.value[i := last])
  }

  method ValidateReceipts(p: Prepared, uploaded: seq<Receipt>) returns (r: Option<map<nat, Receipt>>)
    ensures r == Validate(p, uploaded)
  {
    var byIndex: map<nat, Receipt> := map[];
    for k := 0 to |uploaded|
      invariant Validate(p, uploaded[..k]) == Some(byIndex)
    {
      var receipt := uploaded[k];
      assert uploaded[..k + 1][..k] == uploaded[..k];
      var i := IndexOf(p.items, receipt.itemId);
      if i == |p.items|
        || receipt.sha256 != p.sha256(p.items[i].ciphertext)
        || receipt.length != |p.items[i].ciphertext|
        || !p.isArweaveUri(receipt.uri)
        || i in byIndex
      {
        ValidateStops(p, uploaded, k + 1);
        return None;
      }
      byIndex := byIndex[i := receipt];
    }
    assert uploaded[..|uploaded|] == uploaded;
    return Some(byIndex);
  }

  lemma {:induction false} ValidateStops(p: Prepared, uploaded: seq<Receipt>, k: nat)
    requires k <= |uploaded| && Validate(p, uploaded[..k]) == None
    ensures Validate(p, uploaded) == None
    decreases |uploaded|
  {
    hide Fits, IndexOf;
    if k == |uploaded| {
      assert uploaded[..k] == uploaded;
    } else {
      var n := |uploaded| - 1;
      assert uploaded[..n][..k] == uploaded[..k];
      ValidateStops(p, uploaded[..n], k);
    }
  }

  // ----- keeping receipts ----------------------------------------------------------

  /** The receipts of the items below `n`, in item order. */
  function InOrder(m: map<nat, Receipt>, n: nat): seq<Receipt> {
    if n == 0 then []
    else if n - 1 in m then InOrder(m, n - 1) + [m[n - 1]]
    else InOrder(m, n - 1)
  }

  /** The receipts are those of these items, each with some URI. */
  predicate ReceiptsOf(p: Prepared, m: map<nat, Receipt>) {
    forall i :: i in m ==> i < |p.items| && m[i] == ReceiptFor(p, i, m[i].uri)
  }

  predicate Revalidable(p: Prepared, m: map<nat, Receipt>)
    requires ReceiptsOf(p, m)
  {
    forall i :: i in m ==> IndexOf(p.items, p.items[i].itemId) == i && p.isArweaveUri(m[i].uri)
  }

  function Below(m: map<nat, Receipt>, n: nat): map<nat, Receipt> {
    map i | i in m && i < n :: m[i]
  }

  lemma ValidateSnoc(p: Prepared, init: seq<Receipt>, r: Receipt, m: map<nat, Receipt>, i: nat)
    requires Validate(p, init) == Some(m) && Fits(p, r) && i == IndexOf(p.items, r.itemId) && i !in m
    ensures Validate(p, init + [r]) == Some(m[i := r])
  {
    assert (init + [r])[..|init|] == init;
  }

  lemma NothingBelow(m: map<nat, Receipt>)
    ensures Below(m, 0) == map[]
  {
  }

  lemma BelowStep(m: map<nat, Receipt>, k: nat)
    ensures Below(m, k + 1) == if k in m then Below(m, k)[k := m[k]] else Below(m, k)
    ensures k !in Below(m, k)
  {
  }

  lemma {:induction false} KeptRevalidate(p: Prepared, m: map<nat, Receipt>, n: nat)
    requires ReceiptsOf(p, m) && Revalidable(p, m)
    ensures Validate(p, InOrder(m, n)) == Some(Below(m, n))
    decreases n
  {
    hide Below;
    if n == 0 {
      NothingBelow(m);
    } else {
      var k := n - 1;
      KeptRevalidate(p, m, k);
      BelowStep(m, k);
      if k in m {
        ValidateSnoc(p, InOrder(m, k), m[k], Below(m, k), k);
      }
    }
  }

  lemma {:induction false} InOrderHas(m: map<nat, Receipt>, n: nat, i: nat)
    requires i < n && i in m
    ensures m[i] in InOrder(m, n)
    decreases n
  {
    if i < n - 1 {
      InOrderHas(m, n - 1, i);
    }
  }

  lemma {:induction false} ValidatedFit(p: Prepared, uploaded: seq<Receipt>, r: Receipt)
    requires Validate(p, uploaded).Some? && r in uploaded
    ensures Fits(p, r) && Validate(p, uploaded).value.Values >= {r} && IndexOf(p.items, r.itemId) in Validate(p, uploaded).value
    ensures Validate(p, uploaded).value[IndexOf(p.items, r.itemId)] == r
    decreases |uploaded|
  {
    var n := |uploaded| - 1;
    assert uploaded == uploaded[..n] + [uploaded[n]];
    if r != uploaded[n] {
      ValidatedFit(p, uploaded[..n], r);
    }
    var i := IndexOf(p.items, r.itemId);
    assert Validate(p, uploaded).value[i] == r;
  }

  /**
    The kept receipts are accepted back as they were exactly when every finished item is the earliest
    of its id and has a well-formed Arweave URI.
    */
  lemma KeptRevalidateIff(p: Prepared, m: map<nat, Receipt>)
    requires ReceiptsOf(p, m)
    ensures Validate(p, InOrder(m, |p.items|)) == Some(m) <==> Revalidable(p, m)
  {
    var n := |p.items|;
    if Revalidable(p, m) {
      KeptRevalidate(p, m, n);
      assert Below(m, n) == m;
    }
    if Validate(p, InOrder(m, n)) == Some(m) {
      forall i | i in m ensures IndexOf(p.items, p.items[i].itemId) == i && p.isArweaveUri(m[i].uri) {
        InOrderHas(m, n, i);
        ValidatedFit(p, InOrder(m, n), m[i]);
      }
    }
  }

  // ----- when receipts are refused -------------------------------------------------

  predicate AllFit(p: Prepared, uploaded: seq<Receipt>) {
    forall k :: 0 <= k < |uploaded| ==> Fits(p, uploaded[k])
  }

  /** Two of the receipts belong to one earliest item. */
  predicate Repeated(p: Prepared, uploaded: seq<Receipt>) {
    exists k, l :: 0 <= k < l < |uploaded| && SameItem(p, uploaded[k], uploaded[l])
  }

  predicate SameItem(p: Prepared, a: Receipt, b: Receipt) {
    IndexOf(p.items, a.itemId) == IndexOf(p.items, b.itemId)
  }

  /** The keys of accepted receipts are their items. */
  lemma {:induction false} ValidatedKeys(p: Prepared, uploaded: seq<Receipt>, i: nat)
    requires Validate(p, uploaded).Some?
    ensures i in Validate(p, uploaded).value <==> exists k :: 0 <= k < |uploaded| && IndexOf(p.items, uploaded[k].itemId) == i
    decreases |uploaded|
  {
    if uploaded != [] {
      hide Fits, IndexOf;
      var n := |uploaded| - 1;
      var init := uploaded[..n];
      ValidatedKeys(p, init, i);
      if IndexOf(p.items, uploaded[n].itemId) != i {
        hide Validate;
        if k :| 0 <= k < |uploaded| && IndexOf(p.items, uploaded[k].itemId) == i {
          assert init[k] == uploaded[k];
        }
        if k :| 0 <= k < n && IndexOf(p.items, init[k].itemId) == i {
          assert uploaded[k] == init[k];
        }
      }
    }
  }

  predicate AmongThem(p: Prepared, init: seq<Receipt>, last: Receipt) {
    exists k :: 0 <= k < |init| && SameItem(p, init[k], last)
  }

  lemma RefusedByLast(p: Prepared, uploaded: seq<Receipt>, init: seq<Receipt>, last: Receipt)
    requires uploaded == init + [last]
    ensures Validate(p, uploaded) == None <==> Validate(p, init) == None || !Fits(p, last) || AmongThem(p, init, last)
  {
    hide Fits, IndexOf;
    assert uploaded[..|init|] == init;
    if Validate(p, init).Some? {
      var i := IndexOf(p.items, last.itemId);
      ValidatedKeys(p, init, i);
      if AmongThem(p, init, last) {
        var k :| 0 <= k < |init| && SameItem(p, init[k], last);
        assert IndexOf(p.items, init[k].itemId) == i;
      }
      if k :| 0 <= k < |init| && IndexOf(p.items, init[k].itemId) == i {
        assert SameItem(p, init[k], last);
      }
    }
  }

  lemma AllFitSnoc(p: Prepared, uploaded: seq<Receipt>, init: seq<Receipt>, last: Receipt)
    requires uploaded == init + [last]
    ensures AllFit(p, uploaded) <==> AllFit(p, init) && Fits(p, last)
  {
    hide Fits;
    assert uploaded[|init|] == last && forall k :: 0 <= k < |init| ==> init[k] == uploaded[k];
  }

  lemma RepeatedSnoc(p: Prepared, uploaded: seq<Receipt>, init: seq<Receipt>, last: Receipt)
    requires uploaded == init + [last]
    ensures Repeated(p, uploaded) <==> Repeated(p, init) || AmongThem(p, init, last)
  {
    hide SameItem;
    assert uploaded[|init|] == last && forall k :: 0 <= k < |init| ==> init[k] == uploaded[k];
  }

  /** Receipts are refused exactly when one does not fit or two belong to one earliest item. */
  lemma {:induction false} RefusedIff(p: Prepared, uploaded: seq<Receipt>)
    ensures Validate(p, uploaded) == None <==> !AllFit(p, uploaded) || Repeated(p, uploaded)
    decreases |uploaded|
  {
    if uploaded != [] {
      hide AllFit, Repeated, Fits, IndexOf, Validate, AmongThem;
      var n := |uploaded| - 1;
      RefusedIff(p, uploaded[..n]);
      AllFitSnoc(p, uploaded, uploaded[..n], uploaded[n]);
      RepeatedSnoc(p, uploaded, uploaded[..n], uploaded[n]);
      RefusedByLast(p, uploaded, uploaded[..n], uploaded[n]);
    }
  }

  /** Where the receipt of item `i` stands among the kept ones. */
  lemma {:induction false} InOrderSlot(m: map<nat, Receipt>, n: nat, i: nat)
    requires i < n && i in m
    ensures |InOrder(m, i)| < |InOrder(m, n)| && InOrder(m, n)[|InOrder(m, i)|] == m[i]
    decreases n
  {
    if i < n - 1 {
      InOrderSlot(m, n - 1, i);
    }
  }

  /** Which item's receipt stands at place `k`. */
  lemma {:induction false} InOrderAt(m: map<nat, Receipt>, n: nat, k: nat) returns (i: nat)
    requires k < |InOrder(m, n)|
    ensures i < n && i in m && |InOrder(m, i)| == k && InOrder(m, n)[k] == m[i]
    decreases n
  {
    if k == |InOrder(m, n - 1)| {
      i := n - 1;
    } else {
      i := InOrderAt(m, n - 1, k);
    }
  }

  lemma {:induction false} InOrderGrows(m: map<nat, Receipt>, i: nat, j: nat)
    requires i <= j
    ensures |InOrder(m, i)| <= |InOrder(m, j)|
    decreases j
  {
    if i < j {
      InOrderGrows(m, i, j - 1);
    }
  }

  /** Two kept items are of one id. */
  predicate SharesId(p: Prepared, m: map<nat, Receipt>, i: nat, j: nat)
    requires ReceiptsOf(p, m)
  {
    i in m && j in m && i < j && IndexOf(p.items, p.items[i].itemId) == IndexOf(p.items, p.items[j].itemId)
  }

  /** Kept receipts are refused exactly when one no longer fits or two kept items share an earliest index. */
  lemma KeptRefusedIff(p: Prepared, m: map<nat, Receipt>)
    requires ReceiptsOf(p, m)
    ensures Validate(p, InOrder(m, |p.items|)) == None
            <==> (exists i :: i in m && !Fits(p, m[i])) || exists i, j :: SharesId(p, m, i, j)
  {
    hide Fits, IndexOf;
    var n := |p.items|;
    var kept := InOrder(m, n);
    RefusedIff(p, kept);
    if !AllFit(p, kept) {
      var k :| 0 <= k < |kept| && !Fits(p, kept[k]);
      var i := InOrderAt(m, n, k);
    }
    if Repeated(p, kept) {
      var k, l :| 0 <= k < l < |kept| && SameItem(p, kept[k], kept[l]);
      var i := InOrderAt(m, n, k);
      var j := InOrderAt(m, n, l);
      if j <= i {
        InOrderGrows(m, j, i);
      }
      assert SharesId(p, m, i, j);
    }
    if i :| i in m && !Fits(p, m[i]) {
      InOrderSlot(m, n, i);
    }
    if i, j :| SharesId(p, m, i, j) {
      SharedSlots(p, m, n, i, j);
    }
  }

  lemma SharedSlots(p: Prepared, m: map<nat, Receipt>, n: nat, i: nat, j: nat)
    requires ReceiptsOf(p, m) && n == |p.items| && SharesId(p, m, i, j)
    ensures Repeated(p, InOrder(m, n))
  {
    InOrderSlot(m, n, i);
    InOrderSlot(m, n, j);
    InOrderSlot(m, j, i);
    assert SameItem(p, InOrder(m, n)[|InOrder(m, i)|], InOrder(m, n)[|InOrder(m, j)|]);
  }

  /** With receipts of two items of one id, which in-order uploading leaves, all of them are refused. */
  lemma SharedIdRefused(p: Prepared, m: map<nat, Receipt>, i: nat, j: nat)
    requires ReceiptsOf(p, m) && i in m && j in m && i < j && p.items[i].itemId == p.items[j].itemId
    ensures Validate(p, InOrder(m, |p.items|)) == None
  {
    assert SharesId(p, m, i, j);
    KeptRefusedIff(p, m);
  }

  /** The receipt of the later item alone is accepted, but under the earlier one. */
  lemma LaterReceiptMoves(p: Prepared, i: nat, j: nat, uri: string)
    requires i < j < |p.items| && p.items[i] == p.items[j] && IndexOf(p.items, p.items[j].itemId) == i && p.isArweaveUri(uri)
    ensures Validate(p, [ReceiptFor(p, j, uri)]) == Some(map[i := ReceiptFor(p, j, uri)])
  {
    assert [ReceiptFor(p, j, uri)][..0] == [];
  }
}
