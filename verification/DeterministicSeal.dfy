/**
  The reproducible wrap: unbiased index draws, the Fisher-Yates order they key, and why permuting
  recipients before the wrap gives the slots of the wrap that shuffles afterwards.
  */
module DeterministicSeal {
  import opened Wrappers
  import opened ByteStrings
  import opened SealedEnvelope
  import opened SealedSlots
  import opened SealedPoe
  import opened Shuffle

  const DRAW_RANGE: nat := 0x1_0000_0000

  // ----- unbiased draws ------------------------------------------------------------

  /** The largest multiple of `modulus` among the 32-bit draws. */
  function Ceiling(modulus: nat): (c: nat)
    requires 0 < modulus <= DRAW_RANGE
    ensures c <= DRAW_RANGE
  {
    DRAW_RANGE - DRAW_RANGE % modulus
  }

  /** A drawn index and the number of draws used up; None when the draws run out. */
  datatype Drawn = Drawn(index: nat, next: nat)

  /** Redraws while the draw is at or above the ceiling. */
  method UniformIndexBelow(draws: seq<nat>, start: nat, modulus: nat) returns (r: Option<Drawn>)
    requires start <= |draws| && 0 < modulus <= DRAW_RANGE
    ensures r.Some? ==>
      && start < r.value.next <= |draws|
      && draws[r.value.next - 1] < Ceiling(modulus)
      && r.value.index == draws[r.value.next - 1] % modulus < modulus
      && forall k :: start <= k < r.value.next - 1 ==> draws[k] >= Ceiling(modulus)
    ensures r.None? <==> forall k :: start <= k < |draws| ==> draws[k] >= Ceiling(modulus)
  {
    for i := start to |draws|
      invariant forall k :: start <= k < i ==> draws[k] >= Ceiling(modulus)
    {
      if draws[i] < Ceiling(modulus) {
        return Some(Drawn(draws[i] % modulus, i + 1));
      }
    }
    return None;
  }

  /** How many of the draws below `n` give the index `r`. */
  function CountOf(n: nat, modulus: nat, r: nat): nat
    requires modulus > 0
  {
    if n == 0 then 0 else CountOf(n - 1, modulus, r) + if (n - 1) % modulus == r then 1 else 0
  }

  lemma RemainderInBlock(q: nat, m: nat, j: nat)
    requires j < m
    ensures (q * m + j) % m == j
  {
    var n := q * m + j;
    assert n == (n / m) * m + n % m;
    RemainderUnique(m, q, j, n / m, n % m);
  }

  lemma {:induction false} CountInBlock(q: nat, m: nat, r: nat, j: nat)
    requires r < m && j <= m && CountOf(q * m, m, r) == q
    ensures CountOf(q * m + j, m, r) == q + if j > r then 1 else 0
    decreases j
  {
    if j > 0 {
      CountInBlock(q, m, r, j - 1);
      RemainderInBlock(q, m, j - 1);
      var n := q * m + j;
      assert CountOf(n, m, r) == CountOf(n - 1, m, r) + if (n - 1) % m == r then 1 else 0;
    }
  }

  lemma {:induction false} CountMultiple(q: nat, m: nat, r: nat)
    requires r < m
    ensures CountOf(q * m, m, r) == q
    decreases q
  {
    if q > 0 {
      CountMultiple(q - 1, m, r);
      CountInBlock(q - 1, m, r, m);
      Distribute(q - 1, 1, m);
    }
  }

  /** Every index is given by equally many of the accepted draws. */
  lemma DrawsUnbiased(modulus: nat, r: nat)
    requires 0 < modulus <= DRAW_RANGE && r < modulus
    ensures CountOf(Ceiling(modulus), modulus, r) == DRAW_RANGE / modulus
  {
    var q := DRAW_RANGE / modulus;
    assert DRAW_RANGE == q * modulus + DRAW_RANGE % modulus;
    CountMultiple(q, modulus, r);
  }

  // ----- the order -----------------------------------------------------------------

  /** Each of 0 .. n - 1 exactly once. */
  predicate IsOrder(order: seq<nat>, n: nat) {
    && |order| == n
    && (forall i :: 0 <= i < n ==> order[i] < n)
    && forall i, j :: 0 <= i < j < n ==> order[i] != order[j]
  }

  lemma SwapKeepsOrder(order: seq<nat>, n: nat, i: nat, j: nat)
    requires IsOrder(order, n) && i < n && j < n
    ensures IsOrder(SwapAt(order, i, j), n)
  {
  }

  /** The first draw from `start` on that is not redrawn. */
  function FirstUsable(draws: seq<nat>, start: nat, modulus: nat): (k: nat)
    requires start <= |draws| && 0 < modulus <= DRAW_RANGE
    ensures start <= k <= |draws| && (k < |draws| ==> draws[k] < Ceiling(modulus))
    ensures forall j :: start <= j < k ==> draws[j] >= Ceiling(modulus)
    decreases |draws| - start
  {
    if start == |draws| || draws[start] < Ceiling(modulus) then start else FirstUsable(draws, start + 1, modulus)
  }

  /** The picks that the draws from `start` on give for `n` positions, the last position first. */
  function PicksFrom(draws: seq<nat>, start: nat, n: nat): (r: Option<seq<nat>>)
    requires start <= |draws| && n <= DRAW_RANGE
    ensures r.Some? ==> ArePicks(r.value, n)
    decreases n
  {
    if n == 0 then Some([])
    else if n == 1 then Some([0])
    else
      var k := FirstUsable(draws, start, n);
      if k == |draws| then None else
        match PicksFrom(draws, k + 1, n - 1)
        case None => None
        case Some(rest) => Some(rest + [draws[k] % n])
  }

  /** The loop has settled the positions from `n` on and goes on with the draws from `next` on. */
  ghost predicate Midway(draws: seq<nat>, count: nat, order: seq<nat>, next: nat, n: nat) {
    && count <= DRAW_RANGE
    && next <= |draws|
    && n <= count
    && match PicksFrom(draws, 0, count)
       case None => PicksFrom(draws, next, n) == None
       case Some(picks) => PicksFrom(draws, next, n) == Some(picks[..n]) && TurnsLeft(Indices(count), picks, order, n)
  }

  lemma MidwayStart(draws: seq<nat>, count: nat)
    requires count <= DRAW_RANGE
    ensures Midway(draws, count, Indices(count), 0, count)
  {
    if PicksFrom(draws, 0, count).Some? {
      var picks := PicksFrom(draws, 0, count).value;
      AllTurnsLeft(Indices(count), picks);
      assert picks[..count] == picks;
    }
  }

  lemma MidwayTurn(draws: seq<nat>, count: nat, order: seq<nat>, next: nat, i: nat, j: nat, after: nat)
    requires 0 < i && |order| == count && Midway(draws, count, order, next, i + 1)
    requires FirstUsable(draws, next, i + 1) == after - 1 && 0 < after <= |draws| && j == draws[after - 1] % (i + 1)
    ensures Midway(draws, count, SwapAt(order, i, j), after, i)
  {
    hide Shuffled;
    if PicksFrom(draws, 0, count).Some? {
      var picks := PicksFrom(draws, 0, count).value;
      var rest := PicksFrom(draws, after, i).value;
      assert picks[..i + 1] == rest + [j];
      assert picks[i] == picks[..i + 1][i] == j;
      assert picks[..i] == picks[..i + 1][..i] == rest;
      Turn(Indices(count), picks, order, i);
    }
  }

  lemma MidwayStuck(draws: seq<nat>, count: nat, order: seq<nat>, next: nat, i: nat)
    requires 0 < i && Midway(draws, count, order, next, i + 1) && FirstUsable(draws, next, i + 1) == |draws|
    ensures PicksFrom(draws, 0, count) == None
  {
  }

  lemma MidwayEnd(draws: seq<nat>, count: nat, order: seq<nat>, next: nat, n: nat)
    requires n <= 1 && Midway(draws, count, order, next, n)
    ensures PicksFrom(draws, 0, count).Some?
    ensures order == Shuffled(Indices(count), PicksFrom(draws, 0, count).value)
  {
    NoTurnsLeft(Indices(count), PicksFrom(draws, 0, count).value, order, n);
  }

  /** Swaps in place, from the last position down; None when the draws run out. */
  method ShuffledOrder(count: nat, draws: seq<nat>) returns (r: Option<seq<nat>>)
    requires count <= DRAW_RANGE
    ensures r.Some? ==> IsOrder(r.value, count)
    ensures match PicksFrom(draws, 0, count)
            case None => r == None
            case Some(picks) => r == Some(Shuffled(Indices(count), picks))
  {
    hide Shuffled, TurnsLeft, PicksFrom;
    var order := new nat[count](i => i);
    var next: nat := 0;
    var i := count - 1;
    assert order[..] == Indices(count);
    MidwayStart(draws, count);
    while i > 0
      invariant -1 <= i < count
      invariant IsOrder(order[..], count) && Midway(draws, count, order[..], next, i + 1)
    {
      var drawn := UniformIndexBelow(draws, next, i + 1);
      ghost var k := FirstUsable(draws, next, i + 1);
      if drawn.None? {
        MidwayStuck(draws, count, order[..], next, i);
        return None;
      }
      var j := drawn.value.index;
      assert k == drawn.value.next - 1;
      MidwayTurn(draws, count, order[..], next, i, j, drawn.value.next);
      next := drawn.value.next;
      SwapKeepsOrder(order[..], count, i, j);
      ghost var before := order[..];
      order[i], order[j] := order[j], order[i];
      assert order[..] == SwapAt(before, i, j);
      i := i - 1;
    }
    MidwayEnd(draws, count, order[..], next, i + 1);
    return Some(order[..]);
  }

  // ----- permuting before or after the wrap ----------------------------------------

  predicate EachWraps(p: Suite, kem: Kem, nonce: Bytes, pubs: seq<Bytes>, secrets: seq<Bytes>, cek: Bytes)
    requires |pubs| == |secrets|
  {
    forall i :: 0 <= i < |pubs| ==> WrapSlot(p, kem, nonce, pubs[i], secrets[i], cek).Ok?
  }

  lemma {:induction false} WrapAllOk(p: Suite, kem: Kem, nonce: Bytes, pubs: seq<Bytes>, secrets: seq<Bytes>, cek: Bytes)
    requires |pubs| == |secrets| && EachWraps(p, kem, nonce, pubs, secrets, cek)
    ensures WrapAll(p, kem, nonce, pubs, secrets, cek).Ok?
    decreases |pubs|
  {
    hide WrapSlot;
    if pubs != [] {
      var n := |pubs| - 1;
      forall i | 0 <= i < n ensures WrapSlot(p, kem, nonce, pubs[..n][i], secrets[..n][i], cek).Ok? {
        assert WrapSlot(p, kem, nonce, pubs[i], secrets[i], cek).Ok?;
      }
      WrapAllOk(p, kem, nonce, pubs[..n], secrets[..n], cek);
      assert WrapSlot(p, kem, nonce, pubs[n], secrets[n], cek).Ok?;
    }
  }

  /** Wrapping permuted recipients under equally permuted secrets gives the permuted slots. */
  lemma PermuteThenWrap(p: Suite, kem: Kem, nonce: Bytes, pubs: seq<Bytes>, secrets: seq<Bytes>, cek: Bytes, order: seq<nat>)
    requires |pubs| == |secrets| && IsOrder(order, |pubs|)
    requires WrapAll(p, kem, nonce, pubs, secrets, cek).Ok?
    ensures WrapAll(p, kem, nonce, Permuted(pubs, order), Permuted(secrets, order), cek)
            == Ok(Permuted(WrapAll(p, kem, nonce, pubs, secrets, cek).value, order))
  {
    hide WrapSlot, WrapAll;
    var slots := WrapAll(p, kem, nonce, pubs, secrets, cek).value;
    var pubs', secrets' := Permuted(pubs, order), Permuted(secrets, order);
    forall i | 0 <= i < |pubs'| ensures WrapSlot(p, kem, nonce, pubs'[i], secrets'[i], cek) == Ok(Permuted(slots, order)[i]) {
      assert WrapSlot(p, kem, nonce, pubs[order[i]], secrets[order[i]], cek) == Ok(slots[order[i]]);
    }
    WrapAllOk(p, kem, nonce, pubs', secrets', cek);
    var slots' := WrapAll(p, kem, nonce, pubs', secrets', cek).value;
    forall i | 0 <= i < |slots'| ensures slots'[i] == Permuted(slots, order)[i] {
      assert WrapSlot(p, kem, nonce, pubs'[i], secrets'[i], cek) == Ok(slots'[i]);
    }
    assert slots' == Permuted(slots, order);
  }

  /**
    The reproducible seal permutes recipients and secrets and wraps without a shuffle; that gives the
    slots of the ordinary wrap, shuffled by the same picks afterwards.
    */
  lemma PermutedWrapIsShuffledWrap(p: Suite, kem: Kem, nonce: Bytes, pubs: seq<Bytes>, secrets: seq<Bytes>, cek: Bytes, picks: seq<nat>)
    requires |pubs| == |secrets| && ArePicks(picks, |pubs|)
    requires WrapAll(p, kem, nonce, pubs, secrets, cek).Ok?
    ensures Within(Shuffled(Indices(|pubs|), picks), |pubs|)
    ensures var order := Shuffled(Indices(|pubs|), picks);
            WrapAll(p, kem, nonce, Permuted(pubs, order), Permuted(secrets, order), cek)
            == Ok(Shuffled(WrapAll(p, kem, nonce, pubs, secrets, cek).value, picks))
  {
    hide WrapSlot, WrapAll, Shuffled;
    var slots := WrapAll(p, kem, nonce, pubs, secrets, cek).value;
    var order := Shuffled(Indices(|pubs|), picks);
    OrderIsTheShuffle(slots, picks);
    ShuffledIsOrder(|pubs|, picks);
    PermuteThenWrap(p, kem, nonce, pubs, secrets, cek, order);
  }

  lemma ShuffledIsOrder(n: nat, picks: seq<nat>)
    requires ArePicks(picks, n)
    ensures IsOrder(Shuffled(Indices(n), picks), n)
  {
    ShuffleKeepsDistinct(Indices(n), picks);
    OrderIsTheShuffle(Indices(n), picks);
  }

  lemma PermutedDistinct(kem: Kem, slots: seq<Slot>, order: seq<nat>)
    requires IsOrder(order, |slots|) && MaterialsDistinct(kem, slots)
    ensures MaterialsDistinct(kem, Permuted(slots, order))
  {
    var s := Permuted(slots, order);
    forall i, j | 0 <= i < j < |s| ensures Material(kem, s[i]) != Material(kem, s[j]) {
      assert order[i] != order[j];
    }
  }
}
