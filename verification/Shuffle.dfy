/** The Fisher-Yates shuffle as a function of its index picks, and why equally likely picks give equally likely orders. */
module Shuffle {
  /** One pick per position, each at or below its position. */
  predicate ArePicks(picks: seq<nat>, n: nat) {
    |picks| == n && forall i :: 0 <= i < n ==> picks[i] <= i
  }

  function SwapAt<T>(s: seq<T>, i: nat, j: nat): (r: seq<T>)
    requires i < |s| && j < |s|
    ensures |r| == |s| && r[i] == s[j] && r[j] == s[i]
    ensures forall k :: 0 <= k < |s| && k != i && k != j ==> r[k] == s[k]
  {
    s[i := s[j]][j := s[i]]
  }

  /** From the last position down, the picked entry is swapped in; the settled entry then stays. */
  function Shuffled<T>(s: seq<T>, picks: seq<nat>): (r: seq<T>)
    requires ArePicks(picks, |s|)
    ensures |r| == |s|
    decreases |s|
  {
    if s == [] then [] else
      var n := |s| - 1;
      var t := SwapAt(s, n, picks[n]);
      Shuffled(t[..n], picks[..n]) + [t[n]]
  }

  /** `out` is `s` with the entries from `n` on settled and `n` turns left. */
  ghost predicate TurnsLeft<T>(s: seq<T>, picks: seq<nat>, out: seq<T>, n: nat) {
    && ArePicks(picks, |s|)
    && n <= |s| == |out|
    && ArePicks(picks[..n], n)
    && Shuffled(s, picks) == Shuffled(out[..n], picks[..n]) + out[n..]
  }

  lemma AllTurnsLeft<T>(s: seq<T>, picks: seq<nat>)
    requires ArePicks(picks, |s|)
    ensures TurnsLeft(s, picks, s, |s|)
  {
    assert s[..|s|] == s && picks[..|s|] == picks;
  }

  /** One turn of the loop. */
  lemma Turn<T>(s: seq<T>, picks: seq<nat>, out: seq<T>, i: nat)
    requires i < |s| && TurnsLeft(s, picks, out, i + 1)
    ensures picks[i] <= i && TurnsLeft(s, picks, SwapAt(out, i, picks[i]), i)
  {
    assert picks[..i + 1][i] == picks[i];
    var t := SwapAt(out, i, picks[i]);
    var head := out[..i + 1];
    assert SwapAt(head, i, picks[i]) == t[..i + 1];
    assert t[..i + 1][..i] == t[..i] && picks[..i + 1][..i] == picks[..i];
    assert t[i..] == [t[i]] + out[i + 1..];
    assert Shuffled(head, picks[..i + 1]) == Shuffled(t[..i], picks[..i]) + [t[i]];
  }

  /** The bottom position has only itself to swap with. */
  lemma NoTurnsLeft<T>(s: seq<T>, picks: seq<nat>, out: seq<T>, n: nat)
    requires n <= 1 && TurnsLeft(s, picks, out, n)
    ensures out == Shuffled(s, picks)
  {
    if n == 1 {
      Turn(s, picks, out, 0);
      assert SwapAt(out, 0, 0) == out;
    }
  }

  lemma SwapKeepsContents<T>(s: seq<T>, i: nat, j: nat)
    requires i < |s| && j < |s|
    ensures multiset(SwapAt(s, i, j)) == multiset(s)
  {
  }

  lemma ContentsOneMore<T>(front: seq<T>, last: T)
    ensures multiset(front + [last]) == multiset(front) + multiset{last}
  {
  }

  /** What the first turn settles, and what is left to the others. */
  lemma FirstTurn<T>(s: seq<T>, picks: seq<nat>, n: nat, rest: seq<T>)
    requires ArePicks(picks, |s|) && |s| == n + 1 && rest == SwapAt(s, n, picks[n])[..n]
    ensures ArePicks(picks[..n], |rest|)
    ensures Shuffled(s, picks) == Shuffled(rest, picks[..n]) + [s[picks[n]]]
    ensures multiset(s) == multiset(rest) + multiset{s[picks[n]]}
  {
    var t := SwapAt(s, n, picks[n]);
    SwapKeepsContents(s, n, picks[n]);
    assert t == rest + [t[n]];
  }

  /** A shuffle only reorders. */
  lemma {:induction false} ShuffleKeepsContents<T>(s: seq<T>, picks: seq<nat>)
    requires ArePicks(picks, |s|)
    ensures multiset(Shuffled(s, picks)) == multiset(s)
    decreases |s|
  {
    if s != [] {
      var n := |s| - 1;
      var rest := SwapAt(s, n, picks[n])[..n];
      FirstTurn(s, picks, n, rest);
      ShuffleKeepsContents(rest, picks[..n]);
      ContentsOneMore(Shuffled(rest, picks[..n]), s[picks[n]]);
    }
  }

  predicate Distinct<T(==)>(s: seq<T>) {
    forall i, j :: 0 <= i < j < |s| ==> s[i] != s[j]
  }

  lemma SwapKeepsDistinct<T>(s: seq<T>, i: nat, j: nat)
    requires Distinct(s) && i < |s| && j < |s|
    ensures Distinct(SwapAt(s, i, j)) && Distinct(SwapAt(s, i, j)[..i])
  {
  }

  lemma {:induction false} ShuffleKeepsDistinct<T>(s: seq<T>, picks: seq<nat>)
    requires Distinct(s) && ArePicks(picks, |s|)
    ensures Distinct(Shuffled(s, picks))
    decreases |s|
  {
    if s != [] {
      var n := |s| - 1;
      var rest := SwapAt(s, n, picks[n])[..n];
      var last := s[picks[n]];
      FirstTurn(s, picks, n, rest);
      SwapKeepsDistinct(s, n, picks[n]);
      ShuffleKeepsDistinct(rest, picks[..n]);
      ShuffleKeepsContents(rest, picks[..n]);
      LastIsNew(s, n, picks[n], Shuffled(rest, picks[..n]));
    }
  }

  lemma LastIsNew<T>(s: seq<T>, n: nat, j: nat, front: seq<T>)
    requires Distinct(s) && |s| == n + 1 && j <= n && Distinct(front)
    requires multiset(front) == multiset(SwapAt(s, n, j)[..n])
    ensures Distinct(front + [s[j]])
  {
    forall i | 0 <= i < |front| ensures front[i] != s[j] {
      assert front[i] in multiset(front);
    }
  }

  lemma SameEntry<T>(s: seq<T>, i: nat, j: nat)
    requires Distinct(s) && i < |s| && j < |s| && s[i] == s[j]
    ensures i == j
  {
  }

  /** Equal orders agree on the first pick and on what the remaining turns give. */
  lemma SameFirstTurn<T>(s: seq<T>, p: seq<nat>, q: seq<nat>, n: nat, rest: seq<T>)
    requires Distinct(s) && |s| == n + 1 && ArePicks(p, |s|) && ArePicks(q, |s|) && Shuffled(s, p) == Shuffled(s, q)
    requires rest == SwapAt(s, n, p[n])[..n]
    ensures p[n] == q[n] && ArePicks(p[..n], n) && ArePicks(q[..n], n)
    ensures Shuffled(rest, p[..n]) == Shuffled(rest, q[..n])
  {
    hide Shuffled, Distinct;
    var other := SwapAt(s, n, q[n])[..n];
    FirstTurn(s, p, n, rest);
    FirstTurn(s, q, n, other);
    SameSnoc(Shuffled(rest, p[..n]), s[p[n]], Shuffled(other, q[..n]), s[q[n]]);
    SameEntry(s, p[n], q[n]);
  }

  /** Different picks give different orders. */
  lemma {:induction false} ShuffleIsInjective<T>(s: seq<T>, p: seq<nat>, q: seq<nat>)
    requires Distinct(s) && ArePicks(p, |s|) && ArePicks(q, |s|) && Shuffled(s, p) == Shuffled(s, q)
    ensures p == q
    decreases |s|
  {
    if s != [] {
      var n := |s| - 1;
      var rest := SwapAt(s, n, p[n])[..n];
      hide Shuffled, Distinct, SwapAt;
      SameFirstTurn(s, p, q, n, rest);
      SwapKeepsDistinct(s, n, p[n]);
      ShuffleIsInjective(rest, p[..n], q[..n]);
      SnocsEqual(p, q, n);
    }
  }

  lemma SnocsEqual(p: seq<nat>, q: seq<nat>, n: nat)
    requires |p| == |q| == n + 1 && p[n] == q[n] && p[..n] == q[..n]
    ensures p == q
  {
    assert p == p[..n] + [p[n]];
  }

  lemma SameSnoc<T>(a: seq<T>, x: T, b: seq<T>, y: T)
    requires a + [x] == b + [y] && |a| == |b|
    ensures a == b && x == y
  {
    assert a == (a + [x])[..|a|] && b == (b + [y])[..|b|];
    assert (a + [x])[|a|] == x && (b + [y])[|b|] == y;
  }

  lemma SameRemainder<T>(a: multiset<T>, b: multiset<T>, m: multiset<T>)
    requires a + m == b + m
    ensures a == b
  {
    assert a == (a + m) - m && b == (b + m) - m;
  }

  /** The entry that `target` ends with can be picked; the others then match too. */
  lemma LastPick<T>(s: seq<T>, target: seq<T>, n: nat) returns (j: nat, rest: seq<T>)
    requires |s| == |target| == n + 1 && multiset(s) == multiset(target)
    ensures j <= n && s[j] == target[n] && rest == SwapAt(s, n, j)[..n]
    ensures multiset(rest) == multiset(target[..n])
  {
    var last := target[n];
    ContentsOneMore(target[..n], last);
    assert target == target[..n] + [last];
    assert last in multiset(s);
    j :| j <= n && s[j] == last;
    rest := SwapAt(s, n, j)[..n];
    SwapKeepsContents(s, n, j);
    assert SwapAt(s, n, j) == rest + [last];
    ContentsOneMore(rest, last);
    SameRemainder(multiset(rest), multiset(target[..n]), multiset{last});
  }

  /** Every order is reached. */
  lemma {:induction false} ShuffleIsSurjective<T>(s: seq<T>, target: seq<T>) returns (picks: seq<nat>)
    requires |s| == |target| && multiset(s) == multiset(target)
    ensures ArePicks(picks, |s|) && Shuffled(s, picks) == target
    decreases |s|
  {
    if s == [] {
      picks := [];
    } else {
      var n := |s| - 1;
      var j, rest := LastPick(s, target, n);
      hide SwapAt, Shuffled;
      var front := ShuffleIsSurjective(rest, target[..n]);
      picks := front + [j];
      assert picks[..n] == front && picks[n] == j;
      FirstTurn(s, picks, n, rest);
      assert target == target[..n] + [target[n]];
    }
  }

  /** `[s[i] for i in order]`. */
  function Permuted<T>(s: seq<T>, order: seq<nat>): (r: seq<T>)
    requires forall i :: 0 <= i < |order| ==> order[i] < |s|
    ensures |r| == |order|
    ensures forall i :: 0 <= i < |r| ==> r[i] == s[order[i]]
  {
    if order == [] then [] else Permuted(s, order[..|order| - 1]) + [s[order[|order| - 1]]]
  }

  predicate Within(order: seq<nat>, n: nat) {
    forall i :: 0 <= i < |order| ==> order[i] < n
  }

  lemma SwapOfLookups<T>(s: seq<T>, order: seq<nat>, i: nat, j: nat)
    requires Within(order, |s|) && i < |order| && j < |order|
    ensures Within(SwapAt(order, i, j), |s|) && Within(SwapAt(order, i, j)[..i], |s|)
    ensures Permuted(s, SwapAt(order, i, j)[..i]) == SwapAt(Permuted(s, order), i, j)[..i]
    ensures SwapAt(Permuted(s, order), i, j)[i] == s[SwapAt(order, i, j)[i]]
  {
    hide Permuted;
  }

  lemma LookUpOneMore<T>(s: seq<T>, front: seq<nat>, last: nat)
    requires Within(front, |s|) && last < |s|
    ensures Within(front + [last], |s|) && Permuted(s, front + [last]) == Permuted(s, front) + [s[last]]
  {
  }

  /** Shuffling indices and looking entries up is shuffling the entries. */
  lemma {:induction false} ShuffleOfLookups<T>(s: seq<T>, order: seq<nat>, picks: seq<nat>)
    requires Within(order, |s|) && ArePicks(picks, |order|)
    ensures Within(Shuffled(order, picks), |s|)
    ensures Permuted(s, Shuffled(order, picks)) == Shuffled(Permuted(s, order), picks)
    decreases |order|
  {
    if order != [] {
      var n := |order| - 1;
      var o := SwapAt(order, n, picks[n]);
      var t := SwapAt(Permuted(s, order), n, picks[n]);
      SwapOfLookups(s, order, n, picks[n]);
      ShuffleOfLookups(s, o[..n], picks[..n]);
      assert Shuffled(Permuted(s, order), picks) == Shuffled(t[..n], picks[..n]) + [t[n]];
      LookUpOneMore(s, Shuffled(o[..n], picks[..n]), o[n]);
    }
  }

  /** 0 .. n - 1 in order. */
  function Indices(n: nat): (r: seq<nat>)
    ensures |r| == n && forall i :: 0 <= i < n ==> r[i] == i
  {
    if n == 0 then [] else Indices(n - 1) + [n - 1]
  }

  /** So the shuffled index list is the permutation that the shuffle applies. */
  lemma OrderIsTheShuffle<T>(s: seq<T>, picks: seq<nat>)
    requires ArePicks(picks, |s|)
    ensures Within(Shuffled(Indices(|s|), picks), |s|)
    ensures Permuted(s, Shuffled(Indices(|s|), picks)) == Shuffled(s, picks)
  {
    ShuffleOfLookups(s, Indices(|s|), picks);
    assert Permuted(s, Indices(|s|)) == s;
  }
}
