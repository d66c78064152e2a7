/**
  The Canonical Ordering Algorithm: the in-place stable insertion sort, and the proof that
  its result is the unique normal form under swaps of adjacent characters whose combining
  classes are distinct and nonzero (section 3.11 of the Unicode Standard).
  */
module CanonicalOrder {
  import opened Wrappers
  import opened NfkcTables

  /** Places `cp` after `s`, before any trailing characters of greater class. */
  function Insert(t: Tables, s: seq<int>, cp: int): (r: seq<int>)
    ensures |r| == |s| + 1
  {
    if Ccc(t, cp) == 0 || s == [] || Ccc(t, s[|s| - 1]) <= Ccc(t, cp) then s + [cp]
    else Insert(t, s[..|s| - 1], cp) + [s[|s| - 1]]
  }

  function Reorder(t: Tables, s: seq<int>): (r: seq<int>)
    ensures |r| == |s|
  {
    if s == [] then [] else Insert(t, Reorder(t, s[..|s| - 1]), s[|s| - 1])
  }

  /** The insertion point: `cp` lands at `j` when everything from `j` on is of greater class
      and what precedes `j` is not. */
  lemma {:induction false} InsertAt(t: Tables, s: seq<int>, cp: int, j: nat)
    requires j <= |s| && Ccc(t, cp) != 0
    requires forall k :: j <= k < |s| ==> Ccc(t, s[k]) > Ccc(t, cp)
    requires j > 0 ==> Ccc(t, s[j - 1]) <= Ccc(t, cp)
    ensures Insert(t, s, cp) == s[..j] + [cp] + s[j..]
  {
    if j < |s| {
      var init, last := s[..|s| - 1], s[|s| - 1];
      InsertAt(t, init, cp, j);
      assert s[..j] == init[..j] && s[j..] == init[j..] + [last];
    }
  }

  /** The inner loop: shifts greater classes right until `a[i]` fits. */
  method InsertInPlace(t: Tables, a: array<int>, i: nat)
    requires i < a.Length
    modifies a
    ensures a[..i + 1] == Insert(t, old(a[..i]), old(a[i]))
    ensures a[i + 1..] == old(a[i + 1..])
  {
    ghost var s := a[..i];
    var cp := a[i];
    var combining := Ccc(t, cp);
    if combining == 0 {
      return;
    }
    var j := i;
    while j > 0 && Ccc(t, a[j - 1]) > combining
      invariant 0 <= j <= i
      invariant forall k :: 0 <= k < j ==> a[k] == s[k]
      invariant forall k :: j <= k < i ==> a[k + 1] == s[k] && Ccc(t, s[k]) > combining
      invariant a[i + 1..] == old(a[i + 1..])
    {
      a[j] := a[j - 1];
      j := j - 1;
    }
    a[j] := cp;
    InsertAt(t, s, cp, j);
    assert a[..i + 1] == s[..j] + [cp] + s[j..];
  }

  method CanonicalReorder(t: Tables, a: array<int>)
    modifies a
    ensures a[..] == Reorder(t, old(a[..]))
  {
    ghost var s := a[..];
    assert a.Length > 0 ==> s[..1][..0] == [];
    var i := 1;
    while i < a.Length
      invariant 1 <= i
      invariant i <= a.Length ==> a[..i] == Reorder(t, s[..i]) && a[i..] == s[i..]
      invariant i > a.Length ==> a.Length == 0
    {
      assert a[i] == a[i..][0] && a[i + 1..] == a[i..][1..];
      assert s[i] == s[i..][0] && s[i + 1..] == s[i..][1..];
      assert s[..i + 1][..i] == s[..i];
      InsertInPlace(t, a, i);
      i := i + 1;
    }
    assert s[..a.Length] == s && a[..a.Length] == a[..];
  }

  // ----- what an ordered sequence is -----------------------------------------------

  lemma {:induction false} InsertKeepsOrder(t: Tables, s: seq<int>, cp: int)
    requires Ordered(t, s)
    ensures Ordered(t, Insert(t, s, cp))
    ensures var r := Insert(t, s, cp);
            r[|s|] == cp || (s != [] && r[|s|] == s[|s| - 1] && Ccc(t, cp) < Ccc(t, s[|s| - 1]))
  {
    if !(Ccc(t, cp) == 0 || s == [] || Ccc(t, s[|s| - 1]) <= Ccc(t, cp)) {
      InsertKeepsOrder(t, s[..|s| - 1], cp);
    }
  }

  lemma {:induction false} ReorderIsOrdered(t: Tables, s: seq<int>)
    ensures Ordered(t, Reorder(t, s))
  {
    if s != [] {
      ReorderIsOrdered(t, s[..|s| - 1]);
      InsertKeepsOrder(t, Reorder(t, s[..|s| - 1]), s[|s| - 1]);
    }
  }

  /** The ordered sequences are exactly the fixed points. */
  lemma {:induction false} FixedPointIffOrdered(t: Tables, s: seq<int>)
    ensures Reorder(t, s) == s <==> Ordered(t, s)
  {
    ReorderIsOrdered(t, s);
    if s != [] && Ordered(t, s) {
      FixedPointIffOrdered(t, s[..|s| - 1]);
    }
  }

  // ----- swaps ---------------------------------------------------------------------

  /** Characters `i` and `i + 1` may trade places without changing the text. */
  predicate Swappable(t: Tables, s: seq<int>, i: nat) {
    i + 1 < |s| && Ccc(t, s[i]) != 0 && Ccc(t, s[i + 1]) != 0 && Ccc(t, s[i]) != Ccc(t, s[i + 1])
  }

  function SwapNeighbours(s: seq<int>, i: nat): (r: seq<int>)
    requires i + 1 < |s|
    ensures |r| == |s|
  {
    s[i := s[i + 1]][i + 1 := s[i]]
  }

  /** Performs the swaps at `at`, in order; None if one of them is not allowed. */
  function ApplySwaps(t: Tables, s: seq<int>, at: seq<nat>): Option<seq<int>>
    decreases |at|
  {
    if at == [] then Some(s)
    else if Swappable(t, s, at[0]) then ApplySwaps(t, SwapNeighbours(s, at[0]), at[1..])
    else None
  }

  ghost predicate Reaches(t: Tables, s: seq<int>, r: seq<int>) {
    exists at :: ApplySwaps(t, s, at) == Some(r)
  }

  lemma {:induction false} ApplySwapsAppend(t: Tables, s: seq<int>, at: seq<nat>, more: seq<nat>)
    requires ApplySwaps(t, s, at).Some?
    ensures ApplySwaps(t, s, at + more) == ApplySwaps(t, ApplySwaps(t, s, at).value, more)
    decreases |at|
  {
    if at == [] {
      assert at + more == more;
    } else {
      assert (at + more)[1..] == at[1..] + more;
      ApplySwapsAppend(t, SwapNeighbours(s, at[0]), at[1..], more);
    }
  }

  lemma {:induction false} ApplySwapsInPrefix(t: Tables, s: seq<int>, suffix: seq<int>, at: seq<nat>)
    requires ApplySwaps(t, s, at).Some?
    ensures ApplySwaps(t, s + suffix, at) == Some(ApplySwaps(t, s, at).value + suffix)
    decreases |at|
  {
    if at != [] {
      assert SwapNeighbours(s + suffix, at[0]) == SwapNeighbours(s, at[0]) + suffix;
      ApplySwapsInPrefix(t, SwapNeighbours(s, at[0]), suffix, at[1..]);
    }
  }

  lemma {:induction false} InsertBySwaps(t: Tables, s: seq<int>, cp: int) returns (at: seq<nat>)
    ensures ApplySwaps(t, s + [cp], at) == Some(Insert(t, s, cp))
  {
    if Ccc(t, cp) == 0 || s == [] || Ccc(t, s[|s| - 1]) <= Ccc(t, cp) {
      at := [];
    } else {
      var init, last := s[..|s| - 1], s[|s| - 1];
      var rest := InsertBySwaps(t, init, cp);
      ApplySwapsInPrefix(t, init + [cp], [last], rest);
      assert SwapNeighbours(s + [cp], |s| - 1) == (init + [cp]) + [last];
      at := [|s| - 1] + rest;
      assert at[1..] == rest;
    }
  }

  /** The sort only ever performs allowed swaps. */
  lemma {:induction false} ReorderBySwaps(t: Tables, s: seq<int>) returns (at: seq<nat>)
    ensures ApplySwaps(t, s, at) == Some(Reorder(t, s))
  {
    if s == [] {
      at := [];
    } else {
      var init, last := s[..|s| - 1], s[|s| - 1];
      assert s == init + [last];
      var first := ReorderBySwaps(t, init);
      var second := InsertBySwaps(t, Reorder(t, init), last);
      ApplySwapsInPrefix(t, init, [last], first);
      ApplySwapsAppend(t, s, first, second);
      at := first + second;
    }
  }

  // ----- swaps do not change the sorted sequence -----------------------------------

  lemma {:induction false} ReorderAppend(t: Tables, a: seq<int>, b: seq<int>, v: seq<int>)
    requires Reorder(t, a) == Reorder(t, b)
    ensures Reorder(t, a + v) == Reorder(t, b + v)
    decreases |v|
  {
    if v == [] {
      assert a + v == a && b + v == b;
    } else {
      var init, last := v[..|v| - 1], v[|v| - 1];
      ReorderAppend(t, a, b, init);
      assert (a + v)[..|a + v| - 1] == a + init && (b + v)[..|b + v| - 1] == b + init;
    }
  }

  lemma InsertLast(t: Tables, s: seq<int>, z: int, cp: int)
    ensures Insert(t, s + [z], cp)
         == if Ccc(t, cp) == 0 || Ccc(t, z) <= Ccc(t, cp) then s + [z] + [cp] else Insert(t, s, cp) + [z]
  {
    assert (s + [z])[..|s|] == s;
  }

  lemma {:induction false} InsertsCommute(t: Tables, s: seq<int>, x: int, y: int)
    requires 0 < Ccc(t, x) < Ccc(t, y)
    ensures Insert(t, Insert(t, s, x), y) == Insert(t, Insert(t, s, y), x)
  {
    if s == [] {
      InsertLast(t, [], x, y);
      InsertLast(t, [], y, x);
    } else {
      var init, z := s[..|s| - 1], s[|s| - 1];
      assert s == init + [z];
      InsertLast(t, init, z, x);
      InsertLast(t, init, z, y);
      if Ccc(t, z) <= Ccc(t, y) {
        InsertLast(t, s, y, x);
        if Ccc(t, z) <= Ccc(t, x) {
          InsertLast(t, s, x, y);
        } else {
          InsertLast(t, Insert(t, init, x), z, y);
        }
      } else {
        InsertsCommute(t, init, x, y);
        InsertLast(t, Insert(t, init, x), z, y);
        InsertLast(t, Insert(t, init, y), z, x);
      }
    }
  }

  lemma ReorderLast(t: Tables, s: seq<int>, cp: int)
    ensures Reorder(t, s + [cp]) == Insert(t, Reorder(t, s), cp)
  {
    assert (s + [cp])[..|s|] == s;
  }

  lemma SwappedTailsAgree(t: Tables, u: seq<int>, x: int, y: int)
    requires Ccc(t, x) != 0 && Ccc(t, y) != 0 && Ccc(t, x) != Ccc(t, y)
    ensures Reorder(t, u + [x] + [y]) == Reorder(t, u + [y] + [x])
  {
    ReorderLast(t, u, x);
    ReorderLast(t, u, y);
    ReorderLast(t, u + [x], y);
    ReorderLast(t, u + [y], x);
    if Ccc(t, x) < Ccc(t, y) {
      InsertsCommute(t, Reorder(t, u), x, y);
    } else {
      InsertsCommute(t, Reorder(t, u), y, x);
    }
  }

  lemma SwapKeepsReorder(t: Tables, s: seq<int>, i: nat)
    requires Swappable(t, s, i)
    ensures Reorder(t, SwapNeighbours(s, i)) == Reorder(t, s)
  {
    var u, x, y, v := s[..i], s[i], s[i + 1], s[i + 2..];
    SwappedTailsAgree(t, u, x, y);
    ReorderAppend(t, u + [x] + [y], u + [y] + [x], v);
    assert s == u + [x] + [y] + v && SwapNeighbours(s, i) == u + [y] + [x] + v;
  }

  lemma {:induction false} SwapsKeepReorder(t: Tables, s: seq<int>, at: seq<nat>)
    requires ApplySwaps(t, s, at).Some?
    ensures Reorder(t, ApplySwaps(t, s, at).value) == Reorder(t, s)
    decreases |at|
  {
    if at != [] {
      SwapKeepsReorder(t, s, at[0]);
      SwapsKeepReorder(t, SwapNeighbours(s, at[0]), at[1..]);
    }
  }

  /** The sorted sequence is the one ordered sequence that allowed swaps can reach. */
  lemma ReorderIsTheNormalForm(t: Tables, s: seq<int>, r: seq<int>)
    ensures r == Reorder(t, s) <==> Reaches(t, s, r) && Ordered(t, r)
  {
    ReorderIsOrdered(t, s);
    var at := ReorderBySwaps(t, s);
    if Reaches(t, s, r) && Ordered(t, r) {
      var via :| ApplySwaps(t, s, via) == Some(r);
      SwapsKeepReorder(t, s, via);
      FixedPointIffOrdered(t, r);
    }
  }

  // ----- stability -----------------------------------------------------------------

  /** The characters of combining class `c`, in order. */
  function OfClass(t: Tables, s: seq<int>, c: nat): seq<int> {
    if s == [] then [] else (if Ccc(t, s[0]) == c then [s[0]] else []) + OfClass(t, s[1..], c)
  }

  lemma {:induction false} OfClassAppend(t: Tables, a: seq<int>, b: seq<int>, c: nat)
    ensures OfClass(t, a + b, c) == OfClass(t, a, c) + OfClass(t, b, c)
  {
    if a == [] {
      assert a + b == b;
    } else {
      assert (a + b)[1..] == a[1..] + b;
      OfClassAppend(t, a[1..], b, c);
    }
  }

  /** `r` rearranges `s` without moving a starter or reordering characters of one class. */
  ghost predicate StableRearrangement(t: Tables, s: seq<int>, r: seq<int>) {
    && multiset(r) == multiset(s)
    && |r| == |s|
    && (forall i :: 0 <= i < |s| && (Ccc(t, s[i]) == 0 || Ccc(t, r[i]) == 0) ==> r[i] == s[i])
    && (forall c: nat :: OfClass(t, r, c) == OfClass(t, s, c))
  }

  lemma SwapIsStable(t: Tables, s: seq<int>, i: nat)
    requires Swappable(t, s, i)
    ensures StableRearrangement(t, s, SwapNeighbours(s, i))
  {
    var u, x, y, v := s[..i], s[i], s[i + 1], s[i + 2..];
    var r := SwapNeighbours(s, i);
    assert s == u + [x, y] + v && r == u + [y, x] + v;
    assert multiset([x, y]) == multiset([y, x]);
    forall c: nat ensures OfClass(t, r, c) == OfClass(t, s, c) {
      OfClassAppend(t, u + [x, y], v, c);
      OfClassAppend(t, u + [y, x], v, c);
      OfClassAppend(t, u, [x, y], c);
      OfClassAppend(t, u, [y, x], c);
      assert [x, y][1..] == [y] && [y, x][1..] == [x];
    }
  }

  lemma {:induction false} SwapsAreStable(t: Tables, s: seq<int>, at: seq<nat>)
    requires ApplySwaps(t, s, at).Some?
    ensures StableRearrangement(t, s, ApplySwaps(t, s, at).value)
    decreases |at|
  {
    if at != [] {
      SwapIsStable(t, s, at[0]);
      SwapsAreStable(t, SwapNeighbours(s, at[0]), at[1..]);
    }
  }

  /** The sort permutes stably and leaves every starter at its position. */
  lemma ReorderIsStable(t: Tables, s: seq<int>)
    ensures StableRearrangement(t, s, Reorder(t, s))
  {
    var at := ReorderBySwaps(t, s);
    SwapsAreStable(t, s, at);
  }
}
