/** Decimal amounts on the wire: how they are read, and which numbers they spell. */
module Decimal {
  import opened Wrappers

  /** Digits only: no sign, no space, no fraction, not empty. */
  function DecimalValue(s: string): Option<nat> {
    if s == [] then None
    else
      var last := s[|s| - 1];
      if !('0' <= last <= '9') then None
      else if |s| == 1 then Some(last as int - '0' as int)
      else
        var rest := DecimalValue(s[..|s| - 1]);
        if rest.None? then None else Some(10 * rest.value + (last as int - '0' as int))
  }

  // ----- the number, place by place ------------------------------------------------

  const DIGITS: string := "0123456789"

  function Power10(k: nat): nat {
    if k == 0 then 1 else 10 * Power10(k - 1)
  }

  /** `values[i]` is the value of digit `i`. */
  predicate DigitsOf(s: string, values: seq<nat>) {
    |values| == |s| && forall i :: 0 <= i < |s| ==> values[i] < 10 && s[i] == DIGITS[values[i]]
  }

  /** Each value from place `i` on times ten to the power of its distance from the end. */
  function SumFrom(values: seq<nat>, i: nat): nat
    requires i <= |values|
    decreases |values| - i
  {
    if i == |values| then 0 else values[i] * Power10(|values| - 1 - i) + SumFrom(values, i + 1)
  }

  /** `s` is a non-empty digit string and `n` the sum of its digits by place. */
  ghost predicate SpellsNumber(s: string, n: nat) {
    s != "" && exists values :: DigitsOf(s, values) && n == SumFrom(values, 0)
  }

  lemma TenTimes(v: nat, k: nat)
    ensures v * Power10(k + 1) == 10 * (v * Power10(k))
  {
  }

  lemma {:induction false} LastPlace(values: seq<nat>, i: nat, n: nat)
    requires |values| == n + 1 && i <= n
    ensures SumFrom(values, i) == 10 * SumFrom(values[..n], i) + values[n]
    decreases n - i
  {
    if i < n {
      LastPlace(values, i + 1, n);
      TenTimes(values[i], n - 1 - i);
      assert values[..n][i] == values[i];
    } else {
      assert SumFrom(values, n) == values[n] * Power10(0) + SumFrom(values, n + 1);
    }
  }

  lemma DigitChar(v: nat)
    requires v < 10
    ensures DIGITS[v] as int == '0' as int + v
  {
  }

  /** The value read is the sum of the digits by place. */
  lemma {:induction false} ReadAsSpelled(s: string, values: seq<nat>)
    requires s != "" && DigitsOf(s, values)
    ensures DecimalValue(s) == Some(SumFrom(values, 0))
    decreases |s|
  {
    var n := |s| - 1;
    LastPlace(values, 0, n);
    DigitChar(values[n]);
    if n > 0 {
      ReadAsSpelled(s[..n], values[..n]);
    }
  }

  lemma {:induction false} ReadHasDigits(s: string) returns (values: seq<nat>)
    requires DecimalValue(s).Some?
    ensures DigitsOf(s, values)
    decreases |s|
  {
    var n := |s| - 1;
    var front := [];
    if n > 0 {
      front := ReadHasDigits(s[..n]);
    }
    var v: nat := s[n] as int - '0' as int;
    DigitChar(v);
    values := front + [v];
    forall i | 0 <= i < |s| ensures values[i] < 10 && s[i] == DIGITS[values[i]] {
      if i < n {
        assert s[..n][i] == s[i];
      }
    }
  }

  /** A string is read as `n` exactly when it spells `n`. */
  lemma ReadsExactlySpelled(s: string, n: nat)
    ensures DecimalValue(s) == Some(n) <==> SpellsNumber(s, n)
  {
    hide DecimalValue, DigitsOf, SumFrom;
    NotEmpty(s);
    if DecimalValue(s) == Some(n) {
      var values := ReadHasDigits(s);
      ReadAsSpelled(s, values);
    }
    if SpellsNumber(s, n) {
      var values :| DigitsOf(s, values) && n == SumFrom(values, 0);
      ReadAsSpelled(s, values);
    }
  }

  lemma NotEmpty(s: string)
    ensures DecimalValue(s).Some? ==> s != ""
  {
  }
}
