/** Hexadecimal text: lower-case encoding, and strict decoding of either case. */
module Hex {
  import opened Wrappers
  import opened ByteStrings

  const DIGITS: string := "0123456789abcdef"

  /** The value of a hex digit of either case, or -1. */
  function DigitValue(c: char): (v: int)
    ensures v == -1 || 0 <= v < 16
  {
    if '0' <= c <= '9' then c as int - '0' as int
    else if 'a' <= c <= 'f' then c as int - 'a' as int + 10
    else if 'A' <= c <= 'F' then c as int - 'A' as int + 10
    else -1
  }

  /** The 22 digits and their values; no other character has one. */
  lemma DigitValues(c: char, v: nat)
    requires v < 16
    ensures DigitValue(c) == v <==> c == "0123456789abcdef"[v] || c == "0123456789ABCDEF"[v]
  {
  }

  function Encode(b: Bytes): (s: string)
    ensures |s| == 2 * |b|
    ensures forall i :: 0 <= i < |b| ==> s[2 * i] == DIGITS[b[i] / 16] && s[2 * i + 1] == DIGITS[b[i] % 16]
  {
    if b == [] then ""
    else
      var n := |b| - 1;
      Encode(b[..n]) + [DIGITS[b[n] / 16], DIGITS[b[n] % 16]]
  }

  predicate IsHex(s: string) {
    |s| % 2 == 0 && forall i :: 0 <= i < |s| ==> DigitValue(s[i]) != -1
  }

  /** Even-length text of hex digits and nothing else, not even white space. */
  function Decode(s: string): Option<Bytes> {
    if IsHex(s) then Some(Values(s)) else None
  }

  function Values(s: string): (r: Bytes)
    requires IsHex(s)
    ensures |r| == |s| / 2
    ensures forall i :: 0 <= i < |r| ==> r[i] == 16 * DigitValue(s[2 * i]) + DigitValue(s[2 * i + 1])
  {
    if s == "" then []
    else
      var n := |s| - 2;
      Values(s[..n]) + [16 * DigitValue(s[n]) + DigitValue(s[n + 1])]
  }

  lemma DigitRoundTrip(v: nat)
    requires v < 16
    ensures DigitValue(DIGITS[v]) == v
  {
  }

  predicate IsDigitOf(c: char, v: nat) {
    DigitValue(c) == v
  }

  /** `s` spells `b` when its digits have the values of `b`'s nibbles, in either case. */
  predicate Spells(s: string, b: Bytes) {
    && |s| == 2 * |b|
    && forall i :: 0 <= i < |b| ==> IsDigitOf(s[2 * i], b[i] / 16) && IsDigitOf(s[2 * i + 1], b[i] % 16)
  }

  /** Decoding yields `b` exactly on the texts that spell it. */
  lemma DecodesExactly(s: string, b: Bytes)
    ensures Decode(s) == Some(b) <==> Spells(s, b)
  {
    if Spells(s, b) {
      forall i | 0 <= i < |s| ensures DigitValue(s[i]) != -1 {
        var h := i / 2;
        assert i == 2 * h || i == 2 * h + 1;
        assert IsDigitOf(s[2 * h], b[h] / 16) && IsDigitOf(s[2 * h + 1], b[h] % 16);
      }
      assert Values(s) == b;
    }
  }

  lemma EncodeSpells(b: Bytes)
    ensures Spells(Encode(b), b)
  {
    forall i | 0 <= i < |b|
      ensures IsDigitOf(Encode(b)[2 * i], b[i] / 16) && IsDigitOf(Encode(b)[2 * i + 1], b[i] % 16)
    {
      DigitRoundTrip(b[i] / 16);
      DigitRoundTrip(b[i] % 16);
    }
  }

  lemma RoundTrip(b: Bytes)
    ensures Decode(Encode(b)) == Some(b)
  {
    EncodeSpells(b);
    DecodesExactly(Encode(b), b);
  }
}
