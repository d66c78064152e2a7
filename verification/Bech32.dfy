/**
  Bech32 without a length limit (BIP-173): encoding, decoding, and the proof that decoding
  accepts exactly the two single-case spellings of what encoding produces.
  */
module Bech32 {
  import opened Wrappers
  import opened ByteStrings
  import opened BitOps
  import opened BitGroups
  import opened ChecksumLaws
  import opened Polymod

  const ALPHABET: string := "qpzry9x8gf2tvdw0s3jn54khce6mua7l"

  // ----- ASCII case ----------------------------------------------------------------

  predicate IsAscii(s: string) {
    forall i :: 0 <= i < |s| ==> s[i] as int < 128
  }

  predicate IsUpperChar(c: char) { 'A' <= c <= 'Z' }

  predicate IsLowerChar(c: char) { 'a' <= c <= 'z' }

  function LowerChar(c: char): char {
    if IsUpperChar(c) then (c as int + 32) as char else c
  }

  function UpperChar(c: char): char {
    if IsLowerChar(c) then (c as int - 32) as char else c
  }

  function Lower(s: string): (r: string)
    ensures |r| == |s|
    ensures forall i :: 0 <= i < |s| ==> r[i] == LowerChar(s[i])
  {
    seq(|s|, i requires 0 <= i < |s| => LowerChar(s[i]))
  }

  function Upper(s: string): (r: string)
    ensures |r| == |s|
    ensures forall i :: 0 <= i < |s| ==> r[i] == UpperChar(s[i])
  {
    seq(|s|, i requires 0 <= i < |s| => UpperChar(s[i]))
  }

  predicate HasUpper(s: string) { s != Lower(s) }

  predicate HasLower(s: string) { s != Upper(s) }

  /** A text without mixed case is its lower-case form or that form's upper case. */
  lemma SingleCase(text: string)
    ensures Lower(Lower(text)) == Lower(text) && Upper(Upper(text)) == Upper(text)
    ensures Lower(Upper(text)) == Lower(text) && Upper(Lower(text)) == Upper(text)
    ensures !(HasLower(text) && HasUpper(text)) <==> text == Lower(text) || text == Upper(Lower(text))
  {
    forall i | 0 <= i < |text|
      ensures LowerChar(LowerChar(text[i])) == LowerChar(text[i]) && UpperChar(UpperChar(text[i])) == UpperChar(text[i])
      ensures LowerChar(UpperChar(text[i])) == LowerChar(text[i]) && UpperChar(LowerChar(text[i])) == UpperChar(text[i])
    {
    }
  }

  // ----- the alphabet --------------------------------------------------------------

  /** The first index of `c` in `s` from `from` on, or -1. */
  function Find(s: string, c: char, from: nat): (i: int)
    requires from <= |s|
    ensures i == -1 || (from <= i < |s| && s[i] == c)
    ensures i == -1 ==> forall j :: from <= j < |s| ==> s[j] != c
    ensures forall j :: from <= j < i ==> s[j] != c
    decreases |s| - from
  {
    if from == |s| then -1 else if s[from] == c then from else Find(s, c, from + 1)
  }

  /** The last index of `c` in `s`, or -1. */
  function FindLast(s: string, c: char): (i: int)
    ensures i == -1 || (0 <= i < |s| && s[i] == c)
    ensures forall j :: 0 <= j < |s| && i < j ==> s[j] != c
  {
    if s == [] then -1 else if s[|s| - 1] == c then |s| - 1 else FindLast(s[..|s| - 1], c)
  }

  function Chars(words: seq<Word>): (s: string)
    ensures |s| == |words|
  {
    seq(|words|, i requires 0 <= i < |words| => ALPHABET[words[i]])
  }

  /** The alphabet has 32 distinct characters, lower case or digits, and no '1'. */
  lemma AlphabetPlain(w: Word)
    ensures ALPHABET[w] != '1' && LowerChar(ALPHABET[w]) == ALPHABET[w]
  {
  }

  lemma AlphabetDistinct(v: Word, w: Word)
    requires ALPHABET[v] == ALPHABET[w]
    ensures v == w
  {
    if v < 16 {
      FirstHalfDistinct(v, w);
    } else if w < 16 {
      FirstHalfDistinct(w, v);
    } else {
      SecondHalfDistinct(v, w);
    }
  }

  lemma FirstHalfDistinct(v: Word, w: Word)
    requires v < 16 && ALPHABET[v] == ALPHABET[w]
    ensures v == w
  {
  }

  lemma SecondHalfDistinct(v: Word, w: Word)
    requires v >= 16 && w >= 16 && ALPHABET[v] == ALPHABET[w]
    ensures v == w
  {
  }

  // ----- what encoding produces ----------------------------------------------------

  predicate ValidHrpChar(c: char) { 33 <= c as int <= 126 }

  predicate ValidHrp(hrp: string) {
    hrp != "" && forall i :: 0 <= i < |hrp| ==> ValidHrpChar(hrp[i])
  }

  function HighParts(hrp: string): seq<State> {
    seq(|hrp|, i requires 0 <= i < |hrp| => hrp[i] as int / 32)
  }

  function LowParts(hrp: string): seq<State> {
    seq(|hrp|, i requires 0 <= i < |hrp| => hrp[i] as int % 32)
  }

  /** The human-readable part as the checksum reads it. */
  function HrpValues(hrp: string): seq<State> {
    HighParts(hrp) + [0] + LowParts(hrp)
  }

  function ChecksumWords(hrp: string, words: seq<Word>): (r: seq<Word>)
    ensures |r| == 6
  {
    ChecksumSymbols(HrpValues(hrp) + words)
  }

  predicate ValidChecksum(hrp: string, words: seq<Word>) {
    MessageState(HrpValues(hrp) + words) == 1
  }

  /** The data words followed by their checksum. */
  function EncodingWords(hrp: string, data: Bytes): seq<Word> {
    ToWords(data) + ChecksumWords(hrp, ToWords(data))
  }

  function Assemble(hrp: string, words: seq<Word>): string {
    hrp + "1" + Chars(words)
  }

  function Encoding(hrp: string, data: Bytes): string {
    Assemble(hrp, EncodingWords(hrp, data))
  }

  lemma ChecksumWordsUnique(hrp: string, words: seq<Word>, check: seq<Word>)
    requires |check| == 6
    ensures ValidChecksum(hrp, words + check) <==> check == ChecksumWords(hrp, words)
  {
    Powers();
    var values: seq<State> := HrpValues(hrp) + words;
    assert HrpValues(hrp) + (words + check) == values + check;
    ChecksumIsUnique(values, check);
  }

  // ----- encoding ------------------------------------------------------------------

  /** `chk = polymod_step(chk) ^ v` after the values `done`. */
  method Absorb(chk: State, v: State, ghost done: seq<State>) returns (next: State)
    requires chk == MessageState(done)
    ensures next == MessageState(done + [v])
  {
    assert (done + [v])[..|done|] == done;
    next := PolymodStepLoop(chk);
    next := StateXor(next, v);
  }

  lemma NextPrefix(head: seq<State>, tail: seq<State>, i: nat)
    requires i < |tail|
    ensures head + tail[..i + 1] == head + tail[..i] + [tail[i]]
  {
  }

  /** Folds the human-readable part: high parts, a zero, low parts. */
  method FoldHrp(hrp: string) returns (chk: State)
    ensures chk == MessageState(HrpValues(hrp))
  {
    chk := 1;
    ghost var high, low := HighParts(hrp), LowParts(hrp);
    for i := 0 to |hrp|
      invariant chk == MessageState([] + high[..i])
    {
      NextPrefix([], high, i);
      chk := Absorb(chk, hrp[i] as int / 32, [] + high[..i]);
    }
    assert [] + high[..|hrp|] == high;
    chk := Absorb(chk, 0, high);
    ghost var head := high + [0];
    assert head + low[..0] == head;
    for i := 0 to |hrp|
      invariant chk == MessageState(head + low[..i])
    {
      NextPrefix(head, low, i);
      chk := Absorb(chk, hrp[i] as int % 32, head + low[..i]);
    }
    assert low[..|hrp|] == low;
  }

  method FoldWords(hrp: string, words: seq<Word>) returns (chk: State)
    ensures chk == MessageState(HrpValues(hrp) + words)
  {
    chk := FoldHrp(hrp);
    ghost var head := HrpValues(hrp);
    assert head + words[..0] == head;
    for i := 0 to |words|
      invariant chk == MessageState(head + words[..i])
    {
      NextPrefix(head, words, i);
      chk := Absorb(chk, words[i], head + words[..i]);
    }
    assert words[..|words|] == words;
  }

  /** Writes out the six groups of the final state. */
  method ChecksumChars(chk: State) returns (out: string)
    ensures out == Chars(Unpack(chk, 6))
  {
    out := "";
    ghost var all: seq<Word> := Unpack(chk, 6);
    for i := 0 to 6
      invariant out == Chars(all[..i])
    {
      UnpackAt(chk, 6, i);
      Powers();
      out := out + [ALPHABET[LowBits(ShiftRight(chk, 5 * (5 - i)), 5)]];
    }
    assert all[..6] == all;
  }

  /** The checksum characters; None when the prefix has a character outside 33..126. */
  method Checksum(prefix: string, words: seq<Word>) returns (r: Option<string>)
    ensures r.Some? <==> forall i :: 0 <= i < |prefix| ==> ValidHrpChar(prefix[i])
    ensures r.Some? ==> r.value == Chars(ChecksumWords(prefix, words))
  {
    for i := 0 to |prefix|
      invariant forall k :: 0 <= k < i ==> ValidHrpChar(prefix[k])
    {
      if prefix[i] as int < 33 || prefix[i] as int > 126 {
        return None;
      }
    }
    var chk := FoldWords(prefix, words);
    chk := SixSteps(chk);
    var out := ChecksumChars(StateXor(chk, 1));
    return Some(out);
  }

  method SixSteps(start: State) returns (chk: State)
    ensures chk == Iterate(Bech32Ops(), start, 6)
  {
    chk := start;
    for i := 0 to 6
      invariant chk == Iterate(Bech32Ops(), start, i)
    {
      chk := PolymodStepLoop(chk);
    }
  }

  lemma CharsAppend(a: seq<Word>, b: seq<Word>)
    ensures Chars(a) + Chars(b) == Chars(a + b)
  {
  }

  /** The separator, the payload and its checksum behind `hrp`. */
  method AssembleChecked(hrp: string, words: seq<Word>) returns (r: Option<string>)
    ensures r.Some? <==> forall i :: 0 <= i < |hrp| ==> ValidHrpChar(hrp[i])
    ensures r.Some? ==> r.value == Assemble(hrp, words + ChecksumWords(hrp, words))
  {
    var payload := Chars(words);
    var checksum := Checksum(hrp, words);
    if checksum.None? {
      return None;
    }
    CharsAppend(words, ChecksumWords(hrp, words));
    return Some(hrp + "1" + (payload + checksum.value));
  }

  /** The words of `data`, in the loop's form, are the ones `ToWords` names. */
  method WordsOf(data: Bytes) returns (words: seq<Word>)
    ensures words == ToWords(data)
  {
    words := BytesToWords(data);
    RegroupsUnique(data, words, data, ToWords(data));
  }

  method EncodeLower(lowered: string, data: Bytes) returns (r: Option<string>)
    ensures r.Some? <==> forall i :: 0 <= i < |lowered| ==> ValidHrpChar(lowered[i])
    ensures r.Some? ==> r.value == Encoding(lowered, data)
  {
    var words := WordsOf(data);
    r := AssembleChecked(lowered, words);
  }

  /** Encodes under the lower-case prefix; fails on an empty prefix or one outside 33..126. */
  method EncodeNoLimit(prefix: string, data: Bytes) returns (r: Option<string>)
    requires IsAscii(prefix)
    ensures r.Some? <==> ValidHrp(Lower(prefix))
    ensures r.Some? ==> r.value == Encoding(Lower(prefix), data)
  {
    if prefix == "" {
      return None;
    }
    r := EncodeLower(Lower(prefix), data);
  }

  // ----- decoding ------------------------------------------------------------------

  method ChecksumValid(hrp: string, words: seq<Word>) returns (ok: bool)
    ensures ok == ValidChecksum(hrp, words)
  {
    var chk := FoldWords(hrp, words);
    return chk == 1;
  }

  predicate IsEncoding(s: string, hrp: string, data: Bytes) {
    ValidHrp(hrp) && s == Encoding(hrp, data)
  }

  /** `text` spells (hrp, data) in one case. */
  predicate Spells(text: string, hrp: string, data: Bytes) {
    ValidHrp(hrp) && Lower(hrp) == hrp && (text == Encoding(hrp, data) || text == Upper(Encoding(hrp, data)))
  }

  lemma LowerAppend(a: string, b: string)
    requires Lower(a) == a && Lower(b) == b
    ensures Lower(a + b) == a + b
  {
    forall i | 0 <= i < |a + b| ensures Lower(a + b)[i] == (a + b)[i] {
      if i < |a| {
        assert Lower(a)[i] == a[i];
      } else {
        assert Lower(b)[i - |a|] == b[i - |a|];
      }
    }
  }

  lemma CharsAreLower(words: seq<Word>)
    ensures Lower(Chars(words)) == Chars(words)
  {
    forall i | 0 <= i < |words| ensures Lower(Chars(words))[i] == Chars(words)[i] {
      AlphabetPlain(words[i]);
    }
  }

  lemma AssembledIsLower(hrp: string, words: seq<Word>)
    requires Lower(hrp) == hrp
    ensures Lower(Assemble(hrp, words)) == Assemble(hrp, words)
  {
    assert Lower("1") == "1";
    LowerAppend(hrp, "1");
    CharsAreLower(words);
    LowerAppend(hrp + "1", Chars(words));
  }

  /** Only a single-case text whose lower case is `lower` spells it in either case. */
  lemma SpelledIff(text: string, lower: string)
    requires Lower(lower) == lower
    ensures text == lower || text == Upper(lower) <==> !(HasLower(text) && HasUpper(text)) && Lower(text) == lower
  {
    SingleCase(text);
    SingleCase(lower);
  }

  /** Assembling under a lower-case prefix, seen from a text in either case. */
  lemma AssembledSpelledIff(text: string, hrp: string, words: seq<Word>, lower: string)
    requires lower == Assemble(hrp, words)
    ensures Lower(hrp) == hrp && (text == lower || text == Upper(lower)) <==> !(HasLower(text) && HasUpper(text)) && Lower(text) == lower
  {
    hide Lower, Upper, HasLower, HasUpper, Chars;
    if Lower(hrp) == hrp {
      AssembledIsLower(hrp, words);
      SpelledIff(text, lower);
    } else if Lower(text) == lower {
      SingleCase(text);
      PrefixIsLower(lower, hrp, "1" + Chars(words));
    }
  }

  /** Only a single-case text whose lower case is an encoding spells it. */
  lemma SpellsIff(text: string, hrp: string, data: Bytes)
    ensures Spells(text, hrp, data) <==> !(HasLower(text) && HasUpper(text)) && IsEncoding(Lower(text), hrp, data)
  {
    AssembledSpelledIff(text, hrp, EncodingWords(hrp, data), Encoding(hrp, data));
  }

  lemma PrefixIsLower(s: string, a: string, b: string)
    requires s == a + b && Lower(s) == s
    ensures Lower(a) == a
  {
    forall i | 0 <= i < |a| ensures Lower(a)[i] == a[i] {
      assert Lower(s)[i] == s[i];
    }
  }

  lemma FindLastUnique(s: string, c: char, i: nat)
    requires i < |s| && s[i] == c && forall j :: i < j < |s| ==> s[j] != c
    ensures FindLast(s, c) == i
  {
  }

  lemma SeparatorAt(hrp: string, tail: string, s: string)
    requires s == hrp + "1" + tail
    ensures |s| == |hrp| + 1 + |tail| && s[|hrp|] == '1' && s[|hrp| + 1..] == tail && s[..|hrp|] == hrp
  {
    var head := hrp + "1";
    assert s[..|head|] == head && s[|head|..] == tail;
    assert head[..|hrp|] == hrp && head[|hrp|] == '1';
  }

  lemma LastSeparator(hrp: string, tail: string)
    requires forall j :: 0 <= j < |tail| ==> tail[j] != '1'
    ensures FindLast(hrp + "1" + tail, '1') == |hrp|
  {
    hide FindLast;
    var s := hrp + "1" + tail;
    SeparatorAt(hrp, tail, s);
    forall j | |hrp| < j < |s| ensures s[j] != '1' {
      assert s[|hrp| + 1..][j - |hrp| - 1] == tail[j - |hrp| - 1];
    }
    FindLastUnique(s, '1', |hrp|);
  }

  lemma CharsInjective(a: seq<Word>, b: seq<Word>)
    requires Chars(a) == Chars(b)
    ensures a == b
  {
    forall i | 0 <= i < |a| ensures a[i] == b[i] {
      assert Chars(a)[i] == Chars(b)[i];
      AlphabetDistinct(a[i], b[i]);
    }
  }

  /** Words with a valid checksum that regroup `data` are the ones encoding writes. */
  lemma WordsOfEncoding(hrp: string, data: Bytes, payload: seq<Word>, check: seq<Word>)
    requires |check| == 6
    ensures payload + check == EncodingWords(hrp, data) <==> ValidChecksum(hrp, payload + check) && Regroups(data, payload)
  {
    var w := ToWords(data);
    ChecksumWordsUnique(hrp, payload, check);
    RegroupedAreToWords(data, payload);
    SplitEqual(payload, check, w, ChecksumWords(hrp, w));
  }

  lemma RegroupedAreToWords(data: Bytes, words: seq<Word>)
    ensures Regroups(data, words) <==> words == ToWords(data)
  {
    if Regroups(data, words) {
      RegroupsUnique(data, words, data, ToWords(data));
    }
  }

  lemma SplitEqual(a: seq<Word>, b: seq<Word>, a': seq<Word>, b': seq<Word>)
    requires |b| == |b'|
    ensures a + b == a' + b' <==> a == a' && b == b'
  {
    if a + b == a' + b' {
      assert a == (a + b)[..|a|] && b == (a + b)[|a|..];
    }
  }

  /** The last '1' of an assembled text ends its prefix, and alphabet characters follow. */
  lemma AssembledShape(hrp: string, words: seq<Word>)
    ensures var s := Assemble(hrp, words);
            && FindLast(s, '1') == |hrp|
            && |s| - |hrp| - 1 == |words|
            && s[|hrp| + 1..] == Chars(words)
            && s[..|hrp|] == hrp
  {
    forall j | 0 <= j < |words| ensures Chars(words)[j] != '1' {
      AlphabetPlain(words[j]);
    }
    hide FindLast, Chars;
    LastSeparator(hrp, Chars(words));
    SeparatorAt(hrp, Chars(words), Assemble(hrp, words));
  }

  /** The words that `chars` spell, or None at the first character outside the alphabet. */
  method LookUp(chars: string) returns (r: Option<seq<Word>>)
    ensures r.Some? ==> Chars(r.value) == chars
    ensures r.None? ==> forall words :: Chars(words) != chars
  {
    var words: seq<Word> := [];
    for i := 0 to |chars|
      invariant Chars(words) == chars[..i]
    {
      var v := Find(ALPHABET, chars[i], 0);
      if v == -1 {
        forall words' ensures Chars(words') != chars {
          assert |words'| == |chars| ==> Chars(words')[i] == ALPHABET[words'[i]];
        }
        return None;
      }
      words := words + [v];
    }
    assert chars[..|chars|] == chars;
    return Some(words);
  }

  /** Splits at the last '1', looks up every character after it, checks and regroups. */
  method DecodeLower(s: string) returns (r: Option<(string, Bytes)>)
    ensures r.Some? ==> IsEncoding(s, r.value.0, r.value.1)
    ensures forall hrp, data :: IsEncoding(s, hrp, data) ==> r == Some((hrp, data))
  {
    var sep := FindLast(s, '1');
    forall hrp, data | IsEncoding(s, hrp, data)
      ensures sep == |hrp| && hrp == s[..sep] && s[sep + 1..] == Chars(EncodingWords(hrp, data))
    {
      AssembledShape(hrp, EncodingWords(hrp, data));
    }
    if sep < 1 || |s| - sep - 1 < 6 {
      return None;
    }
    var hrp := s[..sep];
    for i := 0 to |hrp|
      invariant forall k :: 0 <= k < i ==> ValidHrpChar(hrp[k])
    {
      if !ValidHrpChar(hrp[i]) {
        return None;
      }
    }
    var words := LookUp(s[sep + 1..]);
    if words.None? {
      return None;
    }
    r := DecodeWords(s, hrp, words.value);
  }

  method DecodeWords(s: string, hrp: string, words: seq<Word>) returns (r: Option<(string, Bytes)>)
    requires ValidHrp(hrp) && |words| >= 6 && s == Assemble(hrp, words)
    ensures r.Some? ==> IsEncoding(s, r.value.0, r.value.1)
    ensures forall hrp', data :: IsEncoding(s, hrp', data) ==> r == Some((hrp', data))
  {
    var payload, check := words[..|words| - 6], words[|words| - 6..];
    assert words == payload + check;
    forall hrp', data
      ensures IsEncoding(s, hrp', data) <==> hrp' == hrp && ValidChecksum(hrp, words) && Regroups(data, payload)
    {
      AssembledEqual(hrp, words, hrp', EncodingWords(hrp', data));
      WordsOfEncoding(hrp, data, payload, check);
    }
    var valid := ChecksumValid(hrp, words);
    if !valid {
      return None;
    }
    var data := WordsToBytes(payload);
    if data.None? {
      return None;
    }
    return Some((hrp, data.value));
  }

  lemma AssembledEqual(hrp: string, words: seq<Word>, hrp': string, words': seq<Word>)
    ensures Assemble(hrp, words) == Assemble(hrp', words') <==> hrp == hrp' && words == words'
  {
    AssembledShape(hrp, words);
    AssembledShape(hrp', words');
    if Assemble(hrp, words) == Assemble(hrp', words') {
      CharsInjective(words, words');
    }
  }

  /** Decoding accepts exactly the lower-case and upper-case spellings of an encoding. */
  method DecodeNoLimit(text: string) returns (r: Option<(string, Bytes)>)
    requires IsAscii(text)
    ensures r.Some? ==> Spells(text, r.value.0, r.value.1)
    ensures forall hrp, data :: Spells(text, hrp, data) ==> r == Some((hrp, data))
  {
    forall hrp, data
      ensures Spells(text, hrp, data) <==> !(HasLower(text) && HasUpper(text)) && IsEncoding(Lower(text), hrp, data)
    {
      SpellsIff(text, hrp, data);
    }
    if |text| == 0 {
      return None;
    }
    if HasLower(text) && HasUpper(text) {
      return None;
    }
    r := DecodeLower(Lower(text));
  }
}
