/** The identity seed's two text forms, and the age-style recipient strings, on top of Bech32. */
module SeedEncoding {
  import opened Wrappers
  import opened ByteStrings
  import Hex
  import opened Bech32

  const SEED_HRP: string := "l309-seed-"
  const X25519_HRP: string := "age"
  const XWING_HRP: string := "age1pqc"
  const SEED_LENGTH: nat := 32

  datatype SeedError = InvalidSeedLength | MixedCase | BadChecksum | WrongHrp | WrongLength | Unrecognized

  // ----- white space ---------------------------------------------------------------

  /** The ASCII characters that Python's `str.split` and `str.strip` treat as white space. */
  predicate IsSpace(c: char) { 9 <= c as int <= 13 || 28 <= c as int <= 32 }

  function StripLeft(s: string): (r: string)
    ensures forall c :: c in r ==> c in s
  {
    if s != "" && IsSpace(s[0]) then StripLeft(s[1..]) else s
  }

  function StripRight(s: string): (r: string)
    ensures forall c :: c in r ==> c in s
  {
    if s != "" && IsSpace(s[|s| - 1]) then StripRight(s[..|s| - 1]) else s
  }

  function Strip(s: string): (r: string)
    ensures forall c :: c in r ==> c in s
  {
    StripRight(StripLeft(s))
  }

  /** `"".join(s.split())`. */
  function WithoutSpaces(s: string): (r: string)
    ensures forall c :: c in s && !IsSpace(c) ==> c in r
  {
    if s == "" then ""
    else
      var rest := WithoutSpaces(s[1..]);
      assert s == [s[0]] + s[1..];
      if IsSpace(s[0]) then rest else [s[0]] + rest
  }

  // ----- the hex form --------------------------------------------------------------

  /** The text without white space and without one leading `0x`. */
  function HexBody(text: string): string {
    var compact := WithoutSpaces(text);
    if |compact| >= 2 && compact[0] == '0' && (compact[1] == 'x' || compact[1] == 'X') then compact[2..] else compact
  }

  predicate AllHexDigits(s: string) {
    forall i :: 0 <= i < |s| ==> Hex.DigitValue(s[i]) != -1
  }

  predicate LooksHex(text: string) {
    HexBody(text) != "" && AllHexDigits(HexBody(text))
  }

  // ----- what is accepted ----------------------------------------------------------

  predicate HexForm(text: string, seed: Bytes) {
    |seed| == SEED_LENGTH && Hex.Spells(HexBody(text), seed)
  }

  predicate SeedForm(text: string, seed: Bytes) {
    |seed| == SEED_LENGTH && Spells(Strip(text), SEED_HRP, seed)
  }

  predicate ClaimsSeedPrefix(s: string) {
    |s| >= 11 && Lower(s[..11]) == "l309-seed-1"
  }

  lemma SeedHrpPlain()
    ensures ValidHrp(SEED_HRP) && Lower(SEED_HRP) == SEED_HRP && SEED_HRP[4] == '-'
  {
    forall i | 0 <= i < |SEED_HRP| ensures ValidHrpChar(SEED_HRP[i]) && LowerChar(SEED_HRP[i]) == SEED_HRP[i] {
      assert i in {0, 1, 2, 3, 4, 5, 6, 7, 8, 9};
    }
  }

  /** A text in the Bech32 form keeps its hyphen, so it never looks like hex. */
  lemma SeedFormNotHex(text: string, data: Bytes)
    requires Spells(Strip(text), SEED_HRP, data)
    ensures !LooksHex(text)
  {
    hide Encoding;
    SeedHrpPlain();
    var e, s := Encoding(SEED_HRP, data), Strip(text);
    HyphenAt(SEED_HRP, data);
    assert UpperChar('-') == '-';
    assert s[4] == '-';
    assert '-' in text && !IsSpace('-');
    var compact := WithoutSpaces(text);
    assert '-' in compact;
    var k :| 0 <= k < |compact| && compact[k] == '-';
    var body := HexBody(text);
    assert body == compact || (k >= 2 && body[k - 2] == '-');
    assert Hex.DigitValue('-') == -1;
  }

  lemma HyphenAt(hrp: string, data: Bytes)
    requires hrp == SEED_HRP
    ensures |Encoding(hrp, data)| > 4 && Encoding(hrp, data)[4] == '-'
  {
    hide EncodingWords, Chars;
    var rest := "1" + Chars(EncodingWords(hrp, data));
    assert Encoding(hrp, data) == hrp + rest;
  }

  lemma HexBodySpelled(body: string, seed: Bytes)
    requires Hex.Spells(body, seed) && seed != []
    ensures body != "" && AllHexDigits(body) && |body| == 2 * |seed|
  {
    forall i | 0 <= i < |body| ensures Hex.DigitValue(body[i]) != -1 {
      var h := i / 2;
      assert i == 2 * h || i == 2 * h + 1;
      assert Hex.IsDigitOf(body[2 * h], seed[h] / 16) && Hex.IsDigitOf(body[2 * h + 1], seed[h] % 16);
    }
  }

  // ----- encoding and parsing ------------------------------------------------------

  method EncodeIdentitySeed(seed: Bytes) returns (r: Result<string, SeedError>)
    ensures |seed| != SEED_LENGTH ==> r == Err(InvalidSeedLength)
    ensures |seed| == SEED_LENGTH ==> r == Ok(Upper(Encoding(SEED_HRP, seed)))
  {
    if |seed| != SEED_LENGTH {
      return Err(InvalidSeedLength);
    }
    SeedHrpPlain();
    assert IsAscii(SEED_HRP);
    var encoded := EncodeNoLimit(SEED_HRP, seed);
    return Ok(Upper(encoded.value));
  }

  ghost predicate NothingSpelled(s: string) {
    forall hrp, data :: !Spells(s, hrp, data)
  }

  /** The Bech32 branch, for a text already stripped. */
  method ParseBechSeed(candidate: string) returns (r: Result<Bytes, SeedError>)
    requires IsAscii(candidate)
    ensures forall seed :: r == Ok(seed) <==> |seed| == SEED_LENGTH && Spells(candidate, SEED_HRP, seed)
    ensures r == Err(MixedCase) <==> ClaimsSeedPrefix(candidate) && HasLower(candidate) && HasUpper(candidate)
    ensures r == Err(BadChecksum) <==>
      ClaimsSeedPrefix(candidate) && !(HasLower(candidate) && HasUpper(candidate)) && NothingSpelled(candidate)
    ensures r == Err(Unrecognized) <==> !ClaimsSeedPrefix(candidate) && NothingSpelled(candidate)
  {
    hide Encoding, Upper, Lower;
    var claimed := ClaimsSeedPrefix(candidate);
    if claimed && HasLower(candidate) && HasUpper(candidate) {
      MixedSpellsNothing(candidate);
      return Err(MixedCase);
    }
    var decoded := DecodeNoLimit(candidate);
    if decoded.None? {
      return Err(if claimed then BadChecksum else Unrecognized);
    }
    var (hrp, payload) := decoded.value;
    if hrp != SEED_HRP {
      return Err(WrongHrp);
    }
    if |payload| != SEED_LENGTH {
      return Err(WrongLength);
    }
    return Ok(payload);
  }

  lemma MixedSpellsNothing(s: string)
    requires HasLower(s) && HasUpper(s)
    ensures NothingSpelled(s)
  {
    forall hrp, data ensures !Spells(s, hrp, data) {
      SpellsIff(s, hrp, data);
    }
  }

  lemma StripAscii(text: string)
    requires IsAscii(text)
    ensures IsAscii(Strip(text))
  {
    forall i | 0 <= i < |Strip(text)| ensures Strip(text)[i] as int < 128 {
      assert Strip(text)[i] in text;
    }
  }

  /** Accepts exactly the hex and the Bech32 spellings of a 32-byte seed. */
  method ParseIdentitySeed(text: string) returns (r: Result<Bytes, SeedError>)
    requires IsAscii(text)
    ensures forall seed :: r == Ok(seed) <==> HexForm(text, seed) || SeedForm(text, seed)
    ensures LooksHex(text) ==> (r == Err(WrongLength) <==> |HexBody(text)| != 64)
    ensures r == Err(MixedCase) <==> !LooksHex(text) && ClaimsSeedPrefix(Strip(text)) && HasLower(Strip(text)) && HasUpper(Strip(text))
    ensures r == Err(BadChecksum) <==>
      && !LooksHex(text)
      && ClaimsSeedPrefix(Strip(text))
      && !(HasLower(Strip(text)) && HasUpper(Strip(text)))
      && NothingSpelled(Strip(text))
    ensures r == Err(Unrecognized) <==> !LooksHex(text) && !ClaimsSeedPrefix(Strip(text)) && NothingSpelled(Strip(text))
  {
    hide Spells, Strip, HexBody, ClaimsSeedPrefix, HasLower, HasUpper, NothingSpelled;
    forall seed: Bytes | SeedForm(text, seed) ensures !LooksHex(text) {
      SeedFormNotHex(text, seed);
    }
    forall seed: Bytes | HexForm(text, seed) ensures LooksHex(text) && |HexBody(text)| == 64 {
      HexBodySpelled(HexBody(text), seed);
    }
    var body := HexBody(text);
    if body != "" && AllHexDigits(body) {
      if |body| != 64 {
        return Err(WrongLength);
      }
      forall seed: Bytes ensures Hex.Decode(body) == Some(seed) <==> Hex.Spells(body, seed) {
        Hex.DecodesExactly(body, seed);
      }
      return Ok(Hex.Decode(body).value);
    }
    StripAscii(text);
    r := ParseBechSeed(Strip(text));
  }

  // ----- round trip ----------------------------------------------------------------

  lemma NoSpaceStrip(s: string)
    requires s != "" && !IsSpace(s[0]) && !IsSpace(s[|s| - 1])
    ensures Strip(s) == s
  {
  }

  lemma LastCharIsAlphabet(hrp: string, data: Bytes)
    ensures |Encoding(hrp, data)| > 0
    ensures exists w: int :: 0 <= w < 32 && Encoding(hrp, data)[|Encoding(hrp, data)| - 1] == ALPHABET[w]
  {
    hide EncodingWords;
    var words := EncodingWords(hrp, data);
    EncodingHasWords(hrp, data);
    var n := |words| - 1;
    assert Encoding(hrp, data)[|Encoding(hrp, data)| - 1] == Chars(words)[n];
    assert Chars(words)[n] == ALPHABET[words[n]];
  }

  lemma EncodingHasWords(hrp: string, data: Bytes)
    ensures |EncodingWords(hrp, data)| >= 6
  {
  }

  lemma FirstCharOf(hrp: string, data: Bytes)
    requires hrp != ""
    ensures |Encoding(hrp, data)| > 0 && Encoding(hrp, data)[0] == hrp[0]
  {
    hide EncodingWords, Chars;
    var rest := "1" + Chars(EncodingWords(hrp, data));
    assert Encoding(hrp, data) == hrp + rest;
  }

  lemma AlphabetNoSpace(w: int)
    requires 0 <= w < 32
    ensures !IsSpace(ALPHABET[w]) && !IsSpace(UpperChar(ALPHABET[w]))
  {
  }

  /** The displayed form of a seed, and its lower case, are accepted as that seed. */
  lemma DisplayedSeedAccepted(seed: Bytes)
    requires |seed| == SEED_LENGTH
    ensures SeedForm(Upper(Encoding(SEED_HRP, seed)), seed) && SeedForm(Encoding(SEED_HRP, seed), seed)
  {
    hide Encoding;
    SeedHrpPlain();
    var e := Encoding(SEED_HRP, seed);
    LastCharIsAlphabet(SEED_HRP, seed);
    var w: int :| 0 <= w < 32 && e[|e| - 1] == ALPHABET[w];
    AlphabetNoSpace(w);
    FirstCharOf(SEED_HRP, seed);
    assert !IsSpace('l') && !IsSpace(UpperChar('l'));
    NoSpaceStrip(e);
    NoSpaceStrip(Upper(e));
  }

  // ----- white space and the hex prefix around a seed --------------------------------

  predicate AllSpaces(s: string) {
    forall i :: 0 <= i < |s| ==> IsSpace(s[i])
  }

  lemma {:induction false} StripLeftIs(a: string, s: string)
    requires AllSpaces(a) && (s == "" || !IsSpace(s[0]))
    ensures StripLeft(a + s) == s
    decreases |a|
  {
    if a == "" {
      assert a + s == s;
    } else {
      assert (a + s)[1..] == a[1..] + s;
      StripLeftIs(a[1..], s);
    }
  }

  lemma {:induction false} StripRightIs(s: string, b: string)
    requires AllSpaces(b) && (s == "" || !IsSpace(s[|s| - 1]))
    ensures StripRight(s + b) == s
    decreases |b|
  {
    if b == "" {
      assert s + b == s;
    } else {
      assert (s + b)[..|s + b| - 1] == s + b[..|b| - 1];
      StripRightIs(s, b[..|b| - 1]);
    }
  }

  lemma {:induction false} StripLeftParts(s: string) returns (a: string)
    ensures AllSpaces(a) && s == a + StripLeft(s) && (StripLeft(s) == "" || !IsSpace(StripLeft(s)[0]))
    decreases |s|
  {
    if s != "" && IsSpace(s[0]) {
      var rest := StripLeftParts(s[1..]);
      a := [s[0]] + rest;
    } else {
      a := "";
    }
  }

  lemma {:induction false} StripRightParts(s: string) returns (b: string)
    ensures AllSpaces(b) && s == StripRight(s) + b && (StripRight(s) == "" || !IsSpace(StripRight(s)[|StripRight(s)| - 1]))
    decreases |s|
  {
    if s != "" && IsSpace(s[|s| - 1]) {
      var rest := StripRightParts(s[..|s| - 1]);
      b := rest + [s[|s| - 1]];
      assert s == s[..|s| - 1] + [s[|s| - 1]];
    } else {
      b := "";
    }
  }

  /** Stripping removes white space at both ends, all of it, and nothing else. */
  lemma StripIff(text: string, s: string)
    requires s != "" && !IsSpace(s[0]) && !IsSpace(s[|s| - 1])
    ensures Strip(text) == s <==> exists a, b :: AllSpaces(a) && AllSpaces(b) && text == a + (s + b)
  {
    hide StripLeft, StripRight;
    if Strip(text) == s {
      var a := StripLeftParts(text);
      var b := StripRightParts(StripLeft(text));
      assert text == a + (s + b);
    }
    if a, b :| AllSpaces(a) && AllSpaces(b) && text == a + (s + b) {
      StripLeftIs(a, s + b);
      StripRightIs(s, b);
    }
  }

  lemma SpelledEnds(s: string, data: Bytes)
    requires Spells(s, SEED_HRP, data)
    ensures s != "" && !IsSpace(s[0]) && !IsSpace(s[|s| - 1])
  {
    hide Encoding;
    var e := Encoding(SEED_HRP, data);
    LastCharIsAlphabet(SEED_HRP, data);
    var w: int :| 0 <= w < 32 && e[|e| - 1] == ALPHABET[w];
    AlphabetNoSpace(w);
    FirstCharOf(SEED_HRP, data);
    assert !IsSpace('l') && !IsSpace(UpperChar('l'));
  }

  /** `text` is `s` with white space around it. */
  ghost predicate Surrounds(text: string, s: string) {
    exists a, b :: AllSpaces(a) && AllSpaces(b) && text == a + (s + b)
  }

  /** The Bech32 form: one of the two spellings of the seed, with any white space around it. */
  lemma SeedFormIff(text: string, seed: Bytes)
    ensures SeedForm(text, seed) <==> |seed| == 32 && exists s :: Spells(s, SEED_HRP, seed) && Surrounds(text, s)
  {
    hide Spells, Strip;
    forall s | Spells(s, SEED_HRP, seed) ensures Strip(text) == s <==> Surrounds(text, s) {
      SpelledEnds(s, seed);
      StripIff(text, s);
    }
  }

  /** A white-space character is dropped wherever it stands, and any other kept. */
  lemma {:induction false} SpacesDropped(a: string, c: char, b: string)
    ensures WithoutSpaces(a + [c] + b)
            == if IsSpace(c) then WithoutSpaces(a + b) else WithoutSpaces(a) + [c] + WithoutSpaces(b)
    decreases |a|
  {
    if a == "" {
      assert (a + [c] + b)[1..] == b && a + b == b;
    } else {
      assert (a + [c] + b)[1..] == a[1..] + [c] + b && (a + b)[1..] == a[1..] + b;
      SpacesDropped(a[1..], c, b);
    }
  }

  /** Behind an optional `0x` or `0X`. */
  predicate MaybePrefixed(compact: string, body: string) {
    compact == body || compact == "0x" + body || compact == "0X" + body
  }

  /** The hex form: 64 digits of either case, with white space anywhere and an optional prefix. */
  lemma HexFormIff(text: string, seed: Bytes)
    ensures HexForm(text, seed)
            <==> |seed| == 32 && exists body :: Hex.Spells(body, seed) && MaybePrefixed(WithoutSpaces(text), body)
  {
    hide WithoutSpaces;
    var compact, body := WithoutSpaces(text), HexBody(text);
    if HexForm(text, seed) {
      assert compact == body || compact == compact[..2] + compact[2..];
      assert MaybePrefixed(compact, body);
    }
    if |seed| == 32 {
      forall other | Hex.Spells(other, seed) && MaybePrefixed(compact, other) ensures other == body {
        assert Hex.IsDigitOf(other[2 * 0], seed[0] / 16) && Hex.IsDigitOf(other[2 * 0 + 1], seed[0] % 16);
        assert Hex.DigitValue('x') == -1 && Hex.DigitValue('X') == -1;
        assert ("0x" + other)[2..] == other && ("0X" + other)[2..] == other;
      }
    }
  }

  // ----- recipients ----------------------------------------------------------------

  datatype Recipient = X25519Recipient(key: Bytes) | XWingRecipient(key: Bytes)

  function HrpOf(r: Recipient): string {
    if r.X25519Recipient? then X25519_HRP else XWING_HRP
  }

  predicate KeySized(r: Recipient) {
    |r.key| == if r.X25519Recipient? then 32 else 1216
  }

  lemma RecipientHrpsPlain()
    ensures ValidHrp(X25519_HRP) && Lower(X25519_HRP) == X25519_HRP
    ensures ValidHrp(XWING_HRP) && Lower(XWING_HRP) == XWING_HRP
  {
  }

  method EncodeRecipient(r: Recipient) returns (text: Option<string>)
    ensures text.Some? <==> KeySized(r)
    ensures text.Some? ==> text.value == Encoding(HrpOf(r), r.key)
  {
    if !KeySized(r) {
      return None;
    }
    RecipientHrpsPlain();
    text := EncodeNoLimit(HrpOf(r), r.key);
  }

  /** Routes on the decoded prefix; accepts exactly the spellings of a recipient of the right key size. */
  method ParseAgeRecipient(text: string) returns (r: Option<Recipient>)
    requires IsAscii(text)
    ensures forall x :: r == Some(x) <==> KeySized(x) && Spells(Strip(text), HrpOf(x), x.key)
  {
    hide Spells, Strip;
    StripAscii(text);
    var decoded := DecodeNoLimit(Strip(text));
    if decoded.None? {
      return None;
    }
    var (hrp, data) := decoded.value;
    if hrp == X25519_HRP {
      return if |data| == 32 then Some(X25519Recipient(data)) else None;
    }
    if hrp == XWING_HRP {
      return if |data| == 1216 then Some(XWingRecipient(data)) else None;
    }
    return None;
  }

  /** Parsing takes back every encoded recipient, in either case. */
  lemma EncodedRecipientAccepted(r: Recipient)
    requires KeySized(r)
    ensures Spells(Strip(Encoding(HrpOf(r), r.key)), HrpOf(r), r.key)
    ensures Spells(Strip(Upper(Encoding(HrpOf(r), r.key))), HrpOf(r), r.key)
  {
    hide Encoding;
    RecipientHrpsPlain();
    var e := Encoding(HrpOf(r), r.key);
    LastCharIsAlphabet(HrpOf(r), r.key);
    var w: int :| 0 <= w < 32 && e[|e| - 1] == ALPHABET[w];
    AlphabetNoSpace(w);
    FirstCharOf(HrpOf(r), r.key);
    assert !IsSpace('a') && !IsSpace(UpperChar('a'));
    NoSpaceStrip(e);
    NoSpaceStrip(Upper(e));
  }
}
