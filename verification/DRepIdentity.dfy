/**
 * The forms of a DRep id (hex, CIP-105, CIP-129 for keys and scripts) and the conversions between
 * them.
 */
module DRepIdentity {
  import opened Basics
  import opened Bech32

  // ----- Buffer.from(s, 'hex') and toString('hex')

  type Nibble = bv4

  function HexChar(n: Nibble): char {
    if n == 0 then '0' else if n == 1 then '1' else if n == 2 then '2' else if n == 3 then '3'
    else if n == 4 then '4' else if n == 5 then '5' else if n == 6 then '6' else if n == 7 then '7'
    else if n == 8 then '8' else if n == 9 then '9' else if n == 10 then 'a' else if n == 11 then 'b'
    else if n == 12 then 'c' else if n == 13 then 'd' else if n == 14 then 'e' else 'f'
  }

  function NibbleOf(c: char): Option<Nibble> {
    if c == '0' then Some(0) else if c == '1' then Some(1) else if c == '2' then Some(2) else if c == '3' then Some(3)
    else if c == '4' then Some(4) else if c == '5' then Some(5) else if c == '6' then Some(6)
    else if c == '7' then Some(7)
    else if c == '8' then Some(8) else if c == '9' then Some(9) else if c == 'a' || c == 'A' then Some(10)
    else if c == 'b' || c == 'B' then Some(11) else if c == 'c' || c == 'C' then Some(12)
    else if c == 'd' || c == 'D' then Some(13) else if c == 'e' || c == 'E' then Some(14)
    else if c == 'f' || c == 'F' then Some(15) else None
  }

  function HighNibble(b: Byte): Nibble {
    (b >> 4) as Nibble
  }

  function LowNibble(b: Byte): Nibble {
    (b & 15) as Nibble
  }

  function JoinNibbles(high: Nibble, low: Nibble): Byte {
    ((high as Byte) << 4) | (low as Byte)
  }

  function HexOf(bytes: seq<Byte>): (s: string)
    ensures |s| == 2 * |bytes|
  {
    if bytes == [] then "" else [HexChar(HighNibble(bytes[0])), HexChar(LowNibble(bytes[0]))] + HexOf(bytes[1..])
  }

  /** Pairs of hex digits up to the first pair that is not one; an odd last digit is dropped. */
  function BytesOf(s: string): seq<Byte> {
    if |s| < 2 then []
    else
      match (NibbleOf(s[0]), NibbleOf(s[1]))
      case (Some(h), Some(l)) => [JoinNibbles(h, l)] + BytesOf(s[2..])
      case _ => []
  }

  lemma NibbleRoundTrip(n: Nibble, b: Byte)
    ensures NibbleOf(HexChar(n)) == Some(n) && HexChar(n) !in {'r', 'R', 'n', 'N'}
    ensures JoinNibbles(HighNibble(b), LowNibble(b)) == b
  {
  }

  lemma {:induction false} HexRoundTrip(bytes: seq<Byte>)
    ensures BytesOf(HexOf(bytes)) == bytes
    ensures bytes != [] ==> HexOf(bytes)[1] != 'r'
  {
    hide HexChar, NibbleOf, JoinNibbles, HighNibble, LowNibble;
    if bytes != [] {
      var s := HexOf(bytes);
      NibbleRoundTrip(HighNibble(bytes[0]), bytes[0]);
      NibbleRoundTrip(LowNibble(bytes[0]), bytes[0]);
      assert s[2..] == HexOf(bytes[1..]);
      HexRoundTrip(bytes[1..]);
      assert bytes == [bytes[0]] + bytes[1..];
    }
  }

  /** A byte is written as its high and then its low digit, in lower case. */
  lemma HexDigits(high: Nibble, low: Nibble)
    ensures HexOf([JoinNibbles(high, low)]) == [DigitChar(high), DigitChar(low)]
  {
    assert HighNibble(JoinNibbles(high, low)) == high && LowNibble(JoinNibbles(high, low)) == low;
    HexCharIs(high);
    HexCharIs(low);
    hide HexChar, JoinNibbles, HighNibble, LowNibble, DigitChar;
    assert [JoinNibbles(high, low)][1..] == [];
  }

  function DigitChar(n: Nibble): char {
    "0123456789abcdef"[n as int]
  }

  lemma HexCharIs(n: Nibble)
    ensures HexChar(n) == DigitChar(n)
  {
  }

  predicate IsHexDigit(c: char) {
    c in "0123456789abcdefABCDEF"
  }

  /** Reading ends, without an error, before the first pair that is not two hex digits, or at an odd last digit. */
  lemma {:induction false} HexEnds(bytes: seq<Byte>, tail: string)
    requires |tail| < 2 || !IsHexDigit(tail[0]) || !IsHexDigit(tail[1])
    ensures BytesOf(HexOf(bytes) + tail) == bytes
  {
    if bytes == [] {
      assert HexOf(bytes) + tail == tail;
      if |tail| >= 2 {
        OnlyDigits(tail[0]);
        OnlyDigits(tail[1]);
      }
    } else {
      hide HexChar, NibbleOf, JoinNibbles, HighNibble, LowNibble;
      NibbleRoundTrip(HighNibble(bytes[0]), bytes[0]);
      NibbleRoundTrip(LowNibble(bytes[0]), bytes[0]);
      assert (HexOf(bytes) + tail)[2..] == HexOf(bytes[1..]) + tail;
      HexEnds(bytes[1..], tail);
      assert bytes == [bytes[0]] + bytes[1..];
    }
  }

  lemma OnlyDigits(c: char)
    ensures NibbleOf(c).Some? <==> IsHexDigit(c)
  {
  }

  /** Digits in upper case are read as well. */
  lemma {:induction false} UpperHexRoundTrip(bytes: seq<Byte>)
    ensures BytesOf(Upper(HexOf(bytes))) == bytes
  {
    if bytes == [] {
      assert Upper(HexOf(bytes)) == "";
    } else {
      var s := Upper(HexOf(bytes));
      UpperNibble(HighNibble(bytes[0]));
      UpperNibble(LowNibble(bytes[0]));
      NibbleRoundTrip(0, bytes[0]);
      assert s[2..] == Upper(HexOf(bytes[1..]));
      UpperHexRoundTrip(bytes[1..]);
      assert bytes == [bytes[0]] + bytes[1..];
      hide HexChar, NibbleOf, JoinNibbles, HighNibble, LowNibble, UpperChar;
    }
  }

  lemma UpperNibble(n: Nibble)
    ensures NibbleOf(UpperChar(HexChar(n))) == Some(n)
  {
  }

  lemma {:induction false} HexConcat(a: seq<Byte>, b: seq<Byte>)
    ensures HexOf(a + b) == HexOf(a) + HexOf(b)
  {
    hide HexChar, HighNibble, LowNibble;
    if a == [] {
      assert a + b == b;
    } else {
      assert (a + b)[1..] == a[1..] + b;
      HexConcat(a[1..], b);
    }
  }

  // ----- the conversions

  /** A JavaScript result that should be a string. */
  datatype Str = Undefined | Thrown | Str(value: string)

  function Returned(r: Option<string>): Str {
    if r.None? then Thrown else Str(r.value)
  }

  /** bech32.decode followed by bech32.fromWords. */
  function DecodeBytes(id: string): Option<(string, seq<Byte>)> {
    match Decode(id)
    case None => None
    case Some((prefix, words)) =>
      match FromWords(words)
      case None => None
      case Some(bytes) => Some((prefix, bytes))
  }

  function FormHexToBech32(dRepID: string): Str {
    if dRepID == "" then Undefined else Returned(Encode("drep", ToWords(BytesOf(dRepID))))
  }

  function FromBech32ToHex(id: string): string {
    match DecodeBytes(id)
    case None => ""
    case Some((_, bytes)) => HexOf(bytes)
  }

  function EncodeCIP129Identifier(txID: string, index: Option<string>, prefix: string): Str {
    var hex := if Truthy(index) then txID + index.value else txID;
    Returned(Encode(prefix, ToWords(BytesOf(hex))))
  }

  datatype Identifier = Identifier(txID: string, index: string, prefix: string)

  /** None is a thrown error. */
  function DecodeCIP129Identifier(id: string): Option<Identifier> {
    match DecodeBytes(id)
    case None => None
    case Some((prefix, bytes)) =>
      var cut := Min(32, |bytes|);
      Some(Identifier(HexOf(bytes[..cut]), HexOf(bytes[cut..]), prefix))
  }

  function ConvertHexToCIP129(isScripted: bool, hexPhrase: string): Str {
    if "drep_always" <= hexPhrase then Str(hexPhrase)
    else
      EncodeCIP129Identifier(
        (if isScripted then "23" else "22") + hexPhrase, None, if isScripted then "drep_script" else "drep")
  }

  function IsCip105(id: string): bool {
    |id| == 56
  }

  /** Drops a CIP-129 header byte. */
  function WithoutHeader(hex: string): string {
    if |hex| == 58 then hex[2..] else hex
  }

  function DRepPhraseProcessor(phrase: string): string {
    if "drep_script" <= phrase || "drep" <= phrase then
      match DecodeCIP129Identifier(phrase)
      case None => phrase
      case Some(id) => WithoutHeader(id.txID)
    else WithoutHeader(phrase)
  }

  function DRepPhraseProcessorLegacy(phrase: string): string {
    if "drep_script" <= phrase || "drep" <= phrase then
      if IsCip105(phrase) then FromBech32ToHex(phrase)
      else
        match DecodeCIP129Identifier(phrase)
        case None => phrase
        case Some(id) => WithoutHeader(id.txID)
    else WithoutHeader(phrase)
  }

  function ConvertDrepPhraseToCIP105(phrase: string): Str {
    if "drep_always" <= phrase then Str(phrase) else FormHexToBech32(DRepPhraseProcessor(phrase))
  }

  function ConvertDrepPhraseToCIP105Legacy(phrase: string): Str {
    if "drep_always" <= phrase then Str(phrase) else FormHexToBech32(DRepPhraseProcessorLegacy(phrase))
  }

  function CompareDRepIDs(a: string, b: string): bool {
    a != "" && b != "" && DRepPhraseProcessor(a) == DRepPhraseProcessor(b)
  }

  // ----- the forms of one 28-byte hash

  predicate IsHash(h: seq<Byte>) {
    |h| == 28
  }

  /** The two prefixes of DRep ids. */
  predicate DRepPrefix(prefix: string) {
    prefix == "drep" || prefix == "drep_script"
  }

  /** A hash alone (CIP-105) or behind a header byte (CIP-129). */
  predicate Carries(bytes: seq<Byte>, h: seq<Byte>) {
    bytes == h || (|bytes| == |h| + 1 && bytes[1..] == h)
  }

  function IdOf(prefix: string, bytes: seq<Byte>): Option<string> {
    Encode(prefix, ToWords(bytes))
  }

  lemma PrefixesAreLower()
    ensures LowerPrefix("drep") && LowerPrefix("drep_script")
  {
    assert Lower("drep") == "drep";
    assert Lower("drep_script") == "drep_script";
  }

  lemma WordCounts(bytes: seq<Byte>)
    ensures |bytes| == 28 ==> |ToWords(bytes)| == 45
    ensures |bytes| == 29 ==> |ToWords(bytes)| == 47
  {
    WordsRoundTrip(bytes);
  }

  /** An id decodes to the prefix and the bytes it was made from. */
  lemma IdDecodes(prefix: string, bytes: seq<Byte>)
    requires DRepPrefix(prefix) && 28 <= |bytes| <= 29
    ensures var id := IdOf(prefix, bytes);
            && id.Some?
            && DecodeBytes(id.value) == Some((prefix, bytes))
            && |id.value| == |prefix| + 7 + (if |bytes| == 28 then 45 else 47)
            && prefix + "1" <= id.value
  {
    PrefixesAreLower();
    WordCounts(bytes);
    WordsRoundTrip(bytes);
    TextRoundTrip(prefix, ToWords(bytes));
    hide Encode, Decode, ToWords, FromWords, LowerPrefix;
  }

  lemma {:induction false} HeaderHex(bytes: seq<Byte>, h: seq<Byte>)
    requires IsHash(h) && Carries(bytes, h)
    ensures WithoutHeader(HexOf(bytes)) == HexOf(h)
  {
    if bytes != h {
      assert bytes == bytes[..1] + h;
      HexConcat(bytes[..1], h);
    }
  }

  /** The longer literals the code tests for also start with "drep". */
  lemma LongerPrefixes(s: string)
    ensures "drep_script" <= s || "drep_always" <= s ==> "drep" <= s
  {
    assert "drep_script"[..4] == "drep" && "drep_always"[..4] == "drep";
    forall t: string | "drep" == t[..Min(4, |t|)] && t <= s ensures "drep" <= s {
      assert s[..|t|] == t;
    }
  }

  lemma StartsLikeDrep(id: string, prefix: string)
    requires DRepPrefix(prefix) && prefix + "1" <= id
    ensures "drep" <= id && !("drep_always" <= id)
  {
    var p := prefix + "1";
    assert id[..|p|] == p;
    if prefix == "drep" {
      assert id[4] == p[4] == '1';
    } else {
      assert id[5] == p[5] == 's';
    }
  }

  lemma DecodedHash(prefix: string, bytes: seq<Byte>, h: seq<Byte>)
    requires DRepPrefix(prefix) && IsHash(h) && Carries(bytes, h)
    ensures var id := IdOf(prefix, bytes);
            && id.Some? && "drep" <= id.value
            && DecodeCIP129Identifier(id.value) == Some(Identifier(HexOf(bytes), "", prefix))
            && WithoutHeader(HexOf(bytes)) == HexOf(h)
            && (|id.value| == 56 ==> FromBech32ToHex(id.value) == HexOf(h))
  {
    assert HexOf([]) == "";
    hide IdOf, DecodeBytes, HexOf, WithoutHeader;
    IdDecodes(prefix, bytes);
    StartsLikeDrep(IdOf(prefix, bytes).value, prefix);
    HeaderHex(bytes, h);
    assert bytes[..|bytes|] == bytes && bytes[|bytes|..] == [];
    if |IdOf(prefix, bytes).value| == 56 { HeaderHex(bytes, h); }
  }

  /** Decoding any bech32 form of a hash, with either processor, gives back the hash. */
  lemma FormsGiveHash(prefix: string, bytes: seq<Byte>, h: seq<Byte>)
    requires DRepPrefix(prefix) && IsHash(h) && Carries(bytes, h)
    ensures var id := IdOf(prefix, bytes);
            && id.Some?
            && DRepPhraseProcessor(id.value) == HexOf(h)
            && DRepPhraseProcessorLegacy(id.value) == HexOf(h)
  {
    DecodedHash(prefix, bytes, h);
    hide IdOf, HexOf, DRepPrefix, Carries, DecodeCIP129Identifier, FromBech32ToHex, WithoutHeader;
  }

  /** So do its hex forms, with and without the header. */
  lemma HexFormsGiveHash(bytes: seq<Byte>, h: seq<Byte>)
    requires IsHash(h) && Carries(bytes, h)
    ensures DRepPhraseProcessor(HexOf(bytes)) == HexOf(h) && DRepPhraseProcessorLegacy(HexOf(bytes)) == HexOf(h)
    ensures !("drep" <= HexOf(bytes))
  {
    HexRoundTrip(bytes);
    HeaderHex(bytes, h);
    SecondLetter(HexOf(bytes));
    LongerPrefixes(HexOf(bytes));
    hide HexOf, WithoutHeader, DecodeCIP129Identifier, FromBech32ToHex, Carries, BytesOf;
  }

  lemma SecondLetter(s: string)
    ensures "drep" <= s ==> s[1] == 'r'
  {
    if "drep" <= s { assert s[..4][1] == 'r'; }
  }

  /** `id` writes the bytes in hex, or as an id with one of the two prefixes. */
  predicate Writes(id: string, bytes: seq<Byte>) {
    id == HexOf(bytes) || IdOf("drep", bytes) == Some(id) || IdOf("drep_script", bytes) == Some(id)
  }

  /** `id` is one of the forms in which the hash h is written, with or without a header byte. */
  ghost predicate IsFormOf(id: string, h: seq<Byte>) {
    exists bytes :: Carries(bytes, h) && Writes(id, bytes)
  }

  /** Both phrase processors turn every form of a hash into its hex digits. */
  lemma ProcessorsGiveHash(id: string, h: seq<Byte>)
    requires IsHash(h) && IsFormOf(id, h)
    ensures DRepPhraseProcessor(id) == HexOf(h) == DRepPhraseProcessorLegacy(id)
    ensures id != "" && !("drep_always" <= id)
  {
    var bytes :| Carries(bytes, h) && Writes(id, bytes);
    if id == HexOf(bytes) {
      HexFormsGiveHash(bytes, h);
      LongerPrefixes(id);
      assert id != "" by { assert |HexOf(bytes)| >= 56; }
    } else {
      var prefix := if IdOf("drep", bytes) == Some(id) then "drep" else "drep_script";
      FormsGiveHash(prefix, bytes, h);
      IdDecodes(prefix, bytes);
      StartsLikeDrep(id, prefix);
    }
    hide DRepPhraseProcessor, DRepPhraseProcessorLegacy, HexOf, IdOf;
  }

  /** The CIP-105 form of a hash. */
  function Cip105(h: seq<Byte>): Str {
    Returned(IdOf("drep", h))
  }

  lemma Cip105Is(h: seq<Byte>)
    requires IsHash(h)
    ensures Cip105(h).Str? && |Cip105(h).value| == 56
    ensures FormHexToBech32(HexOf(h)) == Cip105(h)
    ensures IsFormOf(Cip105(h).value, h)
  {
    IdDecodes("drep", h);
    HexRoundTrip(h);
    hide IdOf, DecodeBytes;
    assert Carries(h, h) && Writes(Cip105(h).value, h);
  }

  /** Converting to CIP-105 gives one string for all forms of a hash, and the same again from that string. */
  lemma ConversionIsCanonical(id: string, h: seq<Byte>)
    requires IsHash(h) && IsFormOf(id, h)
    ensures ConvertDrepPhraseToCIP105(id) == Cip105(h) == ConvertDrepPhraseToCIP105Legacy(id)
    ensures Cip105(h).Str? && ConvertDrepPhraseToCIP105(Cip105(h).value) == Cip105(h)
  {
    Cip105Is(h);
    ProcessorsGiveHash(id, h);
    ProcessorsGiveHash(Cip105(h).value, h);
    hide IsFormOf, DRepPhraseProcessor, DRepPhraseProcessorLegacy, FormHexToBech32, Cip105;
  }

  /** A CIP-105 id has 56 characters; an id with a header byte never does, so length tells them apart. */
  lemma LengthTellsForms(prefix: string, bytes: seq<Byte>, h: seq<Byte>)
    requires DRepPrefix(prefix) && IsHash(h) && Carries(bytes, h)
    ensures IdOf(prefix, bytes).Some? && (IsCip105(IdOf(prefix, bytes).value) <==> prefix == "drep" && bytes == h)
  {
    IdDecodes(prefix, bytes);
    hide IdOf, DecodeBytes;
  }

  lemma HexInjective(a: seq<Byte>, b: seq<Byte>)
    requires HexOf(a) == HexOf(b)
    ensures a == b
  {
    HexRoundTrip(a);
    HexRoundTrip(b);
  }

  /** Two ids in any forms compare equal exactly when they carry the same hash. */
  lemma CompareIsSameHash(a: string, g: seq<Byte>, b: string, h: seq<Byte>)
    requires IsHash(g) && IsHash(h) && IsFormOf(a, g) && IsFormOf(b, h)
    ensures CompareDRepIDs(a, b) <==> g == h
    ensures !CompareDRepIDs("", b) && !CompareDRepIDs(a, "") && !CompareDRepIDs("", "")
  {
    ProcessorsGiveHash(a, g);
    ProcessorsGiveHash(b, h);
    if HexOf(g) == HexOf(h) { HexInjective(g, h); }
  }

  lemma HeaderDigits(header: Byte, text: string)
    requires (header == 0x22 && text == "22") || (header == 0x23 && text == "23")
    ensures HexOf([header]) == text
  {
    assert HexOf([]) == "";
    if header == 0x22 {
      assert HighNibble(0x22) == 2 && LowNibble(0x22) == 2;
    } else {
      assert HighNibble(0x23) == 2 && LowNibble(0x23) == 3;
    }
  }

  lemma Cip129Is(isScripted: bool, h: seq<Byte>)
    requires IsHash(h)
    ensures var prefix, header: Byte := if isScripted then "drep_script" else "drep", if isScripted then 0x23 else 0x22;
            ConvertHexToCIP129(isScripted, HexOf(h)) == Returned(IdOf(prefix, [header] + h))
  {
    var header: Byte := if isScripted then 0x23 else 0x22;
    HeaderDigits(header, if isScripted then "23" else "22");
    HexConcat([header], h);
    HexRoundTrip([header] + h);
    HexFormsGiveHash(h, h);
    LongerPrefixes(HexOf(h));
    hide HexOf, BytesOf, Encode, ToWords;
  }

  /** From hex digits to CIP-129 and back: the id decodes to the header byte and the hash. */
  lemma Cip129RoundTrip(isScripted: bool, h: seq<Byte>)
    requires IsHash(h)
    ensures var id := ConvertHexToCIP129(isScripted, HexOf(h));
            var prefix, header: Byte := if isScripted then "drep_script" else "drep", if isScripted then 0x23 else 0x22;
            && id.Str?
            && DecodeCIP129Identifier(id.value) == Some(Identifier(HexOf([header] + h), "", prefix))
            && DRepPhraseProcessor(id.value) == HexOf(h)
            && ConvertDrepPhraseToCIP105(id.value) == Cip105(h)
  {
    var prefix, header: Byte := if isScripted then "drep_script" else "drep", if isScripted then 0x23 else 0x22;
    var bytes := [header] + h;
    Cip129Is(isScripted, h);
    IdDecodes(prefix, bytes);
    var id := IdOf(prefix, bytes).value;
    assert HexOf([]) == "";
    hide IdOf, HexOf, DecodeBytes;
    assert bytes[1..] == h && bytes[..29] == bytes && bytes[29..] == [];
    assert Carries(bytes, h) && Writes(id, bytes);
    hide HexOf, IdOf, DecodeBytes, ConvertHexToCIP129, DRepPhraseProcessor, ConvertDrepPhraseToCIP105, Writes, Carries;
    ProcessorsGiveHash(id, h);
    ConversionIsCanonical(id, h);
  }

  /** The id of a governance action decodes to the transaction and the index it was made from. */
  lemma ActionIdRoundTrip(prefix: string, tx: seq<Byte>, index: seq<Byte>)
    requires LowerPrefix(prefix) && |tx| == 32 && index != []
    requires |prefix| + 7 + |ToWords(tx + index)| <= 90
    ensures var id := EncodeCIP129Identifier(HexOf(tx), Some(HexOf(index)), prefix);
            && id.Str?
            && DecodeCIP129Identifier(id.value) == Some(Identifier(HexOf(tx), HexOf(index), prefix))
  {
    var bytes := tx + index;
    HexConcat(tx, index);
    HexRoundTrip(bytes);
    WordsRoundTrip(bytes);
    TextRoundTrip(prefix, ToWords(bytes));
    hide HexOf, BytesOf, Encode, Decode, ToWords, FromWords, LowerPrefix;
    assert bytes[..32] == tx && bytes[32..] == index;
  }

  /** The predefined DReps have no hash: their names are passed on as they are; and nothing is made of nothing. */
  lemma PredefinedStay(name: string, isScripted: bool)
    requires "drep_always" <= name
    ensures ConvertDrepPhraseToCIP105(name) == Str(name) == ConvertDrepPhraseToCIP105Legacy(name)
    ensures ConvertHexToCIP129(isScripted, name) == Str(name)
    ensures ConvertDrepPhraseToCIP105("") == Undefined == ConvertDrepPhraseToCIP105Legacy("")
  {
  }

  /** Any other phrase is passed on as it is: one that is no id, and one that starts like an id but does not decode. */
  lemma OtherPhrasesStay(phrase: string)
    ensures !("drep" <= phrase) && |phrase| != 58 ==>
              DRepPhraseProcessor(phrase) == phrase == DRepPhraseProcessorLegacy(phrase)
    ensures "drep" <= phrase && DecodeBytes(phrase).None? ==>
              DRepPhraseProcessor(phrase) == phrase
              && (|phrase| != 56 ==> DRepPhraseProcessorLegacy(phrase) == phrase)
  {
    LongerPrefixes(phrase);
    hide DecodeBytes, HexOf;
  }

  // ----- where the two processors differ

  /** The separator of something that starts with "drep" comes after it. */
  lemma SeparatorAfterDrep(id: string)
    requires "drep" <= id && LastOne(Lower(id)) >= 0
    ensures LastOne(Lower(id)) >= 4
  {
    var str := Lower(id);
    LastOneIs(str);
    hide LastOne;
    assert id[..4] == "drep";
    assert id[0] == 'd' && id[1] == 'r' && id[2] == 'e' && id[3] == 'p';
  }

  lemma DecodedWords(id: string)
    requires Decode(id).Some?
    ensures LastOne(Lower(id)) > 0
    ensures |Decode(id).value.1| == |id| - LastOne(Lower(id)) - 7
  {
    hide Lower, Upper, LastOne, Parse, Feed, PrefixChk, ValidPrefix;
    ParseLength(Lower(id)[LastOne(Lower(id)) + 1..]);
  }

  /** What decodes to 56 characters starting with "drep" holds at most 28 bytes. */
  lemma ShortIdsAreShort(id: string)
    requires |id| == 56 && "drep" <= id && DecodeBytes(id).Some?
    ensures |DecodeBytes(id).value.1| <= 28
  {
    DecodedWords(id);
    SeparatorAfterDrep(id);
    GroupBytesLength(BitsOfWords(Decode(id).value.1));
    hide Decode, LastOne, Lower, GroupBytes;
  }

  /**
   * On all strings whatsoever, the two processors agree unless the phrase has the length of a
   * CIP-105 id, starts like one and does not decode: then one gives it back and the other is empty.
   */
  lemma ProcessorsAgreeIff(phrase: string)
    ensures DRepPhraseProcessor(phrase) == DRepPhraseProcessorLegacy(phrase)
            <==> !("drep" <= phrase && |phrase| == 56 && DecodeBytes(phrase).None?)
  {
    LongerPrefixes(phrase);
    if "drep" <= phrase && |phrase| == 56 && DecodeBytes(phrase).Some? {
      ShortIdsAreShort(phrase);
      var bytes := DecodeBytes(phrase).value.1;
      assert bytes[..|bytes|] == bytes;
      hide DecodeBytes, HexOf;
    } else {
      hide DecodeBytes, HexOf;
    }
  }

  /** "drep" and 52 characters without a separator: one processor gives it back, the other nothing. */
  lemma ProcessorsDiffer()
    ensures var phrase := "drep" + seq(52, _ => 'q');
            && DRepPhraseProcessor(phrase) == phrase
            && DRepPhraseProcessorLegacy(phrase) == ""
  {
    var phrase := "drep" + seq(52, _ => 'q');
    assert phrase[..4] == "drep";
    forall i | 0 <= i < |phrase| ensures Lower(phrase)[i] != '1' {
      if i < 4 { assert phrase[i] == "drep"[i]; }
    }
    LastOneIs(Lower(phrase));
    hide LastOne, Lower, Upper, Parse, HexOf;
    assert DecodeBytes(phrase).None?;
  }
}
