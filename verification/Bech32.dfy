/**
 * Bech32 as the "Bech32" section of BIP-173 defines it, with the strict decoding of the npm package
 * `bech32`: regrouping bytes into 5-bit words and back, the checksum, and the text form.
 */
module Bech32 {
  import opened Basics

  type Byte = bv8
  type Word = bv5

  // ----- regrouping, by bits, most significant first

  function ByteBits(b: Byte): (bits: seq<bool>)
    ensures |bits| == 8
  {
    [b & 128 != 0, b & 64 != 0, b & 32 != 0, b & 16 != 0, b & 8 != 0, b & 4 != 0, b & 2 != 0, b & 1 != 0]
  }

  function ByteOf(bits: seq<bool>): Byte
    requires |bits| == 8
  {
    (if bits[0] then 128 else 0) | (if bits[1] then 64 else 0) | (if bits[2] then 32 else 0)
    | (if bits[3] then 16 else 0)
    | (if bits[4] then 8 else 0) | (if bits[5] then 4 else 0) | (if bits[6] then 2 else 0) | (if bits[7] then 1 else 0)
  }

  function WordBits(w: Word): (bits: seq<bool>)
    ensures |bits| == 5
  {
    [w & 16 != 0, w & 8 != 0, w & 4 != 0, w & 2 != 0, w & 1 != 0]
  }

  function WordOf(bits: seq<bool>): Word
    requires |bits| == 5
  {
    (if bits[0] then 16 else 0) | (if bits[1] then 8 else 0) | (if bits[2] then 4 else 0)
    | (if bits[3] then 2 else 0) | (if bits[4] then 1 else 0)
  }

  lemma ByteRoundTrip(b: Byte)
    ensures ByteOf(ByteBits(b)) == b
  {
  }

  lemma WordRoundTrip(bits: seq<bool>)
    requires |bits| == 5
    ensures WordBits(WordOf(bits)) == bits
  {
  }

  function BitsOfBytes(bytes: seq<Byte>): (bits: seq<bool>)
    ensures |bits| == 8 * |bytes|
  {
    if bytes == [] then [] else ByteBits(bytes[0]) + BitsOfBytes(bytes[1..])
  }

  function BitsOfWords(words: seq<Word>): (bits: seq<bool>)
    ensures |bits| == 5 * |words|
  {
    if words == [] then [] else WordBits(words[0]) + BitsOfWords(words[1..])
  }

  function Zeros(n: nat): (z: seq<bool>)
    ensures |z| == n && forall i :: 0 <= i < n ==> !z[i]
  {
    seq(n, _ => false)
  }

  /** Words of five bits; a last incomplete one is filled with zeros. */
  function GroupWords(bits: seq<bool>): (words: seq<Word>)
    ensures 5 * |words| >= |bits| > 5 * |words| - 5 || (bits == [] && words == [])
  {
    if bits == [] then []
    else if |bits| < 5 then [WordOf(bits + Zeros(5 - |bits|))]
    else [WordOf(bits[..5])] + GroupWords(bits[5..])
  }

  /** Bytes of eight bits; what is left over must be fewer than five bits, all zero. */
  function GroupBytes(bits: seq<bool>): Option<seq<Byte>> {
    if |bits| >= 8 then
      match GroupBytes(bits[8..])
      case None => None
      case Some(rest) => Some([ByteOf(bits[..8])] + rest)
    else if |bits| >= 5 || true in bits then None
    else Some([])
  }

  function ToWords(bytes: seq<Byte>): seq<Word> {
    GroupWords(BitsOfBytes(bytes))
  }

  function FromWords(words: seq<Word>): Option<seq<Byte>> {
    GroupBytes(BitsOfWords(words))
  }

  lemma {:induction false} GroupWordsBits(bits: seq<bool>)
    ensures var words := GroupWords(bits); BitsOfWords(words) == bits + Zeros(5 * |words| - |bits|)
  {
    if bits == [] {
    } else if |bits| < 5 {
      WordRoundTrip(bits + Zeros(5 - |bits|));
      assert BitsOfWords([]) == [];
    } else {
      GroupWordsBits(bits[5..]);
      WordRoundTrip(bits[..5]);
      assert bits == bits[..5] + bits[5..];
    }
  }

  lemma {:induction false} GroupBytesOfPadded(bytes: seq<Byte>, pad: nat)
    requires pad < 5
    ensures GroupBytes(BitsOfBytes(bytes) + Zeros(pad)) == Some(bytes)
  {
    var bits := BitsOfBytes(bytes) + Zeros(pad);
    if bytes != [] {
      GroupBytesOfPadded(bytes[1..], pad);
      ByteRoundTrip(bytes[0]);
      assert bits[..8] == ByteBits(bytes[0]);
      assert bits[8..] == BitsOfBytes(bytes[1..]) + Zeros(pad);
      assert bytes == [bytes[0]] + bytes[1..];
    }
  }

  /** Regrouping into words and back is the identity on bytes. */
  lemma WordsRoundTrip(bytes: seq<Byte>)
    ensures FromWords(ToWords(bytes)) == Some(bytes)
    ensures 8 * |bytes| <= 5 * |ToWords(bytes)| < 8 * |bytes| + 5
  {
    var bits := BitsOfBytes(bytes);
    GroupWordsBits(bits);
    GroupBytesOfPadded(bytes, 5 * |ToWords(bytes)| - |bits|);
  }

  lemma {:induction false} GroupBytesBits(bits: seq<bool>)
    ensures GroupBytes(bits).Some? ==>
              var bytes := GroupBytes(bits).value;
              0 <= |bits| - 8 * |bytes| < 5 && bits == BitsOfBytes(bytes) + Zeros(|bits| - 8 * |bytes|)
  {
    if |bits| >= 8 {
      GroupBytesBits(bits[8..]);
      BitsRoundTrip(bits[..8]);
      assert bits == bits[..8] + bits[8..];
      if GroupBytes(bits).Some? {
        var bytes := GroupBytes(bits).value;
        assert bytes[1..] == GroupBytes(bits[8..]).value;
        assert BitsOfBytes(bytes) == bits[..8] + BitsOfBytes(bytes[1..]);
      }
    } else if true !in bits {
      forall i | 0 <= i < |bits| ensures bits[i] == false {
        assert bits[i] in bits;
      }
      assert bits == Zeros(|bits|);
    }
  }

  lemma BitsRoundTrip(bits: seq<bool>)
    requires |bits| == 8
    ensures ByteBits(ByteOf(bits)) == bits
  {
  }

  lemma {:induction false} SameWords(a: seq<Word>, b: seq<Word>)
    requires BitsOfWords(a) == BitsOfWords(b)
    ensures a == b
  {
    if a != [] && b != [] {
      assert BitsOfWords(a) == WordBits(a[0]) + BitsOfWords(a[1..]);
      assert BitsOfWords(b) == WordBits(b[0]) + BitsOfWords(b[1..]);
      assert WordBits(a[0]) == BitsOfWords(a)[..5] == WordBits(b[0]);
      assert BitsOfWords(a[1..]) == BitsOfWords(a)[5..] == BitsOfWords(b[1..]);
      SameWords(a[1..], b[1..]);
      assert WordOf(WordBits(a[0])) == a[0] && WordOf(WordBits(b[0])) == b[0];
    }
  }

  /** Words are read as bytes if and only if they are the words of those bytes: no other padding is let through. */
  lemma FromWordsIff(words: seq<Word>, bytes: seq<Byte>)
    ensures FromWords(words) == Some(bytes) <==> words == ToWords(bytes)
  {
    WordsRoundTrip(bytes);
    if FromWords(words) == Some(bytes) {
      GroupBytesBits(BitsOfWords(words));
      GroupWordsBits(BitsOfBytes(bytes));
      SameWords(words, ToWords(bytes));
    }
  }

  /** Decoded words hold as many whole bytes as fit. */
  lemma {:induction false} GroupBytesLength(bits: seq<bool>)
    ensures GroupBytes(bits).Some? ==> |GroupBytes(bits).value| == |bits| / 8
  {
    if |bits| >= 8 {
      GroupBytesLength(bits[8..]);
    }
  }

  // ----- checksum

  type Chk = bv30

  /** The feedback of the top five bits. */
  function Feedback(b: Chk): Chk {
    (if b & 1 != 0 then 0x3b6a57b2 else 0)
    ^ (if b & 2 != 0 then 0x26508e6d else 0)
    ^ (if b & 4 != 0 then 0x1ea119fa else 0)
    ^ (if b & 8 != 0 then 0x3d4233dd else 0)
    ^ (if b & 16 != 0 then 0x2a1462b3 else 0)
  }

  function Top(chk: Chk): Chk {
    chk >> 25
  }

  function Shifted(chk: Chk): Chk {
    (chk & 0x1ffffff) << 5
  }

  function Xor(a: Chk, b: Chk): Chk {
    a ^ b
  }

  function PolymodStep(pre: Chk): Chk {
    Xor(Shifted(pre), Feedback(Top(pre)))
  }

  function Widen(w: Word): Chk {
    w as Chk
  }

  /** The checksum state after feeding words. */
  function Feed(chk: Chk, words: seq<Word>): Chk
    decreases words
  {
    if words == [] then chk else Feed(Xor(PolymodStep(chk), Widen(words[0])), words[1..])
  }

  lemma TopUntouched(chk: Chk, x: Chk)
    requires Top(x) == 0
    ensures Top(Xor(chk, x)) == Top(chk)
  {
  }

  lemma LowShifted(chk: Chk, x: Chk)
    requires Top(x) == 0
    ensures Shifted(Xor(chk, x)) == Xor(Shifted(chk), Shifted(x))
  {
  }

  lemma XorAssoc(a: Chk, b: Chk, c: Chk)
    ensures Xor(Xor(a, b), c) == Xor(a, Xor(b, c))
  {
  }

  lemma XorSwap(a: Chk, b: Chk, c: Chk)
    ensures Xor(Xor(a, b), c) == Xor(Xor(a, c), b)
  {
    XorAssoc(a, b, c);
    XorAssoc(a, c, b);
    assert Xor(b, c) == Xor(c, b);
    hide Xor;
  }

  /** A change in the low 25 bits is only shifted by a step: the feedback does not see it. */
  lemma StepIsLinear(chk: Chk, x: Chk)
    requires Top(x) == 0
    ensures PolymodStep(Xor(chk, x)) == Xor(PolymodStep(chk), Shifted(x))
  {
    hide Feedback, Top, Shifted, Xor;
    TopUntouched(chk, x);
    LowShifted(chk, x);
    XorSwap(Shifted(chk), Shifted(x), Feedback(Top(chk)));
  }

  function Low5(x: Chk): Word {
    (x & 31) as Word
  }

  function Drop5(x: Chk): Chk {
    x >> 5
  }

  /** The first k of the six words of a checksum value, as a number. */
  function Prefix(mod: Chk, k: nat): Chk
    requires k <= 6
    decreases 6 - k
  {
    if k == 6 then mod else Drop5(Prefix(mod, k + 1))
  }

  /** The six words of a checksum value, most significant first. */
  function SixWords(mod: Chk): (r: seq<Word>)
    ensures |r| == 6
  {
    seq(6, k requires 0 <= k < 6 => Low5(Prefix(mod, k + 1)))
  }

  /** The checksum state after feeding k zero words. */
  function Zeroed(chk: Chk, k: nat): Chk {
    if k == 0 then chk else PolymodStep(Zeroed(chk, k - 1))
  }

  function ChecksumWords(chk: Chk): (r: seq<Word>)
    ensures |r| == 6
  {
    SixWords(Xor(Zeroed(chk, 6), 1))
  }

  lemma SplitLastWord(y: Chk)
    ensures Top(Drop5(y)) == 0
    ensures Xor(Shifted(Drop5(y)), Widen(Low5(y))) == y
  {
  }

  lemma SixDrops(y: Chk)
    ensures Drop5(Drop5(Drop5(Drop5(Drop5(Drop5(y)))))) == 0
  {
  }

  lemma NoWordsIsZero(mod: Chk)
    ensures Prefix(mod, 0) == 0 && Prefix(mod, 6) == mod
  {
    hide Drop5;
    assert Prefix(mod, 5) == Drop5(mod);
    assert Prefix(mod, 4) == Drop5(Drop5(mod));
    assert Prefix(mod, 3) == Drop5(Drop5(Drop5(mod)));
    assert Prefix(mod, 2) == Drop5(Drop5(Drop5(Drop5(mod))));
    assert Prefix(mod, 1) == Drop5(Drop5(Drop5(Drop5(Drop5(mod)))));
    SixDrops(mod);
  }

  lemma WordOfPrefix(mod: Chk, k: nat)
    requires k < 6
    ensures SixWords(mod)[k] == Low5(Prefix(mod, k + 1)) && Prefix(mod, k) == Drop5(Prefix(mod, k + 1))
  {
    hide Low5, Drop5;
  }

  /** Feeding a checksum word moves the deviation from the all-zero run one word up. */
  lemma FeedOne(z: Chk, mod: Chk, k: nat)
    requires k < 6
    ensures Xor(PolymodStep(Xor(z, Prefix(mod, k))), Widen(SixWords(mod)[k])) == Xor(PolymodStep(z), Prefix(mod, k + 1))
  {
    hide *;
    WordOfPrefix(mod, k);
    SplitLastWord(Prefix(mod, k + 1));
    StepIsLinear(z, Prefix(mod, k));
    XorAssoc(PolymodStep(z), Shifted(Prefix(mod, k)), Widen(SixWords(mod)[k]));
  }

  lemma XorZero(a: Chk)
    ensures Xor(a, 0) == a && Xor(a, Xor(a, 1)) == 1
  {
  }

  lemma FeedStep(chk: Chk, words: seq<Word>)
    requires words != []
    ensures Feed(chk, words) == Feed(Xor(PolymodStep(chk), Widen(words[0])), words[1..])
  {
  }

  lemma {:induction false} FeedChecksum(chk: Chk, mod: Chk, k: nat)
    requires k <= 6
    ensures Feed(Xor(Zeroed(chk, k), Prefix(mod, k)), SixWords(mod)[k..]) == Xor(Zeroed(chk, 6), Prefix(mod, 6))
    decreases 6 - k
  {
    hide PolymodStep, Xor, Widen, Prefix, SixWords;
    var words := SixWords(mod)[k..];
    if k < 6 {
      assert words[0] == SixWords(mod)[k] && words[1..] == SixWords(mod)[k + 1..];
      FeedStep(Xor(Zeroed(chk, k), Prefix(mod, k)), words);
      FeedOne(Zeroed(chk, k), mod, k);
      FeedChecksum(chk, mod, k + 1);
    } else {
      assert words == [];
    }
  }

  /** The checksum that is made is the checksum that is accepted. */
  lemma ChecksumAccepted(chk: Chk)
    ensures Feed(chk, ChecksumWords(chk)) == 1
  {
    var z := Zeroed(chk, 6);
    assert Zeroed(chk, 0) == chk;
    var mod := Xor(z, 1);
    NoWordsIsZero(mod);
    assert ChecksumWords(chk) == SixWords(mod);
    FeedChecksum(chk, mod, 0);
    XorZero(chk);
    XorZero(z);
    hide *;
    assert SixWords(mod)[0..] == SixWords(mod);
  }

  lemma {:induction false} FeedConcat(chk: Chk, a: seq<Word>, b: seq<Word>)
    ensures Feed(chk, a + b) == Feed(Feed(chk, a), b)
    decreases a
  {
    hide PolymodStep, Xor, Widen;
    if a == [] {
      assert a + b == b;
    } else {
      assert (a + b)[1..] == a[1..] + b;
      FeedConcat(Xor(PolymodStep(chk), Widen(a[0])), a[1..], b);
    }
  }

  // ----- text

  /** The alphabet "qpzry9x8gf2tvdw0s3jn54khce6mua7l". */
  function CharOf(w: Word): char {
    if w == 0 then 'q'
    else if w == 1 then 'p'
    else if w == 2 then 'z'
    else if w == 3 then 'r'
    else if w == 4 then 'y'
    else if w == 5 then '9'
    else if w == 6 then 'x'
    else if w == 7 then '8'
    else if w == 8 then 'g'
    else if w == 9 then 'f'
    else if w == 10 then '2'
    else if w == 11 then 't'
    else if w == 12 then 'v'
    else if w == 13 then 'd'
    else if w == 14 then 'w'
    else if w == 15 then '0'
    else if w == 16 then 's'
    else if w == 17 then '3'
    else if w == 18 then 'j'
    else if w == 19 then 'n'
    else if w == 20 then '5'
    else if w == 21 then '4'
    else if w == 22 then 'k'
    else if w == 23 then 'h'
    else if w == 24 then 'c'
    else if w == 25 then 'e'
    else if w == 26 then '6'
    else if w == 27 then 'm'
    else if w == 28 then 'u'
    else if w == 29 then 'a'
    else if w == 30 then '7'
    else 'l'
  }

  function WordOfChar(c: char): Option<Word> {
    if c == 'q' then Some(0)
    else if c == 'p' then Some(1)
    else if c == 'z' then Some(2)
    else if c == 'r' then Some(3)
    else if c == 'y' then Some(4)
    else if c == '9' then Some(5)
    else if c == 'x' then Some(6)
    else if c == '8' then Some(7)
    else if c == 'g' then Some(8)
    else if c == 'f' then Some(9)
    else if c == '2' then Some(10)
    else if c == 't' then Some(11)
    else if c == 'v' then Some(12)
    else if c == 'd' then Some(13)
    else if c == 'w' then Some(14)
    else if c == '0' then Some(15)
    else if c == 's' then Some(16)
    else if c == '3' then Some(17)
    else if c == 'j' then Some(18)
    else if c == 'n' then Some(19)
    else if c == '5' then Some(20)
    else if c == '4' then Some(21)
    else if c == 'k' then Some(22)
    else if c == 'h' then Some(23)
    else if c == 'c' then Some(24)
    else if c == 'e' then Some(25)
    else if c == '6' then Some(26)
    else if c == 'm' then Some(27)
    else if c == 'u' then Some(28)
    else if c == 'a' then Some(29)
    else if c == '7' then Some(30)
    else if c == 'l' then Some(31)
    else None
  }

  lemma CharRoundTrip(w: Word)
    ensures WordOfChar(CharOf(w)) == Some(w)
  {
  }

  /** Alphabet characters are lower case letters or digits, without '1', 'b', 'i' and 'o'. */
  lemma AlphabetChars(w: Word)
    ensures ('a' <= CharOf(w) <= 'z' || '0' <= CharOf(w) <= '9') && CharOf(w) !in {'1', 'b', 'i', 'o'}
  {
  }

  function Text(words: seq<Word>): (s: string)
    ensures |s| == |words|
  {
    seq(|words|, i requires 0 <= i < |words| => CharOf(words[i]))
  }

  function Parse(s: string): Option<seq<Word>> {
    if s == "" then Some([])
    else
      match (WordOfChar(s[0]), Parse(s[1..]))
      case (Some(w), Some(ws)) => Some([w] + ws)
      case _ => None
  }

  lemma {:induction false} ParseText(words: seq<Word>)
    ensures Parse(Text(words)) == Some(words)
  {
    hide CharOf, WordOfChar;
    if words != [] {
      CharRoundTrip(words[0]);
      assert Text(words)[1..] == Text(words[1..]);
      ParseText(words[1..]);
      assert words == [words[0]] + words[1..];
    }
  }

  lemma {:induction false} ParseLength(s: string)
    ensures Parse(s).Some? ==> |Parse(s).value| == |s|
  {
    hide WordOfChar;
    if s != "" {
      ParseLength(s[1..]);
    }
  }

  function HighBits(c: char): Word {
    (c as int / 32 % 32) as bv5
  }

  function LowBits(c: char): Word {
    (c as int % 32) as bv5
  }

  function Highs(prefix: string): seq<Word> {
    seq(|prefix|, i requires 0 <= i < |prefix| => HighBits(prefix[i]))
  }

  function Lows(prefix: string): seq<Word> {
    seq(|prefix|, i requires 0 <= i < |prefix| => LowBits(prefix[i]))
  }

  predicate ValidPrefix(prefix: string) {
    prefix != "" && forall c :: c in prefix ==> 33 as char <= c <= 126 as char
  }

  function PrefixChk(prefix: string): Chk {
    Feed(1, Highs(prefix) + [0] + Lows(prefix))
  }

  function LowerChar(c: char): char {
    if 'A' <= c <= 'Z' then c + 32 as char else c
  }

  function UpperChar(c: char): char {
    if 'a' <= c <= 'z' then c - 32 as char else c
  }

  function Lower(s: string): (r: string)
    ensures |r| == |s|
  {
    seq(|s|, i requires 0 <= i < |s| => LowerChar(s[i]))
  }

  function Upper(s: string): (r: string)
    ensures |r| == |s|
  {
    seq(|s|, i requires 0 <= i < |s| => UpperChar(s[i]))
  }

  const LIMIT := 90

  /** None is a thrown error. */
  function Encode(prefix: string, words: seq<Word>): Option<string> {
    if |prefix| + 7 + |words| > LIMIT || !ValidPrefix(Lower(prefix)) then None
    else
      var p := Lower(prefix);
      Some(p + "1" + Text(words + ChecksumWords(Feed(PrefixChk(p), words))))
  }

  /** Position of the last '1', or -1. */
  function LastOne(s: string): (i: int)
    ensures -1 <= i < |s|
  {
    if s == "" then -1 else if s[|s| - 1] == '1' then |s| - 1 else LastOne(s[..|s| - 1])
  }

  /** None is a thrown error. */
  function Decode(s: string): Option<(string, seq<Word>)> {
    if |s| < 8 || |s| > LIMIT || (s != Lower(s) && s != Upper(s)) then None
    else
      var str := Lower(s);
      var split := LastOne(str);
      if split <= 0 || |str| - split - 1 < 6 || !ValidPrefix(str[..split]) then None
      else
        match Parse(str[split + 1..])
        case None => None
        case Some(words) =>
          ParseLength(str[split + 1..]);
          if Feed(PrefixChk(str[..split]), words) != 1 then None
          else Some((str[..split], words[..|words| - 6]))
  }

  lemma {:induction false} LastOneBefore(prefix: string, tail: string)
    requires '1' !in tail
    ensures LastOne(prefix + "1" + tail) == |prefix|
  {
    var s := prefix + "1" + tail;
    if tail != "" {
      assert tail[|tail| - 1] in tail && s[|s| - 1] == tail[|tail| - 1];
      assert s[..|s| - 1] == prefix + "1" + tail[..|tail| - 1];
      LastOneBefore(prefix, tail[..|tail| - 1]);
    }
  }

  /** A lower case prefix that can be encoded. */
  predicate LowerPrefix(prefix: string) {
    ValidPrefix(prefix) && Lower(prefix) == prefix
  }

  lemma EncodedText(prefix: string, words: seq<Word>)
    requires LowerPrefix(prefix)
    ensures var s := prefix + "1" + Text(words);
            Lower(s) == s && LastOne(s) == |prefix|
  {
    var s := prefix + "1" + Text(words);
    forall i | 0 <= i < |words| ensures LowerChar(Text(words)[i]) == Text(words)[i] && Text(words)[i] != '1' {
      AlphabetChars(words[i]);
      hide CharOf;
    }
    hide CharOf;
    LastOneBefore(prefix, Text(words));
    forall i | 0 <= i < |s| ensures LowerChar(s[i]) == s[i] {
      if i < |prefix| {
        assert Lower(prefix)[i] == prefix[i];
      } else if i > |prefix| {
        assert s[i] == Text(words)[i - |prefix| - 1];
      }
    }
  }

  /** What is encoded is decoded to the same prefix and words. */
  lemma TextRoundTrip(prefix: string, words: seq<Word>)
    requires LowerPrefix(prefix) && |prefix| + 7 + |words| <= LIMIT
    ensures var s := Encode(prefix, words);
            && s.Some? && Decode(s.value) == Some((prefix, words))
            && |s.value| == |prefix| + 7 + |words|
            && prefix + "1" <= s.value
  {
    assert prefix != "";
    hide Lower, Upper, ValidPrefix, PrefixChk, Feed, ChecksumWords, Text, Parse, LastOne;
    var all := words + ChecksumWords(Feed(PrefixChk(prefix), words));
    var s := prefix + "1" + Text(all);
    EncodedText(prefix, all);
    ParseText(all);
    FeedConcat(PrefixChk(prefix), words, ChecksumWords(Feed(PrefixChk(prefix), words)));
    ChecksumAccepted(Feed(PrefixChk(prefix), words));
    assert s[..|prefix|] == prefix && s[|prefix| + 1..] == Text(all);
    assert all[..|all| - 6] == words;
  }

  // ----- what decodes is what was encoded

  lemma {:induction false} LastOneIs(s: string)
    ensures LastOne(s) >= 0 ==> s[LastOne(s)] == '1'
  {
    if s != "" && s[|s| - 1] != '1' {
      LastOneIs(s[..|s| - 1]);
    }
  }

  lemma SplitAtOne(s: string)
    requires LastOne(s) >= 0
    ensures s == s[..LastOne(s)] + "1" + s[LastOne(s) + 1..]
  {
    LastOneIs(s);
    hide LastOne;
    var k := LastOne(s);
    assert s[k..k + 1] == "1";
    assert s == s[..k] + s[k..k + 1] + s[k + 1..];
  }

  lemma CharBack(c: char)
    ensures WordOfChar(c).Some? ==> CharOf(WordOfChar(c).value) == c
  {
  }

  lemma {:induction false} ParsedText(s: string)
    ensures Parse(s).Some? ==> Text(Parse(s).value) == s
  {
    hide CharOf, WordOfChar;
    if s != "" {
      CharBack(s[0]);
      ParsedText(s[1..]);
      assert s == [s[0]] + s[1..];
    }
  }

  /** Six words as one number. */
  function Number(a: Word, b: Word, c: Word, d: Word, e: Word, f: Word): Chk {
    ((a as Chk) << 25) | ((b as Chk) << 20) | ((c as Chk) << 15) | ((d as Chk) << 10) | ((e as Chk) << 5) | (f as Chk)
  }

  lemma NumberWords(a: Word, b: Word, c: Word, d: Word, e: Word, f: Word)
    ensures var n := Number(a, b, c, d, e, f);
            && Low5(n) == f && Low5(Drop5(n)) == e && Low5(Drop5(Drop5(n))) == d
            && Low5(Drop5(Drop5(Drop5(n)))) == c && Low5(Drop5(Drop5(Drop5(Drop5(n))))) == b
            && Low5(Drop5(Drop5(Drop5(Drop5(Drop5(n)))))) == a
  {
  }

  lemma NumberIsSixWords(six: seq<Word>) returns (mod: Chk)
    requires |six| == 6
    ensures SixWords(mod) == six
  {
    mod := Number(six[0], six[1], six[2], six[3], six[4], six[5]);
    NumberWords(six[0], six[1], six[2], six[3], six[4], six[5]);
    hide Number, Low5, Drop5;
    assert Prefix(mod, 5) == Drop5(mod);
    assert Prefix(mod, 4) == Drop5(Drop5(mod));
    assert Prefix(mod, 3) == Drop5(Drop5(Drop5(mod)));
    assert Prefix(mod, 2) == Drop5(Drop5(Drop5(Drop5(mod))));
    assert Prefix(mod, 1) == Drop5(Drop5(Drop5(Drop5(Drop5(mod)))));
  }

  lemma XorCancels(a: Chk, b: Chk)
    requires Xor(a, b) == 1
    ensures b == Xor(a, 1)
  {
  }

  /** No other six words are accepted. */
  lemma OneChecksum(chk: Chk, six: seq<Word>)
    requires |six| == 6 && Feed(chk, six) == 1
    ensures six == ChecksumWords(chk)
  {
    var z := Zeroed(chk, 6);
    assert Zeroed(chk, 0) == chk;
    var mod := NumberIsSixWords(six);
    NoWordsIsZero(mod);
    assert ChecksumWords(chk) == SixWords(Xor(z, 1));
    FeedChecksum(chk, mod, 0);
    XorZero(chk);
    hide *;
    assert SixWords(mod)[0..] == SixWords(mod);
    XorCancels(z, mod);
  }

  lemma Cases(s: string)
    ensures Lower(Lower(s)) == Lower(s) == Lower(Upper(s)) && Upper(Upper(s)) == Upper(s) == Upper(Lower(s))
  {
    forall i | 0 <= i < |s|
      ensures LowerChar(LowerChar(s[i])) == LowerChar(s[i]) == LowerChar(UpperChar(s[i]))
      ensures UpperChar(UpperChar(s[i])) == UpperChar(s[i]) == UpperChar(LowerChar(s[i]))
    {
    }
    hide LowerChar, UpperChar;
  }

  lemma LowerPart(s: string, k: nat)
    requires k <= |s|
    ensures Lower(s[..k]) == Lower(s)[..k]
  {
  }

  lemma DecodedIs(s: string, prefix: string, words: seq<Word>)
    requires Decode(s) == Some((prefix, words))
    ensures |s| <= 90 && (s == Lower(s) || s == Upper(s))
    ensures var str := Lower(s);
            var split := LastOne(str);
            && split > 0 && |str| - split - 1 >= 6 && prefix == str[..split] && ValidPrefix(prefix)
            && Parse(str[split + 1..]).Some?
            && var all := Parse(str[split + 1..]).value;
            && |all| >= 6 && words == all[..|all| - 6] && Feed(PrefixChk(prefix), all) == 1
  {
    hide Lower, Upper, LastOne, Parse, Feed, PrefixChk, ValidPrefix;
    ParseLength(Lower(s)[LastOne(Lower(s)) + 1..]);
  }

  /** What decodes is the encoding of what it decodes to, in lower or in upper case. */
  lemma DecodedIsEncoded(s: string, prefix: string, words: seq<Word>)
    requires Decode(s) == Some((prefix, words))
    ensures LowerPrefix(prefix) && Encode(prefix, words) == Some(Lower(s))
    ensures s == Lower(s) || s == Upper(Lower(s))
  {
    hide *;
    DecodedIs(s, prefix, words);
    var str := Lower(s);
    var split := LastOne(str);
    var all := Parse(str[split + 1..]).value;
    var six := all[|all| - 6..];
    Cases(s);
    LowerPart(str, split);
    SplitAtOne(str);
    ParsedText(str[split + 1..]);
    ParseLength(str[split + 1..]);
    Halves(all, |all| - 6);
    FeedConcat(PrefixChk(prefix), words, six);
    OneChecksum(Feed(PrefixChk(prefix), words), six);
    LowerPrefixIs(prefix);
    EncodeIs(prefix, words);
  }

  lemma LowerPrefixIs(prefix: string)
    ensures LowerPrefix(prefix) <==> ValidPrefix(prefix) && Lower(prefix) == prefix
  {
    hide ValidPrefix, Lower;
  }

  /** Decoding does not depend on the case, as long as it is not mixed. */
  lemma DecodeInUpperCase(s: string)
    requires Lower(s) == s
    ensures Decode(Upper(s)) == Decode(s)
  {
    Cases(s);
    hide Lower, Upper, LastOne, Parse, Feed, PrefixChk, ValidPrefix;
  }

  /** A text decodes to a prefix and words if and only if it is their encoding, all in lower or all in upper case. */
  lemma DecodesIff(s: string, prefix: string, words: seq<Word>)
    ensures Decode(s) == Some((prefix, words))
            <==> LowerPrefix(prefix) && Encode(prefix, words).Some?
                 && (s == Encode(prefix, words).value || s == Upper(Encode(prefix, words).value))
  {
    hide *;
    if Decode(s) == Some((prefix, words)) {
      DecodedIsEncoded(s, prefix, words);
    } else if LowerPrefix(prefix) && Encode(prefix, words).Some? {
      EncodeFits(prefix, words);
      TextRoundTrip(prefix, words);
      LowerPrefixIs(prefix);
      EncodeIs(prefix, words);
      EncodedText(prefix, words + ChecksumWords(Feed(PrefixChk(prefix), words)));
      DecodeInUpperCase(Encode(prefix, words).value);
    }
  }

  lemma EncodeFits(prefix: string, words: seq<Word>)
    ensures Encode(prefix, words).Some? ==> |prefix| + 7 + |words| <= 90 && ValidPrefix(Lower(prefix))
    ensures LIMIT == 90
  {
    hide ValidPrefix, Lower, Text, ChecksumWords, Feed, PrefixChk;
  }

  // ----- against the standard

  /** The alphabet is the one of BIP-173, section "Bech32". */
  lemma AlphabetIs()
    ensures Text([0, 1, 2, 3, 4, 5, 6, 7]) == "qpzry9x8"
    ensures Text([8, 9, 10, 11, 12, 13, 14, 15]) == "gf2tvdw0"
    ensures Text([16, 17, 18, 19, 20, 21, 22, 23]) == "s3jn54kh"
    ensures Text([24, 25, 26, 27, 28, 29, 30, 31]) == "ce6mua7l"
  {
  }

  lemma FeedWord(chk: Chk, w: Word, rest: seq<Word>, next: Chk)
    requires Xor(PolymodStep(chk), Widen(w)) == next
    ensures Feed(chk, [w] + rest) == Feed(next, rest)
  {
    assert ([w] + rest)[1..] == rest;
  }

  /** The state after the prefix "a", and after six zero words more. */
  lemma VectorState()
    ensures PrefixChk("a") == 0x8c01 && Zeroed(0x8c01, 6) == 0x15ccfe9e
  {
    var words := Highs("a") + [0] + Lows("a");
    assert words == [3, 0, 1];
    FeedWord(1, 3, [0, 1], 0x23);
    FeedWord(0x23, 0, [1], 0x460);
    FeedWord(0x460, 1, [], 0x8c01);
    assert [3] + [0, 1] == words && [0] + [1] == [0, 1] && [1] + [] == [1];
    assert Feed(0x8c01, []) == 0x8c01;
    assert PolymodStep(0x8c01) == 0x118020;
    assert PolymodStep(0x118020) == 0x2300400;
    assert PolymodStep(0x2300400) == 0x3d6ad7b2;
    assert PolymodStep(0x3d6ad7b2) == 0x2fd30b9;
    assert PolymodStep(0x2fd30b9) == 0x24cc4092;
    assert PolymodStep(0x24cc4092) == 0x15ccfe9e;
    hide PolymodStep, Feed;
    assert Zeroed(0x8c01, 1) == 0x118020;
    assert Zeroed(0x8c01, 2) == 0x2300400;
    assert Zeroed(0x8c01, 3) == 0x3d6ad7b2;
    assert Zeroed(0x8c01, 4) == 0x2fd30b9;
    assert Zeroed(0x8c01, 5) == 0x24cc4092;
  }

  lemma EncodeIs(prefix: string, words: seq<Word>)
    requires ValidPrefix(Lower(prefix)) && |prefix| + 7 + |words| <= 90
    ensures var p := Lower(prefix);
            Encode(prefix, words) == Some(p + "1" + Text(words + ChecksumWords(Feed(PrefixChk(p), words))))
  {
    hide Lower, ValidPrefix, Text, ChecksumWords, Feed, PrefixChk;
  }

  lemma VectorText()
    ensures Lower("a") == "a" && ValidPrefix("a") && "a" + "1" + Text([10, 28, 25, 31, 20, 31]) == "a12uel5l"
    ensures Feed(0x8c01, []) == 0x8c01
  {
    hide PolymodStep;
    assert Text([10, 28, 25, 31, 20, 31]) == "2uel5l";
  }

  /** The first test vector of BIP-173. */
  lemma FirstVector()
    ensures Encode("a", []) == Some("a12uel5l")
  {
    hide *;
    VectorText();
    VectorState();
    VectorWords();
    EncodeIs("a", []);
    assert [] + ChecksumWords(0x8c01) == ChecksumWords(0x8c01);
  }

  lemma VectorWords()
    requires Zeroed(0x8c01, 6) == 0x15ccfe9e
    ensures ChecksumWords(0x8c01) == [10, 28, 25, 31, 20, 31]
  {
    hide Zeroed;
    var mod := Xor(0x15ccfe9e, 1);
    assert mod == 0x15ccfe9f;
    assert Prefix(mod, 6) == mod;
    assert Prefix(mod, 5) == 0xae67f4;
    assert Prefix(mod, 4) == 0x5733f;
    assert Prefix(mod, 3) == 0x2b99;
    assert Prefix(mod, 2) == 0x15c;
    assert Prefix(mod, 1) == 0xa;
  }

  /** Regrouping starts with the highest bit, and fills the last word with zeros. */
  lemma OneByte(b: Byte)
    ensures ToWords([b]) == [(b >> 3) as Word, ((b & 7) << 2) as Word]
  {
    assert [b][1..] == [];
    var bits := BitsOfBytes([b]);
    assert bits == ByteBits(b);
    var rest := bits[5..];
    assert GroupWords(rest) == [WordOf(rest + Zeros(5 - |rest|))] && 5 - |rest| == 2;
    assert GroupWords(bits) == [WordOf(bits[..5])] + GroupWords(rest);
    assert bits[5..] + Zeros(2) == [bits[5], bits[6], bits[7], false, false];
    assert WordOf(bits[..5]) == (b >> 3) as Word;
    assert WordOf(bits[5..] + Zeros(2)) == ((b & 7) << 2) as Word;
  }
}
