/** Finding a DRep, and all of its aliases, by any of its ids. */
module DRepAliases {
  import opened Basics
  import opened Bech32
  import opened DRepIdentity
  import opened Consolidation
  import opened ConsolidationFacts

  // ----- the two ways of matching

  /** PostgreSQL's LIKE: % is any text, _ any one character, a backslash takes the next one literally. */
  predicate Like(pattern: string, s: string)
    decreases |pattern| + |s|
  {
    if pattern == "" then s == ""
    else if pattern[0] == '%' then Like(pattern[1..], s) || (s != "" && Like(pattern, s[1..]))
    else if pattern[0] == '_' then s != "" && Like(pattern[1..], s[1..])
    else if pattern[0] == '\\' then |pattern| >= 2 && s != "" && s[0] == pattern[1] && Like(pattern[2..], s[1..])
    else s != "" && s[0] == pattern[0] && Like(pattern[1..], s[1..])
  }

  predicate ILike(pattern: string, s: string) {
    Like(Lower(pattern), Lower(s))
  }

  /** What String.prototype.trim removes. */
  predicate IsSpace(c: char) {
    var n := c as int;
    9 <= n <= 13 || n in {0x20, 0xA0, 0x1680, 0x2028, 0x2029, 0x202F, 0x205F, 0x3000, 0xFEFF} || 0x2000 <= n <= 0x200A
  }

  function Trim(s: string): string {
    if s == "" then ""
    else if IsSpace(s[0]) then Trim(s[1..])
    else if IsSpace(s[|s| - 1]) then Trim(s[..|s| - 1])
    else s
  }

  /** The suffix an id stands for: the last 56 digits of what it decodes to, if there are as many. */
  function SuffixOfId(voterId: string): Option<string> {
    match DecodeBytes(voterId)
    case None => None
    case Some((_, bytes)) =>
      var hex := HexOf(bytes);
      if |hex| >= 56 then Some(Lower(Right(hex, 56))) else None
  }

  predicate MatchesSuffix(d: Drep, suffix: Option<string>) {
    suffix == Some(Lower(Right(d.hex, 56)))
  }

  // ----- resolveDrepId: `rows` are the table's rows in whatever order the database finds them

  function DirectMatch(rows: seq<Drep>, voterId: string): Option<string> {
    if rows == [] then None
    else if ILike(Trim(voterId), rows[0].drepId) then Some(rows[0].drepId)
    else DirectMatch(rows[1..], voterId)
  }

  function SuffixMatch(rows: seq<Drep>, suffix: Option<string>): Option<string> {
    if rows == [] then None
    else if MatchesSuffix(rows[0], suffix) then Some(rows[0].drepId)
    else SuffixMatch(rows[1..], suffix)
  }

  function ResolveDrepId(rows: seq<Drep>, voterId: string): Option<string> {
    if voterId == "" then None
    else if DirectMatch(rows, voterId).Some? then DirectMatch(rows, voterId)
    else SuffixMatch(rows, SuffixOfId(voterId))
  }

  // ----- getAllDrepIds

  ghost predicate Known(rows: seq<Drep>, voterId: string, id: string) {
    || (voterId != "" && id == voterId)
    || (exists d :: d in rows && MatchesSuffix(d, SuffixOfId(voterId)) && d.drepId == id)
    || ResolveDrepId(rows, voterId) == Some(id)
  }

  /** Adding to a JavaScript Set, which keeps the order of insertion. */
  function Add(ids: seq<string>, id: string): (r: seq<string>)
    requires Distinct(ids)
    ensures Distinct(r) && forall x :: x in r <==> x in ids || x == id
  {
    if id in ids then ids else ids + [id]
  }

  method GetAllDrepIds(rows: seq<Drep>, voterId: string) returns (ids: seq<string>)
    ensures Distinct(ids)
    ensures forall id :: id in ids <==> Known(rows, voterId, id)
  {
    ids := [];
    if voterId != "" {
      ids := Add(ids, voterId);
    }
    var suffix := SuffixOfId(voterId);
    ghost var first := ids;
    hide Add, SuffixOfId, MatchesSuffix, ResolveDrepId;
    for i := 0 to |rows|
      invariant Distinct(ids)
      invariant forall id :: id in ids <==>
                  id in first || exists d :: d in rows[..i] && MatchesSuffix(d, suffix) && d.drepId == id
    {
      assert rows[..i + 1] == rows[..i] + [rows[i]];
      if MatchesSuffix(rows[i], suffix) {
        ids := Add(ids, rows[i].drepId);
      }
    }
    assert rows[..|rows|] == rows;
    var canonical := ResolveDrepId(rows, voterId);
    if canonical.Some? {
      ids := Add(ids, canonical.value);
    }
  }

  // ----- well-formed ids and rows

  /** `id` is the bech32 text of 28 or 29 bytes with one of the prefixes. */
  predicate IdFor(id: string, prefix: string, bytes: seq<Byte>) {
    DRepPrefix(prefix) && 28 <= |bytes| <= 29 && IdOf(prefix, bytes) == Some(id)
  }

  /** The hash behind a header byte, if there is one. */
  function HashIn(bytes: seq<Byte>): (h: seq<Byte>)
    requires 28 <= |bytes| <= 29
    ensures IsHash(h) && Carries(bytes, h)
  {
    bytes[|bytes| - 28..]
  }

  /** The id of a DRep with the hash h. */
  ghost predicate IdWithHash(id: string, h: seq<Byte>) {
    exists prefix, bytes :: IdFor(id, prefix, bytes) && HashIn(bytes) == h
  }

  /** A row whose hex is the decoding of its id. */
  ghost predicate RowWithHash(d: Drep, h: seq<Byte>) {
    exists prefix, bytes :: IdFor(d.drepId, prefix, bytes) && HashIn(bytes) == h && d.hex == HexOf(bytes)
  }

  ghost predicate WellFormed(rows: seq<Drep>) {
    forall d :: d in rows ==> exists h :: RowWithHash(d, h)
  }

  lemma HexIsLower(bytes: seq<Byte>)
    ensures Lower(HexOf(bytes)) == HexOf(bytes)
  {
    if bytes != [] {
      HexIsLower(bytes[1..]);
      var s := HexOf(bytes);
      DigitIsLower(HighNibble(bytes[0]));
      DigitIsLower(LowNibble(bytes[0]));
      hide HexChar, HighNibble, LowNibble, LowerChar;
      forall i | 0 <= i < |s| ensures LowerChar(s[i]) == s[i] {
        if i >= 2 { assert Lower(HexOf(bytes[1..]))[i - 2] == HexOf(bytes[1..])[i - 2] == s[i]; }
      }
    }
  }

  lemma DigitIsLower(n: Nibble)
    ensures LowerChar(HexChar(n)) == HexChar(n)
  {
  }

  /** The last 56 digits are those of the hash. */
  lemma SuffixIsHash(bytes: seq<Byte>)
    requires 28 <= |bytes| <= 29
    ensures Lower(Right(HexOf(bytes), 56)) == HexOf(HashIn(bytes))
  {
    var h := HashIn(bytes);
    HeaderHex(bytes, h);
    HexIsLower(h);
    hide Lower, HexOf;
    if |bytes| == 28 { assert h == bytes; }
  }

  lemma SuffixOfRow(d: Drep, h: seq<Byte>)
    requires RowWithHash(d, h)
    ensures IdWithHash(d.drepId, h) && Lower(Right(d.hex, 56)) == HexOf(h)
  {
    var prefix, bytes :| IdFor(d.drepId, prefix, bytes) && HashIn(bytes) == h && d.hex == HexOf(bytes);
    SuffixIsHash(bytes);
    hide IdFor, HexOf, Lower;
  }

  lemma SuffixOfWellFormedId(id: string, h: seq<Byte>)
    requires IdWithHash(id, h)
    ensures SuffixOfId(id) == Some(HexOf(h)) && IsFormOf(id, h) && IsHash(h) && id != ""
  {
    var prefix, bytes :| IdFor(id, prefix, bytes) && HashIn(bytes) == h;
    IdDecodes(prefix, bytes);
    SuffixIsHash(bytes);
    hide IdOf, DecodeBytes, HexOf, Lower, Right;
    assert Carries(bytes, h) && Writes(id, bytes);
  }

  /** The rows consolidated with each other are those whose ids compare equal in the frontend. */
  lemma SameDRepIffCompare(a: Drep, g: seq<Byte>, b: Drep, h: seq<Byte>)
    requires RowWithHash(a, g) && RowWithHash(b, h)
    ensures SameDRep(a, b) <==> CompareDRepIDs(a.drepId, b.drepId)
    ensures SameDRep(a, b) <==> g == h
  {
    SuffixOfRow(a, g);
    SuffixOfRow(b, h);
    SuffixOfWellFormedId(a.drepId, g);
    SuffixOfWellFormedId(b.drepId, h);
    CompareIsSameHash(a.drepId, g, b.drepId, h);
    SqlSuffix(a.hex);
    SqlSuffix(b.hex);
    hide RowWithHash, IdWithHash, IsFormOf, CompareDRepIDs, HexOf, Right, Lower, Suffix;
    if HexOf(g) == HexOf(h) { HexInjective(g, h); }
  }

  // ----- ILIKE between ids is equality, although `_` is a wildcard

  lemma {:induction false} LikeWithoutText(pattern: string, s: string)
    requires '%' !in pattern && '\\' !in pattern
    ensures Like(pattern, s)
            <==> |pattern| == |s| && forall i :: 0 <= i < |s| ==> pattern[i] == '_' || pattern[i] == s[i]
  {
    if pattern != "" && s != "" {
      assert pattern[0] in pattern;
      assert forall c :: c in pattern[1..] ==> c in pattern;
      LikeWithoutText(pattern[1..], s[1..]);
      if |pattern| == |s| && forall i :: 0 <= i < |s| - 1 ==> pattern[1..][i] == '_' || pattern[1..][i] == s[1..][i] {
        assert forall i :: 1 <= i < |s| ==> pattern[i] == pattern[1..][i - 1] && s[i] == s[1..][i - 1];
      }
    }
  }

  /** What an id is made of; none of it is white space or a LIKE special other than `_`. */
  predicate IdChar(c: char) {
    'a' <= c <= 'z' || '0' <= c <= '9' || c == '_'
  }

  lemma TextChars(words: seq<Word>)
    ensures forall i :: 0 <= i < |words| ==> IdChar(Text(words)[i]) && Text(words)[i] != '_'
  {
    forall i | 0 <= i < |words| ensures IdChar(Text(words)[i]) && Text(words)[i] != '_' {
      AlphabetChars(words[i]);
      hide CharOf;
    }
  }

  lemma EncodedIs(prefix: string, words: seq<Word>, id: string) returns (all: seq<Word>)
    requires Encode(prefix, words) == Some(id) && LowerPrefix(prefix)
    ensures id == prefix + "1" + Text(all)
  {
    hide Lower, Feed, PrefixChk, ChecksumWords, Text, ValidPrefix;
    all := words + ChecksumWords(Feed(PrefixChk(prefix), words));
  }

  lemma IdText(prefix: string, words: seq<Word>, id: string)
    requires Encode(prefix, words) == Some(id) && LowerPrefix(prefix)
    ensures Lower(id) == id
    ensures prefix + "1" <= id && forall i :: |prefix| < i < |id| ==> IdChar(id[i]) && id[i] != '_'
  {
    hide *;
    var all := EncodedIs(prefix, words, id);
    EncodedText(prefix, all);
    TextChars(all);
    forall i | |prefix| < i < |id| ensures IdChar(id[i]) && id[i] != '_' {
      assert id[i] == Text(all)[i - |prefix| - 1];
    }
  }

  /** The only `_` in an id is the one of "drep_script". */
  lemma IdChars(id: string, prefix: string, bytes: seq<Byte>)
    requires IdFor(id, prefix, bytes)
    ensures DRepPrefix(prefix) && Lower(id) == id && |id| == |prefix| + 7 + (if |bytes| == 28 then 45 else 47)
    ensures forall i :: 0 <= i < |id| ==> IdChar(id[i]) && (id[i] == '_' <==> i == 4 && prefix == "drep_script")
  {
    IdDecodes(prefix, bytes);
    PrefixesAreLower();
    IdText(prefix, ToWords(bytes), id);
    assert DRepPrefix(prefix);
    hide *;
    PrefixChars(id, prefix);
  }

  lemma PrefixChars(id: string, prefix: string)
    requires DRepPrefix(prefix) && prefix + "1" <= id
    ensures forall i :: 0 <= i <= |prefix| ==> IdChar(id[i]) && (id[i] == '_' <==> i == 4 && prefix == "drep_script")
    ensures 4 <= |prefix|
  {
    var p := prefix + "1";
    assert id[..|p|] == p;
    assert forall i :: 0 <= i < |p| ==> id[i] == p[i];
  }

  lemma TrimOfId(id: string)
    requires forall i :: 0 <= i < |id| ==> IdChar(id[i])
    ensures Trim(id) == id && '%' !in id && '\\' !in id
  {
  }

  /** A pattern that matches up to the `_` of its prefix matches only the id itself. */
  lemma SameLengthIds(id: string, p: string, other: string, q: string)
    requires DRepPrefix(p) && DRepPrefix(q)
    requires |id| == |p| + 52 || |id| == |p| + 54
    requires |other| == |q| + 52 || |other| == |q| + 54
    requires forall i :: 0 <= i < |id| ==> (id[i] == '_' <==> i == 4 && p == "drep_script")
    requires forall i :: 0 <= i < |other| ==> (other[i] == '_' <==> i == 4 && q == "drep_script")
    requires |id| == |other| && forall i :: 0 <= i < |other| ==> id[i] == '_' || id[i] == other[i]
    ensures id == other
  {
    assert p == q;
  }

  /** Looking one well-formed id up by ILIKE finds no other. */
  lemma ILikeIsEquality(id: string, g: seq<Byte>, other: string, h: seq<Byte>)
    requires IdWithHash(id, g) && IdWithHash(other, h)
    ensures ILike(Trim(id), other) <==> id == other
  {
    var p, bytes :| IdFor(id, p, bytes) && HashIn(bytes) == g;
    var q, others :| IdFor(other, q, others) && HashIn(others) == h;
    hide IdFor, HashIn, Lower, Trim, Like, IdChar, DRepPrefix;
    IdChars(id, p, bytes);
    IdChars(other, q, others);
    TrimOfId(id);
    LikeWithoutText(id, other);
    if Like(id, other) {
      SameLengthIds(id, p, other, q);
    }
  }

  /** White space and line ends, as ECMAScript lists them. */
  predicate Blank(s: string) {
    forall c :: c in s ==>
      || c in {'\t', '\n', '\U{0B}', '\U{0C}', '\r', ' ', '\U{A0}', '\U{1680}'} || '\U{2000}' <= c <= '\U{200A}'
      || c in {'\U{2028}', '\U{2029}', '\U{202F}', '\U{205F}', '\U{3000}', '\U{FEFF}'}
  }

  lemma {:induction false} TrimPads(left: string, s: string, right: string)
    requires Blank(left) && Blank(right) && s != "" && !IsSpace(s[0]) && !IsSpace(s[|s| - 1])
    ensures Trim(left + s + right) == s
    decreases |left| + |right|
  {
    var all := left + s + right;
    if left != "" {
      assert left[0] in left && all[0] == left[0];
      assert all[1..] == left[1..] + s + right;
      assert Blank(left[1..]) by { assert forall c :: c in left[1..] ==> c in left; }
      TrimPads(left[1..], s, right);
    } else if right != "" {
      var init := right[..|right| - 1];
      assert right[|init|] in right && all[|all| - 1] == right[|init|] && all[0] == s[0];
      assert all[..|all| - 1] == left + s + init;
      assert Blank(init) by { assert forall c :: c in init ==> c in right; }
      TrimPads(left, s, init);
    } else {
      assert all == s;
    }
  }

  lemma LowerOfId(typed: string, id: string)
    requires Lower(typed) == id && id != "" && forall i :: 0 <= i < |id| ==> IdChar(id[i])
    ensures typed != "" && !IsSpace(typed[0]) && !IsSpace(typed[|typed| - 1])
  {
    assert |typed| == |id|;
    var n := |typed| - 1;
    assert Lower(typed)[0] == LowerChar(typed[0]) && Lower(typed)[n] == LowerChar(typed[n]);
    assert IdChar(id[0]) && IdChar(id[n]);
  }

  /** However an id is typed, in whatever case and with white space around it, it finds the row of that id only. */
  lemma TypedIdIsFound(
      id: string, g: seq<Byte>, other: string, h: seq<Byte>, left: string, typed: string, right: string)
    requires IdWithHash(id, g) && IdWithHash(other, h)
    requires Lower(typed) == id && Blank(left) && Blank(right)
    ensures ILike(Trim(left + typed + right), other) <==> id == other
  {
    var p, bytes :| IdFor(id, p, bytes) && HashIn(bytes) == g;
    hide IdFor, HashIn, Trim, Like, IdChar, DRepPrefix, IsSpace, Lower, IdWithHash;
    IdChars(id, p, bytes);
    TrimOfId(id);
    ILikeIsEquality(id, g, other, h);
    LowerOfId(typed, id);
    TrimPads(left, typed, right);
  }

  /** Asking for nothing finds nothing, whatever is stored. */
  lemma NothingFindsNothing(rows: seq<Drep>, x: string)
    ensures ResolveDrepId(rows, "") == None && !Known(rows, "", x)
  {
    assert DecodeBytes("").None?;
  }

  /** What does not decode to at least 28 bytes finds the rows it is ILIKE only. */
  lemma ShortIdFindsItself(rows: seq<Drep>, voterId: string)
    requires DecodeBytes(voterId).None? || |DecodeBytes(voterId).value.1| < 28
    ensures ResolveDrepId(rows, voterId).Some? ==>
              exists d :: d in rows && ILike(Trim(voterId), d.drepId) && ResolveDrepId(rows, voterId) == Some(d.drepId)
  {
    hide ILike, Trim, DecodeBytes;
    NoSuffixMatch(rows);
    DirectMatchIsILike(rows, voterId);
  }

  lemma {:induction false} NoSuffixMatch(rows: seq<Drep>)
    ensures SuffixMatch(rows, None) == None
  {
    if rows != [] {
      NoSuffixMatch(rows[1..]);
    }
  }

  lemma {:induction false} DirectMatchIsILike(rows: seq<Drep>, voterId: string)
    ensures DirectMatch(rows, voterId).Some? ==>
              exists d :: d in rows && ILike(Trim(voterId), d.drepId) && DirectMatch(rows, voterId) == Some(d.drepId)
  {
    if rows != [] && !ILike(Trim(voterId), rows[0].drepId) {
      DirectMatchIsILike(rows[1..], voterId);
    }
  }

  /** In a pattern, a percent sign is any text, and a backslash makes the next character literal. */
  lemma {:induction false} LikeMeans(pattern: string, c: char, s: string)
    ensures Like("%" + pattern, s) <==> exists k :: 0 <= k <= |s| && Like(pattern, s[k..])
    ensures Like(['\\', c] + pattern, s) <==> exists t :: s == [c] + t && Like(pattern, t)
    decreases |s|
  {
    assert ("%" + pattern)[1..] == pattern && (['\\', c] + pattern)[2..] == pattern;
    assert s[0..] == s;
    if s != "" {
      LikeMeans(pattern, c, s[1..]);
      assert s == [s[0]] + s[1..];
      forall k | 1 <= k <= |s| ensures s[k..] == s[1..][k - 1..] {}
    }
  }

  // ----- every alias leads to every alias

  lemma {:induction false} DirectMatchFinds(rows: seq<Drep>, id: string, h: seq<Byte>)
    requires WellFormed(rows) && IdWithHash(id, h)
    ensures DirectMatch(rows, id) == if exists d :: d in rows && d.drepId == id then Some(id) else None
  {
    hide IdWithHash, ILike, RowWithHash, Trim;
    if rows != [] {
      assert WellFormed(rows[1..]) by { assert forall d :: d in rows[1..] ==> d in rows; }
      DirectMatchFinds(rows[1..], id, h);
      assert rows[0] in rows;
      var g :| RowWithHash(rows[0], g);
      SuffixOfRow(rows[0], g);
      ILikeIsEquality(id, h, rows[0].drepId, g);
      assert rows == [rows[0]] + rows[1..];
    }
  }

  lemma {:induction false} SuffixMatchFinds(rows: seq<Drep>, suffix: Option<string>)
    ensures match SuffixMatch(rows, suffix)
            case None => !exists d :: d in rows && MatchesSuffix(d, suffix)
            case Some(id) => exists d :: d in rows && MatchesSuffix(d, suffix) && d.drepId == id
  {
    hide MatchesSuffix;
    if rows != [] {
      SuffixMatchFinds(rows[1..], suffix);
      assert rows == [rows[0]] + rows[1..];
    }
  }

  /**
   * Whatever order the database finds the rows in, an id resolves to itself if it is stored, to some
   * stored alias if it is not, and to nothing if the DRep has no row.
   */
  lemma ResolvesToAlias(rows: seq<Drep>, id: string, h: seq<Byte>)
    requires WellFormed(rows) && IdWithHash(id, h)
    ensures match ResolveDrepId(rows, id)
            case None => !exists d :: d in rows && RowWithHash(d, h)
            case Some(r) =>
              && (exists d :: d in rows && RowWithHash(d, h) && d.drepId == r)
              && ((exists d :: d in rows && d.drepId == id) ==> r == id)
  {
    var suffix := SuffixOfId(id);
    DirectMatchFinds(rows, id, h);
    SuffixMatchFinds(rows, suffix);
    MatchesAreAliases(rows, id, h);
    forall d | d in rows && d.drepId == id ensures RowWithHash(d, h) {
      StoredIdHasHash(rows, d, h);
    }
    hide RowWithHash, IdWithHash, MatchesSuffix, SuffixOfId, DirectMatch, SuffixMatch, WellFormed;
  }

  lemma MatchIsSameHash(rows: seq<Drep>, d: Drep, h: seq<Byte>)
    requires WellFormed(rows) && d in rows && IsHash(h)
    ensures MatchesSuffix(d, Some(HexOf(h))) <==> RowWithHash(d, h)
  {
    var g :| RowWithHash(d, g);
    SuffixOfRow(d, g);
    if RowWithHash(d, h) { SuffixOfRow(d, h); }
    hide RowWithHash, HexOf, Lower, Right;
    if HexOf(g) == HexOf(h) { HexInjective(g, h); }
  }

  lemma StoredIdHasHash(rows: seq<Drep>, d: Drep, h: seq<Byte>)
    requires WellFormed(rows) && d in rows && IdWithHash(d.drepId, h)
    ensures RowWithHash(d, h)
  {
    var g :| RowWithHash(d, g);
    SuffixOfRow(d, g);
    SuffixOfWellFormedId(d.drepId, g);
    SuffixOfWellFormedId(d.drepId, h);
    hide RowWithHash, IdWithHash, SuffixOfId, HexOf;
    HexInjective(g, h);
  }

  /** The rows found by an id's suffix are those of its DRep. */
  lemma MatchesAreAliases(rows: seq<Drep>, id: string, h: seq<Byte>)
    requires WellFormed(rows) && IdWithHash(id, h)
    ensures id != "" && forall d :: d in rows ==> (MatchesSuffix(d, SuffixOfId(id)) <==> RowWithHash(d, h))
  {
    SuffixOfWellFormedId(id, h);
    forall d | d in rows ensures MatchesSuffix(d, SuffixOfId(id)) <==> RowWithHash(d, h) {
      MatchIsSameHash(rows, d, h);
    }
  }

  /** For any id of a DRep, stored or not, the result is that id and all stored aliases. */
  lemma KnownAreAliases(rows: seq<Drep>, id: string, h: seq<Byte>, x: string)
    requires WellFormed(rows) && IdWithHash(id, h)
    ensures Known(rows, id, x) <==> x == id || exists d :: d in rows && RowWithHash(d, h) && d.drepId == x
  {
    hide RowWithHash, IdWithHash, MatchesSuffix, SuffixOfId, ResolveDrepId, WellFormed;
    ResolvesToAlias(rows, id, h);
    MatchesAreAliases(rows, id, h);
  }

  /** Every stored alias of a DRep gets the same answer: the ids of the rows that compare equal to it. */
  lemma AliasesAgree(rows: seq<Drep>, a: Drep, x: string)
    requires WellFormed(rows) && a in rows
    ensures Known(rows, a.drepId, x) <==> exists d :: d in rows && CompareDRepIDs(d.drepId, a.drepId) && d.drepId == x
    ensures Known(rows, a.drepId, x) <==> exists d :: d in rows && SameDRep(d, a) && d.drepId == x
  {
    var h :| RowWithHash(a, h);
    SuffixOfRow(a, h);
    KnownAreAliases(rows, a.drepId, h, x);
    forall d | d in rows
      ensures RowWithHash(d, h) <==> SameDRep(d, a)
      ensures SameDRep(d, a) <==> CompareDRepIDs(d.drepId, a.drepId)
    {
      SameHashIffSameDRep(rows, d, a, h);
    }
    hide RowWithHash, IdWithHash, Known, SameDRep, CompareDRepIDs, WellFormed;
  }

  lemma SameHashIffSameDRep(rows: seq<Drep>, d: Drep, a: Drep, h: seq<Byte>)
    requires WellFormed(rows) && d in rows && RowWithHash(a, h)
    ensures RowWithHash(d, h) <==> SameDRep(d, a)
    ensures SameDRep(d, a) <==> CompareDRepIDs(d.drepId, a.drepId)
  {
    var g :| RowWithHash(d, g);
    SameDRepIffCompare(d, g, a, h);
    if RowWithHash(d, h) { SameDRepIffCompare(d, h, a, h); }
    hide RowWithHash, SameDRep, CompareDRepIDs;
  }
}
