/**
 * Epoch arithmetic and the epoch window of one timeline page: cursors, the three clamps, and what
 * following the cursors visits.
 */
module EpochWindow {
  import opened Basics

  const EPOCHS_PER_PAGE := 4
  const EPOCH_DURATION_MS := 432_000_000
  /** Cursors above this are taken for legacy timestamps. */
  const MAX_CURSOR := 10_000

  datatype Direction = Older | Newer

  // ----- instants and epochs; Dafny's `/` rounds down for a positive divisor, as Math.floor does

  function EpochNo(anchor: int, t: int): int {
    (t - anchor) / EPOCH_DURATION_MS
  }

  function EpochStart(anchor: int, epoch: int): int {
    anchor + epoch * EPOCH_DURATION_MS
  }

  function EpochEnd(anchor: int, epoch: int): int {
    anchor + (epoch + 1) * EPOCH_DURATION_MS
  }

  /** The half-open time window of the epochs s..e holds exactly the instants of those epochs. */
  lemma WindowHoldsItsEpochs(anchor: int, t: int, s: int, e: int)
    ensures EpochStart(anchor, s) <= t < EpochEnd(anchor, e) <==> s <= EpochNo(anchor, t) <= e
    ensures EpochNo(anchor, t) == s <==> anchor + s * 432_000_000 <= t < anchor + s * 432_000_000 + 432_000_000
  {
    var n := EpochNo(anchor, t);
    assert n * EPOCH_DURATION_MS <= t - anchor < (n + 1) * EPOCH_DURATION_MS;
  }

  /** The window after s..e starts where s..e ends: every instant is in exactly one of them. */
  lemma WindowsTile(anchor: int, t: int, s: int, e: int, e': int)
    requires s <= e < e'
    ensures EpochStart(anchor, s) <= t < EpochEnd(anchor, e')
            <==> (EpochStart(anchor, s) <= t < EpochEnd(anchor, e))
                 != (EpochStart(anchor, e + 1) <= t < EpochEnd(anchor, e'))
  {
    WindowHoldsItsEpochs(anchor, t, s, e);
    WindowHoldsItsEpochs(anchor, t, e + 1, e');
    WindowHoldsItsEpochs(anchor, t, s, e');
  }

  // ----- the window of a page

  type Range = (int, int)

  /** First and last epoch of the page for a cursor; None is a missing or non-numeric cursor. */
  function Window(direction: Direction, cursor: Option<int>, current: int): Range
  {
    var cursorEpoch := if cursor.Some? && cursor.value > MAX_CURSOR then None else cursor;
    var (start, end) :=
      match cursorEpoch
      case None => (current - (EPOCHS_PER_PAGE - 1), current)
      case Some(c) => if direction.Older? then (c - (EPOCHS_PER_PAGE - 1), c) else (c, c + (EPOCHS_PER_PAGE - 1));
    var start' := if start < 0 then 0 else start;
    var end' := if end > current then current else end;
    (start', if end' < start' then start' + (EPOCHS_PER_PAGE - 1) else end')
  }

  function NextCursor(w: Range): Option<int> {
    if w.0 > 0 then Some(w.0 - 1) else None
  }

  function PrevCursor(w: Range, current: int): Option<int> {
    if w.1 < current then Some(w.1 + 1) else None
  }

  /** The cursors no page hands out: before the first epoch, or newer than the current one. */
  predicate OffTheMap(direction: Direction, cursor: Option<int>, current: int) {
    && cursor.Some? && cursor.value <= MAX_CURSOR
    && (if direction.Older? then cursor.value < 0 || cursor.value - (EPOCHS_PER_PAGE - 1) > current
        else cursor.value + (EPOCHS_PER_PAGE - 1) < 0 || cursor.value > current)
  }

  /** Every request gets one to four epochs from 0 on; they pass the current epoch only for a cursor off the map. */
  lemma WindowIsSane(direction: Direction, cursor: Option<int>, current: int)
    requires 0 <= current
    ensures var w := Window(direction, cursor, current);
            && 0 <= w.0 <= w.1 <= w.0 + (EPOCHS_PER_PAGE - 1)
            && (OffTheMap(direction, cursor, current)
              ==> w.1 == w.0 + (EPOCHS_PER_PAGE - 1) && (w.0 == 0 || w.0 > current))
            && (!OffTheMap(direction, cursor, current) ==> w.1 <= current)
  {
  }

  /**
   * Which epochs a cursor gives: no cursor, or a timestamp, the newest four; an older one the four up to it; a
   * newer one the four from it on; each cut off at 0 and at the current epoch unless nothing would be left.
   */
  lemma WindowIs(direction: Direction, cursor: Option<int>, current: int)
    requires 0 <= current
    ensures var w := Window(direction, cursor, current);
            match cursor
            case None => w == (Max(0, current - 3), current)
            case Some(c) =>
              if c > 10_000 then w == (Max(0, current - 3), current)
              else if direction.Older? then
                w == if c < 0 then (0, 3) else if c > current + 3 then (c - 3, c) else (Max(0, c - 3), Min(c, current))
              else
                w == if c < -3 then (0, 3) else if c > current then (c, c + 3) else (Max(0, c), Min(c + 3, current))
  {
  }

  // ----- following nextCursor from the first page

  /** The k-th page of the walk; `tip(k)` is the current epoch when it is requested. */
  function OlderWalk(tip: nat -> int, k: nat): Option<Range> {
    if k == 0 then Some(Window(Older, None, tip(0)))
    else
      match OlderWalk(tip, k - 1)
      case None => None
      case Some(w) =>
        match NextCursor(w)
        case None => None
        case Some(c) => Some(Window(Older, Some(c), tip(k)))
  }

  /** The largest current epoch from which the second page's cursor is still read as an epoch. */
  const MAX_TIP := MAX_CURSOR + EPOCHS_PER_PAGE

  lemma {:induction false} OlderWalkPages(tip: nat -> int, k: nat)
    requires 0 <= tip(0) <= MAX_TIP && forall i: nat :: tip(0) <= tip(i)
    ensures var c := tip(0) - EPOCHS_PER_PAGE * k;
            OlderWalk(tip, k) == if c >= 0 then Some((Max(0, c - (EPOCHS_PER_PAGE - 1)), c)) else None
  {
    if k > 0 {
      OlderWalkPages(tip, k - 1);
      assert tip(0) <= tip(k);
    }
  }

  function PageCount(current: int): int {
    (current + EPOCHS_PER_PAGE) / EPOCHS_PER_PAGE
  }

  /**
   * The walk ends after ceil((C + 1) / 4) pages and shows every epoch 0..C on exactly one of
   * them, even if the chain moves on meanwhile.
   */
  lemma OlderWalkVisitsEachEpochOnce(tip: nat -> int, epoch: int)
    requires 0 <= tip(0) <= MAX_TIP && forall i: nat :: tip(0) <= tip(i)
    requires 0 <= epoch <= tip(0)
    ensures forall k: nat :: OlderWalk(tip, k).Some? <==> k < PageCount(tip(0))
    ensures var page := (tip(0) - epoch) / EPOCHS_PER_PAGE;
            && 0 <= page < PageCount(tip(0))
            && forall k: nat :: k < PageCount(tip(0)) ==>
                 (OlderWalk(tip, k).value.0 <= epoch <= OlderWalk(tip, k).value.1 <==> k == page)
  {
    forall k: nat ensures OlderWalk(tip, k).Some? <==> k < PageCount(tip(0)) {
      OlderWalkPages(tip, k);
    }
    var page := (tip(0) - epoch) / EPOCHS_PER_PAGE;
    forall k: nat | k < PageCount(tip(0))
      ensures OlderWalk(tip, k).value.0 <= epoch <= OlderWalk(tip, k).value.1 <==> k == page
    {
      OlderWalkPages(tip, k);
    }
  }

  /** A current epoch that does not change. */
  function Fixed(current: int): nat -> int {
    (_: nat) => current
  }

  /** Beyond that, the second page's cursor is dropped and every page is the first one again. */
  lemma {:induction false} OlderWalkLoops(current: int, k: nat)
    requires current > MAX_TIP
    ensures OlderWalk(Fixed(current), k) == Some((current - (EPOCHS_PER_PAGE - 1), current))
  {
    if k > 0 {
      OlderWalkLoops(current, k - 1);
    }
  }

  /** Page k of the walk from a fixed current epoch shows epoch 0. */
  predicate ShowsFirst(current: int, k: nat) {
    var w := OlderWalk(Fixed(current), k);
    w.Some? && w.value.0 == 0
  }

  /** The walk from a fixed current epoch reaches the first epoch if and only if that epoch is at most 10004. */
  lemma OlderWalkReachesFirstIff(current: int)
    requires 0 <= current
    ensures (exists k: nat :: ShowsFirst(current, k)) <==> current <= MAX_TIP
  {
    if current <= MAX_TIP {
      var k := current / EPOCHS_PER_PAGE;
      OlderWalkPages(Fixed(current), k);
      assert ShowsFirst(current, k);
    } else {
      forall k: nat ensures !ShowsFirst(current, k) {
        OlderWalkLoops(current, k);
      }
    }
  }

  // ----- walking both ways at a fixed current epoch

  /** The pages of the older walk: blocks of four epochs counted down from the current one. */
  predicate Aligned(w: Range, current: int) {
    && 0 <= w.1 <= current
    && (current - w.1) % EPOCHS_PER_PAGE == 0
    && w.0 == Max(0, w.1 - (EPOCHS_PER_PAGE - 1))
  }

  /** Beyond the limit only the first of them is handed out. */
  predicate Reachable(w: Range, current: int) {
    Aligned(w, current) && (current > MAX_TIP ==> w.1 == current)
  }

  /** The page reached by one press of "older" or "newer"; without a cursor there is nothing to press. */
  function Follow(w: Range, direction: Direction, current: int): Range {
    match (if direction.Older? then NextCursor(w) else PrevCursor(w, current))
    case None => w
    case Some(c) => Window(direction, Some(c), current)
  }

  function FollowAll(current: int, directions: seq<Direction>): Range {
    if directions == [] then Window(Older, None, current)
    else Follow(FollowAll(current, directions[..|directions| - 1]), directions[|directions| - 1], current)
  }

  lemma FollowStaysReachable(w: Range, direction: Direction, current: int)
    requires Reachable(w, current)
    ensures var w' := Follow(w, direction, current);
            && Reachable(w', current)
            && (direction.Older? ==> if w.0 > 0 && current <= MAX_TIP then w'.1 == w.0 - 1 else w' == w)
            && (direction.Newer? ==> if w.1 < current then w'.0 == w.1 + 1 else w' == w)
  {
  }

  lemma {:induction false} WalksStayAligned(current: int, directions: seq<Direction>)
    requires 0 <= current
    ensures Reachable(FollowAll(current, directions), current)
  {
    if directions != [] {
      WalksStayAligned(current, directions[..|directions| - 1]);
      FollowStaysReachable(FollowAll(current, directions[..|directions| - 1]), directions[|directions| - 1], current);
    }
  }

  /** From every reachable page, going one way and then the other comes back to it. */
  lemma ThereAndBack(current: int, directions: seq<Direction>)
    requires 0 <= current
    ensures var w := FollowAll(current, directions);
            && (NextCursor(w).Some? ==> Follow(Follow(w, Older, current), Newer, current) == w)
            && (PrevCursor(w, current).Some? ==> Follow(Follow(w, Newer, current), Older, current) == w)
  {
    WalksStayAligned(current, directions);
    var w := FollowAll(current, directions);
    FollowStaysReachable(w, Older, current);
    FollowStaysReachable(w, Newer, current);
    FollowStaysReachable(Follow(w, Older, current), Newer, current);
    FollowStaysReachable(Follow(w, Newer, current), Older, current);
    hide Window;
  }

  // ----- cursors as text

  function Digit(d: int): (c: char)
    requires 0 <= d < 10
  {
    "0123456789"[d]
  }

  predicate IsDigit(c: char) {
    '0' <= c <= '9'
  }

  /** How an integer is put into a template string. */
  function Decimal(n: nat): (s: string)
    ensures s != "" && forall c :: c in s ==> IsDigit(c)
  {
    if n < 10 then [Digit(n)] else Decimal(n / 10) + [Digit(n % 10)]
  }

  /** The number a string of digits stands for. */
  function DigitsValue(s: string): nat
    requires forall c :: c in s ==> IsDigit(c)
  {
    if s == "" then 0
    else
      var last := s[|s| - 1];
      assert last in s && IsDigit(last);
      10 * DigitsValue(s[..|s| - 1]) + (last as int - '0' as int)
  }

  /** What `split('_')[0]` keeps. */
  function BeforeUnderscore(s: string): string {
    if s == "" || s[0] == '_' then "" else [s[0]] + BeforeUnderscore(s[1..])
  }

  /** The cursor text of an epoch. */
  function CursorText(epoch: nat, direction: Direction): string {
    Decimal(epoch) + if direction.Older? then "_older" else "_newer"
  }

  /** Reading a cursor: missing, empty or not a number gives None. */
  function CursorEpoch(text: Option<string>): Option<int> {
    if text.None? then None
    else
      var raw := BeforeUnderscore(text.value);
      if raw != "" && forall c :: c in raw ==> IsDigit(c) then Some(DigitsValue(raw)) else None
  }

  lemma {:induction false} BeforeUnderscoreOf(s: string, tail: string)
    requires '_' !in s
    ensures BeforeUnderscore(s + "_" + tail) == s
  {
    if s != "" {
      assert (s + "_" + tail)[1..] == s[1..] + "_" + tail;
      BeforeUnderscoreOf(s[1..], tail);
    } else {
      assert (s + "_" + tail)[0] == '_';
    }
  }

  lemma {:induction false} DecimalValue(n: nat)
    ensures DigitsValue(Decimal(n)) == n
  {
    if n >= 10 {
      DecimalValue(n / 10);
      var s := Decimal(n);
      assert s[..|s| - 1] == Decimal(n / 10);
    } else {
      assert Decimal(n)[..0] == "";
    }
  }

  /** A cursor handed out by the server is read back as the epoch it was made from. */
  lemma CursorRoundTrip(epoch: nat, direction: Direction)
    ensures CursorEpoch(Some(CursorText(epoch, direction))) == Some(epoch)
  {
    var tail := if direction.Older? then "older" else "newer";
    assert CursorText(epoch, direction) == Decimal(epoch) + "_" + tail;
    BeforeUnderscoreOf(Decimal(epoch), tail);
    DecimalValue(epoch);
  }

  /** Only digits make a cursor; whatever follows the first underscore is ignored. */
  lemma CursorNeedsDigits(head: string, tail: string)
    requires '_' !in head
    ensures CursorEpoch(Some(head + "_" + tail)).Some? <==> head != "" && forall c :: c in head ==> '0' <= c <= '9'
    ensures CursorEpoch(Some(head)) == CursorEpoch(Some(head + "_" + tail)) && CursorEpoch(None) == None
  {
    BeforeUnderscoreOf(head, tail);
    NoUnderscore(head);
  }

  lemma {:induction false} NoUnderscore(s: string)
    requires '_' !in s
    ensures BeforeUnderscore(s) == s
  {
    if s != "" { NoUnderscore(s[1..]); }
  }
}
