/**
 * The legacy timeline: asking for ever larger time windows, one behind the other, until there are
 * enough entries, merging and de-duplicating what each of them gave.
 */
module LegacyWidening {
  import opened Basics
  import opened StableSort
  import opened EpochWindow

  const DAY := 86_400_000

  datatype Entry = Entry(timestamp: int, entryType: string, payload: string)

  datatype Timeline = Timeline(start: int, end: int, entries: seq<Entry>)

  /** The parts of the identifier `time-type`. */
  function Id(e: Entry): (int, string) {
    (e.timestamp, e.entryType)
  }

  function Newest(e: Entry): Key {
    (-e.timestamp, 0)
  }

  /** Position of the entry with identifier k, or the length. */
  function Slot(m: seq<Entry>, k: (int, string)): (i: nat)
    ensures i <= |m|
  {
    if m == [] || Id(m[0]) == k then 0 else 1 + Slot(m[1..], k)
  }

  lemma {:induction false} SlotFinds(m: seq<Entry>, k: (int, string))
    ensures Slot(m, k) < |m| ==> Id(m[Slot(m, k)]) == k
    ensures forall j :: 0 <= j < Slot(m, k) ==> Id(m[j]) != k
  {
    if m != [] && Id(m[0]) != k {
      SlotFinds(m[1..], k);
    }
  }

  /** `Map.set`: a known key keeps its place and takes the new value. */
  function Put(m: seq<Entry>, x: Entry): seq<Entry> {
    var i := Slot(m, Id(x));
    if i == |m| then m + [x] else m[i := x]
  }

  /** The values of `new Map(...)`. */
  function UniqueById(xs: seq<Entry>): (m: seq<Entry>)
  {
    if xs == [] then [] else Put(UniqueById(xs[..|xs| - 1]), xs[|xs| - 1])
  }

  function UniqueNewestFirst(xs: seq<Entry>): seq<Entry> {
    Sort(UniqueById(xs), Newest)
  }

  ghost predicate IdsUnique(xs: seq<Entry>) {
    forall i, j :: 0 <= i < j < |xs| ==> Id(xs[i]) != Id(xs[j])
  }

  /** `Number(cursor) || Date.now()`. */
  function OrNow(cursor: int, now: int): int {
    if cursor == 0 then now else cursor
  }

  type Times = (int, int)

  /** When a level of the recursion is entered, and when its answer has arrived. */
  datatype Reading = Reading(called: int, answered: int)

  /** What Date.now() says at each depth. */
  type Clock = nat -> Reading

  /** Time does not go back, and the epoch of 1970 is over. */
  ghost predicate Runs(clock: Clock) {
    && (forall d :: 0 < clock(d).called <= clock(d).answered)
    && (forall d, e :: d < e ==> clock(d).answered <= clock(e).called)
  }

  /** The cursors of the window after `w`, if there is one to ask. */
  function NextWindow(w: Times, depth: nat, direction: Direction, now: int): Option<Times> {
    var extension := 2 * DAY * Pow2(depth);
    if direction.Older? then
      var newEnd := w.0 - DAY;
      Some((newEnd - extension, newEnd))
    else
      var newStart := w.1 + DAY;
      if newStart >= now then None else Some((newStart, Min(newStart + extension, now)))
  }

  /** The window that a pair of cursors asks for. */
  function Applied(cursors: Times, now: int): Times {
    (OrNow(cursors.0, now), OrNow(cursors.1, now))
  }

  /** What a query for a window returns, before de-duplication. */
  type Source = Times -> seq<Entry>

  function Fetch(source: Source, w: Times): seq<Entry> {
    UniqueNewestFirst(source(w))
  }

  /** The entries of a window with what the windows beyond it gave. */
  function Joined(w: Times, entries: seq<Entry>, r: Timeline, direction: Direction): Timeline {
    Timeline(if direction.Older? then r.start else w.0,
             if direction.Newer? then r.end else w.1,
             UniqueNewestFirst(entries + r.entries))
  }

  function Widen(
      source: Source, cursors: Times, minItems: int, depth: nat, maxDepth: nat, direction: Direction, clock: Clock)
    : Timeline
    decreases maxDepth - depth
  {
    var w := Applied(cursors, clock(depth).called);
    var entries := Fetch(source, w);
    if |entries| >= minItems || depth >= maxDepth then Timeline(w.0, w.1, entries)
    else
      match NextWindow(w, depth, direction, clock(depth).answered)
      case None => Timeline(w.0, w.1, entries)
      case Some(next) =>
        var r := Widen(source, next, minItems - |entries|, depth + 1, maxDepth, direction, clock);
        Joined(w, entries, r, direction)
  }

  /** The windows `Widen` queries, in order. */
  function Windows(
      source: Source, cursors: Times, minItems: int, depth: nat, maxDepth: nat, direction: Direction, clock: Clock)
    : seq<Times>
    decreases maxDepth - depth
  {
    var w := Applied(cursors, clock(depth).called);
    var entries := Fetch(source, w);
    if |entries| >= minItems || depth >= maxDepth then [w]
    else
      match NextWindow(w, depth, direction, clock(depth).answered)
      case None => [w]
      case Some(next) => [w] + Windows(source, next, minItems - |entries|, depth + 1, maxDepth, direction, clock)
  }

  // ----- de-duplication and order

  function Ids(xs: seq<Entry>): set<(int, string)> {
    set x | x in xs :: Id(x)
  }

  lemma PutKeepsUnique(m: seq<Entry>, x: Entry)
    requires IdsUnique(m)
    ensures IdsUnique(Put(m, x))
    ensures forall y :: y in Put(m, x) ==> y in m || y == x
    ensures Ids(Put(m, x)) == Ids(m) + {Id(x)}
  {
    SlotFinds(m, Id(x));
    hide Slot, Id;
    var i, r := Slot(m, Id(x)), Put(m, x);
    forall k | k in Ids(m) + {Id(x)} ensures k in Ids(r) {
      if k != Id(x) {
        var j :| 0 <= j < |m| && Id(m[j]) == k;
        assert r[j] == m[j] && r[j] in r;
      } else {
        assert r[i] == x && r[i] in r;
      }
    }
  }

  /** De-duplication leaves one entry for every identifier that occurs. */
  lemma {:induction false} UniqueByIdIsUnique(xs: seq<Entry>)
    ensures IdsUnique(UniqueById(xs))
    ensures forall x :: x in UniqueById(xs) ==> x in xs
    ensures Ids(UniqueById(xs)) == Ids(xs)
  {
    hide Put, Id;
    if xs != [] {
      var init, x := xs[..|xs| - 1], xs[|xs| - 1];
      assert xs == init + [x];
      UniqueByIdIsUnique(init);
      PutKeepsUnique(UniqueById(init), x);
      assert Ids(xs) == Ids(init) + {Id(x)};
    }
  }

  lemma {:induction false} UniqueByIdOfUnique(xs: seq<Entry>)
    requires IdsUnique(xs)
    ensures UniqueById(xs) == xs
  {
    if xs != [] {
      var init, x := xs[..|xs| - 1], xs[|xs| - 1];
      UniqueByIdOfUnique(init);
      forall j | 0 <= j < |init| ensures Id(init[j]) != Id(x) { assert init[j] == xs[j]; }
      SlotFinds(init, Id(x));
      assert xs == init + [x];
    }
  }

  lemma SortKeepsUnique(m: seq<Entry>)
    requires IdsUnique(m)
    ensures IdsUnique(Sort(m, Newest))
  {
    var r := Sort(m, Newest);
    SortIsSortedPermutation(m, Newest);
    SortKeepsLength(m, Newest);
    hide Sort, Sorted, Id;
    forall i, j | 0 <= i < j < |r| ensures Id(r[i]) != Id(r[j]) {
      if Id(r[i]) == Id(r[j]) {
        assert r[i] in m && r[j] in m;
        var p :| 0 <= p < |m| && m[p] == r[i];
        var q :| 0 <= q < |m| && m[q] == r[j];
        assert p == q;
        Twice(r, i, j);
        Once(m, r[i]);
      }
    }
  }

  lemma UniqueNewestFirstIs(xs: seq<Entry>)
    ensures var r := UniqueNewestFirst(xs);
            IdsUnique(r) && Sorted(r, Newest) && forall x :: x in r ==> x in xs
    ensures |UniqueNewestFirst(xs)| == |UniqueById(xs)| && Ids(UniqueNewestFirst(xs)) == Ids(xs)
  {
    UniqueByIdIsUnique(xs);
    SortKeepsUnique(UniqueById(xs));
    SortIsSortedPermutation(UniqueById(xs), Newest);
    SortKeepsLength(UniqueById(xs), Newest);
    hide UniqueById, Sort, Sorted, IdsUnique;
  }

  lemma ResultIsSortedUnique(
      source: Source, cursors: Times, minItems: int, depth: nat, maxDepth: nat, direction: Direction, clock: Clock)
    ensures var r := Widen(source, cursors, minItems, depth, maxDepth, direction, clock).entries;
            IdsUnique(r) && Sorted(r, Newest)
  {
    hide UniqueNewestFirst, IdsUnique, Sorted, Pow2;
    var w := Applied(cursors, clock(depth).called);
    var entries := Fetch(source, w);
    UniqueNewestFirstIs(source(w));
    var next := NextWindow(w, depth, direction, clock(depth).answered);
    if |entries| < minItems && depth < maxDepth && next.Some? {
      var r := Widen(source, next.value, minItems - |entries|, depth + 1, maxDepth, direction, clock);
      UniqueNewestFirstIs(entries + r.entries);
    }
  }

  /** Whatever was asked, the newest entry comes first, and no two have one time and type. */
  lemma ResultIsUniqueNewestFirst(
      source: Source, cursors: Times, minItems: int, depth: nat, maxDepth: nat, direction: Direction, clock: Clock)
    ensures var r := Widen(source, cursors, minItems, depth, maxDepth, direction, clock).entries;
            forall i, j :: 0 <= i < j < |r| ==>
              r[i].timestamp > r[j].timestamp
              || (r[i].timestamp == r[j].timestamp && r[i].entryType != r[j].entryType)
  {
    ResultIsSortedUnique(source, cursors, minItems, depth, maxDepth, direction, clock);
    hide Widen;
    var r := Widen(source, cursors, minItems, depth, maxDepth, direction, clock).entries;
    forall i, j | 0 <= i < j < |r|
      ensures r[i].timestamp > r[j].timestamp
              || (r[i].timestamp == r[j].timestamp && r[i].entryType != r[j].entryType)
    {
      assert KeyLeq(Newest(r[i]), Newest(r[j])) && Id(r[i]) != Id(r[j]);
    }
  }

  /** Of several entries with one time and type the last one stays. */
  lemma {:induction false} LastVersionStays(xs: seq<Entry>, i: nat)
    requires i < |xs|
    requires forall j :: i < j < |xs| ==> (xs[j].timestamp, xs[j].entryType) != (xs[i].timestamp, xs[i].entryType)
    ensures xs[i] in UniqueById(xs)
  {
    var init, x := xs[..|xs| - 1], xs[|xs| - 1];
    var m := UniqueById(init);
    SlotFinds(m, Id(x));
    if i < |init| {
      LastVersionStays(init, i);
      var k :| 0 <= k < |m| && m[k] == xs[i];
      assert UniqueById(xs)[k] == xs[i];
    } else {
      assert UniqueById(xs)[Slot(m, Id(x))] == x;
    }
  }

  /** Entries are listed in the order in which their times and types first occur. */
  lemma {:induction false} FirstSeenFirst(xs: seq<Entry>, i: nat, j: nat)
    requires i < j < |UniqueById(xs)|
    ensures var a, b := UniqueById(xs)[i], UniqueById(xs)[j];
            exists k :: 0 <= k < |xs| && (xs[k].timestamp, xs[k].entryType) == (a.timestamp, a.entryType)
              && forall l :: 0 <= l <= k ==> (xs[l].timestamp, xs[l].entryType) != (b.timestamp, b.entryType)
  {
    var init, x := xs[..|xs| - 1], xs[|xs| - 1];
    var m := UniqueById(init);
    SlotFinds(m, Id(x));
    if j < |m| {
      FirstSeenFirst(init, i, j);
      var k :| 0 <= k < |init| && Id(init[k]) == Id(m[i]) && forall l :: 0 <= l <= k ==> Id(init[l]) != Id(m[j]);
      assert xs[k] == init[k] && forall l :: 0 <= l <= k ==> xs[l] == init[l];
    } else {
      UniqueByIdIsUnique(init);
      assert m[i] in m && m[i] in init;
      var k :| 0 <= k < |init| && init[k] == m[i];
      forall l | 0 <= l <= k ensures Id(xs[l]) != Id(x) {
        assert xs[l] in init && Id(xs[l]) in Ids(init);
      }
      assert xs[k] == m[i];
    }
  }

  function AtTime(t: int): Entry -> bool {
    (e: Entry) => e.timestamp == t
  }

  /** Sorting leaves the entries of one time in the order in which de-duplication lists them. */
  lemma SameTimeStays(xs: seq<Entry>, t: int)
    ensures Filtered(UniqueNewestFirst(xs), AtTime(t)) == Filtered(UniqueById(xs), AtTime(t))
  {
    SortKeepsTies(UniqueById(xs), Newest, AtTime(t), (-t, 0));
  }

  /** The timestamps and types of all entries of the windows. */
  function KeysOf(source: Source, ws: seq<Times>): set<(int, string)> {
    set w, x | w in ws && x in source(w) :: (x.timestamp, x.entryType)
  }

  /** The answer has exactly the entries of the windows on the way, up to their time and type. */
  lemma {:induction false} ResultHasAllWindows(
      source: Source, cursors: Times, minItems: int, depth: nat, maxDepth: nat, direction: Direction, clock: Clock)
    ensures var r := Widen(source, cursors, minItems, depth, maxDepth, direction, clock).entries;
            Ids(r) == KeysOf(source, Windows(source, cursors, minItems, depth, maxDepth, direction, clock))
    ensures var ws := Windows(source, cursors, minItems, depth, maxDepth, direction, clock);
            forall x :: x in Widen(source, cursors, minItems, depth, maxDepth, direction, clock).entries ==>
              exists w :: w in ws && x in source(w)
    decreases maxDepth - depth
  {
    hide UniqueNewestFirst, Pow2, KeysOf, IdsUnique, Ids;
    var w := Applied(cursors, clock(depth).called);
    var entries := Fetch(source, w);
    UniqueNewestFirstIs(source(w));
    KeysOfOne(source, w);
    var next := NextWindow(w, depth, direction, clock(depth).answered);
    if |entries| < minItems && depth < maxDepth && next.Some? {
      var minItems' := minItems - |entries|;
      var r := Widen(source, next.value, minItems', depth + 1, maxDepth, direction, clock);
      var rest := Windows(source, next.value, minItems', depth + 1, maxDepth, direction, clock);
      ResultHasAllWindows(source, next.value, minItems', depth + 1, maxDepth, direction, clock);
      UniqueNewestFirstIs(entries + r.entries);
      IdsOfBoth(entries, r.entries);
      KeysOfMore(source, w, rest);
      assert forall v :: v in [w] + rest <==> v == w || v in rest;
    } else {
      assert w in [w];
    }
  }

  lemma KeysOfOne(source: Source, w: Times)
    ensures KeysOf(source, [w]) == Ids(source(w))
  {
  }

  lemma KeysOfMore(source: Source, w: Times, rest: seq<Times>)
    ensures KeysOf(source, [w] + rest) == KeysOf(source, [w]) + KeysOf(source, rest)
  {
    assert forall v :: v in [w] + rest <==> v == w || v in rest;
  }

  lemma IdsOfBoth(a: seq<Entry>, b: seq<Entry>)
    ensures Ids(a + b) == Ids(a) + Ids(b)
  {
    assert forall x :: x in a + b <==> x in a || x in b;
  }

  /** The ends that an answer reports: an older one keeps the end asked for, a newer one the start. */
  lemma {:induction false} AskedEndStays(
      source: Source, cursors: Times, minItems: int, depth: nat, maxDepth: nat, direction: Direction, clock: Clock)
    ensures var r := Widen(source, cursors, minItems, depth, maxDepth, direction, clock);
            if direction.Older? then r.end == (if cursors.1 == 0 then clock(depth).called else cursors.1)
            else r.start == (if cursors.0 == 0 then clock(depth).called else cursors.0)
  {
    hide UniqueNewestFirst, NextWindow;
  }

  /**
   * How each window on the way follows from the one before it: a day apart, and 2, 4, 8, ... days long, a newer
   * one cut off at the present; a cursor of 0 is read as the time of its level.
   */
  lemma {:induction false} WindowsFollow(
      source: Source, cursors: Times, minItems: int, depth: nat, maxDepth: nat, direction: Direction, clock: Clock,
      j: nat)
    requires j + 1 < |Windows(source, cursors, minItems, depth, maxDepth, direction, clock)|
    ensures var ws := Windows(source, cursors, minItems, depth, maxDepth, direction, clock);
            var length, now := 2 * 86_400_000 * Pow2(depth + j), clock(depth + j).answered;
            var called := clock(depth + j + 1).called;
            if direction.Older? then
              var end := ws[j].0 - 86_400_000;
              ws[j + 1] == (OrNow(end - length, called), OrNow(end, called))
            else
              var start := ws[j].1 + 86_400_000;
              && start < now
              && ws[j + 1].0 == OrNow(start, called)
              && ws[j + 1].1 == OrNow(if start + length < now then start + length else now, called)
    decreases j
  {
    hide Fetch, Pow2, OrNow;
    var w := Applied(cursors, clock(depth).called);
    var next := NextWindow(w, depth, direction, clock(depth).answered).value;
    var minItems' := minItems - |Fetch(source, w)|;
    var rest := Windows(source, next, minItems', depth + 1, maxDepth, direction, clock);
    assert Windows(source, cursors, minItems, depth, maxDepth, direction, clock) == [w] + rest;
    FirstWindow(source, next, minItems', depth + 1, maxDepth, direction, clock);
    hide Windows;
    if j > 0 {
      WindowsFollow(source, next, minItems', depth + 1, maxDepth, direction, clock, j - 1);
      assert (depth + 1) + (j - 1) == depth + j;
    }
  }

  /** How many entries the windows give, each de-duplicated by itself. */
  function Given(source: Source, ws: seq<Times>): nat {
    if ws == [] then 0 else |Fetch(source, ws[0])| + Given(source, ws[1..])
  }

  /** No window is asked for once the windows before it have given enough. */
  lemma {:induction false} AskedForMore(
      source: Source, cursors: Times, minItems: int, depth: nat, maxDepth: nat, direction: Direction, clock: Clock,
      n: nat)
    requires 0 < n < |Windows(source, cursors, minItems, depth, maxDepth, direction, clock)|
    ensures Given(source, Windows(source, cursors, minItems, depth, maxDepth, direction, clock)[..n]) < minItems
    decreases n
  {
    hide Fetch, NextWindow;
    var w := Applied(cursors, clock(depth).called);
    var next := NextWindow(w, depth, direction, clock(depth).answered).value;
    var minItems' := minItems - |Fetch(source, w)|;
    var rest := Windows(source, next, minItems', depth + 1, maxDepth, direction, clock);
    var ws := Windows(source, cursors, minItems, depth, maxDepth, direction, clock);
    assert ws == [w] + rest;
    hide Windows;
    assert ws[..n][0] == w && ws[..n][1..] == rest[..n - 1];
    if n > 1 { AskedForMore(source, next, minItems', depth + 1, maxDepth, direction, clock, n - 1); }
  }

  // ----- how far it goes

  /** At most maxDepth - depth + 1 windows lie on the way to the answer. */
  lemma {:induction false} WindowCount(
      source: Source, cursors: Times, minItems: int, depth: nat, maxDepth: nat, direction: Direction, clock: Clock)
    ensures 1 <= |Windows(source, cursors, minItems, depth, maxDepth, direction, clock)| <= Left(depth, maxDepth) + 1
    decreases maxDepth - depth
  {
    var w := Applied(cursors, clock(depth).called);
    var next := NextWindow(w, depth, direction, clock(depth).answered);
    if |Fetch(source, w)| < minItems && depth < maxDepth && next.Some? {
      WindowCount(source, next.value, minItems - |Fetch(source, w)|, depth + 1, maxDepth, direction, clock);
    }
  }

  /** How many more levels may follow. */
  function Left(depth: nat, maxDepth: nat): nat {
    if depth < maxDepth then maxDepth - depth else 0
  }

  /** Loading newer entries never passes the present of its last level, or the end that was asked for. */
  lemma {:induction false} NewerStopsAtPresent(
      source: Source, cursors: Times, minItems: int, depth: nat, maxDepth: nat, clock: Clock)
    requires Runs(clock)
    ensures var levels := |Windows(source, cursors, minItems, depth, maxDepth, Newer, clock)|;
            && levels > 0
            && Widen(source, cursors, minItems, depth, maxDepth, Newer, clock).end
               <= Max(OrNow(cursors.1, clock(depth).called), clock(depth + levels - 1).called)
    decreases maxDepth - depth
  {
    hide Fetch, Pow2, UniqueNewestFirst, Runs;
    var w := Applied(cursors, clock(depth).called);
    var next := NextWindow(w, depth, Newer, clock(depth).answered);
    if |Fetch(source, w)| < minItems && depth < maxDepth && next.Some? {
      var minItems' := minItems - |Fetch(source, w)|;
      NewerStopsAtPresent(source, next.value, minItems', depth + 1, maxDepth, clock);
      var rest := |Windows(source, next.value, minItems', depth + 1, maxDepth, Newer, clock)|;
      assert (depth + 1) + rest - 1 == depth + (1 + rest) - 1;
      ClockRuns(clock, depth, depth + rest);
      ClockRuns(clock, depth, depth + 1);
      ClockRuns(clock, depth + 1, depth + rest);
    }
  }

  lemma ClockRuns(clock: Clock, d: nat, e: nat)
    requires Runs(clock)
    ensures d < e ==> clock(d).answered <= clock(e).called
    ensures 0 < clock(d).called <= clock(d).answered
  {
  }

  /** How far n steps from a depth reach back: a day each, and windows of 2, 4, 8, ... days. */
  function Reach(depth: nat, n: nat): int {
    n * DAY + 2 * DAY * (Pow2(depth + n) - Pow2(depth))
  }

  lemma ReachStep(depth: nat, n: nat)
    ensures Reach(depth, n + 1) == DAY + 2 * DAY * Pow2(depth) + Reach(depth + 1, n)
    ensures Reach(depth, 0) == 0
  {
    assert depth + (n + 1) == (depth + 1) + n;
    assert Pow2(depth + 1) == 2 * Pow2(depth);
  }

  /** The start of the next older window, before it is read as a cursor. */
  function Back(start: int, depth: nat): int {
    start - DAY - 2 * DAY * Pow2(depth)
  }

  /** The start after n steps back, cursors that land on 0 being read as the time of their level. */
  function StartAfter(start: int, depth: nat, n: nat, clock: Clock): int
    decreases n
  {
    if n == 0 then start
    else StartAfter(OrNow(Back(start, depth), clock(depth + 1).called), depth + 1, n - 1, clock)
  }

  /** The applied start of an older request is that of its last window. */
  lemma {:induction false} OlderStartIsLastWindow(
      source: Source, cursors: Times, minItems: int, depth: nat, maxDepth: nat, clock: Clock)
    ensures var steps := |Windows(source, cursors, minItems, depth, maxDepth, Older, clock)| - 1;
            && steps >= 0
            && Widen(source, cursors, minItems, depth, maxDepth, Older, clock).start
               == StartAfter(OrNow(cursors.0, clock(depth).called), depth, steps, clock)
    decreases maxDepth - depth
  {
    hide Fetch, Pow2, UniqueNewestFirst, OrNow;
    var w := Applied(cursors, clock(depth).called);
    var next := NextWindow(w, depth, Older, clock(depth).answered);
    WindowCount(source, cursors, minItems, depth, maxDepth, Older, clock);
    if |Fetch(source, w)| < minItems && depth < maxDepth {
      WindowCount(source, next.value, minItems - |Fetch(source, w)|, depth + 1, maxDepth, Older, clock);
      OlderStartIsLastWindow(source, next.value, minItems - |Fetch(source, w)|, depth + 1, maxDepth, clock);
    }
  }

  /** No start on the way back is exactly 0, the timestamp that reads as "missing". */
  ghost predicate StartsClear(start: int, depth: nat, n: nat) {
    forall k :: 0 < k <= n ==> start != Reach(depth, k)
  }

  lemma {:induction false} StartNeverBelow(start: int, depth: nat, n: nat, clock: Clock)
    requires Runs(clock)
    ensures StartAfter(start, depth, n, clock) >= start - Reach(depth, n)
    decreases n
  {
    if n > 0 {
      ReachStep(depth, n - 1);
      StartNeverBelow(OrNow(Back(start, depth), clock(depth + 1).called), depth + 1, n - 1, clock);
    } else {
      ReachStep(depth, 0);
    }
  }

  lemma ClearStep(start: int, depth: nat, n: nat)
    requires n > 0
    ensures var exact := Back(start, depth);
            StartsClear(start, depth, n) <==> exact != 0 && StartsClear(exact, depth + 1, n - 1)
  {
    var exact := Back(start, depth);
    ReachStep(depth, 0);
    ReachStep(depth + 1, 0);
    hide Reach, Pow2;
    assert Reach(depth, 1) == start - exact;
    if StartsClear(start, depth, n) {
      var depth' := depth + 1;
      forall k | 0 < k <= n - 1 ensures exact != Reach(depth', k) {
        ReachStep(depth, k);
        assert start != Reach(depth, k + 1);
      }
    }
    if exact != 0 && StartsClear(exact, depth + 1, n - 1) {
      forall k | 0 < k <= n ensures start != Reach(depth, k) {
        if k > 1 {
          ReachStep(depth, k - 1);
          assert exact != Reach(depth + 1, k - 1);
        }
      }
    }
  }

  /**
   * n steps back move the start by exactly n days and 2 * (2^(depth + n) - 2^depth) days if and only if
   * no start on the way is 0; from a start that is, the walk jumps forward to the present.
   */
  lemma {:induction false} OlderReachIff(start: int, depth: nat, n: nat, clock: Clock)
    requires Runs(clock)
    ensures StartAfter(start, depth, n, clock) == start - Reach(depth, n) <==> StartsClear(start, depth, n)
    decreases n
  {
    ReachStep(depth, 0);
    if n > 0 {
      ReachStep(depth, n - 1);
      ClearStep(start, depth, n);
      var exact, called := Back(start, depth), clock(depth + 1).called;
      OlderReachIff(OrNow(exact, called), depth + 1, n - 1, clock);
      StartNeverBelow(OrNow(exact, called), depth + 1, n - 1, clock);
      hide Reach, Pow2, StartsClear;
    }
  }

  /** In terms of the request: how far back an older answer reaches, by the number of windows it took. */
  lemma OlderAnswerReach(source: Source, cursors: Times, minItems: int, depth: nat, maxDepth: nat, clock: Clock)
    requires Runs(clock)
    ensures var steps := |Windows(source, cursors, minItems, depth, maxDepth, Older, clock)| - 1;
            var start := OrNow(cursors.0, clock(depth).called);
            && 0 <= steps <= Left(depth, maxDepth)
            && (Widen(source, cursors, minItems, depth, maxDepth, Older, clock).start == start - Reach(depth, steps)
                <==> StartsClear(start, depth, steps))
  {
    WindowCount(source, cursors, minItems, depth, maxDepth, Older, clock);
    OlderStartIsLastWindow(source, cursors, minItems, depth, maxDepth, clock);
    var steps := |Windows(source, cursors, minItems, depth, maxDepth, Older, clock)| - 1;
    OlderReachIff(OrNow(cursors.0, clock(depth).called), depth, steps, clock);
    hide *;
  }

  // ----- disjoint windows

  /** The windows follow one another without touching, in the direction asked for. */
  ghost predicate Behind(ws: seq<Times>, direction: Direction) {
    forall i, j :: 0 <= i < j < |ws| ==> if direction.Older? then ws[j].1 < ws[i].0 else ws[i].1 < ws[j].0
  }

  lemma BehindCons(w: Times, rest: seq<Times>, direction: Direction)
    ensures Behind([w] + rest, direction)
            <==> Behind(rest, direction)
                 && forall j :: 0 <= j < |rest| ==> if direction.Older? then rest[j].1 < w.0 else w.1 < rest[j].0
  {
    var ws := [w] + rest;
    assert forall j :: 0 <= j < |rest| ==> ws[j + 1] == rest[j];
    if Behind(ws, direction) {
      forall i, j | 0 <= i < j < |rest|
        ensures if direction.Older? then rest[j].1 < rest[i].0 else rest[i].1 < rest[j].0
      {
        assert ws[i + 1] == rest[i] && ws[j + 1] == rest[j];
      }
      forall j | 0 <= j < |rest| ensures if direction.Older? then rest[j].1 < w.0 else w.1 < rest[j].0 {
        assert ws[0] == w && ws[j + 1] == rest[j];
      }
    }
  }

  /** Loading newer entries, whatever was asked for, the windows are disjoint, each after the one before it. */
  lemma {:induction false} NewerIsDisjoint(
      source: Source, cursors: Times, minItems: int, depth: nat, maxDepth: nat, clock: Clock)
    requires Runs(clock)
    ensures var ws := Windows(source, cursors, minItems, depth, maxDepth, Newer, clock);
            && Behind(ws, Newer)
            && forall j :: 0 <= j < |ws| ==> OrNow(cursors.1, clock(depth).called) <= ws[j].1
                                             && (j > 0 ==> OrNow(cursors.1, clock(depth).called) < ws[j].0)
    decreases maxDepth - depth
  {
    hide Fetch, Pow2, Behind, Runs;
    var w := Applied(cursors, clock(depth).called);
    OneWindow(w, Newer);
    if |Fetch(source, w)| < minItems && depth < maxDepth {
      var next := NextWindow(w, depth, Newer, clock(depth).answered);
      if next.Some? {
        var minItems' := minItems - |Fetch(source, w)|;
        NewerIsDisjoint(source, next.value, minItems', depth + 1, maxDepth, clock);
        var rest := Windows(source, next.value, minItems', depth + 1, maxDepth, Newer, clock);
        FirstWindow(source, next.value, minItems', depth + 1, maxDepth, Newer, clock);
        assert Windows(source, cursors, minItems, depth, maxDepth, Newer, clock) == [w] + rest;
        hide Windows;
        ClockRuns(clock, depth, depth + 1);
        ClockRuns(clock, depth + 1, depth + 2);
        BehindCons(w, rest, Newer);
        assert forall j :: 0 <= j < |rest| ==> w.1 < rest[j].0 && w.1 <= rest[j].1;
      }
    }
  }

  lemma FirstWindow(
      source: Source, cursors: Times, minItems: int, depth: nat, maxDepth: nat, direction: Direction, clock: Clock)
    ensures var ws := Windows(source, cursors, minItems, depth, maxDepth, direction, clock);
            |ws| > 0 && ws[0] == Applied(cursors, clock(depth).called)
  {
  }

  /** Of n windows back, none but the first has end 0, and none but the first and the last has start 0. */
  predicate StepsClear(start: int, depth: nat, n: nat)
    decreases n
  {
    || n <= 1
    || (start != DAY
        && (n == 2 || (Back(start, depth) != 0 && StepsClear(Back(start, depth), depth + 1, n - 1))))
  }

  /** 1970 is longer ago than the widest window. */
  ghost predicate Late(clock: Clock, maxDepth: nat) {
    forall d :: clock(d).called >= 2 * DAY + 2 * DAY * Pow2(maxDepth)
  }

  /**
   * Loading older entries, the windows are disjoint, each before the one before it, if no cursor on the way
   * is 0, the value that is read as the present; and only if, once 1970 is longer ago than the widest window.
   */
  lemma {:induction false} OlderIsDisjointIff(
      source: Source, cursors: Times, minItems: int, depth: nat, maxDepth: nat, clock: Clock)
    requires Runs(clock)
    ensures var ws := Windows(source, cursors, minItems, depth, maxDepth, Older, clock);
            var clear := StepsClear(OrNow(cursors.0, clock(depth).called), depth, |ws|);
            (clear ==> Behind(ws, Older)) && (Late(clock, maxDepth) && Behind(ws, Older) ==> clear)
    decreases maxDepth - depth
  {
    hide Fetch, Pow2, Late, Behind;
    var w := Applied(cursors, clock(depth).called);
    WindowCount(source, cursors, minItems, depth, maxDepth, Older, clock);
    if |Fetch(source, w)| < minItems && depth < maxDepth {
      var next := NextWindow(w, depth, Older, clock(depth).answered).value;
      var minItems' := minItems - |Fetch(source, w)|;
      var rest := Windows(source, next, minItems', depth + 1, maxDepth, Older, clock);
      assert Windows(source, cursors, minItems, depth, maxDepth, Older, clock) == [w] + rest;
      OlderIsDisjointIff(source, next, minItems', depth + 1, maxDepth, clock);
      OlderEnds(source, next, minItems', depth + 1, maxDepth, clock);
      BehindCons(w, rest, Older);
      OlderStep(w, next, rest, depth, maxDepth, clock);
    } else {
      OneWindow(w, Older);
    }
  }

  lemma OneWindow(w: Times, direction: Direction)
    ensures Behind([w], direction)
  {
  }

  /** The window after the first ends a day before its start. */
  lemma OlderEnds(source: Source, cursors: Times, minItems: int, depth: nat, maxDepth: nat, clock: Clock)
    ensures var ws := Windows(source, cursors, minItems, depth, maxDepth, Older, clock);
            && |ws| > 0 && ws[0] == Applied(cursors, clock(depth).called)
            && (|ws| > 1 ==> ws[1].1 == OrNow(ws[0].0 - DAY, clock(depth + 1).called) && depth < maxDepth)
  {
    hide Fetch;
    var w := Applied(cursors, clock(depth).called);
    if |Fetch(source, w)| < minItems && depth < maxDepth {
      var next := NextWindow(w, depth, Older, clock(depth).answered).value;
      FirstWindow(source, next, minItems - |Fetch(source, w)|, depth + 1, maxDepth, Older, clock);
    }
  }

  ghost predicate AllBefore(ws: seq<Times>, start: int) {
    forall j :: 0 <= j < |ws| ==> ws[j].1 < start
  }

  /** One step back: what the windows behind a window tell about its own step. */
  lemma OlderStep(w: Times, next: Times, rest: seq<Times>, depth: nat, maxDepth: nat, clock: Clock)
    requires Runs(clock) && depth < maxDepth
    requires next == (Back(w.0, depth), w.0 - DAY)
    requires rest != [] && rest[0] == Applied(next, clock(depth + 1).called)
    requires |rest| > 1 ==> rest[1].1 == OrNow(rest[0].0 - DAY, clock(depth + 2).called) && depth + 1 < maxDepth
    requires StepsClear(OrNow(next.0, clock(depth + 1).called), depth + 1, |rest|) ==> Behind(rest, Older)
    requires Late(clock, maxDepth) && Behind(rest, Older)
             ==> StepsClear(OrNow(next.0, clock(depth + 1).called), depth + 1, |rest|)
    ensures StepsClear(w.0, depth, |rest| + 1) ==> Behind(rest, Older) && AllBefore(rest, w.0)
    ensures Late(clock, maxDepth) && Behind(rest, Older) && AllBefore(rest, w.0)
            ==> StepsClear(w.0, depth, |rest| + 1)
  {
    if Late(clock, maxDepth) {
      Pow2Grows(depth, maxDepth);
      assert clock(depth + 1).called >= 2 * DAY + 2 * DAY * Pow2(maxDepth);
      assert clock(depth + 2).called >= 2 * DAY + 2 * DAY * Pow2(maxDepth);
    }
    hide Pow2, Late, Runs;
    if w.0 == DAY {
      assert Late(clock, maxDepth) ==> rest[0].1 >= w.0;
    } else if |rest| > 1 && next.0 == 0 {
      assert Late(clock, maxDepth) ==> rest[1].1 >= w.0;
    } else if |rest| > 1 {
      if Behind(rest, Older) {
        forall j | 0 <= j < |rest| ensures rest[j].1 < w.0 {
          assert j > 0 ==> rest[j].1 < rest[0].0;
        }
      }
    } else {
      OneWindow(rest[0], Older);
      assert rest == [rest[0]];
    }
  }

  predicate EndClear(start: int, depth: nat, k: nat) {
    start != Reach(depth, k) + DAY
  }

  predicate StartClear(start: int, depth: nat, k: nat) {
    start != Reach(depth, k) + DAY + 2 * DAY * Pow2(depth + k)
  }

  /** Clear cursors are a matter of the first start only: it must not be one of finitely many values. */
  lemma {:induction false} StepsClearIs(start: int, depth: nat, n: nat)
    ensures StepsClear(start, depth, n)
            <==> && (forall k: nat :: k < n - 1 ==> EndClear(start, depth, k))
                 && (forall k: nat :: k < n - 2 ==> StartClear(start, depth, k))
    decreases n
  {
    ReachStep(depth, 0);
    if n >= 2 {
      var back, depth' := Back(start, depth), depth + 1;
      StepsClearIs(back, depth', n - 1);
      assert EndClear(start, depth, 0) <==> start != DAY;
      assert StartClear(start, depth, 0) <==> back != 0;
      forall k: nat
        ensures EndClear(back, depth', k) <==> EndClear(start, depth, k + 1)
        ensures StartClear(back, depth', k) <==> StartClear(start, depth, k + 1)
      {
        ReachStep(depth, k);
        assert depth + (k + 1) == depth' + k;
      }
      hide EndClear, StartClear, Reach, Pow2, Back;
      LaterSteps(start, depth, back, depth', n);
    }
  }

  /** Splitting off the first step. */
  lemma LaterSteps(start: int, depth: nat, back: int, depth': nat, n: nat)
    requires n >= 2
    requires forall k: nat :: EndClear(back, depth', k) <==> EndClear(start, depth, k + 1)
    requires forall k: nat :: StartClear(back, depth', k) <==> StartClear(start, depth, k + 1)
    ensures (forall k: nat :: k < n - 1 ==> EndClear(start, depth, k))
            <==> EndClear(start, depth, 0) && (forall k: nat :: k < n - 2 ==> EndClear(back, depth', k))
    ensures n > 2 ==>
              ((forall k: nat :: k < n - 2 ==> StartClear(start, depth, k))
               <==> StartClear(start, depth, 0) && (forall k: nat :: k < n - 3 ==> StartClear(back, depth', k)))
  {
    hide EndClear, StartClear;
    if EndClear(start, depth, 0) && forall k: nat :: k < n - 2 ==> EndClear(back, depth', k) {
      forall k: nat | k < n - 1 ensures EndClear(start, depth, k) {
        if k > 0 { assert EndClear(back, depth', k - 1) <==> EndClear(start, depth, (k - 1) + 1); }
      }
    }
    if n > 2 && StartClear(start, depth, 0) && forall k: nat :: k < n - 3 ==> StartClear(back, depth', k) {
      forall k: nat | k < n - 2 ensures StartClear(start, depth, k) {
        if k > 0 { assert StartClear(back, depth', k - 1) <==> StartClear(start, depth, (k - 1) + 1); }
      }
    }
  }

  // ----- enough entries

  /** Every query returns entries of its window only. */
  ghost predicate StaysInside(source: Source) {
    forall w: Times, x :: x in source(w) ==> Inside(x, w)
  }

  predicate Inside(x: Entry, w: Times) {
    w.0 <= x.timestamp <= w.1
  }

  lemma FetchIs(source: Source, w: Times)
    requires StaysInside(source)
    ensures IdsUnique(Fetch(source, w)) && forall x :: x in Fetch(source, w) ==> Inside(x, w)
  {
    UniqueNewestFirstIs(source(w));
  }

  /** Every entry of the answer comes from one of the windows. */
  lemma {:induction false} EntriesLieInWindows(
      source: Source, cursors: Times, minItems: int, depth: nat, maxDepth: nat, direction: Direction, clock: Clock,
      x: Entry)
    requires StaysInside(source)
    requires x in Widen(source, cursors, minItems, depth, maxDepth, direction, clock).entries
    ensures exists w :: w in Windows(source, cursors, minItems, depth, maxDepth, direction, clock) && Inside(x, w)
    decreases maxDepth - depth
  {
    hide Fetch, StaysInside, Inside, Pow2, OrNow, UniqueNewestFirst, NextWindow;
    var w := Applied(cursors, clock(depth).called);
    var entries := Fetch(source, w);
    FetchIs(source, w);
    var next := NextWindow(w, depth, direction, clock(depth).answered);
    var ws := Windows(source, cursors, minItems, depth, maxDepth, direction, clock);
    assert ws[0] == w && w in ws;
    if |entries| < minItems && depth < maxDepth && next.Some? {
      var minItems' := minItems - |entries|;
      var r := Widen(source, next.value, minItems', depth + 1, maxDepth, direction, clock).entries;
      UniqueNewestFirstIs(entries + r);
      if x in r {
        EntriesLieInWindows(source, next.value, minItems', depth + 1, maxDepth, direction, clock, x);
        var v :| v in Windows(source, next.value, minItems', depth + 1, maxDepth, direction, clock) && Inside(x, v);
        assert v in ws;
      }
    }
  }

  lemma MergedCount(a: seq<Entry>, b: seq<Entry>)
    requires IdsUnique(a) && IdsUnique(b)
    requires forall x, y :: x in a && y in b ==> x.timestamp != y.timestamp
    ensures |UniqueNewestFirst(a + b)| == |a| + |b|
  {
    assert IdsUnique(a + b) by {
      forall i, j | 0 <= i < j < |a + b| ensures Id((a + b)[i]) != Id((a + b)[j]) {
        if i < |a| <= j { assert a[i] in a && b[j - |a|] in b; }
      }
    }
    UniqueByIdOfUnique(a + b);
    UniqueNewestFirstIs(a + b);
  }

  /** What later windows give has other timestamps than what this one gave. */
  lemma ApartFromLater(
      source: Source, cursors: Times, minItems: int, depth: nat, maxDepth: nat, direction: Direction, clock: Clock,
      w: Times, x: Entry, y: Entry)
    requires StaysInside(source) && x in Fetch(source, w)
    requires y in Widen(source, cursors, minItems, depth, maxDepth, direction, clock).entries
    requires Behind([w] + Windows(source, cursors, minItems, depth, maxDepth, direction, clock), direction)
    ensures x.timestamp != y.timestamp
  {
    FetchIs(source, w);
    EntriesLieInWindows(source, cursors, minItems, depth, maxDepth, direction, clock, y);
    var rest := Windows(source, cursors, minItems, depth, maxDepth, direction, clock);
    BehindCons(w, rest, direction);
    var v :| v in rest && Inside(y, v);
    var j :| 0 <= j < |rest| && rest[j] == v;
    hide Fetch, Windows, Widen, StaysInside, Behind;
  }

  /**
   * If every query stays in its window and the windows are disjoint, the answer has the entries that were
   * asked for unless the depth was used up or, for newer entries, the present was reached.
   */
  lemma {:induction false} EnoughUnlessStopped(
      source: Source, cursors: Times, minItems: int, depth: nat, maxDepth: nat, direction: Direction, clock: Clock)
    requires StaysInside(source)
    requires Behind(Windows(source, cursors, minItems, depth, maxDepth, direction, clock), direction)
    ensures var r := Widen(source, cursors, minItems, depth, maxDepth, direction, clock);
            var ws := Windows(source, cursors, minItems, depth, maxDepth, direction, clock);
            || |r.entries| >= minItems
            || |ws| == Left(depth, maxDepth) + 1
            || (direction.Newer? && |ws| > 0 && ws[|ws| - 1].1 + DAY >= clock(depth + |ws| - 1).answered)
    decreases maxDepth - depth
  {
    hide Fetch, StaysInside, Pow2, OrNow, UniqueNewestFirst, Behind;
    var w := Applied(cursors, clock(depth).called);
    var entries := Fetch(source, w);
    FetchIs(source, w);
    if |entries| < minItems && depth < maxDepth {
      var next := NextWindow(w, depth, direction, clock(depth).answered);
      if next.Some? {
        var minItems' := minItems - |entries|;
        var rest := Windows(source, next.value, minItems', depth + 1, maxDepth, direction, clock);
        BehindCons(w, rest, direction);
        EnoughUnlessStopped(source, next.value, minItems', depth + 1, maxDepth, direction, clock);
        var r := Widen(source, next.value, minItems', depth + 1, maxDepth, direction, clock).entries;
        forall x, y | x in entries && y in r ensures x.timestamp != y.timestamp {
          ApartFromLater(source, next.value, minItems', depth + 1, maxDepth, direction, clock, w, x, y);
        }
        ResultIsSortedUnique(source, next.value, minItems', depth + 1, maxDepth, direction, clock);
        MergedCount(entries, r);
        WindowCount(source, next.value, minItems', depth + 1, maxDepth, direction, clock);
        hide NextWindow, Applied;
        assert (depth + 1) + |rest| - 1 == depth + (1 + |rest|) - 1;
      }
    }
  }
}
