/**
 * Server and client together: after any walk through the pages the client's list is exactly the
 * loaded range of epochs, newest first, each as the server shows it.
 */
module TimelineWalk {
  import opened Basics
  import opened Bundling
  import opened EpochWindow
  import opened EpochPage
  import opened EpochWalk
  import opened TimelineClient
  import opened TimelineIds

  /** The hook's state. */
  datatype Client = Client(epochs: seq<EpochGroup>, nextCursor: Option<int>, prevCursor: Option<int>)

  /** A response arrives: its cursors replace the old ones, its epochs are merged in. */
  function OnSuccess(c: Client, page: Page, direction: Direction): Client {
    Client(Merge(c.epochs, page.epochs, direction), page.nextCursor, page.prevCursor)
  }

  function FirstLoad(d: Data, current: nat): Client {
    OnSuccess(Client([], None, None), ServerPage(d, Older, None, current), Older)
  }

  /** Loading older or newer epochs; without a cursor there is nothing to load. */
  function Load(d: Data, current: nat, c: Client, direction: Direction): Client {
    var cursor := if direction.Older? then c.nextCursor else c.prevCursor;
    if cursor.None? then c else OnSuccess(c, ServerPage(d, direction, cursor, current), direction)
  }

  function Walk(d: Data, current: nat, directions: seq<Direction>): Client {
    if directions == [] then FirstLoad(d, current)
    else Load(d, current, Walk(d, current, directions[..|directions| - 1]), directions[|directions| - 1])
  }

  /** The smallest epoch that the walk has loaded; the largest is the current one. */
  function LowestLoaded(current: nat, directions: seq<Direction>): int {
    if directions == [] then FollowAll(current, []).0
    else Min(LowestLoaded(current, directions[..|directions| - 1]), FollowAll(current, directions).0)
  }

  /** Whether one more step loads a page, and loads it again. */
  predicate Reloads(current: nat, directions: seq<Direction>, direction: Direction) {
    var w := FollowAll(current, directions);
    && (if direction.Older? then NextCursor(w) else PrevCursor(w, current)).Some?
    && LowestLoaded(current, directions) <= FollowAll(current, directions + [direction]).0
  }

  /** The epochs whose pages the walk has loaded more than once. */
  function Again(current: nat, directions: seq<Direction>): set<int> {
    if directions == [] then {}
    else
      var before, last := directions[..|directions| - 1], directions[|directions| - 1];
      Again(current, before)
      + if Reloads(current, before, last) then EpochsIn(FollowAll(current, before + [last])) else {}
  }

  lemma AlignedIsPageWindow(current: nat, w: Range, epoch: nat)
    requires Aligned(w, current) && w.0 <= epoch <= w.1
    ensures PageWindow(current, HomePage(current, epoch)) == w
  {
  }

  /** The groups of an aligned page are the home groups of its epochs. */
  lemma PageGroups(d: Data, current: nat, w: Range)
    requires Aligned(w, current) && 0 <= w.0 <= w.1
    ensures IsPage(d, current, w, GroupsDown(d, w, w.0)) && IsPage(d, current, w, Reverse(GroupsDown(d, w, w.0)))
  {
    var groups := GroupsDown(d, w, w.0);
    assert w.1 <= current;
    GroupsDownAt(d, w, w.0);
    hide *;
    forall i | 0 <= i < |groups| ensures groups[i] == HomeGroup(d, current, w.1 - i) {
      HomeOfAligned(d, current, w, w.1 - i);
    }
    IndexedIsPage(d, current, w, groups);
    ReversedIsPage(d, current, w, groups);
  }

  lemma HomeOfAligned(d: Data, current: nat, w: Range, epoch: nat)
    requires Aligned(w, current) && w.0 <= epoch <= w.1 <= current
    ensures HomeGroup(d, current, epoch) == Group(d, w, epoch)
  {
    AlignedIsPageWindow(current, w, epoch);
    hide Group, HomePage, PageWindow, Aligned;
  }

  lemma IndexedIsPage(d: Data, current: nat, w: Range, groups: seq<EpochGroup>)
    requires 0 <= w.0 <= w.1 <= current && |groups| == w.1 + 1 - w.0
    requires forall i :: 0 <= i < |groups| ==> groups[i] == HomeGroup(d, current, w.1 - i)
    ensures IsPage(d, current, w, groups)
  {
    hide HomeGroup;
    forall i | 0 <= i < |groups| ensures groups[i].epochNo == w.1 - i {
      HomeEpoch(d, current, w.1 - i);
    }
    forall g | FromServer(d, current, g) && w.0 <= g.epochNo <= w.1 ensures g in groups {
      assert groups[w.1 - g.epochNo] == g;
    }
  }

  lemma ReversedIsPage(d: Data, current: nat, w: Range, groups: seq<EpochGroup>)
    requires IsPage(d, current, w, groups)
    ensures IsPage(d, current, w, Reverse(groups))
  {
    var reversed := Reverse(groups);
    hide FromServer, Reverse;
    forall g ensures g in groups <==> g in reversed {
      if g in groups {
        var i :| 0 <= i < |groups| && groups[i] == g;
        assert reversed[|groups| - 1 - i] == g;
      }
    }
  }

  lemma ServerPageGroups(d: Data, current: nat, direction: Direction, cursor: Option<int>)
    requires Aligned(Window(direction, cursor, current), current)
    ensures var w, page := Window(direction, cursor, current), ServerPage(d, direction, cursor, current);
            && page.nextCursor == NextCursor(w) && page.prevCursor == PrevCursor(w, current)
            && IsPage(d, current, w, page.epochs)
  {
    var w := Window(direction, cursor, current);
    ServerPageIs(d, direction, cursor, current);
    PageGroups(d, current, w);
    hide GroupsDown, Reverse, IsPage, Window, ServerPage, NextCursor, PrevCursor;
  }

  lemma FirstWindow(current: nat)
    ensures Reachable(Window(Older, None, current), current) && Window(Older, None, current).1 == current
  {
  }

  lemma FirstPageIsDown(d: Data, current: nat, w: Range)
    requires Aligned(w, current) && w.1 == current && 0 <= w.0
    ensures GroupsDown(d, w, w.0) == Down(d, current, current, w.0, {})
  {
    hide Group, GroupsDown, Down, PageWindow, HomePage;
    var groups, down := GroupsDown(d, w, w.0), Down(d, current, current, w.0, {});
    GroupsDownAt(d, w, w.0);
    DownAt(d, current, current, w.0, {});
    forall i | 0 <= i < |groups| ensures groups[i] == down[i] {
      AlignedIsPageWindow(current, w, current - i);
    }
  }

  /** The first load shows the newest page, newest epoch first. */
  lemma FirstLoadIsDown(d: Data, current: nat)
    ensures var w := Window(Older, None, current);
            && Reachable(w, current) && 0 <= w.0 <= current
            && FirstLoad(d, current)
               == Client(Down(d, current, current, w.0, {}), NextCursor(w), PrevCursor(w, current))
  {
    var w := Window(Older, None, current);
    FirstWindow(current);
    ServerPageIs(d, Older, None, current);
    FirstPageIsDown(d, current, w);
    hide Window, ServerPage, GroupsDown, Down, Aligned, NextCursor, PrevCursor;
    assert Merge([], ServerPage(d, Older, None, current).epochs, Older) == ServerPage(d, Older, None, current).epochs;
  }

  /** The smallest loaded epoch starts a page. */
  predicate StartsPage(current: nat, low: int) {
    low == 0 || (current + 1 - low) % EPOCHS_PER_PAGE == 0
  }

  /** What the walk invariant says about the client's state. */
  ghost predicate Shows(d: Data, current: nat, c: Client, w: Range, low: int, again: set<int>) {
    && Reachable(w, current)
    && 0 <= low <= w.0 && low <= current && StartsPage(current, low)
    && (forall n :: n in again ==> n >= low)
    && c == Client(Down(d, current, current, low, again), NextCursor(w), PrevCursor(w, current))
  }

  /** What loading in a direction does, by the cursor it has. */
  lemma LoadIs(d: Data, current: nat, c: Client, w: Range, low: int, again: set<int>, direction: Direction)
    requires Shows(d, current, c, w, low, again)
    ensures var cursor := if direction.Older? then NextCursor(w) else PrevCursor(w, current);
            var w', page := Window(direction, cursor, current), ServerPage(d, direction, cursor, current);
            if cursor.None? then Load(d, current, c, direction) == c && Follow(w, direction, current) == w
            else
              && Load(d, current, c, direction)
                == Client(Merge(c.epochs, page.epochs, direction), page.nextCursor, page.prevCursor)
              && Follow(w, direction, current) == w' && Reachable(w', current)
              && (low <= w'.0 || (w'.1 == low - 1 && StartsPage(current, w'.0)))   // loaded before, or just below
  {
    FollowStaysReachable(w, direction, current);
    NextStartsPage(w, low, direction, current);
    hide ServerPage, Merge, Down, Window, Aligned, StartsPage;
  }

  /** The page after an aligned one is within what is loaded, or just below it. */
  lemma NextStartsPage(w: Range, low: int, direction: Direction, current: nat)
    requires Reachable(w, current) && 0 <= low <= w.0 && StartsPage(current, low)
    ensures var w' := Follow(w, direction, current);
            low <= w'.0 || (w'.1 == low - 1 && StartsPage(current, w'.0))
  {
    FollowStaysReachable(w, direction, current);
    hide Follow;
  }

  /** One load extends the gapless descending range, or de-duplicates the epochs of a page it has. */
  lemma LoadKeepsRange(d: Data, current: nat, c: Client, w: Range, low: nat, again: set<int>, direction: Direction)
    requires Shows(d, current, c, w, low, again)
    ensures var w' := Follow(w, direction, current);
            var cursor := if direction.Older? then NextCursor(w) else PrevCursor(w, current);
            Shows(d, current, Load(d, current, c, direction), w', Min(low, w'.0),
                  again + if cursor.Some? && low <= w'.0 then EpochsIn(w') else {})
  {
    var cursor := if direction.Older? then NextCursor(w) else PrevCursor(w, current);
    LoadIs(d, current, c, w, low, again, direction);
    assert again + {} == again;
    if cursor.Some? {
      var w' := Window(direction, cursor, current);
      ServerPageGroups(d, current, direction, cursor);
      assert 0 <= w'.0 <= w'.1 <= current by { AlignedBounds(w', current); hide *; }
      var page := ServerPage(d, direction, cursor, current);
      assert c.epochs == Down(d, current, current, low, again);
      hide *;
      MergeIsDown(d, current, low, again, w', page.epochs, direction);
      MergedShows(d, current, low, again, w', Merge(c.epochs, page.epochs, direction));
      assert (again + {}) == again && (if low <= w'.0 then again + EpochsIn(w') else again)
             == again + (if low <= w'.0 then EpochsIn(w') else {});
    } else {
      hide Window, Down, Load, Follow, NextCursor, PrevCursor, Aligned;
    }
  }

  lemma AlignedBounds(w: Range, current: int)
    requires Aligned(w, current)
    ensures 0 <= w.0 <= w.1 <= current
  {
  }

  lemma MergedShows(d: Data, current: nat, low: nat, again: set<int>, w': Range, merged: seq<EpochGroup>)
    requires Reachable(w', current) && low <= current && StartsPage(current, low) && forall n :: n in again ==> n >= low
    requires low <= w'.0 || (w'.1 == low - 1 && StartsPage(current, w'.0))
    requires var again' := if low <= w'.0 then again + EpochsIn(w') else again;
             && 0 <= w'.0 <= current && merged == Down(d, current, current, Min(low, w'.0), again')
    ensures var again' := if low <= w'.0 then again + EpochsIn(w') else again;
            Shows(d, current, Client(merged, NextCursor(w'), PrevCursor(w', current)), w', Min(low, w'.0), again')
  {
    hide Aligned, StartsPage, Down, NextCursor, PrevCursor;
  }

  lemma {:induction false} WalkKeepsRange(d: Data, current: nat, directions: seq<Direction>)
    ensures Shows(d, current, Walk(d, current, directions), FollowAll(current, directions),
                  LowestLoaded(current, directions), Again(current, directions))
  {
    if directions == [] {
      FirstLoadIsDown(d, current);
      FirstSteps(d, current);
      FirstStartsPage(current);
      hide *;
      ShowsFirstLoad(d, current);
    } else {
      var before, last := directions[..|directions| - 1], directions[|directions| - 1];
      hide *;
      WalkKeepsRange(d, current, before);
      OneMoreStep(d, current, directions);
      LoadKeepsRange(d, current, Walk(d, current, before), FollowAll(current, before), LowestLoaded(current, before),
                     Again(current, before), last);
    }
  }

  lemma FirstSteps(d: Data, current: nat)
    ensures Walk(d, current, []) == FirstLoad(d, current) && FollowAll(current, []) == Window(Older, None, current)
    ensures LowestLoaded(current, []) == FollowAll(current, []).0 && Again(current, []) == {}
  {
    hide FirstLoad, Window;
  }

  lemma FirstStartsPage(current: nat)
    ensures StartsPage(current, Window(Older, None, current).0)
  {
  }

  lemma ShowsFirstLoad(d: Data, current: nat)
    ensures Shows(d, current, FirstLoad(d, current), Window(Older, None, current), Window(Older, None, current).0, {})
  {
    FirstLoadIsDown(d, current);
    FirstStartsPage(current);
    hide FirstLoad, Window, Down, Aligned, StartsPage;
  }

  /** What one more step does to everything that is told about a walk. */
  lemma OneMoreStep(d: Data, current: nat, directions: seq<Direction>)
    requires directions != []
    ensures var before, last := directions[..|directions| - 1], directions[|directions| - 1];
            var w, w' := FollowAll(current, before), FollowAll(current, directions);
            var low := LowestLoaded(current, before);
            var cursor := if last.Older? then NextCursor(w) else PrevCursor(w, current);
            && Walk(d, current, directions) == Load(d, current, Walk(d, current, before), last)
            && w' == Follow(w, last, current)
            && LowestLoaded(current, directions) == Min(low, w'.0)
            && Again(current, directions)
               == Again(current, before) + if cursor.Some? && low <= w'.0 then EpochsIn(w') else {}
  {
    var before, last := directions[..|directions| - 1], directions[|directions| - 1];
    assert before + [last] == directions;
    hide Load, Follow, EpochsIn, NextCursor, PrevCursor;
  }

  /**
   * Main result. With the current epoch and the data fixed, after any walk the client holds exactly
   * the epochs from the current one down to the smallest loaded one: strictly descending, without
   * gap or duplicate, each group as the server shows it on the page of its epoch, or de-duplicated if
   * that page was loaded more than once.
   */
  lemma WalkShowsLoadedRange(d: Data, current: nat, directions: seq<Direction>)
    ensures var epochs, low := Walk(d, current, directions).epochs, LowestLoaded(current, directions);
            && 0 <= low <= current
            && |epochs| == current + 1 - low
            && forall i :: 0 <= i < |epochs| ==>
                 && epochs[i].epochNo == current - i
                 && epochs[i] == KeptGroup(d, current, current - i, Again(current, directions))
  {
    WalkKeepsRange(d, current, directions);
    DownAt(d, current, current, LowestLoaded(current, directions), Again(current, directions));
    hide Walk, Down, KeptGroup, LowestLoaded, Again, FollowAll;
  }

  /** A group is the server's if and only if its page was loaded once or no note is in it twice. */
  lemma KeptIsServerIff(d: Data, current: nat, epoch: nat, again: set<int>)
    requires IdsDistinguish(d) && epoch <= current
    ensures KeptGroup(d, current, epoch, again) == HomeGroup(d, current, epoch)
            <==> epoch !in again || SignedAtMostOnce(d, epoch)
  {
    GroupIdsUniqueIff(d, current, epoch);
    DedupIsIdentityIff(HomeGroup(d, current, epoch).items);
    HomeEpoch(d, current, epoch);
    hide HomeGroup, Dedup, DistinctIds, SignedAtMostOnce, IdsDistinguish;
  }

  /** If no note of the timeline has two matching signatures, the client shows the server's groups. */
  lemma WalkShowsServerGroups(d: Data, current: nat, directions: seq<Direction>)
    requires IdsDistinguish(d) && forall n: nat :: n <= current ==> SignedAtMostOnce(d, n)
    ensures var epochs := Walk(d, current, directions).epochs;
            && |epochs| == current + 1 - LowestLoaded(current, directions)
            && forall i :: 0 <= i < |epochs| ==> i <= current && epochs[i] == HomeGroup(d, current, current - i)
  {
    hide *;
    WalkShowsLoadedRange(d, current, directions);
    var epochs := Walk(d, current, directions).epochs;
    forall i | 0 <= i < |epochs| ensures epochs[i] == HomeGroup(d, current, current - i) {
      KeptIsServerIff(d, current, current - i, Again(current, directions));
    }
  }

  /**
   * Loading a page again leaves the list as it is if and only if each of its epochs was de-duplicated
   * before or has no note twice.
   */
  lemma ReloadChangesNothingIff(d: Data, current: nat, directions: seq<Direction>, direction: Direction)
    requires IdsDistinguish(d) && Reloads(current, directions, direction)
    ensures Walk(d, current, directions + [direction]).epochs == Walk(d, current, directions).epochs
            <==> forall n :: n in EpochsIn(FollowAll(current, directions + [direction])) ==>
                   n in Again(current, directions) || SignedAtMostOnce(d, n)
  {
    var steps := directions + [direction];
    assert steps[..|directions|] == directions;
    WalkKeepsRange(d, current, steps);
    var w := FollowAll(current, steps);
    assert 0 <= w.0 <= w.1 <= current by { hide FollowAll, Walk, Down; }
    assert LowestLoaded(current, steps) == LowestLoaded(current, directions);
    assert Again(current, steps) == Again(current, directions) + EpochsIn(w);
    WalkShowsLoadedRange(d, current, directions);
    WalkShowsLoadedRange(d, current, steps);
    hide Walk, LowestLoaded, FollowAll, Again, Reloads;
    var a, b := Walk(d, current, directions).epochs, Walk(d, current, steps).epochs;
    SameListIff(d, current, Again(current, directions), w, a, b);
  }

  lemma SameListIff(d: Data, current: nat, again: set<int>, w: Range, a: seq<EpochGroup>, b: seq<EpochGroup>)
    requires IdsDistinguish(d) && 0 <= w.0 <= w.1 <= current
    requires |a| == |b| && |a| <= current + 1 && current + 1 - |a| <= w.0
    requires forall i :: 0 <= i < |a| ==> a[i] == KeptGroup(d, current, current - i, again)
    requires forall i :: 0 <= i < |b| ==> b[i] == KeptGroup(d, current, current - i, again + EpochsIn(w))
    ensures a == b <==> forall n :: n in EpochsIn(w) ==> n in again || SignedAtMostOnce(d, n)
  {
    hide HomeGroup, DedupGroup, SignedAtMostOnce, IdsDistinguish, EpochsIn;
    forall i | 0 <= i < |a|
      ensures a[i] == b[i] <==> current - i !in EpochsIn(w) || current - i in again || SignedAtMostOnce(d, current - i)
    {
      KeptIsServerIff(d, current, current - i, again + EpochsIn(w));
    }
    hide KeptGroup;
    if a == b {
      forall n | n in EpochsIn(w) ensures n in again || SignedAtMostOnce(d, n) {
        assert a[current - n] == b[current - n];
      }
    }
  }

  // ----- a DRep with two signatures

  /** One note in epoch 4, hosted by a profile that two signatures of the DRep are linked to. */
  function TwoSignatures(): Data {
    var s := Signature(Some(7), Some("drep1"), Some("drep1"));
    Data(0, "drep1", [], [], [Note("1", 0, Some(7), 4 * EPOCH_DURATION_MS)], [s, s])
  }

  lemma TwoSignaturesFacts()
    ensures var d := TwoSignatures();
            && IdsDistinguish(d) && !SignedAtMostOnce(d, 4)
            && WellKeyed(d) && |d.notes| == 1 && d.notes[0] in d.notes
            && Signed(d.signatures, d.voterId, d.notes[0]) == 2 && EpochNo(d.anchor, d.notes[0].updatedAt) == 4
  {
    var d := TwoSignatures();
    var n := d.notes[0];
    assert Matches(d.signatures[0], n, d.voterId) && Matches(d.signatures[1], n, d.voterId);
    var last := d.signatures[1..];
    assert last == [d.signatures[1]] && last[1..] == [];
    hide Matches;
    assert Signed([], d.voterId, n) == 0;
    assert Signed(last, d.voterId, n) == 1 + Signed(last[1..], d.voterId, n);
    assert EpochNo(0, 4 * EPOCH_DURATION_MS) == 4;
    assert n in d.notes;
  }

  lemma TwoSignaturesNote()
    ensures var d := TwoSignatures(); |d.notes| == 1 && d.notes[0].id == "1" && d.notes[0].rank == 0
    ensures HomePage(4, 4) == 0 && 4 <= MAX_TIP
  {
  }

  lemma OlderThenNewer()
    ensures FollowAll(4, [Older]) == (0, 0) && FollowAll(4, [Older, Newer]) == (1, 4)
    ensures LowestLoaded(4, [Older]) == 0 && Again(4, [Older]) == {} && Reloads(4, [Older], Newer)
  {
    OlderThenNewerWindows();
    assert [Older][..0] == [] && [Older, Newer][..1] == [Older];
    assert [] + [Older] == [Older] && [Older] + [Newer] == [Older, Newer];
    hide Window, Follow;
    assert FollowAll(4, []) == (1, 4) && LowestLoaded(4, []) == 1 && Again(4, []) == {};
    assert FollowAll(4, [Older]) == (0, 0) && LowestLoaded(4, [Older]) == 0;
    assert FollowAll(4, [Older, Newer]) == Follow(FollowAll(4, [Older]), Newer, 4);
    assert PrevCursor((0, 0), 4) == Some(1);
    assert !Reloads(4, [], Older);
  }

  lemma OlderThenNewerWindows()
    ensures Window(Older, None, 4) == (1, 4) && Follow((1, 4), Older, 4) == (0, 0) && Follow((0, 0), Newer, 4) == (1, 4)
  {
  }

  /** Its note is shown twice on the first page. */
  lemma TwoSignaturesShown()
    ensures var d := TwoSignatures();
            |d.notes| == 1
            && ShownOn(d, 4, 0, Entry("note-1", 0, NoteEntry, d.notes[0].updatedAt, 4, None)) == 2
  {
    var d := TwoSignatures();
    hide *;
    TwoSignaturesFacts();
    TwoSignaturesNote();
    SignedIs(d.signatures, d.voterId, d.notes[0]);
    NoteShown(d, 4, 0, d.notes[0]);
    assert "note-" + "1" == "note-1";
  }

  /** Going back and forth again changes the list. */
  lemma TwoSignaturesReload()
    ensures Walk(TwoSignatures(), 4, [Older, Newer]).epochs != Walk(TwoSignatures(), 4, [Older]).epochs
  {
    hide *;
    TwoSignaturesFacts();
    OlderThenNewer();
    assert [Older] + [Newer] == [Older, Newer];
    ReloadChangesNothingIff(TwoSignatures(), 4, [Older], Newer);
    assert 4 in EpochsIn((1, 4));
  }
}
