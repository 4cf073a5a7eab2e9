/**
 * What a whole walk back through the timeline shows: how often, and where, each stored event, vote and
 * note appears.
 */
module EpochWalk {
  import opened Basics
  import opened EpochWindow
  import opened Bundling
  import opened EpochPage

  /** Row ids are what the tables give out: primary keys, and no stored id that looks like a vote's or a note's. */
  ghost predicate WellKeyed(d: Data) {
    && (forall i :: 0 <= i < |d.stored| ==> !("vote-" <= d.stored[i].id) && !("note-" <= d.stored[i].id))
    && (forall i, j :: 0 <= i < j < |d.stored| ==> d.stored[i].id != d.stored[j].id)
    && (forall i, j :: 0 <= i < j < |d.votes| ==> d.votes[i].id != d.votes[j].id)
    && (forall i, j :: 0 <= i < j < |d.notes| ==> d.notes[i].id != d.notes[j].id)
  }

  lemma {:induction false} VotesInCount(anchor: int, w: Range, seen: set<string>, rows: seq<Vote>, e: Entry)
    requires forall i, j :: 0 <= i < j < |rows| ==> rows[i].id != rows[j].id
    ensures !("vote-" <= e.id) ==> multiset(VotesIn(anchor, w, seen, rows))[e] == 0
    ensures (forall v :: v in rows ==> VoteEntry(anchor, v) != e) ==> multiset(VotesIn(anchor, w, seen, rows))[e] == 0
    ensures forall v :: v in rows && VoteEntry(anchor, v) == e ==>
              multiset(VotesIn(anchor, w, seen, rows))[e]
              == if InTime(anchor, w, v.blockTime) && v.txHash !in seen then 1 else 0
  {
    if rows != [] {
      var head, rest := rows[0], rows[1..];
      VotesInCount(anchor, w, seen, rest, e);
      assert rows == [head] + rest;
      assert VoteEntry(anchor, head).id[..5] == "vote-";
      if VoteEntry(anchor, head) == e {
        forall v | v in rest ensures VoteEntry(anchor, v) != e {
          assert VoteEntry(anchor, v).id[5..] == v.id && VoteEntry(anchor, head).id[5..] == head.id;
        }
      }
    }
  }

  /** How many signatures of the DRep belong to the profile that hosts the note. */
  function Signed(signatures: seq<Signature>, voterId: string, n: Note): nat {
    if signatures == [] then 0
    else (if Matches(signatures[0], n, voterId) then 1 else 0) + Signed(signatures[1..], voterId, n)
  }

  /** The signatures of the DRep, by either of their columns, that are linked to the profile of the note. */
  function LinkedFrom(signatures: seq<Signature>, voterId: string, n: Note, k: nat): set<int> {
    set i | k <= i < |signatures| && n.drepId.Some? && signatures[i].drepId == n.drepId
            && (signatures[i].voterId == Some(voterId) || signatures[i].drepBech32 == Some(voterId))
  }

  lemma {:induction false} SignedFrom(signatures: seq<Signature>, voterId: string, n: Note, k: nat)
    requires k <= |signatures|
    ensures Signed(signatures[k..], voterId, n) == |LinkedFrom(signatures, voterId, n, k)|
    decreases |signatures| - k
  {
    if k == |signatures| {
      assert LinkedFrom(signatures, voterId, n, k) == {};
    } else {
      SignedFrom(signatures, voterId, n, k + 1);
      assert signatures[k..][1..] == signatures[k + 1..];
      var rest := LinkedFrom(signatures, voterId, n, k + 1);
      assert LinkedFrom(signatures, voterId, n, k)
             == rest + if Matches(signatures[k], n, voterId) then {k as int} else {};
      assert k !in rest;
    }
  }

  lemma SignedIs(signatures: seq<Signature>, voterId: string, n: Note)
    ensures Signed(signatures, voterId, n) == |LinkedFrom(signatures, voterId, n, 0)|
  {
    SignedFrom(signatures, voterId, n, 0);
    assert signatures[0..] == signatures;
  }

  lemma {:induction false} JoinedNoteCount(anchor: int, signatures: seq<Signature>, voterId: string, n: Note, e: Entry)
    ensures multiset(JoinedNote(anchor, signatures, voterId, n))[e]
            == if NoteEntryOf(anchor, n) == e then Signed(signatures, voterId, n) else 0
  {
    hide Matches, NoteEntryOf;
    if signatures != [] {
      JoinedNoteCount(anchor, signatures[1..], voterId, n, e);
    }
  }

  lemma NoteIds(anchor: int, n: Note, m: Note)
    requires n.id != m.id
    ensures NoteEntryOf(anchor, n) != NoteEntryOf(anchor, m)
  {
    assert NoteEntryOf(anchor, n).id[5..] == n.id && NoteEntryOf(anchor, m).id[5..] == m.id;
  }

  lemma {:induction false} NotesInCount(
      anchor: int, w: Range, signatures: seq<Signature>, voterId: string, rows: seq<Note>, e: Entry)
    requires forall i, j :: 0 <= i < j < |rows| ==> rows[i].id != rows[j].id
    ensures !("note-" <= e.id) ==> multiset(NotesIn(anchor, w, signatures, voterId, rows))[e] == 0
    ensures forall n :: n in rows && NoteEntryOf(anchor, n) == e ==>
              multiset(NotesIn(anchor, w, signatures, voterId, rows))[e]
              == if InTime(anchor, w, n.updatedAt) then Signed(signatures, voterId, n) else 0
    ensures (forall n :: n in rows ==> NoteEntryOf(anchor, n) != e) ==>
              multiset(NotesIn(anchor, w, signatures, voterId, rows))[e] == 0
  {
    if rows != [] {
      var head, rest := rows[0], rows[1..];
      NotesInCount(anchor, w, signatures, voterId, rest, e);
      JoinedNoteCount(anchor, signatures, voterId, head, e);
      assert rows == [head] + rest;
      assert NoteEntryOf(anchor, head).id[..5] == "note-";
      hide NoteEntryOf, JoinedNote, Signed, InTime;
      if NoteEntryOf(anchor, head) == e {
        forall n | n in rest ensures NoteEntryOf(anchor, n) != e {
          NoteIds(anchor, head, n);
        }
      }
    }
  }

  lemma {:induction false} StoredOnce(rows: seq<Entry>, e: Entry)
    requires forall i, j :: 0 <= i < j < |rows| ==> rows[i].id != rows[j].id
    ensures multiset(rows)[e] == if e in rows then 1 else 0
  {
    if rows != [] {
      assert rows == [rows[0]] + rows[1..];
      StoredOnce(rows[1..], e);
    }
  }

  /** A vote is left out when a stored event whose time is on the same page shows its transaction. */
  ghost predicate Hidden(d: Data, w: Range, v: Vote) {
    exists e :: e in d.stored && w.0 <= EpochNo(d.anchor, e.timestamp) <= w.1
                && e.txHash == Some(v.txHash) && v.txHash != ""
  }

  lemma HiddenIsSeen(d: Data, w: Range, v: Vote)
    ensures Hidden(d, w, v) <==> v.txHash in SeenHashes(StoredIn(d.anchor, w, d.stored))
  {
    var stored := StoredIn(d.anchor, w, d.stored);
    forall e ensures e in stored <==> e in d.stored && w.0 <= EpochNo(d.anchor, e.timestamp) <= w.1 {
      StoredInMembers(d.anchor, w, d.stored, e);
      WindowHoldsItsEpochs(d.anchor, e.timestamp, w.0, w.1);
      assert e in stored <==> multiset(stored)[e] > 0;
      assert e in d.stored <==> multiset(d.stored)[e] > 0;
    }
    hide StoredIn, EpochNo;
  }

  /** How often the page of window w fetches an entry. */
  lemma FetchedCount(d: Data, w: Range, e: Entry)
    requires WellKeyed(d)
    ensures e in d.stored ==>
              multiset(AllEvents(d, w))[e] == if w.0 <= EpochNo(d.anchor, e.timestamp) <= w.1 then 1 else 0
    ensures forall v :: v in d.votes && VoteEntry(d.anchor, v) == e ==>
              multiset(AllEvents(d, w))[e]
              == if w.0 <= EpochNo(d.anchor, v.blockTime) <= w.1 && !Hidden(d, w, v) then 1 else 0
    ensures forall n :: n in d.notes && NoteEntryOf(d.anchor, n) == e ==>
              multiset(AllEvents(d, w))[e]
              == if w.0 <= EpochNo(d.anchor, n.updatedAt) <= w.1 then Signed(d.signatures, d.voterId, n) else 0
  {
    var stored := StoredIn(d.anchor, w, d.stored);
    var seen := SeenHashes(stored);
    StoredInMembers(d.anchor, w, d.stored, e);
    StoredOnce(d.stored, e);
    VotesInCount(d.anchor, w, seen, d.votes, e);
    NotesInCount(d.anchor, w, d.signatures, d.voterId, d.notes, e);
    WindowHoldsItsEpochs(d.anchor, e.timestamp, w.0, w.1);
    forall v ensures Hidden(d, w, v) <==> v.txHash in seen { HiddenIsSeen(d, w, v); }
    assert forall v: Vote :: VoteEntry(d.anchor, v).id[..5] == "vote-";
    assert forall n: Note :: NoteEntryOf(d.anchor, n).id[..5] == "note-";
    hide StoredIn, VotesIn, NotesIn, SeenHashes, EpochNo, EpochStart, EpochEnd, Signed, Hidden;
  }

  /** The window of page k of the walk back from a fixed current epoch. */
  function PageWindow(current: nat, k: nat): Range {
    var low := current - EPOCHS_PER_PAGE * k;
    (Max(0, low - (EPOCHS_PER_PAGE - 1)), low)
  }

  lemma PageWindowIsWalk(current: nat, k: nat)
    requires current <= MAX_TIP
    ensures OlderWalk(Fixed(current), k) == if k < PageCount(current) then Some(PageWindow(current, k)) else None
    ensures k < PageCount(current) ==> 0 <= PageWindow(current, k).0 <= PageWindow(current, k).1
  {
    OlderWalkPages(Fixed(current), k);
  }

  function HomePage(current: nat, epoch: nat): int {
    (current - epoch) / EPOCHS_PER_PAGE
  }

  lemma OnlyOnItsPage(current: nat, k: nat, epoch: int)
    requires k < PageCount(current)
    ensures PageWindow(current, k).0 <= epoch <= PageWindow(current, k).1
            <==> 0 <= epoch <= current && k == HomePage(current, epoch)
  {
  }

  // ----- the walk on the server's answers

  /** The k-th answer when nextCursor is followed from the first page, if there is one. */
  function PageAt(d: Data, current: nat, k: nat): Option<Page> {
    if k == 0 then Some(ServerPage(d, Older, None, current))
    else
      match PageAt(d, current, k - 1)
      case None => None
      case Some(page) =>
        if page.nextCursor.None? then None else Some(ServerPage(d, Older, page.nextCursor, current))
  }

  /** The answers are those for the windows of the walk. */
  lemma {:induction false} PageAtIsWalk(d: Data, current: nat, k: nat)
    ensures match OlderWalk(Fixed(current), k)
            case None => PageAt(d, current, k).None?
            case Some(w) =>
              && 0 <= w.0 <= w.1
              && PageAt(d, current, k) == Some(Page(GroupsDown(d, w, w.0), NextCursor(w), PrevCursor(w, current)))
  {
    hide GroupsDown, Window, ServerPage, PrevCursor;
    if k == 0 {
      ServerPageIs(d, Older, None, current);
    } else {
      PageAtIsWalk(d, current, k - 1);
      var before := OlderWalk(Fixed(current), k - 1);
      if before.Some? && NextCursor(before.value).Some? {
        ServerPageIs(d, Older, NextCursor(before.value), current);
      }
    }
  }

  /** How often the groups show an entry. */
  function ShownIn(groups: seq<EpochGroup>, e: Entry): nat {
    if groups == [] then 0 else ShownIn(groups[..|groups| - 1], e) + multiset(Flatten(groups[|groups| - 1].items))[e]
  }

  /** How often the k-th answer shows an entry. */
  function ShownOn(d: Data, current: nat, k: nat, e: Entry): nat {
    var page := PageAt(d, current, k);
    if page.None? then 0 else ShownIn(page.value.epochs, e)
  }

  /** A page shows what it fetched, as far as its epoch is on the page. */
  lemma {:induction false} GroupsDownShow(d: Data, w: Range, low: nat, e: Entry)
    requires low <= w.1 + 1
    ensures ShownIn(GroupsDown(d, w, low), e) == if low <= e.epochNo <= w.1 then multiset(AllEvents(d, w))[e] else 0
    decreases w.1 + 1 - low
  {
    hide Group, AllEvents, Flatten;
    if low <= w.1 {
      GroupsDownShow(d, w, low + 1, e);
      GroupShowsItsEpoch(d, w, low, e);
      assert GroupsDown(d, w, low)[..|GroupsDown(d, w, low)| - 1] == GroupsDown(d, w, low + 1);
    }
  }

  /** On which page, and how often: on the page of its epoch, if it is fetched there. */
  lemma ShownOnIs(d: Data, current: nat, k: nat, e: Entry)
    requires current <= MAX_TIP
    ensures ShownOn(d, current, k, e)
            == if k < PageCount(current) && 0 <= e.epochNo <= current && k == HomePage(current, e.epochNo)
               then multiset(AllEvents(d, PageWindow(current, k)))[e] else 0
  {
    PageAtIsWalk(d, current, k);
    PageWindowIsWalk(current, k);
    if k < PageCount(current) {
      var w := PageWindow(current, k);
      GroupsDownShow(d, w, w.0, e);
      OnlyOnItsPage(current, k, e.epochNo);
    }
    hide PageAt, OlderWalk, PageWindow, PageCount, HomePage, GroupsDown, AllEvents, ShownIn;
  }

  /** The epoch an entry's time lies in. */
  function TimeEpoch(d: Data, e: Entry): int {
    EpochNo(d.anchor, e.timestamp)
  }

  /** Both the stored epoch and that of the timestamp are in the timeline, and on the same page of it. */
  predicate Fits(d: Data, current: nat, e: Entry) {
    && 0 <= e.epochNo <= current && 0 <= TimeEpoch(d, e) <= current
    && HomePage(current, e.epochNo) == HomePage(current, TimeEpoch(d, e))
  }

  /**
   * Main result. Over the whole walk a stored event is shown once, on the page of its epoch, if its
   * stored epoch and that of its timestamp are on one page, and otherwise not at all.
   */
  lemma StoredEventShown(d: Data, current: nat, k: nat, e: Entry)
    requires current <= MAX_TIP && WellKeyed(d) && e in d.stored
    ensures ShownOn(d, current, k, e) == if Fits(d, current, e) && k == HomePage(current, e.epochNo) then 1 else 0
  {
    ShownOnIs(d, current, k, e);
    if k < PageCount(current) {
      FetchedCount(d, PageWindow(current, k), e);
      OnlyOnItsPage(current, k, TimeEpoch(d, e));
    }
    HomePageExists(current, e.epochNo);
    hide ShownOn, PageCount, PageWindow, HomePage, AllEvents, WellKeyed;
  }

  lemma HomePageExists(current: nat, epoch: int)
    ensures 0 <= epoch <= current ==> 0 <= HomePage(current, epoch) < PageCount(current)
  {
  }

  /** It is shown at all if and only if the two epochs are on one page. */
  lemma StoredEventShownIff(d: Data, current: nat, e: Entry)
    requires current <= MAX_TIP && WellKeyed(d) && e in d.stored
    ensures (exists k: nat :: ShownOn(d, current, k, e) > 0) <==> Fits(d, current, e)
  {
    forall k: nat
      ensures ShownOn(d, current, k, e) == if Fits(d, current, e) && k == HomePage(current, e.epochNo) then 1 else 0
    {
      StoredEventShown(d, current, k, e);
    }
    HomePageExists(current, e.epochNo);
    hide ShownOn, HomePage, PageCount, WellKeyed;
    if Fits(d, current, e) {
      var k: nat := HomePage(current, e.epochNo);
      assert ShownOn(d, current, k, e) == 1;
    }
  }

  /** So an event whose epoch matches its timestamp is shown exactly once. */
  lemma MatchingEventShownOnce(d: Data, current: nat, k: nat, e: Entry)
    requires current <= MAX_TIP && WellKeyed(d) && e in d.stored
    requires e.epochNo == TimeEpoch(d, e) && 0 <= e.epochNo <= current
    ensures ShownOn(d, current, k, e) == if k == HomePage(current, e.epochNo) then 1 else 0
  {
    StoredEventShown(d, current, k, e);
    hide ShownOn, HomePage, WellKeyed;
  }

  /** A note is shown on the page of its epoch, as often as its profile has signatures of the DRep. */
  lemma NoteShown(d: Data, current: nat, k: nat, n: Note)
    requires current <= MAX_TIP && WellKeyed(d) && n in d.notes
    ensures var epoch := EpochNo(d.anchor, n.updatedAt);
            ShownOn(d, current, k, Entry("note-" + n.id, n.rank, NoteEntry, n.updatedAt, epoch, None))
            == if 0 <= epoch <= current && k == HomePage(current, epoch)
               then |LinkedFrom(d.signatures, d.voterId, n, 0)| else 0
  {
    var e := NoteEntryOf(d.anchor, n);
    ShownOnIs(d, current, k, e);
    if k < PageCount(current) {
      FetchedCount(d, PageWindow(current, k), e);
      OnlyOnItsPage(current, k, e.epochNo);
    }
    HomePageExists(current, e.epochNo);
    SignedIs(d.signatures, d.voterId, n);
    hide ShownOn, PageCount, PageWindow, HomePage, AllEvents, WellKeyed, Signed, LinkedFrom;
  }

  /** A note of the timeline is shown exactly once if and only if exactly one signature is linked to its profile. */
  lemma NoteShownOnceIff(d: Data, current: nat, n: Note)
    requires current <= MAX_TIP && WellKeyed(d) && n in d.notes && 0 <= EpochNo(d.anchor, n.updatedAt) <= current
    ensures var epoch := EpochNo(d.anchor, n.updatedAt);
            var e := Entry("note-" + n.id, n.rank, NoteEntry, n.updatedAt, epoch, None);
            ShownOn(d, current, HomePage(current, epoch), e) == 1
            <==> |LinkedFrom(d.signatures, d.voterId, n, 0)| == 1
  {
    NoteShown(d, current, HomePage(current, EpochNo(d.anchor, n.updatedAt)), n);
    hide ShownOn, HomePage, LinkedFrom;
  }

  /** A vote is shown once, on the page of its epoch, unless a stored event of the page hides it. */
  lemma VoteShown(d: Data, current: nat, k: nat, v: Vote)
    requires current <= MAX_TIP && WellKeyed(d) && v in d.votes
    ensures var epoch := EpochNo(d.anchor, v.blockTime);
            ShownOn(d, current, k, Entry("vote-" + v.id, v.rank, VotingActivity, v.blockTime, epoch, v.shownHash))
            == if 0 <= epoch <= current && k == HomePage(current, epoch) && !Hidden(d, PageWindow(current, k), v)
               then 1 else 0
  {
    var e := VoteEntry(d.anchor, v);
    ShownOnIs(d, current, k, e);
    if k < PageCount(current) {
      FetchedCount(d, PageWindow(current, k), e);
      OnlyOnItsPage(current, k, e.epochNo);
    }
    HomePageExists(current, e.epochNo);
    hide ShownOn, PageCount, PageWindow, HomePage, AllEvents, WellKeyed, Hidden;
  }

  /**
   * Whatever page is asked for, an event stored under an epoch four or more away from its timestamp's,
   * as one written with epoch 0 is, appears in none of its groups.
   */
  lemma MismatchedEpochNeverShown(
      d: Data, direction: Direction, cursor: Option<int>, current: nat, epoch: nat, e: Entry)
    requires WellKeyed(d) && e in d.stored
    requires var drift := e.epochNo - TimeEpoch(d, e); drift >= EPOCHS_PER_PAGE || -drift >= EPOCHS_PER_PAGE
    requires Window(direction, cursor, current).0 <= epoch <= Window(direction, cursor, current).1
    ensures e !in Flatten(Group(d, Window(direction, cursor, current), epoch).items)
  {
    var w := Window(direction, cursor, current);
    WindowIsSane(direction, cursor, current);
    GroupShowsItsEpoch(d, w, epoch, e);
    FetchedCount(d, w, e);
    hide Window, AllEvents, Group;
  }
}
