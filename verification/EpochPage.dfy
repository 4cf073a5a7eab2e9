/**
 * One timeline page of a DRep: events, votes and notes of the epoch window, grouped by epoch,
 * sorted newest first and bundled.
 */
module EpochPage {
  import opened Basics
  import opened StableSort
  import opened EpochWindow
  import opened Bundling

  /** A proposal vote row; `shownHash` is the hash its timeline entry displays. */
  datatype Vote = Vote(id: string, rank: int, blockTime: int, txHash: string, shownHash: Option<string>)

  datatype Note = Note(id: string, rank: int, drepId: Option<int>, updatedAt: int)

  datatype Signature = Signature(drepId: Option<int>, voterId: Option<string>, drepBech32: Option<string>)

  /** What the requested filter lets through: the DRep's events and votes, and the notes and signatures of all. */
  datatype Data = Data(
    anchor: int,
    voterId: string,
    stored: seq<Entry>,
    votes: seq<Vote>,
    notes: seq<Note>,
    signatures: seq<Signature>)

  datatype EpochGroup = EpochGroup(epochNo: int, items: seq<Item>)

  datatype Page = Page(epochs: seq<EpochGroup>, nextCursor: Option<int>, prevCursor: Option<int>)

  /** `>= startTime AND < endTime` for the window's times. */
  predicate InTime(anchor: int, w: Range, t: int) {
    EpochStart(anchor, w.0) <= t < EpochEnd(anchor, w.1)
  }

  function VoteEntry(anchor: int, v: Vote): Entry {
    Entry("vote-" + v.id, v.rank, VotingActivity, v.blockTime, EpochNo(anchor, v.blockTime), v.shownHash)
  }

  function NoteEntryOf(anchor: int, n: Note): Entry {
    Entry("note-" + n.id, n.rank, NoteEntry, n.updatedAt, EpochNo(anchor, n.updatedAt), None)
  }

  function StoredIn(anchor: int, w: Range, rows: seq<Entry>): seq<Entry> {
    if rows == [] then []
    else (if InTime(anchor, w, rows[0].timestamp) then [rows[0]] else []) + StoredIn(anchor, w, rows[1..])
  }

  /** The transaction hashes the page's stored events display. */
  function SeenHashes(events: seq<Entry>): set<string> {
    set e | e in events && Truthy(e.txHash) :: e.txHash.value
  }

  function VotesIn(anchor: int, w: Range, seen: set<string>, rows: seq<Vote>): seq<Entry> {
    if rows == [] then []
    else (if InTime(anchor, w, rows[0].blockTime) && rows[0].txHash !in seen then [VoteEntry(anchor, rows[0])] else [])
         + VotesIn(anchor, w, seen, rows[1..])
  }

  /** The signature's profile hosts the note, and the signature is the DRep's. */
  predicate Matches(s: Signature, n: Note, voterId: string) {
    && n.drepId.Some? && s.drepId == n.drepId
    && (s.drepBech32 == Some(voterId) || s.voterId == Some(voterId))
  }

  /** A note joined with the signatures: once for each that matches. */
  function JoinedNote(anchor: int, signatures: seq<Signature>, voterId: string, n: Note): seq<Entry> {
    if signatures == [] then []
    else
      (if Matches(signatures[0], n, voterId) then [NoteEntryOf(anchor, n)] else [])
      + JoinedNote(anchor, signatures[1..], voterId, n)
  }

  function NotesIn(anchor: int, w: Range, signatures: seq<Signature>, voterId: string, rows: seq<Note>): seq<Entry> {
    if rows == [] then []
    else
      (if InTime(anchor, w, rows[0].updatedAt) then JoinedNote(anchor, signatures, voterId, rows[0]) else [])
      + NotesIn(anchor, w, signatures, voterId, rows[1..])
  }

  /** Everything the page fetched, votes already shown as stored events left out. */
  function AllEvents(d: Data, w: Range): seq<Entry> {
    var stored := StoredIn(d.anchor, w, d.stored);
    stored + VotesIn(d.anchor, w, SeenHashes(stored), d.votes) + NotesIn(d.anchor, w, d.signatures, d.voterId, d.notes)
  }

  function InEpoch(events: seq<Entry>, epoch: int): seq<Entry> {
    if events == [] then []
    else (if events[0].epochNo == epoch then [events[0]] else []) + InEpoch(events[1..], epoch)
  }

  /** Newest first, then by id descending. */
  function EntryKey(e: Entry): Key {
    (-e.timestamp, -e.rank)
  }

  function Group(d: Data, w: Range, epoch: nat): EpochGroup {
    EpochGroup(epoch, Bundled(epoch, Sort(InEpoch(AllEvents(d, w), epoch), EntryKey)))
  }

  /** The groups of epochs w.1, w.1 - 1, ..., down to epoch `low`. */
  function GroupsDown(d: Data, w: Range, low: nat): (r: seq<EpochGroup>)
    requires low <= w.1 + 1
    decreases w.1 + 1 - low
  {
    if low == w.1 + 1 then [] else GroupsDown(d, w, low + 1) + [Group(d, w, low)]
  }

  lemma {:induction false} GroupsDownAt(d: Data, w: Range, low: nat)
    requires low <= w.1 + 1
    ensures |GroupsDown(d, w, low)| == w.1 + 1 - low
    ensures forall i :: 0 <= i < w.1 + 1 - low ==> GroupsDown(d, w, low)[i] == Group(d, w, w.1 - i)
    decreases w.1 + 1 - low
  {
    if low <= w.1 {
      GroupsDownAt(d, w, low + 1);
    }
  }

  function Reverse<T>(xs: seq<T>): (r: seq<T>)
    ensures |r| == |xs| && forall i :: 0 <= i < |xs| ==> r[i] == xs[|xs| - 1 - i]
  {
    if xs == [] then [] else Reverse(xs[1..]) + [xs[0]]
  }

  /** The response: newest epoch first, or last when loading newer ones. */
  function Response(direction: Direction, groups: seq<EpochGroup>, w: Range, current: int): Page {
    Page(if direction.Newer? then Reverse(groups) else groups, NextCursor(w), PrevCursor(w, current))
  }

  /** The response to one request. */
  function ServerPage(d: Data, direction: Direction, cursor: Option<int>, current: nat): Page {
    WindowIsSane(direction, cursor, current);
    var w := Window(direction, cursor, current);
    Response(direction, GroupsDown(d, w, w.0), w, current)
  }

  method GetDRepTimeline(d: Data, direction: Direction, cursor: Option<int>, current: nat) returns (page: Page)
    ensures page == ServerPage(d, direction, cursor, current)
  {
    WindowIsSane(direction, cursor, current);
    ServerPageIs(d, direction, cursor, current);
    hide *;
    var w := Window(direction, cursor, current);
    var allEvents := AllEvents(d, w);
    var epochGroups: seq<EpochGroup> := [];
    var e := w.1;
    GroupsDownStep(d, w, w.1);
    while e >= w.0
      invariant w.0 - 1 <= e <= w.1
      invariant epochGroups == GroupsDown(d, w, e + 1)
    {
      GroupsDownStep(d, w, e);
      var epochEvents := Sort(InEpoch(allEvents, e), EntryKey);
      var items := BundleEvents(e, epochEvents);
      epochGroups := epochGroups + [EpochGroup(e, items)];
      e := e - 1;
    }
    page := Response(direction, epochGroups, w, current);
  }

  lemma GroupsDownStep(d: Data, w: Range, e: nat)
    requires e <= w.1
    ensures GroupsDown(d, w, e)
            == GroupsDown(d, w, e + 1) + [EpochGroup(e, Bundled(e, Sort(InEpoch(AllEvents(d, w), e), EntryKey)))]
    ensures GroupsDown(d, w, w.1 + 1) == []
  {
    hide AllEvents, InEpoch, Bundled, Sort;
  }

  lemma ServerPageIs(d: Data, direction: Direction, cursor: Option<int>, current: nat)
    ensures var w := Window(direction, cursor, current);
            && 0 <= w.0 <= w.1
            && ServerPage(d, direction, cursor, current) == Response(direction, GroupsDown(d, w, w.0), w, current)
  {
    WindowIsSane(direction, cursor, current);
    hide Window, GroupsDown, Response;
  }

  // ----- what a group shows

  lemma {:induction false} StoredInMembers(anchor: int, w: Range, rows: seq<Entry>, e: Entry)
    ensures multiset(StoredIn(anchor, w, rows))[e] == if InTime(anchor, w, e.timestamp) then multiset(rows)[e] else 0
  {
    if rows != [] {
      StoredInMembers(anchor, w, rows[1..], e);
      assert rows == [rows[0]] + rows[1..];
    }
  }

  lemma {:induction false} InEpochCount(events: seq<Entry>, epoch: int, e: Entry)
    ensures multiset(InEpoch(events, epoch))[e] == if e.epochNo == epoch then multiset(events)[e] else 0
  {
    if events != [] {
      InEpochCount(events[1..], epoch, e);
      assert events == [events[0]] + events[1..];
    }
  }

  /** A group shows each fetched entry of its epoch, as often as it was fetched, and nothing else. */
  lemma GroupShowsItsEpoch(d: Data, w: Range, epoch: nat, e: Entry)
    ensures multiset(Flatten(Group(d, w, epoch).items))[e]
            == if e.epochNo == epoch then multiset(AllEvents(d, w))[e] else 0
  {
    var events := InEpoch(AllEvents(d, w), epoch);
    SortIsSortedPermutation(events, EntryKey);
    BundledIsCanonical(epoch, Sort(events, EntryKey));
    InEpochCount(AllEvents(d, w), epoch, e);
  }

  /** Within a group the newest entry comes first, and of equally old ones the one whose id comes last in the order. */
  lemma GroupNewestFirst(d: Data, w: Range, epoch: nat)
    ensures var es := Flatten(Group(d, w, epoch).items);
            forall i, j :: 0 <= i < j < |es| ==>
              es[i].timestamp > es[j].timestamp || (es[i].timestamp == es[j].timestamp && es[i].rank >= es[j].rank)
  {
    var events := InEpoch(AllEvents(d, w), epoch);
    SortIsSortedPermutation(events, EntryKey);
    BundledIsCanonical(epoch, Sort(events, EntryKey));
    var es := Sort(events, EntryKey);
    hide AllEvents, InEpoch, Sort, Bundled;
    forall i, j | 0 <= i < j < |es| ensures KeyLeq(EntryKey(es[i]), EntryKey(es[j])) {}
  }

  /** A page has one group for each epoch of its window, the newest first, or last when loading newer ones. */
  lemma PageShowsWindow(d: Data, direction: Direction, cursor: Option<int>, current: nat)
    ensures var w, page := Window(direction, cursor, current), ServerPage(d, direction, cursor, current);
            && 0 <= w.0 <= w.1 && |page.epochs| == w.1 + 1 - w.0
            && (forall i :: 0 <= i < |page.epochs| ==>
                  page.epochs[i] == Group(d, w, if direction.Older? then w.1 - i else w.0 + i))
            && page.nextCursor == (if w.0 > 0 then Some(w.0 - 1) else None)
            && page.prevCursor == (if w.1 < current then Some(w.1 + 1) else None)
  {
    hide *;
    var w := Window(direction, cursor, current);
    ServerPageIs(d, direction, cursor, current);
    var groups := GroupsDown(d, w, w.0);
    GroupsDownAt(d, w, w.0);
    ResponseIs(direction, groups, w, current);
    var page := ServerPage(d, direction, cursor, current);
    forall i | 0 <= i < |page.epochs|
      ensures page.epochs[i] == Group(d, w, if direction.Older? then w.1 - i else w.0 + i)
    {
      assert w.1 - (|groups| - 1 - i) == w.0 + i;
    }
  }

  lemma ResponseIs(direction: Direction, groups: seq<EpochGroup>, w: Range, current: int)
    ensures var page := Response(direction, groups, w, current);
            && |page.epochs| == |groups|
            && (forall i :: 0 <= i < |groups| ==>
                  page.epochs[i] == groups[if direction.Older? then i else |groups| - 1 - i])
            && page.nextCursor == (if w.0 > 0 then Some(w.0 - 1) else None)
            && page.prevCursor == (if w.1 < current then Some(w.1 + 1) else None)
  {
  }
}
