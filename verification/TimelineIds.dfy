/**
 * When item ids are unique within an epoch: row ids are and prefixes tell kinds apart, so it is a matter
 * of notes that the join with the signatures returns more than once.
 */
module TimelineIds {
  import opened StableSort
  import opened EpochWindow
  import opened Bundling
  import opened EpochPage
  import opened EpochWalk
  import opened TimelineClient

  /** Row ids are keys, and no stored id looks like a vote's, a note's or a bundle's. */
  ghost predicate IdsDistinguish(d: Data) {
    WellKeyed(d) && forall i :: 0 <= i < |d.stored| ==> !("bundle-" <= d.stored[i].id)
  }

  /** Entries with distinct ids, none of which could be a bundle's. */
  ghost predicate DistinctEntries(es: seq<Entry>) {
    && (forall i, j :: 0 <= i < j < |es| ==> es[i].id != es[j].id)
    && forall i :: 0 <= i < |es| ==> !("bundle-" <= es[i].id)
  }

  lemma {:induction false} VoteEntries(anchor: int, w: Range, seen: set<string>, rows: seq<Vote>, e: Entry)
    requires e in VotesIn(anchor, w, seen, rows)
    ensures exists v :: v in rows && VoteEntry(anchor, v) == e
  {
    if !(InTime(anchor, w, rows[0].blockTime) && rows[0].txHash !in seen && e == VoteEntry(anchor, rows[0])) {
      VoteEntries(anchor, w, seen, rows[1..], e);
      var v :| v in rows[1..] && VoteEntry(anchor, v) == e;
      assert v in rows;
    }
  }

  lemma {:induction false} JoinedEntries(anchor: int, signatures: seq<Signature>, voterId: string, n: Note, e: Entry)
    requires e in JoinedNote(anchor, signatures, voterId, n)
    ensures NoteEntryOf(anchor, n) == e
  {
    if !(Matches(signatures[0], n, voterId) && e == NoteEntryOf(anchor, n)) {
      JoinedEntries(anchor, signatures[1..], voterId, n, e);
    }
  }

  lemma {:induction false} NoteEntries(
      anchor: int, w: Range, signatures: seq<Signature>, voterId: string, rows: seq<Note>, e: Entry)
    requires e in NotesIn(anchor, w, signatures, voterId, rows)
    ensures exists n :: n in rows && NoteEntryOf(anchor, n) == e
  {
    if InTime(anchor, w, rows[0].updatedAt) && e in JoinedNote(anchor, signatures, voterId, rows[0]) {
      JoinedEntries(anchor, signatures, voterId, rows[0], e);
    } else {
      NoteEntries(anchor, w, signatures, voterId, rows[1..], e);
      var n :| n in rows[1..] && NoteEntryOf(anchor, n) == e;
      assert n in rows;
    }
  }

  lemma PrefixesApart(id: string)
    ensures "vote-" <= id ==> id[0] == 'v' && !("note-" <= id) && !("bundle-" <= id)
    ensures "note-" <= id ==> id[0] == 'n' && !("bundle-" <= id)
  {
    if "vote-" <= id { assert id[..5][0] == 'v'; }
    if "note-" <= id { assert id[..5][0] == 'n'; }
    if "bundle-" <= id { assert id[..7][0] == 'b'; }
  }

  /** Where a fetched entry comes from; its id tells which. */
  lemma Origin(d: Data, w: Range, e: Entry)
    requires IdsDistinguish(d) && e in AllEvents(d, w)
    ensures || (e in d.stored && !("vote-" <= e.id) && !("note-" <= e.id))
            || ("vote-" <= e.id && exists v :: v in d.votes && VoteEntry(d.anchor, v) == e)
            || ("note-" <= e.id && exists n :: n in d.notes && NoteEntryOf(d.anchor, n) == e)
    ensures !("bundle-" <= e.id)
  {
    var stored := StoredIn(d.anchor, w, d.stored);
    var votes := VotesIn(d.anchor, w, SeenHashes(stored), d.votes);
    if e in stored {
      StoredInMembers(d.anchor, w, d.stored, e);
      assert e in multiset(stored);
      assert e in multiset(d.stored);
      var i :| 0 <= i < |d.stored| && d.stored[i] == e;
    } else if e in votes {
      VoteEntries(d.anchor, w, SeenHashes(stored), d.votes, e);
      assert e.id[..5] == "vote-";
    } else {
      NoteEntries(d.anchor, w, d.signatures, d.voterId, d.notes, e);
      assert e.id[..5] == "note-";
    }
    PrefixesApart(e.id);
  }

  lemma SameIdSameEntry(d: Data, w: Range, a: Entry, b: Entry)
    requires IdsDistinguish(d) && a in AllEvents(d, w) && b in AllEvents(d, w) && a.id == b.id
    ensures a == b
  {
    Origin(d, w, a);
    Origin(d, w, b);
    PrefixesApart(a.id);
    hide AllEvents;
    if "vote-" <= a.id {
      var v :| v in d.votes && VoteEntry(d.anchor, v) == a;
      var u :| u in d.votes && VoteEntry(d.anchor, u) == b;
      assert v.id == a.id[5..] == u.id;
    } else if "note-" <= a.id {
      var n :| n in d.notes && NoteEntryOf(d.anchor, n) == a;
      var m :| m in d.notes && NoteEntryOf(d.anchor, m) == b;
      assert n.id == a.id[5..] == m.id;
    }
  }

  /** No note of the epoch is returned twice by the join. */
  ghost predicate SignedAtMostOnce(d: Data, epoch: int) {
    forall n :: n in d.notes && EpochNo(d.anchor, n.updatedAt) == epoch ==> Signed(d.signatures, d.voterId, n) <= 1
  }

  lemma FetchedOnce(d: Data, w: Range, e: Entry)
    requires IdsDistinguish(d) && SignedAtMostOnce(d, e.epochNo)
    ensures multiset(AllEvents(d, w))[e] <= 1
  {
    FetchedCount(d, w, e);
    if e in AllEvents(d, w) {
      Origin(d, w, e);
    }
  }

  lemma GroupEntriesDistinct(d: Data, w: Range, epoch: nat)
    requires IdsDistinguish(d) && SignedAtMostOnce(d, epoch)
    ensures DistinctEntries(Flatten(Group(d, w, epoch).items))
  {
    var es := Flatten(Group(d, w, epoch).items);
    forall i | 0 <= i < |es| ensures es[i] in AllEvents(d, w) && !("bundle-" <= es[i].id) {
      GroupShowsItsEpoch(d, w, epoch, es[i]);
      assert es[i] in multiset(es);
      assert es[i] in multiset(AllEvents(d, w));
      Origin(d, w, es[i]);
    }
    forall i, j | 0 <= i < j < |es| ensures es[i].id != es[j].id {
      if es[i].id == es[j].id {
        SameIdSameEntry(d, w, es[i], es[j]);
        Twice(es, i, j);
        GroupShowsItsEpoch(d, w, epoch, es[i]);
        FetchedOnce(d, w, es[i]);
      }
    }
  }

  /** The id of an item is made from the id of its first entry. */
  lemma ItemIdsDiffer(epoch: nat, a: Item, b: Item)
    requires ItemOk(epoch, a, 1) && ItemOk(epoch, b, 1)
    requires Entries(a)[0].id != Entries(b)[0].id
    requires !("bundle-" <= Entries(a)[0].id) && !("bundle-" <= Entries(b)[0].id)
    ensures ItemId(a) != ItemId(b)
  {
    if a.Bundle? && b.Bundle? {
      BundleIdsDiffer(epoch, a.bundleType, b.bundleType, Entries(a)[0], Entries(b)[0]);
    } else if a.Bundle? {
      assert "bundle-" <= ItemId(a);
    } else if b.Bundle? {
      assert "bundle-" <= ItemId(b);
    }
  }

  lemma BundleIdsDiffer(epoch: nat, s: EntryType, t: EntryType, a: Entry, b: Entry)
    requires a.id != b.id
    ensures BundleId(epoch, s, a) != BundleId(epoch, t, b)
  {
    var x, y := BundleId(epoch, s, a), BundleId(epoch, t, b);
    assert x[7] == TypeText(s)[0] && y[7] == TypeText(t)[0];
    if TypeText(s) == TypeText(t) {
      var head := "bundle-" + TypeText(s) + "-e" + Decimal(epoch) + "-";
      assert x == head + a.id && y == head + b.id;
      assert x[|head|..] == a.id && y[|head|..] == b.id;
    }
  }

  lemma DistinctTail(head: seq<Entry>, tail: seq<Entry>)
    requires DistinctEntries(head + tail) && head != []
    ensures DistinctEntries(tail) && !("bundle-" <= head[0].id)
    ensures forall e :: e in tail ==> e.id != head[0].id && !("bundle-" <= e.id)
  {
    var all := head + tail;
    assert all[0] == head[0];
    assert forall i :: 0 <= i < |tail| ==> tail[i] == all[|head| + i];
  }

  lemma {:induction false} CanonicalIdsDistinct(epoch: nat, items: seq<Item>)
    requires DistinctEntries(Flatten(items))
    requires forall i :: 0 <= i < |items| ==> ItemOk(epoch, items[i], 1)
    ensures DistinctIds(items)
    ensures forall x :: x in items ==> Entries(x) != [] && Entries(x)[0] in Flatten(items)
  {
    if items != [] {
      var first, rest := items[0], items[1..];
      assert items == [first] + rest && Flatten(items) == Entries(first) + Flatten(rest);
      assert ItemOk(epoch, first, 1);
      DistinctTail(Entries(first), Flatten(rest));
      CanonicalIdsDistinct(epoch, rest);
      forall x | x in rest ensures ItemId(first) != ItemId(x) {
        var i :| 0 <= i < |rest| && rest[i] == x;
        assert ItemOk(epoch, items[i + 1], 1);
        ItemIdsDiffer(epoch, first, x);
      }
      hide Flatten, DistinctEntries, ItemId;
    }
  }

  lemma ItemsAreBundled(d: Data, w: Range, epoch: nat)
    ensures Canonical(epoch, Flatten(Group(d, w, epoch).items), Group(d, w, epoch).items)
  {
    BundledIsCanonical(epoch, Sort(InEpoch(AllEvents(d, w), epoch), EntryKey));
    hide Bundled, Sort, AllEvents, InEpoch;
  }

  ghost predicate AllOk(epoch: nat, items: seq<Item>) {
    forall k :: 0 <= k < |items| ==> ItemOk(epoch, items[k], 1)
  }

  /** An entry that is no delegation is counted by its own items alone. */
  lemma FirstItemCount(epoch: nat, items: seq<Item>, e: Entry)
    requires AllOk(epoch, items) && !Bundles(e.entryType)
    ensures items == [] ==> multiset(Flatten(items))[e] == 0
    ensures items != [] ==>
              multiset(Flatten(items))[e]
              == (if items[0] == Single(e) then 1 else 0) + multiset(Flatten(items[1..]))[e]
  {
    if items != [] {
      assert ItemOk(epoch, items[0], 1);
      assert Flatten(items) == Entries(items[0]) + Flatten(items[1..]);
      assert items[0].Bundle? ==> e !in items[0].items;
      hide Flatten;
    }
  }

  lemma RestIsOk(epoch: nat, items: seq<Item>)
    requires AllOk(epoch, items) && items != []
    ensures AllOk(epoch, items[1..])
  {
    hide ItemOk;
  }

  /** A note that occurs twice is in two items, which are alike. */
  lemma {:induction false} TwiceInItems(epoch: nat, items: seq<Item>, e: Entry) returns (i: nat, j: nat)
    requires !Bundles(e.entryType) && AllOk(epoch, items)
    requires multiset(Flatten(items))[e] >= 2
    ensures i < j < |items| && items[i] == items[j] == Single(e)
  {
    hide *;
    FirstItemCount(epoch, items, e);
    var first, rest := items[0], items[1..];
    RestIsOk(epoch, items);
    if first == Single(e) {
      j := OnceInItems(epoch, rest, e);
      assert items[j + 1] == rest[j];
      i, j := 0, j + 1;
    } else {
      i, j := TwiceInItems(epoch, rest, e);
      assert items[i + 1] == rest[i] && items[j + 1] == rest[j];
      i, j := i + 1, j + 1;
    }
  }

  lemma {:induction false} OnceInItems(epoch: nat, items: seq<Item>, e: Entry) returns (i: nat)
    requires !Bundles(e.entryType) && AllOk(epoch, items)
    requires multiset(Flatten(items))[e] >= 1
    ensures i < |items| && items[i] == Single(e)
  {
    hide *;
    FirstItemCount(epoch, items, e);
    var first, rest := items[0], items[1..];
    RestIsOk(epoch, items);
    if first == Single(e) {
      i := 0;
    } else {
      i := OnceInItems(epoch, rest, e);
      assert items[i + 1] == rest[i];
      i := i + 1;
    }
  }

  /** Item ids of an epoch are unique if and only if no note of the epoch is returned twice by the join. */
  lemma GroupIdsUniqueIff(d: Data, current: nat, epoch: nat)
    requires IdsDistinguish(d) && epoch <= current
    ensures DistinctIds(HomeGroup(d, current, epoch).items) <==> SignedAtMostOnce(d, epoch)
  {
    var w := PageWindow(current, HomePage(current, epoch));
    var items := Group(d, w, epoch).items;
    ItemsAreBundled(d, w, epoch);
    assert w.0 <= epoch <= w.1;
    hide Group, PageWindow, HomePage, AllEvents, Flatten, Signed;
    if SignedAtMostOnce(d, epoch) {
      GroupEntriesDistinct(d, w, epoch);
      CanonicalIdsDistinct(epoch, items);
    } else {
      var n :| n in d.notes && EpochNo(d.anchor, n.updatedAt) == epoch && Signed(d.signatures, d.voterId, n) > 1;
      RepeatedNote(d, w, epoch, n);
    }
  }

  lemma RepeatedNote(d: Data, w: Range, epoch: nat, n: Note)
    requires IdsDistinguish(d) && w.0 <= epoch <= w.1
    requires n in d.notes && EpochNo(d.anchor, n.updatedAt) == epoch && Signed(d.signatures, d.voterId, n) > 1
    ensures !DistinctIds(Group(d, w, epoch).items)
  {
    var items, e := Group(d, w, epoch).items, NoteEntryOf(d.anchor, n);
    ItemsAreBundled(d, w, epoch);
    FetchedCount(d, w, e);
    GroupShowsItsEpoch(d, w, epoch, e);
    hide Group, AllEvents, Flatten, Signed, IdsDistinguish;
    var i, j := TwiceInItems(epoch, items, e);
    assert ItemId(items[i]) == ItemId(items[j]);
  }

  /** So they are unique in the whole timeline if every note of it has at most one matching signature. */
  lemma ItemIdsUniqueIff(d: Data, current: nat)
    requires IdsDistinguish(d)
    ensures ItemIdsUnique(d, current) <==> forall epoch: nat :: epoch <= current ==> SignedAtMostOnce(d, epoch)
  {
    forall epoch: nat | epoch <= current
      ensures DistinctIds(HomeGroup(d, current, epoch).items) <==> SignedAtMostOnce(d, epoch)
    {
      GroupIdsUniqueIff(d, current, epoch);
    }
    hide HomeGroup, DistinctIds, SignedAtMostOnce, IdsDistinguish;
  }
}
