/**
 * Reconciling the drep_delegators table with the remote list: paged fetch, three-way diff, and one
 * transaction per DRep whose statements run in chunks of 1000.
 */
module DelegatorSync {
  import opened Basics

  const PAGE_SIZE := 100
  const CHUNK_SIZE := 1000

  datatype Delegator = Delegator(address: string, amount: string)

  /** One remote answer: an error, or a page (an absent body counts as an empty page). */
  datatype Page = FetchError | Page(items: seq<Delegator>)

  datatype Row = Row(amount: string, votingPower: string)

  /** drep_delegators, keyed by (drep_id, stake_address). */
  type Rows = map<(string, string), Row>

  /** A synthetic undelegation event; the columns that are constants are left out. */
  datatype UndelegationEvent = UndelegationEvent(
    drepId: string,
    stakeAddress: string,
    timestamp: int,
    totalStake: string)

  /** drep_timeline_event, keyed by (tx_hash, tx_index). */
  type Events = map<(string, int), UndelegationEvent>

  function EventKey(drepId: string, address: string): (string, int) {
    ("synthetic-undelegation-" + drepId + "-" + address, 0)
  }

  // ----- fetching

  /** Entries by address; a later entry replaces an earlier one. */
  function AsMap(items: seq<Delegator>): map<string, string> {
    if items == [] then map[]
    else AsMap(items[..|items| - 1])[items[|items| - 1].address := items[|items| - 1].amount]
  }

  predicate LastPage(p: Page)
    requires p.Page?
  {
    |p.items| < PAGE_SIZE
  }

  function FetchFails(pages: seq<Page>): bool {
    pages != [] && (pages[0].FetchError? || (!LastPage(pages[0]) && FetchFails(pages[1..])))
  }

  function Collected(pages: seq<Page>): map<string, string> {
    if pages == [] || pages[0].FetchError? then map[]
    else AsMap(pages[0].items) + if LastPage(pages[0]) then map[] else Collected(pages[1..])
  }

  /** Sets one entry of the map per item, in order. */
  method SetAll(m: map<string, string>, items: seq<Delegator>) returns (r: map<string, string>)
    ensures r == m + AsMap(items)
  {
    r := m;
    for i := 0 to |items|
      invariant r == m + AsMap(items[..i])
    {
      assert items[..i + 1][..i] == items[..i];
      r := r[items[i].address := items[i].amount];
    }
    assert items[..|items|] == items;
  }

  /** `pages` are the answers the remote would give for pages 1, 2, ...; beyond them it has nothing. */
  method FetchDelegators(pages: seq<Page>) returns (fetched: map<string, string>, failed: bool)
    ensures failed == FetchFails(pages)
    ensures !failed ==> fetched == Collected(pages)
  {
    fetched, failed := map[], false;
    var page, hasMore := 1, true;
    assert FetchedUpTo(pages, 0, map[]) by { assert pages[0..] == pages; }
    hide FetchFails, Collected, AsMap, FetchedUpTo;
    while hasMore
      invariant 1 <= page <= |pages| + 1
      invariant hasMore ==> !failed && FetchedUpTo(pages, page - 1, fetched)
      invariant !hasMore ==> failed == FetchFails(pages) && (!failed ==> fetched == Collected(pages))
      decreases hasMore, |pages| - page
    {
      NextPage(pages, page - 1, fetched);
      var data := if page <= |pages| then pages[page - 1] else Page([]);
      if data.FetchError? {
        failed, hasMore := true, false;
      } else if |data.items| == 0 {
        break;
      } else {
        fetched := SetAll(fetched, data.items);
        if |data.items| < PAGE_SIZE {
          hasMore := false;
        } else {
          page := page + 1;
        }
      }
    }
  }

  /** `fetched` holds what the first i pages contribute. */
  ghost predicate FetchedUpTo(pages: seq<Page>, i: nat, fetched: map<string, string>) {
    && i <= |pages|
    && FetchFails(pages) == FetchFails(pages[i..])
    && Collected(pages) == fetched + Collected(pages[i..])
  }

  /** What page i does to the fetch. */
  lemma NextPage(pages: seq<Page>, i: nat, fetched: map<string, string>)
    requires FetchedUpTo(pages, i, fetched)
    ensures i <= |pages|
    ensures i == |pages| || (pages[i].Page? && pages[i].items == [])
            ==> !FetchFails(pages) && Collected(pages) == fetched
    ensures i < |pages| && pages[i].FetchError? ==> FetchFails(pages)
    ensures i < |pages| && pages[i].Page? && LastPage(pages[i]) ==>
              !FetchFails(pages) && Collected(pages) == fetched + AsMap(pages[i].items)
    ensures i < |pages| && pages[i].Page? && !LastPage(pages[i]) ==>
              FetchedUpTo(pages, i + 1, fetched + AsMap(pages[i].items))
  {
    var rest := pages[i..];
    FirstPage(rest);
    hide FetchFails, Collected, AsMap;
    assert rest == [] <==> i == |pages|;
    if rest != [] {
      assert rest[0] == pages[i] && rest[1..] == pages[i + 1..];
      if rest[0].Page? {
        MergeMaps(fetched, AsMap(rest[0].items), Collected(rest[1..]));
      }
    }
  }

  lemma FirstPage(pages: seq<Page>)
    ensures pages == [] || (pages[0].Page? && pages[0].items == []) ==> !FetchFails(pages) && Collected(pages) == map[]
    ensures pages != [] && pages[0].FetchError? ==> FetchFails(pages)
    ensures pages != [] && pages[0].Page? && LastPage(pages[0])
            ==> !FetchFails(pages) && Collected(pages) == AsMap(pages[0].items)
    ensures pages != [] && pages[0].Page? && !LastPage(pages[0]) ==>
              && FetchFails(pages) == FetchFails(pages[1..])
              && Collected(pages) == AsMap(pages[0].items) + Collected(pages[1..])
  {
  }

  /** Page i fails, and the pages before it are full, so that it is asked for. */
  predicate ErrorAt(pages: seq<Page>, i: nat) {
    && i < |pages| && pages[i].FetchError?
    && forall j :: 0 <= j < i ==> pages[j].Page? && |pages[j].items| >= 100
  }

  /** A fetch fails if and only if an error comes before the first page with fewer than 100 entries. */
  lemma {:induction false} FetchFailsIff(pages: seq<Page>)
    ensures FetchFails(pages) <==> exists i: nat :: ErrorAt(pages, i)
  {
    if pages != [] {
      var rest := pages[1..];
      FetchFailsIff(rest);
      assert pages == [pages[0]] + rest;
      if pages[0].FetchError? {
        assert ErrorAt(pages, 0);
      } else if FetchFails(pages) {
        var i: nat :| ErrorAt(rest, i);
        assert ErrorAt(pages, i + 1);
      } else if i: nat :| ErrorAt(pages, i) {
        assert i > 0 && ErrorAt(rest, i - 1);
      }
    }
  }

  /** Nothing is asked for after a page with fewer than 100 entries. */
  lemma {:induction false} ShortPageEnds(pages: seq<Page>, i: nat)
    requires i < |pages| && pages[i].Page? && |pages[i].items| < 100
    ensures Collected(pages) == Collected(pages[..i + 1]) && FetchFails(pages) == FetchFails(pages[..i + 1])
  {
    hide AsMap;
    var seen := pages[..i + 1];
    if i > 0 {
      ShortPageEnds(pages[1..], i - 1);
      assert seen[1..] == pages[1..][..i];
    }
  }

  /** A remote list, as the remote pages it. */
  function PagesOf(list: seq<Delegator>): seq<Page> {
    if |list| < PAGE_SIZE then [Page(list)] else [Page(list[..PAGE_SIZE])] + PagesOf(list[PAGE_SIZE..])
  }

  lemma AsMapSnoc(xs: seq<Delegator>, x: Delegator)
    ensures AsMap(xs + [x]) == AsMap(xs)[x.address := x.amount]
  {
    assert (xs + [x])[..|xs|] == xs;
  }

  lemma {:induction false} AsMapConcat(a: seq<Delegator>, b: seq<Delegator>)
    ensures AsMap(a + b) == AsMap(a) + AsMap(b)
  {
    if b == [] {
      assert a + b == a;
    } else {
      AsMapConcat(a, b[..|b| - 1]);
      assert (a + b)[..|a + b| - 1] == a + b[..|b| - 1];
    }
  }

  /** Fetching page by page gives the whole list. */
  lemma {:induction false} PagingIsWhole(list: seq<Delegator>)
    ensures !FetchFails(PagesOf(list)) && Collected(PagesOf(list)) == AsMap(list)
  {
    if |list| >= PAGE_SIZE {
      PagingIsWhole(list[PAGE_SIZE..]);
      AsMapConcat(list[..PAGE_SIZE], list[PAGE_SIZE..]);
      assert list == list[..PAGE_SIZE] + list[PAGE_SIZE..];
      assert PagesOf(list)[1..] == PagesOf(list[PAGE_SIZE..]);
    }
  }

  // ----- the diff

  function Fresh(existing: map<string, Row>, m: map<string, string>): map<string, string> {
    map a | a in m && a !in existing :: m[a]
  }

  function Changed(existing: map<string, Row>, m: map<string, string>): map<string, string> {
    map a | a in m && a in existing && existing[a].amount != m[a] :: m[a]
  }

  function Missing(existing: map<string, Row>, fetched: map<string, string>): map<string, string> {
    map a | a in existing && a !in fetched :: existing[a].amount
  }

  lemma DiffOneMore(existing: map<string, Row>, m: map<string, string>, a: string, amount: string)
    requires a !in m
    ensures a !in existing ==>
              && Fresh(existing, m[a := amount]) == Fresh(existing, m)[a := amount]
              && Changed(existing, m[a := amount]) == Changed(existing, m)
    ensures a in existing ==>
              && Fresh(existing, m[a := amount]) == Fresh(existing, m)
              && Changed(existing, m[a := amount])
                 == if existing[a].amount != amount then Changed(existing, m)[a := amount] else Changed(existing, m)
  {
  }

  /** The fetched entries that have no row, and those whose amount differs. */
  method DiffFetched(existing: map<string, Row>, fetched: map<string, string>)
    returns (toInsert: seq<Delegator>, toUpdate: seq<Delegator>)
    ensures AsMap(toInsert) == Fresh(existing, fetched)
    ensures AsMap(toUpdate) == Changed(existing, fetched)
    ensures DistinctAddresses(toInsert)
  {
    toInsert, toUpdate := [], [];
    assert AsMap([]) == map[] && Fresh(existing, map[]) == map[] && Changed(existing, map[]) == map[];
    hide AsMap, Fresh, Changed;
    var todo := fetched.Keys;
    ghost var seen: map<string, string> := map[];
    while todo != {}
      invariant todo == fetched.Keys - seen.Keys && seen.Keys <= fetched.Keys
      invariant forall a :: a in seen ==> seen[a] == fetched[a]
      invariant AsMap(toInsert) == Fresh(existing, seen)
      invariant AsMap(toUpdate) == Changed(existing, seen)
      invariant DistinctAddresses(toInsert) && forall x :: x in toInsert ==> x.address in seen
      decreases todo
    {
      var address :| address in todo;
      todo := todo - {address};
      var entry := Delegator(address, fetched[address]);
      DiffOneMore(existing, seen, address, fetched[address]);
      seen := seen[address := fetched[address]];
      if address !in existing {
        AsMapSnoc(toInsert, entry);
        toInsert := toInsert + [entry];
      } else if existing[address].amount != fetched[address] {
        AsMapSnoc(toUpdate, entry);
        toUpdate := toUpdate + [entry];
      }
    }
    assert forall a :: a in fetched && a !in seen ==> a in todo;
    assert seen == fetched;
  }

  /** The rows whose address was not fetched. */
  method DiffExisting(existing: map<string, Row>, fetched: map<string, string>) returns (toDelete: seq<Delegator>)
    ensures AsMap(toDelete) == Missing(existing, fetched)
  {
    toDelete := [];
    assert AsMap([]) == map[];
    hide AsMap;
    var todo := existing.Keys;
    while todo != {}
      invariant todo <= existing.Keys
      invariant AsMap(toDelete) == map a | a in existing && a !in todo && a !in fetched :: existing[a].amount
      decreases todo
    {
      var address :| address in todo;
      todo := todo - {address};
      if address !in fetched {
        var entry := Delegator(address, existing[address].amount);
        AsMapSnoc(toDelete, entry);
        toDelete := toDelete + [entry];
      }
    }
  }

  ghost predicate DistinctAddresses(xs: seq<Delegator>) {
    forall i, j :: 0 <= i < j < |xs| ==> xs[i].address != xs[j].address
  }

  // ----- the statements of the transaction

  function DeleteAll(rows: Rows, drepId: string, addresses: seq<string>): Rows {
    map k | k in rows && !(k.0 == drepId && k.1 in addresses) :: rows[k]
  }

  function RowsFrom(drepId: string, xs: seq<Delegator>): Rows {
    if xs == [] then map[]
    else
      var x := xs[|xs| - 1];
      RowsFrom(drepId, xs[..|xs| - 1])[(drepId, x.address) := Row(x.amount, x.amount)]
  }

  function EventsFrom(drepId: string, xs: seq<Delegator>, at: int): Events {
    if xs == [] then map[]
    else
      var x := xs[|xs| - 1];
      EventsFrom(drepId, xs[..|xs| - 1], at)[
        EventKey(drepId, x.address) := UndelegationEvent(drepId, x.address, at, x.amount)]
  }

  lemma {:induction false} RowsFromConcat(drepId: string, a: seq<Delegator>, b: seq<Delegator>)
    ensures RowsFrom(drepId, a + b) == RowsFrom(drepId, a) + RowsFrom(drepId, b)
  {
    if b == [] {
      assert a + b == a;
    } else {
      RowsFromConcat(drepId, a, b[..|b| - 1]);
      assert (a + b)[..|a + b| - 1] == a + b[..|b| - 1];
    }
  }

  lemma {:induction false} EventsFromConcat(drepId: string, a: seq<Delegator>, b: seq<Delegator>, at: int)
    ensures EventsFrom(drepId, a + b, at) == EventsFrom(drepId, a, at) + EventsFrom(drepId, b, at)
  {
    if b == [] {
      assert a + b == a;
    } else {
      EventsFromConcat(drepId, a, b[..|b| - 1], at);
      assert (a + b)[..|a + b| - 1] == a + b[..|b| - 1];
    }
  }

  lemma RowsFromSplit(rows: Rows, drepId: string, xs: seq<Delegator>, i: nat, end: nat)
    requires i <= end <= |xs|
    ensures rows + RowsFrom(drepId, xs[..i]) + RowsFrom(drepId, xs[i..end]) == rows + RowsFrom(drepId, xs[..end])
  {
    assert xs[..end] == xs[..i] + xs[i..end];
    RowsFromConcat(drepId, xs[..i], xs[i..end]);
  }

  lemma EventsFromSplit(events: Events, drepId: string, xs: seq<Delegator>, i: nat, end: nat, at: int)
    requires i <= end <= |xs|
    ensures events + EventsFrom(drepId, xs[..i], at) + EventsFrom(drepId, xs[i..end], at)
            == events + EventsFrom(drepId, xs[..end], at)
  {
    assert xs[..end] == xs[..i] + xs[i..end];
    EventsFromConcat(drepId, xs[..i], xs[i..end], at);
  }

  lemma {:induction false} RowsFromIsAsMap(drepId: string, xs: seq<Delegator>)
    ensures forall k :: k in RowsFrom(drepId, xs) <==> k.0 == drepId && k.1 in AsMap(xs)
    ensures forall k :: k in RowsFrom(drepId, xs) ==> RowsFrom(drepId, xs)[k] == Row(AsMap(xs)[k.1], AsMap(xs)[k.1])
  {
    if xs != [] {
      RowsFromIsAsMap(drepId, xs[..|xs| - 1]);
    }
  }

  lemma EventKeyInjective(drepId: string, a: string, b: string)
    requires EventKey(drepId, a) == EventKey(drepId, b)
    ensures a == b
  {
    var head := "synthetic-undelegation-" + drepId + "-";
    assert (head + a)[|head|..] == a && (head + b)[|head|..] == b;
  }

  lemma {:induction false} EventsFromIsAsMap(drepId: string, xs: seq<Delegator>, at: int)
    ensures forall a :: a in AsMap(xs) <==> EventKey(drepId, a) in EventsFrom(drepId, xs, at)
    ensures forall a :: a in AsMap(xs) ==>
              EventsFrom(drepId, xs, at)[EventKey(drepId, a)] == UndelegationEvent(drepId, a, at, AsMap(xs)[a])
    ensures forall k :: k in EventsFrom(drepId, xs, at) ==> exists a :: a in AsMap(xs) && k == EventKey(drepId, a)
  {
    if xs != [] {
      var init, x := xs[..|xs| - 1], xs[|xs| - 1];
      EventsFromIsAsMap(drepId, init, at);
      forall a | EventKey(drepId, a) == EventKey(drepId, x.address) ensures a == x.address {
        EventKeyInjective(drepId, a, x.address);
      }
    }
  }

  /** Deleting in chunks deletes what one statement would. */
  method DeleteInChunks(rows: Rows, drepId: string, addresses: seq<string>) returns (r: Rows)
    ensures r == DeleteAll(rows, drepId, addresses)
  {
    r := rows;
    var i := 0;
    while i < |addresses|
      invariant 0 <= i
      invariant r == DeleteAll(rows, drepId, addresses[..Min(i, |addresses|)])
    {
      var end := Min(i + CHUNK_SIZE, |addresses|);
      var chunk := addresses[i..end];
      r := map k | k in r && !(k.0 == drepId && k.1 in chunk) :: r[k];
      assert addresses[..end] == addresses[..i] + chunk;
      i := i + CHUNK_SIZE;
    }
    assert addresses[..|addresses|] == addresses;
  }

  method UpsertEventsInChunks(events: Events, drepId: string, xs: seq<Delegator>, at: int) returns (r: Events)
    ensures r == events + EventsFrom(drepId, xs, at)
  {
    r := events;
    var i := 0;
    assert EventsFrom(drepId, [], at) == map[];
    hide EventsFrom;
    while i < |xs|
      invariant 0 <= i
      invariant r == events + EventsFrom(drepId, xs[..Min(i, |xs|)], at)
    {
      var end := Min(i + CHUNK_SIZE, |xs|);
      r := r + EventsFrom(drepId, xs[i..end], at);
      EventsFromSplit(events, drepId, xs, i, end, at);
      i := i + CHUNK_SIZE;
    }
    assert xs[..|xs|] == xs;
  }

  method UpsertRowsInChunks(rows: Rows, drepId: string, xs: seq<Delegator>) returns (r: Rows)
    ensures r == rows + RowsFrom(drepId, xs)
  {
    r := rows;
    var i := 0;
    assert RowsFrom(drepId, []) == map[];
    hide RowsFrom;
    while i < |xs|
      invariant 0 <= i
      invariant r == rows + RowsFrom(drepId, xs[..Min(i, |xs|)])
    {
      var end := Min(i + CHUNK_SIZE, |xs|);
      r := r + RowsFrom(drepId, xs[i..end]);
      RowsFromSplit(rows, drepId, xs, i, end);
      i := i + CHUNK_SIZE;
    }
    assert xs[..|xs|] == xs;
  }

  /** An insert the primary key accepts: no row of the statement is in the table. */
  function InsertRows(rows: Rows, drepId: string, xs: seq<Delegator>): Rows
    requires DistinctAddresses(xs) && forall x :: x in xs ==> (drepId, x.address) !in rows
  {
    rows + RowsFrom(drepId, xs)
  }

  lemma NextChunkIsFresh(rows: Rows, drepId: string, xs: seq<Delegator>, i: nat, end: nat)
    requires i <= end <= |xs|
    requires DistinctAddresses(xs) && forall x :: x in xs ==> (drepId, x.address) !in rows
    ensures DistinctAddresses(xs[i..end])
    ensures forall x :: x in xs[i..end] ==> (drepId, x.address) !in rows + RowsFrom(drepId, xs[..i])
  {
    RowsFromIsAsMap(drepId, xs[..i]);
    AddressesOf(xs[..i]);
    forall x | x in xs[i..end] ensures x in xs && x.address !in AsMap(xs[..i]) {
      var k :| 0 <= k < |xs[i..end]| && xs[i..end][k] == x;
      assert xs[i + k] == x;
      forall y | y in xs[..i] ensures y.address != x.address {
        var j :| 0 <= j < i && xs[j] == y;
      }
    }
  }

  /** The chunked inserts never meet a duplicate key. */
  method InsertInChunks(rows: Rows, drepId: string, xs: seq<Delegator>) returns (r: Rows)
    requires DistinctAddresses(xs) && forall x :: x in xs ==> (drepId, x.address) !in rows
    ensures r == rows + RowsFrom(drepId, xs)
  {
    r := rows;
    var i := 0;
    assert RowsFrom(drepId, []) == map[];
    hide RowsFrom, DistinctAddresses;
    while i < |xs|
      invariant 0 <= i
      invariant r == rows + RowsFrom(drepId, xs[..Min(i, |xs|)])
    {
      var end := Min(i + CHUNK_SIZE, |xs|);
      NextChunkIsFresh(rows, drepId, xs, i, end);
      r := InsertRows(r, drepId, xs[i..end]);
      RowsFromSplit(rows, drepId, xs, i, end);
      i := i + CHUNK_SIZE;
    }
    assert xs[..|xs|] == xs;
  }

  lemma {:induction false} AddressesOf(xs: seq<Delegator>)
    ensures forall a :: a in AsMap(xs) <==> exists x :: x in xs && x.address == a
  {
    if xs != [] {
      var init, last := xs[..|xs| - 1], xs[|xs| - 1];
      AddressesOf(init);
      assert xs == init + [last];
      forall a ensures a in AsMap(xs) <==> exists x :: x in xs && x.address == a {
        if a in AsMap(xs) && a != last.address {
          assert a in AsMap(init);
          var x :| x in init && x.address == a;
          assert x in xs;
        }
        if a == last.address {
          assert last in xs;
        }
      }
    }
  }

  /** Of several entries with one address the last one counts. */
  lemma {:induction false} LastEntryCounts(xs: seq<Delegator>, i: nat)
    requires i < |xs| && forall j :: i < j < |xs| ==> xs[j].address != xs[i].address
    ensures xs[i].address in AsMap(xs) && AsMap(xs)[xs[i].address] == xs[i].amount
  {
    if i < |xs| - 1 { LastEntryCounts(xs[..|xs| - 1], i); }
  }

  // ----- one DRep

  function RowsOf(rows: Rows, drepId: string): map<string, Row> {
    map k | k in rows && k.0 == drepId :: k.1 := rows[k]
  }

  lemma RowsOfDrep(rows: Rows, drepId: string)
    ensures forall a :: a in RowsOf(rows, drepId) <==> (drepId, a) in rows
    ensures forall a :: (drepId, a) in rows ==> RowsOf(rows, drepId)[a] == rows[(drepId, a)]
  {
    forall a ensures a in RowsOf(rows, drepId) <==> (drepId, a) in rows {
      if a in RowsOf(rows, drepId) {
        var k :| k in rows && k.0 == drepId && k.1 == a;
        assert k == (drepId, a);
      }
    }
  }

  /** The address-to-amount map of one DRep. */
  function Amounts(rows: Rows, drepId: string): map<string, string> {
    map k | k in rows && k.0 == drepId :: k.1 := rows[k].amount
  }

  function Removed(rows: Rows, drepId: string, fetched: map<string, string>): set<string> {
    set k | k in rows && k.0 == drepId && k.1 !in fetched :: k.1
  }

  datatype Store = Store(rows: Rows, events: Events)

  /** The rows after a sync, as one operation on the whole table. */
  function SyncedRows(rows: Rows, drepId: string, fetched: map<string, string>): Rows {
    map k: (string, string) | k in rows.Keys + (set a | a in fetched :: (drepId, a))
      && (k.0 == drepId ==> k.1 in fetched) ::
      if k.0 != drepId || (k in rows && rows[k].amount == fetched[k.1]) then rows[k]
      else Row(fetched[k.1], fetched[k.1])
  }

  /** The undelegation events of the addresses that disappeared. */
  function RemovalEvents(rows: Rows, drepId: string, fetched: map<string, string>, at: int): (r: Events)
    ensures forall a :: a in Removed(rows, drepId, fetched) ==> EventKey(drepId, a) in r
  {
    assert forall a, b :: EventKey(drepId, a) == EventKey(drepId, b) ==> a == b by {
      forall a, b | EventKey(drepId, a) == EventKey(drepId, b) ensures a == b { EventKeyInjective(drepId, a, b); }
    }
    map a | a in Removed(rows, drepId, fetched) ::
      EventKey(drepId, a) := UndelegationEvent(drepId, a, at, rows[(drepId, a)].amount)
  }

  function Synced(st: Store, drepId: string, fetched: map<string, string>, at: int): Store {
    Store(SyncedRows(st.rows, drepId, fetched), st.events + RemovalEvents(st.rows, drepId, fetched, at))
  }

  /** Delete, then insert, then update: together the one operation on the table. */
  lemma StatementsAreSync(rows: Rows, drepId: string, fetched: map<string, string>,
                          gone: seq<string>, ins: seq<Delegator>, upd: seq<Delegator>)
    requires forall a :: a in gone <==> a in Removed(rows, drepId, fetched)
    requires AsMap(ins) == Fresh(RowsOf(rows, drepId), fetched)
    requires AsMap(upd) == Changed(RowsOf(rows, drepId), fetched)
    ensures DeleteAll(rows, drepId, gone) + RowsFrom(drepId, ins) + RowsFrom(drepId, upd)
            == SyncedRows(rows, drepId, fetched)
  {
    RowsFromIsAsMap(drepId, ins);
    RowsFromIsAsMap(drepId, upd);
    RowsOfDrep(rows, drepId);
    hide RowsFrom, AsMap, RowsOf;
    RowwiseSync(rows, drepId, fetched, gone, RowsFrom(drepId, ins), RowsFrom(drepId, upd));
  }

  lemma RowwiseSync(rows: Rows, drepId: string, fetched: map<string, string>, gone: seq<string>, ins: Rows, upd: Rows)
    requires forall a :: a in gone <==> a in Removed(rows, drepId, fetched)
    requires forall k :: k in ins <==> k.0 == drepId && k.1 in fetched && (drepId, k.1) !in rows
    requires forall k :: k in upd <==>
                           && k.0 == drepId && k.1 in fetched
                           && (drepId, k.1) in rows && rows[(drepId, k.1)].amount != fetched[k.1]
    requires forall k :: k in ins ==> ins[k] == Row(fetched[k.1], fetched[k.1])
    requires forall k :: k in upd ==> upd[k] == Row(fetched[k.1], fetched[k.1])
    ensures DeleteAll(rows, drepId, gone) + ins + upd == SyncedRows(rows, drepId, fetched)
  {
    var l := DeleteAll(rows, drepId, gone) + ins + upd;
    var r := SyncedRows(rows, drepId, fetched);
    forall k: (string, string) ensures (k in l <==> k in r) && (k in r ==> l[k] == r[k]) {
      if k.0 == drepId {
        assert (drepId, k.1) == k;
      }
    }
  }

  /** The addresses of the delete list are the removed ones. */
  lemma GoneIsRemoved(
      rows: Rows, drepId: string, fetched: map<string, string>, toDelete: seq<Delegator>, gone: seq<string>)
    requires AsMap(toDelete) == Missing(RowsOf(rows, drepId), fetched)
    requires |gone| == |toDelete| && forall i :: 0 <= i < |gone| ==> gone[i] == toDelete[i].address
    ensures forall a :: a in gone <==> a in Removed(rows, drepId, fetched)
  {
    RowsOfDrep(rows, drepId);
    AddressesOf(toDelete);
    hide AsMap, RowsOf;
    forall a ensures a in gone <==> a in Removed(rows, drepId, fetched) {
      assert a in Removed(rows, drepId, fetched) <==> a in AsMap(toDelete);
      if a in gone {
        var i :| 0 <= i < |gone| && gone[i] == a;
        assert toDelete[i] in toDelete;
      }
      if a in AsMap(toDelete) {
        var x :| x in toDelete && x.address == a;
        var i :| 0 <= i < |toDelete| && toDelete[i] == x;
        assert gone[i] == a;
      }
    }
  }

  lemma InsertsAreNew(rows: Rows, drepId: string, fetched: map<string, string>, gone: seq<string>, ins: seq<Delegator>)
    requires AsMap(ins) == Fresh(RowsOf(rows, drepId), fetched)
    ensures forall x :: x in ins ==> (drepId, x.address) !in DeleteAll(rows, drepId, gone)
  {
    RowsOfDrep(rows, drepId);
    AddressesOf(ins);
    forall x | x in ins ensures (drepId, x.address) !in DeleteAll(rows, drepId, gone) {
      assert x.address in AsMap(ins);
    }
  }

  lemma EmptyStatements(rows: Rows, drepId: string, at: int)
    ensures DeleteAll(rows, drepId, []) == rows
    ensures RowsFrom(drepId, []) == map[]
    ensures EventsFrom(drepId, [], at) == map[]
  {
  }

  lemma EventsAreSync(rows: Rows, drepId: string, fetched: map<string, string>, gone: seq<Delegator>, at: int)
    requires AsMap(gone) == Missing(RowsOf(rows, drepId), fetched)
    ensures EventsFrom(drepId, gone, at) == RemovalEvents(rows, drepId, fetched, at)
  {
    EventsFromIsAsMap(drepId, gone, at);
    RowsOfDrep(rows, drepId);
    assert forall a :: a in AsMap(gone) <==> a in Removed(rows, drepId, fetched);
    assert forall a :: a in AsMap(gone) ==> AsMap(gone)[a] == rows[(drepId, a)].amount;
    hide AsMap, EventsFrom, RowsOf, EventKey, Removed, Missing;
    EventsAgree(rows, drepId, fetched, at, AsMap(gone), EventsFrom(drepId, gone, at));
  }

  lemma EventsAgree(
      rows: Rows, drepId: string, fetched: map<string, string>, at: int, gone: map<string, string>, events: Events)
    requires forall a :: a in gone <==> a in Removed(rows, drepId, fetched)
    requires forall a :: a in gone ==> (drepId, a) in rows && gone[a] == rows[(drepId, a)].amount
    requires forall a :: a in gone ==> EventKey(drepId, a) in events
    requires forall a :: a in gone ==> events[EventKey(drepId, a)] == UndelegationEvent(drepId, a, at, gone[a])
    requires forall k :: k in events ==> exists a :: a in gone && k == EventKey(drepId, a)
    ensures events == RemovalEvents(rows, drepId, fetched, at)
  {
    forall a, b | EventKey(drepId, a) == EventKey(drepId, b) ensures a == b { EventKeyInjective(drepId, a, b); }
    hide EventKey, Removed;
    var r := RemovalEvents(rows, drepId, fetched, at);
    forall k ensures k in events <==> k in r {
      if k in events {
        var a :| a in gone && k == EventKey(drepId, a);
      }
    }
    forall k | k in events ensures events[k] == r[k] {
      var a :| a in gone && k == EventKey(drepId, a);
    }
  }
}
