/**
 * Syncing governance proposals page by page. The same code runs in the proposals worker and in the
 * governance sync worker, so what is shown here holds for both.
 */
module ProposalSync {
  import opened Basics

  /** A row of the proposals table. */
  datatype Proposal = Proposal(
    id: string,
    txHash: string,
    certIndex: int,
    governanceType: string,
    governanceDescription: Option<string>,
    depositLovelace: Option<string>,
    returnStakeAddress: Option<string>,
    ratifiedEpoch: Option<int>,
    enactedEpoch: Option<int>,
    droppedEpoch: Option<int>,
    expiredEpoch: Option<int>,
    expirationEpoch: Option<int>,
    blockTime: Option<int>)

  /** What the remote source says about a proposal. */
  datatype Data = Data(
    id: string,
    txHash: string,
    certIndex: int,
    governanceType: string,
    governanceDescription: Option<string>,
    deposit: Option<string>,
    returnAddress: Option<string>,
    ratifiedEpoch: Option<int>,
    enactedEpoch: Option<int>,
    droppedEpoch: Option<int>,
    expiredEpoch: Option<int>,
    expiration: Option<int>)

  datatype Answer = AnswerFails | NoAnswer | Answered(data: Data)
  datatype TimeAnswer = TimeFails | Time(seconds: Option<int>)
  datatype Fault = NoFault | FindFails | UpsertFails

  /** A listed proposal, with how the calls about it turn out in this run. */
  datatype ListItem = ListItem(txHash: string, certIndex: int, answer: Answer, time: TimeAnswer, fault: Fault)

  datatype PageAnswer = PageFails | Page(items: seq<ListItem>)

  /** The rows by primary key. */
  type Table = map<string, Proposal>

  const PER_PAGE := 100

  // ----- one item

  predicate TruthyNumber(n: Option<int>) {
    n.Some? && n.value != 0
  }

  /** JavaScript's `n || null` and `s || null`. */
  function NumberOrNull(n: Option<int>): Option<int> {
    if TruthyNumber(n) then n else None
  }

  function TextOrNull(s: Option<string>): Option<string> {
    if Truthy(s) then s else None
  }

  predicate Terminal(p: Proposal) {
    TruthyNumber(p.enactedEpoch) || TruthyNumber(p.expiredEpoch) || TruthyNumber(p.droppedEpoch)
  }

  predicate HasKey(p: Proposal, txHash: string, certIndex: int) {
    p.txHash == txHash && p.certIndex == certIndex
  }

  /** The unique index on (tx_hash, cert_index), and the primary key. */
  ghost predicate UniqueKeys(table: Table) {
    && (forall id :: id in table ==> table[id].id == id)
    && (forall a, b :: a in table && b in table && HasKey(table[a], table[b].txHash, table[b].certIndex) ==> a == b)
  }

  ghost function Existing(table: Table, txHash: string, certIndex: int): Option<Proposal> {
    if exists id :: id in table && HasKey(table[id], txHash, certIndex) then
      var id :| id in table && HasKey(table[id], txHash, certIndex);
      Some(table[id])
    else None
  }

  /** The recorded time if there is one, or else the fetched one in milliseconds. */
  function BlockTime(existing: Option<Proposal>, time: TimeAnswer): Option<int> {
    if existing.Some? && existing.value.blockTime.Some? then existing.value.blockTime
    else if time.Time? && TruthyNumber(time.seconds) then Some(time.seconds.value * 1000)
    else None
  }

  function RowOf(data: Data, blockTime: Option<int>): Proposal {
    Proposal(data.id, data.txHash, data.certIndex, data.governanceType, TextOrNull(data.governanceDescription),
             TextOrNull(data.deposit), TextOrNull(data.returnAddress), NumberOrNull(data.ratifiedEpoch),
             NumberOrNull(data.enactedEpoch), NumberOrNull(data.droppedEpoch), NumberOrNull(data.expiredEpoch),
             NumberOrNull(data.expiration), blockTime)
  }

  /** Another row already has the new row's (tx_hash, cert_index), so that the upsert is refused. */
  predicate Clashes(table: Table, row: Proposal) {
    exists id :: id in table && id != row.id && HasKey(table[id], row.txHash, row.certIndex)
  }

  /** The row an item writes, if it gets that far. */
  ghost function Written(table: Table, item: ListItem): Option<Proposal> {
    var existing := Existing(table, item.txHash, item.certIndex);
    if item.fault.FindFails? || (existing.Some? && Terminal(existing.value)) || !item.answer.Answered? then None
    else
      var row := RowOf(item.answer.data, BlockTime(existing, item.time));
      if item.fault.UpsertFails? || Clashes(table, row) then None else Some(row)
  }

  ghost function ApplyItem(table: Table, item: ListItem): Table {
    match Written(table, item)
    case None => table
    case Some(row) => table[row.id := row]
  }

  ghost function ApplyAll(table: Table, items: seq<ListItem>): Table {
    if items == [] then table else ApplyItem(ApplyAll(table, items[..|items| - 1]), items[|items| - 1])
  }

  ghost function CountAll(table: Table, items: seq<ListItem>): nat {
    if items == [] then 0
    else
      var init := items[..|items| - 1];
      CountAll(table, init) + if Written(ApplyAll(table, init), items[|items| - 1]).Some? then 1 else 0
  }

  /** The items a run gets to see: a failed, empty or short page is the last. */
  function Listed(pages: seq<PageAnswer>): seq<ListItem> {
    if pages == [] || pages[0].PageFails? then []
    else if |pages[0].items| < PER_PAGE then pages[0].items
    else pages[0].items + Listed(pages[1..])
  }

  // ----- the worker

  class ProposalsSyncWorker {
    var proposals: Table

    constructor ()
      ensures proposals == map[]
    {
      proposals := map[];
    }

    method SyncItem(item: ListItem) returns (synced: bool)
      requires UniqueKeys(proposals)
      modifies this
      ensures UniqueKeys(proposals)
      ensures proposals == ApplyItem(old(proposals), item)
      ensures synced == Written(old(proposals), item).Some?
    {
      synced := false;
      if item.fault.FindFails? {
        return;
      }
      var existing: Option<Proposal> := None;
      if id :| id in proposals && HasKey(proposals[id], item.txHash, item.certIndex) {
        existing := Some(proposals[id]);
      }
      assert existing == Existing(proposals, item.txHash, item.certIndex);
      if existing.Some? && Terminal(existing.value) {
        return;
      }
      if item.answer.Answered? {
        var data := item.answer.data;
        var blockTime := if existing.Some? then existing.value.blockTime else None;
        if blockTime.None? {
          if item.time.Time? && TruthyNumber(item.time.seconds) {
            blockTime := Some(item.time.seconds.value * 1000);
          }
        }
        var row := RowOf(data, blockTime);
        if item.fault.UpsertFails? || Clashes(proposals, row) {
          return;
        }
        proposals := proposals[row.id := row];
        synced := true;
      }
    }

    /** The inner loop: the items of one page. */
    method SyncPage(items: seq<ListItem>) returns (synced: nat)
      requires UniqueKeys(proposals)
      modifies this
      ensures UniqueKeys(proposals)
      ensures proposals == ApplyAll(old(proposals), items)
      ensures synced == CountAll(old(proposals), items)
    {
      synced := 0;
      hide UniqueKeys, ApplyItem, Written;
      for i := 0 to |items|
        invariant UniqueKeys(proposals)
        invariant proposals == ApplyAll(old(proposals), items[..i])
        invariant synced == CountAll(old(proposals), items[..i])
      {
        assert items[..i + 1][..i] == items[..i];
        var ok := SyncItem(items[i]);
        if ok {
          synced := synced + 1;
        }
      }
      assert items[..|items|] == items;
    }

    method SyncProposals(pages: seq<PageAnswer>) returns (totalSynced: nat)
      requires UniqueKeys(proposals)
      modifies this
      ensures UniqueKeys(proposals)
      ensures proposals == ApplyAll(old(proposals), Listed(pages))
      ensures totalSynced == CountAll(old(proposals), Listed(pages))
    {
      var page, hasMore := 1, true;
      totalSynced := 0;
      ghost var start := proposals;
      StartsWhole(start, pages);
      while hasMore
        invariant 1 <= page <= |pages| + 1
        invariant UniqueKeys(proposals)
        invariant InRun(start, pages, proposals, totalSynced, page, hasMore)
        decreases |pages| + 1 - page, hasMore
      {
        OnePage(start, pages, proposals, totalSynced, page);
        var list := if page <= |pages| then pages[page - 1] else Page([]);
        if list.PageFails? {
          hasMore := false;
        } else {
          if list.items == [] { break; }
          var synced := SyncPage(list.items);
          totalSynced := totalSynced + synced;
          if |list.items| < PER_PAGE {
            hasMore := false;
          } else {
            page := page + 1;
          }
        }
      }
      RunEnds(start, pages, proposals, totalSynced);
    }
  }

  /** After the pages before `page` the rest of them still makes the run what it should be. */
  ghost predicate InRun(
      start: Table, pages: seq<PageAnswer>, table: Table, total: nat, page: nat, hasMore: bool)
  {
    var rest := Rest(pages, page, hasMore);
    && ApplyAll(table, rest) == ApplyAll(start, Listed(pages))
    && total + CountAll(table, rest) == CountAll(start, Listed(pages))
  }

  lemma StartsWhole(start: Table, pages: seq<PageAnswer>)
    ensures InRun(start, pages, start, 0, 1, true)
  {
    assert pages[0..] == pages;
  }

  lemma RunEnds(start: Table, pages: seq<PageAnswer>, table: Table, total: nat)
    ensures forall page :: InRun(start, pages, table, total, page, false) ==>
              table == ApplyAll(start, Listed(pages)) && total == CountAll(start, Listed(pages))
  {
    NothingApplied(table);
    hide ApplyAll, CountAll, Listed;
  }

  lemma OnePage(start: Table, pages: seq<PageAnswer>, table: Table, total: nat, page: nat)
    requires 1 <= page && InRun(start, pages, table, total, page, true)
    ensures var list := if page <= |pages| then pages[page - 1] else Page([]);
            if list.PageFails? || list.items == [] then InRun(start, pages, table, total, page, false)
            else
              var more := |list.items| >= PER_PAGE;
              InRun(start, pages, ApplyAll(table, list.items), total + CountAll(table, list.items),
                    if more then page + 1 else page, more)
  {
    hide *;
    var list := if page <= |pages| then pages[page - 1] else Page([]);
    if list.PageFails? || list.items == [] {
      NoMorePages(start, pages, table, total, page);
    } else {
      PageGoesIn(start, pages, table, total, page, list.items);
    }
  }

  lemma NoMorePages(start: Table, pages: seq<PageAnswer>, table: Table, total: nat, page: nat)
    requires 1 <= page && InRun(start, pages, table, total, page, true)
    requires page <= |pages| && pages[page - 1].Page? ==> pages[page - 1].items == []
    ensures InRun(start, pages, table, total, page, false)
  {
    assert PER_PAGE == 100;
    RestUnfolds(pages, page);
    hide *;
    assert Rest(pages, page, true) == [];
    InRunIs(start, pages, table, total, page, true);
    InRunIs(start, pages, table, total, page, false);
    NothingLeft(pages, page);
  }

  lemma PageGoesIn(
      start: Table, pages: seq<PageAnswer>, table: Table, total: nat, page: nat, items: seq<ListItem>)
    requires 1 <= page <= |pages| && pages[page - 1] == Page(items) && InRun(start, pages, table, total, page, true)
    ensures var more := |items| >= PER_PAGE;
            InRun(start, pages, ApplyAll(table, items), total + CountAll(table, items),
                  if more then page + 1 else page, more)
  {
    hide *;
    var more := |items| >= PER_PAGE;
    RestUnfolds(pages, page);
    NothingLeft(pages, page);
    InRunIs(start, pages, table, total, page, true);
    AppliedInTurn(table, items, Rest(pages, page + 1, more));
    InRunIs(start, pages, ApplyAll(table, items), total + CountAll(table, items),
            if more then page + 1 else page, more);
  }

  lemma NothingLeft(pages: seq<PageAnswer>, page: nat)
    ensures Rest(pages, page, false) == [] && Rest(pages, page + 1, false) == []
  {
  }

  lemma InRunIs(start: Table, pages: seq<PageAnswer>, table: Table, total: nat, page: nat, hasMore: bool)
    ensures InRun(start, pages, table, total, page, hasMore)
            <==> var rest := Rest(pages, page, hasMore);
                 && ApplyAll(table, rest) == ApplyAll(start, Listed(pages))
                 && total + CountAll(table, rest) == CountAll(start, Listed(pages))
  {
    hide ApplyAll, CountAll, Listed, Rest;
  }

  /** What is still to come when the given page is next. */
  function Rest(pages: seq<PageAnswer>, page: nat, hasMore: bool): seq<ListItem> {
    if hasMore && 1 <= page <= |pages| then Listed(pages[page - 1..]) else []
  }

  lemma NothingApplied(table: Table)
    ensures ApplyAll(table, []) == table && CountAll(table, []) == 0
  {
  }

  lemma RestUnfolds(pages: seq<PageAnswer>, page: nat)
    requires 1 <= page
    ensures Rest(pages, page, false) == Rest(pages, page + 1, false) == []
    ensures page > |pages| ==> Rest(pages, page, true) == []
    ensures page <= |pages| ==>
              match pages[page - 1]
              case PageFails => Rest(pages, page, true) == []
              case Page(items) =>
                Rest(pages, page, true) == items + Rest(pages, page + 1, |items| >= PER_PAGE)
  {
    if page <= |pages| {
      assert pages[page - 1..][1..] == pages[page..];
    }
  }

  lemma {:induction false} AppliedInTurn(table: Table, a: seq<ListItem>, b: seq<ListItem>)
    ensures ApplyAll(table, a + b) == ApplyAll(ApplyAll(table, a), b)
    ensures CountAll(table, a + b) == CountAll(table, a) + CountAll(ApplyAll(table, a), b)
  {
    hide ApplyItem, Written;
    if b == [] {
      assert a + b == a;
    } else {
      var init := b[..|b| - 1];
      assert (a + b)[..|a + b| - 1] == a + init;
      AppliedInTurn(table, a, init);
    }
  }

  // ----- when ids and (txHash, certIndex) determine each other

  ghost predicate Injective(idOf: (string, int) -> string) {
    forall t, c, u, d :: idOf(t, c) == idOf(u, d) ==> t == u && c == d
  }

  ghost predicate Coherent(table: Table, idOf: (string, int) -> string) {
    forall id :: id in table ==> table[id].id == id && idOf(table[id].txHash, table[id].certIndex) == id
  }

  /** The remote source answers about the proposal it was asked about, under its id. */
  predicate Faithful(item: ListItem, idOf: (string, int) -> string) {
    item.answer.Answered? ==>
      var data := item.answer.data;
      HasKey(RowOf(data, None), item.txHash, item.certIndex) && data.id == idOf(item.txHash, item.certIndex)
  }

  ghost predicate AllFaithful(items: seq<ListItem>, idOf: (string, int) -> string) {
    forall i :: 0 <= i < |items| ==> Faithful(items[i], idOf)
  }

  function At(table: Table, id: string): Option<Proposal> {
    if id in table then Some(table[id]) else None
  }

  function IdOf(item: ListItem, idOf: (string, int) -> string): string {
    idOf(item.txHash, item.certIndex)
  }

  /** What an item makes of its own row. */
  function StepAt(row: Option<Proposal>, item: ListItem): Option<Proposal> {
    if !item.fault.NoFault? || (row.Some? && Terminal(row.value)) || !item.answer.Answered? then row
    else Some(RowOf(item.answer.data, BlockTime(row, item.time)))
  }

  /** An item reads and writes only the row of its own proposal. */
  lemma ItemIsLocal(table: Table, item: ListItem, idOf: (string, int) -> string, id: string)
    requires Injective(idOf) && Coherent(table, idOf) && Faithful(item, idOf)
    ensures Coherent(ApplyItem(table, item), idOf)
    ensures At(ApplyItem(table, item), id)
            == if id == IdOf(item, idOf) then StepAt(At(table, id), item) else At(table, id)
  {
    var own := IdOf(item, idOf);
    var existing := Existing(table, item.txHash, item.certIndex);
    assert existing == At(table, own);
    if item.answer.Answered? {
      var row := RowOf(item.answer.data, BlockTime(existing, item.time));
      assert !Clashes(table, row);
    }
  }

  /** What a row keeps through any number of runs: its key, a recorded time, and all of it once terminal. */
  ghost predicate Keeps(before: Table, after: Table) {
    forall id :: id in before ==>
      && id in after
      && HasKey(after[id], before[id].txHash, before[id].certIndex)
      && (before[id].blockTime.Some? ==> after[id].blockTime == before[id].blockTime)
      && (Terminal(before[id]) ==> after[id] == before[id])
  }

  lemma ItemKeeps(table: Table, item: ListItem, idOf: (string, int) -> string)
    requires Injective(idOf) && Coherent(table, idOf) && Faithful(item, idOf)
    ensures Keeps(table, ApplyItem(table, item))
  {
    var after := ApplyItem(table, item);
    forall id | id in table
      ensures id in after && HasKey(after[id], table[id].txHash, table[id].certIndex)
      ensures table[id].blockTime.Some? ==> after[id].blockTime == table[id].blockTime
      ensures Terminal(table[id]) ==> after[id] == table[id]
    {
      ItemIsLocal(table, item, idOf, id);
      hide ApplyItem;
    }
  }

  lemma {:induction false} RunKeeps(table: Table, items: seq<ListItem>, idOf: (string, int) -> string)
    requires Injective(idOf) && Coherent(table, idOf) && AllFaithful(items, idOf)
    ensures Keeps(table, ApplyAll(table, items)) && Coherent(ApplyAll(table, items), idOf)
  {
    hide ApplyItem, Terminal, Faithful;
    if items != [] {
      var init, last := items[..|items| - 1], items[|items| - 1];
      RunKeeps(table, init, idOf);
      ItemKeeps(ApplyAll(table, init), last, idOf);
      ItemIsLocal(ApplyAll(table, init), last, idOf, "");
    }
  }

  ghost function AfterRuns(table: Table, runs: seq<seq<PageAnswer>>): Table {
    if runs == [] then table else ApplyAll(AfterRuns(table, runs[..|runs| - 1]), Listed(runs[|runs| - 1]))
  }

  /**
   * Over any sequence of runs, with failing pages, calls and upserts anywhere, no row is lost or moved
   * to another proposal, a recorded time never changes, and a terminal row never changes at all.
   */
  lemma {:induction false} RunsKeep(table: Table, runs: seq<seq<PageAnswer>>, idOf: (string, int) -> string)
    requires Injective(idOf) && Coherent(table, idOf)
    requires forall k :: 0 <= k < |runs| ==> AllFaithful(Listed(runs[k]), idOf)
    ensures Keeps(table, AfterRuns(table, runs)) && Coherent(AfterRuns(table, runs), idOf)
  {
    hide Terminal, Listed, AllFaithful;
    if runs != [] {
      var init := runs[..|runs| - 1];
      RunsKeep(table, init, idOf);
      RunKeeps(AfterRuns(table, init), Listed(runs[|runs| - 1]), idOf);
    }
  }

  /** An answer under the id of another proposal would overwrite that one, even when it is terminal. */
  lemma MisansweredOverwrites(data: Data, row: Proposal) returns (table: Table, item: ListItem)
    requires row == RowOf(data.(enactedEpoch := Some(500)), None) && data.enactedEpoch == None
    ensures UniqueKeys(table) && data.id in table && Terminal(table[data.id])
    ensures item.answer == Answered(data) && ApplyItem(table, item)[data.id] != table[data.id]
  {
    table := map[data.id := row];
    item := ListItem(data.txHash, data.certIndex + 1, Answered(data), TimeFails, NoFault);
    assert !Clashes(table, RowOf(data, None));
    assert Existing(table, item.txHash, item.certIndex) == None;
    hide Existing, Clashes;
    assert Written(table, item) == Some(RowOf(data, None));
    hide Written;
  }

  // ----- what a run makes of the table, and what a second one does

  /** An item about a proposal that gets as far as writing, if the row is not terminal. */
  predicate Takes(item: ListItem, idOf: (string, int) -> string, id: string): (takes: bool)
    ensures takes ==> item.answer.Answered?
  {
    IdOf(item, idOf) == id && item.fault.NoFault? && item.answer.Answered?
  }

  /** What the items about one proposal make of its row, in the order in which they are listed. */
  function FoldAt(
      row: Option<Proposal>, items: seq<ListItem>, idOf: (string, int) -> string, id: string): Option<Proposal>
  {
    if items == [] then row
    else
      var before, last := FoldAt(row, items[..|items| - 1], idOf, id), items[|items| - 1];
      if IdOf(last, idOf) == id then StepAt(before, last) else before
  }

  /** Whatever is listed, and however often, a row is what the items about its own proposal make of it. */
  lemma {:induction false} RunDecides(table: Table, items: seq<ListItem>, idOf: (string, int) -> string, id: string)
    requires Injective(idOf) && Coherent(table, idOf) && AllFaithful(items, idOf)
    ensures At(ApplyAll(table, items), id) == FoldAt(At(table, id), items, idOf, id)
  {
    hide ApplyItem, StepAt, Faithful, IdOf, At, Injective;
    if items != [] {
      var init, last := items[..|items| - 1], items[|items| - 1];
      RunDecides(table, init, idOf, id);
      RunKeeps(table, init, idOf);
      ItemIsLocal(ApplyAll(table, init), last, idOf, id);
    }
  }

  predicate Over(row: Option<Proposal>) {
    row.Some? && Terminal(row.value)
  }

  lemma StepIs(row: Option<Proposal>, item: ListItem, idOf: (string, int) -> string, id: string)
    requires IdOf(item, idOf) == id
    ensures Over(row) || !Takes(item, idOf, id) ==> StepAt(row, item) == row
    ensures !Over(row) && Takes(item, idOf, id) ==>
              StepAt(row, item) == Some(RowOf(item.answer.data, BlockTime(row, item.time)))
  {
    hide Terminal, RowOf, BlockTime;
  }

  /** A row that is terminal, or that no item writes to, stays. */
  lemma {:induction false} FoldStays(
      row: Option<Proposal>, items: seq<ListItem>, idOf: (string, int) -> string, id: string)
    requires Over(row) || forall i :: 0 <= i < |items| ==> !Takes(items[i], idOf, id)
    ensures FoldAt(row, items, idOf, id) == row
  {
    hide Over, Takes, StepAt, IdOf;
    if items != [] {
      var init, last := items[..|items| - 1], items[|items| - 1];
      FoldStays(row, init, idOf, id);
      if IdOf(last, idOf) == id { StepIs(row, last, idOf, id); }
    }
  }

  /** The columns of a row are what the answer says, null for what it leaves out, empty or zero. */
  predicate Reflects(row: Proposal, data: Data) {
    && row.id == data.id && HasKey(row, data.txHash, data.certIndex) && row.governanceType == data.governanceType
    && TextReflects(row.governanceDescription, data.governanceDescription)
    && TextReflects(row.depositLovelace, data.deposit)
    && TextReflects(row.returnStakeAddress, data.returnAddress)
    && NumberReflects(row.ratifiedEpoch, data.ratifiedEpoch)
    && NumberReflects(row.enactedEpoch, data.enactedEpoch)
    && NumberReflects(row.droppedEpoch, data.droppedEpoch)
    && NumberReflects(row.expiredEpoch, data.expiredEpoch)
    && NumberReflects(row.expirationEpoch, data.expiration)
  }

  predicate TextReflects(column: Option<string>, text: Option<string>) {
    if text == Some("") then column == None else column == text
  }

  predicate NumberReflects(column: Option<int>, number: Option<int>) {
    if number == Some(0) then column == None else column == number
  }

  function TimeOf(row: Option<Proposal>): Option<int> {
    if row.Some? then row.value.blockTime else None
  }

  /** The time a row has after items about it: the one it had, or else the first one found, in milliseconds. */
  function FirstTime(
      known: Option<int>, items: seq<ListItem>, idOf: (string, int) -> string, id: string): Option<int>
  {
    if items == [] then known
    else
      var before, last := FirstTime(known, items[..|items| - 1], idOf, id), items[|items| - 1];
      if before.Some? || !Takes(last, idOf, id) then before
      else
        match last.time
        case Time(Some(seconds)) => if seconds == 0 then None else Some(1000 * seconds)
        case _ => None
  }

  lemma {:induction false} FoldTime(
      row: Option<Proposal>, items: seq<ListItem>, idOf: (string, int) -> string, id: string)
    requires !Over(row)
    requires forall j :: 0 <= j < |items| - 1 && Takes(items[j], idOf, id) ==> !Ended(items[j].answer.data)
    ensures TimeOf(FoldAt(row, items, idOf, id)) == FirstTime(TimeOf(row), items, idOf, id)
  {
    hide Ended, StepAt, IdOf, Takes, Over;
    if items != [] {
      var init, last := items[..|items| - 1], items[|items| - 1];
      FoldTime(row, init, idOf, id);
      NotEnded(row, init, idOf, id);
      var before := FoldAt(row, init, idOf, id);
      if IdOf(last, idOf) == id {
        StepIs(before, last, idOf, id);
      } else {
        assert !Takes(last, idOf, id) by { NotTaken(last, idOf, id); }
      }
    }
  }

  lemma NotTaken(item: ListItem, idOf: (string, int) -> string, id: string)
    requires IdOf(item, idOf) != id
    ensures !Takes(item, idOf, id)
  {
  }

  /**
   * The item whose answer a run leaves: no earlier one has ended the proposal, and it ends the proposal
   * itself or is the last to take effect.
   */
  ghost predicate Decides(items: seq<ListItem>, idOf: (string, int) -> string, id: string, i: nat) {
    && i < |items| && Takes(items[i], idOf, id)
    && (forall j :: 0 <= j < i && Takes(items[j], idOf, id) ==> !Ended(items[j].answer.data))
    && (Ended(items[i].answer.data) || forall j :: i < j < |items| ==> !Takes(items[j], idOf, id))
  }

  /**
   * A proposal that was not terminal shows the answer of the item that decides about it, under the first time
   * that was found. Some item does, unless none takes effect, and then the row is as it was.
   */
  lemma RunReflects(table: Table, items: seq<ListItem>, idOf: (string, int) -> string, id: string)
    requires Injective(idOf) && Coherent(table, idOf) && AllFaithful(items, idOf)
    requires id in table ==> !Terminal(table[id])
    ensures (forall i :: 0 <= i < |items| ==> !Takes(items[i], idOf, id))
            ==> At(ApplyAll(table, items), id) == At(table, id)
    ensures (exists i :: 0 <= i < |items| && Takes(items[i], idOf, id)) ==> exists i: nat :: Decides(items, idOf, id, i)
    ensures forall i: nat :: Decides(items, idOf, id, i) ==>
              var after := ApplyAll(table, items);
              && id in after && Reflects(after[id], items[i].answer.data)
              && (Terminal(after[id]) <==> Ended(items[i].answer.data))
              && after[id].blockTime == FirstTime(TimeOf(At(table, id)), items[..i + 1], idOf, id)
  {
    RunDecides(table, items, idOf, id);
    assert !Over(At(table, id));
    assert id in ApplyAll(table, items) <==> At(ApplyAll(table, items), id).Some?;
    hide ApplyAll, AllFaithful, Coherent, Injective, FoldAt, Takes, Ended, Reflects, Over, BlockTime, Terminal;
    if forall i :: 0 <= i < |items| ==> !Takes(items[i], idOf, id) {
      FoldStays(At(table, id), items, idOf, id);
    } else {
      SomeDecides(items, idOf, id);
    }
    forall i: nat | Decides(items, idOf, id, i)
      ensures FoldReflects(At(table, id), items, idOf, id, i)
    {
      DecidesReflects(At(table, id), items, idOf, id, i);
    }
    hide Decides;
  }

  ghost predicate FoldReflects(
      row: Option<Proposal>, items: seq<ListItem>, idOf: (string, int) -> string, id: string, i: nat)
    requires i < |items| && items[i].answer.Answered?
  {
    var after, data := FoldAt(row, items, idOf, id), items[i].answer.data;
    && after.Some? && Reflects(after.value, data) && (Terminal(after.value) <==> Ended(data))
    && after.value.blockTime == FirstTime(TimeOf(row), items[..i + 1], idOf, id)
  }

  lemma DecidesReflects(row: Option<Proposal>, items: seq<ListItem>, idOf: (string, int) -> string, id: string, i: nat)
    requires Decides(items, idOf, id, i) && !Over(row)
    ensures FoldReflects(row, items, idOf, id, i)
  {
    var init, rest := items[..i], items[i + 1..];
    var before, step := FoldAt(row, init, idOf, id), FoldAt(row, items[..i + 1], idOf, id);
    assert items[..i + 1][..i] == init && items == items[..i + 1] + rest;
    assert IdOf(items[i], idOf) == id && items[i].answer.Answered? && items[i].fault.NoFault?;
    hide Takes, Ended, Terminal, Reflects, StepAt, IdOf, BlockTime;
    NotEnded(row, init, idOf, id);
    FoldTime(row, items[..i + 1], idOf, id);
    assert step == StepAt(before, items[i]);
    StepReflects(before, items[i]);
    FoldStays(step, rest, idOf, id);
    FoldInTurn(row, items[..i + 1], rest, idOf, id);
  }

  lemma {:induction false} FoldInTurn(
      row: Option<Proposal>, a: seq<ListItem>, b: seq<ListItem>, idOf: (string, int) -> string, id: string)
    ensures FoldAt(row, a + b, idOf, id) == FoldAt(FoldAt(row, a, idOf, id), b, idOf, id)
  {
    hide StepAt, IdOf;
    if b == [] {
      assert a + b == a;
    } else {
      var init := b[..|b| - 1];
      assert (a + b)[..|a + b| - 1] == a + init;
      FoldInTurn(row, a, init, idOf, id);
    }
  }

  lemma {:induction false} NotEnded(
      row: Option<Proposal>, items: seq<ListItem>, idOf: (string, int) -> string, id: string)
    requires !Over(row)
    requires forall j :: 0 <= j < |items| && Takes(items[j], idOf, id) ==> !Ended(items[j].answer.data)
    ensures !Over(FoldAt(row, items, idOf, id))
  {
    hide Ended, StepAt, IdOf, Takes, Over;
    if items != [] {
      var init, last := items[..|items| - 1], items[|items| - 1];
      NotEnded(row, init, idOf, id);
      var before := FoldAt(row, init, idOf, id);
      if IdOf(last, idOf) == id {
        StepIs(before, last, idOf, id);
        if Takes(last, idOf, id) { RowEnds(last.answer.data, BlockTime(before, last.time)); }
      }
    }
  }

  lemma RowEnds(data: Data, blockTime: Option<int>)
    ensures Over(Some(RowOf(data, blockTime))) <==> Ended(data)
  {
  }

  lemma {:induction false} SomeDecides(items: seq<ListItem>, idOf: (string, int) -> string, id: string)
    requires exists i :: 0 <= i < |items| && Takes(items[i], idOf, id)
    ensures exists i: nat :: Decides(items, idOf, id, i)
  {
    hide Takes, Ended;
    var init, last := items[..|items| - 1], |items| - 1;
    assert items == init + [items[last]];
    if i :| 0 <= i < |init| && Takes(init[i], idOf, id) {
      SomeDecides(init, idOf, id);
      var k: nat :| Decides(init, idOf, id, k);
      if Takes(items[last], idOf, id) && !Ended(items[k].answer.data) {
        LastDecides(items, idOf, id, k);
      } else {
        assert Decides(items, idOf, id, k);
      }
    } else {
      forall j | 0 <= j < last ensures !Takes(items[j], idOf, id) { assert items[j] == init[j]; }
      assert Decides(items, idOf, id, last);
    }
  }

  lemma LastDecides(items: seq<ListItem>, idOf: (string, int) -> string, id: string, k: nat)
    requires |items| > 0 && Takes(items[|items| - 1], idOf, id)
    requires Decides(items[..|items| - 1], idOf, id, k) && !Ended(items[k].answer.data)
    ensures Decides(items, idOf, id, |items| - 1)
  {
    hide Takes, Ended;
    var init := items[..|items| - 1];
    forall j | 0 <= j < |items| - 1 && Takes(items[j], idOf, id) ensures !Ended(items[j].answer.data) {
      assert init[j] == items[j];
    }
  }

  lemma StepReflects(row: Option<Proposal>, item: ListItem)
    requires item.answer.Answered? && item.fault.NoFault? && (row.Some? ==> !Terminal(row.value))
    ensures var after := StepAt(row, item);
            && after.Some? && Reflects(after.value, item.answer.data)
            && (Terminal(after.value) <==> Ended(item.answer.data))
            && after.value.blockTime == BlockTime(row, item.time)
  {
  }

  predicate Ended(data: Data) {
    TruthyNumber(data.enactedEpoch) || TruthyNumber(data.expiredEpoch) || TruthyNumber(data.droppedEpoch)
  }

  /** The items that leave a row open do the same to any open row, but for the time it has already. */
  lemma {:induction false} FoldFrom(
      row: Option<Proposal>, other: Option<Proposal>, items: seq<ListItem>, idOf: (string, int) -> string, id: string)
    requires !Over(FoldAt(row, items, idOf, id)) && !Over(other)
    ensures var a, b := FoldAt(row, items, idOf, id), FoldAt(other, items, idOf, id);
            && !Over(b)
            && ((a == row && b == other)
                || (a.Some? && b.Some? && b.value == a.value.(blockTime := b.value.blockTime)))
            && (TimeOf(other).Some? ==> TimeOf(b) == TimeOf(other))
            && (TimeOf(other).None? && TimeOf(a).None? ==> TimeOf(b).None?)
  {
    hide StepAt, IdOf, Takes, Over;
    if items != [] {
      var init, last := items[..|items| - 1], items[|items| - 1];
      var c, d := FoldAt(row, init, idOf, id), FoldAt(other, init, idOf, id);
      if IdOf(last, idOf) == id {
        StepIs(c, last, idOf, id);
        FoldFrom(row, other, init, idOf, id);
        StepIs(d, last, idOf, id);
        if Takes(last, idOf, id) {
          RowEnds(last.answer.data, BlockTime(c, last.time));
          RowEnds(last.answer.data, BlockTime(d, last.time));
        }
      } else {
        FoldFrom(row, other, init, idOf, id);
      }
    }
  }

  lemma FoldTwice(row: Option<Proposal>, items: seq<ListItem>, idOf: (string, int) -> string, id: string)
    ensures var once := FoldAt(row, items, idOf, id); FoldAt(once, items, idOf, id) == once
  {
    hide FoldAt, Over;
    var once := FoldAt(row, items, idOf, id);
    if Over(once) {
      FoldStays(once, items, idOf, id);
    } else {
      FoldFrom(row, once, items, idOf, id);
    }
  }

  /** Running again on the same answers changes nothing, failures and repeated proposals included. */
  lemma SecondRunChangesNothing(table: Table, items: seq<ListItem>, idOf: (string, int) -> string)
    requires Injective(idOf) && Coherent(table, idOf) && AllFaithful(items, idOf)
    ensures ApplyAll(ApplyAll(table, items), items) == ApplyAll(table, items)
  {
    var once := ApplyAll(table, items);
    var twice := ApplyAll(once, items);
    RunKeeps(table, items, idOf);
    hide ApplyAll, FoldAt;
    forall id ensures At(twice, id) == At(once, id) {
      RunDecides(table, items, idOf, id);
      RunDecides(once, items, idOf, id);
      FoldTwice(At(table, id), items, idOf, id);
    }
    assert forall id :: id in twice <==> At(twice, id).Some?;
    assert forall id :: id in once <==> At(once, id).Some?;
  }

  /** The items whose upsert goes through. */
  ghost function WrittenAt(table: Table, items: seq<ListItem>): set<int> {
    set i | 0 <= i < |items| && Written(ApplyAll(table, items[..i]), items[i]).Some?
  }

  lemma WrittenOneMore(table: Table, init: seq<ListItem>, last: ListItem)
    ensures WrittenAt(table, init + [last])
            == WrittenAt(table, init) + if Written(ApplyAll(table, init), last).Some? then {|init|} else {}
  {
    hide Written, ApplyAll;
    var items := init + [last];
    assert items[..|init|] == init;
    forall i | 0 <= i < |init| ensures items[..i] == init[..i] {}
  }

  /** The count a run reports is the number of these. */
  lemma {:induction false} CountIs(table: Table, items: seq<ListItem>)
    ensures CountAll(table, items) == |WrittenAt(table, items)|
  {
    if items == [] {
      assert WrittenAt(table, items) == {};
    } else {
      var init, last := items[..|items| - 1], items[|items| - 1];
      CountIs(table, init);
      assert items == init + [last];
      WrittenOneMore(table, init, last);
      assert |init| !in WrittenAt(table, init);
      hide Written, ApplyAll, WrittenAt;
    }
  }

  // ----- paging

  /** The pages of a list, as the remote source serves them: full ones, then the rest. */
  function PagesFrom(list: seq<ListItem>): seq<PageAnswer>
    decreases |list|
  {
    if |list| < PER_PAGE then [Page(list)] else [Page(list[..PER_PAGE])] + PagesFrom(list[PER_PAGE..])
  }

  /** If no page fails, a run sees the whole list. */
  lemma {:induction false} PagingIsWhole(list: seq<ListItem>)
    ensures Listed(PagesFrom(list)) == list
    decreases |list|
  {
    if |list| >= PER_PAGE {
      PagingIsWhole(list[PER_PAGE..]);
      assert PagesFrom(list)[1..] == PagesFrom(list[PER_PAGE..]);
      assert list == list[..PER_PAGE] + list[PER_PAGE..];
    }
  }

  /** A page after which no other is asked for: a failed one, a short or empty one, or the end. */
  predicate StopsAt(pages: seq<PageAnswer>, i: nat) {
    && i <= |pages|
    && (forall j :: 0 <= j < i ==> pages[j].Page? && |pages[j].items| >= 100)
    && (i < |pages| ==> pages[i].PageFails? || |pages[i].items| < 100)
  }

  function Together(pages: seq<PageAnswer>): seq<ListItem> {
    if pages == [] then [] else (if pages[0].Page? then pages[0].items else []) + Together(pages[1..])
  }

  /** A run sees the items of the pages up to the one at which it stops, what came before a failure included. */
  lemma {:induction false} ListedUpToStop(pages: seq<PageAnswer>, i: nat)
    requires StopsAt(pages, i)
    ensures Listed(pages) == Together(pages[..if i < |pages| then i + 1 else i])
  {
    if pages != [] {
      var seen := pages[..if i < |pages| then i + 1 else i];
      if i == 0 {
        assert seen == [pages[0]] && seen[1..] == [] && Together(seen[1..]) == [];
      } else {
        ListedUpToStop(pages[1..], i - 1);
        assert seen[1..] == pages[1..][..if i - 1 < |pages[1..]| then i else i - 1];
      }
    }
  }
}
