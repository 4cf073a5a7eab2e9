/**
 * The governance sync job over delegators: one reconciliation per DRep, then the delegation counts.
 */
module DelegatorSyncWorker {
  import opened DelegatorSync
  import opened TimelineLog

  /** The remote's answers for every DRep, and the DReps whose transaction meets no failure of the database. */
  datatype Source = Source(pages: map<string, seq<Page>>, commits: set<string>)

  function PagesFor(source: Source, drepId: string): seq<Page> {
    if drepId in source.pages then source.pages[drepId] else []
  }

  /** All pages arrived and the transaction committed. */
  predicate Succeeds(source: Source, drepId: string) {
    !FetchFails(PagesFor(source, drepId)) && drepId in source.commits
  }

  /**
   * The upsert of the undelegations names the columns (tx_hash, tx_index), which takes a unique index on just
   * these: under the other one the statement is refused, and with it the transaction.
   */
  predicate Fits(ix: UniqueIndex, rows: Rows, drepId: string, fetched: map<string, string>) {
    ix.TxKey? || Removed(rows, drepId, fetched) == {}
  }

  function AfterDrep(ix: UniqueIndex, st: Store, drepId: string, source: Source, at: int): Store {
    var fetched := Collected(PagesFor(source, drepId));
    if Succeeds(source, drepId) && Fits(ix, st.rows, drepId, fetched) then Synced(st, drepId, fetched, at) else st
  }

  /** `times` tells when each DRep is reconciled. */
  function SyncAll(ix: UniqueIndex, st: Store, dreps: seq<string>, source: Source, times: string -> int): Store {
    if dreps == [] then st
    else
      var last := dreps[|dreps| - 1];
      AfterDrep(ix, SyncAll(ix, st, dreps[..|dreps| - 1], source, times), last, source, times(last))
  }

  /** The delegators of the DReps reconciled, which the run reports. */
  function TotalSynced(ix: UniqueIndex, st: Store, dreps: seq<string>, source: Source, times: string -> int): nat {
    if dreps == [] then 0
    else
      var init, last := dreps[..|dreps| - 1], dreps[|dreps| - 1];
      var fetched := Collected(PagesFor(source, last));
      TotalSynced(ix, st, init, source, times)
      + if Succeeds(source, last) && Fits(ix, SyncAll(ix, st, init, source, times).rows, last, fetched)
        then |fetched| else 0
  }

  lemma OneMoreDrep(
      ix: UniqueIndex, st: Store, dreps: seq<string>, source: Source, times: string -> int, i: nat)
    requires i < |dreps|
    ensures var before, drepId := SyncAll(ix, st, dreps[..i], source, times), dreps[i];
            var fetched := Collected(PagesFor(source, drepId));
            && SyncAll(ix, st, dreps[..i + 1], source, times) == AfterDrep(ix, before, drepId, source, times(drepId))
            && TotalSynced(ix, st, dreps[..i + 1], source, times)
               == TotalSynced(ix, st, dreps[..i], source, times)
                  + if Succeeds(source, drepId) && Fits(ix, before.rows, drepId, fetched) then |fetched| else 0
  {
    assert dreps[..i + 1][..i] == dreps[..i];
    hide Fits, Succeeds, AfterDrep, Collected;
  }

  function DelegatorsOf(rows: Rows, drepId: string): set<string> {
    set k | k in rows && k.0 == drepId :: k.1
  }

  /** delegation_vote_count after the grouped count; the updates of `failing` throw. */
  function Counted(rows: Rows, counts: map<string, nat>, groups: set<string>, failing: set<string>): map<string, nat> {
    map d | d in counts :: if d in groups && d !in failing then |DelegatorsOf(rows, d)| else counts[d]
  }

  function Groups(rows: Rows): set<string> {
    set k | k in rows :: k.0
  }

  lemma SyncedIs(st: Store, drepId: string, fetched: map<string, string>, at: int)
    ensures Synced(st, drepId, fetched, at)
            == Store(SyncedRows(st.rows, drepId, fetched), st.events + RemovalEvents(st.rows, drepId, fetched, at))
  {
  }

  lemma NothingRemoved(rows: Rows, drepId: string, fetched: map<string, string>, gone: seq<string>)
    requires forall a :: a in gone <==> a in Removed(rows, drepId, fetched)
    ensures gone == [] <==> Removed(rows, drepId, fetched) == {}
  {
    hide Removed;
    if gone != [] { assert gone[0] in gone; }
  }

  class GovernanceSyncWorker {
    var rows: Rows
    var events: Events
    /** dreps: drep_id to delegation_vote_count. */
    var counts: map<string, nat>

    constructor (r: Rows, e: Events, c: map<string, nat>)
      ensures rows == r && events == e && counts == c
    {
      rows, events, counts := r, e, c;
    }

    function Tables(): Store
      reads this
    {
      Store(rows, events)
    }

    method SyncDRepDelegators(ix: UniqueIndex, dreps: seq<string>, source: Source, times: string -> int)
      returns (totalSynced: nat)
      modifies this`rows, this`events
      ensures Tables() == SyncAll(ix, old(Tables()), dreps, source, times)
      ensures totalSynced == TotalSynced(ix, old(Tables()), dreps, source, times)
    {
      totalSynced := 0;
      for i := 0 to |dreps|
        invariant Tables() == SyncAll(ix, old(Tables()), dreps[..i], source, times)
        invariant totalSynced == TotalSynced(ix, old(Tables()), dreps[..i], source, times)
      {
        OneMoreDrep(ix, old(Tables()), dreps, source, times, i);
        hide Fits, Synced, FetchFails, Collected, SyncAll, TotalSynced;
        var fetched, fetchFailed := FetchDelegators(PagesFor(source, dreps[i]));
        if !fetchFailed {
          var synced := Reconcile(ix, dreps[i], fetched, times(dreps[i]), dreps[i] in source.commits);
          totalSynced := totalSynced + synced;
        }
      }
      assert dreps[..|dreps|] == dreps;
    }

    /** Diffs the DRep's rows with the fetched ones and applies the difference in one transaction. */
    method Reconcile(ix: UniqueIndex, drepId: string, fetched: map<string, string>, at: int, commits: bool)
      returns (synced: nat)
      modifies this`rows, this`events
      ensures var done := commits && Fits(ix, old(rows), drepId, fetched);
              && Tables() == (if done then Synced(old(Tables()), drepId, fetched, at) else old(Tables()))
              && synced == if done then |fetched| else 0
    {
      hide Synced, SyncedRows, RemovalEvents, DeleteAll, RowsFrom, EventsFrom, AsMap, RowsOf, Removed, Fresh,
          Changed, Missing, DistinctAddresses;
      SyncedIs(Tables(), drepId, fetched, at);
      var existing := RowsOf(rows, drepId);
      var toInsert, toUpdate := DiffFetched(existing, fetched);
      var toDelete := DiffExisting(existing, fetched);
      var gone := seq(|toDelete|, i requires 0 <= i < |toDelete| => toDelete[i].address);
      GoneIsRemoved(rows, drepId, fetched, toDelete, gone);
      InsertsAreNew(rows, drepId, fetched, gone, toInsert);
      StatementsAreSync(rows, drepId, fetched, gone, toInsert, toUpdate);
      EventsAreSync(rows, drepId, fetched, toDelete, at);
      EmptyStatements(rows, drepId, at);
      var r, e, ok := ApplyStatements(ix, drepId, toInsert, toUpdate, toDelete, gone, at);
      NothingRemoved(rows, drepId, fetched, gone);
      synced := 0;
      if ok && commits {
        rows, events := r, e;
        synced := |fetched|;
      }
    }

    /** The statements of one transaction, on the transaction's own view of the tables, until one is refused. */
    method ApplyStatements(ix: UniqueIndex, drepId: string, toInsert: seq<Delegator>, toUpdate: seq<Delegator>,
                           toDelete: seq<Delegator>, gone: seq<string>, at: int)
      returns (r: Rows, e: Events, ok: bool)
      requires |gone| == |toDelete|
      requires DistinctAddresses(toInsert)
      requires forall x :: x in toInsert ==> (drepId, x.address) !in DeleteAll(rows, drepId, gone)
      ensures ok <==> ix.TxKey? || gone == []
      ensures ok ==> r == DeleteAll(rows, drepId, gone) + RowsFrom(drepId, toInsert) + RowsFrom(drepId, toUpdate)
      ensures ok ==> e == events + EventsFrom(drepId, toDelete, at)
    {
      EmptyStatements(rows, drepId, at);
      hide *;
      r, e, ok := rows, events, true;
      if |toDelete| > 0 {
        r := DeleteInChunks(r, drepId, gone);
        if ix.TxKeyAndType? {
          ok := false;
          return;
        }
        e := UpsertEventsInChunks(e, drepId, toDelete, at);
      }
      assert r == DeleteAll(rows, drepId, gone);
      if |toInsert| > 0 {
        r := InsertInChunks(r, drepId, toInsert);
      }
      if |toUpdate| > 0 {
        r := UpsertRowsInChunks(r, drepId, toUpdate);
      }
    }

    method UpdateDelegationCounts(failing: set<string>)
      modifies this`counts
      ensures counts == Counted(rows, old(counts), Groups(rows), failing)
    {
      var todo := Groups(rows);
      while todo != {}
        invariant todo <= Groups(rows)
        invariant counts == Counted(rows, old(counts), Groups(rows) - todo, failing)
        decreases todo
      {
        var d :| d in todo;
        todo := todo - {d};
        if d !in failing && d in counts {
          counts := counts[d := |DelegatorsOf(rows, d)|];
        }
      }
    }
  }
}
