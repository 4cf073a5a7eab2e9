/** What a delegator sync achieves, over all DReps, failures and repeated runs. */
module DelegatorSyncFacts {
  import opened Basics
  import opened DelegatorSync
  import opened DelegatorSyncWorker
  import opened TimelineLog

  /** One DRep's rows brought in line: fetched amounts, and the old row where the amount is unchanged. */
  function Merged(existing: map<string, Row>, fetched: map<string, string>): map<string, Row> {
    map a | a in fetched ::
      if a in existing && existing[a].amount == fetched[a] then existing[a] else Row(fetched[a], fetched[a])
  }

  lemma RowsOfSynced(rows: Rows, drepId: string, fetched: map<string, string>, other: string)
    ensures RowsOf(SyncedRows(rows, drepId, fetched), other)
            == if other == drepId then Merged(RowsOf(rows, drepId), fetched) else RowsOf(rows, other)
  {
    var after := SyncedRows(rows, drepId, fetched);
    RowsOfDrep(rows, other);
    RowsOfDrep(after, other);
    hide RowsOf;
    forall a ensures (other, a) in after <==> if other == drepId then a in fetched else (other, a) in rows {}
  }

  function AmountsIn(m: map<string, Row>): map<string, string> {
    map a | a in m :: m[a].amount
  }

  lemma MergedAmounts(existing: map<string, Row>, fetched: map<string, string>)
    ensures AmountsIn(Merged(existing, fetched)) == fetched
  {
  }

  lemma AmountsOfRows(rows: Rows, drepId: string)
    ensures Amounts(rows, drepId) == AmountsIn(RowsOf(rows, drepId))
  {
    RowsOfDrep(rows, drepId);
    hide RowsOf;
    forall a ensures a in Amounts(rows, drepId) <==> (drepId, a) in rows {
      if a in Amounts(rows, drepId) {
        var k :| k in rows && k.0 == drepId && k.1 == a;
        assert k == (drepId, a);
      }
    }
  }

  /** The DReps that the loop over `dreps` really reconciles. */
  predicate Reached(ix: UniqueIndex, rows: Rows, dreps: seq<string>, source: Source, drepId: string) {
    drepId in dreps && Succeeds(source, drepId) && Fits(ix, rows, drepId, Collected(PagesFor(source, drepId)))
  }

  /**
   * A run reconciles the listed DReps whose pages all arrive and whose transaction commits, and under the
   * three-column index only those that nobody has left.
   */
  lemma ReachedIff(ix: UniqueIndex, rows: Rows, dreps: seq<string>, source: Source, drepId: string)
    ensures Reached(ix, rows, dreps, source, drepId)
            <==> drepId in dreps && drepId in source.commits
                 && (forall i: nat :: !ErrorAt(PagesFor(source, drepId), i))
                 && (ix.TxKey?
                     || forall k :: k in rows && k.0 == drepId ==> k.1 in Collected(PagesFor(source, drepId)))
  {
    var fetched := Collected(PagesFor(source, drepId));
    FetchFailsIff(PagesFor(source, drepId));
    hide Collected, ErrorAt, FetchFails;
    if Removed(rows, drepId, fetched) == {} {
      forall k | k in rows && k.0 == drepId ensures k.1 in fetched {
        assert k.1 !in fetched ==> k.1 in Removed(rows, drepId, fetched);
      }
    }
  }

  lemma SameFit(ix: UniqueIndex, a: Rows, b: Rows, drepId: string, fetched: map<string, string>)
    requires RowsOf(a, drepId) == RowsOf(b, drepId)
    ensures Fits(ix, a, drepId, fetched) <==> Fits(ix, b, drepId, fetched)
  {
    RemovedOfRows(a, drepId, fetched);
    RemovedOfRows(b, drepId, fetched);
    hide Removed, RowsOf;
  }

  lemma {:induction false} RowsAfterSync(
      ix: UniqueIndex, st: Store, dreps: seq<string>, source: Source, times: string -> int, drepId: string)
    requires Distinct(dreps)
    ensures RowsOf(SyncAll(ix, st, dreps, source, times).rows, drepId)
            == if Reached(ix, st.rows, dreps, source, drepId)
               then Merged(RowsOf(st.rows, drepId), Collected(PagesFor(source, drepId)))
               else RowsOf(st.rows, drepId)
  {
    hide RowsOf, SyncedRows, RemovalEvents, Merged, Collected, Succeeds, Fits;
    if dreps != [] {
      var init, last := dreps[..|dreps| - 1], dreps[|dreps| - 1];
      assert dreps == init + [last];
      assert last !in init;
      RowsAfterSync(ix, st, init, source, times, drepId);
      RowsAfterSync(ix, st, init, source, times, last);
      SameFit(ix, SyncAll(ix, st, init, source, times).rows, st.rows, last, Collected(PagesFor(source, last)));
      RowsOfSynced(SyncAll(ix, st, init, source, times).rows, last, Collected(PagesFor(source, last)), drepId);
    }
  }

  /**
   * After a sync, a DRep whose pages all arrived and whose transaction committed has exactly the
   * fetched amounts; the rows of every other DRep are the ones it had.
   */
  lemma SyncReflectsSource(
      ix: UniqueIndex, st: Store, dreps: seq<string>, source: Source, times: string -> int, drepId: string)
    requires Distinct(dreps)
    ensures var rows', fetched := SyncAll(ix, st, dreps, source, times).rows, Collected(PagesFor(source, drepId));
            if Reached(ix, st.rows, dreps, source, drepId) then
              Amounts(rows', drepId) == fetched && RowsOf(rows', drepId) == Merged(RowsOf(st.rows, drepId), fetched)
            else
              RowsOf(rows', drepId) == RowsOf(st.rows, drepId)
  {
    RowsAfterSync(ix, st, dreps, source, times, drepId);
    AmountsOfRows(SyncAll(ix, st, dreps, source, times).rows, drepId);
    MergedAmounts(RowsOf(st.rows, drepId), Collected(PagesFor(source, drepId)));
    hide *;
  }

  lemma FitsIff(ix: UniqueIndex, rows: Rows, drepId: string, fetched: map<string, string>)
    ensures Fits(ix, rows, drepId, fetched) <==> ix.TxKey? || forall a :: (drepId, a) in rows ==> a in fetched
  {
    RemovedOfRows(rows, drepId, fetched);
    RowsOfDrep(rows, drepId);
    hide Removed, RowsOf;
    if a :| (drepId, a) in rows && a !in fetched {
      assert a in Removed(rows, drepId, fetched);
    }
  }

  lemma AddressesOfAmounts(rows: Rows, drepId: string)
    ensures forall a :: a in Amounts(rows, drepId) <==> (drepId, a) in rows
  {
    AmountsOfRows(rows, drepId);
    RowsOfDrep(rows, drepId);
    hide Amounts, RowsOf;
  }

  /**
   * A DRep whose pages all arrived, and whose transaction met no other failure, is in line after the run if
   * and only if the unique index is the one the upsert needs or none of its stored delegators has left it.
   */
  lemma InLineIff(
      ix: UniqueIndex, st: Store, dreps: seq<string>, source: Source, times: string -> int, drepId: string)
    requires Distinct(dreps) && drepId in dreps && Succeeds(source, drepId)
    ensures var fetched := Collected(PagesFor(source, drepId));
            Amounts(SyncAll(ix, st, dreps, source, times).rows, drepId) == fetched
            <==> ix.TxKey? || forall a :: (drepId, a) in st.rows ==> a in fetched
  {
    var rows', fetched := SyncAll(ix, st, dreps, source, times).rows, Collected(PagesFor(source, drepId));
    assert Reached(ix, st.rows, dreps, source, drepId) <==> Fits(ix, st.rows, drepId, fetched);
    hide *;
    SyncReflectsSource(ix, st, dreps, source, times, drepId);
    FitsIff(ix, st.rows, drepId, fetched);
    AddressesOfAmounts(rows', drepId);
    RowsOfDrep(st.rows, drepId);
    RowsOfDrep(rows', drepId);
    if !Fits(ix, st.rows, drepId, fetched) {
      var a :| (drepId, a) in st.rows && a !in fetched;
      assert a in RowsOf(st.rows, drepId) && a in RowsOf(rows', drepId);
      assert a in Amounts(rows', drepId);
    }
  }

  /** A DRep that was reconciled, with an address that was fetched for it. */
  function FetchedPairs(ix: UniqueIndex, st: Store, dreps: seq<string>, source: Source): set<(string, string)> {
    set d, a | d in dreps && Reached(ix, st.rows, dreps, source, d) && a in Collected(PagesFor(source, d)) :: (d, a)
  }

  lemma PairsOfOne(drepId: string, addresses: set<string>)
    ensures |set a | a in addresses :: (drepId, a)| == |addresses|
    decreases addresses
  {
    var pairs := set a | a in addresses :: (drepId, a);
    if addresses != {} {
      var a :| a in addresses;
      PairsOfOne(drepId, addresses - {a});
      var fewer := set b | b in addresses - {a} :: (drepId, b);
      assert pairs == fewer + {(drepId, a)} && (drepId, a) !in fewer;
    } else {
      assert pairs == {};
    }
  }

  lemma PairIn(ix: UniqueIndex, st: Store, dreps: seq<string>, source: Source, k: (string, string))
    ensures k in FetchedPairs(ix, st, dreps, source)
            <==> Reached(ix, st.rows, dreps, source, k.0) && k.1 in Collected(PagesFor(source, k.0))
  {
    hide Collected, Succeeds, Fits;
    assert k == (k.0, k.1);
  }

  lemma PairOfOneMore(
      ix: UniqueIndex, st: Store, init: seq<string>, last: string, source: Source, k: (string, string))
    requires last !in init
    ensures k in FetchedPairs(ix, st, init + [last], source)
            <==> k in FetchedPairs(ix, st, init, source)
                 || (k.0 == last && Reached(ix, st.rows, [last], source, last)
                     && k.1 in Collected(PagesFor(source, last)))
    ensures k.0 == last ==> k !in FetchedPairs(ix, st, init, source)
  {
    PairIn(ix, st, init, source, k);
    PairIn(ix, st, init + [last], source, k);
    hide Collected, Succeeds, Fits, FetchedPairs;
  }

  lemma FetchedOneMore(ix: UniqueIndex, st: Store, init: seq<string>, last: string, source: Source)
    requires last !in init
    ensures |FetchedPairs(ix, st, init + [last], source)|
            == |FetchedPairs(ix, st, init, source)|
               + if Reached(ix, st.rows, [last], source, last) then |Collected(PagesFor(source, last))| else 0
  {
    hide *;
    var fetched := Collected(PagesFor(source, last));
    var before, after := FetchedPairs(ix, st, init, source), FetchedPairs(ix, st, init + [last], source);
    var added := if Reached(ix, st.rows, [last], source, last) then set a | a in fetched.Keys :: (last, a) else {};
    forall k: (string, string) ensures (k in after <==> k in before + added) && (k in added ==> k !in before) {
      PairOfOneMore(ix, st, init, last, source, k);
      assert k == (k.0, k.1);
    }
    assert after == before + added;
    PairsOfOne(last, fetched.Keys);
    assert |fetched.Keys| == |fetched|;
  }

  /** The total a run reports is the number of delegators fetched for the DReps that it reconciled. */
  lemma {:induction false} TotalCountsFetched(
      ix: UniqueIndex, st: Store, dreps: seq<string>, source: Source, times: string -> int)
    requires Distinct(dreps)
    ensures TotalSynced(ix, st, dreps, source, times) == |FetchedPairs(ix, st, dreps, source)|
  {
    hide RowsOf, SyncAll, Collected, Succeeds, Fits, FetchedPairs;
    if dreps != [] {
      var init, last := dreps[..|dreps| - 1], dreps[|dreps| - 1];
      assert dreps == init + [last] && last !in init;
      TotalCountsFetched(ix, st, init, source, times);
      RowsAfterSync(ix, st, init, source, times, last);
      SameFit(ix, SyncAll(ix, st, init, source, times).rows, st.rows, last, Collected(PagesFor(source, last)));
      FetchedOneMore(ix, st, init, last, source);
      assert !Reached(ix, st.rows, init, source, last);
    } else {
      NoPairs(ix, st, source);
    }
  }

  lemma NoPairs(ix: UniqueIndex, st: Store, source: Source)
    ensures FetchedPairs(ix, st, [], source) == {}
  {
  }

  // ----- the undelegation events

  /** Bech32 ids and drep_always_abstain contain no dash, which is what separates the parts of a key. */
  predicate Dashless(s: string) {
    '-' !in s
  }

  lemma KeySplits(d: string, a: string, d': string, a': string)
    requires d + "-" + a == d' + "-" + a' && Dashless(d) && Dashless(d')
    ensures d == d' && a == a'
  {
    var x := d + "-" + a;
    assert x[|d|] == '-' && x[|d'|] == '-';
    assert forall i :: 0 <= i < |d| ==> x[i] == d[i];
    assert forall i :: 0 <= i < |d'| ==> x[i] == d'[i];
    assert |d| == |d'|;
    assert d == x[..|d|] == d';
    assert a == x[|d| + 1..] == a';
  }

  lemma EventKeysDiffer(d: string, a: string, d': string, a': string)
    requires EventKey(d, a) == EventKey(d', a') && Dashless(d) && Dashless(d')
    ensures d == d' && a == a'
  {
    var head := "synthetic-undelegation-";
    assert EventKey(d, a).0[|head|..] == d + "-" + a;
    assert EventKey(d', a').0[|head|..] == d' + "-" + a';
    KeySplits(d, a, d', a');
  }

  lemma RemovedOfRows(rows: Rows, drepId: string, fetched: map<string, string>)
    ensures Removed(rows, drepId, fetched) == set a | a in RowsOf(rows, drepId) && a !in fetched
  {
    RowsOfDrep(rows, drepId);
    hide RowsOf;
    forall a ensures a in Removed(rows, drepId, fetched) <==> (drepId, a) in rows && a !in fetched {
      if a in Removed(rows, drepId, fetched) {
        var k :| k in rows && k.0 == drepId && k.1 == a;
        assert k == (drepId, a);
      }
    }
  }

  /** The pairs a sync drops: reconciled DReps' rows whose address was not fetched. */
  function Dropped(ix: UniqueIndex, st: Store, dreps: seq<string>, source: Source): set<(string, string)> {
    set k | k in st.rows && Reached(ix, st.rows, dreps, source, k.0) && k.1 !in Collected(PagesFor(source, k.0))
  }

  /** The pairs of one DRep that were not fetched. */
  function Unfetched(rows: Rows, drepId: string, fetched: map<string, string>): set<(string, string)> {
    set k | k in rows && k.0 == drepId && k.1 !in fetched
  }

  lemma KeysDiffer(pairs: set<(string, string)>)
    requires forall k :: k in pairs ==> Dashless(k.0)
    ensures forall k, l :: k in pairs && l in pairs && EventKey(k.0, k.1) == EventKey(l.0, l.1) ==> k == l
  {
    forall k, l | k in pairs && l in pairs && EventKey(k.0, k.1) == EventKey(l.0, l.1) ensures k == l {
      EventKeysDiffer(k.0, k.1, l.0, l.1);
    }
  }

  /** One undelegation event for each pair, telling the amount that was delegated. */
  function EventsFor(rows: Rows, pairs: set<(string, string)>, times: string -> int): Events
    requires forall k :: k in pairs ==> k in rows && Dashless(k.0)
  {
    KeysDiffer(pairs);
    map k | k in pairs :: EventKey(k.0, k.1) := UndelegationEvent(k.0, k.1, times(k.0), rows[k].amount)
  }

  lemma EventsForUnion(rows: Rows, a: set<(string, string)>, b: set<(string, string)>, times: string -> int)
    requires forall k :: k in a + b ==> k in rows && Dashless(k.0)
    ensures EventsFor(rows, a + b, times) == EventsFor(rows, a, times) + EventsFor(rows, b, times)
  {
    KeysDiffer(a + b);
    hide EventKey, Dashless;
  }

  lemma RemovedArePairs(rows: Rows, before: Rows, drepId: string, fetched: map<string, string>)
    requires RowsOf(rows, drepId) == RowsOf(before, drepId)
    ensures forall a :: a in Removed(rows, drepId, fetched) <==> (drepId, a) in before && a !in fetched
    ensures forall a :: a in Removed(rows, drepId, fetched) ==> rows[(drepId, a)] == before[(drepId, a)]
  {
    RowsOfDrep(rows, drepId);
    RowsOfDrep(before, drepId);
    RemovedOfRows(rows, drepId, fetched);
    hide RowsOf, Removed;
  }

  /** One reconciliation's events are those of its dropped pairs. */
  lemma RemovalEventsAre(
      rows: Rows, before: Rows, drepId: string, fetched: map<string, string>, times: string -> int)
    requires Dashless(drepId) && RowsOf(rows, drepId) == RowsOf(before, drepId)
    ensures forall k :: k in Unfetched(before, drepId, fetched) ==> k in before && Dashless(k.0)
    ensures RemovalEvents(rows, drepId, fetched, times(drepId))
            == EventsFor(before, Unfetched(before, drepId, fetched), times)
  {
    var pairs, at := Unfetched(before, drepId, fetched), times(drepId);
    KeysDiffer(pairs);
    RemovedArePairs(rows, before, drepId, fetched);
    hide EventKey, Dashless, RowsOf, Removed;
    assert forall a :: a in Removed(rows, drepId, fetched) <==> (drepId, a) in pairs;
    assert forall k :: k in pairs ==> k == (drepId, k.1);
    var l, r := RemovalEvents(rows, drepId, fetched, at), EventsFor(before, pairs, times);
    assert forall a :: a in Removed(rows, drepId, fetched) ==>
        EventKey(drepId, a) in l && l[EventKey(drepId, a)]
          == UndelegationEvent(drepId, a, at, before[(drepId, a)].amount) by {
      forall a | a in Removed(rows, drepId, fetched)
        ensures EventKey(drepId, a) in l && l[EventKey(drepId, a)]
                == UndelegationEvent(drepId, a, at, before[(drepId, a)].amount)
      {
        RemovalEventOf(rows, drepId, fetched, at, a);
      }
    }
    hide Unfetched, RemovalEvents;
    SameEvents(drepId, pairs, before, times, l);
  }

  lemma SameEvents(drepId: string, pairs: set<(string, string)>, before: Rows, times: string -> int, l: Events)
    requires forall k :: k in pairs ==> k in before && Dashless(k.0) && k == (drepId, k.1)
    requires forall k :: k in pairs ==>
               && EventKey(drepId, k.1) in l
               && l[EventKey(drepId, k.1)] == UndelegationEvent(drepId, k.1, times(drepId), before[k].amount)
    requires forall e :: e in l ==> exists k :: k in pairs && e == EventKey(drepId, k.1)
    ensures l == EventsFor(before, pairs, times)
  {
    KeysDiffer(pairs);
    hide EventKey, Dashless;
    var r := EventsFor(before, pairs, times);
    forall e ensures e in l <==> e in r {
      if e in l {
        var k :| k in pairs && e == EventKey(drepId, k.1);
        assert EventKey(k.0, k.1) in r;
      }
    }
  }

  lemma DroppedOneMore(ix: UniqueIndex, st: Store, init: seq<string>, last: string, source: Source)
    ensures var fetched := Collected(PagesFor(source, last));
            Dropped(ix, st, init + [last], source)
            == Dropped(ix, st, init, source)
               + if Succeeds(source, last) && Fits(ix, st.rows, last, fetched)
                 then Unfetched(st.rows, last, fetched) else {}
  {
    hide Collected, FetchFails, Fits, Succeeds;
  }

  /** The events of a sync are the old ones with exactly one fresh undelegation for each dropped pair. */
  lemma {:induction false} ExactlyDroppedGetEvents(
      ix: UniqueIndex, st: Store, dreps: seq<string>, source: Source, times: string -> int)
    requires Distinct(dreps) && forall d :: d in dreps ==> Dashless(d)
    ensures SyncAll(ix, st, dreps, source, times).events
            == st.events + EventsFor(st.rows, Dropped(ix, st, dreps, source), times)
  {
    if dreps == [] {
      assert Dropped(ix, st, dreps, source) == {};
    } else {
      var init, last := dreps[..|dreps| - 1], dreps[|dreps| - 1];
      assert dreps == init + [last];
      assert last in dreps && last !in init;
      ExactlyDroppedGetEvents(ix, st, init, source, times);
      RowsAfterSync(ix, st, init, source, times, last);
      hide Collected, Dropped, EventsFor, RemovalEvents, RowsOf, SyncedRows, FetchFails, Dashless, Succeeds, Fits;
      DroppedAreDashless(ix, st, dreps, source);
      OneMoreDrepEvents(ix, st, init, last, source, times, SyncAll(ix, st, init, source, times));
    }
  }

  /** Row by row: what a dropped pair's event says and where it is, and that nothing else changes. */
  lemma DroppedPairHasEvent(ix: UniqueIndex, st: Store, dreps: seq<string>, source: Source, times: string -> int)
    requires Distinct(dreps) && forall d :: d in dreps ==> Dashless(d)
    ensures var events, dropped := SyncAll(ix, st, dreps, source, times).events, Dropped(ix, st, dreps, source);
            && (forall d, a :: (d, a) in dropped ==>
                  var key := ("synthetic-undelegation-" + d + "-" + a, 0);
                  && key in events
                  && events[key] == UndelegationEvent(d, a, times(d), st.rows[(d, a)].amount))
            && (forall key :: key in st.events ==> key in events)
            && (forall key :: key in events ==>
                  || (exists k :: k in dropped && key == ("synthetic-undelegation-" + k.0 + "-" + k.1, 0))
                  || (key in st.events && events[key] == st.events[key]))
  {
    ExactlyDroppedGetEvents(ix, st, dreps, source, times);
    DroppedAreDashless(ix, st, dreps, source);
    KeysDiffer(Dropped(ix, st, dreps, source));
    hide Dropped, SyncAll, Dashless;
    var added, dropped := EventsFor(st.rows, Dropped(ix, st, dreps, source), times), Dropped(ix, st, dreps, source);
    forall d, a | (d, a) in dropped
      ensures EventKey(d, a) in added
      ensures added[EventKey(d, a)] == UndelegationEvent(d, a, times(d), st.rows[(d, a)].amount)
    {
      assert EventKey((d, a).0, (d, a).1) in added;
    }
  }

  lemma OneMoreDrepEvents(
      ix: UniqueIndex, st: Store, init: seq<string>, last: string, source: Source, times: string -> int, m: Store)
    requires forall d :: d in init + [last] ==> Dashless(d)
    requires RowsOf(m.rows, last) == RowsOf(st.rows, last)
    requires m.events == st.events + EventsFor(st.rows, Dropped(ix, st, init, source), times)
    requires forall k :: k in Dropped(ix, st, init + [last], source) ==> k in st.rows && Dashless(k.0)
    ensures AfterDrep(ix, m, last, source, times(last)).events
            == st.events + EventsFor(st.rows, Dropped(ix, st, init + [last], source), times)
  {
    hide *;
    var fetched := Collected(PagesFor(source, last));
    DroppedOneMore(ix, st, init, last, source);
    AfterDrepEvents(ix, m, last, source, times(last));
    SameFit(ix, m.rows, st.rows, last, fetched);
    if Succeeds(source, last) && Fits(ix, st.rows, last, fetched) {
      var before, pairs := Dropped(ix, st, init, source), Unfetched(st.rows, last, fetched);
      assert last in init + [last];
      assert Dropped(ix, st, init + [last], source) == before + pairs;
      RemovalEventsAre(m.rows, st.rows, last, fetched, times);
      EventsForUnion(st.rows, before, pairs, times);
      MergeMaps(st.events, EventsFor(st.rows, before, times), EventsFor(st.rows, pairs, times));
    } else {
      assert Dropped(ix, st, init + [last], source) == Dropped(ix, st, init, source);
    }
  }

  lemma AfterDrepEvents(ix: UniqueIndex, m: Store, last: string, source: Source, at: int)
    ensures var fetched := Collected(PagesFor(source, last));
            AfterDrep(ix, m, last, source, at).events
            == if Succeeds(source, last) && Fits(ix, m.rows, last, fetched)
               then m.events + RemovalEvents(m.rows, last, fetched, at) else m.events
  {
    hide Collected, SyncedRows, RemovalEvents, Succeeds, Fits;
  }

  lemma DroppedAreDashless(ix: UniqueIndex, st: Store, dreps: seq<string>, source: Source)
    requires forall d :: d in dreps ==> Dashless(d)
    ensures forall k :: k in Dropped(ix, st, dreps, source) ==> k in st.rows && Dashless(k.0)
  {
    hide Collected, Succeeds, Fits;
  }

  lemma RemovalEventOf(rows: Rows, drepId: string, fetched: map<string, string>, at: int, a: string)
    requires a in Removed(rows, drepId, fetched)
    ensures (drepId, a) in rows && EventKey(drepId, a) in RemovalEvents(rows, drepId, fetched, at)
    ensures RemovalEvents(rows, drepId, fetched, at)[EventKey(drepId, a)]
            == UndelegationEvent(drepId, a, at, rows[(drepId, a)].amount)
  {
    forall b | EventKey(drepId, b) == EventKey(drepId, a) ensures a == b { EventKeyInjective(drepId, a, b); }
  }

  // ----- a second run

  lemma SyncedIsIdentity(st: Store, drepId: string, fetched: map<string, string>, at: int)
    requires Amounts(st.rows, drepId) == fetched
    ensures Synced(st, drepId, fetched, at) == st
  {
    AmountsOfRows(st.rows, drepId);
    RowsOfDrep(st.rows, drepId);
    RemovedOfRows(st.rows, drepId, fetched);
    hide RowsOf, Amounts, Removed;
    assert Removed(st.rows, drepId, fetched) == {};
    forall k: (string, string) ensures k in SyncedRows(st.rows, drepId, fetched) <==> k in st.rows {
      if k.0 == drepId { assert k == (drepId, k.1); }
    }
    forall k | k in st.rows ensures SyncedRows(st.rows, drepId, fetched)[k] == st.rows[k] {
      if k.0 == drepId { assert k == (drepId, k.1); }
    }
  }

  lemma {:induction false} SyncOfSynced(
      ix: UniqueIndex, st: Store, dreps: seq<string>, source: Source, times: string -> int)
    requires forall d :: Reached(ix, st.rows, dreps, source, d) ==>
               Amounts(st.rows, d) == Collected(PagesFor(source, d))
    ensures SyncAll(ix, st, dreps, source, times) == st
  {
    hide Amounts, Collected, Succeeds, Fits, Synced;
    if dreps != [] {
      var init, last := dreps[..|dreps| - 1], dreps[|dreps| - 1];
      assert forall d :: d in init ==> d in dreps;
      SyncOfSynced(ix, st, init, source, times);
      assert last in dreps;
      if Reached(ix, st.rows, dreps, source, last) {
        SyncedIsIdentity(st, last, Collected(PagesFor(source, last)), times(last));
      }
    }
  }

  /** A second run against the same lists changes nothing, whatever fails in it and whenever it runs. */
  lemma SecondRunChangesNothing(
      ix: UniqueIndex, st: Store, dreps: seq<string>, first: Source, second: Source, times: string -> int,
      later: string -> int)
    requires Distinct(dreps)
    requires forall d :: d in dreps && Succeeds(second, d) ==>
               Succeeds(first, d) && Collected(PagesFor(second, d)) == Collected(PagesFor(first, d))
    ensures SyncAll(ix, SyncAll(ix, st, dreps, first, times), dreps, second, later)
            == SyncAll(ix, st, dreps, first, times)
  {
    var st' := SyncAll(ix, st, dreps, first, times);
    hide SyncAll, Amounts, Collected, Succeeds, Fits, Merged, RowsOf;
    forall d | Reached(ix, st'.rows, dreps, second, d)
      ensures Amounts(st'.rows, d) == Collected(PagesFor(second, d))
    {
      SyncReflectsSource(ix, st, dreps, first, times, d);
      if !Reached(ix, st.rows, dreps, first, d) {
        SameFit(ix, st'.rows, st.rows, d, Collected(PagesFor(first, d)));
      }
    }
    SyncOfSynced(ix, st', dreps, second, later);
  }

  // ----- the counts

  lemma GroupsHaveDelegators(rows: Rows, drepId: string)
    ensures drepId in Groups(rows) <==> DelegatorsOf(rows, drepId) != {}
  {
    if drepId in Groups(rows) {
      var k :| k in rows && k.0 == drepId;
      assert k.1 in DelegatorsOf(rows, drepId);
    }
    if DelegatorsOf(rows, drepId) != {} {
      var a :| a in DelegatorsOf(rows, drepId);
      var k :| k in rows && k.0 == drepId && k.1 == a;
    }
  }

  /**
   * When the stored count of a DRep is right after the count update: the grouped query never sees a DRep
   * without rows.
   */
  lemma CountIsExactIff(rows: Rows, counts: map<string, nat>, failing: set<string>, drepId: string)
    requires drepId in counts
    ensures Counted(rows, counts, Groups(rows), failing)[drepId] == |DelegatorsOf(rows, drepId)|
            <==> (DelegatorsOf(rows, drepId) != {} && drepId !in failing)
                 || counts[drepId] == |DelegatorsOf(rows, drepId)|
  {
    GroupsHaveDelegators(rows, drepId);
  }

  lemma DelegatorsOfRows(rows: Rows, drepId: string)
    ensures DelegatorsOf(rows, drepId) == Amounts(rows, drepId).Keys
  {
  }

  /**
   * After a full job, the count of a reconciled DRep is the number of fetched delegators if there
   * is at least one and its update succeeds; with none, it is right only if it already was 0.
   */
  lemma JobCounts(
      ix: UniqueIndex, st: Store, counts: map<string, nat>, dreps: seq<string>, source: Source, times: string -> int,
      failing: set<string>, drepId: string)
    requires Distinct(dreps) && Reached(ix, st.rows, dreps, source, drepId) && drepId in counts
    ensures var rows' := SyncAll(ix, st, dreps, source, times).rows;
            var fetched := Collected(PagesFor(source, drepId));
            var count' := Counted(rows', counts, Groups(rows'), failing)[drepId];
            && (fetched != map[] && drepId !in failing ==> count' == |fetched|)
            && (fetched == map[] ==> count' == counts[drepId])
  {
    var rows' := SyncAll(ix, st, dreps, source, times).rows;
    var fetched := Collected(PagesFor(source, drepId));
    SyncReflectsSource(ix, st, dreps, source, times, drepId);
    DelegatorsOfRows(rows', drepId);
    GroupsHaveDelegators(rows', drepId);
    hide SyncAll, Collected, Reached, Amounts, DelegatorsOf, Groups, RowsOf, Merged;
    assert fetched.Keys == {} ==> fetched == map[];
    assert |DelegatorsOf(rows', drepId)| == |fetched|;
  }

  /** A DRep whose remote list is empty loses its rows but keeps its stored count. */
  lemma NothingFetched(
      st: Store, counts: map<string, nat>, source: Source, times: string -> int, drepId: string)
    requires drepId in counts && PagesFor(source, drepId) == [] && drepId in source.commits
    ensures var rows' := SyncAll(TxKey, st, [drepId], source, times).rows;
            && DelegatorsOf(rows', drepId) == {}
            && drepId in Counted(rows', counts, Groups(rows'), {})
            && Counted(rows', counts, Groups(rows'), {})[drepId] == counts[drepId]
  {
    assert Collected([]) == map[] && !FetchFails([]);
    assert drepId in [drepId] && Reached(TxKey, st.rows, [drepId], source, drepId);
    SyncReflectsSource(TxKey, st, [drepId], source, times, drepId);
    JobCounts(TxKey, st, counts, [drepId], source, times, {}, drepId);
    DelegatorsOfRows(SyncAll(TxKey, st, [drepId], source, times).rows, drepId);
    hide SyncAll, Groups, DelegatorsOf, Amounts, RowsOf, Merged, Collected;
  }

  /** So the count can be wrong: a DRep whose only delegator left still shows one. */
  lemma LastDelegatorLeaves(times: string -> int)
    ensures var st := Store(map[("drep1", "stake1") := Row("5", "5")], map[]);
            var source := Source(map["drep1" := []], {"drep1"});
            var rows' := SyncAll(TxKey, st, ["drep1"], source, times).rows;
            var count' := Counted(rows', map["drep1" := 1], Groups(rows'), {});
            && DelegatorsOf(rows', "drep1") == {}
            && "drep1" in count' && count'["drep1"] == 1
  {
    var st := Store(map[("drep1", "stake1") := Row("5", "5")], map[]);
    var source := Source(map["drep1" := []], {"drep1"});
    assert PagesFor(source, "drep1") == [];
    NothingFetched(st, map["drep1" := 1], source, times, "drep1");
    hide *;
  }
}
