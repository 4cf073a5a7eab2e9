/**
 * The worker that runs the timeline watcher: one job reads a batch, handles it event by event,
 * queues the follow-up syncs and saves the cursor. Also: how many jobs drain the table.
 */
module TimelineWatcherWorker {
  import opened Basics
  import opened TimelineLog
  import opened TimelineWatcher

  datatype Trigger = TriggerDReps | TriggerProposals | TriggerVotes

  datatype Response = Response(processed: nat, lastId: Option<int>, triggers: set<Trigger>)

  /** The table after the handlers of a batch, in order; those of the ids in `throwing` throw. */
  function HandleAll(ix: UniqueIndex, db: Table, batch: seq<Event>, throwing: set<int>): Table
  {
    if batch == [] then db
    else
      var e := batch[|batch| - 1];
      var db' := HandleAll(ix, db, batch[..|batch| - 1], throwing);
      if e.id in throwing then db' else HandleEvent(ix, db', e)
  }

  lemma HandleAllOneMore(ix: UniqueIndex, db: Table, batch: seq<Event>, i: nat, throwing: set<int>)
    requires i < |batch|
    ensures var db', e := HandleAll(ix, db, batch[..i], throwing), batch[i];
            HandleAll(ix, db, batch[..i + 1], throwing)
            == if e.eventType.Delegation? && e.id !in throwing then HandleEvent(ix, db', e) else db'
  {
    assert batch[..i + 1][..i] == batch[..i];
  }

  predicate Triggers(e: Event, trigger: Trigger) {
    match trigger
    case TriggerDReps => e.eventType.Registration? || e.eventType.Retirement?
    case TriggerProposals => e.eventType.Proposal?
    case TriggerVotes => e.eventType.Vote?
  }

  /** The syncs a batch asks for. */
  function TriggersOf(batch: seq<Event>): set<Trigger> {
    if batch == [] then {}
    else
      TriggersOf(batch[..|batch| - 1])
      + match batch[|batch| - 1].eventType
        case Registration => {TriggerDReps}
        case Retirement => {TriggerDReps}
        case Proposal => {TriggerProposals}
        case Vote => {TriggerVotes}
        case Delegation => {}
        case Undelegation => {}
  }

  lemma {:induction false} TriggersAreOf(batch: seq<Event>, trigger: Trigger)
    ensures trigger in TriggersOf(batch) <==> exists e :: e in batch && Triggers(e, trigger)
  {
    if batch != [] {
      var init, e := batch[..|batch| - 1], batch[|batch| - 1];
      TriggersAreOf(init, trigger);
      assert batch == init + [e];
      assert trigger in TriggersOf(batch) <==> trigger in TriggersOf(init) || Triggers(e, trigger);
      if exists x :: x in init && Triggers(x, trigger) {
        var x :| x in init && Triggers(x, trigger);
        assert x in batch;
      }
    }
  }

  /** A batch asks for the DReps, the proposals or the votes exactly when it has an event about them. */
  lemma TriggersAreNeeded(batch: seq<Event>)
    ensures TriggerDReps in TriggersOf(batch)
            <==> exists e :: e in batch && (e.eventType == Registration || e.eventType == Retirement)
    ensures TriggerProposals in TriggersOf(batch) <==> exists e :: e in batch && e.eventType == Proposal
    ensures TriggerVotes in TriggersOf(batch) <==> exists e :: e in batch && e.eventType == Vote
  {
    TriggersAreOf(batch, TriggerDReps);
    TriggersAreOf(batch, TriggerProposals);
    TriggersAreOf(batch, TriggerVotes);
  }

  class TimelineWatcherWorker {
    const index: UniqueIndex
    var rows: seq<Event>
    var nextId: int
    /** The sync_state row, if it has been created. */
    var lastProcessedId: Option<int>

    constructor (ix: UniqueIndex)
      ensures index == ix && rows == [] && nextId == 1 && lastProcessedId == None
    {
      index, rows, nextId, lastProcessedId := ix, [], 1, None;
    }

    function Database(): Table
      reads this
    {
      Table(rows, nextId)
    }

    function Cursor(): int
      reads this
    {
      if lastProcessedId.Some? then lastProcessedId.value else 0
    }

    method Process(throwing: set<int>) returns (r: Response)
      modifies this
      ensures var batch := Batch(old(rows), old(Cursor()));
              && Database() == HandleAll(index, old(Database()), batch, throwing)
              && lastProcessedId == Some(if batch == [] then old(Cursor()) else batch[|batch| - 1].id)
              && r.processed == |batch|
              && r.lastId == (if batch == [] then None else Some(batch[|batch| - 1].id))
              && r.triggers == TriggersOf(batch)
    {
      hide HandleEvent, Batch;
      if lastProcessedId == None {
        lastProcessedId := Some(0);
      }
      var newEvents := Batch(rows, lastProcessedId.value);
      if |newEvents| == 0 {
        return Response(0, None, {});
      }
      var triggered: set<Trigger> := {};
      for i := 0 to |newEvents|
        invariant Database() == HandleAll(index, old(Database()), newEvents[..i], throwing)
        invariant lastProcessedId == Some(old(Cursor()))
        invariant triggered == TriggersOf(newEvents[..i])
      {
        var event := newEvents[i];
        HandleAllOneMore(index, old(Database()), newEvents, i, throwing);
        assert newEvents[..i + 1][..i] == newEvents[..i];
        match event.eventType {
          case Registration => triggered := triggered + {TriggerDReps};
          case Retirement => triggered := triggered + {TriggerDReps};
          case Delegation =>
            if event.id !in throwing {
              HandleDelegation(event);
            }
          case Proposal => triggered := triggered + {TriggerProposals};
          case Vote => triggered := triggered + {TriggerVotes};
          case Undelegation =>
        }
      }
      assert newEvents[..|newEvents|] == newEvents;
      lastProcessedId := Some(newEvents[|newEvents| - 1].id);
      return Response(|newEvents|, lastProcessedId, triggered);
    }

    method HandleDelegation(event: Event)
      requires event.eventType.Delegation?
      modifies this`rows, this`nextId
      ensures Database() == HandleEvent(index, old(Database()), event)
    {
      var stakeAddress := event.metadata.stakeAddress;
      if !Truthy(stakeAddress) {
        return;
      }
      var prevRow := LatestBefore(rows, stakeAddress.value, event.id);
      var previousDrepId := if prevRow.Some? then prevRow.value.drepId else None;
      if !Truthy(previousDrepId) || previousDrepId == event.drepId {
        return;
      }
      var row := Synthetic(event, previousDrepId.value);
      if !Present(index, rows, row) {
        rows := rows + [row.(id := nextId)];
      }
      nextId := nextId + 1;
    }
  }

  // ----- a job is a sequence of steps

  function HandleSteps(batch: seq<Event>, throwing: set<int>): seq<Step> {
    if batch == [] then []
    else HandleSteps(batch[..|batch| - 1], throwing) + [Handle(batch[|batch| - 1].id in throwing)]
  }

  function JobSteps(batch: seq<Event>, throwing: set<int>): seq<Step> {
    [Fetch] + HandleSteps(batch, throwing) + [Save]
  }

  /** What `Process` does to the table and the cursor. */
  function AfterJob(ix: UniqueIndex, db: Table, cursor: int, throwing: set<int>): (Table, int) {
    var batch := Batch(db.rows, cursor);
    (HandleAll(ix, db, batch, throwing), if batch == [] then cursor else batch[|batch| - 1].id)
  }

  lemma {:induction false} RunStepsConcat(ix: UniqueIndex, s: State, a: seq<Step>, b: seq<Step>)
    ensures RunSteps(ix, s, a + b) == RunSteps(ix, RunSteps(ix, s, a), b)
    decreases |a|
  {
    if a == [] {
      assert a + b == b;
    } else {
      assert (a + b)[1..] == a[1..] + b;
      RunStepsConcat(ix, Next(ix, s, a[0]), a[1..], b);
    }
  }

  lemma {:induction false} HandleStepsRun(ix: UniqueIndex, s: State, batch: seq<Event>, n: nat, throwing: set<int>)
    requires s.inflight == Some(Inflight(batch, 0)) && n <= |batch|
    ensures var s' := RunSteps(ix, s, HandleSteps(batch[..n], throwing));
            && s'.db == HandleAll(ix, s.db, batch[..n], throwing)
            && s'.cursor == s.cursor
            && s'.inflight == Some(Inflight(batch, n))
  {
    if n > 0 {
      HandleStepsRun(ix, s, batch, n - 1, throwing);
      assert batch[..n][..n - 1] == batch[..n - 1];
      var last := Handle(batch[n - 1].id in throwing);
      RunStepsConcat(ix, s, HandleSteps(batch[..n - 1], throwing), [last]);
      var m := RunSteps(ix, s, HandleSteps(batch[..n - 1], throwing));
      assert RunSteps(ix, m, [last]) == Next(ix, m, last);
    }
  }

  /** The job is the uninterrupted run of its steps, so `LogIsExact` speaks about jobs. */
  lemma RunIsSteps(ix: UniqueIndex, s: State, throwing: set<int>)
    requires s.inflight == None
    ensures var s' := RunSteps(ix, s, JobSteps(Batch(s.db.rows, s.cursor), throwing));
            (s'.db, s'.cursor) == AfterJob(ix, s.db, s.cursor, throwing) && s'.inflight == None
  {
    var batch := Batch(s.db.rows, s.cursor);
    var f := Next(ix, s, Fetch);
    RunStepsConcat(ix, s, [Fetch] + HandleSteps(batch, throwing), [Save]);
    RunStepsConcat(ix, s, [Fetch], HandleSteps(batch, throwing));
    assert RunSteps(ix, s, [Fetch]) == f;
    if batch != [] {
      HandleStepsRun(ix, f, batch, |batch|, throwing);
      assert batch[..|batch|] == batch;
    }
    var m := RunSteps(ix, f, HandleSteps(batch, throwing));
    assert RunSteps(ix, m, [Save]) == Next(ix, m, Save);
  }

  // ----- draining

  /** Work left in a list of pending rows: a delegation may append one more row. */
  function Weight(pending: seq<Event>): nat {
    if pending == [] then 0
    else Weight(pending[..|pending| - 1]) + (if pending[|pending| - 1].eventType.Delegation? then 2 else 1)
  }

  function Delegations(rows: seq<Event>): nat {
    if rows == [] then 0
    else Delegations(rows[..|rows| - 1]) + (if rows[|rows| - 1].eventType.Delegation? then 1 else 0)
  }

  lemma {:induction false} WeightConcat(a: seq<Event>, b: seq<Event>)
    ensures Weight(a + b) == Weight(a) + Weight(b)
  {
    if b == [] {
      assert a + b == a;
    } else {
      WeightConcat(a, b[..|b| - 1]);
      assert (a + b)[..|a + b| - 1] == a + b[..|b| - 1];
    }
  }

  lemma {:induction false} WeightBounds(a: seq<Event>)
    ensures Weight(a) == |a| + Delegations(a) && Delegations(a) <= |a|
    ensures AllUndelegations(a) ==> Weight(a) == |a|
  {
    if a != [] {
      WeightBounds(a[..|a| - 1]);
    }
  }

  /** Handling a batch appends only undelegations, at most one for each of its delegations. */
  lemma {:induction false} HandleAllAppends(ix: UniqueIndex, db: Table, batch: seq<Event>, throwing: set<int>)
    returns (added: seq<Event>)
    requires LogOk(ix, db) && forall e :: e in batch ==> e in db.rows
    ensures var db' := HandleAll(ix, db, batch, throwing);
            && LogOk(ix, db') && db.nextId <= db'.nextId
            && db'.rows == db.rows + added
    ensures |added| <= Delegations(batch)
    ensures AllUndelegations(added)
  {
    hide LogOk, HandleEvent;
    added := [];
    if batch != [] {
      var init, e := batch[..|batch| - 1], batch[|batch| - 1];
      added := HandleAllAppends(ix, db, init, throwing);
      if e.id !in throwing {
        var m := HandleAll(ix, db, init, throwing);
        assert e in db.rows;
        var more := HandleAppends(ix, m, e);
        assert (db.rows + added) + more == db.rows + (added + more);
        added := added + more;
      }
    }
  }

  /** A quiet watcher state: the log is in order and no id lies beyond the sequence. */
  ghost predicate Quiet(ix: UniqueIndex, db: Table, cursor: int) {
    LogOk(ix, db) && cursor < db.nextId
  }

  lemma JobKeepsQuiet(ix: UniqueIndex, db: Table, cursor: int, throwing: set<int>)
    requires Quiet(ix, db, cursor)
    ensures var (db', cursor') := AfterJob(ix, db, cursor, throwing);
            && Quiet(ix, db', cursor')
            && cursor <= cursor' && (Batch(db.rows, cursor) != [] ==> cursor < cursor')
  {
    var p := BatchPlace(db.rows, cursor);
    var added := HandleAllAppends(ix, db, Batch(db.rows, cursor), throwing);
  }

  /** A job takes its batch off the pending rows and adds only undelegations behind the rest. */
  lemma JobShiftsPending(ix: UniqueIndex, db: Table, cursor: int, throwing: set<int>)
    returns (rest: seq<Event>, added: seq<Event>)
    requires LogOk(ix, db)
    ensures var (db', cursor') := AfterJob(ix, db, cursor, throwing);
            && After(db.rows, cursor) == Batch(db.rows, cursor) + rest
            && After(db'.rows, cursor') == rest + added
    ensures |added| <= Delegations(Batch(db.rows, cursor))
    ensures AllUndelegations(added)
  {
    hide HandleAll, After, AllUndelegations;
    var (db', cursor') := AfterJob(ix, db, cursor, throwing);
    var n := |Batch(db.rows, cursor)|;
    var p := BatchPlace(db.rows, cursor);
    added := HandleAllAppends(ix, db, Batch(db.rows, cursor), throwing);
    rest := db.rows[p + n..];
    assert cursor' == if n == 0 then cursor else db.rows[p + n - 1].id;
    PendingAfterBatch(db.rows, db'.rows, added, cursor, p, n);
  }

  lemma BatchPlace(t: seq<Event>, cursor: int) returns (p: nat)
    requires IdsGrow(t)
    ensures var n := |Batch(t, cursor)|;
            && p + n <= |t|
            && After(t, cursor) == Batch(t, cursor) + t[p + n..]
            && (forall e :: e in Batch(t, cursor) ==> e in t)
            && (n > 0 ==> Batch(t, cursor)[n - 1] == t[p + n - 1] && t[p + n - 1].id > cursor)
            && (n == 0 ==> p == |t| && After(t, cursor) == [])
  {
    AfterIsSuffix(t, cursor);
    var pending, batch := After(t, cursor), Batch(t, cursor);
    p := |t| - |pending|;
    assert pending == batch + t[p + |batch|..];
    forall e | e in batch ensures e in t {
      var i :| 0 <= i < |batch| && batch[i] == e;
      assert t[p + i] == e;
    }
  }

  /** Where the pending rows start once the cursor is at the end of the batch t[p..p + n]. */
  lemma PendingAfterBatch(t: seq<Event>, t': seq<Event>, added: seq<Event>, cursor: int, p: nat, n: nat)
    requires IdsGrow(t') && t' == t + added && p + n <= |t|
    requires n == 0 ==> p == |t| && added == [] && After(t, cursor) == []
    ensures After(t', if n == 0 then cursor else t[p + n - 1].id) == t[p + n..] + added
  {
    if n > 0 {
      var k := p + n - 1;
      assert t'[k] == t[k];
      PositionAt(t', k);
      AfterIsSuffix(t', t[k].id);
      assert t'[k + 1..] == t[p + n..] + added;
    } else {
      assert t' == t;
    }
  }

  lemma WeightDrops(batch: seq<Event>, rest: seq<Event>, added: seq<Event>)
    requires |added| <= Delegations(batch) && AllUndelegations(added)
    ensures Weight(rest + added) + |batch| <= Weight(batch + rest)
  {
    WeightConcat(batch, rest);
    WeightConcat(rest, added);
    WeightBounds(batch);
    WeightBounds(added);
  }

  /** A full batch lowers the weight by at least 50; a last batch leaves only undelegations behind. */
  lemma JobProgress(ix: UniqueIndex, db: Table, cursor: int, throwing: set<int>)
    requires LogOk(ix, db)
    ensures var (db', cursor') := AfterJob(ix, db, cursor, throwing);
            var pending, pending' := After(db.rows, cursor), After(db'.rows, cursor');
            && Weight(pending') + |Batch(db.rows, cursor)| <= Weight(pending)
            && (|pending| <= BATCH_SIZE ==> |pending'| <= BATCH_SIZE && AllUndelegations(pending'))
            && (|pending| <= BATCH_SIZE && AllUndelegations(pending) ==> pending' == [])
  {
    var rest, added := JobShiftsPending(ix, db, cursor, throwing);
    var pending, batch := After(db.rows, cursor), Batch(db.rows, cursor);
    WeightDrops(batch, rest, added);
    WeightBounds(batch);
    if |pending| <= BATCH_SIZE {
      assert rest == [] && batch == pending;
      if AllUndelegations(pending) {
        NoDelegations(batch);
      }
    }
  }

  function AfterJobs(ix: UniqueIndex, db: Table, cursor: int, throwing: set<int>, n: nat): (Table, int)
    decreases n
  {
    if n == 0 then (db, cursor)
    else
      var (db', cursor') := AfterJob(ix, db, cursor, throwing);
      AfterJobs(ix, db', cursor', throwing, n - 1)
  }

  /**
   * With no new rows from outside, weight / 50 + 2 jobs drain the table although the jobs append
   * rows themselves, and failing handlers do not hold the cursor back.
   */
  lemma {:induction false} JobsDrain(ix: UniqueIndex, db: Table, cursor: int, throwing: set<int>, n: nat)
    requires Quiet(ix, db, cursor)
    requires n >= Weight(After(db.rows, cursor)) / BATCH_SIZE + 2
    ensures var (db', cursor') := AfterJobs(ix, db, cursor, throwing, n); After(db'.rows, cursor') == []
    decreases n
  {
    hide AfterJob, After, Weight, LogOk;
    var (db1, cursor1) := AfterJob(ix, db, cursor, throwing);
    JobKeepsQuiet(ix, db, cursor, throwing);
    JobProgress(ix, db, cursor, throwing);
    if |After(db.rows, cursor)| > BATCH_SIZE {
      JobsDrain(ix, db1, cursor1, throwing, n - 1);
    } else {
      LastJobs(ix, db1, cursor1, throwing, n - 1);
    }
  }

  lemma LastJobs(ix: UniqueIndex, db: Table, cursor: int, throwing: set<int>, n: nat)
    requires LogOk(ix, db) && n >= 1
    requires |After(db.rows, cursor)| <= BATCH_SIZE && AllUndelegations(After(db.rows, cursor))
    ensures var (db', cursor') := AfterJobs(ix, db, cursor, throwing, n); After(db'.rows, cursor') == []
  {
    var (db1, cursor1) := AfterJob(ix, db, cursor, throwing);
    JobProgress(ix, db, cursor, throwing);
    StaysDrained(ix, db1, cursor1, throwing, n - 1);
  }

  lemma {:induction false} NoDelegations(rows: seq<Event>)
    requires AllUndelegations(rows)
    ensures Delegations(rows) == 0
  {
    if rows != [] {
      NoDelegations(rows[..|rows| - 1]);
    }
  }

  lemma {:induction false} StaysDrained(ix: UniqueIndex, db: Table, cursor: int, throwing: set<int>, n: nat)
    requires After(db.rows, cursor) == []
    ensures AfterJobs(ix, db, cursor, throwing, n) == (db, cursor)
  {
    if n > 0 {
      StaysDrained(ix, db, cursor, throwing, n - 1);
    }
  }
}
