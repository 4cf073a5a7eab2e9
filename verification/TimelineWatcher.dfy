/**
 * The timeline watcher: a cursor over the event table that records, for every delegation that
 * moves a stake address away from a DRep, a synthetic undelegation from that DRep.
 *
 * `Next` is the watcher cut into the steps between which other writers and crashes can come.
 * The worker itself is in `TimelineWatcherWorker`, where `RunIsSteps` ties the two together.
 */
module TimelineWatcher {
  import opened Basics
  import opened TimelineLog

  /** What the look-back query reports as the DRep delegated to before `e`. */
  function PreviousDrep(t: seq<Event>, e: Event): Option<string> {
    match e.metadata.stakeAddress
    case None => None
    case Some(stake) =>
      match LatestBefore(t, stake, e.id)
      case None => None
      case Some(p) => p.drepId
  }

  /** `e` delegates away from an earlier, different, non-null DRep. */
  predicate IsSwitch(t: seq<Event>, e: Event) {
    && e.eventType.Delegation?
    && Truthy(e.metadata.stakeAddress)
    && Truthy(PreviousDrep(t, e))
    && PreviousDrep(t, e) != e.drepId
  }

  /** The undelegation written for `e`; its id is assigned on insert. */
  function Synthetic(e: Event, previous: string): Event {
    e.(eventType := Undelegation,
       txIndex := e.txIndex + SYNTHETIC_TX_INDEX_OFFSET,
       drepId := Some(previous),
       stakeAddress := e.metadata.stakeAddress,
       previousDrep := Some(previous),
       metadata := e.metadata.(targetDrep := e.drepId))
  }

  function HandleEvent(ix: UniqueIndex, db: Table, e: Event): Table {
    if IsSwitch(db.rows, e) then InsertOrIgnore(ix, db, Synthetic(e, PreviousDrep(db.rows, e).value)) else db
  }

  // ----- the watcher as a state machine

  datatype Inflight = Inflight(batch: seq<Event>, done: nat)

  /** The ids of the events whose handler ended well at least once, and of those whose handler threw at least once. */
  datatype State = State(db: Table, cursor: int, inflight: Option<Inflight>, handled: set<int>, failed: set<int>)

  datatype Step =
    | Append(event: Event)   // another writer inserts a row
    | Fetch                  // a run reads its batch
    | Handle(throws: bool)   // the next event of the batch
    | Save                   // the cursor is saved and the run ends
    | Crash                  // the run dies before its cursor is saved

  const Initial := State(Table([], 1), 0, None, {}, {})

  function Next(ix: UniqueIndex, s: State, step: Step): State {
    match step
    case Append(e) =>
      s.(db := InsertOrIgnore(ix, s.db, e))
    case Fetch =>
      var batch := Batch(s.db.rows, s.cursor);
      if s.inflight.None? && batch != [] then s.(inflight := Some(Inflight(batch, 0))) else s
    case Handle(throws) =>
      if s.inflight.Some? && s.inflight.value.done < |s.inflight.value.batch| then
        var Inflight(batch, done) := s.inflight.value;
        var e := batch[done];
        s.(db := if throws then s.db else HandleEvent(ix, s.db, e),
           inflight := Some(Inflight(batch, done + 1)),
           handled := if throws then s.handled else s.handled + {e.id},
           failed := if throws then s.failed + {e.id} else s.failed)
      else s
    case Save =>
      if s.inflight.Some? && s.inflight.value.done == |s.inflight.value.batch| && s.inflight.value.batch != [] then
        s.(cursor := s.inflight.value.batch[|s.inflight.value.batch| - 1].id, inflight := None)
      else s
    case Crash =>
      s.(inflight := None)
  }

  function RunSteps(ix: UniqueIndex, s: State, steps: seq<Step>): State
    decreases |steps|
  {
    if steps == [] then s else RunSteps(ix, Next(ix, s, steps[0]), steps[1..])
  }

  /** The range of tx_index that rows from the chain are assumed to have. */
  predicate Real(e: Event) {
    0 <= e.txIndex < SYNTHETIC_TX_INDEX_OFFSET
  }

  predicate RealSteps(steps: seq<Step>) {
    forall step :: step in steps && step.Append? ==> Real(step.event)
  }

  // ----- what the log says

  /**
   * `y` records the switch `e`: an undelegation from the previous DRep, included where `e` is, under the
   * offset key.
   */
  predicate IsRecordOf(t: seq<Event>, e: Event, y: Event) {
    && IsSwitch(t, e)
    && y.eventType.Undelegation?
    && y.drepId == y.previousDrep == PreviousDrep(t, e)
    && y.stakeAddress == e.metadata.stakeAddress
    && y.metadata == e.metadata.(targetDrep := e.drepId)
    && y.inclusion == e.inclusion
    && SyntheticKeyOf(e, y)
  }

  predicate SyntheticKeyOf(e: Event, y: Event) {
    && y.eventType.Undelegation?
    && y.txHash == e.txHash
    && y.txIndex == e.txIndex + SYNTHETIC_TX_INDEX_OFFSET
  }

  ghost predicate HasRecord(t: seq<Event>, e: Event) {
    exists y :: y in t && IsRecordOf(t, e, y)
  }

  ghost predicate ArisesFromSwitch(t: seq<Event>, y: Event) {
    exists e :: e in t && IsRecordOf(t, e, y)
  }

  /** One record for `e`, and no other row under its synthetic key. */
  ghost predicate HasExactlyOneRecord(t: seq<Event>, e: Event) {
    exists y :: y in t && IsRecordOf(t, e, y) && forall z :: z in t && SyntheticKeyOf(e, z) ==> z == y
  }

  // ----- the same without the queries of the handler

  /** d is the newest delegation by the stake address of e before e. */
  ghost predicate IsPrevious(t: seq<Event>, e: Event, d: Event) {
    && d in t && d.eventType.Delegation? && d.metadata.stakeAddress == e.metadata.stakeAddress && d.id < e.id
    && forall x :: x in t && x.eventType.Delegation? && x.metadata.stakeAddress == e.metadata.stakeAddress ==>
         x.id < e.id ==> x.id <= d.id
  }

  /** e delegates away from p: the newest earlier delegation of its stake address names p, and e does not. */
  ghost predicate Leaves(t: seq<Event>, e: Event, p: string) {
    && e.eventType.Delegation? && e.metadata.stakeAddress.Some? && e.metadata.stakeAddress.value != ""
    && p != "" && e.drepId != Some(p)
    && exists d :: IsPrevious(t, e, d) && d.drepId == Some(p)
  }

  /** y is the undelegation that tells that e left p. */
  predicate Tells(e: Event, p: string, y: Event) {
    && y.eventType.Undelegation? && y.drepId == Some(p) && y.previousDrep == Some(p)
    && y.stakeAddress == e.metadata.stakeAddress && y.metadata == e.metadata.(targetDrep := e.drepId)
    && y.inclusion == e.inclusion && y.txHash == e.txHash && y.txIndex == e.txIndex + 1_000_000
  }

  ghost predicate Told(t: seq<Event>, e: Event, p: string) {
    exists y :: y in t && Tells(e, p, y)
  }

  /** One row tells it, and no other undelegation has the key of that row. */
  ghost predicate ToldOnce(t: seq<Event>, e: Event, p: string) {
    exists y :: y in t && Tells(e, p, y)
      && forall z :: z in t && z.eventType.Undelegation? && z.txHash == y.txHash && z.txIndex == y.txIndex ==> z == y
  }

  lemma SameIdSameRow(t: seq<Event>, d: Event, e: Event)
    requires IdsGrow(t) && d in t && e in t && d.id == e.id
    ensures d == e
  {
    var i :| 0 <= i < |t| && t[i] == d;
    var j :| 0 <= j < |t| && t[j] == e;
    assert i == j;
  }

  /** At most one row is the newest. */
  lemma OnePrevious(t: seq<Event>, e: Event, c: Event, d: Event)
    requires IdsGrow(t) && IsPrevious(t, e, c) && IsPrevious(t, e, d)
    ensures c == d
  {
    SameIdSameRow(t, c, d);
  }

  lemma PreviousDrepIs(t: seq<Event>, e: Event)
    requires IdsGrow(t) && e.metadata.stakeAddress.Some?
    ensures match LatestBefore(t, e.metadata.stakeAddress.value, e.id)
            case None => PreviousDrep(t, e) == None && forall d :: !IsPrevious(t, e, d)
            case Some(d) => IsPrevious(t, e, d) && PreviousDrep(t, e) == d.drepId
  {
    LatestBeforeIsNewest(t, e.metadata.stakeAddress.value, e.id);
    hide LatestBefore, IdsGrow;
  }

  lemma LeavesIsSwitch(t: seq<Event>, e: Event, p: string)
    requires IdsGrow(t)
    ensures Leaves(t, e, p) <==> IsSwitch(t, e) && PreviousDrep(t, e) == Some(p)
  {
    hide PreviousDrep, LatestBefore, IsPrevious;
    if e.eventType.Delegation? && e.metadata.stakeAddress.Some? {
      PreviousDrepIs(t, e);
      if exists d :: IsPrevious(t, e, d) && d.drepId == Some(p) {
        var d :| IsPrevious(t, e, d) && d.drepId == Some(p);
        OnePrevious(t, e, d, LatestBefore(t, e.metadata.stakeAddress.value, e.id).value);
      }
    }
  }

  lemma ToldIsRecord(t: seq<Event>, e: Event, p: string)
    requires IsSwitch(t, e) && PreviousDrep(t, e) == Some(p)
    ensures Told(t, e, p) <==> HasRecord(t, e)
    ensures HasExactlyOneRecord(t, e) ==> ToldOnce(t, e, p)
  {
    hide IsSwitch, PreviousDrep;
    assert forall y :: Tells(e, p, y) <==> IsRecordOf(t, e, y);
  }

  lemma RecordTells(t: seq<Event>, e: Event, y: Event) returns (p: string)
    requires IdsGrow(t) && IsRecordOf(t, e, y)
    ensures Leaves(t, e, p) && Tells(e, p, y)
  {
    p := PreviousDrep(t, e).value;
    LeavesIsSwitch(t, e, p);
    hide PreviousDrep, Leaves;
  }

  // ----- the invariant

  ghost predicate LogOk(ix: UniqueIndex, db: Table) {
    && IdsGrow(db.rows)
    && UniqueKeys(ix, db.rows)
    && (forall e :: e in db.rows ==> 0 < e.id < db.nextId && 0 <= e.txIndex)
    && (forall y :: y in db.rows && !Real(y) ==> ArisesFromSwitch(db.rows, y))
  }

  /** The switches with a record are those that were handled without a throw, whatever happened before or after. */
  ghost predicate Recorded(t: seq<Event>, handled: set<int>) {
    forall e :: e in t && IsSwitch(t, e) ==> (HasRecord(t, e) <==> e.id in handled)
  }

  /** None of the first n rows has been passed over. */
  ghost predicate Tried(t: seq<Event>, n: int, handled: set<int>, failed: set<int>)
    requires 0 <= n <= |t|
  {
    forall k :: 0 <= k < n ==> t[k].id in handled + failed
  }

  function Position(s: State): int {
    |s.db.rows| - |After(s.db.rows, s.cursor)|
  }

  /** How far the rows have been handled, counting the running batch. */
  function HandledTo(s: State): int {
    Position(s) + if s.inflight.Some? then s.inflight.value.done else 0
  }

  /** The running batch is the stretch of rows just above the cursor. */
  ghost predicate BatchInPlace(t: seq<Event>, p: int, inflight: Option<Inflight>) {
    inflight.Some? ==>
      var Inflight(batch, done) := inflight.value;
      && done <= |batch|
      && 0 <= p && p + |batch| <= |t|
      && forall i :: 0 <= i < |batch| ==> batch[i] == t[p + i]
  }

  ghost predicate Inv(ix: UniqueIndex, s: State) {
    && LogOk(ix, s.db)
    && 0 <= s.cursor < s.db.nextId
    && BatchInPlace(s.db.rows, Position(s), s.inflight)
    && Recorded(s.db.rows, s.handled) && (forall id :: id in s.handled ==> id < s.db.nextId)
    && Tried(s.db.rows, HandledTo(s), s.handled, s.failed)
  }

  lemma BatchStaysInPlace(t: seq<Event>, t': seq<Event>, p: int, inflight: Option<Inflight>)
    requires BatchInPlace(t, p, inflight) && t <= t'
    ensures BatchInPlace(t', p, inflight)
  {
  }

  /** Appending a row with a fresh id changes nothing about the rows already there. */
  lemma GrowKeeps(t: seq<Event>, x: Event)
    requires IdsGrow(t + [x])
    ensures forall e :: e in t ==> PreviousDrep(t + [x], e) == PreviousDrep(t, e)
    ensures forall e, y :: e in t ==> (IsRecordOf(t + [x], e, y) <==> IsRecordOf(t, e, y))
    ensures forall e :: e in t && HasRecord(t, e) ==> HasRecord(t + [x], e)
    ensures forall y :: ArisesFromSwitch(t, y) ==> ArisesFromSwitch(t + [x], y)
  {
    var t' := t + [x];
    forall e | e in t ensures PreviousDrep(t', e) == PreviousDrep(t, e) {
      var i :| 0 <= i < |t| && t[i] == e;
      assert t'[i].id < t'[|t|].id;
      if e.metadata.stakeAddress.Some? {
        LatestBeforeStable(t, x, e.metadata.stakeAddress.value, e.id);
      }
    }
    forall e | e in t && HasRecord(t, e) ensures HasRecord(t', e) {
      var y :| y in t && IsRecordOf(t, e, y);
      assert y in t' && IsRecordOf(t', e, y);
    }
    forall y | ArisesFromSwitch(t, y) ensures ArisesFromSwitch(t', y) {
      var e :| e in t && IsRecordOf(t, e, y);
      assert e in t' && IsRecordOf(t', e, y);
    }
  }

  lemma IdsStillGrow(ix: UniqueIndex, db: Table, x: Event)
    requires LogOk(ix, db) && x.id == db.nextId
    ensures IdsGrow(db.rows + [x])
  {
    hide UniqueKeys, ArisesFromSwitch;
    var t' := db.rows + [x];
    forall i, j | 0 <= i < j < |t'| ensures t'[i].id < t'[j].id {
      if j == |db.rows| { assert t'[i] in db.rows; }
    }
  }

  /** An insert keeps the log in order when the new row is real or is the record of a switch. */
  lemma InsertKeepsLog(ix: UniqueIndex, db: Table, x: Event)
    requires LogOk(ix, db) && 0 <= x.txIndex && 0 < db.nextId
    requires !Real(x) ==> ArisesFromSwitch(db.rows, x.(id := db.nextId))
    ensures LogOk(ix, InsertOrIgnore(ix, db, x))
    ensures db.rows <= InsertOrIgnore(ix, db, x).rows
    ensures IdsGrow(db.rows + [x.(id := db.nextId)])
  {
    var x' := x.(id := db.nextId);
    var t' := db.rows + [x'];
    IdsStillGrow(ix, db, x');
    if !Present(ix, db.rows, x) {
      GrowKeeps(db.rows, x');
      hide IdsGrow, ArisesFromSwitch;
      forall i, j | 0 <= i < j < |t'| ensures !Collides(ix, t'[i], t'[j]) {
        if j == |db.rows| { assert t'[i] in db.rows; }
      }
      assert x' in t';
    }
  }

  /** Unique keys: two rows under one key are the same row. */
  lemma SameKeySameRow(ix: UniqueIndex, t: seq<Event>, y: Event, z: Event)
    requires UniqueKeys(ix, t) && y in t && z in t && Collides(ix, y, z)
    ensures y == z
  {
    var i :| 0 <= i < |t| && t[i] == y;
    var j :| 0 <= j < |t| && t[j] == z;
    assert Collides(ix, t[i], t[j]) && Collides(ix, t[j], t[i]);
  }

  /** A row already under the synthetic key of a switch is that switch's record. */
  lemma SyntheticKeyIsRecord(ix: UniqueIndex, db: Table, e: Event, y: Event)
    requires LogOk(ix, db) && e in db.rows && y in db.rows && e.eventType.Delegation?
    requires y.txHash == e.txHash && y.txIndex == e.txIndex + SYNTHETIC_TX_INDEX_OFFSET
    ensures IsRecordOf(db.rows, e, y)
  {
    assert !Real(y);
    var e' :| e' in db.rows && IsRecordOf(db.rows, e', y);
    SameKeySameRow(ix, db.rows, e, e');
  }

  ghost predicate AllUndelegations(rows: seq<Event>) {
    forall i :: 0 <= i < |rows| ==> rows[i].eventType.Undelegation?
  }

  /** Handling an event appends at most one undelegation, and only for a delegation. */
  lemma HandleAppends(ix: UniqueIndex, db: Table, e: Event) returns (added: seq<Event>)
    requires LogOk(ix, db) && e in db.rows
    ensures LogOk(ix, HandleEvent(ix, db, e)) && db.nextId <= HandleEvent(ix, db, e).nextId
    ensures HandleEvent(ix, db, e).rows == db.rows + added
    ensures |added| <= if e.eventType.Delegation? then 1 else 0
    ensures AllUndelegations(added)
  {
    added := [];
    if IsSwitch(db.rows, e) {
      var x := Synthetic(e, PreviousDrep(db.rows, e).value);
      assert IsRecordOf(db.rows, e, x.(id := db.nextId));
      InsertKeepsLog(ix, db, x);
      if !Present(ix, db.rows, x) {
        added := [x.(id := db.nextId)];
      }
    }
  }

  /** Handling a switch, again or for the first time, leaves its record in the log. */
  lemma HandleLeavesRecord(ix: UniqueIndex, db: Table, e: Event)
    requires LogOk(ix, db) && e in db.rows
    ensures var t' := HandleEvent(ix, db, e).rows; IsSwitch(t', e) ==> HasRecord(t', e)
  {
    if IsSwitch(db.rows, e) {
      var x := Synthetic(e, PreviousDrep(db.rows, e).value);
      var x' := x.(id := db.nextId);
      assert IsRecordOf(db.rows, e, x');
      if Present(ix, db.rows, x) {
        var y :| y in db.rows && Collides(ix, y, x);
        SyntheticKeyIsRecord(ix, db, e, y);
      } else {
        InsertKeepsLog(ix, db, x);
        GrowKeeps(db.rows, x');
        assert x' in db.rows + [x'] && IsRecordOf(db.rows + [x'], e, x');
      }
    }
  }

  /** A row from outside neither is a record nor has one. */
  lemma RealKeepsRecorded(ix: UniqueIndex, db: Table, x: Event, handled: set<int>)
    requires LogOk(ix, db) && 0 < db.nextId && Real(x)
    requires Recorded(db.rows, handled) && forall id :: id in handled ==> id < db.nextId
    ensures Recorded(InsertOrIgnore(ix, db, x).rows, handled)
  {
    if !Present(ix, db.rows, x) {
      var t, x' := db.rows, x.(id := db.nextId);
      var t' := t + [x'];
      InsertKeepsLog(ix, db, x);
      GrowKeeps(t, x');
      forall e | e in t' && IsSwitch(t', e) ensures HasRecord(t', e) <==> e.id in handled {
        if HasRecord(t', e) { RecordIsOld(ix, db, x, e); }
        SwitchIsOld(t, x', e);
        hide IsSwitch, HasRecord, LogOk;
      }
    }
  }

  lemma SwitchIsOld(t: seq<Event>, x: Event, e: Event)
    requires IdsGrow(t + [x]) && IsSwitch(t + [x], e)
    ensures e in t ==> IsSwitch(t, e)
  {
    GrowKeeps(t, x);
    hide PreviousDrep;
  }

  /** A row is the record of at most one switch. */
  lemma RecordOfOne(ix: UniqueIndex, t: seq<Event>, t': seq<Event>, d: Event, e: Event, y: Event)
    requires IsRecordOf(t, d, y) && IsRecordOf(t', e, y)
    ensures Collides(ix, d, e)
  {
    hide PreviousDrep;
  }

  lemma RecordIsOld(ix: UniqueIndex, db: Table, x: Event, e: Event)
    requires LogOk(ix, db) && 0 < db.nextId && Real(x) && !Present(ix, db.rows, x)
    requires e in db.rows + [x.(id := db.nextId)] && HasRecord(db.rows + [x.(id := db.nextId)], e)
    ensures e in db.rows && HasRecord(db.rows, e)
  {
    var t, x' := db.rows, x.(id := db.nextId);
    InsertKeepsLog(ix, db, x);
    GrowKeeps(t, x');
    var y :| y in t + [x'] && IsRecordOf(t + [x'], e, y);
    assert y in t && !Real(y) by { OffsetKey(t + [x'], e, y); }
    var d :| d in t && IsRecordOf(t, d, y);
    assert !Collides(ix, d, x');
    hide LogOk, UniqueKeys, IdsGrow, IsRecordOf, Collides, Real;
    RecordOfOne(ix, t, t + [x'], d, e, y);
  }

  lemma OffsetKey(t: seq<Event>, e: Event, y: Event)
    requires IsRecordOf(t, e, y) && 0 <= e.txIndex
    ensures !Real(y)
  {
    hide IsSwitch;
  }

  /** Handling an event records it, and no other. */
  lemma HandleRecords(ix: UniqueIndex, db: Table, e: Event, handled: set<int>)
    requires LogOk(ix, db) && 0 < db.nextId && e in db.rows && Recorded(db.rows, handled)
    ensures Recorded(HandleEvent(ix, db, e).rows, handled + {e.id})
  {
    HandleLeavesRecord(ix, db, e);
    var added := HandleAppends(ix, db, e);
    var t, t' := db.rows, HandleEvent(ix, db, e).rows;
    forall d | d in t' && IsSwitch(t', d) ensures HasRecord(t', d) <==> d.id in handled + {e.id} {
      HandledOnly(ix, db, e, d);
      hide IsSwitch, HasRecord, HandleEvent, LogOk;
      if d.id == e.id {
        assert d == e by { LogIds(ix, db); SameIdSameRow(t, d, e); }
      }
    }
  }

  lemma LogIds(ix: UniqueIndex, db: Table)
    requires LogOk(ix, db)
    ensures IdsGrow(db.rows)
  {
  }

  /** A switch after handling e was one before, and its record is there before unless it is e's. */
  lemma HandledOnly(ix: UniqueIndex, db: Table, e: Event, d: Event)
    requires LogOk(ix, db) && 0 < db.nextId && e in db.rows
    requires d in HandleEvent(ix, db, e).rows && IsSwitch(HandleEvent(ix, db, e).rows, d)
    ensures d in db.rows && IsSwitch(db.rows, d)
    ensures d != e ==> (HasRecord(HandleEvent(ix, db, e).rows, d) <==> HasRecord(db.rows, d))
  {
    var t, t' := db.rows, HandleEvent(ix, db, e).rows;
    if t' != t {
      var x' := Synthetic(e, PreviousDrep(t, e).value).(id := db.nextId);
      assert t' == t + [x'] && IsRecordOf(t, e, x');
      InsertKeepsLog(ix, db, x');
      assert x'.(id := db.nextId) == x';
      assert d in t && d != x';
      SwitchIsOld(t, x', d);
      hide HandleEvent, PreviousDrep;
      if d != e { OthersRecord(ix, db, e, x', d); }
    }
  }

  /** The record of e is no record of another switch. */
  lemma OthersRecord(ix: UniqueIndex, db: Table, e: Event, x: Event, d: Event)
    requires LogOk(ix, db) && e in db.rows && d in db.rows && d != e
    requires IsRecordOf(db.rows, e, x) && IdsGrow(db.rows + [x])
    ensures HasRecord(db.rows + [x], d) <==> HasRecord(db.rows, d)
  {
    var t := db.rows;
    GrowKeeps(t, x);
    if HasRecord(t + [x], d) {
      var y :| y in t + [x] && IsRecordOf(t + [x], d, y);
      assert IsRecordOf(t, d, y);
      if y == x {
        RecordOfOne(ix, t, t, d, e, y);
        SameKeySameRow(ix, t, d, e);
      }
    }
  }

  /** The handler does nothing for an address that has not delegated before, or for no address. */
  lemma HandleFirst(ix: UniqueIndex, db: Table, e: Event)
    requires IdsGrow(db.rows)
    requires e.metadata.stakeAddress == None || e.metadata.stakeAddress == Some("")
             || !exists d :: IsPrevious(db.rows, e, d)
    ensures HandleEvent(ix, db, e) == db
  {
    if e.metadata.stakeAddress.Some? { PreviousDrepIs(db.rows, e); }
    hide PreviousDrep, LatestBefore, IsPrevious;
  }

  /**
   * Otherwise the newest earlier delegation d decides. If it names the DRep that e names, or none, nothing is
   * added; if it names another one, a row tells it, and at most that row is added.
   */
  lemma HandleDecides(ix: UniqueIndex, db: Table, e: Event, d: Event)
    requires LogOk(ix, db) && e in db.rows && e.eventType.Delegation?
    requires e.metadata.stakeAddress.Some? && e.metadata.stakeAddress.value != "" && IsPrevious(db.rows, e, d)
    ensures d.drepId == e.drepId || d.drepId == None || d.drepId == Some("") ==> HandleEvent(ix, db, e) == db
    ensures d.drepId != e.drepId && d.drepId.Some? && d.drepId.value != "" ==>
              var p, t' := d.drepId.value, HandleEvent(ix, db, e).rows;
              && Told(t', e, p)
              && (t' == db.rows || (|t'| == |db.rows| + 1 && db.rows <= t' && Tells(e, p, t'[|db.rows|])))
  {
    PreviousDrepIs(db.rows, e);
    OnePrevious(db.rows, e, d, LatestBefore(db.rows, e.metadata.stakeAddress.value, e.id).value);
    hide PreviousDrep, LatestBefore, IsPrevious;
    if IsSwitch(db.rows, e) {
      HandleTells(ix, db, e, d.drepId.value);
    }
  }

  lemma HandleTells(ix: UniqueIndex, db: Table, e: Event, p: string)
    requires LogOk(ix, db) && e in db.rows && e.eventType.Delegation?
    requires IsSwitch(db.rows, e) && PreviousDrep(db.rows, e) == Some(p)
    ensures var t' := HandleEvent(ix, db, e).rows;
            && Told(t', e, p)
            && (t' == db.rows || (|t'| == |db.rows| + 1 && db.rows <= t' && Tells(e, p, t'[|db.rows|])))
  {
    var x := Synthetic(e, p);
    hide IsSwitch, PreviousDrep;
    if Present(ix, db.rows, x) {
      var y :| y in db.rows && Collides(ix, y, x);
      SyntheticKeyIsRecord(ix, db, e, y);
      assert Tells(e, p, y);
    } else {
      var x', t' := x.(id := db.nextId), HandleEvent(ix, db, e).rows;
      assert t' == db.rows + [x'];
      assert Tells(e, p, x');
      assert x' in t';
    }
  }

  /** Rows added above the cursor leave the handled prefix where it is. */
  lemma InsertKeepsPosition(ix: UniqueIndex, s: State, x: Event)
    requires LogOk(ix, s.db) && 0 <= s.cursor < s.db.nextId
    ensures var s' := s.(db := InsertOrIgnore(ix, s.db, x));
            Position(s') == Position(s) && s.db.rows <= s'.db.rows
  {
    if !Present(ix, s.db.rows, x) {
      AfterAppend(s.db.rows, x.(id := s.db.nextId), s.cursor);
    }
  }

  /** Moving the cursor to the id of row k puts exactly the rows up to k behind it. */
  lemma PositionAt(t: seq<Event>, k: int)
    requires IdsGrow(t) && 0 <= k < |t|
    ensures |t| - |After(t, t[k].id)| == k + 1
  {
    AfterIsSuffix(t, t[k].id);
    var p := |t| - |After(t, t[k].id)|;
    assert k + 1 < |t| ==> t[k].id < t[k + 1].id;
  }

  lemma StepKeepsInv(ix: UniqueIndex, s: State, step: Step)
    requires Inv(ix, s)
    requires step.Append? ==> Real(step.event)
    ensures Inv(ix, Next(ix, s, step))
  {
    match step
    case Append(e) => AppendKeepsInv(ix, s, e);
    case Fetch => FetchKeepsInv(ix, s);
    case Handle(throws) => HandleKeepsInv(ix, s, throws);
    case Save => SaveKeepsInv(ix, s);
    case Crash => assert Tried(s.db.rows, Position(s), s.handled, s.failed);
  }

  lemma AppendKeepsInv(ix: UniqueIndex, s: State, e: Event)
    requires Inv(ix, s) && Real(e)
    ensures Inv(ix, Next(ix, s, Append(e)))
  {
    InsertKeepsLog(ix, s.db, e);
    InsertKeepsPosition(ix, s, e);
    RealKeepsRecorded(ix, s.db, e, s.handled);
    BatchStaysInPlace(s.db.rows, Next(ix, s, Append(e)).db.rows, Position(s), s.inflight);
  }

  lemma FetchKeepsInv(ix: UniqueIndex, s: State)
    requires Inv(ix, s)
    ensures Inv(ix, Next(ix, s, Fetch))
  {
    AfterIsSuffix(s.db.rows, s.cursor);
    hide LogOk, Recorded, Tried, After;
  }

  lemma SaveKeepsInv(ix: UniqueIndex, s: State)
    requires Inv(ix, s)
    ensures Inv(ix, Next(ix, s, Save))
  {
    var t := s.db.rows;
    if s.inflight.Some? && s.inflight.value.done == |s.inflight.value.batch| && s.inflight.value.batch != [] {
      var batch := s.inflight.value.batch;
      var k := Position(s) + |batch| - 1;
      assert batch[|batch| - 1] == t[k] && t[k] in t;
      PositionAt(t, k);
    }
  }

  lemma TriedOneMore(t: seq<Event>, t': seq<Event>, n: int, s: State, s': State)
    requires 0 <= n < |t| && t <= t' && Tried(t, n, s.handled, s.failed)
    requires s.handled <= s'.handled && s.failed <= s'.failed && t[n].id in s'.handled + s'.failed
    ensures Tried(t', n + 1, s'.handled, s'.failed)
  {
  }

  lemma HandleKeepsInv(ix: UniqueIndex, s: State, throws: bool)
    requires Inv(ix, s)
    ensures Inv(ix, Next(ix, s, Handle(throws)))
  {
    hide HandleEvent, After, LogOk, Recorded, Tried;
    if s.inflight.Some? && s.inflight.value.done < |s.inflight.value.batch| {
      var t, n, e := s.db.rows, HandledTo(s), s.inflight.value.batch[s.inflight.value.done];
      assert e == t[n] && e in t;
      var s' := Next(ix, s, Handle(throws));
      if !throws {
        var added := HandleAppends(ix, s.db, e);
        HandleRecords(ix, s.db, e, s.handled);
        HandleKeepsPosition(ix, s, e);
      }
      BatchStaysInPlace(t, s'.db.rows, Position(s), s.inflight);
      TriedOneMore(t, s'.db.rows, n, s, s');
    }
  }

  lemma HandleKeepsPosition(ix: UniqueIndex, s: State, e: Event)
    requires LogOk(ix, s.db) && 0 <= s.cursor < s.db.nextId
    ensures var s' := s.(db := HandleEvent(ix, s.db, e));
            Position(s') == Position(s) && s.db.rows <= s'.db.rows
  {
    if IsSwitch(s.db.rows, e) {
      InsertKeepsPosition(ix, s, Synthetic(e, PreviousDrep(s.db.rows, e).value));
    }
  }

  lemma {:induction false} StepsKeepInv(ix: UniqueIndex, s: State, steps: seq<Step>)
    requires Inv(ix, s) && RealSteps(steps)
    ensures Inv(ix, RunSteps(ix, s, steps))
    decreases |steps|
  {
    if steps != [] {
      assert steps[0] in steps;
      StepKeepsInv(ix, s, steps[0]);
      StepsKeepInv(ix, Next(ix, s, steps[0]), steps[1..]);
    }
  }

  /**
   * Main result. Whatever other writers append, wherever runs crash and replay, handlers throw or succeed on
   * a replay, and under either unique index: a delegation that leaves a DRep is told of in the log, and then
   * exactly once, if and only if it was handled without a throw; the cursor has passed no event that was not
   * tried; and every row outside the range of the chain tells of such a delegation.
   */
  lemma LogIsExact(ix: UniqueIndex, steps: seq<Step>)
    requires RealSteps(steps)
    ensures var s := RunSteps(ix, Initial, steps);
            && (forall e, p :: e in s.db.rows && Leaves(s.db.rows, e, p) ==>
                  if e.id in s.handled then ToldOnce(s.db.rows, e, p) else !Told(s.db.rows, e, p))
            && (forall e :: e in s.db.rows && e.id <= s.cursor ==> e.id in s.handled + s.failed)
            && (forall y :: y in s.db.rows && !(0 <= y.txIndex < 1_000_000) ==>
                  exists e, p :: e in s.db.rows && Leaves(s.db.rows, e, p) && Tells(e, p, y))
  {
    var s := RunSteps(ix, Initial, steps);
    StepsKeepInv(ix, Initial, steps);
    var t := s.db.rows;
    AfterIsSuffix(t, s.cursor);
    hide IsSwitch, PreviousDrep, HasRecord, HasExactlyOneRecord, RunSteps, Leaves, Tells, Told, ToldOnce, IsRecordOf;
    forall e, p | e in t && Leaves(t, e, p)
      ensures if e.id in s.handled then ToldOnce(t, e, p) else !Told(t, e, p)
    {
      LeavesIsSwitch(t, e, p);
      ToldIsRecord(t, e, p);
      if e.id in s.handled { ExactlyOneRecord(ix, s, e); }
    }
    forall e | e in t && e.id <= s.cursor ensures e.id in s.handled + s.failed {
      var k :| 0 <= k < |t| && t[k] == e;
    }
    RowsTell(ix, s);
  }

  lemma RowsTell(ix: UniqueIndex, s: State)
    requires Inv(ix, s)
    ensures var t := s.db.rows;
            forall y :: y in t && !(0 <= y.txIndex < 1_000_000) ==>
              exists e, p :: e in t && Leaves(t, e, p) && Tells(e, p, y)
  {
    var t := s.db.rows;
    forall y | y in t && !(0 <= y.txIndex < 1_000_000)
      ensures exists e, p :: e in t && Leaves(t, e, p) && Tells(e, p, y)
    {
      assert ArisesFromSwitch(t, y);
      var e :| e in t && IsRecordOf(t, e, y);
      hide Inv, IsRecordOf, Leaves, Tells;
      var p := RecordTells(t, e, y);
    }
  }

  lemma ExactlyOneRecord(ix: UniqueIndex, s: State, e: Event)
    requires Inv(ix, s) && e in s.db.rows && IsSwitch(s.db.rows, e) && e.id in s.handled
    ensures HasExactlyOneRecord(s.db.rows, e)
  {
    var t := s.db.rows;
    assert HasRecord(t, e);
    var y :| y in t && IsRecordOf(t, e, y);
    forall z | z in t && SyntheticKeyOf(e, z) ensures z == y {
      SameKeySameRow(ix, t, y, z);
    }
  }
}
