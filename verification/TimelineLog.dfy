/**
 * The drep_timeline_event table: rows in id order, a unique index, insert-or-ignore, and the two
 * queries the timeline watcher asks of it.
 */
module TimelineLog {
  import opened Basics

  const SYNTHETIC_TX_INDEX_OFFSET := 1_000_000
  const BATCH_SIZE := 50

  datatype EventType = Registration | Retirement | Delegation | Undelegation | Proposal | Vote

  /** The jsonb column; `rest` stands for the keys no worker reads. */
  datatype Metadata = Metadata(stakeAddress: Option<string>, targetDrep: Option<string>, rest: string)

  /** Where and when the transaction was included. */
  datatype Inclusion = Inclusion(timestamp: int, epoch: int, slot: int, blockHash: Option<string>)

  datatype Event = Event(
    id: int,
    eventType: EventType,
    inclusion: Inclusion,
    txHash: string,
    txIndex: int,
    drepId: Option<string>,
    stakeAddress: Option<string>,
    previousDrep: Option<string>,
    metadata: Metadata)

  /** The table with its id sequence. A rejected insert still consumes an id. */
  datatype Table = Table(rows: seq<Event>, nextId: int)

  /** The unique index before and after the migration that adds event_type to it. */
  datatype UniqueIndex = TxKey | TxKeyAndType

  predicate Collides(ix: UniqueIndex, a: Event, b: Event) {
    && a.txHash == b.txHash
    && a.txIndex == b.txIndex
    && (ix.TxKeyAndType? ==> a.eventType == b.eventType)
  }

  predicate Present(ix: UniqueIndex, t: seq<Event>, e: Event) {
    exists x :: x in t && Collides(ix, x, e)
  }

  function InsertOrIgnore(ix: UniqueIndex, db: Table, e: Event): (r: Table)
  {
    Table(if Present(ix, db.rows, e) then db.rows else db.rows + [e.(id := db.nextId)], db.nextId + 1)
  }

  /** A row goes in, under the next id, unless its transaction and index are taken, and its type if that counts. */
  lemma InsertGoesInIff(ix: UniqueIndex, db: Table, e: Event)
    ensures InsertOrIgnore(ix, db, e).rows == db.rows + [e.(id := db.nextId)]
            <==> forall x :: x in db.rows && x.txHash == e.txHash && x.txIndex == e.txIndex ==>
                   ix.TxKeyAndType? && x.eventType != e.eventType
    ensures InsertOrIgnore(ix, db, e).rows == db.rows || |InsertOrIgnore(ix, db, e).rows| == |db.rows| + 1
  {
    assert |db.rows + [e.(id := db.nextId)]| == |db.rows| + 1;
    assert forall x :: Collides(ix, x, e) ==> x.txHash == e.txHash;
  }

  predicate IsDelegationBy(e: Event, stake: string) {
    e.eventType.Delegation? && e.metadata.stakeAddress == Some(stake)
  }

  /** The newest delegation row by `stake` with an id below `id`. */
  function LatestBefore(t: seq<Event>, stake: string, id: int): Option<Event>
  {
    if t == [] then None
    else
      var last := t[|t| - 1];
      if IsDelegationBy(last, stake) && last.id < id then Some(last) else LatestBefore(t[..|t| - 1], stake, id)
  }

  /** Rows with an id above the cursor, in id order. */
  function After(t: seq<Event>, cursor: int): (r: seq<Event>)
    ensures |r| <= |t|
  {
    if t == [] then []
    else
      var last := t[|t| - 1];
      After(t[..|t| - 1], cursor) + (if last.id > cursor then [last] else [])
  }

  function Batch(t: seq<Event>, cursor: int): (r: seq<Event>)
  {
    var pending := After(t, cursor);
    pending[..Min(BATCH_SIZE, |pending|)]
  }

  // ----- facts about a table whose ids grow

  ghost predicate IdsGrow(t: seq<Event>) {
    forall i, j :: 0 <= i < j < |t| ==> t[i].id < t[j].id
  }

  ghost predicate UniqueKeys(ix: UniqueIndex, t: seq<Event>) {
    forall i, j :: 0 <= i < j < |t| ==> !Collides(ix, t[i], t[j])
  }

  /** `ORDER BY id DESC LIMIT 1` really is the maximum of the matching rows. */
  lemma {:induction false} LatestBeforeIsNewest(t: seq<Event>, stake: string, id: int)
    requires IdsGrow(t)
    ensures match LatestBefore(t, stake, id)
            case None => forall e :: e in t ==> !(IsDelegationBy(e, stake) && e.id < id)
            case Some(p) =>
              && p in t && IsDelegationBy(p, stake) && p.id < id
              && forall e :: e in t && IsDelegationBy(e, stake) && e.id < id ==> e.id <= p.id
  {
    if t != [] {
      var init, last := t[..|t| - 1], t[|t| - 1];
      assert t == init + [last];
      if !(IsDelegationBy(last, stake) && last.id < id) {
        LatestBeforeIsNewest(init, stake, id);
      }
    }
  }

  /** A row appended with a larger id does not change an earlier row's look-back. */
  lemma LatestBeforeStable(t: seq<Event>, x: Event, stake: string, id: int)
    requires id <= x.id
    ensures LatestBefore(t + [x], stake, id) == LatestBefore(t, stake, id)
  {
    assert (t + [x])[..|t|] == t;
  }

  /** The pending rows are a suffix of the table that starts at the first id above the cursor. */
  lemma {:induction false} AfterIsSuffix(t: seq<Event>, cursor: int)
    requires IdsGrow(t)
    ensures var p := |t| - |After(t, cursor)|;
            && After(t, cursor) == t[p..]
            && (forall i :: 0 <= i < p ==> t[i].id <= cursor)
            && (forall i :: p <= i < |t| ==> t[i].id > cursor)
  {
    if t != [] {
      var init, last := t[..|t| - 1], t[|t| - 1];
      assert t == init + [last];
      AfterIsSuffix(init, cursor);
      var p := |init| - |After(init, cursor)|;
      if last.id > cursor {
        assert init[p..] + [last] == t[p..];
      } else {
        assert forall i :: 0 <= i < |init| ==> init[i] == t[i] && t[i].id < t[|t| - 1].id;
        assert p == |init|;
      }
    }
  }

  lemma AfterAppend(t: seq<Event>, x: Event, cursor: int)
    requires x.id > cursor
    ensures After(t + [x], cursor) == After(t, cursor) + [x]
  {
    assert (t + [x])[..|t|] == t;
  }

  /**
   * A batch is exactly the set of rows between the old cursor and its last id, so setting the
   * cursor to that id passes over nothing; and a non-empty batch always moves the cursor up.
   */
  lemma BatchSkipsNothing(t: seq<Event>, cursor: int)
    requires IdsGrow(t)
    ensures var b := Batch(t, cursor);
            && |b| <= 50 && (|b| < 50 ==> forall e :: e in t && e.id > cursor ==> e in b)
            && (b == [] <==> forall e :: e in t ==> e.id <= cursor)
            && (b != [] ==>
                  && b[|b| - 1].id > cursor
                  && forall e :: e in b <==> e in t && cursor < e.id <= b[|b| - 1].id)
  {
    AfterIsSuffix(t, cursor);
    var p := |t| - |After(t, cursor)|;
    var b := Batch(t, cursor);
    assert b == t[p..p + |b|];
    if b == [] {
      assert p == |t|;
    } else {
      assert t[p] in t && t[p].id > cursor;
      forall e ensures e in b <==> e in t && cursor < e.id <= b[|b| - 1].id {
        if e in b {
          var i :| 0 <= i < |b| && b[i] == e;
          assert t[p + i] == e;
        }
        if e in t && cursor < e.id <= b[|b| - 1].id {
          var i :| 0 <= i < |t| && t[i] == e;
          assert b[i - p] == e;
        }
      }
    }
  }
}
