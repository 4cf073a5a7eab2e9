/**
 * What a reader of the event log sees: replaying a stake address's events, each
 * delegation preceded by the undelegation recorded for it, tracks its current DRep.
 */
module DelegationHistory {
  import opened Basics
  import opened TimelineLog
  import opened TimelineWatcher

  datatype Op = Add(drep: string) | Remove(drep: string)

  /** The DReps held after replaying the operations in order. */
  function Fold(ops: seq<Op>): set<string> {
    if ops == [] then {}
    else
      var held := Fold(ops[..|ops| - 1]);
      match ops[|ops| - 1]
      case Add(d) => held + {d}
      case Remove(d) => held - {d}
  }

  /** The undelegations stored under the synthetic key of `e`. */
  function Removals(t: seq<Event>, e: Event): seq<Op> {
    if t == [] then []
    else
      var y := t[|t| - 1];
      Removals(t[..|t| - 1], e)
      + if SyntheticKeyOf(e, y) && y.drepId.Some? then [Remove(y.drepId.value)] else []
  }

  /** A delegation adds the DRep it names; one to no DRep adds nothing. */
  function Additions(e: Event): seq<Op> {
    if e.drepId.Some? then [Add(e.drepId.value)] else []
  }

  /** The operations of one stake address up to row n: its delegations, each after its undelegations. */
  function History(t: seq<Event>, n: nat, stake: string): seq<Op>
    requires n <= |t|
  {
    if n == 0 then []
    else
      var e := t[n - 1];
      History(t, n - 1, stake) + if IsDelegationBy(e, stake) then Removals(t, e) + Additions(e) else []
  }

  /** Looking back from row k sees the newest delegation among the rows before it. */
  lemma {:induction false} LookBackIsPrefix(t: seq<Event>, k: nat, m: nat, stake: string, bound: int)
    requires IdsGrow(t) && k < |t| && k <= m <= |t| && forall e :: e in t ==> e.id < bound
    ensures LatestBefore(t[..m], stake, t[k].id) == LatestBefore(t[..k], stake, bound)
    decreases m
  {
    if m > k {
      assert t[..m][..m - 1] == t[..m - 1];
      assert t[k].id <= t[m - 1].id;
      LookBackIsPrefix(t, k, m - 1, stake, bound);
    } else {
      AllBelow(t[..k], stake, t[k].id, bound);
    }
  }

  lemma {:induction false} AllBelow(t: seq<Event>, stake: string, a: int, b: int)
    requires forall e :: e in t ==> e.id < a && e.id < b
    ensures LatestBefore(t, stake, a) == LatestBefore(t, stake, b)
  {
    if t != [] {
      AllBelow(t[..|t| - 1], stake, a, b);
    }
  }

  lemma {:induction false} NoRemovals(t: seq<Event>, e: Event)
    requires forall y :: y in t ==> !SyntheticKeyOf(e, y)
    ensures Removals(t, e) == []
  {
    if t != [] {
      NoRemovals(t[..|t| - 1], e);
    }
  }

  lemma {:induction false} OneRemoval(t: seq<Event>, e: Event, y: Event)
    requires IdsGrow(t) && y in t && SyntheticKeyOf(e, y) && y.drepId.Some?
    requires forall z :: z in t && SyntheticKeyOf(e, z) ==> z == y
    ensures Removals(t, e) == [Remove(y.drepId.value)]
  {
    var init, last := t[..|t| - 1], t[|t| - 1];
    assert t == init + [last];
    if last == y {
      forall z | z in init ensures !SyntheticKeyOf(e, z) {
        var i :| 0 <= i < |init| && init[i] == z;
        assert t[i].id < t[|t| - 1].id;
      }
      NoRemovals(init, e);
    } else {
      OneRemoval(init, e, y);
    }
  }

  /** Every delegation of the address was handled without a throw. */
  ghost predicate Settled(s: State, stake: string) {
    forall e :: e in s.db.rows && IsDelegationBy(e, stake) ==> e.id in s.handled
  }

  /** Once it is handled, the removals before a delegation are exactly those its switch calls for. */
  lemma RemovalsOf(ix: UniqueIndex, s: State, e: Event)
    requires Inv(ix, s) && e in s.db.rows && e.eventType.Delegation? && e.id in s.handled
    ensures Removals(s.db.rows, e)
            == if IsSwitch(s.db.rows, e) then [Remove(PreviousDrep(s.db.rows, e).value)] else []
  {
    hide LatestBefore, Tried, BatchInPlace;
    var t := s.db.rows;
    if IsSwitch(t, e) {
      ExactlyOneRecord(ix, s, e);
      var y :| y in t && IsRecordOf(t, e, y) && forall z :: z in t && SyntheticKeyOf(e, z) ==> z == y;
      OneRemoval(t, e, y);
    } else {
      forall y | y in t ensures !SyntheticKeyOf(e, y) {
        if SyntheticKeyOf(e, y) { SyntheticKeyIsRecord(ix, s.db, e, y); }
      }
      NoRemovals(t, e);
    }
  }

  lemma FoldSwitch(h: seq<Op>, p: string, e: Event)
    requires Fold(h) == {p}
    ensures Fold(h + ([Remove(p)] + Additions(e))) == if e.drepId.Some? then {e.drepId.value} else {}
  {
    var removed := h + [Remove(p)];
    assert removed[..|h|] == h;
    assert h + ([Remove(p)] + Additions(e)) == removed + Additions(e);
    if e.drepId.Some? {
      assert (removed + Additions(e))[..|removed|] == removed;
    } else {
      assert removed + Additions(e) == removed;
    }
  }

  lemma FoldAdditions(h: seq<Op>, e: Event)
    ensures Fold(h + ([] + Additions(e))) == Fold(h) + if e.drepId.Some? then {e.drepId.value} else {}
  {
    var ops := h + ([] + Additions(e));
    if e.drepId.Some? {
      assert ops[..|h|] == h;
    } else {
      assert ops == h;
    }
  }

  /** The empty string, which the code takes for no DRep, names none. */
  ghost predicate NamesDreps(t: seq<Event>, stake: string) {
    stake != "" && forall e :: e in t && IsDelegationBy(e, stake) ==> e.drepId != Some("")
  }

  /** The DRep of a delegation, as the set a replay should hold after it. */
  function Held(latest: Option<Event>): set<string> {
    if latest.Some? && latest.value.drepId.Some? then {latest.value.drepId.value} else {}
  }

  lemma LogFacts(ix: UniqueIndex, s: State)
    requires Inv(ix, s)
    ensures IdsGrow(s.db.rows) && forall x :: x in s.db.rows ==> x.id < s.db.nextId
  {
  }

  /** One delegation, with the removals recorded for it, replaces whatever was held. */
  lemma DelegationReplaces(ix: UniqueIndex, s: State, stake: string, k: nat, h: seq<Op>)
    requires Inv(ix, s) && Settled(s, stake)
    requires NamesDreps(s.db.rows, stake)
    requires k < |s.db.rows| && IsDelegationBy(s.db.rows[k], stake)
    requires Fold(h) == Held(LatestBefore(s.db.rows[..k], stake, s.db.nextId))
    ensures Fold(h + (Removals(s.db.rows, s.db.rows[k]) + Additions(s.db.rows[k]))) == Held(Some(s.db.rows[k]))
  {
    hide Inv, Removals, LatestBefore, Fold, Additions;
    var t := s.db.rows;
    var e := t[k];
    assert e in t;
    LogFacts(ix, s);
    LookBackIsPrefix(t, k, |t|, stake, s.db.nextId);
    assert t[..|t|] == t;
    RemovalsOf(ix, s, e);
    LatestBeforeIsNewest(t, stake, e.id);
    if IsSwitch(t, e) {
      FoldSwitch(h, PreviousDrep(t, e).value, e);
    } else {
      FoldAdditions(h, e);
    }
  }

  /**
   * Once its delegations are handled, replaying any prefix of the log leaves exactly the DRep that the
   * address's latest delegation names, and none if it names none, repeated delegations to one DRep included.
   */
  lemma {:induction false} HistoryNamesLatest(ix: UniqueIndex, s: State, stake: string, n: nat)
    requires Inv(ix, s) && Settled(s, stake)
    requires NamesDreps(s.db.rows, stake) && n <= |s.db.rows|
    ensures Fold(History(s.db.rows, n, stake)) == Held(LatestBefore(s.db.rows[..n], stake, s.db.nextId))
  {
    hide Inv, Settled, Removals, NamesDreps, Fold, Additions;
    var t := s.db.rows;
    if n > 0 {
      HistoryNamesLatest(ix, s, stake, n - 1);
      assert t[..n][..n - 1] == t[..n - 1];
      LogFacts(ix, s);
      assert t[n - 1] in t;
      if IsDelegationBy(t[n - 1], stake) {
        DelegationReplaces(ix, s, stake, n - 1, History(t, n - 1, stake));
      } else {
        assert History(t, n, stake) == History(t, n - 1, stake);
      }
    } else {
      assert Fold([]) == {} by { EmptyFold(); }
    }
  }

  /** The same for every run of the watcher: any interleaving that has handled the delegations of the address. */
  lemma ReplayOfRuns(ix: UniqueIndex, steps: seq<Step>, stake: string, n: nat)
    requires RealSteps(steps)
    requires var s := RunSteps(ix, Initial, steps);
             Settled(s, stake) && NamesDreps(s.db.rows, stake) && n <= |s.db.rows|
    ensures var s := RunSteps(ix, Initial, steps);
            Fold(History(s.db.rows, n, stake)) == Held(LatestBefore(s.db.rows[..n], stake, s.db.nextId))
  {
    StepsKeepInv(ix, Initial, steps);
    HistoryNamesLatest(ix, RunSteps(ix, Initial, steps), stake, n);
  }

  lemma EmptyFold()
    ensures Fold([]) == {}
  {
  }
}
