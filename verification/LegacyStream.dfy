/**
 * The legacy timeline as a stream. The query for a window answers in several partial results, and each
 * of them that is too short starts the whole recursion for the next window again; a later partial result
 * cuts the recursion of an earlier one off, though its queries have been made.
 */
module LegacyStream {
  import opened Basics
  import opened EpochWindow
  import opened LegacyWidening

  /** Where a query stands in a run: the partial results that led to it, one for each level above. */
  type Path = seq<nat>

  /**
   * The partial results of each query, in the order in which they are emitted, before de-duplication. A
   * window that is queried again may answer in another order.
   */
  type Answers = (Times, Path) -> seq<seq<Entry>>

  ghost predicate Emits(answers: Answers) {
    forall w: Times, path: Path :: answers(w, path) != []
  }

  /** No query answers in more than m parts. */
  ghost predicate EmitsAtMost(answers: Answers, m: nat) {
    forall w: Times, path: Path :: 1 <= |answers(w, path)| <= m
  }

  function Final(partials: seq<seq<Entry>>): seq<Entry> {
    if partials == [] then [] else partials[|partials| - 1]
  }

  /** What a window has answered in the end. */
  function Complete(answers: Answers): Source {
    (w: Times) => Final(answers(w, []))
  }

  /** All queries of a window come to the same in the end. */
  ghost predicate Settled(answers: Answers) {
    forall w: Times, path: Path :: Final(answers(w, path)) == Complete(answers)(w)
  }

  // ----- runs

  datatype Request = Request(
    cursors: Times,
    minItems: int,
    depth: nat,
    maxDepth: nat,
    direction: Direction,
    path: Path)

  /** The levels that may follow. */
  function Levels(r: Request): nat {
    if r.minItems <= 0 then 0 else Left(r.depth, r.maxDepth)
  }

  function Parts(answers: Answers, r: Request, w: Times): seq<seq<Entry>> {
    answers(w, r.path)
  }

  function Shown(answers: Answers, r: Request, w: Times, i: nat): seq<Entry> {
    if i < |Parts(answers, r, w)| then UniqueNewestFirst(Parts(answers, r, w)[i]) else []
  }

  /** The nested request that partial result i leads to when it has `count` entries. */
  function Following(r: Request, w: Times, i: nat, count: nat, now: int): (next: Option<Request>)
    ensures next.Some? ==> Levels(next.value) == Levels(r) - 1 && next.value.depth == r.depth + 1
  {
    if count >= r.minItems || r.depth >= r.maxDepth then None
    else
      match NextWindow(w, r.depth, r.direction, now)
      case None => None
      case Some(cursors) =>
        Some(Request(cursors, r.minItems - count, r.depth + 1, r.maxDepth, r.direction, r.path + [i]))
  }

  function Nested(answers: Answers, r: Request, w: Times, i: nat, now: int): (next: Option<Request>)
    ensures next.Some? ==> Levels(next.value) == Levels(r) - 1 && next.value.depth == r.depth + 1
  {
    Following(r, w, i, |Shown(answers, r, w, i)|, now)
  }

  /** What became of a request: when it was made, and the partial results that arrived before it was cut off. */
  datatype Run = Run(called: int, arrivals: seq<Arrival>)

  /** A partial result, and the nested request it led to, if any. */
  datatype Arrival = Arrival(now: int, nested: Option<Run>)

  /** When the first n partial results and what they led to were over. */
  function Until(run: Run, n: nat): int
    requires n <= |run.arrivals|
    decreases run, n
  {
    if n == 0 then run.called
    else
      match run.arrivals[n - 1].nested
      case None => run.arrivals[n - 1].now
      case Some(nested) => Until(nested, |nested.arrivals|)
  }

  /**
   * `run` is a run of the request; a complete one was not cut off, nor was the nested one that came last.
   * Nothing comes out of a nested request once the next partial result has arrived.
   */
  ghost predicate IsRun(run: Run, answers: Answers, r: Request, complete: bool)
    decreases run
  {
    var w := Applied(r.cursors, run.called);
    var n := |Parts(answers, r, w)|;
    && 0 < run.called
    && |run.arrivals| <= n && (complete ==> |run.arrivals| == n)
    && forall i :: 0 <= i < |run.arrivals| ==>
         && Until(run, i) <= run.arrivals[i].now
         && IsArrival(run.arrivals[i], answers, r, w, i, complete && i == n - 1)
  }

  ghost predicate IsArrival(a: Arrival, answers: Answers, r: Request, w: Times, i: nat, complete: bool)
    decreases a
  {
    match Nested(answers, r, w, i, a.now)
    case None => a.nested.None?
    case Some(next) =>
      a.nested.Some? && a.now <= a.nested.value.called && IsRun(a.nested.value, answers, next, complete)
  }

  /** How many times a window is queried in a run. */
  function Queries(run: Run): nat {
    1 + QueriesUpTo(run, |run.arrivals|)
  }

  function QueriesUpTo(run: Run, n: nat): nat
    requires n <= |run.arrivals|
    decreases run, n
  {
    if n == 0 then 0
    else
      QueriesUpTo(run, n - 1)
      + if run.arrivals[n - 1].nested.Some? then Queries(run.arrivals[n - 1].nested.value) else 0
  }

  lemma ArrivalIs(run: Run, answers: Answers, r: Request, complete: bool, i: nat)
    requires IsRun(run, answers, r, complete) && i < |run.arrivals|
    ensures var a, w := run.arrivals[i], Applied(r.cursors, run.called);
            && Until(run, i) <= a.now
            && IsArrival(a, answers, r, w, i, complete && i + 1 == |Parts(answers, r, w)|)
  {
    hide IsArrival, Until, Parts, Applied;
  }

  /** The request behind an arrival that led to one. */
  lemma NestedRequest(a: Arrival, answers: Answers, r: Request, w: Times, i: nat, complete: bool)
    returns (next: Request)
    requires IsArrival(a, answers, r, w, i, complete) && a.nested.Some?
    ensures Nested(answers, r, w, i, a.now) == Some(next)
    ensures Levels(r) > 0 && Levels(next) == Levels(r) - 1 && next.depth == r.depth + 1
    ensures a.now <= a.nested.value.called && IsRun(a.nested.value, answers, next, complete)
  {
    hide Nested, IsRun, Levels;
    next := Nested(answers, r, w, i, a.now).value;
  }

  lemma UntilIs(run: Run, n: nat)
    requires n <= |run.arrivals|
    ensures Until(run, n)
            == if n == 0 then run.called
               else
                 match run.arrivals[n - 1].nested
                 case None => run.arrivals[n - 1].now
                 case Some(nested) => Until(nested, |nested.arrivals|)
  {
  }

  /** Time does not go back in a run. */
  lemma {:induction false} UntilIsLater(run: Run, answers: Answers, r: Request, complete: bool, n: nat)
    requires IsRun(run, answers, r, complete) && n <= |run.arrivals|
    ensures run.called <= Until(run, n)
    ensures n > 0 ==> run.called <= run.arrivals[n - 1].now <= Until(run, n)
    decreases run, n
  {
    hide *;
    UntilIs(run, n);
    if n > 0 {
      UntilIsLater(run, answers, r, complete, n - 1);
      var a, w := run.arrivals[n - 1], Applied(r.cursors, run.called);
      var last := complete && n == |Parts(answers, r, w)|;
      ArrivalIs(run, answers, r, complete, n - 1);
      if a.nested.Some? {
        var next := NestedRequest(a, answers, r, w, n - 1, last);
        UntilIsLater(a.nested.value, answers, next, last, |a.nested.value.arrivals|);
      }
    }
  }

  /** A request that ran to its end is also one that may have been cut off. */
  lemma {:induction false} CompleteIsRun(run: Run, answers: Answers, r: Request)
    requires IsRun(run, answers, r, true)
    ensures IsRun(run, answers, r, false)
    decreases run
  {
    var w := Applied(r.cursors, run.called);
    hide Nested, Until;
    forall i | 0 <= i < |run.arrivals| ensures IsArrival(run.arrivals[i], answers, r, w, i, false) {
      var a := run.arrivals[i];
      assert IsArrival(a, answers, r, w, i, i == |Parts(answers, r, w)| - 1);
      var next := Nested(answers, r, w, i, a.now);
      if next.Some? && i == |Parts(answers, r, w)| - 1 {
        CompleteIsRun(a.nested.value, answers, next.value);
      }
    }
  }

  // ----- how many queries a run makes

  /** 1 + m + m^2 + ... + m^n. */
  function Geometric(m: nat, n: nat): nat {
    if n == 0 then 1 else 1 + m * Geometric(m, n - 1)
  }

  /** Queries answer in at most m parts: a run queries at most 1 + m + ... + m^levels times. */
  lemma {:induction false} QueriesAreBounded(run: Run, answers: Answers, r: Request, complete: bool, m: nat)
    requires EmitsAtMost(answers, m) && IsRun(run, answers, r, complete)
    ensures Queries(run) <= Geometric(m, Levels(r))
    decreases run, |run.arrivals| + 1
  {
    var n, each := |run.arrivals|, if Levels(r) == 0 then 0 else Geometric(m, Levels(r) - 1);
    assert n <= |answers(Applied(r.cursors, run.called), r.path)| <= m;
    QueriesUpToAreBounded(run, answers, r, complete, m, n, each);
    hide *;
    MulMonotone(n, m, each);
    assert Queries(run) == 1 + QueriesUpTo(run, n) by { QueriesIs(run); }
    GeometricIs(m, Levels(r));
  }

  lemma QueriesIs(run: Run)
    ensures Queries(run) == 1 + QueriesUpTo(run, |run.arrivals|)
  {
  }

  lemma GeometricIs(m: nat, n: nat)
    ensures Geometric(m, n) == if n == 0 then 1 else 1 + m * Geometric(m, n - 1)
  {
  }

  lemma MulMonotone(a: nat, b: nat, c: nat)
    requires a <= b
    ensures a * c <= b * c
  {
  }

  lemma {:induction false} QueriesUpToAreBounded(
      run: Run, answers: Answers, r: Request, complete: bool, m: nat, n: nat, each: nat)
    requires EmitsAtMost(answers, m) && IsRun(run, answers, r, complete) && n <= |run.arrivals|
    requires each == if Levels(r) == 0 then 0 else Geometric(m, Levels(r) - 1)
    ensures QueriesUpTo(run, n) <= n * each
    decreases run, n
  {
    hide *;
    if n > 0 {
      QueriesUpToAreBounded(run, answers, r, complete, m, n - 1, each);
      var a, w := run.arrivals[n - 1], Applied(r.cursors, run.called);
      var last := complete && n == |Parts(answers, r, w)|;
      ArrivalIs(run, answers, r, complete, n - 1);
      QueriesOneMore(run, n);
      OneMoreProduct(n, each);
      if a.nested.Some? {
        var next := NestedRequest(a, answers, r, w, n - 1, last);
        QueriesAreBounded(a.nested.value, answers, next, last, m);
      }
    } else {
      NoQueries(run);
    }
  }

  lemma NoQueries(run: Run)
    ensures QueriesUpTo(run, 0) == 0
  {
  }

  lemma QueriesOneMore(run: Run, n: nat)
    requires 0 < n <= |run.arrivals|
    ensures QueriesUpTo(run, n)
            == QueriesUpTo(run, n - 1)
               + if run.arrivals[n - 1].nested.Some? then Queries(run.arrivals[n - 1].nested.value) else 0
  {
    hide Queries;
  }

  lemma OneMoreProduct(n: nat, each: nat)
    requires n > 0
    ensures n * each == (n - 1) * each + each
  {
  }

  // ----- runs in which nothing is cut off

  /**
   * A run in which every nested request comes to its end before the next partial result arrives: at one
   * instant, or, when it is patient, so late each time that the next window lies in the past.
   */
  function Uncut(answers: Answers, r: Request, called: int, patient: bool): Run
    decreases Levels(r), 1, 0
  {
    var w := Applied(r.cursors, called);
    UncutUpTo(answers, r, w, called, patient, |Parts(answers, r, w)|)
  }

  function UncutUpTo(answers: Answers, r: Request, w: Times, called: int, patient: bool, n: nat): (run: Run)
    ensures run.called == called && |run.arrivals| == n
    decreases Levels(r), 0, n
  {
    if n == 0 then Run(called, [])
    else
      var run := UncutUpTo(answers, r, w, called, patient, n - 1);
      var now := if patient then Max(Until(run, n - 1), w.1 + DAY + 1) else called;
      Extended(run, Arrival(now, match Nested(answers, r, w, n - 1, now)
                                 case None => None
                                 case Some(next) => Some(Uncut(answers, next, now, patient))))
  }

  function Extended(run: Run, a: Arrival): Run {
    Run(run.called, run.arrivals + [a])
  }

  lemma {:induction false} ExtendedPrefix(run: Run, a: Arrival, n: nat)
    requires n <= |run.arrivals|
    ensures Until(Extended(run, a), n) == Until(run, n)
    ensures QueriesUpTo(Extended(run, a), n) == QueriesUpTo(run, n)
    decreases n
  {
    hide Queries;
    if n > 0 { ExtendedPrefix(run, a, n - 1); }
  }

  lemma ExtendedIsRun(run: Run, a: Arrival, answers: Answers, r: Request, complete: bool)
    requires IsRun(run, answers, r, false) && Until(run, |run.arrivals|) <= a.now
    requires var i, n := |run.arrivals|, |Parts(answers, r, Applied(r.cursors, run.called))|;
             && i < n && (complete ==> i == n - 1)
             && IsArrival(a, answers, r, Applied(r.cursors, run.called), i, complete)
    ensures IsRun(Extended(run, a), answers, r, complete)
  {
    hide IsArrival, QueriesUpTo, Until, Parts, Applied;
    var longer := Extended(run, a);
    forall i | 0 <= i < |longer.arrivals| ensures Until(longer, i) <= longer.arrivals[i].now {
      ExtendedPrefix(run, a, i);
    }
  }

  lemma {:induction false} UncutIsRun(answers: Answers, r: Request, called: int, patient: bool)
    requires called > 0
    ensures IsRun(Uncut(answers, r, called, patient), answers, r, true)
    decreases Levels(r), 1, 0
  {
    var w := Applied(r.cursors, called);
    UncutUpToIsRun(answers, r, w, called, patient, |Parts(answers, r, w)|);
    hide UncutUpTo, IsRun;
  }

  lemma {:induction false} UncutUpToIsRun(
      answers: Answers, r: Request, w: Times, called: int, patient: bool, n: nat)
    requires called > 0 && w == Applied(r.cursors, called) && n <= |Parts(answers, r, w)|
    ensures IsRun(UncutUpTo(answers, r, w, called, patient, n), answers, r, n == |Parts(answers, r, w)|)
    decreases Levels(r), 0, n
  {
    hide *;
    if n > 0 {
      var run, a := LastUncut(answers, r, w, called, patient, n);
      UncutUpToIsRun(answers, r, w, called, patient, n - 1);
      UncutInOrder(run, a, answers, r, w, called, patient, n);
      UncutIsArrival(a, answers, r, w, n - 1, patient);
      ExtendedIsRun(run, a, answers, r, n == |Parts(answers, r, w)|);
    } else {
      EmptyIsRun(answers, r, w, called, patient);
    }
  }

  /** The n-th arrival comes once everything before it is over. */
  lemma UncutInOrder(
      run: Run, a: Arrival, answers: Answers, r: Request, w: Times, called: int, patient: bool, n: nat)
    requires n > 0 && run == UncutUpTo(answers, r, w, called, patient, n - 1) && IsRun(run, answers, r, false)
    requires if patient then a.now == Max(Until(run, n - 1), w.1 + DAY + 1) else a.now == called
    ensures Until(run, n - 1) <= a.now && called <= a.now
  {
    hide UncutUpTo, IsRun, Until;
    UntilIsLater(run, answers, r, false, n - 1);
    if !patient {
      UncutIsAtOnce(answers, r, w, called, n - 1);
      UntilAtOnce(run, called, n - 1);
    }
    hide AtOnce;
  }

  lemma EmptyIsRun(answers: Answers, r: Request, w: Times, called: int, patient: bool)
    requires called > 0 && w == Applied(r.cursors, called)
    ensures IsRun(UncutUpTo(answers, r, w, called, patient, 0), answers, r, |Parts(answers, r, w)| == 0)
  {
    hide Applied, Parts, IsArrival, Until;
  }

  lemma {:induction false} UncutIsArrival(
      a: Arrival, answers: Answers, r: Request, w: Times, i: nat, patient: bool)
    requires a.now > 0
    requires match Nested(answers, r, w, i, a.now)
             case None => a.nested.None?
             case Some(next) => a.nested == Some(Uncut(answers, next, a.now, patient))
    ensures IsArrival(a, answers, r, w, i, true) && IsArrival(a, answers, r, w, i, false)
    decreases Levels(r), 0, 0
  {
    hide Nested, Uncut;
    var next := Nested(answers, r, w, i, a.now);
    if next.Some? {
      UncutIsRun(answers, next.value, a.now, patient);
      CompleteIsRun(a.nested.value, answers, next.value);
      assert a.nested.value.called == a.now by { UncutIs(answers, next.value, a.now, patient); }
    }
    hide IsRun;
  }

  lemma UncutIs(answers: Answers, r: Request, called: int, patient: bool)
    ensures Uncut(answers, r, called, patient).called == called
    ensures var w := Applied(r.cursors, called);
            Uncut(answers, r, called, patient)
            == UncutUpTo(answers, r, w, called, patient, |Parts(answers, r, w)|)
  {
    hide UncutUpTo;
  }

  /** The run before its n-th arrival, and that arrival. */
  lemma LastUncut(answers: Answers, r: Request, w: Times, called: int, patient: bool, n: nat)
    returns (run: Run, a: Arrival)
    requires n > 0
    ensures run == UncutUpTo(answers, r, w, called, patient, n - 1)
    ensures UncutUpTo(answers, r, w, called, patient, n) == Extended(run, a)
    ensures if patient then a.now == Max(Until(run, n - 1), w.1 + DAY + 1) else a.now == called
    ensures match Nested(answers, r, w, n - 1, a.now)
            case None => a.nested.None?
            case Some(next) => a.nested == Some(Uncut(answers, next, a.now, patient))
  {
    hide Nested, Until, Uncut;
    run := UncutUpTo(answers, r, w, called, patient, n - 1);
    a := UncutUpTo(answers, r, w, called, patient, n).arrivals[n - 1];
  }

  /** All is asked and answered at one instant. */
  ghost predicate AtOnce(run: Run, now: int)
    decreases run
  {
    && run.called == now
    && forall i :: 0 <= i < |run.arrivals| ==>
         && run.arrivals[i].now == now
         && (run.arrivals[i].nested.Some? ==> AtOnce(run.arrivals[i].nested.value, now))
  }

  lemma {:induction false} UntilAtOnce(run: Run, now: int, n: nat)
    requires AtOnce(run, now) && n <= |run.arrivals|
    ensures Until(run, n) == now
    decreases run, n
  {
    if n > 0 && run.arrivals[n - 1].nested.Some? {
      var nested := run.arrivals[n - 1].nested.value;
      UntilAtOnce(nested, now, |nested.arrivals|);
    }
  }

  lemma {:induction false} UncutIsAtOnce(answers: Answers, r: Request, w: Times, now: int, n: nat)
    ensures AtOnce(UncutUpTo(answers, r, w, now, false, n), now)
    decreases Levels(r), n
  {
    hide Nested;
    if n > 0 {
      UncutIsAtOnce(answers, r, w, now, n - 1);
      var run, a := LastUncut(answers, r, w, now, false, n);
      var next := Nested(answers, r, w, n - 1, now);
      if next.Some? {
        var v := Applied(next.value.cursors, now);
        UncutIsAtOnce(answers, next.value, v, now, |Parts(answers, next.value, v)|);
      }
      hide UncutUpTo, Applied;
    }
  }

  // ----- all at one instant

  /** The queries of the run in which no request is cut off. */
  function Most(answers: Answers, r: Request, now: int): nat
    decreases Levels(r), 1, 0
  {
    var w := Applied(r.cursors, now);
    1 + MostUpTo(answers, r, w, now, |Parts(answers, r, w)|)
  }

  function MostUpTo(answers: Answers, r: Request, w: Times, now: int, n: nat): nat
    decreases Levels(r), 0, n
  {
    if n == 0 then 0
    else
      MostUpTo(answers, r, w, now, n - 1)
      + match Nested(answers, r, w, n - 1, now)
        case None => 0
        case Some(next) => Most(answers, next, now)
  }

  lemma LastOfMost(answers: Answers, r: Request, w: Times, now: int, n: nat)
    requires n > 0
    ensures MostUpTo(answers, r, w, now, n)
            == MostUpTo(answers, r, w, now, n - 1)
               + match Nested(answers, r, w, n - 1, now)
                 case None => 0
                 case Some(next) => Most(answers, next, now)
  {
    hide Nested, Most;
  }

  lemma NoneOfMost(answers: Answers, r: Request, w: Times, now: int)
    ensures MostUpTo(answers, r, w, now, 0) == 0
  {
  }

  lemma {:induction false} MostIsMost(run: Run, answers: Answers, r: Request, complete: bool, now: int)
    requires IsRun(run, answers, r, complete) && AtOnce(run, now)
    ensures Queries(run) <= Most(answers, r, now)
    decreases run, |run.arrivals| + 1
  {
    var n, w := |run.arrivals|, Applied(r.cursors, run.called);
    MostUpToIsMost(run, answers, r, w, complete, now, n);
    MostGrows(answers, r, w, now, n, |Parts(answers, r, w)|);
    hide IsRun, AtOnce, MostUpTo, QueriesUpTo;
  }

  lemma {:induction false} MostUpToIsMost(
      run: Run, answers: Answers, r: Request, w: Times, complete: bool, now: int, n: nat)
    requires IsRun(run, answers, r, complete) && AtOnce(run, now)
    requires w == Applied(r.cursors, run.called) && n <= |run.arrivals|
    ensures QueriesUpTo(run, n) <= MostUpTo(answers, r, w, now, n)
    decreases run, n
  {
    hide *;
    if n > 0 {
      var a, last := run.arrivals[n - 1], complete && n == |Parts(answers, r, w)|;
      ArrivalIs(run, answers, r, complete, n - 1);
      ArrivalAtOnce(run, now, n - 1);
      MostUpToIsMost(run, answers, r, w, complete, now, n - 1);
      QueriesOneMore(run, n);
      LastOfMost(answers, r, w, now, n);
      if a.nested.Some? {
        var next := NestedRequest(a, answers, r, w, n - 1, last);
        MostIsMost(a.nested.value, answers, next, last, now);
      }
    } else {
      NoneOfMost(answers, r, w, now);
      NoQueries(run);
    }
  }

  lemma ArrivalAtOnce(run: Run, now: int, i: nat)
    requires AtOnce(run, now) && i < |run.arrivals|
    ensures var a := run.arrivals[i]; a.now == now && (a.nested.Some? ==> AtOnce(a.nested.value, now))
  {
  }

  lemma {:induction false} MostGrows(answers: Answers, r: Request, w: Times, now: int, i: nat, n: nat)
    requires i <= n
    ensures MostUpTo(answers, r, w, now, i) <= MostUpTo(answers, r, w, now, n)
    decreases n
  {
    hide Nested, Most;
    if i < n { MostGrows(answers, r, w, now, i, n - 1); }
  }

  /** The run in which nothing is cut off is complete and makes exactly that many queries. */
  lemma UncutMakesMost(answers: Answers, r: Request, now: int)
    requires now > 0
    ensures var run := Uncut(answers, r, now, false);
            IsRun(run, answers, r, true) && AtOnce(run, now) && Queries(run) == Most(answers, r, now)
  {
    var w := Applied(r.cursors, now);
    UncutIsRun(answers, r, now, false);
    UncutIsAtOnce(answers, r, w, now, |Parts(answers, r, w)|);
    UncutCounts(answers, r, w, now, |Parts(answers, r, w)|);
    hide UncutUpTo, IsRun, AtOnce, QueriesUpTo, MostUpTo, Applied;
  }

  lemma {:induction false} UncutCounts(answers: Answers, r: Request, w: Times, now: int, n: nat)
    ensures QueriesUpTo(UncutUpTo(answers, r, w, now, false, n), n) == MostUpTo(answers, r, w, now, n)
    decreases Levels(r), n
  {
    hide *;
    if n > 0 {
      UncutCounts(answers, r, w, now, n - 1);
      var run, a := LastUncut(answers, r, w, now, false, n);
      LastOfMost(answers, r, w, now, n);
      ExtendedCounts(run, a);
      var next := Nested(answers, r, w, n - 1, now);
      if next.Some? {
        var v := Applied(next.value.cursors, now);
        UncutCounts(answers, next.value, v, now, |Parts(answers, next.value, v)|);
        MostIs(answers, next.value, now);
        UncutIs(answers, next.value, now, false);
        QueriesIs(a.nested.value);
      }
    } else {
      NoneOfMost(answers, r, w, now);
      NoQueries(UncutUpTo(answers, r, w, now, false, 0));
    }
  }

  lemma MostIs(answers: Answers, r: Request, now: int)
    ensures var w := Applied(r.cursors, now);
            Most(answers, r, now) == 1 + MostUpTo(answers, r, w, now, |Parts(answers, r, w)|)
  {
    hide MostUpTo;
  }

  lemma ExtendedCounts(run: Run, a: Arrival)
    ensures var longer, n := Extended(run, a), |run.arrivals|;
            && |longer.arrivals| == n + 1
            && QueriesUpTo(longer, n + 1)
               == QueriesUpTo(run, n) + if a.nested.Some? then Queries(a.nested.value) else 0
  {
    ExtendedPrefix(run, a, |run.arrivals|);
    QueriesOneMore(Extended(run, a), |run.arrivals| + 1);
    hide QueriesUpTo, Queries, Until;
  }

  /** One query for each level that the depth allows for. */
  function LevelBound(r: Request): nat {
    Left(r.depth, r.maxDepth) + 1
  }

  /** No run at one instant makes more queries than there are levels if and only if the uncut one does not. */
  lemma LevelBoundHoldsIff(answers: Answers, r: Request, now: int)
    requires now > 0
    ensures (forall run :: IsRun(run, answers, r, true) && AtOnce(run, now) ==> Queries(run) <= LevelBound(r))
            <==> Most(answers, r, now) <= LevelBound(r)
  {
    UncutMakesMost(answers, r, now);
    var full := Uncut(answers, r, now, false);
    hide IsRun, AtOnce, Queries, Most, Uncut, LevelBound;
    assert IsRun(full, answers, r, true) && AtOnce(full, now) && Queries(full) == Most(answers, r, now);
    forall run | IsRun(run, answers, r, true) && AtOnce(run, now) ensures Queries(run) <= Most(answers, r, now) {
      MostIsMost(run, answers, r, true, now);
    }
  }

  // ----- the windows on the way to the answer

  function Instant(now: int): Clock {
    (d: nat) => Reading(now, now)
  }

  /** The windows on the way to the answer, when every window has answered completely. */
  function Way(answers: Answers, r: Request, clock: Clock): seq<Times> {
    Windows(Complete(answers), r.cursors, r.minItems, r.depth, r.maxDepth, r.direction, clock)
  }

  /** The answer, when every window has answered completely. */
  function Answer(answers: Answers, r: Request, clock: Clock): Timeline {
    Widen(Complete(answers), r.cursors, r.minItems, r.depth, r.maxDepth, r.direction, clock)
  }

  /** Whichever partial result i it is that leads on. */
  lemma WayIs(answers: Answers, r: Request, clock: Clock, i: nat)
    ensures var w := Applied(r.cursors, clock(r.depth).called);
            Way(answers, r, clock)
            == match Following(r, w, i, |Fetch(Complete(answers), w)|, clock(r.depth).answered)
               case None => [w]
               case Some(next) => [w] + Way(answers, next, clock)
  {
    hide Fetch, NextWindow;
  }

  lemma AnswerIs(answers: Answers, r: Request, clock: Clock, i: nat)
    ensures var w := Applied(r.cursors, clock(r.depth).called);
            var entries := Fetch(Complete(answers), w);
            Answer(answers, r, clock)
            == match Following(r, w, i, |entries|, clock(r.depth).answered)
               case None => Timeline(w.0, w.1, entries)
               case Some(next) => Joined(w, entries, Answer(answers, next, clock), r.direction)
  {
    hide Fetch, NextWindow, Joined;
  }

  lemma LastShown(answers: Answers, r: Request, w: Times)
    requires Settled(answers) && Parts(answers, r, w) != []
    ensures var i := |Parts(answers, r, w)| - 1;
            && Shown(answers, r, w, i) == Fetch(Complete(answers), w)
            && forall now :: Nested(answers, r, w, i, now) == Following(r, w, i, |Fetch(Complete(answers), w)|, now)
  {
    hide UniqueNewestFirst, Following;
    assert Final(answers(w, r.path)) == Complete(answers)(w);
  }

  /** Single answers: then the windows queried are exactly those on the way to the answer. */
  lemma {:induction false} SingleAnswers(answers: Answers, r: Request, now: int)
    requires EmitsAtMost(answers, 1) && Settled(answers)
    ensures Most(answers, r, now) == |Way(answers, r, Instant(now))|
    decreases Levels(r)
  {
    var w := Applied(r.cursors, now);
    WayIs(answers, r, Instant(now), 0);
    assert |answers(w, r.path)| == 1;
    LastShown(answers, r, w);
    MostOfOne(answers, r, w, now);
    var next := Nested(answers, r, w, 0, now);
    hide Following, Fetch, Nested, Way, MostUpTo;
    if next.Some? {
      SingleAnswers(answers, next.value, now);
    }
  }

  lemma MostOfOne(answers: Answers, r: Request, w: Times, now: int)
    ensures MostUpTo(answers, r, w, now, 0) == 0
    ensures MostUpTo(answers, r, w, now, 1)
            == match Nested(answers, r, w, 0, now)
               case None => 0
               case Some(next) => Most(answers, next, now)
  {
    hide Nested, Most;
  }

  // ----- cumulative partial results

  /** A later partial result has every key that an earlier one had. */
  ghost predicate Cumulative(answers: Answers) {
    forall w: Times, path: Path :: Growing(answers(w, path))
  }

  ghost predicate Growing(partials: seq<seq<Entry>>) {
    forall i, j :: 0 <= i < j < |partials| ==> Ids(partials[i]) <= Ids(partials[j])
  }

  lemma {:induction false} IdsOfUnique(m: seq<Entry>)
    requires IdsUnique(m)
    ensures |Ids(m)| == |m|
  {
    if m != [] {
      var init, x := m[..|m| - 1], m[|m| - 1];
      assert m == init + [x];
      IdsOfUnique(init);
      assert Ids(m) == Ids(init) + {Id(x)};
      assert Id(x) !in Ids(init) by {
        forall y | y in init ensures Id(y) != Id(x) {
          var i :| 0 <= i < |init| && init[i] == y;
          assert m[i] == y;
        }
      }
    }
  }

  lemma SubsetIsSmaller<T>(a: set<T>, b: set<T>)
    requires a <= b
    ensures |a| <= |b|
  {
    assert b == a + (b - a);
  }

  /** So it is at least as long. */
  lemma ShownGrows(answers: Answers, r: Request, w: Times, i: nat, j: nat)
    requires Cumulative(answers) && i <= j < |Parts(answers, r, w)|
    ensures |Shown(answers, r, w, i)| <= |Shown(answers, r, w, j)|
  {
    var parts := Parts(answers, r, w);
    UniqueNewestFirstIs(parts[i]);
    UniqueNewestFirstIs(parts[j]);
    IdsOfUnique(Shown(answers, r, w, i));
    IdsOfUnique(Shown(answers, r, w, j));
    hide UniqueNewestFirst, IdsUnique;
    assert Growing(answers(w, r.path));
    if i < j { SubsetIsSmaller(Ids(parts[i]), Ids(parts[j])); }
  }

  lemma FollowingNeedsRoom(r: Request, w: Times, i: nat, count: nat, j: nat, more: nat, now: int)
    requires count <= more
    ensures Following(r, w, j, more, now).Some? ==> Following(r, w, i, count, now).Some?
  {
    hide NextWindow;
  }

  /** Nothing follows: then nothing is asked again. */
  lemma {:induction false} NothingFollows(answers: Answers, r: Request, w: Times, now: int, n: nat)
    requires forall i: nat :: i < n ==> Nested(answers, r, w, i, now).None?
    ensures MostUpTo(answers, r, w, now, n) == 0
  {
    hide Nested;
    if n > 0 { NothingFollows(answers, r, w, now, n - 1); }
  }

  lemma MostAtLeastOne(answers: Answers, r: Request, now: int)
    ensures Most(answers, r, now) >= 1
  {
    hide MostUpTo;
  }

  /** A run that is not cut off makes at least the queries on the way to the answer. */
  lemma {:induction false} MostCoversWay(answers: Answers, r: Request, now: int)
    requires Emits(answers) && Settled(answers)
    ensures 1 <= |Way(answers, r, Instant(now))| <= Most(answers, r, now)
    decreases Levels(r)
  {
    var w := Applied(r.cursors, now);
    var n := |Parts(answers, r, w)|;
    assert answers(w, r.path) != [];
    WayIs(answers, r, Instant(now), n - 1);
    LastShown(answers, r, w);
    LastOfMost(answers, r, w, now, n);
    MostIs(answers, r, now);
    var next := Nested(answers, r, w, n - 1, now);
    hide Following, Nested, Fetch, Way, Most, MostUpTo, Emits, Settled;
    if next.Some? {
      MostCoversWay(answers, next.value, now);
    }
  }

  /** If the first partial result is enough, so are the others, and there is one query. */
  lemma FirstIsEnough(answers: Answers, r: Request, now: int)
    requires Cumulative(answers) && Emits(answers) && Settled(answers)
    requires Nested(answers, r, Applied(r.cursors, now), 0, now).None?
    ensures Most(answers, r, now) == |Way(answers, r, Instant(now))| == 1
  {
    hide Following, Shown, Fetch, Way, MostUpTo, Cumulative, NextWindow, Complete, Settled;
    var w := Applied(r.cursors, now);
    var n := |Parts(answers, r, w)|;
    assert n >= 1 by { assert answers(w, r.path) != []; }
    WayIs(answers, r, Instant(now), n - 1);
    LastShown(answers, r, w);
    forall i: nat | i < n ensures Nested(answers, r, w, i, now).None? {
      ShownGrows(answers, r, w, 0, i);
      FollowingNeedsRoom(r, w, 0, |Shown(answers, r, w, 0)|, i, |Shown(answers, r, w, i)|, now);
    }
    NothingFollows(answers, r, w, now, n);
  }

  /** If it is not, the next window is queried for it and, if need be, again for the last one. */
  lemma FirstIsTooShort(answers: Answers, r: Request, now: int)
    requires Emits(answers) && Settled(answers)
    requires var w := Applied(r.cursors, now);
             |Parts(answers, r, w)| >= 2 && Nested(answers, r, w, 0, now).Some?
    ensures Most(answers, r, now) > |Way(answers, r, Instant(now))|
  {
    assert Instant(now)(r.depth) == Reading(now, now);
    hide *;
    var w := Applied(r.cursors, now);
    var n := |Parts(answers, r, w)|;
    var first, last := Nested(answers, r, w, 0, now), Nested(answers, r, w, n - 1, now);
    LastShown(answers, r, w);
    WayIs(answers, r, Instant(now), n - 1);
    MostAtLeastOne(answers, first.value, now);
    MostOfOne(answers, r, w, now);
    MostGrows(answers, r, w, now, 1, n - 1);
    MostIs(answers, r, now);
    if last.Some? {
      MostCoversWay(answers, last.value, now);
    }
    LastOfMost(answers, r, w, now, n);
  }

  /**
   * With cumulative results in two or more parts, no run at one instant makes more queries than there are
   * windows on the way to its answer if and only if the first partial result of the first window asks for
   * no more.
   */
  lemma OneQueryPerWindowIff(answers: Answers, r: Request, now: int)
    requires now > 0 && Cumulative(answers) && Settled(answers)
    requires forall w: Times, path: Path :: |answers(w, path)| >= 2
    ensures (forall run :: IsRun(run, answers, r, true) && AtOnce(run, now)
                           ==> Queries(run) <= |Way(answers, r, Instant(now))|)
            <==> Nested(answers, r, Applied(r.cursors, now), 0, now).None?
  {
    var w := Applied(r.cursors, now);
    assert |Parts(answers, r, w)| >= 2;
    assert Emits(answers) by {
      forall v: Times, path: Path ensures answers(v, path) != [] { assert |answers(v, path)| >= 2; }
    }
    hide *;
    UncutMakesMost(answers, r, now);
    var full := Uncut(answers, r, now, false);
    assert IsRun(full, answers, r, true) && AtOnce(full, now) && Queries(full) == Most(answers, r, now);
    if Nested(answers, r, w, 0, now).None? {
      FirstIsEnough(answers, r, now);
      forall run | IsRun(run, answers, r, true) && AtOnce(run, now)
        ensures Queries(run) <= |Way(answers, r, Instant(now))|
      {
        MostIsMost(run, answers, r, true, now);
      }
    } else {
      FirstIsTooShort(answers, r, now);
    }
  }

  // ----- silent windows

  /** Windows without entries that answer in m parts. */
  function Silent(m: nat): Answers {
    (w: Times, path: Path) => seq(m, _ => [])
  }

  lemma NothingShown(m: nat, r: Request, w: Times, i: nat)
    ensures |Parts(Silent(m), r, w)| == m && Shown(Silent(m), r, w, i) == []
    ensures forall now :: Nested(Silent(m), r, w, i, now) == Following(r, w, i, 0, now)
  {
    hide Following;
  }

  /** How many levels an instant leaves to ask for, when none of them finds anything. */
  function Ahead(r: Request, now: int): (n: nat)
    ensures n <= Levels(r)
    decreases Levels(r)
  {
    match Following(r, Applied(r.cursors, now), 0, 0, now)
    case None => 0
    case Some(next) => 1 + Ahead(next, now)
  }

  /** How many entries are asked for does not matter, as long as there are some. */
  lemma {:induction false} SameAhead(a: Request, b: Request, now: int)
    requires a.cursors == b.cursors && a.depth == b.depth && a.maxDepth == b.maxDepth && a.direction == b.direction
    requires a.minItems > 0 && b.minItems > 0
    ensures Ahead(a, now) == Ahead(b, now)
    decreases Levels(a)
  {
    hide NextWindow;
    var w := Applied(a.cursors, now);
    var next := Following(a, w, 0, 0, now);
    if next.Some? {
      SameAhead(next.value, Following(b, w, 0, 0, now).value, now);
    }
  }

  lemma AheadOfNested(r: Request, w: Times, i: nat, count: nat, now: int)
    requires w == Applied(r.cursors, now)
    ensures match Following(r, w, i, count, now)
            case None => true
            case Some(next) => Ahead(r, now) == Ahead(next, now) + 1
    ensures Following(r, w, i, 0, now).None? <==> Ahead(r, now) == 0
  {
    hide NextWindow, Applied;
    FollowingNeedsRoom(r, w, 0, 0, i, count, now);
    FollowingNeedsRoom(r, w, 0, 0, i, 0, now);
    FollowingNeedsRoom(r, w, i, 0, 0, 0, now);
    var next := Following(r, w, i, count, now);
    if next.Some? {
      SameAhead(next.value, Following(r, w, 0, 0, now).value, now);
    }
  }

  /** An older request can always go further back. */
  lemma {:induction false} OlderAhead(r: Request, now: int)
    requires r.direction.Older?
    ensures Ahead(r, now) == Levels(r)
    decreases Levels(r)
  {
    var next := Following(r, Applied(r.cursors, now), 0, 0, now);
    if next.Some? { OlderAhead(next.value, now); }
  }

  function Each(m: nat, n: nat): nat {
    if n == 0 then 0 else Geometric(m, n - 1)
  }

  lemma GeometricEach(m: nat, n: nat)
    ensures Geometric(m, n) == 1 + m * Each(m, n)
  {
  }

  /** With nothing to find, the bound for the levels that are left to ask for is reached. */
  lemma {:induction false} SilentWindows(m: nat, r: Request, now: int)
    ensures Most(Silent(m), r, now) == Geometric(m, Ahead(r, now))
    decreases Levels(r), 1, 0
  {
    hide *;
    var w := Applied(r.cursors, now);
    SilentUpTo(m, r, w, now, m);
    GeometricEach(m, Ahead(r, now));
    NothingShown(m, r, w, 0);
    MostIs(Silent(m), r, now);
  }

  lemma {:induction false} SilentUpTo(m: nat, r: Request, w: Times, now: int, n: nat)
    requires w == Applied(r.cursors, now)
    ensures MostUpTo(Silent(m), r, w, now, n) == n * Each(m, Ahead(r, now))
    decreases Levels(r), 0, n
  {
    hide *;
    if n > 0 {
      SilentUpTo(m, r, w, now, n - 1);
      NothingShown(m, r, w, n - 1);
      AheadOfNested(r, w, n - 1, 0, now);
      LastOfMost(Silent(m), r, w, now, n);
      OneMoreProduct(n, Each(m, Ahead(r, now)));
      EachIs(m, Ahead(r, now));
      var next := Following(r, w, n - 1, 0, now);
      if next.Some? { SilentWindows(m, next.value, now); }
    } else {
      NoneOfMost(Silent(m), r, w, now);
    }
  }

  lemma EachIs(m: nat, n: nat)
    ensures Each(m, n) == if n == 0 then 0 else Geometric(m, n - 1)
  {
  }

  /** No source that answers in at most m parts makes for more. */
  lemma {:induction false} MostIsBelow(answers: Answers, m: nat, r: Request, now: int)
    requires EmitsAtMost(answers, m)
    ensures Most(answers, r, now) <= Geometric(m, Ahead(r, now))
    decreases Levels(r), 1, 0
  {
    var w := Applied(r.cursors, now);
    var n := |Parts(answers, r, w)|;
    assert n == |answers(w, r.path)| <= m;
    hide *;
    MostUpToIsBelow(answers, m, r, w, now, n);
    GeometricEach(m, Ahead(r, now));
    MulMonotone(n, m, Each(m, Ahead(r, now)));
    MostIs(answers, r, now);
  }

  lemma {:induction false} MostUpToIsBelow(answers: Answers, m: nat, r: Request, w: Times, now: int, n: nat)
    requires EmitsAtMost(answers, m) && w == Applied(r.cursors, now)
    ensures MostUpTo(answers, r, w, now, n) <= n * Each(m, Ahead(r, now))
    decreases Levels(r), 0, n
  {
    hide *;
    if n > 0 {
      MostUpToIsBelow(answers, m, r, w, now, n - 1);
      NestedIs(answers, r, w, n - 1, now);
      AheadOfNested(r, w, n - 1, |Shown(answers, r, w, n - 1)|, now);
      LastOfMost(answers, r, w, now, n);
      OneMoreProduct(n, Each(m, Ahead(r, now)));
      EachIs(m, Ahead(r, now));
      var next := Nested(answers, r, w, n - 1, now);
      if next.Some? { MostIsBelow(answers, m, next.value, now); }
    } else {
      NoneOfMost(answers, r, w, now);
    }
  }

  lemma NestedIs(answers: Answers, r: Request, w: Times, i: nat, now: int)
    ensures Nested(answers, r, w, i, now) == Following(r, w, i, |Shown(answers, r, w, i)|, now)
  {
    hide Following, Shown;
  }

  lemma {:induction false} GeometricExceeds(m: nat, n: nat)
    ensures m <= 1 ==> Geometric(m, n) <= n + 1
    ensures m >= 1 ==> Geometric(m, n) >= n + 1
    ensures m >= 2 && n >= 1 ==> Geometric(m, n) > n + 1
  {
    if n > 0 {
      GeometricExceeds(m, n - 1);
      var g := Geometric(m, n - 1);
      if m <= 1 { MulMonotone(m, 1, g); } else { MulMonotone(2, m, g); }
    }
  }

  /**
   * Among all sources that answer in at most m parts, the bound of one query for each level holds for the
   * runs at one instant if and only if it holds for the full tree over the levels left to ask for then.
   */
  lemma LevelBoundAtOnceIff(m: nat, r: Request, now: int)
    requires now > 0
    ensures (forall answers: Answers, run ::
               EmitsAtMost(answers, m) && IsRun(run, answers, r, true) && AtOnce(run, now)
               ==> Queries(run) <= LevelBound(r))
            <==> Geometric(m, Ahead(r, now)) <= LevelBound(r)
  {
    assert Ahead(r, now) + 1 <= LevelBound(r);
    assert m >= 1 ==> EmitsAtMost(Silent(m), m);
    hide *;
    GeometricExceeds(m, Ahead(r, now));
    if Geometric(m, Ahead(r, now)) <= LevelBound(r) {
      forall answers: Answers, run | EmitsAtMost(answers, m) && IsRun(run, answers, r, true) && AtOnce(run, now)
        ensures Queries(run) <= LevelBound(r)
      {
        MostIsMost(run, answers, r, true, now);
        MostIsBelow(answers, m, r, now);
      }
    } else {
      UncutMakesMost(Silent(m), r, now);
      SilentWindows(m, r, now);
      var run := Uncut(Silent(m), r, now, false);
      assert EmitsAtMost(Silent(m), m) && IsRun(run, Silent(m), r, true) && AtOnce(run, now);
    }
  }

  // ----- silent windows and all the time in the world

  /** When the present is far enough ahead there is always a window left to ask for. */
  lemma PatientFollows(r: Request, w: Times, i: nat, now: int)
    requires now > w.1 + DAY
    ensures Following(r, w, i, 0, now).Some? <==> Levels(r) > 0
  {
    hide Pow2;
  }

  lemma {:induction false} PatientCounts(m: nat, r: Request, called: int)
    ensures Queries(Uncut(Silent(m), r, called, true)) == Geometric(m, Levels(r))
    decreases Levels(r), 1, 0
  {
    hide *;
    var w := Applied(r.cursors, called);
    PatientUpToCounts(m, r, w, called, m);
    GeometricEach(m, Levels(r));
    NothingShown(m, r, w, 0);
    UncutIs(Silent(m), r, called, true);
    QueriesIs(Uncut(Silent(m), r, called, true));
  }

  lemma {:induction false} PatientUpToCounts(m: nat, r: Request, w: Times, called: int, n: nat)
    ensures QueriesUpTo(UncutUpTo(Silent(m), r, w, called, true, n), n) == n * Each(m, Levels(r))
    decreases Levels(r), 0, n
  {
    hide *;
    if n > 0 {
      PatientUpToCounts(m, r, w, called, n - 1);
      var run, a := LastUncut(Silent(m), r, w, called, true, n);
      MaxIs(Until(run, n - 1), w.1 + DAY + 1);
      PatientFollows(r, w, n - 1, a.now);
      NothingShown(m, r, w, n - 1);
      ExtendedCounts(run, a);
      OneMoreProduct(n, Each(m, Levels(r)));
      EachIs(m, Levels(r));
      if a.nested.Some? {
        PatientCounts(m, Following(r, w, n - 1, 0, a.now).value, a.now);
      }
    } else {
      NoQueries(UncutUpTo(Silent(m), r, w, called, true, 0));
    }
  }

  /**
   * Over all runs, at whatever times, of all sources that answer in at most m parts, the bound of one query
   * for each level holds if and only if m is at most 1, no level may follow, or no entries are asked for.
   */
  lemma LevelBoundForAllIff(m: nat, r: Request)
    ensures (forall answers: Answers, run :: EmitsAtMost(answers, m) && IsRun(run, answers, r, true)
                                             ==> Queries(run) <= LevelBound(r))
            <==> m <= 1 || r.depth >= r.maxDepth || r.minItems <= 0
  {
    assert Levels(r) + 1 <= LevelBound(r) && (Levels(r) > 0 ==> Levels(r) + 1 == LevelBound(r));
    assert Levels(r) == 0 <==> r.depth >= r.maxDepth || r.minItems <= 0;
    assert m >= 1 ==> EmitsAtMost(Silent(m), m);
    hide *;
    GeometricExceeds(m, Levels(r));
    GeometricIs(m, 0);
    if m <= 1 || Levels(r) == 0 {
      forall answers: Answers, run | EmitsAtMost(answers, m) && IsRun(run, answers, r, true)
        ensures Queries(run) <= LevelBound(r)
      {
        QueriesAreBounded(run, answers, r, true, m);
      }
    } else {
      UncutIsRun(Silent(m), r, 1, true);
      PatientCounts(m, r, 1);
      assert EmitsAtMost(Silent(m), m) && IsRun(Uncut(Silent(m), r, 1, true), Silent(m), r, true);
    }
  }

  // ----- windows asked for again

  /** The windows a run queries, in order. */
  function Asked(run: Run, answers: Answers, r: Request): seq<Times>
    decreases run, |run.arrivals| + 1
  {
    var w := Applied(r.cursors, run.called);
    [w] + AskedUpTo(run, answers, r, w, |run.arrivals|)
  }

  function AskedUpTo(run: Run, answers: Answers, r: Request, w: Times, n: nat): seq<Times>
    requires n <= |run.arrivals|
    decreases run, n
  {
    if n == 0 then []
    else
      AskedUpTo(run, answers, r, w, n - 1)
      + match (run.arrivals[n - 1].nested, Nested(answers, r, w, n - 1, run.arrivals[n - 1].now))
        case (Some(nested), Some(next)) => Asked(nested, answers, next)
        case _ => []
  }

  lemma {:induction false} AskedGrows(run: Run, answers: Answers, r: Request, w: Times, i: nat, n: nat)
    requires i <= n <= |run.arrivals|
    ensures AskedUpTo(run, answers, r, w, i) <= AskedUpTo(run, answers, r, w, n)
    decreases n
  {
    hide Nested, Asked;
    if i < n { AskedGrows(run, answers, r, w, i, n - 1); }
  }

  /** Where the window that partial result i asks for comes in the order. */
  lemma AskedAt(run: Run, answers: Answers, r: Request, w: Times, i: nat, next: Request)
    requires i < |run.arrivals| && run.arrivals[i].nested.Some?
    requires Nested(answers, r, w, i, run.arrivals[i].now) == Some(next)
    ensures var before, after := AskedUpTo(run, answers, r, w, i), AskedUpTo(run, answers, r, w, i + 1);
            |after| > |before| && after[|before|] == Applied(next.cursors, run.arrivals[i].nested.value.called)
  {
    hide Nested;
    assert Asked(run.arrivals[i].nested.value, answers, next)[0]
           == Applied(next.cursors, run.arrivals[i].nested.value.called);
  }

  /** If two partial results of a window are too short, the uncut run asks for the next window twice. */
  lemma AskedAgain(answers: Answers, r: Request, now: int, i: nat, j: nat)
    requires var w := Applied(r.cursors, now);
             && i < j < |Parts(answers, r, w)|
             && Nested(answers, r, w, i, now).Some? && Nested(answers, r, w, j, now).Some?
    ensures var asked := Asked(Uncut(answers, r, now, false), answers, r);
            exists p, q :: 0 <= p < q < |asked| && asked[p] == asked[q]
  {
    var run, w := Uncut(answers, r, now, false), Applied(r.cursors, now);
    var a, b := Nested(answers, r, w, i, now).value, Nested(answers, r, w, j, now).value;
    assert a.cursors == b.cursors;
    hide *;
    var n := |Parts(answers, r, w)|;
    UncutIs(answers, r, now, false);
    UncutAt(answers, r, w, now, i, n);
    UncutAt(answers, r, w, now, j, n);
    UncutIs(answers, a, now, false);
    UncutIs(answers, b, now, false);
    AskedTwice(run, answers, r, w, i, a, j, b);
  }

  lemma {:induction false} UncutAt(answers: Answers, r: Request, w: Times, now: int, i: nat, n: nat)
    requires i < n
    ensures UncutUpTo(answers, r, w, now, false, n).arrivals[i]
            == Arrival(now, match Nested(answers, r, w, i, now)
                            case None => None
                            case Some(next) => Some(Uncut(answers, next, now, false)))
    decreases n
  {
    hide *;
    var run, a := LastUncut(answers, r, w, now, false, n);
    if i < n - 1 { UncutAt(answers, r, w, now, i, n - 1); }
    ExtendedAt(run, a);
  }

  lemma ExtendedAt(run: Run, a: Arrival)
    ensures Extended(run, a).arrivals == run.arrivals + [a]
  {
  }

  lemma AskedTwice(run: Run, answers: Answers, r: Request, w: Times, i: nat, a: Request, j: nat, b: Request)
    requires i < j < |run.arrivals| && w == Applied(r.cursors, run.called)
    requires run.arrivals[i].nested.Some? && Nested(answers, r, w, i, run.arrivals[i].now) == Some(a)
    requires run.arrivals[j].nested.Some? && Nested(answers, r, w, j, run.arrivals[j].now) == Some(b)
    requires Applied(a.cursors, run.arrivals[i].nested.value.called)
             == Applied(b.cursors, run.arrivals[j].nested.value.called)
    ensures var asked := Asked(run, answers, r);
            exists p, q :: 0 <= p < q < |asked| && asked[p] == asked[q]
  {
    hide *;
    var n := |run.arrivals|;
    var asked, all := Asked(run, answers, r), AskedUpTo(run, answers, r, w, n);
    AskedIs(run, answers, r);
    var p, q := |AskedUpTo(run, answers, r, w, i)|, |AskedUpTo(run, answers, r, w, j)|;
    AskedInAll(run, answers, r, w, i, a);
    AskedInAll(run, answers, r, w, j, b);
    AskedGrows(run, answers, r, w, i + 1, j);
    AskedAt(run, answers, r, w, i, a);
    assert p < q;
    assert asked[1 + p] == all[p] && asked[1 + q] == all[q];
  }

  lemma AskedIs(run: Run, answers: Answers, r: Request)
    ensures var w := Applied(r.cursors, run.called);
            Asked(run, answers, r) == [w] + AskedUpTo(run, answers, r, w, |run.arrivals|)
  {
    hide AskedUpTo;
  }

  lemma AskedInAll(run: Run, answers: Answers, r: Request, w: Times, i: nat, next: Request)
    requires i < |run.arrivals| && run.arrivals[i].nested.Some?
    requires Nested(answers, r, w, i, run.arrivals[i].now) == Some(next)
    ensures var all, p := AskedUpTo(run, answers, r, w, |run.arrivals|), |AskedUpTo(run, answers, r, w, i)|;
            p < |all| && all[p] == Applied(next.cursors, run.arrivals[i].nested.value.called)
  {
    hide *;
    AskedAt(run, answers, r, w, i, next);
    AskedGrows(run, answers, r, w, i + 1, |run.arrivals|);
  }

  // ----- what the stream emits, and its last answer

  function JoinEach(w: Times, entries: seq<Entry>, rs: seq<Timeline>, direction: Direction): (js: seq<Timeline>)
    ensures |js| == |rs|
  {
    seq(|rs|, k requires 0 <= k < |rs| => Joined(w, entries, rs[k], direction))
  }

  /** The answers that come out of a run, in order. */
  function Stream(run: Run, answers: Answers, r: Request): seq<Timeline>
    decreases run, |run.arrivals| + 1
  {
    StreamUpTo(run, answers, r, Applied(r.cursors, run.called), |run.arrivals|)
  }

  function StreamUpTo(run: Run, answers: Answers, r: Request, w: Times, n: nat): seq<Timeline>
    requires n <= |run.arrivals|
    decreases run, n
  {
    if n == 0 then []
    else
      var entries := Shown(answers, r, w, n - 1);
      StreamUpTo(run, answers, r, w, n - 1)
      + match (run.arrivals[n - 1].nested, Nested(answers, r, w, n - 1, run.arrivals[n - 1].now))
        case (Some(nested), Some(next)) => JoinEach(w, entries, Stream(nested, answers, next), r.direction)
        case _ => [Timeline(w.0, w.1, entries)]
  }

  /** The times of the last request of each level, which is the one that was not cut off. */
  function ChainAt(run: Run, depth: nat, d: nat): Reading
    decreases run
  {
    if d < depth || run.arrivals == [] then Reading(run.called, run.called)
    else
      var last := run.arrivals[|run.arrivals| - 1];
      if d == depth then Reading(run.called, last.now)
      else if last.nested.None? then Reading(last.now, last.now)
      else ChainAt(last.nested.value, depth + 1, d)
  }

  function ChainClock(run: Run, depth: nat): Clock {
    (d: nat) => ChainAt(run, depth, d)
  }

  /** The last arrival of a run, and the request it nests. */
  lemma LastArrival(run: Run, answers: Answers, r: Request, complete: bool) returns (next: Request, whole: bool)
    requires IsRun(run, answers, r, complete) && run.arrivals != []
    ensures var last := run.arrivals[|run.arrivals| - 1];
            && run.called <= last.now
            && (last.nested.Some? ==>
                  && last.now <= last.nested.value.called
                  && next.depth == r.depth + 1 && IsRun(last.nested.value, answers, next, whole))
  {
    hide *;
    var n, w := |run.arrivals|, Applied(r.cursors, run.called);
    var last := run.arrivals[n - 1];
    whole := complete && n == |Parts(answers, r, w)|;
    ArrivalIs(run, answers, r, complete, n - 1);
    UntilIsLater(run, answers, r, complete, n);
    if last.nested.Some? {
      next := NestedRequest(last, answers, r, w, n - 1, whole);
    } else {
      next := r;
    }
  }

  lemma ChainAtIs(run: Run, depth: nat, d: nat)
    ensures ChainAt(run, depth, d)
            == if d < depth || run.arrivals == [] then Reading(run.called, run.called)
               else
                 var last := run.arrivals[|run.arrivals| - 1];
                 if d == depth then Reading(run.called, last.now)
                 else if last.nested.None? then Reading(last.now, last.now)
                 else ChainAt(last.nested.value, depth + 1, d)
  {
  }

  lemma {:induction false} ChainOrder(run: Run, answers: Answers, r: Request, complete: bool, d: nat, e: nat)
    requires IsRun(run, answers, r, complete)
    ensures run.called <= ChainAt(run, r.depth, d).called <= ChainAt(run, r.depth, d).answered
    ensures d < e ==> ChainAt(run, r.depth, d).answered <= ChainAt(run, r.depth, e).called
    decreases run
  {
    hide *;
    ChainAtIs(run, r.depth, d);
    ChainAtIs(run, r.depth, e);
    if run.arrivals != [] {
      var last := run.arrivals[|run.arrivals| - 1];
      var next, whole := LastArrival(run, answers, r, complete);
      if last.nested.Some? {
        ChainOrder(last.nested.value, answers, next, whole, d, e);
        ChainOrder(last.nested.value, answers, next, whole, e, d);
      }
    }
  }

  lemma ChainRuns(run: Run, answers: Answers, r: Request)
    requires IsRun(run, answers, r, true)
    ensures Runs(ChainClock(run, r.depth))
  {
    var clock := ChainClock(run, r.depth);
    forall d: nat, e: nat
      ensures 0 < clock(d).called <= clock(d).answered
      ensures d < e ==> clock(d).answered <= clock(e).called
    {
      ChainOrder(run, answers, r, true, d, e);
    }
  }

  /** An answer depends on the clock from its own level on. */
  lemma {:induction false} AnswerReads(answers: Answers, r: Request, a: Clock, b: Clock)
    requires forall d :: d >= r.depth ==> a(d) == b(d)
    ensures Answer(answers, r, a) == Answer(answers, r, b)
    decreases Levels(r)
  {
    var w := Applied(r.cursors, a(r.depth).called);
    AnswerIs(answers, r, a, 0);
    AnswerIs(answers, r, b, 0);
    var next := Following(r, w, 0, |Fetch(Complete(answers), w)|, a(r.depth).answered);
    if next.Some? {
      AnswerReads(answers, next.value, a, b);
    }
    hide Answer, Fetch, Following, Joined;
  }

  /**
   * However the partial results are ordered and timed and whatever is cut off, the last answer that comes
   * out is the one the complete results give, read at the times of the requests that were not cut off.
   */
  lemma {:induction false} LastIsAnswer(run: Run, answers: Answers, r: Request)
    requires Emits(answers) && Settled(answers) && IsRun(run, answers, r, true)
    ensures Runs(ChainClock(run, r.depth))
    ensures var stream := Stream(run, answers, r);
            stream != [] && stream[|stream| - 1] == Answer(answers, r, ChainClock(run, r.depth))
    decreases run
  {
    hide *;
    var n, w, clock := |run.arrivals|, Applied(r.cursors, run.called), ChainClock(run, r.depth);
    CompleteRun(run, answers, r);
    var last, entries := run.arrivals[n - 1], Shown(answers, r, w, n - 1);
    var next := Nested(answers, r, w, n - 1, last.now);
    ChainRuns(run, answers, r);
    LastShown(answers, r, w);
    AnswerIs(answers, r, clock, n - 1);
    LastOfStream(run, answers, r);
    if next.Some? {
      LastIsAnswer(last.nested.value, answers, next.value);
      AnswerReads(answers, next.value, clock, ChainClock(last.nested.value, next.value.depth));
    }
  }

  /** In a complete run the last partial result has arrived, and the request it nests is complete too. */
  lemma CompleteRun(run: Run, answers: Answers, r: Request)
    requires Emits(answers) && IsRun(run, answers, r, true)
    ensures var n, w, clock := |run.arrivals|, Applied(r.cursors, run.called), ChainClock(run, r.depth);
            && 0 < n == |Parts(answers, r, w)|
            && clock(r.depth) == Reading(run.called, run.arrivals[n - 1].now)
            && match Nested(answers, r, w, n - 1, run.arrivals[n - 1].now)
               case None => run.arrivals[n - 1].nested.None?
               case Some(next) =>
                 && run.arrivals[n - 1].nested.Some?
                 && var nested := run.arrivals[n - 1].nested.value;
                 && IsRun(nested, answers, next, true) && next.depth == r.depth + 1
                 && forall d: nat :: d >= next.depth ==> clock(d) == ChainClock(nested, next.depth)(d)
  {
    hide *;
    LastComplete(run, answers, r);
    var n, w, clock := |run.arrivals|, Applied(r.cursors, run.called), ChainClock(run, r.depth);
    var last := run.arrivals[n - 1];
    ChainClockIs(run, r.depth, r.depth);
    if last.nested.Some? {
      var next := NestedRequest(last, answers, r, w, n - 1, true);
      forall d: nat | d >= next.depth ensures clock(d) == ChainClock(last.nested.value, next.depth)(d) {
        ChainClockIs(run, r.depth, d);
        ChainClockIs(last.nested.value, next.depth, d);
      }
    }
  }

  lemma ChainClockIs(run: Run, depth: nat, d: nat)
    ensures ChainClock(run, depth)(d) == ChainAt(run, depth, d)
    ensures run.arrivals != [] && d >= depth ==>
              var last := run.arrivals[|run.arrivals| - 1];
              && (d == depth ==> ChainAt(run, depth, d) == Reading(run.called, last.now))
              && (d > depth && last.nested.Some? ==>
                    ChainAt(run, depth, d) == ChainAt(last.nested.value, depth + 1, d))
  {
  }

  lemma LastComplete(run: Run, answers: Answers, r: Request)
    requires Emits(answers) && IsRun(run, answers, r, true)
    ensures var n, w := |run.arrivals|, Applied(r.cursors, run.called);
            && 0 < n == |Parts(answers, r, w)|
            && IsArrival(run.arrivals[n - 1], answers, r, w, n - 1, true)
            && (run.arrivals[n - 1].nested.None? <==> Nested(answers, r, w, n - 1, run.arrivals[n - 1].now).None?)
  {
    assert answers(Applied(r.cursors, run.called), r.path) != [];
    hide Nested, Applied, Until;
  }

  /** The stream of a run ends as its last arrival does. */
  lemma LastOfStream(run: Run, answers: Answers, r: Request)
    requires run.arrivals != []
    ensures var n, w, stream := |run.arrivals|, Applied(r.cursors, run.called), Stream(run, answers, r);
            var entries := Shown(answers, r, w, n - 1);
            match (run.arrivals[n - 1].nested, Nested(answers, r, w, n - 1, run.arrivals[n - 1].now))
            case (Some(nested), Some(next)) =>
              var rest := Stream(nested, answers, next);
              rest != [] ==>
                stream != [] && stream[|stream| - 1] == Joined(w, entries, rest[|rest| - 1], r.direction)
            case _ => stream != [] && stream[|stream| - 1] == Timeline(w.0, w.1, entries)
  {
    hide Nested, Shown, Joined;
  }

  // ----- the four queries of a window

  datatype Part = Epochs | VotingHistory | Notes | DelegatorsHistory

  /** What the four queries give, and the claimed profile, which every partial result shows. */
  datatype Results = Results(
    epochs: seq<Entry>,
    votingHistory: seq<Entry>,
    notes: seq<Entry>,
    delegatorsHistory: seq<Entry>,
    claimed: seq<Entry>)

  function If(arrived: set<Part>, part: Part, entries: seq<Entry>): seq<Entry> {
    if part in arrived then entries else []
  }

  /** The entries once some of the queries have answered: always in the same order, whatever arrived first. */
  function Assembled(results: Results, arrived: set<Part>): seq<Entry> {
    If(arrived, Epochs, results.epochs) + If(arrived, VotingHistory, results.votingHistory)
    + If(arrived, Notes, results.notes) + If(arrived, DelegatorsHistory, results.delegatorsHistory) + results.claimed
  }

  function ArrivedUpTo(order: seq<Part>, n: nat): set<Part>
    requires n <= |order|
  {
    if n == 0 then {} else ArrivedUpTo(order, n - 1) + {order[n - 1]}
  }

  /** The results after each arrival, as `scan` and `map` emit them. */
  function Partials(results: Results, order: seq<Part>): seq<seq<Entry>> {
    seq(|order|, i requires 0 <= i < |order| => Assembled(results, ArrivedUpTo(order, i + 1)))
  }

  /**
   * Every query of a window gives the same four results, in an order of its own.
   */
  ghost predicate FourQueries(answers: Answers, results: Times -> Results, order: (Times, Path) -> seq<Part>) {
    forall w: Times, path: Path ::
      IsOrder(order(w, path)) && answers(w, path) == Partials(results(w), order(w, path))
  }

  /** Each of the four queries answers once, in any order. */
  ghost predicate IsOrder(order: seq<Part>) {
    |order| == 4 && Distinct(order)
  }

  lemma AllArrive(order: seq<Part>)
    requires IsOrder(order)
    ensures ArrivedUpTo(order, 4) == {Epochs, VotingHistory, Notes, DelegatorsHistory}
  {
    assert ArrivedUpTo(order, 1) == ArrivedUpTo(order, 0) + {order[0]};
    assert ArrivedUpTo(order, 2) == ArrivedUpTo(order, 1) + {order[1]};
    assert ArrivedUpTo(order, 3) == ArrivedUpTo(order, 2) + {order[2]};
    var arrived := ArrivedUpTo(order, 4);
    assert arrived == {order[0], order[1], order[2], order[3]};
    var all := {Epochs, VotingHistory, Notes, DelegatorsHistory};
    hide *;
    forall part ensures part in all {
      match part {
        case Epochs => case VotingHistory => case Notes => case DelegatorsHistory =>
      }
    }
    assert order[0] != order[1] && order[0] != order[2] && order[0] != order[3];
    assert order[1] != order[2] && order[1] != order[3] && order[2] != order[3];
    assert |{order[0], order[1], order[2], order[3]}| == 4;
    assert |all| == 4;
    SubsetOfSameSize(arrived, all);
  }

  lemma SubsetOfSameSize<T>(a: set<T>, b: set<T>)
    requires a <= b && |a| == |b|
    ensures a == b
  {
    assert b == a + (b - a);
  }

  lemma {:induction false} ArrivedGrows(order: seq<Part>, i: nat, j: nat)
    requires i <= j <= |order|
    ensures ArrivedUpTo(order, i) <= ArrivedUpTo(order, j)
    decreases j
  {
    if i < j { ArrivedGrows(order, i, j - 1); }
  }

  lemma AssembledGrows(results: Results, a: set<Part>, b: set<Part>)
    requires a <= b
    ensures Ids(Assembled(results, a)) <= Ids(Assembled(results, b))
  {
    forall x | x in Assembled(results, a) ensures x in Assembled(results, b) {}
  }

  function PartOf(results: Results, part: Part): seq<Entry> {
    match part
    case Epochs => results.epochs
    case VotingHistory => results.votingHistory
    case Notes => results.notes
    case DelegatorsHistory => results.delegatorsHistory
  }

  function All(results: Results): seq<Entry> {
    results.epochs + results.votingHistory + results.notes + results.delegatorsHistory + results.claimed
  }

  /** What the queries that have arrived gave, one after another, and the claimed profile. */
  function ShownParts(results: Results, arrived: seq<Part>): seq<Entry> {
    if arrived == [] then results.claimed
    else ShownParts(results, arrived[..|arrived| - 1]) + PartOf(results, arrived[|arrived| - 1])
  }

  lemma {:induction false} PartsShown(results: Results, order: seq<Part>, n: nat)
    requires n <= |order|
    ensures forall x :: x in ShownParts(results, order[..n]) <==> x in Assembled(results, ArrivedUpTo(order, n))
  {
    if n > 0 {
      PartsShown(results, order, n - 1);
      assert order[..n][..n - 1] == order[..n - 1];
      OnePartMore(results, ArrivedUpTo(order, n - 1), order[n - 1]);
      hide Assembled, PartOf;
    }
  }

  lemma OnePartMore(results: Results, arrived: set<Part>, part: Part)
    ensures forall x :: x in Assembled(results, arrived + {part})
                        <==> x in Assembled(results, arrived) || x in PartOf(results, part)
  {
  }

  /**
   * The queries of a window emit four cumulative partial results, each with what has arrived, and the last
   * one does not depend on the order in which they answered.
   */
  lemma QueriesAreCumulative(results: Results, order: seq<Part>)
    requires IsOrder(order)
    ensures var partials := Partials(results, order);
            && |partials| == 4
            && Growing(partials)
            && partials[3] == All(results)
            && (forall i, x :: 0 <= i < 4 && x in ShownParts(results, order[..i + 1]) ==> x in partials[i])
            && (forall i, x :: 0 <= i < 4 && x in partials[i] ==> x in ShownParts(results, order[..i + 1]))
  {
    AllArrive(order);
    var partials := Partials(results, order);
    assert partials[3] == All(results) by { hide ArrivedUpTo; }
    forall i | 0 <= i < 4 ensures forall x :: x in ShownParts(results, order[..i + 1]) <==> x in partials[i] {
      PartsShown(results, order, i + 1);
    }
    forall i, j | 0 <= i < j < |partials| ensures Ids(partials[i]) <= Ids(partials[j]) {
      ArrivedGrows(order, i + 1, j + 1);
      AssembledGrows(results, ArrivedUpTo(order, i + 1), ArrivedUpTo(order, j + 1));
      hide Assembled, ArrivedUpTo, Ids;
    }
    hide Assembled, ArrivedUpTo, Ids, ShownParts;
  }

  lemma FourQueriesAre(answers: Answers, results: Times -> Results, order: (Times, Path) -> seq<Part>)
    requires FourQueries(answers, results, order)
    ensures Settled(answers) && Cumulative(answers) && Emits(answers)
    ensures EmitsAtMost(answers, 4) && forall w: Times, path: Path :: |answers(w, path)| == 4
  {
    forall w: Times, path: Path
      ensures |answers(w, path)| == 4 && Growing(answers(w, path))
      ensures answers(w, path)[3] == All(results(w))
    {
      QueriesAreCumulative(results(w), order(w, path));
      hide Partials, Growing, IsOrder;
    }
    hide FourQueries, Growing, All;
  }

  /**
   * The code as it stands: whatever the order and the times in which the queries answer, the last answer is
   * the one the complete results give, after at most (4^(levels + 1) - 1) / 3 queries of a window. At one
   * instant there are more queries than windows on the way if and only if the first partial result of the
   * first window is too short.
   */
  lemma FourQueriesPerWindow(
      run: Run, answers: Answers, results: Times -> Results, order: (Times, Path) -> seq<Part>, r: Request, now: int)
    requires FourQueries(answers, results, order) && IsRun(run, answers, r, true) && now > 0
    ensures 3 * Queries(run) <= Pow2(2 * Levels(r) + 2) - 1
    ensures var stream := Stream(run, answers, r);
            stream != [] && stream[|stream| - 1] == Answer(answers, r, ChainClock(run, r.depth))
    ensures (forall other :: IsRun(other, answers, r, true) && AtOnce(other, now)
                             ==> Queries(other) <= |Way(answers, r, Instant(now))|)
            <==> Nested(answers, r, Applied(r.cursors, now), 0, now).None?
  {
    hide *;
    FourQueriesAre(answers, results, order);
    QueriesAreBounded(run, answers, r, true, 4);
    GeometricOfFour(Levels(r));
    LastIsAnswer(run, answers, r);
    OneQueryPerWindowIff(answers, r, now);
  }

  lemma {:induction false} GeometricOfFour(n: nat)
    ensures 3 * Geometric(4, n) == Pow2(2 * n + 2) - 1
  {
    if n > 0 {
      GeometricOfFour(n - 1);
      assert Pow2(2 * n + 2) == 2 * Pow2(2 * n + 1) == 4 * Pow2(2 * (n - 1) + 2);
    }
  }
}
