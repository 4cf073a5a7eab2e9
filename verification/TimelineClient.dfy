/**
 * The browser's side of the timeline: merging pages of epochs into the list kept so far, and what
 * that list is after any walk through the pages.
 */
module TimelineClient {
  import opened Basics
  import opened StableSort
  import opened EpochWindow
  import opened Bundling
  import opened EpochPage
  import opened EpochWalk

  function ItemId(item: Item): string {
    match item
    case Single(e) => e.id
    case Bundle(id, _, _, _) => id
  }

  /** The items whose id is not in `seen` and did not occur before. */
  function Dedup(items: seq<Item>, seen: set<string>): seq<Item> {
    if items == [] then []
    else if ItemId(items[0]) in seen then Dedup(items[1..], seen)
    else [items[0]] + Dedup(items[1..], seen + {ItemId(items[0])})
  }

  /** Position of the group of an epoch, or the length of the list. */
  function Find(acc: seq<EpochGroup>, epochNo: int): (i: nat)
    ensures i <= |acc|
  {
    if acc == [] || acc[0].epochNo == epochNo then 0 else 1 + Find(acc[1..], epochNo)
  }

  lemma {:induction false} FindFinds(acc: seq<EpochGroup>, epochNo: int)
    ensures Find(acc, epochNo) < |acc| ==> acc[Find(acc, epochNo)].epochNo == epochNo
    ensures forall j :: 0 <= j < Find(acc, epochNo) ==> acc[j].epochNo != epochNo
  {
    if acc != [] && acc[0].epochNo != epochNo {
      FindFinds(acc[1..], epochNo);
    }
  }

  /** What is loaded in the newer direction goes in front, what is loaded in the older one behind. */
  function InOrder<T>(direction: Direction, incoming: seq<T>, kept: seq<T>): seq<T> {
    if direction.Newer? then incoming + kept else kept + incoming
  }

  /** One step of the reduce: a new epoch is pushed, a known one takes the new items it lacks. */
  function MergeOne(acc: seq<EpochGroup>, g: EpochGroup, direction: Direction): seq<EpochGroup> {
    var i := Find(acc, g.epochNo);
    if i == |acc| then acc + [g]
    else acc[i := EpochGroup(g.epochNo, Dedup(InOrder(direction, g.items, acc[i].items), {}))]
  }

  function MergeAll(acc: seq<EpochGroup>, rest: seq<EpochGroup>, direction: Direction): seq<EpochGroup>
    decreases |rest|
  {
    if rest == [] then acc else MergeAll(MergeOne(acc, rest[0], direction), rest[1..], direction)
  }

  /** Highest epoch first. */
  function EpochKey(g: EpochGroup): Key {
    (-g.epochNo, 0)
  }

  function Merge(kept: seq<EpochGroup>, incoming: seq<EpochGroup>, direction: Direction): seq<EpochGroup> {
    if |kept| < 1 then incoming
    else Sort(MergeAll([], InOrder(direction, incoming, kept), direction), EpochKey)
  }

  method DedupItems(allItems: seq<Item>) returns (items: seq<Item>)
    ensures items == Dedup(allItems, {})
  {
    items := [];
    var seenItems: set<string> := {};
    assert allItems[0..] == allItems;
    for i := 0 to |allItems|
      invariant items + Dedup(allItems[i..], seenItems) == Dedup(allItems, {})
    {
      var item := allItems[i];
      assert allItems[i..][1..] == allItems[i + 1..];
      if ItemId(item) !in seenItems {
        seenItems := seenItems + {ItemId(item)};
        items := items + [item];
      }
    }
  }

  /** Merges the items of an epoch into the group that is already there. */
  method MergeItems(acc: seq<EpochGroup>, epoch: EpochGroup, direction: Direction) returns (r: seq<EpochGroup>)
    requires Find(acc, epoch.epochNo) < |acc|
    ensures r == MergeOne(acc, epoch, direction)
  {
    var at := Find(acc, epoch.epochNo);
    var items := DedupItems(InOrder(direction, epoch.items, acc[at].items));
    r := acc[at := EpochGroup(epoch.epochNo, items)];
  }

  /** The `reduce` over the combined list, with the set of epoch numbers already in the result. */
  method MergeCombined(combined: seq<EpochGroup>, direction: Direction) returns (acc: seq<EpochGroup>)
    ensures acc == MergeAll([], combined, direction)
  {
    var seenEpochs: set<int> := {};
    acc := [];
    MergeAllEnds(combined, direction);
    assert EpochsOf(acc) == {};
    hide *;
    for i := 0 to |combined|
      invariant MergeAll(acc, combined[i..], direction) == MergeAll([], combined, direction)
      invariant seenEpochs == EpochsOf(acc)
    {
      var epoch := combined[i];
      MergeAllStep(acc, combined, i, direction);
      if epoch.epochNo !in seenEpochs {
        MergeNew(acc, epoch, direction);
        seenEpochs := seenEpochs + {epoch.epochNo};
        acc := acc + [epoch];
      } else {
        MergeKnown(acc, epoch, direction);
        acc := MergeItems(acc, epoch, direction);
      }
    }
  }

  method MergeEpochs(
      kept: seq<EpochGroup>, incoming: seq<EpochGroup>, direction: Direction)
    returns (merged: seq<EpochGroup>)
    ensures merged == Merge(kept, incoming, direction)
  {
    if |kept| < 1 {
      return incoming;
    }
    var acc := MergeCombined(InOrder(direction, incoming, kept), direction);
    merged := Sort(acc, EpochKey);
  }

  function EpochsOf(acc: seq<EpochGroup>): set<int> {
    set g | g in acc :: g.epochNo
  }

  lemma MergeAllEnds(combined: seq<EpochGroup>, direction: Direction)
    ensures combined[0..] == combined
    ensures forall acc :: MergeAll(acc, combined[|combined|..], direction) == acc
  {
  }

  lemma MergeAllStep(acc: seq<EpochGroup>, combined: seq<EpochGroup>, i: nat, direction: Direction)
    requires i < |combined|
    ensures MergeAll(acc, combined[i..], direction)
            == MergeAll(MergeOne(acc, combined[i], direction), combined[i + 1..], direction)
  {
    hide MergeOne;
    assert combined[i..][1..] == combined[i + 1..];
  }

  lemma EpochsOfFind(acc: seq<EpochGroup>, epochNo: int)
    ensures epochNo in EpochsOf(acc) <==> Find(acc, epochNo) < |acc|
  {
    FindFinds(acc, epochNo);
    hide Find;
    if Find(acc, epochNo) < |acc| {
      assert acc[Find(acc, epochNo)] in acc;
    }
  }

  /** The set of epochs seen so far decides which branch of the reduce applies: a new epoch... */
  lemma MergeNew(acc: seq<EpochGroup>, g: EpochGroup, direction: Direction)
    requires g.epochNo !in EpochsOf(acc)
    ensures MergeOne(acc, g, direction) == acc + [g]
    ensures EpochsOf(acc + [g]) == EpochsOf(acc) + {g.epochNo}
  {
    EpochsOfFind(acc, g.epochNo);
    hide Find;
    assert forall x :: x in acc + [g] <==> x in acc || x == g;
  }

  /** ... or one that is in the list. */
  lemma MergeKnown(acc: seq<EpochGroup>, g: EpochGroup, direction: Direction)
    requires g.epochNo in EpochsOf(acc)
    ensures Find(acc, g.epochNo) < |acc|
    ensures EpochsOf(MergeOne(acc, g, direction)) == EpochsOf(acc)
  {
    EpochsOfFind(acc, g.epochNo);
    FindFinds(acc, g.epochNo);
    hide Find, Dedup, InOrder;
    var r := MergeOne(acc, g, direction);
    forall n ensures n in EpochsOf(r) <==> n in EpochsOf(acc) {
      if n in EpochsOf(r) {
        var k :| 0 <= k < |r| && r[k].epochNo == n;
        assert acc[k] in acc && acc[k].epochNo == n;
      }
      if n in EpochsOf(acc) {
        var k :| 0 <= k < |acc| && acc[k].epochNo == n;
        assert r[k] in r && r[k].epochNo == n;
      }
    }
  }

  // ----- de-duplication

  ghost predicate DistinctIds(items: seq<Item>) {
    forall i, j :: 0 <= i < j < |items| ==> ItemId(items[i]) != ItemId(items[j])
  }

  function IdsOfItems(items: seq<Item>): set<string> {
    set x | x in items :: ItemId(x)
  }

  lemma IdsOfMore(items: seq<Item>)
    requires items != []
    ensures IdsOfItems(items) == {ItemId(items[0])} + IdsOfItems(items[1..])
  {
    assert items == [items[0]] + items[1..];
    hide ItemId;
  }

  /** The first item of every id that is not in `seen` stays, and nothing else. */
  lemma {:induction false} DedupKeepsIds(items: seq<Item>, seen: set<string>)
    ensures IdsOfItems(Dedup(items, seen)) == IdsOfItems(items) - seen
    ensures DistinctIds(Dedup(items, seen))
  {
    hide ItemId;
    if items != [] {
      var id, rest := ItemId(items[0]), items[1..];
      IdsOfMore(items);
      if id in seen {
        DedupKeepsIds(rest, seen);
      } else {
        var kept := Dedup(rest, seen + {id});
        DedupKeepsIds(rest, seen + {id});
        FreshInFront(items[0], kept);
        hide DistinctIds, IdsOfItems;
      }
    }
  }

  lemma FreshInFront(x: Item, kept: seq<Item>)
    requires DistinctIds(kept) && ItemId(x) !in IdsOfItems(kept)
    ensures DistinctIds([x] + kept) && IdsOfItems([x] + kept) == {ItemId(x)} + IdsOfItems(kept)
  {
    hide ItemId;
    IdsOfMore([x] + kept);
    assert forall y :: y in kept ==> ItemId(y) in IdsOfItems(kept);
  }

  /** Items whose ids are there already are dropped. */
  lemma {:induction false} DedupAppend(items: seq<Item>, again: seq<Item>, seen: set<string>)
    requires IdsOfItems(again) <= IdsOfItems(items) + seen
    ensures Dedup(items + again, seen) == Dedup(items, seen)
  {
    hide ItemId;
    if items == [] {
      assert items + again == again;
      if again != [] {
        IdsOfMore(again);
        DedupAppend([], again[1..], seen);
        assert [] + again[1..] == again[1..];
      }
    } else {
      IdsOfMore(items);
      assert (items + again)[1..] == items[1..] + again;
      DedupAppend(items[1..], again, if ItemId(items[0]) in seen then seen else seen + {ItemId(items[0])});
    }
  }

  lemma {:induction false} DedupOfDistinct(items: seq<Item>, seen: set<string>)
    requires DistinctIds(items) && IdsOfItems(items) !! seen
    ensures Dedup(items, seen) == items
  {
    hide ItemId;
    if items != [] {
      IdsOfMore(items);
      assert items == [items[0]] + items[1..];
      forall x | x in items[1..] ensures ItemId(x) != ItemId(items[0]) {
        var k :| 0 <= k < |items[1..]| && items[1..][k] == x;
        assert items[k + 1] == x;
      }
      DedupOfDistinct(items[1..], seen + {ItemId(items[0])});
    }
  }

  /** De-duplication changes nothing if and only if the ids are unique. */
  lemma DedupIsIdentityIff(items: seq<Item>)
    ensures Dedup(items, {}) == items <==> DistinctIds(items)
  {
    DedupKeepsIds(items, {});
    if DistinctIds(items) { DedupOfDistinct(items, {}); }
  }

  function DedupGroup(g: EpochGroup): EpochGroup {
    EpochGroup(g.epochNo, Dedup(g.items, {}))
  }

  ghost predicate FirstWithId(items: seq<Item>, i: nat): (first: bool)
    ensures first ==> i < |items|
  {
    i < |items| && forall j :: 0 <= j < i ==> ItemId(items[j]) != ItemId(items[i])
  }

  /** The positions of the first item of each id that is not in `seen`, in order. */
  ghost predicate Firsts(items: seq<Item>, seen: set<string>, at: seq<nat>) {
    && (forall p, q :: 0 <= p < q < |at| ==> at[p] < at[q])
    && (forall i: nat :: i in at <==> FirstWithId(items, i) && ItemId(items[i]) !in seen)
  }

  /** What is left are the items at these positions. */
  lemma {:induction false} DedupIsFirsts(items: seq<Item>, seen: set<string>) returns (at: seq<nat>)
    ensures Firsts(items, seen, at)
    ensures |at| == |Dedup(items, seen)|
    ensures forall p :: 0 <= p < |at| ==> at[p] < |items| && Dedup(items, seen)[p] == items[at[p]]
  {
    hide ItemId, Firsts;
    at := [];
    if items != [] {
      var id, rest := ItemId(items[0]), items[1..];
      assert items == [items[0]] + rest;
      var more := DedupIsFirsts(rest, seen + {id});
      var shifted: seq<nat> := seq(|more|, p requires 0 <= p < |more| => more[p] + 1);
      at := if id in seen then shifted else [0] + shifted;
      assert id in seen ==> seen + {id} == seen;
      FirstsStep(items, seen, more, shifted, at);
    } else {
      NoFirsts(seen);
    }
  }

  lemma NoFirsts(seen: set<string>)
    ensures Firsts([], seen, [])
  {
  }

  lemma FirstsStep(items: seq<Item>, seen: set<string>, more: seq<nat>, shifted: seq<nat>, at: seq<nat>)
    requires items != [] && Firsts(items[1..], seen + {ItemId(items[0])}, more)
    requires |shifted| == |more| && forall p :: 0 <= p < |more| ==> shifted[p] == more[p] + 1
    requires at == if ItemId(items[0]) in seen then shifted else [0] + shifted
    ensures Firsts(items, seen, at)
  {
    hide ItemId, FirstWithId;
    forall i: nat ensures i in at <==> FirstWithId(items, i) && ItemId(items[i]) !in seen {
      ShiftedIs(more, shifted, i);
      FirstInRest(items, i);
    }
  }

  lemma ShiftedIs(more: seq<nat>, shifted: seq<nat>, i: nat)
    requires |shifted| == |more| && forall p :: 0 <= p < |more| ==> shifted[p] == more[p] + 1
    ensures i in shifted <==> i > 0 && i - 1 in more
  {
    if i > 0 && i - 1 in more {
      var p :| 0 <= p < |more| && more[p] == i - 1;
      assert shifted[p] == i;
    }
  }

  lemma FirstInRest(items: seq<Item>, i: nat)
    requires items != []
    ensures i == 0 ==> FirstWithId(items, i)
    ensures i > 0 ==> (FirstWithId(items, i) <==>
                         FirstWithId(items[1..], i - 1) && ItemId(items[i]) != ItemId(items[0]))
  {
    hide ItemId;
    var rest := items[1..];
    assert forall j :: 0 <= j < |rest| ==> rest[j] == items[j + 1];
    if 0 < i < |items| && FirstWithId(rest, i - 1) && ItemId(items[i]) != ItemId(items[0]) {
      forall j | 0 <= j < i ensures ItemId(items[j]) != ItemId(items[i]) {
        assert j > 0 ==> items[j] == rest[j - 1];
      }
    }
    if 0 < i < |items| && FirstWithId(items, i) {
      forall j | 0 <= j < i - 1 ensures ItemId(rest[j]) != ItemId(rest[i - 1]) {
        assert rest[j] == items[j + 1];
      }
    }
  }

  // ----- merging any two lists

  ghost predicate DistinctEpochs(groups: seq<EpochGroup>) {
    forall i, j :: 0 <= i < j < |groups| ==> groups[i].epochNo != groups[j].epochNo
  }

  /** The list the reduce leaves for an epoch that x has already and y brings again. */
  function Joint(direction: Direction, x: EpochGroup, y: EpochGroup): EpochGroup {
    EpochGroup(x.epochNo, Dedup(InOrder(direction, y.items, x.items), {}))
  }

  /** What merging `rest` into `acc` leaves. */
  ghost predicate InReduced(direction: Direction, acc: seq<EpochGroup>, rest: seq<EpochGroup>, g: EpochGroup) {
    if g.epochNo in EpochsOf(acc) && g.epochNo in EpochsOf(rest) then
      exists x, y :: x in acc && y in rest && x.epochNo == y.epochNo == g.epochNo && g == Joint(direction, x, y)
    else g in acc || g in rest
  }

  /** The groups of a list with one of them replaced by another of its epoch, or added. */
  lemma ReplacedMembers(acc: seq<EpochGroup>, i: nat, h: EpochGroup, g: EpochGroup)
    requires DistinctEpochs(acc) && i < |acc| && acc[i].epochNo == h.epochNo
    ensures DistinctEpochs(acc[i := h]) && EpochsOf(acc[i := h]) == EpochsOf(acc)
    ensures g in acc[i := h] <==> if g.epochNo == h.epochNo then g == h else g in acc
  {
    var r := acc[i := h];
    assert r[i] == h;
    forall n ensures n in EpochsOf(r) <==> n in EpochsOf(acc) {
      if n in EpochsOf(r) {
        var k :| 0 <= k < |r| && r[k].epochNo == n;
        assert acc[k] in acc && acc[k].epochNo == n;
      }
      if n in EpochsOf(acc) {
        var k :| 0 <= k < |acc| && acc[k].epochNo == n;
        assert r[k] in r && r[k].epochNo == n;
      }
    }
    if g in acc && g.epochNo != h.epochNo {
      var k :| 0 <= k < |acc| && acc[k] == g;
      assert r[k] == g;
    }
  }

  lemma AddedMembers(acc: seq<EpochGroup>, h: EpochGroup)
    requires DistinctEpochs(acc) && h.epochNo !in EpochsOf(acc)
    ensures DistinctEpochs(acc + [h]) && EpochsOf(acc + [h]) == EpochsOf(acc) + {h.epochNo}
  {
    var r := acc + [h];
    assert forall x :: x in r <==> x in acc || x == h;
    forall i, j | 0 <= i < j < |r| ensures r[i].epochNo != r[j].epochNo {
      assert i < |acc| ==> acc[i] in acc;
    }
  }

  lemma FirstOfRest(rest: seq<EpochGroup>)
    requires DistinctEpochs(rest) && rest != []
    ensures DistinctEpochs(rest[1..]) && rest[0].epochNo !in EpochsOf(rest[1..])
    ensures EpochsOf(rest) == {rest[0].epochNo} + EpochsOf(rest[1..])
    ensures forall g :: g in rest <==> g == rest[0] || g in rest[1..]
  {
    assert rest == [rest[0]] + rest[1..];
  }

  /** One merge, in terms of members. */
  lemma MergeOneMembers(acc: seq<EpochGroup>, f: EpochGroup, direction: Direction, g: EpochGroup)
    requires DistinctEpochs(acc)
    ensures var r := MergeOne(acc, f, direction);
            && DistinctEpochs(r) && EpochsOf(r) == EpochsOf(acc) + {f.epochNo}
            && (g in r <==> if g.epochNo != f.epochNo then g in acc
                            else if f.epochNo !in EpochsOf(acc) then g == f
                            else exists x :: x in acc && x.epochNo == f.epochNo && g == Joint(direction, x, f))
  {
    EpochsOfFind(acc, f.epochNo);
    FindFinds(acc, f.epochNo);
    var i := Find(acc, f.epochNo);
    hide Find, Dedup, InOrder;
    if i < |acc| {
      ReplacedMembers(acc, i, Joint(direction, acc[i], f), g);
      forall x | x in acc && x.epochNo == f.epochNo ensures x == acc[i] {
        var k :| 0 <= k < |acc| && acc[k] == x;
      }
      assert acc[i] in acc;
    } else {
      AddedMembers(acc, f);
    }
  }

  lemma {:induction false} MergeAllMembers(
      acc: seq<EpochGroup>, rest: seq<EpochGroup>, direction: Direction, g: EpochGroup)
    requires DistinctEpochs(acc) && DistinctEpochs(rest)
    ensures var r := MergeAll(acc, rest, direction);
            && DistinctEpochs(r) && EpochsOf(r) == EpochsOf(acc) + EpochsOf(rest)
            && (g in r <==> InReduced(direction, acc, rest, g))
    decreases |rest|
  {
    if rest == [] {
      hide EpochsOf, Joint, DistinctEpochs;
      assert EpochsOf(rest) == {} by { NoEpochs(); }
    } else {
      var first, more := rest[0], rest[1..];
      FirstOfRest(rest);
      hide *;
      MergeAllFirst(acc, rest, direction);
      var acc' := MergeOne(acc, first, direction);
      forall x
        ensures x in acc' <==> if x.epochNo != first.epochNo then x in acc
                               else if first.epochNo !in EpochsOf(acc) then x == first
                               else exists y :: y in acc && y.epochNo == first.epochNo
                                                && x == Joint(direction, y, first)
      {
        MergeOneMembers(acc, first, direction, x);
      }
      MergeOneMembers(acc, first, direction, g);
      MergeAllMembers(acc', more, direction, g);
      ReducedStep(direction, acc, acc', first, more, rest, g);
    }
  }

  lemma NoEpochs()
    ensures EpochsOf([]) == {}
  {
  }

  lemma MergeAllFirst(acc: seq<EpochGroup>, rest: seq<EpochGroup>, direction: Direction)
    requires rest != []
    ensures MergeAll(acc, rest, direction) == MergeAll(MergeOne(acc, rest[0], direction), rest[1..], direction)
  {
    hide MergeOne;
  }

  lemma ReducedStep(
      direction: Direction, acc: seq<EpochGroup>, acc': seq<EpochGroup>, first: EpochGroup, more: seq<EpochGroup>,
      rest: seq<EpochGroup>, g: EpochGroup)
    requires forall x :: x in acc' <==> if x.epochNo != first.epochNo then x in acc
                                        else if first.epochNo !in EpochsOf(acc) then x == first
                                        else exists y :: y in acc && y.epochNo == first.epochNo
                                                         && x == Joint(direction, y, first)
    requires EpochsOf(acc') == EpochsOf(acc) + {first.epochNo}
    requires EpochsOf(rest) == {first.epochNo} + EpochsOf(more) && first.epochNo !in EpochsOf(more)
    requires forall x :: x in rest <==> x == first || x in more
    ensures InReduced(direction, acc', more, g) <==> InReduced(direction, acc, rest, g)
  {
    assert forall x :: x in more ==> x.epochNo in EpochsOf(more);
    assert forall x :: x in acc ==> x.epochNo in EpochsOf(acc);
    hide EpochsOf, Joint;
  }

  lemma {:induction false} MergeAllConcat(
      acc: seq<EpochGroup>, a: seq<EpochGroup>, b: seq<EpochGroup>, direction: Direction)
    ensures MergeAll(acc, a + b, direction) == MergeAll(MergeAll(acc, a, direction), b, direction)
    decreases |a|
  {
    hide MergeOne;
    if a == [] {
      assert a + b == b;
    } else {
      assert (a + b)[1..] == a[1..] + b;
      MergeAllConcat(MergeOne(acc, a[0], direction), a[1..], b, direction);
    }
  }

  /**
   * Merging any page into any list, in either direction: highest epoch first; the groups of epochs in one of
   * the two only as they are; and for an epoch in both the items that were kept, then those that came in,
   * without repeated ids.
   */
  lemma MergedGroups(kept: seq<EpochGroup>, incoming: seq<EpochGroup>, direction: Direction, g: EpochGroup)
    requires kept != [] && DistinctEpochs(kept) && DistinctEpochs(incoming)
    ensures var r := Merge(kept, incoming, direction);
            && (forall i, j :: 0 <= i < j < |r| ==> r[i].epochNo > r[j].epochNo)
            && EpochsOf(r) == EpochsOf(kept) + EpochsOf(incoming)
            && (g in r <==>
                  if g.epochNo in EpochsOf(kept) && g.epochNo in EpochsOf(incoming) then
                    exists x, y :: x in kept && y in incoming && x.epochNo == y.epochNo == g.epochNo
                                   && g.items == Dedup(x.items + y.items, {})
                  else g in kept || g in incoming)
  {
    var (a, b) := if direction.Newer? then (incoming, kept) else (kept, incoming);
    hide MergeOne, MergeAll, InReduced, Joint, InOrder, Dedup;
    var first := MergeAll([], a, direction);
    assert InOrder(direction, incoming, kept) == a + b by { OrderIs(direction, incoming, kept); }
    MergeAllConcat([], a, b, direction);
    NoEpochs();
    forall x ensures x in first <==> x in a {
      MergeAllMembers([], a, direction, x);
      ReducedFromNothing(direction, a, x);
    }
    MergeAllMembers([], a, direction, g);
    MergeAllMembers(first, b, direction, g);
    SameReduced(direction, first, a, b, kept, incoming, g);
    var merged := MergeAll(first, b, direction);
    SortedMembers(merged);
    hide Sort, EpochsOf, DistinctEpochs;
  }

  lemma OrderIs<T>(direction: Direction, incoming: seq<T>, kept: seq<T>)
    ensures InOrder(direction, incoming, kept) == if direction.Newer? then incoming + kept else kept + incoming
  {
  }

  lemma SortedMembers(merged: seq<EpochGroup>)
    requires DistinctEpochs(merged)
    ensures var r := Sort(merged, EpochKey);
            && (forall i, j :: 0 <= i < j < |r| ==> r[i].epochNo > r[j].epochNo)
            && (forall g :: g in r <==> g in merged) && EpochsOf(r) == EpochsOf(merged)
  {
    SortIsSortedPermutation(merged, EpochKey);
    SortKeepsLength(merged, EpochKey);
    DistinctKeysSortStrictly(merged, Sort(merged, EpochKey), EpochKey);
    hide Sort;
    var r := Sort(merged, EpochKey);
    forall i, j | 0 <= i < j < |r| ensures r[i].epochNo > r[j].epochNo {
      assert KeyLess(EpochKey(r[i]), EpochKey(r[j]));
    }
  }

  lemma ReducedFromNothing(direction: Direction, a: seq<EpochGroup>, g: EpochGroup)
    ensures InReduced(direction, [], a, g) <==> g in a
  {
    NoEpochs();
    hide Joint, EpochsOf;
  }

  lemma SameReduced(
      direction: Direction, first: seq<EpochGroup>, a: seq<EpochGroup>, b: seq<EpochGroup>, kept: seq<EpochGroup>,
      incoming: seq<EpochGroup>, g: EpochGroup)
    requires forall x :: x in first <==> x in a
    requires (a, b) == if direction.Newer? then (incoming, kept) else (kept, incoming)
    ensures InReduced(direction, first, b, g)
            <==> if g.epochNo in EpochsOf(kept) && g.epochNo in EpochsOf(incoming) then
                   exists x, y :: x in kept && y in incoming && x.epochNo == y.epochNo == g.epochNo
                                  && g.items == Dedup(x.items + y.items, {})
                 else g in kept || g in incoming
  {
    assert EpochsOf(first) == EpochsOf(a);
    hide Dedup, EpochsOf;
    forall x, y | x in kept && y in incoming && x.epochNo == y.epochNo == g.epochNo
      ensures g.items == Dedup(x.items + y.items, {})
              <==> g == if direction.Newer? then Joint(direction, y, x) else Joint(direction, x, y)
    {
    }
  }

  /** The items of a merged epoch: every id of the two, once; first what was kept, then what is new, in its order. */
  lemma JointItems(kept: seq<Item>, incoming: seq<Item>)
    ensures var r := Dedup(kept + incoming, {});
            && IdsOfItems(r) == IdsOfItems(kept) + IdsOfItems(incoming) && DistinctIds(r)
            && (forall x :: x in r ==> x in kept || (x in incoming && ItemId(x) !in IdsOfItems(kept)))
            && (DistinctIds(kept) ==> kept <= r)
  {
    DedupKeepsIds(kept + incoming, {});
    assert forall x :: x in kept + incoming <==> x in kept || x in incoming;
    assert IdsOfItems(kept + incoming) == IdsOfItems(kept) + IdsOfItems(incoming);
    DedupSplit(kept, incoming, {});
    DedupMembers(kept, {});
    DedupMembers(incoming, IdsOfItems(kept));
    assert {} + IdsOfItems(kept) == IdsOfItems(kept);
    if DistinctIds(kept) { DedupOfDistinct(kept, {}); }
    hide Dedup, DistinctIds, IdsOfItems, ItemId;
  }

  lemma {:induction false} DedupMembers(items: seq<Item>, seen: set<string>)
    ensures forall x :: x in Dedup(items, seen) ==> x in items && ItemId(x) !in seen
  {
    hide ItemId;
    if items != [] {
      DedupMembers(items[1..], if ItemId(items[0]) in seen then seen else seen + {ItemId(items[0])});
    }
  }

  lemma {:induction false} DedupSplit(a: seq<Item>, b: seq<Item>, seen: set<string>)
    ensures Dedup(a + b, seen) == Dedup(a, seen) + Dedup(b, seen + IdsOfItems(a))
  {
    hide ItemId;
    if a == [] {
      assert a + b == b && seen + IdsOfItems(a) == seen;
    } else {
      IdsOfMore(a);
      assert (a + b)[1..] == a[1..] + b;
      var id := ItemId(a[0]);
      var seen' := if id in seen then seen else seen + {id};
      DedupSplit(a[1..], b, seen');
      assert seen' + IdsOfItems(a[1..]) == seen + IdsOfItems(a);
    }
  }

  /** One step of the reduce on an epoch that is there: nothing of either group is lost, and nothing comes twice. */
  lemma MergeOneItems(acc: seq<EpochGroup>, g: EpochGroup, direction: Direction)
    requires Find(acc, g.epochNo) < |acc|
    ensures var i, r := Find(acc, g.epochNo), MergeOne(acc, g, direction);
            && acc[i].epochNo == g.epochNo && |r| == |acc| && r[i].epochNo == g.epochNo
            && (forall j :: 0 <= j < |acc| && j != i ==> r[j] == acc[j])
            && IdsOfItems(r[i].items) == IdsOfItems(acc[i].items) + IdsOfItems(g.items) && DistinctIds(r[i].items)
            && (DistinctIds(acc[i].items) && direction.Older? ==> acc[i].items <= r[i].items)
            && (DistinctIds(g.items) && direction.Newer? ==> g.items <= r[i].items)
  {
    FindFinds(acc, g.epochNo);
    var i := Find(acc, g.epochNo);
    JointItems(acc[i].items, g.items);
    JointItems(g.items, acc[i].items);
    hide Find, Dedup, DistinctIds, IdsOfItems;
  }

  // ----- merging groups that all come from the same server state

  /** The group of an epoch, as the page of that epoch shows it. */
  function HomeGroup(d: Data, current: nat, epoch: nat): EpochGroup
    requires epoch <= current
  {
    Group(d, PageWindow(current, HomePage(current, epoch)), epoch)
  }

  predicate FromServer(d: Data, current: nat, g: EpochGroup) {
    0 <= g.epochNo <= current && g == HomeGroup(d, current, g.epochNo)
  }

  /** Item ids are unique within each epoch of the timeline. */
  ghost predicate ItemIdsUnique(d: Data, current: nat) {
    forall epoch: nat :: epoch <= current ==> DistinctIds(HomeGroup(d, current, epoch).items)
  }

  /** The server's group of an epoch, as it is or de-duplicated. */
  predicate IsVersion(d: Data, current: nat, g: EpochGroup) {
    && 0 <= g.epochNo <= current
    && (g == HomeGroup(d, current, g.epochNo) || g == DedupGroup(HomeGroup(d, current, g.epochNo)))
  }

  ghost predicate Versions(d: Data, current: nat, groups: seq<EpochGroup>) {
    forall g :: g in groups ==> IsVersion(d, current, g)
  }

  lemma HomeEpoch(d: Data, current: nat, epoch: nat)
    requires epoch <= current
    ensures HomeGroup(d, current, epoch).epochNo == epoch
  {
    hide Bundled, Sort, AllEvents, InEpoch, PageWindow, HomePage;
  }

  /** What merging two lists of groups leaves. */
  predicate InMerge(d: Data, current: nat, a: seq<EpochGroup>, b: seq<EpochGroup>, g: EpochGroup) {
    if g.epochNo in EpochsOf(a) && g.epochNo in EpochsOf(b) then
      0 <= g.epochNo <= current && g == DedupGroup(HomeGroup(d, current, g.epochNo))
    else g in a || g in b
  }

  /** Two versions of a group, de-duplicated or not, merge to the de-duplicated one. */
  lemma VersionsMerge(h: seq<Item>, x: seq<Item>, y: seq<Item>)
    requires (x == h || x == Dedup(h, {})) && (y == h || y == Dedup(h, {}))
    ensures Dedup(x + y, {}) == Dedup(h, {})
  {
    DedupKeepsIds(h, {});
    DedupOfDistinct(Dedup(h, {}), {});
    DedupAppend(x, y, {});
    hide Dedup, DistinctIds, IdsOfItems;
  }

  /** The members of a merged list of server groups, in whichever direction. */
  lemma MergedMembers(
      d: Data, current: nat, kept: seq<EpochGroup>, incoming: seq<EpochGroup>, direction: Direction, g: EpochGroup)
    requires kept != []
    requires Versions(d, current, kept) && DistinctEpochs(kept)
    requires Versions(d, current, incoming) && DistinctEpochs(incoming)
    ensures var r := Merge(kept, incoming, direction);
            StrictlySorted(r, EpochKey) && (g in r <==> InMerge(d, current, kept, incoming, g))
  {
    MergedGroups(kept, incoming, direction, g);
    hide HomeGroup, Dedup, IsVersion, Merge, DistinctEpochs;
    if g.epochNo in EpochsOf(kept) && g.epochNo in EpochsOf(incoming) {
      forall x, y | x in kept && y in incoming && x.epochNo == y.epochNo == g.epochNo
        ensures 0 <= g.epochNo <= current
        ensures g.items == Dedup(x.items + y.items, {}) <==> g == DedupGroup(HomeGroup(d, current, g.epochNo))
      {
        VersionsOfEpoch(d, current, x, y);
        hide EpochsOf, Versions;
      }
    }
  }

  lemma VersionsOfEpoch(d: Data, current: nat, x: EpochGroup, y: EpochGroup)
    requires IsVersion(d, current, x) && IsVersion(d, current, y) && x.epochNo == y.epochNo
    ensures 0 <= x.epochNo <= current
    ensures var h := DedupGroup(HomeGroup(d, current, x.epochNo));
            h.epochNo == x.epochNo && h.items == Dedup(x.items + y.items, {})
  {
    var h := HomeGroup(d, current, x.epochNo);
    HomeEpoch(d, current, x.epochNo);
    hide HomeGroup, Dedup;
    VersionsMerge(h.items, x.items, y.items);
  }

  // ----- the list the client keeps

  /** The group of an epoch: de-duplicated if its page has been loaded again. */
  function KeptGroup(d: Data, current: nat, epoch: nat, again: set<int>): EpochGroup
    requires epoch <= current
  {
    if epoch in again then DedupGroup(HomeGroup(d, current, epoch)) else HomeGroup(d, current, epoch)
  }

  /** The groups of epochs high, high - 1, ..., low. */
  function Down(d: Data, current: nat, high: int, low: nat, again: set<int>): seq<EpochGroup>
    requires low <= high + 1 && high <= current
    decreases high + 1 - low
  {
    if high < low then [] else [KeptGroup(d, current, high, again)] + Down(d, current, high - 1, low, again)
  }

  predicate IsKept(d: Data, current: nat, again: set<int>, g: EpochGroup) {
    0 <= g.epochNo <= current && g == KeptGroup(d, current, g.epochNo, again)
  }

  lemma KeptEpoch(d: Data, current: nat, epoch: nat, again: set<int>)
    requires epoch <= current
    ensures KeptGroup(d, current, epoch, again).epochNo == epoch
  {
    HomeEpoch(d, current, epoch);
    hide HomeGroup, Dedup;
  }

  lemma {:induction false} DownAt(d: Data, current: nat, high: int, low: nat, again: set<int>)
    requires low <= high + 1 && high <= current
    ensures var r := Down(d, current, high, low, again);
            && |r| == high + 1 - low
            && forall i :: 0 <= i < |r| ==> r[i] == KeptGroup(d, current, high - i, again) && r[i].epochNo == high - i
    decreases high + 1 - low
  {
    hide KeptGroup;
    if high >= low {
      KeptEpoch(d, current, high, again);
      DownAt(d, current, high - 1, low, again);
    }
  }

  lemma DownMembers(d: Data, current: nat, high: int, low: nat, again: set<int>, g: EpochGroup)
    requires low <= high + 1 && high <= current
    ensures g in Down(d, current, high, low, again) <==> IsKept(d, current, again, g) && low <= g.epochNo <= high
  {
    DownAt(d, current, high, low, again);
    var r := Down(d, current, high, low, again);
    hide Down, KeptGroup;
    if low <= g.epochNo <= high {
      assert r[high - g.epochNo] == KeptGroup(d, current, g.epochNo, again);
    }
  }

  lemma DownIs(d: Data, current: nat, low: nat, again: set<int>)
    requires low <= current
    ensures var r := Down(d, current, current, low, again);
            && r != [] && Versions(d, current, r) && DistinctEpochs(r) && StrictlySorted(r, EpochKey)
            && EpochsOf(r) == EpochsIn((low, current))
  {
    hide *;
    var r := Down(d, current, current, low, again);
    DownAt(d, current, current, low, again);
    KeptAreVersions(d, current, again, r);
    DownEpochs(current, low, r);
  }

  lemma KeptAreVersions(d: Data, current: nat, again: set<int>, r: seq<EpochGroup>)
    requires |r| <= current + 1 && forall i :: 0 <= i < |r| ==> r[i] == KeptGroup(d, current, current - i, again)
    ensures Versions(d, current, r)
  {
    hide KeptGroup, IsVersion;
    forall g | g in r ensures IsVersion(d, current, g) {
      var i :| 0 <= i < |r| && r[i] == g;
      KeptIsVersion(d, current, current - i, again);
    }
  }

  lemma KeptIsVersion(d: Data, current: nat, epoch: nat, again: set<int>)
    requires epoch <= current
    ensures IsVersion(d, current, KeptGroup(d, current, epoch, again))
  {
    HomeEpoch(d, current, epoch);
    hide HomeGroup, Dedup;
  }

  lemma DownEpochs(current: nat, low: nat, r: seq<EpochGroup>)
    requires low <= current && |r| == current + 1 - low && forall i :: 0 <= i < |r| ==> r[i].epochNo == current - i
    ensures EpochsOf(r) == EpochsIn((low, current)) && DistinctEpochs(r) && StrictlySorted(r, EpochKey)
  {
    forall n ensures n in EpochsOf(r) <==> n in EpochsIn((low, current)) {
      if low <= n <= current { assert r[current - n] in r && r[current - n].epochNo == n; }
      if n in EpochsOf(r) {
        var i :| 0 <= i < |r| && r[i].epochNo == n;
      }
    }
  }

  function EpochsIn(w: Range): (s: set<int>)
    ensures forall n :: n in s <==> w.0 <= n <= w.1
    decreases w.1 - w.0
  {
    if w.0 > w.1 then {} else EpochsIn((w.0, w.1 - 1)) + {w.1}
  }

  /** A page with the server's groups of the epochs of w. */
  ghost predicate IsPage(d: Data, current: nat, w: Range, incoming: seq<EpochGroup>) {
    && 0 <= w.0 <= w.1 <= current && DistinctEpochs(incoming)
    && forall g :: g in incoming <==> FromServer(d, current, g) && w.0 <= g.epochNo <= w.1
  }

  lemma PageEpochs(d: Data, current: nat, w: Range, incoming: seq<EpochGroup>)
    requires IsPage(d, current, w, incoming)
    ensures EpochsOf(incoming) == EpochsIn(w) && Versions(d, current, incoming)
  {
    forall n | n in EpochsIn(w) ensures n in EpochsOf(incoming) {
      HomeEpoch(d, current, n);
      assert FromServer(d, current, HomeGroup(d, current, n));
    }
    hide HomeGroup, DedupGroup;
  }

  /**
   * Loading a page that lies within what is kept de-duplicates its epochs; loading the one just below
   * adds them as they are.
   */
  lemma MergeIsDown(
      d: Data, current: nat, low: nat, again: set<int>, w: Range, incoming: seq<EpochGroup>, direction: Direction)
    requires low <= current && IsPage(d, current, w, incoming) && forall n :: n in again ==> n >= low
    requires low <= w.0 || w.1 == low - 1
    ensures Merge(Down(d, current, current, low, again), incoming, direction)
            == Down(d, current, current, Min(low, w.0), if low <= w.0 then again + EpochsIn(w) else again)
  {
    hide *;
    var kept, low' := Down(d, current, current, low, again), Min(low, w.0);
    var again' := if low <= w.0 then again + EpochsIn(w) else again;
    MinIs(low, w.0);
    PageBounds(d, current, w, incoming);
    var merged, down := Merge(kept, incoming, direction), Down(d, current, current, low', again');
    DownIs(d, current, low, again);
    DownIs(d, current, low', again');
    PageEpochs(d, current, w, incoming);
    PageIsDistinct(d, current, w, incoming);
    forall g ensures g in merged <==> g in down {
      MergedMembers(d, current, kept, incoming, direction, g);
      MergeIsKept(d, current, low, again, w, incoming, g);
    }
    MergedMembers(d, current, kept, incoming, direction, kept[0]);
    StrictlySortedUnique(merged, down, EpochKey);
  }

  lemma PageBounds(d: Data, current: nat, w: Range, incoming: seq<EpochGroup>)
    requires IsPage(d, current, w, incoming)
    ensures 0 <= w.0 <= w.1 <= current
  {
    hide FromServer;
  }

  lemma PageIsDistinct(d: Data, current: nat, w: Range, incoming: seq<EpochGroup>)
    requires IsPage(d, current, w, incoming)
    ensures DistinctEpochs(incoming)
  {
    hide FromServer;
  }

  /** The same for one group. */
  lemma MergeIsKept(
      d: Data, current: nat, low: nat, again: set<int>, w: Range, incoming: seq<EpochGroup>, g: EpochGroup)
    requires low <= current && IsPage(d, current, w, incoming) && forall n :: n in again ==> n >= low
    requires low <= w.0 || w.1 == low - 1
    ensures var again' := if low <= w.0 then again + EpochsIn(w) else again;
            InMerge(d, current, Down(d, current, current, low, again), incoming, g)
            <==> g in Down(d, current, current, Min(low, w.0), again')
  {
    var again' := if low <= w.0 then again + EpochsIn(w) else again;
    DownIs(d, current, low, again);
    PageEpochs(d, current, w, incoming);
    DownMembers(d, current, current, low, again, g);
    DownMembers(d, current, current, Min(low, w.0), again', g);
    hide Down, HomeGroup, Dedup, Versions, StrictlySorted, DistinctEpochs, EpochsOf;
  }
}
