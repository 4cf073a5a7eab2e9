/**
 * Bundling consecutive delegations (or undelegations) of one epoch into one timeline item.
 */
module Bundling {
  import opened Basics
  import opened EpochWindow

  datatype EntryType = DelegationEntry | UndelegationEntry | VotingActivity | NoteEntry | OtherEntry

  /** A timeline entry as displayed; `rank` is the place of `id` in localeCompare's order. */
  datatype Entry = Entry(
    id: string,
    rank: int,
    entryType: EntryType,
    timestamp: int,
    epochNo: int,
    txHash: Option<string>)

  datatype Item =
    | Single(entry: Entry)
    | Bundle(id: string, bundleType: EntryType, timestamp: int, items: seq<Entry>)

  predicate Bundles(t: EntryType) {
    t.DelegationEntry? || t.UndelegationEntry?
  }

  function TypeText(t: EntryType): string {
    if t.DelegationEntry? then "delegation" else "undelegation"
  }

  function BundleId(epoch: nat, t: EntryType, first: Entry): string {
    "bundle-" + TypeText(t) + "-e" + Decimal(epoch) + "-" + first.id
  }

  /** The bundle object for a run that starts with items[0]. */
  function BundleOf(epoch: nat, items: seq<Entry>): Item
    requires items != []
  {
    Bundle(BundleId(epoch, items[0].entryType, items[0]), items[0].entryType, items[0].timestamp, items)
  }

  function Entries(item: Item): seq<Entry> {
    match item
    case Single(e) => [e]
    case Bundle(_, _, _, es) => es
  }

  function Flatten(items: seq<Item>): seq<Entry> {
    if items == [] then [] else Entries(items[0]) + Flatten(items[1..])
  }

  lemma {:induction false} FlattenConcat(a: seq<Item>, b: seq<Item>)
    ensures Flatten(a + b) == Flatten(a) + Flatten(b)
  {
    if a == [] {
      assert a + b == b;
    } else {
      hide *;
      FlattenConcat(a[1..], b);
      FlattenCons(a[0], a[1..]);
      FlattenCons(a[0], a[1..] + b);
      HeadAndTail(a, b);
      HeadAndTail(a, []);
      ConcatAssociates(Entries(a[0]), Flatten(a[1..]), Flatten(b));
    }
  }

  lemma FlattenCons(item: Item, rest: seq<Item>)
    ensures Flatten([item] + rest) == Entries(item) + Flatten(rest)
  {
    hide Entries;
    assert ([item] + rest)[1..] == rest;
  }

  // ----- what a bundling must be

  ghost predicate AllOfType(es: seq<Entry>, t: EntryType) {
    forall i :: 0 <= i < |es| ==> es[i].entryType == t
  }

  /** A bundle has at least `least` entries, all of its type, and is labelled by the first. */
  ghost predicate ItemOk(epoch: nat, item: Item, least: nat) {
    item.Bundle? ==>
      && |item.items| >= least && item.items != []
      && Bundles(item.bundleType) && AllOfType(item.items, item.bundleType)
      && item == BundleOf(epoch, item.items)
  }

  /** The delegation type an output shows, if any. */
  function TypeOf(item: Item): Option<EntryType> {
    match item
    case Single(e) => if Bundles(e.entryType) then Some(e.entryType) else None
    case Bundle(_, t, _, _) => Some(t)
  }

  predicate Apart(a: Item, b: Item) {
    TypeOf(a) == None || TypeOf(a) != TypeOf(b)
  }

  /** `items` shows `events` in order, in real bundles, with no two neighbours of one delegation type. */
  ghost predicate Canonical(epoch: nat, events: seq<Entry>, items: seq<Item>) {
    && Flatten(items) == events
    && (forall i :: 0 <= i < |items| ==> ItemOk(epoch, items[i], 2))
    && (forall i :: 0 <= i < |items| - 1 ==> Apart(items[i], items[i + 1]))
  }

  // ----- the maximal-run decomposition

  /** Length of the longest prefix of entries of type t. */
  function Run(events: seq<Entry>, t: EntryType): (n: nat)
    ensures n <= |events| && AllOfType(events[..n], t)
    ensures n < |events| ==> events[n].entryType != t
  {
    if events == [] || events[0].entryType != t then 0 else
      var n := Run(events[1..], t);
      assert events[..n + 1] == [events[0]] + events[1..][..n];
      n + 1
  }

  /** How many events the first output takes: a whole run of one delegation type, or one event. */
  function FirstRun(events: seq<Entry>): (n: nat)
    requires events != []
    ensures 1 <= n <= |events|
    ensures AllOfType(events[..n], events[0].entryType)
    ensures n < |events| && Bundles(events[0].entryType) ==> events[n].entryType != events[0].entryType
    ensures n > 1 ==> Bundles(events[0].entryType)
  {
    if Bundles(events[0].entryType) then Run(events, events[0].entryType) else 1
  }

  function Bundled(epoch: nat, events: seq<Entry>): seq<Item>
    decreases |events|
  {
    if events == [] then []
    else
      var n := FirstRun(events);
      [if n == 1 then Single(events[0]) else BundleOf(epoch, events[..n])] + Bundled(epoch, events[n..])
  }

  lemma ConsIsCanonical(epoch: nat, first: Item, events: seq<Entry>, rest: seq<Item>)
    requires ItemOk(epoch, first, 2) && Canonical(epoch, events, rest)
    requires rest != [] ==> Apart(first, rest[0])
    ensures Canonical(epoch, Entries(first) + events, [first] + rest)
  {
    assert ([first] + rest)[1..] == rest;
  }

  lemma BundledStep(epoch: nat, events: seq<Entry>) returns (first: Item)
    requires events != []
    ensures var n := FirstRun(events);
            && Bundled(epoch, events) == [first] + Bundled(epoch, events[n..])
            && ItemOk(epoch, first, 2)
            && Entries(first) == events[..n]
            && TypeOf(first) == if Bundles(events[0].entryType) then Some(events[0].entryType) else None
  {
    var n := FirstRun(events);
    first := if n == 1 then Single(events[0]) else BundleOf(epoch, events[..n]);
  }

  /** A canonical list shows the type of its first event first. */
  lemma CanonicalStart(epoch: nat, events: seq<Entry>, items: seq<Item>)
    requires Canonical(epoch, events, items) && items != []
    ensures events != []
    ensures TypeOf(items[0]) == if Bundles(events[0].entryType) then Some(events[0].entryType) else None
  {
    FirstEntry(items, epoch);
  }

  lemma {:induction false} BundledIsCanonical(epoch: nat, events: seq<Entry>)
    ensures Canonical(epoch, events, Bundled(epoch, events))
    decreases |events|
  {
    if events != [] {
      var first := BundledStep(epoch, events);
      hide *;
      var n := FirstRun(events);
      var rest := Bundled(epoch, events[n..]);
      BundledIsCanonical(epoch, events[n..]);
      if rest != [] {
        CanonicalStart(epoch, events[n..], rest);
      }
      ConsIsCanonical(epoch, first, events[n..], rest);
      Halves(events, n);
    } else {
      assert Flatten([]) == [];
    }
  }

  predicate DelegationType(t: EntryType) {
    t == DelegationEntry || t == UndelegationEntry
  }

  /** A bundle holds at least two delegations, or undelegations, and takes its id and time from the first. */
  ghost predicate BundleSays(epoch: nat, b: Item)
    requires b.Bundle?
  {
    && |b.items| >= 2 && DelegationType(b.bundleType)
    && (forall x :: x in b.items ==> x.entryType == b.bundleType)
    && b.timestamp == b.items[0].timestamp
    && b.id == (if b.bundleType == DelegationEntry then "bundle-delegation-e" else "bundle-undelegation-e")
               + Decimal(epoch) + "-" + b.items[0].id
  }

  /** Nowhere does an output end with the delegation type with which the next one starts. */
  lemma BundlesAreRuns(epoch: nat, events: seq<Entry>)
    ensures var items := Bundled(epoch, events);
            && Flatten(items) == events
            && (forall i :: 0 <= i < |items| && items[i].Bundle? ==> BundleSays(epoch, items[i]))
            && (forall i :: 0 <= i < |items| ==> Entries(items[i]) != [])
            && (forall i, j :: 0 <= i && j == i + 1 < |items| ==>
                  var a, b := Entries(items[i]), Entries(items[j]);
                  DelegationType(b[0].entryType) ==> a[|a| - 1].entryType != b[0].entryType)
  {
    BundledIsCanonical(epoch, events);
    hide Bundled, Flatten, Decimal;
    var items := Bundled(epoch, events);
    forall i | 0 <= i < |items| ensures Entries(items[i]) != [] { assert ItemOk(epoch, items[i], 2); }
    forall i | 0 <= i < |items| && items[i].Bundle? ensures BundleSays(epoch, items[i]) {
      BundleIsOk(epoch, items[i]);
    }
    forall i, j | 0 <= i && j == i + 1 < |items|
      ensures var a, b := Entries(items[i]), Entries(items[j]);
              DelegationType(b[0].entryType) ==> a[|a| - 1].entryType != b[0].entryType
    {
      assert ItemOk(epoch, items[i], 2) && ItemOk(epoch, items[j], 2) && Apart(items[i], items[i + 1]);
    }
  }

  lemma BundleIsOk(epoch: nat, b: Item)
    requires b.Bundle? && ItemOk(epoch, b, 2)
    ensures BundleSays(epoch, b)
  {
    hide Decimal;
    var number := Decimal(epoch);
    if b.bundleType == DelegationEntry {
      assert "bundle-" + "delegation" + "-e" == "bundle-delegation-e";
    } else {
      assert "bundle-" + "undelegation" + "-e" == "bundle-undelegation-e";
    }
  }

  /** The first output starts with the first event and has its type. */
  lemma FirstEntry(items: seq<Item>, epoch: nat)
    requires items != [] && ItemOk(epoch, items[0], 1)
    ensures Flatten(items) != []
    ensures Entries(items[0]) != [] && Entries(items[0])[0] == Flatten(items)[0]
    ensures TypeOf(items[0])
            == if Bundles(Flatten(items)[0].entryType) then Some(Flatten(items)[0].entryType) else None
  {
  }

  /** No other decomposition is canonical. */
  lemma {:induction false} CanonicalUnique(epoch: nat, events: seq<Entry>, a: seq<Item>, b: seq<Item>)
    requires Canonical(epoch, events, a) && Canonical(epoch, events, b)
    ensures a == b
    decreases |a|
  {
    if a != [] { FirstEntry(a, epoch); }
    if b != [] { FirstEntry(b, epoch); }
    if a != [] {
      FirstNotLonger(epoch, events, a, b);
      FirstNotLonger(epoch, events, b, a);
      var n := |Entries(a[0])|;
      assert Entries(a[0]) == events[..n] == Entries(b[0]);
      assert Flatten(a[1..]) == events[n..] == Flatten(b[1..]);
      CanonicalUnique(epoch, events[n..], a[1..], b[1..]);
      assert a == [a[0]] + a[1..] && b == [b[0]] + b[1..];
    }
  }

  /** The first output of a canonical decomposition takes the whole run, so no other takes more. */
  lemma FirstNotLonger(epoch: nat, events: seq<Entry>, a: seq<Item>, b: seq<Item>)
    requires Canonical(epoch, events, a) && Canonical(epoch, events, b) && a != [] && b != []
    ensures |Entries(b[0])| <= |Entries(a[0])|
  {
    FirstEntry(a, epoch);
    FirstEntry(b, epoch);
    var n, t := |Entries(a[0])|, events[0].entryType;
    assert events[..n] == Entries(a[0]) && events[n..] == Flatten(a[1..]);
    if n < |events| {
      assert a[1..] != [];
      FirstEntry(a[1..], epoch);
      assert Flatten(a[1..])[0] == events[n];
      assert Apart(a[0], a[1]);
      assert Bundles(t) ==> events[n].entryType != t;
    }
    assert Flatten(b)[..|Entries(b[0])|] == Entries(b[0]);
    assert forall k :: 0 <= k < |Entries(b[0])| ==> events[k] == Entries(b[0])[k];
    assert b[0].Bundle? ==> Bundles(t) && forall k :: 0 <= k < |Entries(b[0])| ==> events[k].entryType == t;
  }

  // ----- the loop

  /** Before expansion: every run is a bundle, even a run of one, and singles are never delegations. */
  ghost predicate RawOk(epoch: nat, raw: seq<Item>) {
    && (forall i :: 0 <= i < |raw| ==> ItemOk(epoch, raw[i], 1) && (raw[i].Single? ==> TypeOf(raw[i]) == None))
    && (forall i :: 0 <= i < |raw| - 1 ==> Apart(raw[i], raw[i + 1]))
  }

  /** A bundle of one becomes the entry itself. */
  function Expanded(item: Item): Item {
    if item.Bundle? && |item.items| == 1 then Single(item.items[0]) else item
  }

  lemma {:induction false} FlattenExpanded(raw: seq<Item>, items: seq<Item>)
    requires |items| == |raw| && forall i :: 0 <= i < |raw| ==> items[i] == Expanded(raw[i])
    ensures Flatten(items) == Flatten(raw)
  {
    if raw != [] {
      FlattenExpanded(raw[1..], items[1..]);
    }
  }

  lemma ExpansionIsCanonical(epoch: nat, raw: seq<Item>, items: seq<Item>)
    requires RawOk(epoch, raw)
    requires |items| == |raw| && forall i :: 0 <= i < |raw| ==> items[i] == Expanded(raw[i])
    ensures Canonical(epoch, Flatten(raw), items)
  {
    FlattenExpanded(raw, items);
    forall i | 0 <= i < |items| ensures ItemOk(epoch, items[i], 2) && TypeOf(items[i]) == TypeOf(raw[i]) {
      assert ItemOk(epoch, raw[i], 1);
    }
    forall i | 0 <= i < |items| - 1 ensures Apart(items[i], items[i + 1]) {
      assert Apart(raw[i], raw[i + 1]);
    }
  }

  lemma FlattenPush(raw: seq<Item>, item: Item)
    ensures Flatten(raw + [item]) == Flatten(raw) + Entries(item)
  {
    FlattenConcat(raw, [item]);
    assert Flatten([item]) == Entries(item) + Flatten([item][1..]);
  }

  /** Appending a non-delegation, or a new bundle next to something of another type. */
  lemma PushKeepsRaw(epoch: nat, raw: seq<Item>, item: Item)
    requires RawOk(epoch, raw) && ItemOk(epoch, item, 1) && (item.Single? ==> TypeOf(item) == None)
    requires raw != [] ==> Apart(raw[|raw| - 1], item)
    ensures RawOk(epoch, raw + [item])
    ensures Flatten(raw + [item]) == Flatten(raw) + Entries(item)
  {
    FlattenPush(raw, item);
    hide Flatten, Entries, ItemOk, Apart, TypeOf;
  }

  /** Pushing an entry of its type onto the last bundle. */
  lemma GrowKeepsRaw(epoch: nat, raw: seq<Item>, ev: Entry)
    requires RawOk(epoch, raw) && raw != [] && raw[|raw| - 1].Bundle?
    requires raw[|raw| - 1].bundleType == ev.entryType
    ensures var last := raw[|raw| - 1];
            var raw' := raw[..|raw| - 1] + [last.(items := last.items + [ev])];
            RawOk(epoch, raw') && Flatten(raw') == Flatten(raw) + [ev]
  {
    var init, last := raw[..|raw| - 1], raw[|raw| - 1];
    var grown := last.(items := last.items + [ev]);
    assert raw == init + [last];
    assert ItemOk(epoch, last, 1);
    assert grown.items[0] == last.items[0];
    if init != [] { assert Apart(raw[|init| - 1], raw[|init|]); }
    assert RawOk(epoch, init) by {
      forall i | 0 <= i < |init| - 1 ensures Apart(init[i], init[i + 1]) { assert Apart(raw[i], raw[i + 1]); }
      forall i | 0 <= i < |init| ensures ItemOk(epoch, init[i], 1) && (init[i].Single? ==> TypeOf(init[i]) == None) {
        assert ItemOk(epoch, raw[i], 1);
      }
    }
    PushKeepsRaw(epoch, init, grown);
    FlattenPush(init, last);
  }

  /** A new bundle after no bundle, or after one of the other type. */
  lemma PushBundle(epoch: nat, raw: seq<Item>, ev: Entry)
    requires RawOk(epoch, raw) && Bundles(ev.entryType)
    requires raw != [] && raw[|raw| - 1].Bundle? ==> raw[|raw| - 1].bundleType != ev.entryType
    ensures var raw' := raw + [BundleOf(epoch, [ev])]; RawOk(epoch, raw') && Flatten(raw') == Flatten(raw) + [ev]
    ensures BundleOf(epoch, [ev]).Bundle?
  {
    LastIsApart(epoch, raw, ev);
    NewBundle(epoch, ev);
    hide *;
    PushKeepsRaw(epoch, raw, BundleOf(epoch, [ev]));
  }

  lemma NewBundle(epoch: nat, ev: Entry)
    requires Bundles(ev.entryType)
    ensures var b := BundleOf(epoch, [ev]);
            b.Bundle? && ItemOk(epoch, b, 1) && Entries(b) == [ev]
  {
  }

  lemma LastIsApart(epoch: nat, raw: seq<Item>, ev: Entry)
    requires RawOk(epoch, raw)
    requires raw != [] && raw[|raw| - 1].Bundle? ==> raw[|raw| - 1].bundleType != ev.entryType
    ensures raw != [] ==> Apart(raw[|raw| - 1], BundleOf(epoch, [ev]))
  {
    hide ItemOk;
  }

  lemma PushSingle(epoch: nat, raw: seq<Item>, ev: Entry)
    requires RawOk(epoch, raw) && !Bundles(ev.entryType)
    ensures var raw' := raw + [Single(ev)]; RawOk(epoch, raw') && Flatten(raw') == Flatten(raw) + [ev]
  {
    hide RawOk, Flatten;
    if raw != [] { assert Apart(raw[|raw| - 1], Single(ev)); }
    PushKeepsRaw(epoch, raw, Single(ev));
  }

  /** Bundles the sorted events of one epoch. */
  method BundleEvents(epoch: nat, events: seq<Entry>) returns (items: seq<Item>)
    ensures items == Bundled(epoch, events)
  {
    var rawItems: seq<Item> := [];
    var bundleOpen := false;   // the last raw item is the current bundle
    assert RawOk(epoch, []) && Flatten([]) == events[..0];
    hide RawOk, Flatten, BundleOf;
    for i := 0 to |events|
      invariant RawOk(epoch, rawItems)
      invariant Flatten(rawItems) == events[..i]
      invariant bundleOpen ==> rawItems != [] && rawItems[|rawItems| - 1].Bundle?
      invariant !bundleOpen && rawItems != [] ==> rawItems[|rawItems| - 1].Single?
    {
      var ev := events[i];
      assert events[..i + 1] == events[..i] + [ev];
      if Bundles(ev.entryType) {
        if !bundleOpen || rawItems[|rawItems| - 1].bundleType != ev.entryType {
          PushBundle(epoch, rawItems, ev);
          rawItems := rawItems + [BundleOf(epoch, [ev])];
          bundleOpen := true;
        } else {
          GrowKeepsRaw(epoch, rawItems, ev);
          var currentBundle := rawItems[|rawItems| - 1];
          rawItems := rawItems[..|rawItems| - 1] + [currentBundle.(items := currentBundle.items + [ev])];
        }
      } else {
        PushSingle(epoch, rawItems, ev);
        bundleOpen := false;
        rawItems := rawItems + [Single(ev)];
      }
    }
    assert events[..|events|] == events;
    items := seq(|rawItems|, i requires 0 <= i < |rawItems| => Expanded(rawItems[i]));
    ExpansionIsCanonical(epoch, rawItems, items);
    BundledIsCanonical(epoch, events);
    CanonicalUnique(epoch, events, items, Bundled(epoch, events));
  }
}
