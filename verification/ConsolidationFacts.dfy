/** What consolidation keeps and counts, and when the in-memory and the SQL version agree. */
module ConsolidationFacts {
  import opened Basics
  import opened StableSort
  import opened Consolidation

  predicate SameDRep(a: Drep, b: Drep) {
    Suffix(a.hex) == Suffix(b.hex)
  }

  // ----- a partition with one row per part

  /** Every row, as often as it occurs, is in the group of its suffix and in no other. */
  lemma {:induction false} GroupsPartition(rows: seq<Drep>, suffix: string, d: Drep)
    ensures multiset(Members(rows, suffix))[d] == if Suffix(d.hex) == suffix then multiset(rows)[d] else 0
    ensures d in rows ==> Suffix(d.hex) in Suffixes(rows)
    ensures Distinct(Suffixes(rows))
  {
    hide Suffix;
    SuffixesDistinct(rows);
    if rows != [] {
      var init, last := rows[..|rows| - 1], rows[|rows| - 1];
      assert rows == init + [last];
      GroupsPartition(init, suffix, d);
    }
  }

  /** A row of the one suffix comes before all rows of the other. */
  ghost predicate AppearsBefore(rows: seq<Drep>, a: string, b: string) {
    exists k :: 0 <= k < |rows| && Suffix(rows[k].hex) == a
      && forall l :: 0 <= l <= k ==> Suffix(rows[l].hex) != b
  }

  lemma AppearsStill(rows: seq<Drep>, d: Drep, a: string, b: string)
    ensures AppearsBefore(rows, a, b) ==> AppearsBefore(rows + [d], a, b)
    ensures (exists m :: m in rows && Suffix(m.hex) == a) && (forall m :: m in rows ==> Suffix(m.hex) != b)
            ==> AppearsBefore(rows + [d], a, b)
  {
    hide Suffix;
    var more := rows + [d];
    assert forall l :: 0 <= l < |rows| ==> more[l] == rows[l] && rows[l] in rows;
    if AppearsBefore(rows, a, b) {
      var k :| 0 <= k < |rows| && Suffix(rows[k].hex) == a && forall l :: 0 <= l <= k ==> Suffix(rows[l].hex) != b;
      assert Suffix(more[k].hex) == a;
    }
    if (exists m :: m in rows && Suffix(m.hex) == a) && forall m :: m in rows ==> Suffix(m.hex) != b {
      var m :| m in rows && Suffix(m.hex) == a;
      var k :| 0 <= k < |rows| && rows[k] == m;
      assert Suffix(more[k].hex) == a;
    }
  }

  /** The groups, and so the consolidated rows, come in the order in which their first rows do. */
  lemma {:induction false} GroupsInOrder(rows: seq<Drep>, i: nat, j: nat)
    requires i < j < |Suffixes(rows)|
    ensures AppearsBefore(rows, Suffixes(rows)[i], Suffixes(rows)[j])
  {
    hide Suffix, AppearsBefore;
    var init, last := rows[..|rows| - 1], rows[|rows| - 1];
    var a, b := Suffixes(rows)[i], Suffixes(rows)[j];
    assert rows == init + [last];
    AppearsStill(init, last, a, b);
    if j < |Suffixes(init)| {
      GroupsInOrder(init, i, j);
    } else {
      MembersAre(init, a);
      MembersAre(init, b);
      assert a in Suffixes(init) && b !in Suffixes(init);
      hide Suffixes;
      SuffixMembers(init, a, b);
    }
  }

  lemma SuffixMembers(rows: seq<Drep>, a: string, b: string)
    requires a in Suffixes(rows) && b !in Suffixes(rows)
    ensures (exists m :: m in rows && Suffix(m.hex) == a) && (forall m :: m in rows ==> Suffix(m.hex) != b)
  {
    MembersAre(rows, a);
    MembersAre(rows, b);
    hide Suffix, Suffixes;
    var group := Members(rows, a);
    assert group[0] in group;
    assert forall m :: m in rows && Suffix(m.hex) == b ==> m in Members(rows, b);
  }

  /** The longer hex goes first, and of equally long ones the later row. */
  predicate GoesFirst(a: Drep, b: Drep) {
    |a.hex| > |b.hex| || (|a.hex| == |b.hex| && a.createdAt >= b.createdAt)
  }

  lemma KeyTells(a: Drep, b: Drep)
    ensures KeyLeq(PrimaryKey(a), PrimaryKey(b)) <==> GoesFirst(a, b)
    ensures PrimaryKey(a) == PrimaryKey(b) <==> |a.hex| == |b.hex| && a.createdAt == b.createdAt
  {
  }

  /** No row of its DRep goes before d. */
  predicate Primary(rows: seq<Drep>, d: Drep) {
    d in rows && forall m :: m in rows && SameDRep(m, d) ==> GoesFirst(d, m)
  }

  /** Everything recorded under any alias of a DRep. */
  function CollectedBy(table: Pairs, rows: seq<Drep>, suffix: string): set<string> {
    set r, d | r in table && d in rows && Suffix(d.hex) == suffix && r.0 == d.drepId :: r.1
  }

  /** The row shown for a primary row: its own columns, and counts over all aliases. */
  function Shown(rows: seq<Drep>, votes: Pairs, delegators: Pairs, d: Drep): Drep {
    d.(delegationVoteCount := |CollectedBy(delegators, rows, Suffix(d.hex))|,
       governanceVoteCount := |CollectedBy(votes, rows, Suffix(d.hex))|)
  }

  lemma UnionIsCollected(table: Pairs, rows: seq<Drep>, suffix: string)
    ensures Union(table, Members(rows, suffix)) == CollectedBy(table, rows, suffix)
  {
    MembersAre(rows, suffix);
    hide Members, Suffix;
  }

  /** The i-th consolidated row shows a primary row of the i-th suffix. */
  lemma ConsolidatedIsShown(rows: seq<Drep>, votes: Pairs, delegators: Pairs, i: nat) returns (p: Drep)
    requires i < |Suffixes(rows)|
    ensures Primary(rows, p) && Suffix(p.hex) == Suffixes(rows)[i]
    ensures ConsolidatedRows(rows, votes, delegators)[i] == Shown(rows, votes, delegators, p)
    ensures var sorted := Sort(Members(rows, Suffixes(rows)[i]), PrimaryKey); sorted != [] && p == sorted[0]
  {
    var s := Suffixes(rows)[i];
    var group := Members(rows, s);
    MembersAre(rows, s);
    SortIsSortedPermutation(group, PrimaryKey);
    SortKeepsLength(group, PrimaryKey);
    UnionIsCollected(delegators, rows, s);
    UnionIsCollected(votes, rows, s);
    var sorted := Sort(group, PrimaryKey);
    hide Sort, Members, Suffix, Union, CollectedBy, Suffixes;
    p := sorted[0];
    assert p in sorted;
    forall m | m in rows && SameDRep(m, p) ensures GoesFirst(p, m) {
      assert m in sorted;
      KeyTells(p, m);
      var k :| 0 <= k < |sorted| && sorted[k] == m;
    }
  }

  /** No two rows of a DRep have equally long hex and the same creation time. */
  ghost predicate NoTies(rows: seq<Drep>) {
    forall a, b :: a in rows && b in rows && SameDRep(a, b) && |a.hex| == |b.hex| && a.createdAt == b.createdAt
                   ==> a == b
  }

  /** No DRep has two rows that both come first. */
  ghost predicate OnePrimaryEach(rows: seq<Drep>) {
    forall a, b :: Primary(rows, a) && Primary(rows, b) && SameDRep(a, b) ==> a == b
  }

  lemma OnePrimary(rows: seq<Drep>)
    requires NoTies(rows)
    ensures OnePrimaryEach(rows)
  {
    hide Suffix;
  }

  lemma PrimaryIsRow(rows: seq<Drep>, p: Drep)
    requires Primary(rows, p)
    ensures p in rows
  {
  }

  /** With one primary row each, the result is, row for row, what the primary rows show. */
  lemma ConsolidatedAreShown(rows: seq<Drep>, votes: Pairs, delegators: Pairs, c: Drep)
    requires OnePrimaryEach(rows)
    ensures c in ConsolidatedRows(rows, votes, delegators)
            <==> exists p :: Primary(rows, p) && c == Shown(rows, votes, delegators, p)
  {
    hide ConsolidatedRows, Primary, Shown, Suffix, Suffixes, CollectedBy, Sort, Members, PrimaryKey;
    var r := ConsolidatedRows(rows, votes, delegators);
    if c in r {
      var i :| 0 <= i < |r| && r[i] == c;
      var p := ConsolidatedIsShown(rows, votes, delegators, i);
    }
    if exists p :: Primary(rows, p) && c == Shown(rows, votes, delegators, p) {
      var p :| Primary(rows, p) && c == Shown(rows, votes, delegators, p);
      PrimaryIsRow(rows, p);
      GroupsPartition(rows, Suffix(p.hex), p);
      var i :| 0 <= i < |Suffixes(rows)| && Suffixes(rows)[i] == Suffix(p.hex);
      var q := ConsolidatedIsShown(rows, votes, delegators, i);
      assert q == p;
      assert r[i] == c;
    }
  }

  /** drep_id is the primary key. */
  ghost predicate KeyedById(rows: seq<Drep>) {
    forall a, b :: a in rows && b in rows && a.drepId == b.drepId ==> a == b
  }

  ghost predicate SameListing(rows: seq<Drep>, other: seq<Drep>, votes: Pairs, delegators: Pairs) {
    forall c :: c in ConsolidatedRows(rows, votes, delegators) <==> c in ConsolidatedRows(other, votes, delegators)
  }

  lemma RowOrderDoesNotMatter(rows: seq<Drep>, other: seq<Drep>, votes: Pairs, delegators: Pairs)
    requires OnePrimaryEach(rows) && forall d :: d in rows <==> d in other
    ensures SameListing(rows, other, votes, delegators)
  {
    forall p
      ensures Primary(rows, p) <==> Primary(other, p)
      ensures Shown(rows, votes, delegators, p) == Shown(other, votes, delegators, p)
    {
      assert CollectedBy(votes, rows, Suffix(p.hex)) == CollectedBy(votes, other, Suffix(p.hex));
      assert CollectedBy(delegators, rows, Suffix(p.hex)) == CollectedBy(delegators, other, Suffix(p.hex));
    }
    hide ConsolidatedRows, Primary, Shown, Suffix;
    forall c
      ensures c in ConsolidatedRows(rows, votes, delegators) <==> c in ConsolidatedRows(other, votes, delegators)
    {
      ConsolidatedAreShown(rows, votes, delegators, c);
      ConsolidatedAreShown(other, votes, delegators, c);
    }
  }

  lemma {:induction false} MembersHead(x: Drep, rest: seq<Drep>)
    ensures Members([x] + rest, Suffix(x.hex)) == [x] + Members(rest, Suffix(x.hex))
  {
    hide Suffix;
    if rest == [] {
      assert [x] + rest == [x] && [x][..0] == [];
    } else {
      var init := rest[..|rest| - 1];
      assert ([x] + rest)[..|rest|] == [x] + init;
      MembersHead(x, init);
    }
  }

  lemma SortHead(x: Drep, xs: seq<Drep>)
    requires forall y :: y in xs ==> KeyLeq(PrimaryKey(x), PrimaryKey(y))
    ensures var sorted := Sort([x] + xs, PrimaryKey); sorted != [] && sorted[0] == x
  {
    SortKeepsLength(xs, PrimaryKey);
    assert ([x] + xs)[1..] == xs;
    hide PrimaryKey;
    var sorted := Sort(xs, PrimaryKey);
    if sorted != [] { assert sorted[0] in xs; }
  }

  /** A primary row that the database returns first is the one that is shown. */
  lemma FrontIsShown(x: Drep, rest: seq<Drep>, votes: Pairs, delegators: Pairs)
    requires Primary([x] + rest, x)
    ensures Shown([x] + rest, votes, delegators, x) in ConsolidatedRows([x] + rest, votes, delegators)
  {
    var rows := [x] + rest;
    GroupsPartition(rows, Suffix(x.hex), x);
    MembersAre(rest, Suffix(x.hex));
    MembersHead(x, rest);
    forall y | y in Members(rest, Suffix(x.hex)) ensures KeyLeq(PrimaryKey(x), PrimaryKey(y)) {
      assert y in rows && SameDRep(y, x);
      KeyTells(x, y);
    }
    hide Suffix, Members, Suffixes, ConsolidatedRows, Sort, Shown, PrimaryKey;
    SortHead(x, Members(rest, Suffix(x.hex)));
    var i :| 0 <= i < |Suffixes(rows)| && Suffixes(rows)[i] == Suffix(x.hex);
    var p := ConsolidatedIsShown(rows, votes, delegators, i);
  }

  /** Rows of one DRep are not listed twice. */
  lemma ListedOnce(rows: seq<Drep>, votes: Pairs, delegators: Pairs, c: Drep, d: Drep)
    requires c in ConsolidatedRows(rows, votes, delegators) && d in ConsolidatedRows(rows, votes, delegators)
    requires SameDRep(c, d)
    ensures c == d
  {
    var r := ConsolidatedRows(rows, votes, delegators);
    SuffixesDistinct(rows);
    hide Suffix, ConsolidatedRows, Primary, CollectedBy, Suffixes;
    var i :| 0 <= i < |r| && r[i] == c;
    var j :| 0 <= j < |r| && r[j] == d;
    var p := ConsolidatedIsShown(rows, votes, delegators, i);
    var q := ConsolidatedIsShown(rows, votes, delegators, j);
  }

  /** The rows with one of them moved to the front. */
  lemma ToFront(rows: seq<Drep>, x: Drep) returns (rest: seq<Drep>)
    requires x in rows
    ensures multiset([x] + rest) == multiset(rows) && forall d :: d in [x] + rest <==> d in rows
  {
    var i :| 0 <= i < |rows| && rows[i] == x;
    rest := rows[..i] + rows[i + 1..];
    assert rows == rows[..i] + [x] + rows[i + 1..];
    forall d ensures d in [x] + rest <==> d in rows {
      assert d in [x] + rest <==> d in multiset([x] + rest);
      assert d in rows <==> d in multiset(rows);
    }
  }

  /** With two rows that both come first, each of them is shown in some order. */
  lemma OrderMatters(rows: seq<Drep>, votes: Pairs, delegators: Pairs, a: Drep) returns (other: seq<Drep>)
    requires Primary(rows, a)
    ensures multiset(other) == multiset(rows)
    ensures SameListing(rows, other, votes, delegators)
            ==> Shown(rows, votes, delegators, a) in ConsolidatedRows(rows, votes, delegators)
  {
    var rest := ToFront(rows, a);
    other := [a] + rest;
    assert Primary(other, a);
    assert CollectedBy(votes, rows, Suffix(a.hex)) == CollectedBy(votes, other, Suffix(a.hex));
    assert CollectedBy(delegators, rows, Suffix(a.hex)) == CollectedBy(delegators, other, Suffix(a.hex));
    assert Shown(rows, votes, delegators, a) == Shown(other, votes, delegators, a);
    hide Primary, CollectedBy, Shown, ConsolidatedRows, Suffix;
    FrontIsShown(a, rest, votes, delegators);
  }

  /**
   * The order in which the database returns the rows does not matter if and only if no DRep has two rows
   * that both come first, with equally long hex and the same creation time.
   */
  lemma RowOrderDoesNotMatterIff(rows: seq<Drep>, votes: Pairs, delegators: Pairs)
    requires KeyedById(rows)
    ensures (forall other :: multiset(other) == multiset(rows) ==> SameListing(rows, other, votes, delegators))
            <==> OnePrimaryEach(rows)
  {
    hide ConsolidatedRows, CollectedBy, Suffix, SameListing, PrimaryKey;
    if OnePrimaryEach(rows) {
      forall other | multiset(other) == multiset(rows) ensures SameListing(rows, other, votes, delegators) {
        forall d ensures d in rows <==> d in other {
          assert d in rows <==> d in multiset(rows);
          assert d in other <==> d in multiset(other);
        }
        RowOrderDoesNotMatter(rows, other, votes, delegators);
      }
    } else {
      var a, b :| Primary(rows, a) && Primary(rows, b) && SameDRep(a, b) && a != b;
      var c, d := Shown(rows, votes, delegators, a), Shown(rows, votes, delegators, b);
      var first := OrderMatters(rows, votes, delegators, a);
      var second := OrderMatters(rows, votes, delegators, b);
      if SameListing(rows, first, votes, delegators) && SameListing(rows, second, votes, delegators) {
        ListedOnce(rows, votes, delegators, c, d);
      }
    }
  }

  // ----- sorting and paging

  /** The two counts are those of the consolidated row; any other column is the primary row's. */
  datatype SortBy = DelegationVoteCount | GovernanceVoteCount | OtherColumn

  function SortValue(d: Drep, sort: SortBy): int {
    match sort
    case DelegationVoteCount => d.delegationVoteCount
    case GovernanceVoteCount => d.governanceVoteCount
    case OtherColumn => d.column
  }

  /** Ascending or descending by the sort column, ties in the order they had. */
  function ColumnKey(sort: SortBy, ascending: bool): Drep -> Key {
    (d: Drep) => (if ascending then SortValue(d, sort) else -SortValue(d, sort), 0)
  }

  function TotalPages(total: nat, perPage: nat): nat
    requires perPage > 0
  {
    (total + perPage - 1) / perPage
  }

  /** A negative index of Array.prototype.slice counts from the end. */
  function SliceIndex(length: nat, i: int): (k: nat)
    ensures k <= length
  {
    if i < 0 then Max(0, length + i) else Min(i, length)
  }

  /** `slice((page - 1) * perPage, page * perPage)`. */
  function PageOf(list: seq<Drep>, page: int, perPage: nat): seq<Drep> {
    var start, end := SliceIndex(|list|, (page - 1) * perPage), SliceIndex(|list|, page * perPage);
    if start <= end then list[start..end] else []
  }

  function PagesUpTo(list: seq<Drep>, perPage: nat, n: nat): seq<Drep>
    requires perPage > 0
  {
    if n == 0 then [] else PagesUpTo(list, perPage, n - 1) + PageOf(list, n, perPage)
  }

  lemma {:induction false} PagesArePrefix(list: seq<Drep>, perPage: nat, n: nat)
    requires perPage > 0
    ensures n * perPage >= 0 && PagesUpTo(list, perPage, n) == list[..Min(n * perPage, |list|)]
  {
    if n > 0 {
      PagesArePrefix(list, perPage, n - 1);
      assert n * perPage == (n - 1) * perPage + perPage;
    }
  }

  lemma LastPageReachesEnd(total: nat, perPage: nat)
    requires perPage > 0
    ensures TotalPages(total, perPage) * perPage >= total
    ensures total > 0 ==> (TotalPages(total, perPage) - 1) * perPage < total
    ensures TotalPages(total, perPage) == 0 <==> total == 0
  {
    var q := TotalPages(total, perPage);
    assert total + perPage - 1 == q * perPage + (total + perPage - 1) % perPage;
  }

  /** Not out of order for the column and direction asked for. */
  predicate InOrderBy(sort: SortBy, ascending: bool, a: Drep, b: Drep) {
    match (sort, ascending)
    case (DelegationVoteCount, true) => a.delegationVoteCount <= b.delegationVoteCount
    case (DelegationVoteCount, false) => a.delegationVoteCount >= b.delegationVoteCount
    case (GovernanceVoteCount, true) => a.governanceVoteCount <= b.governanceVoteCount
    case (GovernanceVoteCount, false) => a.governanceVoteCount >= b.governanceVoteCount
    case (OtherColumn, true) => a.column <= b.column
    case (OtherColumn, false) => a.column >= b.column
  }

  lemma FullPage(list: seq<Drep>, perPage: nat, page: int)
    requires perPage > 0 && 1 <= page && page * perPage <= |list|
    ensures |PageOf(list, page, perPage)| == perPage
  {
    assert page * perPage == (page - 1) * perPage + perPage;
    assert (page - 1) * perPage >= 0;
  }

  lemma EarlierPages(page: int, total: int, perPage: nat)
    requires 1 <= page < total
    ensures page * perPage <= (total - 1) * perPage
  {
  }

  /** All pages but the last are full, and that one is not empty. */
  lemma PagesAreFull(list: seq<Drep>, perPage: nat)
    requires perPage > 0
    ensures var total := TotalPages(|list|, perPage);
            && (total == 0 <==> list == []) && (total > 0 ==> (total - 1) * perPage < |list|)
            && forall page :: 1 <= page < total ==> |PageOf(list, page, perPage)| == perPage
  {
    var total := TotalPages(|list|, perPage);
    LastPageReachesEnd(|list|, perPage);
    hide *;
    forall page | 1 <= page < total ensures |PageOf(list, page, perPage)| == perPage {
      EarlierPages(page, total, perPage);
      FullPage(list, perPage, page);
    }
  }

  /** There is no page 0, and page -n is the n-th page before the last rows, counted from the end of the list. */
  lemma PagesBelowOne(list: seq<Drep>, perPage: nat, n: nat)
    requires perPage > 0
    ensures PageOf(list, 0, perPage) == []
    ensures n >= 1 ==>
              PageOf(list, 0 - n, perPage) == list[Max(0, |list| - (n + 1) * perPage)..Max(0, |list| - n * perPage)]
  {
    assert (0 - n - 1) * perPage == 0 - (n + 1) * perPage && (0 - n) * perPage == 0 - n * perPage;
    assert (n + 1) * perPage == n * perPage + perPage;
    MaxIs(0, |list| - (n + 1) * perPage);
    MaxIs(0, |list| - n * perPage);
  }

  /** The pages 1 to totalPages, put together, are one sorted permutation of the consolidated rows. */
  lemma PagesAreSortedPermutation(consolidated: seq<Drep>, sort: SortBy, ascending: bool, perPage: nat)
    requires perPage > 0
    ensures var sorted := Sort(consolidated, ColumnKey(sort, ascending));
            var total := TotalPages(|consolidated|, perPage);
            var pages := PagesUpTo(sorted, perPage, total);
            && multiset(pages) == multiset(consolidated)
            && forall i, j :: 0 <= i < j < |pages| ==> InOrderBy(sort, ascending, pages[i], pages[j])
  {
    var sorted := Sort(consolidated, ColumnKey(sort, ascending));
    SortIsSortedPermutation(consolidated, ColumnKey(sort, ascending));
    SortKeepsLength(consolidated, ColumnKey(sort, ascending));
    hide *;
    var total := TotalPages(|sorted|, perPage);
    PagesArePrefix(sorted, perPage, total);
    LastPageReachesEnd(|sorted|, perPage);
    MinIs(total * perPage, |sorted|);
    assert sorted[..|sorted|] == sorted;
    SortedByColumn(sorted, sort, ascending);
  }

  function HasValue(sort: SortBy, value: int): Drep -> bool {
    (d: Drep) =>
      match sort
      case DelegationVoteCount => d.delegationVoteCount == value
      case GovernanceVoteCount => d.governanceVoteCount == value
      case OtherColumn => d.column == value
  }

  /** Rows with one value in the sort column are listed in the order in which they were consolidated. */
  lemma TiesStay(consolidated: seq<Drep>, sort: SortBy, ascending: bool, value: int)
    ensures Filtered(Sort(consolidated, ColumnKey(sort, ascending)), HasValue(sort, value))
            == Filtered(consolidated, HasValue(sort, value))
  {
    var k := if ascending then value else -value;
    SortKeepsTies(consolidated, ColumnKey(sort, ascending), HasValue(sort, value), (k, 0));
  }

  lemma SortedByColumn(sorted: seq<Drep>, sort: SortBy, ascending: bool)
    requires Sorted(sorted, ColumnKey(sort, ascending))
    ensures forall i, j :: 0 <= i < j < |sorted| ==> InOrderBy(sort, ascending, sorted[i], sorted[j])
  {
    var key := ColumnKey(sort, ascending);
    forall i, j | 0 <= i < j < |sorted| ensures InOrderBy(sort, ascending, sorted[i], sorted[j]) {
      assert KeyLeq(key(sorted[i]), key(sorted[j]));
    }
  }

  // ----- the SQL version

  /** `LOWER(RIGHT(hex, 56))` is the suffix the in-memory version uses. */
  function Right(s: string, n: nat): string {
    if |s| <= n then s else s[|s| - n..]
  }

  lemma SqlSuffix(hex: string)
    ensures Bech32.Lower(Right(hex, 56)) == Suffix(hex)
  {
    if |hex| == 56 { assert hex[0..] == hex; }
  }

  predicate SameLetter(c: char, d: char) {
    c == d || ('A' <= c <= 'Z' && d as int == c as int + 32) || ('A' <= d <= 'Z' && c as int == d as int + 32)
  }

  predicate SameButForCase(s: string, t: string) {
    |s| == |t| && forall i :: 0 <= i < |s| ==> SameLetter(s[i], t[i])
  }

  /** Two rows are one DRep if and only if the last 56 digits of their hex agree but for upper and lower case. */
  lemma SameDRepIff(a: Drep, b: Drep)
    ensures SameDRep(a, b) <==> SameButForCase(Right(a.hex, 56), Right(b.hex, 56))
  {
    SqlSuffix(a.hex);
    SqlSuffix(b.hex);
    hide Suffix, Right;
    var s, t := Right(a.hex, 56), Right(b.hex, 56);
    if SameDRep(a, b) {
      forall i | 0 <= i < |s| ensures SameLetter(s[i], t[i]) {
        assert Bech32.Lower(s)[i] == Bech32.Lower(t)[i];
      }
    }
    if SameButForCase(s, t) {
      assert forall i :: 0 <= i < |s| ==> Bech32.Lower(s)[i] == Bech32.Lower(t)[i];
    }
  }

  /** DISTINCT ON keeps the first row of every suffix. */
  function DistinctOn(t: seq<Drep>): seq<Drep> {
    if t == [] then []
    else
      var init, last := t[..|t| - 1], t[|t| - 1];
      DistinctOn(init) + if exists d :: d in init && SameDRep(d, last) then [] else [last]
  }

  /** What ORDER BY suffix, LENGTH(hex) DESC, created_at DESC promises about the rows of one suffix. */
  ghost predicate OrderedForDistinct(t: seq<Drep>) {
    forall i, j :: 0 <= i < j < |t| && SameDRep(t[i], t[j]) ==> GoesFirst(t[i], t[j])
  }

  lemma {:induction false} DistinctOnKeepsPrimaries(t: seq<Drep>, x: Drep)
    requires OrderedForDistinct(t) && NoTies(t)
    ensures x in DistinctOn(t) <==> Primary(t, x)
  {
    hide Suffix;
    if t != [] {
      var init, last := t[..|t| - 1], t[|t| - 1];
      assert t == init + [last];
      assert forall i :: 0 <= i < |init| ==> init[i] == t[i];
      assert OrderedForDistinct(init) && NoTies(init);
      DistinctOnKeepsPrimaries(init, x);
      PrimaryOneMore(init, last, x);
    }
  }

  /** Behind rows that come first, a row is primary only if it is the first of its DRep, or is already there. */
  lemma PrimaryOneMore(init: seq<Drep>, last: Drep, x: Drep)
    requires OrderedForDistinct(init + [last]) && NoTies(init + [last])
    ensures Primary(init + [last], x)
            <==> Primary(init, x) || (x == last && !exists d :: d in init && SameDRep(d, last))
  {
    hide Suffix;
    var t := init + [last];
    forall d | d in init && SameDRep(d, last) ensures GoesFirst(d, last) {
      var i :| 0 <= i < |init| && init[i] == d;
      assert t[i] == d && t[|init|] == last;
    }
    assert last in t;
    assert forall d :: d in t <==> d in init || d == last;
    if Primary(t, x) && x == last && exists d :: d in init && SameDRep(d, last) {
      var d :| d in init && SameDRep(d, last);
      assert d in t;
      assert GoesFirst(last, d) && GoesFirst(d, last);
      assert d == last;
      assert Primary(init, x);
    }
  }

  /** Without ties and filters, the database keeps exactly the rows the in-memory version shows. */
  lemma SqlKeepsTheSameRows(rows: seq<Drep>, t: seq<Drep>, votes: Pairs, delegators: Pairs, id: string)
    requires NoTies(rows) && OrderedForDistinct(t) && forall d :: d in t <==> d in rows
    ensures (exists d :: d in DistinctOn(t) && d.drepId == id)
            <==> (exists c :: c in ConsolidatedRows(rows, votes, delegators) && c.drepId == id)
  {
    var r := ConsolidatedRows(rows, votes, delegators);
    forall p ensures Primary(rows, p) <==> Primary(t, p) {}
    assert NoTies(t);
    OnePrimary(rows);
    hide Primary, ConsolidatedRows, DistinctOn, NoTies, OnePrimaryEach;
    if exists d :: d in DistinctOn(t) && d.drepId == id {
      var d :| d in DistinctOn(t) && d.drepId == id;
      DistinctOnKeepsPrimaries(t, d);
      ConsolidatedAreShown(rows, votes, delegators, Shown(rows, votes, delegators, d));
      assert Shown(rows, votes, delegators, d) in r;
    }
    if exists c :: c in r && c.drepId == id {
      var c :| c in r && c.drepId == id;
      ConsolidatedAreShown(rows, votes, delegators, c);
      var p :| Primary(rows, p) && c == Shown(rows, votes, delegators, p);
      DistinctOnKeepsPrimaries(t, p);
      assert p in DistinctOn(t);
    }
  }

  // ----- filters

  /** The in-memory version filters the rows and then consolidates; the SQL one consolidates first. */
  lemma {:induction false} FilteredAre(rows: seq<Drep>, keep: Drep -> bool)
    ensures forall d :: d in Filtered(rows, keep) <==> d in rows && keep(d)
  {
    if rows != [] {
      FilteredAre(rows[..|rows| - 1], keep);
      assert rows == rows[..|rows| - 1] + [rows[|rows| - 1]];
    }
  }

  /** The in-memory version, with the filter `keep`, shows the row with this id. */
  ghost predicate ListedInMemory(rows: seq<Drep>, votes: Pairs, delegators: Pairs, keep: Drep -> bool, id: string) {
    exists c :: c in ConsolidatedRows(Filtered(rows, keep), votes, delegators) && c.drepId == id
  }

  /** So does the database, with the filter `keep` beside DISTINCT ON; t holds the rows as it orders them. */
  ghost predicate ListedBySql(t: seq<Drep>, keep: Drep -> bool, id: string) {
    exists d :: d in DistinctOn(t) && keep(d) && d.drepId == id
  }

  /** In terms of primary rows: of those that pass, or of all and passing. */
  lemma ListedAre(
      rows: seq<Drep>, t: seq<Drep>, votes: Pairs, delegators: Pairs, f: Drep -> bool, g: Drep -> bool, id: string)
    requires NoTies(rows) && OrderedForDistinct(t) && forall d :: d in t <==> d in rows
    ensures ListedInMemory(rows, votes, delegators, f, id)
            <==> exists p :: Primary(Filtered(rows, f), p) && p.drepId == id
    ensures ListedBySql(t, g, id) <==> exists p :: Primary(rows, p) && g(p) && p.drepId == id
  {
    var passing := Filtered(rows, f);
    FilteredAre(rows, f);
    assert NoTies(passing) && NoTies(t);
    OnePrimary(passing);
    forall p ensures Primary(rows, p) <==> Primary(t, p) {}
    hide Primary, ConsolidatedRows, DistinctOn, NoTies, OnePrimaryEach, Filtered, OrderedForDistinct;
    if exists p :: Primary(passing, p) && p.drepId == id {
      var p :| Primary(passing, p) && p.drepId == id;
      ConsolidatedAreShown(passing, votes, delegators, Shown(passing, votes, delegators, p));
    }
    if ListedInMemory(rows, votes, delegators, f, id) {
      var c :| c in ConsolidatedRows(passing, votes, delegators) && c.drepId == id;
      ConsolidatedAreShown(passing, votes, delegators, c);
    }
    forall p ensures p in DistinctOn(t) <==> Primary(rows, p) {
      DistinctOnKeepsPrimaries(t, p);
    }
  }

  /** Every row's DRep has a primary row. */
  lemma PrimaryOf(rows: seq<Drep>, m: Drep) returns (p: Drep)
    requires m in rows
    ensures Primary(rows, p) && SameDRep(m, p)
  {
    GroupsPartition(rows, Suffix(m.hex), m);
    var i :| 0 <= i < |Suffixes(rows)| && Suffixes(rows)[i] == Suffix(m.hex);
    p := ConsolidatedIsShown(rows, [], [], i);
  }

  /**
   * With f the filter in memory and g the one in SQL: no primary row passes g alone, and behind a primary
   * row that does not pass both, no row passes f.
   */
  ghost predicate FiltersFit(rows: seq<Drep>, f: Drep -> bool, g: Drep -> bool) {
    && (forall p :: Primary(rows, p) && g(p) ==> f(p))
    && (forall p, m :: Primary(rows, p) && m in rows && SameDRep(m, p) && f(m) ==> f(p) && g(p))
  }

  /** If the filters fit, a row is shown by the one version exactly if it is by the other. */
  lemma FittingFilters(rows: seq<Drep>, f: Drep -> bool, g: Drep -> bool, d: Drep)
    requires NoTies(rows) && FiltersFit(rows, f, g)
    ensures Primary(Filtered(rows, f), d) <==> Primary(rows, d) && g(d)
  {
    FilteredAre(rows, f);
    hide Filtered, Suffix;
    if Primary(Filtered(rows, f), d) {
      var p := PrimaryOf(rows, d);
      assert p in Filtered(rows, f);
      assert GoesFirst(d, p) && GoesFirst(p, d);
      assert d == p;
    }
  }

  /** A DRep for which they do not fit shows a row in one of the two versions only. */
  lemma MisfitShows(rows: seq<Drep>, f: Drep -> bool, g: Drep -> bool) returns (d: Drep)
    requires NoTies(rows) && !FiltersFit(rows, f, g)
    ensures d in rows && (Primary(Filtered(rows, f), d) <==> !(Primary(rows, d) && g(d)))
  {
    FilteredAre(rows, f);
    hide Filtered, Suffix;
    if p :| Primary(rows, p) && g(p) && !f(p) {
      d := p;
    } else {
      var p, m :| Primary(rows, p) && m in rows && SameDRep(m, p) && f(m) && !(f(p) && g(p));
      d := PrimaryOf(Filtered(rows, f), m);
      if Primary(rows, d) {
        OnePrimary(rows);
      }
    }
  }

  /**
   * Without ties, the two versions list the same DReps under the same ids, whatever filters they apply,
   * if and only if the filters fit the primary rows and those behind them.
   */
  lemma FiltersAgreeIff(
      rows: seq<Drep>, t: seq<Drep>, votes: Pairs, delegators: Pairs, f: Drep -> bool, g: Drep -> bool)
    requires NoTies(rows) && KeyedById(rows) && OrderedForDistinct(t) && forall d :: d in t <==> d in rows
    ensures (forall id :: ListedInMemory(rows, votes, delegators, f, id) <==> ListedBySql(t, g, id))
            <==> FiltersFit(rows, f, g)
  {
    var passing := Filtered(rows, f);
    FilteredAre(rows, f);
    forall id
      ensures ListedInMemory(rows, votes, delegators, f, id) <==> exists p :: Primary(passing, p) && p.drepId == id
      ensures ListedBySql(t, g, id) <==> exists p :: Primary(rows, p) && g(p) && p.drepId == id
    {
      ListedAre(rows, t, votes, delegators, f, g, id);
    }
    hide Filtered, ListedInMemory, ListedBySql, NoTies, FiltersFit, OrderedForDistinct;
    if FiltersFit(rows, f, g) {
      forall id ensures ListedInMemory(rows, votes, delegators, f, id) <==> ListedBySql(t, g, id) {
        forall p ensures Primary(passing, p) <==> Primary(rows, p) && g(p) {
          FittingFilters(rows, f, g, p);
        }
        hide Primary;
      }
    } else {
      var d := MisfitShows(rows, f, g);
      var id := d.drepId;
      assert ListedInMemory(rows, votes, delegators, f, id) <==> Primary(passing, d);
      assert ListedBySql(t, g, id) <==> Primary(rows, d) && g(d);
    }
  }

  /** With one and the same filter: if and only if no row passes behind a primary row that does not. */
  lemma SameFilterIff(rows: seq<Drep>, t: seq<Drep>, votes: Pairs, delegators: Pairs, keep: Drep -> bool)
    requires NoTies(rows) && KeyedById(rows) && OrderedForDistinct(t) && forall d :: d in t <==> d in rows
    ensures (forall id :: ListedInMemory(rows, votes, delegators, keep, id) <==> ListedBySql(t, keep, id))
            <==> forall p, m :: Primary(rows, p) && m in rows && SameDRep(m, p) && keep(m) ==> keep(p)
  {
    FiltersAgreeIff(rows, t, votes, delegators, keep, keep);
    hide Primary, SameDRep, ListedInMemory, ListedBySql, NoTies, OrderedForDistinct, KeyedById;
  }

  /** The filter of the SQL version when retired DReps are not asked for; the in-memory one has none for them. */
  function NotRetired(keep: Drep -> bool): Drep -> bool {
    (d: Drep) => keep(d) && !d.retired
  }

  /**
   * When retired DReps are not asked for, the two list the same if and only if no row that passes stands
   * behind a primary row that is retired or does not pass.
   */
  lemma RetiredFilterIff(rows: seq<Drep>, t: seq<Drep>, votes: Pairs, delegators: Pairs, keep: Drep -> bool)
    requires NoTies(rows) && KeyedById(rows) && OrderedForDistinct(t) && forall d :: d in t <==> d in rows
    ensures (forall id :: ListedInMemory(rows, votes, delegators, keep, id) <==> ListedBySql(t, NotRetired(keep), id))
            <==> forall p, m :: Primary(rows, p) && m in rows && SameDRep(m, p) && keep(m) ==> keep(p) && !p.retired
  {
    FiltersAgreeIff(rows, t, votes, delegators, keep, NotRetired(keep));
    hide Primary, SameDRep, ListedInMemory, ListedBySql, NoTies, OrderedForDistinct, KeyedById;
  }

  /** One retired row and no filter: the in-memory version lists it and the SQL one does not. */
  lemma RetiredRowDiffers(row: Drep, votes: Pairs, delegators: Pairs)
    requires row.retired
    ensures var all := (d: Drep) => true;
            && ListedInMemory([row], votes, delegators, all, row.drepId)
            && !ListedBySql([row], NotRetired(all), row.drepId)
  {
    var all := (d: Drep) => true;
    assert [row][..0] == [];
    assert forall d :: d in [row] <==> d == row;
    assert Primary([row], row);
    assert Filtered([row], all) == [row];
    ListedAre([row], [row], votes, delegators, all, NotRetired(all), row.drepId);
    hide ListedInMemory, ListedBySql, Filtered;
    assert Primary(Filtered([row], all), row);
  }

  /** An inactive row with the longer hex in front of an active alias: only the in-memory version lists the DRep. */
  lemma InactivePrimaryDiffers(long: Drep, short: Drep, votes: Pairs, delegators: Pairs)
    requires SameDRep(long, short) && |long.hex| > |short.hex| && long.drepId != short.drepId
    requires !long.active && short.active
    ensures var active := (d: Drep) => d.active;
            && ListedInMemory([long, short], votes, delegators, active, short.drepId)
            && !ListedBySql([long, short], active, short.drepId)
  {
    var rows, active := [long, short], (d: Drep) => d.active;
    PairFacts(long, short, active);
    hide *;
    ListedAre(rows, rows, votes, delegators, active, active, short.drepId);
  }

  lemma PairFacts(long: Drep, short: Drep, keep: Drep -> bool)
    requires SameDRep(long, short) && |long.hex| > |short.hex| && long.drepId != short.drepId
    requires !keep(long) && keep(short)
    ensures var rows := [long, short];
            && NoTies(rows) && OrderedForDistinct(rows)
            && Primary(Filtered(rows, keep), short)
            && forall p :: Primary(rows, p) ==> p.drepId != short.drepId
  {
    var rows := [long, short];
    assert rows[..1] == [long] && rows[..1][..0] == [];
    assert forall d :: d in rows <==> d == long || d == short;
    hide Suffix;
    assert Filtered(rows[..1], keep) == [];
    assert Filtered(rows, keep) == [short];
    hide Filtered;
    assert Primary([short], short);
    assert long in rows;
  }
}
