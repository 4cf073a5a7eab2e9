/**
 * Showing the aliases of a DRep (rows whose hex ends in the same 56 digits) as one DRep: in memory,
 * sorted and paged, and by DISTINCT ON in the database.
 */
module Consolidation {
  import opened Basics
  import opened StableSort
  import opened Bech32

  /** A dreps row; `column` is the value of the requested sort column, as its place in the order. */
  datatype Drep = Drep(
    drepId: string,
    hex: string,
    createdAt: int,
    active: bool,
    retired: bool,
    column: int,
    delegationVoteCount: nat,
    governanceVoteCount: nat)

  /** Rows of a two-column table: (voter, proposal_id) or (drep_id, stake_address). */
  type Pairs = seq<(string, string)>

  function Suffix(hex: string): string {
    if |hex| >= 56 then Lower(hex[|hex| - 56..]) else Lower(hex)
  }

  /** Longer hex first, then the later row. */
  function PrimaryKey(d: Drep): Key {
    (-|d.hex|, -d.createdAt)
  }

  // ----- the maps from ids to what they collected

  function ValuesOf(table: Pairs, id: string): set<string> {
    set r | r in table && r.0 == id :: r.1
  }

  method IndexById(table: Pairs) returns (m: map<string, set<string>>)
    ensures forall id :: id in m <==> ValuesOf(table, id) != {}
    ensures forall id :: id in m ==> m[id] == ValuesOf(table, id)
  {
    m := map[];
    for i := 0 to |table|
      invariant forall id :: id in m <==> ValuesOf(table[..i], id) != {}
      invariant forall id :: id in m ==> m[id] == ValuesOf(table[..i], id)
    {
      var (id, value) := table[i];
      ValuesOneMore(table, i);
      hide ValuesOf;
      if id !in m {
        m := m[id := {}];
      }
      m := m[id := m[id] + {value}];
    }
    assert table[..|table|] == table;
  }

  lemma ValuesOneMore(table: Pairs, i: nat)
    requires i < |table|
    ensures forall id :: ValuesOf(table[..i + 1], id)
                         == if id == table[i].0
                            then ValuesOf(table[..i], id) + {table[i].1} else ValuesOf(table[..i], id)
  {
    assert table[..i + 1] == table[..i] + [table[i]];
    forall id
      ensures ValuesOf(table[..i + 1], id)
              == if id == table[i].0 then ValuesOf(table[..i], id) + {table[i].1} else ValuesOf(table[..i], id)
    {
      assert forall r :: r in table[..i + 1] <==> r in table[..i] || r == table[i];
    }
  }

  // ----- groups

  /** The rows of a suffix, in their order. */
  function Members(rows: seq<Drep>, suffix: string): seq<Drep> {
    if rows == [] then []
    else Members(rows[..|rows| - 1], suffix) + if Suffix(rows[|rows| - 1].hex) == suffix then [rows[|rows| - 1]] else []
  }

  /** The suffixes in order of first appearance, as a Map keeps its keys. */
  function Suffixes(rows: seq<Drep>): seq<string> {
    if rows == [] then []
    else
      var before, s := Suffixes(rows[..|rows| - 1]), Suffix(rows[|rows| - 1].hex);
      if s in before then before else before + [s]
  }

  /** Everything collected under any of the ids of the rows. */
  function Union(table: Pairs, rows: seq<Drep>): set<string> {
    set r, d | r in table && d in rows && r.0 == d.drepId :: r.1
  }

  function Consolidated(group: seq<Drep>, votes: Pairs, delegators: Pairs): Drep
    requires group != []
  {
    SortKeepsLength(group, PrimaryKey);
    Sort(group, PrimaryKey)[0].(
      delegationVoteCount := |Union(delegators, group)|,
      governanceVoteCount := |Union(votes, group)|)
  }

  lemma {:induction false} MembersAre(rows: seq<Drep>, suffix: string)
    ensures forall d :: d in Members(rows, suffix) <==> d in rows && Suffix(d.hex) == suffix
    ensures suffix in Suffixes(rows) <==> Members(rows, suffix) != []
  {
    hide Suffix;
    if rows != [] {
      var init, last := rows[..|rows| - 1], rows[|rows| - 1];
      assert rows == init + [last];
      MembersAre(init, suffix);
    }
  }

  lemma {:induction false} SuffixesDistinct(rows: seq<Drep>)
    ensures Distinct(Suffixes(rows))
  {
    if rows != [] {
      SuffixesDistinct(rows[..|rows| - 1]);
    }
  }

  /** One consolidated row per suffix. */
  function ConsolidatedRows(rows: seq<Drep>, votes: Pairs, delegators: Pairs): (r: seq<Drep>)
    ensures |r| == |Suffixes(rows)|
  {
    AllMembers(rows);
    seq(|Suffixes(rows)|, i requires 0 <= i < |Suffixes(rows)| =>
          Consolidated(Members(rows, Suffixes(rows)[i]), votes, delegators))
  }

  lemma AllMembers(rows: seq<Drep>)
    ensures forall i :: 0 <= i < |Suffixes(rows)| ==> Members(rows, Suffixes(rows)[i]) != []
  {
    forall i | 0 <= i < |Suffixes(rows)| ensures Members(rows, Suffixes(rows)[i]) != [] {
      MembersAre(rows, Suffixes(rows)[i]);
    }
  }

  method GroupBySuffix(rows: seq<Drep>) returns (keys: seq<string>, groups: map<string, seq<Drep>>)
    ensures keys == Suffixes(rows)
    ensures forall s :: s in groups <==> s in keys
    ensures forall s :: s in groups ==> groups[s] == Members(rows, s)
  {
    keys, groups := [], map[];
    for i := 0 to |rows|
      invariant keys == Suffixes(rows[..i])
      invariant forall s :: s in groups <==> s in keys
      invariant forall s :: s in groups ==> groups[s] == Members(rows[..i], s)
    {
      var drep := rows[i];
      var suffix := if |drep.hex| >= 56 then Lower(drep.hex[|drep.hex| - 56..]) else Lower(drep.hex);
      assert rows[..i + 1][..i] == rows[..i];
      MembersAre(rows[..i], suffix);
      assert suffix == Suffix(drep.hex);
      hide Suffix, Lower;
      if suffix !in groups {
        groups := groups[suffix := []];
        keys := keys + [suffix];
      }
      groups := groups[suffix := groups[suffix] + [drep]];
    }
    assert rows[..|rows|] == rows;
  }

  /** Merges what the members of a group collected. */
  method Collect(group: seq<Drep>, index: map<string, set<string>>, ghost table: Pairs) returns (all: set<string>)
    requires forall id :: id in index <==> ValuesOf(table, id) != {}
    requires forall id :: id in index ==> index[id] == ValuesOf(table, id)
    ensures all == Union(table, group)
  {
    all := {};
    for i := 0 to |group|
      invariant all == Union(table, group[..i])
    {
      UnionOneMore(table, group, i);
      hide Union, ValuesOf;
      if group[i].drepId in index {
        all := all + index[group[i].drepId];
      }
    }
    assert group[..|group|] == group;
  }

  lemma UnionOneMore(table: Pairs, group: seq<Drep>, i: nat)
    requires i < |group|
    ensures Union(table, group[..i + 1]) == Union(table, group[..i]) + ValuesOf(table, group[i].drepId)
  {
    assert group[..i + 1] == group[..i] + [group[i]];
    assert forall d :: d in group[..i + 1] <==> d in group[..i] || d == group[i];
    var l, r := Union(table, group[..i + 1]), Union(table, group[..i]) + ValuesOf(table, group[i].drepId);
    forall v | v in l ensures v in r {
      var p, d :| p in table && d in group[..i + 1] && p.0 == d.drepId && p.1 == v;
    }
    forall v | v in r ensures v in l {
      if v in Union(table, group[..i]) {
        var p, d :| p in table && d in group[..i] && p.0 == d.drepId && p.1 == v;
        assert d in group[..i + 1];
      } else {
        var p :| p in table && p.0 == group[i].drepId && p.1 == v;
        assert group[i] in group[..i + 1];
      }
    }
  }

  lemma ConsolidatedRowIs(rows: seq<Drep>, votes: Pairs, delegators: Pairs, i: nat)
    requires i < |Suffixes(rows)|
    ensures var group := Members(rows, Suffixes(rows)[i]);
            var sorted := Sort(group, PrimaryKey);
            && sorted != []
            && ConsolidatedRows(rows, votes, delegators)[i]
               == sorted[0].(
                    delegationVoteCount := |Union(delegators, group)|,
                    governanceVoteCount := |Union(votes, group)|)
  {
    AllMembers(rows);
    SortKeepsLength(Members(rows, Suffixes(rows)[i]), PrimaryKey);
    hide Union, Sort, Suffixes, Members;
  }

  method Consolidate(rows: seq<Drep>, votes: Pairs, delegators: Pairs) returns (consolidated: seq<Drep>)
    ensures consolidated == ConsolidatedRows(rows, votes, delegators)
  {
    var votesMap := IndexById(votes);
    var delegatorsMap := IndexById(delegators);
    var keys, groups := GroupBySuffix(rows);
    consolidated := [];
    hide *;
    for i := 0 to |keys|
      invariant |consolidated| == i
      invariant forall j :: 0 <= j < i ==> consolidated[j] == ConsolidatedRows(rows, votes, delegators)[j]
    {
      var group := groups[keys[i]];
      ConsolidatedRowIs(rows, votes, delegators, i);
      var primary := Sort(group, PrimaryKey)[0];
      var uniqueDelegators := Collect(group, delegatorsMap, delegators);
      var uniqueVotes := Collect(group, votesMap, votes);
      consolidated := consolidated
        + [primary.(delegationVoteCount := |uniqueDelegators|, governanceVoteCount := |uniqueVotes|)];
    }
  }
}
