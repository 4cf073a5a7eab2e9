/** Loading a comment thread: the replies of replies, with their reactions, newest first. */
module CommentTree {
  import opened Basics
  import opened StableSort

  datatype Comment = Comment(
    id: nat,
    parentId: nat,
    parentEntity: string,
    createdAt: int,
    content: string,
    voter: string)

  datatype Reaction = Reaction(id: nat, parentId: nat, parentEntity: string, kind: string, voter: string)

  /** A comment with what the load puts into it. */
  datatype Node = Node(comment: Comment, reactions: seq<Reaction>, comments: seq<Node>)

  const COMMENT := "comment"

  /** A reply is stored after the comment it replies to, and ids grow. */
  ghost predicate RepliesAreNewer(rows: seq<Comment>) {
    forall c :: c in rows && c.parentEntity == COMMENT ==> c.id > c.parentId
  }

  ghost predicate UniqueIds(rows: seq<Comment>) {
    forall i, j :: 0 <= i < j < |rows| ==> rows[i].id != rows[j].id
  }

  // ----- the queries

  /** findByParent: the rows of a parent in the order the database returns them. */
  function Children(rows: seq<Comment>, parentId: nat, parentEntity: string): seq<Comment> {
    if rows == [] then []
    else
      var last := rows[|rows| - 1];
      Children(rows[..|rows| - 1], parentId, parentEntity)
      + if last.parentId == parentId && last.parentEntity == parentEntity then [last] else []
  }

  function ReactionsTo(reactions: seq<Reaction>, commentId: nat): seq<Reaction> {
    if reactions == [] then []
    else
      var last := reactions[|reactions| - 1];
      ReactionsTo(reactions[..|reactions| - 1], commentId)
      + if last.parentId == commentId && last.parentEntity == COMMENT then [last] else []
  }

  lemma {:induction false} ChildrenAre(rows: seq<Comment>, parentId: nat, parentEntity: string)
    ensures forall c :: c in Children(rows, parentId, parentEntity)
                        <==> c in rows && c.parentId == parentId && c.parentEntity == parentEntity
  {
    if rows != [] {
      ChildrenAre(rows[..|rows| - 1], parentId, parentEntity);
      assert rows == rows[..|rows| - 1] + [rows[|rows| - 1]];
    }
  }

  // ----- the load

  function HighestId(rows: seq<Comment>): (m: nat)
    ensures forall c :: c in rows ==> c.id <= m
  {
    if rows == [] then 0
    else
      var last := rows[|rows| - 1];
      assert rows == rows[..|rows| - 1] + [last];
      Max(HighestId(rows[..|rows| - 1]), last.id)
  }

  /** How much room is left for ids above a parent's. */
  function Room(rows: seq<Comment>, parentId: nat): nat {
    Max(0, HighestId(rows) - parentId)
  }

  function NewestFirst(n: Node): Key {
    (-n.comment.createdAt, 0)
  }

  ghost function Load(rows: seq<Comment>, reactions: seq<Reaction>, parentId: nat, parentEntity: string): seq<Node>
    requires RepliesAreNewer(rows)
    decreases parentEntity != COMMENT, Room(rows, parentId), 0
  {
    ChildrenAre(rows, parentId, parentEntity);
    var found := Children(rows, parentId, parentEntity);
    Sort(seq(|found|, i requires 0 <= i < |found| => NodeOf(rows, reactions, found[i])), NewestFirst)
  }

  ghost function NodeOf(rows: seq<Comment>, reactions: seq<Reaction>, c: Comment): Node
    requires RepliesAreNewer(rows)
    decreases false, Room(rows, c.id), 1
  {
    Node(c, ReactionsTo(reactions, c.id), Load(rows, reactions, c.id, COMMENT))
  }

  lemma LoadSorts(rows: seq<Comment>, reactions: seq<Reaction>, parentId: nat, parentEntity: string, nodes: seq<Node>)
    requires RepliesAreNewer(rows)
    requires var found := Children(rows, parentId, parentEntity);
             |nodes| == |found| && forall i :: 0 <= i < |found| ==> nodes[i] == NodeOf(rows, reactions, found[i])
    ensures Load(rows, reactions, parentId, parentEntity) == Sort(nodes, NewestFirst)
  {
    var found := Children(rows, parentId, parentEntity);
    assert nodes == seq(|found|, i requires 0 <= i < |found| => NodeOf(rows, reactions, found[i]));
    hide Children, Sort, NodeOf;
  }

  lemma NodeIs(rows: seq<Comment>, reactions: seq<Reaction>, c: Comment)
    requires RepliesAreNewer(rows)
    ensures NodeOf(rows, reactions, c) == Node(c, ReactionsTo(reactions, c.id), Load(rows, reactions, c.id, COMMENT))
  {
    hide Load, ReactionsTo;
  }

  /** Terminates because every nested call is about a higher id. */
  method GetCommentsWithReactionsAndReplies(
      rows: seq<Comment>, reactions: seq<Reaction>, parentId: nat, parentEntity: string)
    returns (sortedComments: seq<Node>)
    requires RepliesAreNewer(rows)
    ensures sortedComments == Load(rows, reactions, parentId, parentEntity)
    decreases parentEntity != COMMENT, Room(rows, parentId)
  {
    ChildrenAre(rows, parentId, parentEntity);
    var found := Children(rows, parentId, parentEntity);
    var comments := new Node[|found|](i requires 0 <= i < |found| => Node(found[i], [], []));
    hide Load, Children, HighestId, Sort, ReactionsTo, NodeOf;
    for i := 0 to comments.Length
      invariant comments.Length == |found|
      invariant forall j :: 0 <= j < i ==> comments[j] == NodeOf(rows, reactions, found[j])
      invariant forall j :: i <= j < |found| ==> comments[j].comment == found[j]
    {
      var id := comments[i].comment.id;
      comments[i] := comments[i].(reactions := ReactionsTo(reactions, id));
      var replies := GetCommentsWithReactionsAndReplies(rows, reactions, id, COMMENT);
      comments[i] := comments[i].(comments := replies);
      NodeIs(rows, reactions, found[i]);
    }
    LoadSorts(rows, reactions, parentId, parentEntity, comments[..]);
    sortedComments := Sort(comments[..], NewestFirst);
  }

  // ----- who descends from a parent, going up from the comment

  ghost predicate Descends(rows: seq<Comment>, parentId: nat, parentEntity: string, c: Comment)
    decreases c.id
  {
    && c in rows
    && ((c.parentId == parentId && c.parentEntity == parentEntity)
        || (c.parentEntity == COMMENT
            && exists p :: p in rows && p.id == c.parentId && p.id < c.id && Descends(rows, parentId, parentEntity, p)))
  }

  /** c is k or descends from it. */
  ghost predicate Under(rows: seq<Comment>, k: Comment, c: Comment) {
    c == k || Descends(rows, k.id, COMMENT, c)
  }

  ghost predicate IsChild(rows: seq<Comment>, parentId: nat, parentEntity: string, k: Comment) {
    k in rows && k.parentId == parentId && k.parentEntity == parentEntity
  }

  lemma {:induction false} DescendantsAreNewer(rows: seq<Comment>, parentId: nat, c: Comment)
    requires RepliesAreNewer(rows) && Descends(rows, parentId, COMMENT, c)
    ensures c.id > parentId
    decreases c.id
  {
    if c.parentId != parentId {
      var p :| p in rows && p.id == c.parentId && p.id < c.id && Descends(rows, parentId, COMMENT, p);
      DescendantsAreNewer(rows, parentId, p);
    }
  }

  lemma NotBelowItself(rows: seq<Comment>, c: Comment)
    requires RepliesAreNewer(rows)
    ensures !Descends(rows, c.id, COMMENT, c)
  {
    if Descends(rows, c.id, COMMENT, c) { DescendantsAreNewer(rows, c.id, c); }
  }

  /** A descendant is under some child of the ancestor. */
  lemma {:induction false} ChildAbove(
      rows: seq<Comment>, parentId: nat, parentEntity: string, c: Comment)
    returns (k: Comment)
    requires RepliesAreNewer(rows) && Descends(rows, parentId, parentEntity, c)
    ensures IsChild(rows, parentId, parentEntity, k) && Under(rows, k, c)
    decreases c.id
  {
    if c.parentId == parentId && c.parentEntity == parentEntity {
      k := c;
    } else {
      var p :| p in rows && p.id == c.parentId && p.id < c.id && Descends(rows, parentId, parentEntity, p);
      k := ChildAbove(rows, parentId, parentEntity, p);
    }
  }

  /** And whatever is under a child descends from its parent. */
  lemma {:induction false} UnderChild(rows: seq<Comment>, parentId: nat, parentEntity: string, k: Comment, c: Comment)
    requires RepliesAreNewer(rows) && IsChild(rows, parentId, parentEntity, k) && Under(rows, k, c)
    ensures Descends(rows, parentId, parentEntity, c)
    decreases c.id
  {
    if c != k {
      if c.parentId == k.id && c.parentEntity == COMMENT {
        assert k.id < c.id && Descends(rows, parentId, parentEntity, k);
      } else {
        var p :| p in rows && p.id == c.parentId && p.id < c.id && Descends(rows, k.id, COMMENT, p);
        UnderChild(rows, parentId, parentEntity, k, p);
      }
    }
  }

  ghost predicate SameIdSameRow(rows: seq<Comment>) {
    forall a, b :: a in rows && b in rows && a.id == b.id ==> a == b
  }

  /** Two children of one parent have no descendants in common. */
  lemma {:induction false} OneChildAbove(
      rows: seq<Comment>, parentId: nat, parentEntity: string, k: Comment, l: Comment, c: Comment)
    requires RepliesAreNewer(rows) && SameIdSameRow(rows)
    requires IsChild(rows, parentId, parentEntity, k) && IsChild(rows, parentId, parentEntity, l)
    requires Under(rows, k, c) && Under(rows, l, c)
    ensures k == l
    decreases c.id
  {
    if c == k && c == l {
    } else if c == k {
      ChildNotBelowSibling(rows, parentId, parentEntity, k, l);
    } else if c == l {
      ChildNotBelowSibling(rows, parentId, parentEntity, l, k);
    } else {
      var p := ParentUnder(rows, k, c);
      var q := ParentUnder(rows, l, c);
      assert p == q;
      OneChildAbove(rows, parentId, parentEntity, k, l, p);
    }
  }

  lemma ParentUnder(rows: seq<Comment>, k: Comment, c: Comment) returns (p: Comment)
    requires RepliesAreNewer(rows) && k in rows && Descends(rows, k.id, COMMENT, c)
    ensures p in rows && p.id == c.parentId && p.id < c.id && Under(rows, k, p)
  {
    if c.parentId == k.id && c.parentEntity == COMMENT {
      p := k;
    } else {
      p :| p in rows && p.id == c.parentId && p.id < c.id && Descends(rows, k.id, COMMENT, p);
    }
  }

  lemma ChildNotBelowSibling(rows: seq<Comment>, parentId: nat, parentEntity: string, k: Comment, l: Comment)
    requires RepliesAreNewer(rows) && SameIdSameRow(rows)
    requires IsChild(rows, parentId, parentEntity, k) && IsChild(rows, parentId, parentEntity, l)
    ensures !Descends(rows, l.id, COMMENT, k)
  {
    if Descends(rows, l.id, COMMENT, k) {
      DescendantsAreNewer(rows, l.id, k);
      var p := ParentUnder(rows, l, k);
      if p != l {
        DescendantsAreNewer(rows, l.id, p);
      }
      assert false;
    }
  }

  // ----- how often a tree contains a comment

  function Count(forest: seq<Node>, c: Comment): nat {
    if forest == [] then 0 else CountNode(forest[0], c) + Count(forest[1..], c)
  }

  function CountNode(n: Node, c: Comment): nat {
    (if n.comment == c then 1 else 0) + Count(n.comments, c)
  }

  lemma {:induction false} CountConcat(a: seq<Node>, b: seq<Node>, c: Comment)
    ensures Count(a + b, c) == Count(a, c) + Count(b, c)
  {
    hide CountNode;
    if a == [] {
      assert a + b == b;
    } else {
      CountConcat(a[1..], b, c);
      assert (a + b)[1..] == a[1..] + b;
    }
  }

  function Without<T>(b: seq<T>, j: nat): seq<T>
    requires j < |b|
  {
    b[..j] + b[j + 1..]
  }

  lemma WithoutInMultiset<T>(b: seq<T>, j: nat)
    requires j < |b|
    ensures multiset(Without(b, j)) == multiset(b) - multiset{b[j]}
  {
    assert b == b[..j] + ([b[j]] + b[j + 1..]);
  }

  lemma CountWithout(b: seq<Node>, j: nat, c: Comment)
    requires j < |b|
    ensures Count(b, c) == CountNode(b[j], c) + Count(Without(b, j), c)
  {
    var tail := [b[j]] + b[j + 1..];
    assert b == b[..j] + tail && tail[1..] == b[j + 1..];
    CountConcat(b[..j], b[j + 1..], c);
    CountConcat(b[..j], tail, c);
    hide CountNode;
  }

  lemma {:induction false} CountOfPermutation(a: seq<Node>, b: seq<Node>, c: Comment)
    requires multiset(a) == multiset(b)
    ensures Count(a, c) == Count(b, c)
  {
    assert |a| == |multiset(a)| == |multiset(b)| == |b|;
    if a != [] {
      assert a[0] in multiset(b);
      var j :| 0 <= j < |b| && b[j] == a[0];
      WithoutInMultiset(a, 0);
      WithoutInMultiset(b, j);
      assert Without(a, 0) == a[1..];
      CountOfPermutation(a[1..], Without(b, j), c);
      CountWithout(b, j, c);
      hide CountNode, Without;
    }
  }

  /** One node contains the comment once and the others do not. */
  lemma {:induction false} CountOfOne(forest: seq<Node>, c: Comment, hit: int)
    requires forall i :: 0 <= i < |forest| ==> CountNode(forest[i], c) == if i == hit then 1 else 0
    ensures Count(forest, c) == if 0 <= hit < |forest| then 1 else 0
  {
    hide CountNode;
    if forest != [] {
      CountOfOne(forest[1..], c, hit - 1);
    }
  }

  lemma {:induction false} ChildrenHaveUniqueIds(rows: seq<Comment>, parentId: nat, parentEntity: string)
    requires UniqueIds(rows)
    ensures UniqueIds(Children(rows, parentId, parentEntity)) && SameIdSameRow(rows)
  {
    if rows != [] {
      var init := rows[..|rows| - 1];
      assert rows == init + [rows[|rows| - 1]];
      ChildrenHaveUniqueIds(init, parentId, parentEntity);
      ChildrenAre(init, parentId, parentEntity);
    }
  }

  /** The i-th child is the only one the comment is under, if any is. */
  lemma WhichChild(
      rows: seq<Comment>, parentId: nat, parentEntity: string, found: seq<Comment>, c: Comment)
    returns (hit: int)
    requires RepliesAreNewer(rows) && UniqueIds(rows) && found == Children(rows, parentId, parentEntity)
    ensures forall i :: 0 <= i < |found| ==> (Under(rows, found[i], c) <==> i == hit)
    ensures 0 <= hit < |found| <==> Descends(rows, parentId, parentEntity, c)
  {
    ChildrenAre(rows, parentId, parentEntity);
    ChildrenHaveUniqueIds(rows, parentId, parentEntity);
    hide Children, Under, Descends;
    forall i | 0 <= i < |found| ensures IsChild(rows, parentId, parentEntity, found[i]) {
      assert found[i] in found;
    }
    if Descends(rows, parentId, parentEntity, c) {
      var k := ChildAbove(rows, parentId, parentEntity, c);
      hit :| 0 <= hit < |found| && found[hit] == k;
      forall i | 0 <= i < |found| && Under(rows, found[i], c) ensures i == hit {
        OneChildAbove(rows, parentId, parentEntity, k, found[i], c);
      }
    } else {
      hit := -1;
      forall i | 0 <= i < |found| ensures !Under(rows, found[i], c) {
        if Under(rows, found[i], c) { UnderChild(rows, parentId, parentEntity, found[i], c); }
      }
    }
  }

  lemma CountOfNode(rows: seq<Comment>, reactions: seq<Reaction>, k: Comment, c: Comment)
    requires RepliesAreNewer(rows)
    ensures CountNode(NodeOf(rows, reactions, k), c)
            == (if k == c then 1 else 0) + Count(Load(rows, reactions, k.id, COMMENT), c)
  {
    hide Load, Count;
  }

  /** The tree loaded for a parent contains every descendant exactly once, and nothing else. */
  lemma {:induction false} LoadHasDescendantsOnce(
      rows: seq<Comment>, reactions: seq<Reaction>, parentId: nat, parentEntity: string, c: Comment)
    requires RepliesAreNewer(rows) && UniqueIds(rows)
    ensures Count(Load(rows, reactions, parentId, parentEntity), c)
            == if Descends(rows, parentId, parentEntity, c) then 1 else 0
    decreases parentEntity != COMMENT, Room(rows, parentId)
  {
    var found := Children(rows, parentId, parentEntity);
    var nodes := seq(|found|, i requires 0 <= i < |found| => NodeOf(rows, reactions, found[i]));
    LoadSorts(rows, reactions, parentId, parentEntity, nodes);
    ChildrenAre(rows, parentId, parentEntity);
    var hit := WhichChild(rows, parentId, parentEntity, found, c);
    forall i | 0 <= i < |nodes| ensures CountNode(nodes[i], c) == if i == hit then 1 else 0 {
      var k := found[i];
      assert k in found;
      LoadHasDescendantsOnce(rows, reactions, k.id, COMMENT, c);
      NotBelowItself(rows, k);
      CountOfNode(rows, reactions, k, c);
      assert Under(rows, k, c) <==> i == hit;
    }
    hide Load, NodeOf, CountNode, Descends, Under;
    CountOfOne(nodes, c, hit);
    SortIsSortedPermutation(nodes, NewestFirst);
    CountOfPermutation(Sort(nodes, NewestFirst), nodes, c);
  }

  // ----- shape

  /** Every level holds children of the node above, newest first, each with exactly its own reactions. */
  ghost predicate Ordered(forest: seq<Node>, reactions: seq<Reaction>, parentId: nat, parentEntity: string) {
    && (forall i, j :: 0 <= i < j < |forest| ==> forest[i].comment.createdAt >= forest[j].comment.createdAt)
    && (forall i :: 0 <= i < |forest| ==> Fits(forest[i], reactions, parentId, parentEntity))
  }

  ghost predicate Fits(n: Node, reactions: seq<Reaction>, parentId: nat, parentEntity: string) {
    && n.comment.parentId == parentId && n.comment.parentEntity == parentEntity
    && ReactTo(n.reactions, reactions, n.comment.id)
    && Ordered(n.comments, reactions, n.comment.id, "comment")
  }

  /** Those of all reactions that were made to this comment, and not to a note or a post with its id. */
  ghost predicate ReactTo(some: seq<Reaction>, all: seq<Reaction>, commentId: nat) {
    forall r :: multiset(some)[r]
                == if r.parentId == commentId && r.parentEntity == "comment" then multiset(all)[r] else 0
  }

  lemma {:induction false} ReactionsAre(reactions: seq<Reaction>, commentId: nat)
    ensures ReactTo(ReactionsTo(reactions, commentId), reactions, commentId)
  {
    if reactions != [] {
      var init := reactions[..|reactions| - 1];
      ReactionsAre(init, commentId);
      assert reactions == init + [reactions[|init|]];
    }
  }

  lemma SortedIsOrdered(nodes: seq<Node>, reactions: seq<Reaction>, parentId: nat, parentEntity: string)
    requires forall n :: n in nodes ==> Fits(n, reactions, parentId, parentEntity)
    ensures Ordered(Sort(nodes, NewestFirst), reactions, parentId, parentEntity)
  {
    var forest := Sort(nodes, NewestFirst);
    SortIsSortedPermutation(nodes, NewestFirst);
    SortKeepsLength(nodes, NewestFirst);
    hide Sort, Fits;
    forall i, j | 0 <= i < j < |forest| ensures forest[i].comment.createdAt >= forest[j].comment.createdAt {
      assert KeyLeq(NewestFirst(forest[i]), NewestFirst(forest[j]));
    }
    forall i | 0 <= i < |forest| ensures Fits(forest[i], reactions, parentId, parentEntity) {
      assert forest[i] in nodes;
    }
  }

  lemma {:induction false} LoadIsOrdered(
      rows: seq<Comment>, reactions: seq<Reaction>, parentId: nat, parentEntity: string)
    requires RepliesAreNewer(rows)
    ensures Ordered(Load(rows, reactions, parentId, parentEntity), reactions, parentId, parentEntity)
    decreases parentEntity != COMMENT, Room(rows, parentId)
  {
    var found := Children(rows, parentId, parentEntity);
    var nodes := seq(|found|, i requires 0 <= i < |found| => NodeOf(rows, reactions, found[i]));
    ChildrenAre(rows, parentId, parentEntity);
    LoadSorts(rows, reactions, parentId, parentEntity, nodes);
    hide Load, Ordered, Children, ReactionsTo, ReactTo, Sort;
    forall n | n in nodes ensures Fits(n, reactions, parentId, parentEntity) {
      var j :| 0 <= j < |nodes| && nodes[j] == n;
      assert found[j] in found;
      LoadIsOrdered(rows, reactions, found[j].id, COMMENT);
      ReactionsAre(reactions, found[j].id);
    }
    SortedIsOrdered(nodes, reactions, parentId, parentEntity);
  }
}
