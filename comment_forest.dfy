/**
 * What the grown forest contains. Walking it depth-first lists every comment
 * whose chain of parents ends at a root exactly once, and nothing else: the
 * orphans, the replies below them, and any comments on a parent cycle are
 * all absent.
 */
module ForestContents {
  import opened Wrappers
  import opened Seqs
  import opened CommentTree

  /** The comments of a forest, depth-first: each comment followed by its replies. */
  function Flatten(nodes: seq<Node>): seq<Comment>
    decreases nodes
  {
    if nodes == [] then []
    else [nodes[0].comment] + Flatten(nodes[0].replies) + Flatten(nodes[1..])
  }

  /**
   * Lookup by id: the first comment of `cs` with id `id`, if any. The builder's
   * map keeps the last one; with unique ids the two are the same comment.
   */
  function Find(cs: seq<Comment>, id: nat): (r: Option<Comment>)
    ensures r.Some? ==> r.value in cs && r.value.id == id
    ensures r.None? ==> id !in Ids(cs)
  {
    if cs == [] then None
    else if cs[0].id == id then Some(cs[0])
    else Find(cs[1..], id)
  }

  /** The comment reached from `x` by following `j` parent links inside `cs`. */
  function Up(cs: seq<Comment>, x: Comment, j: nat): Option<Comment>
    decreases j
  {
    if j == 0 then Some(x)
    else if !HasParent(x) then None
    else match Find(cs, x.parentId.value)
      case None => None
      case Some(p) => Up(cs, p, j - 1)
  }

  /** `x` is `n` parent links below a root of `cs`. */
  ghost predicate AnchoredAt(cs: seq<Comment>, x: Comment, n: nat) {
    Up(cs, x, n).Some? && IsRoot(Up(cs, x, n).value)
  }

  /** The chain of parents of `x` ends at a root (rather than at a missing parent or in a cycle). */
  ghost predicate Anchored(cs: seq<Comment>, x: Comment) {
    exists n: nat :: AnchoredAt(cs, x, n)
  }

  lemma {:induction false} FindUnique(cs: seq<Comment>, p: Comment)
    requires UniqueIds(cs) && p in cs
    ensures Find(cs, p.id) == Some(p)
  {
    var r := Find(cs, p.id);
    if r.value != p {
      DistinctCommentsDistinctIds(cs, r.value, p);
    }
  }

  lemma {:induction false} UpCompose(cs: seq<Comment>, x: Comment, y: Comment, a: nat, b: nat)
    requires Up(cs, x, a) == Some(y)
    ensures Up(cs, x, a + b) == Up(cs, y, b)
    decreases a
  {
    if a > 0 {
      var p := Find(cs, x.parentId.value).value;
      UpCompose(cs, p, y, a - 1, b);
    }
  }

  /** Nothing lies above a root. */
  lemma UpFromRoot(cs: seq<Comment>, r: Comment, j: nat)
    requires IsRoot(r) && j > 0
    ensures Up(cs, r, j) == None
  {
  }

  /** Nothing lies beyond the root of a comment's chain. */
  lemma AboveRoot(cs: seq<Comment>, x: Comment, n: nat)
    requires AnchoredAt(cs, x, n)
    ensures forall m: nat :: m > n ==> Up(cs, x, m) == None
  {
    var r := Up(cs, x, n).value;
    forall m: nat | m > n ensures Up(cs, x, m) == None {
      UpCompose(cs, x, r, n, m - n);
      UpFromRoot(cs, r, m - n);
    }
  }

  /** A comment's distance from its root is unique: the same comment never sits at two depths. */
  lemma DepthUnique(cs: seq<Comment>, x: Comment, y: Comment, n: nat, m: nat)
    requires AnchoredAt(cs, x, n) && AnchoredAt(cs, y, m)
    ensures x == y ==> n == m
  {
    AboveRoot(cs, x, n);
    AboveRoot(cs, y, m);
  }

  /** The k-th comment of a root-down chain is k links below its root. */
  lemma {:induction false} PathAnchored(cs: seq<Comment>, anc: seq<Comment>, k: nat)
    requires UniqueIds(cs) && OnPath(cs, anc) && k < |anc|
    ensures AnchoredAt(cs, anc[k], k)
  {
    if k > 0 {
      PathAnchored(cs, anc, k - 1);
      assert ChildOf(anc[k], anc[k - 1].id);
      FindUnique(cs, anc[k - 1]);
    }
  }

  /** An item hanging below the chain `anc` is |anc| links below its root. */
  lemma ItemAnchored(cs: seq<Comment>, anc: seq<Comment>, c: Comment)
    requires UniqueIds(cs) && OnPath(cs, anc) && Below(cs, [c], anc)
    ensures AnchoredAt(cs, c, |anc|)
  {
    if anc != [] {
      var last := anc[|anc| - 1];
      PathAnchored(cs, anc, |anc| - 1);
      FindUnique(cs, last);
      assert c in [c];
      assert ChildOf(c, last.id);
      assert Up(cs, c, |anc|) == Up(cs, last, |anc| - 1);
    }
  }

  /** One level of `Forest`, unfolded, with the facts its recursive calls rely on. */
  lemma ForestUnfold(cs: seq<Comment>, replies: map<nat, seq<Comment>>, items: seq<Comment>, anc: seq<Comment>)
    requires UniqueIds(cs) && replies == RepliesMap(cs)
    requires OnPath(cs, anc) && Below(cs, items, anc) && items != []
    ensures items[0] in cs && items[0].id in replies && replies[items[0].id] == RepliesTo(cs, items[0].id)
    ensures OnPath(cs, anc + [items[0]]) && Below(cs, replies[items[0].id], anc + [items[0]])
    ensures Below(cs, items[1..], anc)
    ensures AncIds(anc + [items[0]]) == AncIds(anc) + {items[0].id} && items[0].id !in AncIds(anc)
    ensures Forest(cs, replies, items, anc)
            == [Node(items[0], Forest(cs, replies, replies[items[0].id], anc + [items[0]]))]
               + Forest(cs, replies, items[1..], anc)
  {
    var c := items[0];
    NotOnPath(cs, anc, c);
    assert AncIds(anc + [c]) == AncIds(anc) + {c.id};
    forall x | x in replies[c.id] ensures x in cs && ChildOf(x, c.id) {
      FilterMember(cs, ChildOfP(c.id), x);
    }
  }

  lemma FlattenCons(head: Node, tail: seq<Node>)
    ensures Flatten([head] + tail) == [head.comment] + Flatten(head.replies) + Flatten(tail)
  {
    assert ([head] + tail)[1..] == tail;
  }

  /** `x` hangs `j` links below one of `items`, and is `depth + j` links below its root. */
  ghost predicate HangsBelow(cs: seq<Comment>, x: Comment, items: seq<Comment>, depth: nat) {
    exists i: nat, j: nat :: i < |items| && Up(cs, x, j) == Some(items[i]) && AnchoredAt(cs, x, depth + j)
  }

  /** A comment below the replies of `c` has `c` as an ancestor, `j` links up. */
  lemma AncestorOfReply(cs: seq<Comment>, x: Comment, c: Comment, depth: nat) returns (j: nat)
    requires UniqueIds(cs) && c in cs
    requires HangsBelow(cs, x, RepliesTo(cs, c.id), depth + 1)
    ensures Up(cs, x, j) == Some(c) && AnchoredAt(cs, x, depth + j)
  {
    var kids := RepliesTo(cs, c.id);
    var i: nat, k: nat :| i < |kids| && Up(cs, x, k) == Some(kids[i]) && AnchoredAt(cs, x, depth + 1 + k);
    FilterMember(cs, ChildOfP(c.id), kids[i]);
    FindUnique(cs, c);
    assert Up(cs, kids[i], 1) == Some(c);
    UpCompose(cs, x, kids[i], k, 1);
    j := k + 1;
  }

  /** A reply of `c` that hangs below c's replies hangs below `c`, one link further down. */
  lemma HangsBelowParent(cs: seq<Comment>, x: Comment, c: Comment, items: seq<Comment>, depth: nat)
    requires UniqueIds(cs) && c in cs && items != [] && items[0] == c
    requires HangsBelow(cs, x, RepliesTo(cs, c.id), depth + 1)
    ensures HangsBelow(cs, x, items, depth)
  {
    var j := AncestorOfReply(cs, x, c, depth);
    assert Up(cs, x, j) == Some(items[0]);
  }

  /** Hanging below a later item is hanging below the item list. */
  lemma HangsBelowLater(cs: seq<Comment>, x: Comment, items: seq<Comment>, depth: nat)
    requires items != [] && HangsBelow(cs, x, items[1..], depth)
    ensures HangsBelow(cs, x, items, depth)
  {
    var i: nat, j: nat :| i < |items[1..]| && Up(cs, x, j) == Some(items[1..][i]) && AnchoredAt(cs, x, depth + j);
    assert Up(cs, x, j) == Some(items[i + 1]);
  }

  /**
   * Every comment in the forest below `anc` is a comment of `cs` hanging
   * below one of the forest's top items, which is itself |anc| links below
   * its root.
   */
  lemma ForestSound(cs: seq<Comment>, replies: map<nat, seq<Comment>>, items: seq<Comment>, anc: seq<Comment>)
    requires UniqueIds(cs) && replies == RepliesMap(cs)
    requires OnPath(cs, anc) && Below(cs, items, anc)
    ensures forall x :: x in Flatten(Forest(cs, replies, items, anc)) ==> x in cs && HangsBelow(cs, x, items, |anc|)
    decreases Ids(cs) - AncIds(anc), |items|
  {
    if items != [] {
      ForestUnfold(cs, replies, items, anc);
      var c := items[0];
      var kids := replies[c.id];
      var head := Node(c, Forest(cs, replies, kids, anc + [c]));
      var tail := Forest(cs, replies, items[1..], anc);
      FlattenCons(head, tail);
      ForestSound(cs, replies, kids, anc + [c]);
      ForestSound(cs, replies, items[1..], anc);
      ItemAnchored(cs, anc, c);
      assert Up(cs, c, 0) == Some(items[0]);
      assert HangsBelow(cs, c, items, |anc|);
      forall x | x in Flatten(head.replies) ensures HangsBelow(cs, x, items, |anc|) {
        HangsBelowParent(cs, x, c, items, |anc|);
      }
      forall x | x in Flatten(tail) ensures HangsBelow(cs, x, items, |anc|) {
        HangsBelowLater(cs, x, items, |anc|);
      }
    }
  }

  /**
   * The subtree of the first item, its replies' subtrees and the subtrees of
   * the later items share no comment: their members sit at different depths
   * or below different items of the same depth.
   */
  lemma SeparateSubtrees(cs: seq<Comment>, items: seq<Comment>, depth: nat, below: seq<Comment>, rest: seq<Comment>)
    requires UniqueIds(cs) && items != [] && items[0] in cs && Distinct(items)
    requires AnchoredAt(cs, items[0], depth)
    requires forall x :: x in below ==> HangsBelow(cs, x, RepliesTo(cs, items[0].id), depth + 1)
    requires forall y :: y in rest ==> HangsBelow(cs, y, items[1..], depth)
    ensures items[0] !in below && items[0] !in rest
    ensures forall x :: x in below ==> x !in rest
  {
    var c := items[0];
    forall x | x in below ensures x != c {
      var i: nat, j: nat :| i < |RepliesTo(cs, c.id)| && Up(cs, x, j) == Some(RepliesTo(cs, c.id)[i])
                             && AnchoredAt(cs, x, depth + 1 + j);
      DepthUnique(cs, x, c, depth + 1 + j, depth);
    }
    forall y | y in rest ensures y != c {
      var i: nat, j: nat :| i < |items[1..]| && Up(cs, y, j) == Some(items[1..][i]) && AnchoredAt(cs, y, depth + j);
      DepthUnique(cs, y, c, depth + j, depth);
      assert items[1..][i] == items[i + 1] != c;
    }
    forall x, y | x in below && y in rest ensures x != y {
      var j1 := AncestorOfReply(cs, x, c, depth);
      var i: nat, j2: nat :| i < |items[1..]| && Up(cs, y, j2) == Some(items[1..][i]) && AnchoredAt(cs, y, depth + j2);
      DepthUnique(cs, x, y, depth + j1, depth + j2);
      assert items[1..][i] == items[i + 1] != c;
    }
  }

  /**
   * The first item, the comments below it and the comments below the later
   * items are three groups that share no comment.
   */
  lemma SubtreesApart(cs: seq<Comment>, replies: map<nat, seq<Comment>>, items: seq<Comment>, anc: seq<Comment>)
    requires UniqueIds(cs) && replies == RepliesMap(cs)
    requires OnPath(cs, anc) && Below(cs, items, anc) && items != [] && Distinct(items)
    ensures items[0].id in replies && OnPath(cs, anc + [items[0]])
    ensures Below(cs, replies[items[0].id], anc + [items[0]]) && Below(cs, items[1..], anc)
    ensures var below := Flatten(Forest(cs, replies, replies[items[0].id], anc + [items[0]]));
            var rest := Flatten(Forest(cs, replies, items[1..], anc));
            items[0] !in below && items[0] !in rest && forall x :: x in below ==> x !in rest
  {
    ForestUnfold(cs, replies, items, anc);
    var c := items[0];
    var kids := replies[c.id];
    ForestSound(cs, replies, kids, anc + [c]);
    ForestSound(cs, replies, items[1..], anc);
    ItemAnchored(cs, anc, c);
    SeparateSubtrees(cs, items, |anc|, Flatten(Forest(cs, replies, kids, anc + [c])), Flatten(Forest(cs, replies, items[1..], anc)));
  }

  /** No comment is listed twice in a forest whose top items are distinct. */
  lemma ForestDistinct(cs: seq<Comment>, replies: map<nat, seq<Comment>>, items: seq<Comment>, anc: seq<Comment>)
    requires UniqueIds(cs) && replies == RepliesMap(cs)
    requires OnPath(cs, anc) && Below(cs, items, anc) && Distinct(items)
    ensures Distinct(Flatten(Forest(cs, replies, items, anc)))
    decreases Ids(cs) - AncIds(anc), |items|
  {
    if items != [] {
      ForestUnfold(cs, replies, items, anc);
      var c := items[0];
      var kids := replies[c.id];
      var sub, tail := Forest(cs, replies, kids, anc + [c]), Forest(cs, replies, items[1..], anc);
      FlattenCons(Node(c, sub), tail);
      ListsAreDuplicateFree(cs, c.id);
      DistinctTail(items);
      ForestDistinct(cs, replies, kids, anc + [c]);
      ForestDistinct(cs, replies, items[1..], anc);
      SubtreesApart(cs, replies, items, anc);
      DistinctJoin(c, Flatten(sub), Flatten(tail));
    }
  }

  lemma {:induction false} TopsInFlatten(nodes: seq<Node>, k: nat)
    requires k < |nodes|
    ensures nodes[k].comment in Flatten(nodes)
    decreases nodes
  {
    if k > 0 {
      TopsInFlatten(nodes[1..], k - 1);
    }
  }

  /** In a forest that follows the reply lists, every reply of a listed comment is listed too. */
  lemma {:induction false} ClosedUnderReplies(replies: map<nat, seq<Comment>>, nodes: seq<Node>, p: Comment, y: Comment)
    requires Follows(replies, nodes) && p in Flatten(nodes)
    requires p.id in replies && y in replies[p.id]
    ensures y in Flatten(nodes)
    decreases nodes
  {
    var head := nodes[0];
    assert Follows(replies, nodes[1..]) by {
      forall k | 0 <= k < |nodes[1..]| ensures nodes[1..][k] == nodes[k + 1] { }
    }
    if p == head.comment {
      var k :| 0 <= k < |replies[p.id]| && replies[p.id][k] == y;
      TopsInFlatten(head.replies, k);
    } else if p in Flatten(head.replies) {
      ClosedUnderReplies(replies, head.replies, p, y);
    } else {
      ClosedUnderReplies(replies, nodes[1..], p, y);
    }
  }

  /** Every comment whose parent chain reaches a root is in the forest. */
  lemma {:induction false} ForestComplete(cs: seq<Comment>, x: Comment, n: nat)
    requires UniqueIds(cs) && x in cs && AnchoredAt(cs, x, n)
    ensures x in Flatten(CommentForest(cs))
    decreases n
  {
    var f := CommentForest(cs);
    if n == 0 {
      FilterByPositions(cs, IsRoot);
      FilterMember(cs, IsRoot, x);
      var k :| 0 <= k < |RootsOf(cs)| && RootsOf(cs)[k] == x;
      assert Tops(f) == RootsOf(cs);
      TopsInFlatten(f, k);
    } else {
      var p := Find(cs, x.parentId.value).value;
      assert Up(cs, x, n) == Up(cs, p, n - 1);
      ForestComplete(cs, p, n - 1);
      FilterMember(cs, ChildOfP(p.id), x);
      ClosedUnderReplies(RepliesMap(cs), f, p, x);
    }
  }

  /**
   * The forest lists each comment of `cs` whose parent chain reaches a root
   * exactly once, and no other comment.
   */
  lemma ForestIsResolvedComments(cs: seq<Comment>)
    requires UniqueIds(cs)
    ensures Distinct(Flatten(CommentForest(cs)))
    ensures forall x :: x in Flatten(CommentForest(cs)) <==> x in cs && Anchored(cs, x)
  {
    var f := CommentForest(cs);
    RootsBelow(cs);
    ListsAreDuplicateFree(cs, 0);
    ForestDistinct(cs, RepliesMap(cs), RootsOf(cs), []);
    ForestSound(cs, RepliesMap(cs), RootsOf(cs), []);
    forall x | x in cs && Anchored(cs, x) ensures x in Flatten(f) {
      var n: nat :| AnchoredAt(cs, x, n);
      ForestComplete(cs, x, n);
    }
  }

  /**
   * Counting nodes: the forest's comments plus those left out (orphans, the
   * replies below them, and comments on a parent cycle) are the input.
   */
  lemma ForestCount(cs: seq<Comment>)
    requires UniqueIds(cs)
    ensures |Flatten(CommentForest(cs))| + |set x | x in cs && !Anchored(cs, x)| == |cs|
  {
    var flat := Flatten(CommentForest(cs));
    ForestIsResolvedComments(cs);
    UniqueIdsDistinct(cs);
    PartitionCard(cs, flat, set x | x in cs && !Anchored(cs, x));
  }
}
