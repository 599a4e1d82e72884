/**
 * The comment tree builder: a flat list of one post's comments, each with an
 * optional parent pointer, becomes an ordered list of root comments and, for
 * every comment, the ordered list of its direct replies.
 */
module CommentTree {
  import opened Wrappers
  import opened Seqs

  /** One comment row, with its like-count already annotated. */
  datatype Comment = Comment(id: nat, parentId: Option<nat>, postId: nat, authorId: nat, likeCount: nat)

  /** A comment together with its ordered replies. */
  datatype Node = Node(comment: Comment, replies: seq<Node>)

  /**
   * The builder tests the parent id for truthiness, so a parent id of 0
   * counts as no parent, exactly like a null one.
   */
  predicate HasParent(c: Comment) {
    c.parentId.Some? && c.parentId.value != 0
  }

  predicate IsRoot(c: Comment) {
    !HasParent(c)
  }

  /** `c` names `pid` as its parent. */
  predicate ChildOf(c: Comment, pid: nat) {
    HasParent(c) && c.parentId.value == pid
  }

  function ChildOfP(pid: nat): Comment -> bool {
    c => ChildOf(c, pid)
  }

  /** `c` names a parent and that parent is among `ids`. */
  function ResolvesIn(ids: set<nat>): Comment -> bool {
    c => HasParent(c) && c.parentId.value in ids
  }

  /** `c` names a parent and that parent is not among `ids`. */
  function OrphanIn(ids: set<nat>): Comment -> bool {
    c => HasParent(c) && c.parentId.value !in ids
  }

  function Ids(cs: seq<Comment>): set<nat> {
    set c | c in cs :: c.id
  }

  /** The ids of `cs`, in input order. */
  function IdList(cs: seq<Comment>): (r: seq<nat>)
    ensures |r| == |cs| && forall i :: 0 <= i < |cs| ==> r[i] == cs[i].id
  {
    seq(|cs|, i requires 0 <= i < |cs| => cs[i].id)
  }

  /** Comment ids are primary keys: no two rows share one. */
  predicate UniqueIds(cs: seq<Comment>) {
    forall i, j :: 0 <= i < |cs| && 0 <= j < |cs| && cs[i].id == cs[j].id ==> i == j
  }

  /** Comments with unique ids are distinct comments. */
  lemma UniqueIdsDistinct(cs: seq<Comment>)
    requires UniqueIds(cs)
    ensures Distinct(cs)
  {
    forall i, j | 0 <= i < |cs| && 0 <= j < |cs| && cs[i] == cs[j] ensures i == j {
      assert cs[i].id == cs[j].id;
    }
  }

  /** The top-level comments of `cs`, in input order. */
  function RootsOf(cs: seq<Comment>): seq<Comment> {
    Filter(cs, IsRoot)
  }

  /** The direct replies to comment `pid` among `cs`, in input order. */
  function RepliesTo(cs: seq<Comment>, pid: nat): seq<Comment> {
    Filter(cs, ChildOfP(pid))
  }

  /** Every comment of `cs` with its reply list: what the builder's id lookup ends up holding. */
  function RepliesMap(cs: seq<Comment>): map<nat, seq<Comment>> {
    map id | id in Ids(cs) :: RepliesTo(cs, id)
  }

  /** The comments whose parent id does not occur in `cs`: these are dropped. */
  function Orphans(cs: seq<Comment>): seq<Comment> {
    Filter(cs, OrphanIn(Ids(cs)))
  }

  /**
   * The two-pass builder. The first pass gives every comment an empty reply
   * list, keyed by its id; the second appends each comment with a parent to
   * the list of that parent if the parent is present, drops it if not, and
   * appends each comment without a parent to the roots.
   */
  method BuildCommentTree(comments: seq<Comment>) returns (roots: seq<Comment>, replies: map<nat, seq<Comment>>)
    ensures roots == RootsOf(comments)
    ensures replies == RepliesMap(comments)
  {
    replies := map[];
    var i := 0;
    while i < |comments|
      invariant 0 <= i <= |comments|
      invariant replies.Keys == Ids(comments[..i])
      invariant forall id :: id in replies ==> replies[id] == []
    {
      assert comments[..i + 1] == comments[..i] + [comments[i]];
      IdsSnoc(comments[..i], comments[i]);
      replies := replies[comments[i].id := []];
      i := i + 1;
    }
    assert comments[..i] == comments;

    roots := [];
    i := 0;
    while i < |comments|
      invariant 0 <= i <= |comments|
      invariant replies.Keys == Ids(comments)
      invariant roots == RootsOf(comments[..i])
      invariant forall id :: id in replies ==> replies[id] == RepliesTo(comments[..i], id)
    {
      var c := comments[i];
      assert comments[..i + 1] == comments[..i] + [c];
      FilterSnoc(comments[..i], c, IsRoot);
      ghost var before := replies;
      if HasParent(c) {
        var pid := c.parentId.value;
        if pid in replies {
          replies := replies[pid := replies[pid] + [c]];
        }
      } else {
        roots := roots + [c];
      }
      AttachStep(comments[..i], c, before, replies);
      i := i + 1;
    }
    assert comments[..i] == comments;
    IsRepliesMap(comments, replies);
  }

  /** Appending a comment adds its id. */
  lemma IdsSnoc(cs: seq<Comment>, c: Comment)
    ensures Ids(cs + [c]) == Ids(cs) + {c.id}
  {
  }

  /** A map with one reply list per comment id, each the true one, is the reply map. */
  lemma IsRepliesMap(cs: seq<Comment>, replies: map<nat, seq<Comment>>)
    requires replies.Keys == Ids(cs)
    requires forall id :: id in replies ==> replies[id] == RepliesTo(cs, id)
    ensures replies == RepliesMap(cs)
  {
  }

  /** One step of the second pass keeps every reply list equal to the replies seen so far. */
  lemma AttachStep(prefix: seq<Comment>, c: Comment, before: map<nat, seq<Comment>>, after: map<nat, seq<Comment>>)
    requires forall id :: id in before ==> before[id] == RepliesTo(prefix, id)
    requires after == if HasParent(c) && c.parentId.value in before
                      then before[c.parentId.value := before[c.parentId.value] + [c]]
                      else before
    ensures after.Keys == before.Keys
    ensures forall id :: id in after ==> after[id] == RepliesTo(prefix + [c], id)
  {
    forall id | id in after ensures after[id] == RepliesTo(prefix + [c], id) {
      FilterSnoc(prefix, c, ChildOfP(id));
    }
  }

  /** Two different comments of a list with unique ids have different ids. */
  lemma DistinctCommentsDistinctIds(cs: seq<Comment>, a: Comment, b: Comment)
    requires UniqueIds(cs) && a in cs && b in cs && a != b
    ensures a.id != b.id
  {
    var i :| 0 <= i < |cs| && cs[i] == a;
    var j :| 0 <= j < |cs| && cs[j] == b;
    assert i != j;
  }

  /** A comment without a parent is a root, and sits in no reply list. */
  lemma RootPlacement(cs: seq<Comment>, c: Comment)
    requires c in cs && IsRoot(c)
    ensures c in RootsOf(cs)
    ensures forall pid :: c !in RepliesTo(cs, pid)
  {
    FilterMember(cs, IsRoot, c);
    forall pid ensures c !in RepliesTo(cs, pid) {
      FilterMember(cs, ChildOfP(pid), c);
    }
  }

  /**
   * A comment whose parent is present is in exactly that parent's reply list:
   * not among the roots and in no other comment's list.
   */
  lemma ReplyPlacement(cs: seq<Comment>, c: Comment)
    requires c in cs && HasParent(c) && c.parentId.value in Ids(cs)
    ensures c in RepliesTo(cs, c.parentId.value)
    ensures forall pid :: pid != c.parentId.value ==> c !in RepliesTo(cs, pid)
    ensures c !in RootsOf(cs)
  {
    FilterMember(cs, IsRoot, c);
    forall pid ensures c in RepliesTo(cs, pid) <==> pid == c.parentId.value {
      FilterMember(cs, ChildOfP(pid), c);
    }
  }

  /** A comment whose parent is absent is dropped: not a root, in no reply list of a present comment. */
  lemma OrphanPlacement(cs: seq<Comment>, c: Comment)
    requires c in cs && HasParent(c) && c.parentId.value !in Ids(cs)
    ensures c in Orphans(cs)
    ensures c !in RootsOf(cs)
    ensures forall pid :: pid in Ids(cs) ==> c !in RepliesTo(cs, pid)
  {
    FilterMember(cs, IsRoot, c);
    FilterMember(cs, OrphanIn(Ids(cs)), c);
    forall pid | pid in Ids(cs) ensures c !in RepliesTo(cs, pid) {
      FilterMember(cs, ChildOfP(pid), c);
    }
  }

  /** With unique ids, neither the roots nor any reply list holds a comment twice. */
  lemma ListsAreDuplicateFree(cs: seq<Comment>, pid: nat)
    requires UniqueIds(cs)
    ensures Distinct(RootsOf(cs)) && Distinct(RepliesTo(cs, pid))
  {
    UniqueIdsDistinct(cs);
    FilterDistinct(cs, IsRoot);
    FilterDistinct(cs, ChildOfP(pid));
  }

  /** The reply lists of the comments listed in `keys`, added up. */
  function ReplyTotal(cs: seq<Comment>, keys: seq<nat>): nat {
    if keys == [] then 0
    else ReplyTotal(cs, keys[..|keys| - 1]) + |RepliesTo(cs, keys[|keys| - 1])|
  }

  /** How many of `keys` comment `x` names as its parent. */
  function Hits(x: Comment, keys: seq<nat>): nat {
    if keys == [] then 0
    else Hits(x, keys[..|keys| - 1]) + (if ChildOf(x, keys[|keys| - 1]) then 1 else 0)
  }

  lemma {:induction false} HitsDistinct(x: Comment, keys: seq<nat>)
    requires Distinct(keys)
    ensures Hits(x, keys) == if HasParent(x) && x.parentId.value in keys then 1 else 0
  {
    if keys != [] {
      var init := keys[..|keys| - 1];
      assert Distinct(init);
      HitsDistinct(x, init);
      assert keys == init + [keys[|keys| - 1]];
      assert keys[|keys| - 1] !in init;
    }
  }

  lemma {:induction false} ReplyTotalSnoc(xs: seq<Comment>, x: Comment, keys: seq<nat>)
    ensures ReplyTotal(xs + [x], keys) == ReplyTotal(xs, keys) + Hits(x, keys)
  {
    if keys != [] {
      var pid := keys[|keys| - 1];
      ReplyTotalSnoc(xs, x, keys[..|keys| - 1]);
      FilterSnoc(xs, x, ChildOfP(pid));
    }
  }

  lemma {:induction false} ReplyTotalOfNone(keys: seq<nat>)
    ensures ReplyTotal([], keys) == 0
  {
    if keys != [] {
      ReplyTotalOfNone(keys[..|keys| - 1]);
    }
  }

  lemma {:induction false} ReplyTotalIsResolved(xs: seq<Comment>, keys: seq<nat>, ids: set<nat>)
    requires Distinct(keys)
    requires forall k :: k in ids <==> k in keys
    ensures ReplyTotal(xs, keys) == |Filter(xs, ResolvesIn(ids))|
  {
    if xs == [] {
      ReplyTotalOfNone(keys);
    } else {
      var init, x := xs[..|xs| - 1], xs[|xs| - 1];
      assert xs == init + [x];
      ReplyTotalIsResolved(init, keys, ids);
      ReplyTotalSnoc(init, x, keys);
      HitsDistinct(x, keys);
      FilterSnoc(init, x, ResolvesIn(ids));
      assert ReplyTotal(xs, keys) == ReplyTotal(init, keys) + Hits(x, keys);
      assert |Filter(init, ResolvesIn(ids))| == ReplyTotal(init, keys);
      assert ResolvesIn(ids)(x) <==> HasParent(x) && x.parentId.value in keys;
    }
  }

  /**
   * Every input comment is accounted for exactly once: the roots, plus the
   * replies in all reply lists (one list per input comment), plus the dropped
   * orphans, number exactly the input comments.
   */
  lemma TreePartition(cs: seq<Comment>)
    requires UniqueIds(cs)
    ensures |RootsOf(cs)| + ReplyTotal(cs, IdList(cs)) + |Orphans(cs)| == |cs|
  {
    var keys := IdList(cs);
    assert Distinct(keys);
    assert forall k :: k in Ids(cs) <==> k in keys by {
      forall k | k in Ids(cs) ensures k in keys {
        var c :| c in cs && c.id == k;
        var i :| 0 <= i < |cs| && cs[i] == c;
        assert keys[i] == k;
      }
    }
    ReplyTotalIsResolved(cs, keys, Ids(cs));
    FilterDisjointUnion(cs, ResolvesIn(Ids(cs)), OrphanIn(Ids(cs)), HasParent);
    FilterComplement(cs, HasParent, IsRoot);
  }

  /** The comments at the top of a forest, in order. */
  function Tops(nodes: seq<Node>): (r: seq<Comment>)
    ensures |r| == |nodes| && forall k :: 0 <= k < |nodes| ==> r[k] == nodes[k].comment
  {
    seq(|nodes|, k requires 0 <= k < |nodes| => nodes[k].comment)
  }

  /**
   * Every node of the forest, at every depth, has as its replies exactly the
   * reply list that `replies` holds for its comment, in the same order.
   */
  ghost predicate Follows(replies: map<nat, seq<Comment>>, nodes: seq<Node>)
    decreases nodes
  {
    forall k :: 0 <= k < |nodes| ==>
      && nodes[k].comment.id in replies
      && Tops(nodes[k].replies) == replies[nodes[k].comment.id]
      && Follows(replies, nodes[k].replies)
  }

  lemma FollowsCons(replies: map<nat, seq<Comment>>, head: Node, tail: seq<Node>)
    requires head.comment.id in replies && Tops(head.replies) == replies[head.comment.id]
    requires Follows(replies, head.replies) && Follows(replies, tail)
    ensures Follows(replies, [head] + tail)
    ensures Tops([head] + tail) == [head.comment] + Tops(tail)
  {
    var r := [head] + tail;
    forall k | 0 < k < |r| ensures r[k] == tail[k - 1] { }
  }

  /** `anc` is a chain of comments of `cs` from a root down, each the parent of the next, without repeats. */
  ghost predicate OnPath(cs: seq<Comment>, anc: seq<Comment>) {
    && (forall k :: 0 <= k < |anc| ==> anc[k] in cs)
    && (|anc| > 0 ==> IsRoot(anc[0]))
    && (forall k :: 0 < k < |anc| ==> ChildOf(anc[k], anc[k - 1].id))
    && (forall i, j :: 0 <= i < j < |anc| ==> anc[i].id != anc[j].id)
  }

  /** `items` are comments of `cs` that hang directly below the end of the chain `anc` (roots when it is empty). */
  ghost predicate Below(cs: seq<Comment>, items: seq<Comment>, anc: seq<Comment>) {
    forall c :: c in items ==>
      c in cs && (if anc == [] then IsRoot(c) else ChildOf(c, anc[|anc| - 1].id))
  }

  ghost function AncIds(anc: seq<Comment>): set<nat> {
    set a | a in anc :: a.id
  }

  /**
   * A comment hanging below a chain of ancestors is not itself on the chain,
   * so the chain extended by it is again a chain: going down a reply list
   * never revisits a comment.
   */
  lemma NotOnPath(cs: seq<Comment>, anc: seq<Comment>, c: Comment)
    requires UniqueIds(cs) && OnPath(cs, anc) && Below(cs, [c], anc)
    ensures c.id in Ids(cs) && c.id !in AncIds(anc)
    ensures OnPath(cs, anc + [c])
  {
    forall k | 0 <= k < |anc| ensures anc[k].id != c.id {
      if k > 0 {
        assert ChildOf(anc[k], anc[k - 1].id);
        assert anc[k].parentId.value == anc[k - 1].id != anc[|anc| - 1].id == c.parentId.value;
      }
      DistinctCommentsDistinctIds(cs, anc[k], c);
    }
    var ext := anc + [c];
    forall i, j | 0 <= i < j < |ext| ensures ext[i].id != ext[j].id {
      if j == |anc| {
        assert ext[i].id in AncIds(anc);
      }
    }
  }

  /**
   * The forest below the chain `anc` whose top level is `items`: each item
   * becomes a node whose replies are grown, recursively, from the reply list
   * the builder made for it. The recursion only follows reply lists starting
   * from the roots, so comments that are never reached (those below an
   * orphan, or on a parent cycle) play no part.
   */
  function Forest(ghost cs: seq<Comment>, replies: map<nat, seq<Comment>>, items: seq<Comment>, ghost anc: seq<Comment>): (r: seq<Node>)
    requires UniqueIds(cs) && replies == RepliesMap(cs)
    requires OnPath(cs, anc) && Below(cs, items, anc)
    ensures Tops(r) == items
    ensures Follows(replies, r)
    decreases Ids(cs) - AncIds(anc), |items|
  {
    if items == [] then []
    else
      var c := items[0];
      DescendStep(cs, items, anc);
      var kids := replies[c.id];
      var head := Node(c, Forest(cs, replies, kids, anc + [c]));
      var tail := Forest(cs, replies, items[1..], anc);
      FollowsCons(replies, head, tail);
      assert items == [c] + items[1..];
      [head] + tail
  }

  /**
   * One step of the descent: the first comment of `items` extends the chain,
   * its reply list hangs below the extended chain, and the rest of `items`
   * still hangs below the old one.
   */
  lemma DescendStep(cs: seq<Comment>, items: seq<Comment>, anc: seq<Comment>)
    requires UniqueIds(cs) && OnPath(cs, anc) && Below(cs, items, anc) && items != []
    ensures items[0].id in Ids(cs) && items[0].id !in AncIds(anc)
    ensures items[0].id in RepliesMap(cs)
    ensures OnPath(cs, anc + [items[0]])
    ensures AncIds(anc + [items[0]]) == AncIds(anc) + {items[0].id}
    ensures Ids(cs) - AncIds(anc + [items[0]]) < Ids(cs) - AncIds(anc)
    ensures Below(cs, RepliesMap(cs)[items[0].id], anc + [items[0]])
    ensures Below(cs, items[1..], anc)
  {
    var c := items[0];
    NotOnPath(cs, anc, c);
    forall x | x in RepliesMap(cs)[c.id] ensures x in cs && ChildOf(x, c.id) {
      FilterMember(cs, ChildOfP(c.id), x);
    }
    assert AncIds(anc + [c]) == AncIds(anc) + {c.id};
  }

  /** The roots hang below the empty chain. */
  lemma RootsBelow(cs: seq<Comment>)
    ensures Below(cs, RootsOf(cs), [])
  {
    forall c | c in RootsOf(cs) ensures c in cs && IsRoot(c) {
      FilterMember(cs, IsRoot, c);
    }
  }

  /** The forest the builder's output describes: the roots with their replies, all the way down. */
  ghost function CommentForest(cs: seq<Comment>): seq<Node>
    requires UniqueIds(cs)
  {
    RootsBelow(cs);
    Forest(cs, RepliesMap(cs), RootsOf(cs), [])
  }
}
