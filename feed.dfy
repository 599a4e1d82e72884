/**
 * The post feed: comments are grouped by post in one pass, each post's group
 * is grown into a reply forest, and the forest is serialized recursively into
 * nested comment records below the post's own record.
 */
module Feed {
  import opened Wrappers
  import opened Seqs
  import opened CommentTree
  import opened ForestContents

  /** A post row as the feed reads it, with its annotated like count. */
  datatype Post = Post(id: nat, authorId: nat, likeCount: nat)

  /** One serialized comment: its scalar fields and its serialized replies. */
  datatype CommentData = CommentData(id: nat, authorId: nat, parent: Option<nat>, likeCount: nat, replies: seq<CommentData>)

  /** One serialized post with the serialized forest of its comments. */
  datatype PostData = PostData(id: nat, authorId: nat, likeCount: nat, comments: seq<CommentData>)

  /**
   * The comment serializer's fields for `c`, with `replies` put under
   * "replies". Only the post id is not written: given it, the record
   * determines the comment.
   */
  function SerializeComment(c: Comment, replies: seq<CommentData>): (d: CommentData)
    ensures Comment(d.id, d.parent, c.postId, d.authorId, d.likeCount) == c
    ensures d.replies == replies
  {
    CommentData(c.id, c.authorId, c.parentId, c.likeCount, replies)
  }

  /**
   * `data` is the forest `nodes` written out: the same number of entries in the
   * same order, each carrying its comment's fields and, recursively, its replies.
   */
  ghost predicate Mirrors(data: seq<CommentData>, nodes: seq<Node>)
    decreases nodes
  {
    |data| == |nodes| &&
    forall k :: 0 <= k < |nodes| ==>
      data[k] == SerializeComment(nodes[k].comment, data[k].replies) &&
      Mirrors(data[k].replies, nodes[k].replies)
  }

  /** Serializes a forest depth-first, each comment's replies nested below it. */
  method SerializeTree(nodes: seq<Node>) returns (data: seq<CommentData>)
    ensures Mirrors(data, nodes)
    decreases nodes
  {
    data := [];
    var i := 0;
    while i < |nodes|
      invariant 0 <= i <= |nodes| && |data| == i
      invariant forall k :: 0 <= k < i ==>
                  data[k] == SerializeComment(nodes[k].comment, data[k].replies) &&
                  Mirrors(data[k].replies, nodes[k].replies)
    {
      assert nodes[i] in nodes;
      var replies := SerializeTree(nodes[i].replies);
      data := data + [SerializeComment(nodes[i].comment, replies)];
      i := i + 1;
    }
  }

  /** Every comment of the forest belongs to post `postId`. */
  ghost predicate OnPostTree(nodes: seq<Node>, postId: nat) {
    forall x :: x in Flatten(nodes) ==> x.postId == postId
  }

  /**
   * Reads a serialized forest back into comments of post `postId` (the
   * serializer does not write the post id, so it is supplied).
   */
  function Restore(data: seq<CommentData>, postId: nat): seq<Node>
    decreases data
  {
    if data == [] then []
    else
      var d := data[0];
      [Node(Comment(d.id, d.parent, postId, d.authorId, d.likeCount), Restore(d.replies, postId))]
        + Restore(data[1..], postId)
  }

  lemma TailMirrors(data: seq<CommentData>, nodes: seq<Node>)
    requires Mirrors(data, nodes) && nodes != []
    ensures Mirrors(data[1..], nodes[1..])
  {
    var d, n := data[1..], nodes[1..];
    forall k | 0 <= k < |n|
      ensures d[k] == SerializeComment(n[k].comment, d[k].replies) && Mirrors(d[k].replies, n[k].replies)
    {
      assert d[k] == data[k + 1] && n[k] == nodes[k + 1];
    }
  }

  /**
   * Serialization loses nothing but the post id: a serialized forest of one
   * post's comments reads back into exactly that forest.
   */
  lemma {:induction false} SerializeRoundTrip(data: seq<CommentData>, nodes: seq<Node>, postId: nat)
    requires Mirrors(data, nodes) && OnPostTree(nodes, postId)
    ensures Restore(data, postId) == nodes
    decreases nodes
  {
    if nodes != [] {
      FlattenCons(nodes[0], nodes[1..]);
      assert nodes == [nodes[0]] + nodes[1..];
      assert nodes[0] in nodes;
      assert OnPostTree(nodes[0].replies, postId);
      SerializeRoundTrip(data[0].replies, nodes[0].replies, postId);
      TailMirrors(data, nodes);
      assert OnPostTree(nodes[1..], postId);
      SerializeRoundTrip(data[1..], nodes[1..], postId);
      var c := nodes[0].comment;
      assert nodes[0].comment in Flatten(nodes);
      assert Comment(data[0].id, data[0].parent, postId, data[0].authorId, data[0].likeCount) == c;
    }
  }

  /** Membership in post `pid`, as a value to select with. */
  function OfPost(pid: nat): Comment -> bool {
    (c: Comment) => c.postId == pid
  }

  /** The comments of post `pid`, in input order. */
  function PostComments(cs: seq<Comment>, pid: nat): (r: seq<Comment>)
    ensures forall c :: c in r <==> c in cs && c.postId == pid
    ensures UniqueIds(cs) ==> UniqueIds(r)
  {
    forall c ensures c in Filter(cs, OfPost(pid)) <==> c in cs && c.postId == pid {
      FilterMember(cs, OfPost(pid), c);
    }
    UniqueIdsFilter(cs, OfPost(pid));
    Filter(cs, OfPost(pid))
  }

  /** Selecting from comments with unique ids keeps the ids unique. */
  lemma UniqueIdsFilter(cs: seq<Comment>, p: Comment -> bool)
    ensures UniqueIds(cs) ==> UniqueIds(Filter(cs, p))
  {
    if UniqueIds(cs) {
      FilterByPositions(cs, p);
      var f, ps := Filter(cs, p), Positions(cs, p);
      forall i, j | 0 <= i < |f| && 0 <= j < |f| && i != j ensures f[i].id != f[j].id {
        assert ps[i] != ps[j] by {
          if i < j { assert ps[i] < ps[j]; } else { assert ps[j] < ps[i]; }
        }
      }
    }
  }

  /** The post ids that occur among `cs`. */
  function PostIds(cs: seq<Comment>): set<nat> {
    set c | c in cs :: c.postId
  }

  /** One step of the grouping loop keeps every group equal to its post's comments so far. */
  lemma GroupStep(prefix: seq<Comment>, c: Comment, before: map<nat, seq<Comment>>, after: map<nat, seq<Comment>>)
    requires before.Keys == PostIds(prefix)
    requires forall pid :: pid in before ==> before[pid] == PostComments(prefix, pid)
    requires after == before[c.postId := if c.postId in before then before[c.postId] + [c] else [c]]
    ensures after.Keys == PostIds(prefix + [c])
    ensures forall pid :: pid in after ==> after[pid] == PostComments(prefix + [c], pid)
  {
    assert PostIds(prefix + [c]) == PostIds(prefix) + {c.postId};
    forall pid | pid in after ensures after[pid] == PostComments(prefix + [c], pid) {
      FilterSnoc(prefix, c, OfPost(pid));
      if pid == c.postId && c.postId !in before {
        FilterNone(prefix, OfPost(pid));
      }
    }
  }

  /** Groups comments by post, each group in input order, one pass over the comments. */
  method GroupByPost(comments: seq<Comment>) returns (groups: map<nat, seq<Comment>>)
    ensures groups.Keys == PostIds(comments)
    ensures forall pid :: pid in groups ==> groups[pid] == PostComments(comments, pid)
  {
    groups := map[];
    var i := 0;
    while i < |comments|
      invariant 0 <= i <= |comments|
      invariant groups.Keys == PostIds(comments[..i])
      invariant forall pid :: pid in groups ==> groups[pid] == PostComments(comments[..i], pid)
    {
      var c := comments[i];
      var before := groups;
      var group := if c.postId in groups then groups[c.postId] + [c] else [c];
      groups := groups[c.postId := group];
      assert comments[..i + 1] == comments[..i] + [c];
      GroupStep(comments[..i], c, before, groups);
      i := i + 1;
    }
    assert comments[..i] == comments;
  }

  /** A post's key missing from the groups means the post has no comments. */
  lemma NoGroupNoComments(comments: seq<Comment>, pid: nat)
    requires pid !in PostIds(comments)
    ensures PostComments(comments, pid) == []
  {
    forall i | 0 <= i < |comments| ensures !OfPost(pid)(comments[i]) {
      assert comments[i] in comments;
    }
    FilterNone(comments, OfPost(pid));
  }

  /** The feed entry for `post` whose comment list is `data`. */
  predicate EntryFor(entry: PostData, post: Post) {
    entry.id == post.id && entry.authorId == post.authorId && entry.likeCount == post.likeCount
  }

  /**
   * Builds the feed: one entry per post in the posts' order, each carrying the
   * serialized reply forest of exactly that post's comments.
   */
  method AssembleFeed(posts: seq<Post>, comments: seq<Comment>) returns (response: seq<PostData>)
    requires UniqueIds(comments)
    ensures |response| == |posts|
    ensures forall i :: 0 <= i < |posts| ==>
              EntryFor(response[i], posts[i]) &&
              Mirrors(response[i].comments, CommentForest(PostComments(comments, posts[i].id)))
  {
    var groups := GroupByPost(comments);
    response := [];
    var i := 0;
    while i < |posts|
      invariant 0 <= i <= |posts| && |response| == i
      invariant forall k :: 0 <= k < i ==>
                  EntryFor(response[k], posts[k]) &&
                  Mirrors(response[k].comments, CommentForest(PostComments(comments, posts[k].id)))
    {
      var post := posts[i];
      var group := if post.id in groups then groups[post.id] else [];
      if post.id !in groups {
        NoGroupNoComments(comments, post.id);
      }
      assert group == PostComments(comments, post.id);
      var roots, replies := BuildCommentTree(group);
      RootsBelow(group);
      var tree := Forest(group, replies, roots, []);
      var data := SerializeTree(tree);
      response := response + [PostData(post.id, post.authorId, post.likeCount, data)];
      i := i + 1;
    }
  }

  /** Every comment of a post's forest is a comment of that post. */
  lemma PostForestOnPost(comments: seq<Comment>, pid: nat)
    requires UniqueIds(comments)
    ensures OnPostTree(CommentForest(PostComments(comments, pid)), pid)
  {
    ForestIsResolvedComments(PostComments(comments, pid));
  }

  /**
   * What a feed entry shows: reading its comment list back gives a forest
   * listing each comment of that post whose parent chain reaches a root
   * exactly once, and no other comment.
   */
  lemma FeedEntryContents(posts: seq<Post>, comments: seq<Comment>, response: seq<PostData>, i: nat)
    requires UniqueIds(comments) && i < |posts| && |response| == |posts|
    requires Mirrors(response[i].comments, CommentForest(PostComments(comments, posts[i].id)))
    ensures Distinct(Flatten(Restore(response[i].comments, posts[i].id)))
    ensures forall x :: x in Flatten(Restore(response[i].comments, posts[i].id)) <==>
              x in comments && x.postId == posts[i].id && Anchored(PostComments(comments, posts[i].id), x)
  {
    var pid := posts[i].id;
    var own := PostComments(comments, pid);
    PostForestOnPost(comments, pid);
    SerializeRoundTrip(response[i].comments, CommentForest(own), pid);
    ForestIsResolvedComments(own);
  }
}
