# Playto feed core in Dafny

This project models the aggregation core of the Playto social feed backend
(`playto_backend/core/views.py`). It covers four parts:

- **Comment tree builder** (`build_comment_tree`). A flat list of one post's
  comments, each with an optional parent id, becomes the list of root comments
  plus one reply list per comment. Both keep input order. A comment whose
  parent is not in the list goes nowhere.
- **Feed assembler** (`PostListAPIView.get`, `serialize_tree`). It groups the
  comments by post in one pass. For each post it builds the tree and writes
  the tree out recursively as nested comment records under the post's record.
- **Leaderboard** (`LeaderboardAPIView.get`). It keeps the likes of the last 24
  hours. A post like is worth 5 points and a comment like 1 point, credited to
  the author of the liked content. It sums per author, sorts by total
  descending and keeps five rows.
- **Like registry** (`LikeAPIView.post` with the unique constraints of the like
  table). It inserts a (user, target) row inside a transaction. The answer is
  "liked" (201) when the row is inserted. It is "already_liked" (200) when the
  insert raises an integrity error.

Modules, one per component:

- `CommentTree` (builder, and the forest its output describes).
- `ForestContents` (what that forest contains).
- `Feed`.
- `Leaderboard`.
- `Likes` (with the class `LikeRegistry`).
- Shared helpers:
  - `Seqs`: order-preserving `Filter`, which is the shape of every "loop and append the matching rows" in the views;
  - `Wrappers`: `Option`;
  - `Targets`: a like's target.

How the source maps into the model:

- The builder and the feed assembler loop. They are methods with loop
  invariants, proved against specification functions:
  - `RootsOf`, `RepliesTo` and `RepliesMap` for the builder;
  - `PostComments` for the grouping;
  - `Mirrors` for serialization.
- The leaderboard is a declarative query, so it is modelled as functions and
  lemmas.
- The like table is state that the view updates. It is the `rows` field of a
  class. `Register` changes that field and keeps the table's uniqueness
  invariant.

Points worth knowing about how the code behaves:

- The builder tests `comment.parent_id` for truthiness, so a parent id of 0
  is treated like a null parent and makes the comment a root (`HasParent` in
  `CommentTree`).
- The forest the feed shows contains each comment whose chain of parents
  reaches a root, exactly once (`ForestIsResolvedComments`). The dropped
  comments include more than the comments with a missing parent: the replies
  below such a comment are never reached, and neither are comments on a parent
  cycle. So the count that holds is "forest size + comments whose chain does
  not reach a root = input size" (`ForestCount`). The list-level count
  "roots + reply lists + orphans = input size" also holds
  (`TreePartition`).
- The descent that the recursive serialization performs ends on every input
  with unique comment ids (the primary key). It does not need the store's
  no-cycle guarantee: a descent from a root never meets a comment twice
  (`NotOnPath`). This is a statement about the descent, not about the
  Python call stack, which bounds the nesting depth (see "Left out").
- The leaderboard query orders by total karma alone. The order among users
  with equal karma is therefore left open (`IsLeaderboard`). One stable
  ranking is shown to satisfy it (`RankingIsLeaderboard`). Every valid
  leaderboard has the same length and the same karma in every row
  (`ScoresDetermined`).
- The window has only a lower bound, `created_at >= now - 24h`. It has no
  upper end.
- The view maps every integrity error to "already_liked". That includes the
  foreign-key failure for a post or comment id that does not exist, so such a
  request answers "already_liked" and inserts nothing (`Attempt`). The
  PostgreSQL and SQLite backends create foreign keys as deferred
  constraints, so the failure is raised when the view's atomic block
  commits on exit. That commit is still inside the view's `try`, so the
  answer is still "already_liked". The exception is a request that
  already runs inside an outer transaction: the atomic block is then only
  a savepoint, the check waits for the outer commit after the view has
  returned, and the client gets a server error from that failing commit.
  The model does not cover that set-up.

## Model

| member | source | states |
|---|---|---|
| CommentTree.BuildCommentTree | playto_backend/core/views.py:87-103 | the roots are exactly the comments without a (truthy) parent id, in input order; the lookup holds one entry per comment id whose list is exactly that comment's direct replies, in input order |
| CommentTree.RootPlacement | playto_backend/core/views.py:95-101 | a comment whose parent id is null or 0 is among the roots and in no reply list |
| CommentTree.ReplyPlacement | playto_backend/core/views.py:96-99 | a comment whose parent is present is in that parent's reply list, in no other reply list, and not among the roots |
| CommentTree.OrphanPlacement | playto_backend/core/views.py:96-99 | a comment whose parent id names no comment of the list is dropped: not a root, in no reply list of a present comment |
| CommentTree.ListsAreDuplicateFree | playto_backend/core/views.py:91-101 | with unique ids, neither the roots nor any reply list holds a comment twice |
| CommentTree.TreePartition | playto_backend/core/views.py:95-101 | roots, all reply lists and the dropped orphans together account for every input comment exactly once |
| CommentTree.NotOnPath | playto_backend/core/views.py:138-144 | a comment reached by going down reply lists from a root is never one of its own ancestors, so the descent always terminates |
| CommentTree.Forest | playto_backend/core/views.py:129 | the tree the serializer walks: its top comments are the given ones and every node's replies are exactly the builder's reply list for that comment, at every depth |
| ForestContents.Find | playto_backend/core/views.py:93-97 | the id lookup returns a comment of the list with that id, or nothing exactly when no comment has that id |
| ForestContents.ForestSound | playto_backend/core/views.py:95-101 | every comment in the forest is an input comment hanging below one of the roots at the depth its parent chain gives |
| ForestContents.ForestDistinct | playto_backend/core/views.py:95-101 | the forest lists no comment twice |
| ForestContents.ForestComplete | playto_backend/core/views.py:95-101 | every input comment whose chain of parents ends at a root appears in the forest |
| ForestContents.ForestIsResolvedComments | playto_backend/core/views.py:87-103 | the forest lists each comment whose parent chain reaches a root exactly once, and no other comment |
| ForestContents.ForestCount | playto_backend/core/views.py:87-103 | forest size plus the number of comments whose chain does not reach a root (orphans, their replies, cycles) equals the input size |
| Feed.SerializeComment | playto_backend/core/serializers.py:36-50 | the serialized record together with the post id determines the comment (the single-record inverse); the replies are placed as given |
| Feed.SerializeTree | playto_backend/core/views.py:138-144 | the output mirrors the forest: same number of entries in the same order, each with its comment's fields and, recursively, its replies |
| Feed.SerializeRoundTrip | playto_backend/core/views.py:138-144 | serialization loses nothing but the post id: reading a serialized forest of one post's comments back gives that forest |
| Feed.GroupByPost | playto_backend/core/views.py:121-123 | one group per post id that occurs, each holding exactly that post's comments in input order |
| Feed.PostComments | playto_backend/core/views.py:121-123 | a post's group holds exactly the comments of that post, and keeps comment ids unique |
| Feed.UniqueIdsFilter | playto_backend/core/views.py:128 | any selection of comments with unique ids has unique ids |
| Feed.NoGroupNoComments | playto_backend/core/views.py:128 | a post without a group has no comments, so the empty default is its true group |
| Feed.AssembleFeed | playto_backend/core/views.py:105-136 | one entry per post in the posts' order, each with the post's id, author and like count and the serialized forest of exactly that post's comments |
| Feed.FeedEntryContents | playto_backend/core/views.py:127-134 | reading an entry's comment list back lists each of that post's comments whose parent chain reaches a root exactly once, and nothing else |
| Leaderboard.KarmaOfLike | playto_backend/core/views.py:17-34 | one more like inside the window adds 5 to the liked post's author or 1 to the liked comment's author and changes nobody else's total; a like outside the window adds nothing; self-likes count |
| Leaderboard.KarmaAppend | playto_backend/core/views.py:33-34 | karma is additive over batches of likes |
| Leaderboard.KarmaPositive | playto_backend/core/views.py:21-34 | a user has positive karma exactly when some windowed like credits them |
| Leaderboard.BeneficiariesAreScored | playto_backend/core/views.py:33 | the grouping keys are the credited users, each once |
| Leaderboard.TotalsFacts | playto_backend/core/views.py:33-34 | one row per credited user, carrying that user's total, and no other rows |
| Leaderboard.InsertFacts | playto_backend/core/views.py:35 | inserting into a descending list keeps it descending, grows it by one, holds the new row and the old ones and nothing else, and keeps users distinct |
| Leaderboard.InsertPermutes | playto_backend/core/views.py:35 | inserting adds exactly the new row: the multiset of rows is the old one plus that row |
| Leaderboard.SortFacts | playto_backend/core/views.py:35 | the sort returns a permutation of its input (same multiset of rows), descending by karma, users still distinct |
| Leaderboard.RankingIsLeaderboard | playto_backend/core/views.py:19-36 | the stable ranking of the grouped totals cut to five rows is a valid leaderboard |
| Leaderboard.ComputeLeaderboard | playto_backend/core/views.py:16-36 | the leaderboard at `now` has min(5, credited users) rows of distinct credited users with their true totals, non-increasing, and no left-out user has more karma than a listed one |
| Leaderboard.KarmaColumnBound | playto_backend/core/views.py:35 | row k of one valid leaderboard has no more karma than row k of any other |
| Leaderboard.ScoresDetermined | playto_backend/core/views.py:35 | valid leaderboards for the same likes differ only among ties: same length, same karma in every row |
| Likes.ParseTarget | playto_backend/core/serializers.py:56-62 | a request is valid exactly when the kind is "post" or "comment" and an id is given; the target is the post or the comment with that id |
| Likes.Attempt | playto_backend/core/views.py:56-86 | "liked" exactly when the request is valid, the pair has no row and the target exists, and then the row is appended; otherwise the table is unchanged; rows keep pointing at existing targets |
| Likes.AttemptKeepsDistinct | playto_backend/core/models.py:88-99 | a request never gives a (user, target) pair a second row |
| Likes.DistinctAtMostOnce | playto_backend/core/models.py:88-99 | under the unique constraints a pair has at most one row |
| Likes.PresentOnce | playto_backend/core/models.py:88-99 | a pair that has a row has exactly one |
| Likes.AttemptIdempotent | playto_backend/core/views.py:64-81 | repeating a request changes nothing and is never answered "liked" |
| Likes.RepeatSettled | playto_backend/core/views.py:77-81 | once a request is answered "already_liked", repeating it any number of times gets the same answer and leaves the table alone |
| Likes.RepeatedLikes | playto_backend/core/views.py:64-86 | N identical requests for an existing target not yet liked: the first is "liked", the other N-1 "already_liked", and the pair ends with exactly one row |
| Likes.LikeRegistry.constructor | playto_backend/core/models.py:62-99 | the registry starts from a table that satisfies the constraints |
| Likes.LikeRegistry.Register | playto_backend/core/views.py:56-86 | answers and updates the table as `Attempt` says and keeps the constraints (no duplicate pair, no dangling target) |

## Left out

- HTTP, routing, permissions and response objects are not modelled. The registry takes the authenticated user's id as a parameter, and the `IsAuthenticated` check is part of the framework.
- The database queries themselves are not modelled. The order of posts (newest first) and of comments (oldest first) is the order of the input sequences. Like counts are input fields (`likeCount`) rather than counts over the like table.
- Comment and post texts, creation timestamps in the serialized records, and the nested author object are left out. The author is reduced to its id. The `parent` field is `None` for a top-level comment, whether the serializer writes null or omits the key.
- Usernames on the leaderboard are left out. The view looks them up in a bulk user fetch, and a missing user there would raise an error. The model's rows carry the user id and the karma.
- The clock is the parameter `now`, and timestamps are whole seconds. Time zones are not modelled.
- Transactions and concurrent requests are not modelled. The model is sequential, and the "one winner among racing inserts" guarantee appears as the sequential `RepeatedLikes`.
- Likes that point at both a post and a comment, or at neither, are not modelled. `Target` excludes them, and the view never creates one.
- Request validation is reduced to the target kind and an optional integer id. The model does not cover the framework's coercion of numeric strings.
- Leaderboard.ComputeLeaderboard: fixes one order among equal totals (stable in order of first windowed like), where the database may return ties in any order. `IsLeaderboard` leaves that order open, and `ScoresDetermined` shows that only ties can differ.
- Likes.Attempt: ids are unbounded integers. The database's id columns are 64-bit, and an id outside that range makes the lookup or insert fail with a data error that is not an integrity error. The view does not catch it, so that request ends in a server error, where the model answers "already_liked".
- Feed.SerializeTree: the serializer recurses once per nesting level. A reply chain deeper than Python's recursion limit (about a thousand levels, less the framework's own frames) makes the feed request fail with `RecursionError`, a server error. The model has no stack bound and always returns the fully mirrored feed; the same holds for `Feed.AssembleFeed`.
