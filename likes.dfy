/**
 * The like registry: a like request names a target kind and id; the view
 * inserts a (user, target) row inside a transaction and reports "liked", or
 * reports "already_liked" when the insert violates a constraint. The two
 * unique constraints on the like table, (user, post) and (user, comment),
 * together say that no (user, target) pair has two rows.
 */
module Likes {
  import opened Wrappers
  import opened Seqs
  import opened Targets

  /** A like row, reduced to what the unique constraints look at. */
  datatype LikeKey = LikeKey(user: nat, target: Target)

  /** The view's answers: "liked" (201), "already_liked" (200) and the request validation error (400). */
  datatype Outcome = Liked | AlreadyLiked | Invalid

  /**
   * Request validation: the kind must be "post" or "comment" and an integer
   * id must be present; anything else is rejected before the store is touched.
   */
  function ParseTarget(targetType: string, targetId: Option<int>): (r: Option<Target>)
    ensures r.Some? <==> (targetType == "post" || targetType == "comment") && targetId.Some?
    ensures r.Some? && targetType == "post" ==> r.value == PostTarget(targetId.value)
    ensures r.Some? && targetType == "comment" ==> r.value == CommentTarget(targetId.value)
  {
    if targetId.None? then None
    else if targetType == "post" then Some(PostTarget(targetId.value))
    else if targetType == "comment" then Some(CommentTarget(targetId.value))
    else None
  }

  /** Every row points at an existing post or comment (the foreign keys). */
  predicate RowsExist(rows: seq<LikeKey>, targets: set<Target>) {
    forall i :: 0 <= i < |rows| ==> rows[i].target in targets
  }

  /** The answer to one request and the like table after it. */
  datatype Step = Step(outcome: Outcome, rows: seq<LikeKey>)

  /**
   * One request against the table `rows`, with `targets` the posts and
   * comments that exist. The insert fails, and the answer is
   * "already_liked", both when the pair already has a row and when the
   * target does not exist, since the view maps every integrity error to
   * that answer.
   */
  function Attempt(rows: seq<LikeKey>, targets: set<Target>, user: nat, targetType: string, targetId: Option<int>): (s: Step)
    ensures s.outcome == Invalid <==> ParseTarget(targetType, targetId).None?
    ensures s.outcome == Liked <==>
              ParseTarget(targetType, targetId).Some? &&
              LikeKey(user, ParseTarget(targetType, targetId).value) !in rows &&
              ParseTarget(targetType, targetId).value in targets
    ensures s.outcome == Liked ==> s.rows == rows + [LikeKey(user, ParseTarget(targetType, targetId).value)]
    ensures s.outcome != Liked ==> s.rows == rows
    ensures RowsExist(rows, targets) ==> RowsExist(s.rows, targets)
  {
    match ParseTarget(targetType, targetId)
    case None => Step(Invalid, rows)
    case Some(t) =>
      if LikeKey(user, t) in rows || t !in targets then Step(AlreadyLiked, rows)
      else Step(Liked, rows + [LikeKey(user, t)])
  }

  /** How many rows the pair `key` has. */
  function Occurrences(rows: seq<LikeKey>, key: LikeKey): nat {
    |Filter(rows, (k: LikeKey) => k == key)|
  }

  /** The unique constraints hold: no pair has two rows. */
  lemma {:induction false} DistinctAtMostOnce(rows: seq<LikeKey>, key: LikeKey)
    requires Distinct(rows)
    ensures Occurrences(rows, key) <= 1
  {
    var p := (k: LikeKey) => k == key;
    var f := Filter(rows, p);
    FilterDistinct(rows, p);
    forall x | x in f ensures x == key {
      FilterMember(rows, p, x);
    }
    var elems := set x | x in f;
    DistinctCard(f, elems);
    SubsetCard(elems, {key});
  }

  /** A pair already in the table has exactly one row. */
  lemma {:induction false} PresentOnce(rows: seq<LikeKey>, key: LikeKey)
    requires Distinct(rows) && key in rows
    ensures Occurrences(rows, key) == 1
  {
    DistinctAtMostOnce(rows, key);
    FilterMember(rows, (k: LikeKey) => k == key, key);
  }

  /** A request never gives a pair a second row. */
  lemma AttemptKeepsDistinct(rows: seq<LikeKey>, targets: set<Target>, user: nat, targetType: string, targetId: Option<int>)
    requires Distinct(rows)
    ensures Distinct(Attempt(rows, targets, user, targetType, targetId).rows)
  {
    var s := Attempt(rows, targets, user, targetType, targetId);
    if s.outcome == Liked {
      var key := LikeKey(user, ParseTarget(targetType, targetId).value);
      forall i, j | 0 <= i < |s.rows| && 0 <= j < |s.rows| && i != j ensures s.rows[i] != s.rows[j] {
        if i < |rows| && j < |rows| {
          assert s.rows[i] == rows[i] && s.rows[j] == rows[j];
        } else if i < |rows| {
          assert rows[i] in rows && s.rows[j] == key;
        } else {
          assert rows[j] in rows && s.rows[i] == key;
        }
      }
    }
  }

  /** A second identical request changes nothing and answers "already_liked" (or is invalid again). */
  lemma AttemptIdempotent(rows: seq<LikeKey>, targets: set<Target>, user: nat, targetType: string, targetId: Option<int>)
    ensures var s1 := Attempt(rows, targets, user, targetType, targetId);
            var s2 := Attempt(s1.rows, targets, user, targetType, targetId);
            s2.rows == s1.rows && s2.outcome != Liked
  {
    var s1 := Attempt(rows, targets, user, targetType, targetId);
    if s1.outcome == Liked {
      assert LikeKey(user, ParseTarget(targetType, targetId).value) in s1.rows;
    }
  }

  /** The answers to a run of requests, and the table after them. */
  datatype Run = Run(outcomes: seq<Outcome>, rows: seq<LikeKey>)

  /** `n` identical requests, one after another. */
  function Repeat(rows: seq<LikeKey>, targets: set<Target>, user: nat, targetType: string, targetId: Option<int>, n: nat): Run
    decreases n
  {
    if n == 0 then Run([], rows)
    else
      var s := Attempt(rows, targets, user, targetType, targetId);
      var rest := Repeat(s.rows, targets, user, targetType, targetId, n - 1);
      Run([s.outcome] + rest.outcomes, rest.rows)
  }

  /** How many of the answers are "liked". */
  function LikedCount(outcomes: seq<Outcome>): nat {
    |Filter(outcomes, (o: Outcome) => o == Liked)|
  }

  /** Requests that find the table settled answer "already_liked" every time and leave it alone. */
  lemma {:induction false} RepeatSettled(rows: seq<LikeKey>, targets: set<Target>, user: nat, targetType: string, targetId: Option<int>, n: nat)
    requires Attempt(rows, targets, user, targetType, targetId).outcome == AlreadyLiked
    ensures |Repeat(rows, targets, user, targetType, targetId, n).outcomes| == n
    ensures forall k :: 0 <= k < n ==> Repeat(rows, targets, user, targetType, targetId, n).outcomes[k] == AlreadyLiked
    ensures Repeat(rows, targets, user, targetType, targetId, n).rows == rows
    decreases n
  {
    if n > 0 {
      RepeatSettled(rows, targets, user, targetType, targetId, n - 1);
    }
  }

  lemma {:induction false} NoneLiked(outcomes: seq<Outcome>)
    requires forall k :: 0 <= k < |outcomes| ==> outcomes[k] == AlreadyLiked
    ensures LikedCount(outcomes) == 0
  {
    FilterNone(outcomes, (o: Outcome) => o == Liked);
  }

  lemma LikedCountCons(o: Outcome, rest: seq<Outcome>)
    ensures LikedCount([o] + rest) == (if o == Liked then 1 else 0) + LikedCount(rest)
  {
    var p := (o: Outcome) => o == Liked;
    FilterAppend([o], rest, p);
    FilterSnoc([], o, p);
    assert [] + [o] == [o];
  }

  /**
   * N identical like requests for an existing target the user has not liked
   * yet: the first answers "liked", the other N-1 answer "already_liked", and
   * the pair ends with exactly one row.
   */
  lemma RepeatedLikes(rows: seq<LikeKey>, targets: set<Target>, user: nat, target: Target, n: nat)
    requires Distinct(rows) && n >= 1
    requires LikeKey(user, target) !in rows && target in targets
    ensures var targetType := if target.PostTarget? then "post" else "comment";
            var run := Repeat(rows, targets, user, targetType, Some(target.id), n);
            var outcomes, after := run.outcomes, run.rows;
            |outcomes| == n && outcomes[0] == Liked &&
            (forall k :: 1 <= k < n ==> outcomes[k] == AlreadyLiked) &&
            LikedCount(outcomes) == 1 &&
            after == rows + [LikeKey(user, target)] &&
            Occurrences(after, LikeKey(user, target)) == 1
  {
    var targetType := if target.PostTarget? then "post" else "comment";
    var key := LikeKey(user, target);
    assert ParseTarget(targetType, Some(target.id)) == Some(target);
    var s := Attempt(rows, targets, user, targetType, Some(target.id));
    assert s.rows == rows + [key];
    AttemptIdempotent(rows, targets, user, targetType, Some(target.id));
    var rest := Repeat(s.rows, targets, user, targetType, Some(target.id), n - 1);
    RepeatSettled(s.rows, targets, user, targetType, Some(target.id), n - 1);
    NoneLiked(rest.outcomes);
    LikedCountCons(Liked, rest.outcomes);
    AttemptKeepsDistinct(rows, targets, user, targetType, Some(target.id));
    assert key in s.rows;
    PresentOnce(s.rows, key);
  }

  /** The like table as the registry holds it, with the posts and comments that exist. */
  class LikeRegistry {
    var rows: seq<LikeKey>
    var targets: set<Target>

    /** The table's constraints: unique (user, target) pairs and existing targets. */
    ghost predicate Valid()
      reads this
    {
      Distinct(rows) && RowsExist(rows, targets)
    }

    constructor (existing: seq<LikeKey>, live: set<Target>)
      requires Distinct(existing) && RowsExist(existing, live)
      ensures Valid() && rows == existing && targets == live
    {
      rows := existing;
      targets := live;
    }

    /** Handles one like request from `user`, inserting the row when it is new. */
    method Register(user: nat, targetType: string, targetId: Option<int>) returns (outcome: Outcome)
      requires Valid()
      modifies this`rows
      ensures Valid()
      ensures Step(outcome, rows) == Attempt(old(rows), targets, user, targetType, targetId)
    {
      AttemptKeepsDistinct(rows, targets, user, targetType, targetId);
      var parsed := ParseTarget(targetType, targetId);
      if parsed.None? {
        outcome := Invalid;
      } else {
        var key := LikeKey(user, parsed.value);
        if key in rows || parsed.value !in targets {
          outcome := AlreadyLiked;
        } else {
          rows := rows + [key];
          outcome := Liked;
        }
      }
    }
  }
}
