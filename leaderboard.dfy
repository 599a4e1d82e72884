/**
 * The karma leaderboard: likes from the trailing day are weighted by what
 * they point at, summed per author of the liked content, sorted by total
 * descending and cut to the first five.
 */
module Leaderboard {
  import opened Seqs
  import opened Targets

  /** Points a post like earns the post's author. */
  const PostLikePoints: nat := 5
  /** Points a comment like earns the comment's author. */
  const CommentLikePoints: nat := 1
  /** Length of the trailing window, in seconds (24 hours). */
  const WindowSeconds: int := 24 * 60 * 60
  /** How many users the leaderboard shows. */
  const TopK: nat := 5

  /**
   * A like as the scoring query sees it: when it was created, what it points
   * at, and the author of that post or comment (who receives the points).
   */
  datatype KarmaLike = KarmaLike(createdAt: int, target: Target, targetAuthor: nat)

  /** One leaderboard row: a user and their karma in the window. */
  datatype Entry = Entry(user: nat, karma: nat)

  /** The weight of a like, by the kind of its target. */
  function Points(t: Target): nat {
    match t
    case PostTarget(_) => PostLikePoints
    case CommentTarget(_) => CommentLikePoints
  }

  /** The total weight of a sequence of likes. */
  function Weight(likes: seq<KarmaLike>): nat {
    if likes == [] then 0 else Weight(likes[..|likes| - 1]) + Points(likes[|likes| - 1].target)
  }

  /** The like counts: it is no older than `since` (the window is closed at its start). */
  predicate InWindow(l: KarmaLike, since: int) {
    l.createdAt >= since
  }

  /** The like counts towards user `u`. */
  function CreditsP(since: int, u: nat): KarmaLike -> bool {
    (l: KarmaLike) => InWindow(l, since) && l.targetAuthor == u
  }

  /** User `u`'s karma: the weight of the windowed likes on content `u` wrote. */
  function Karma(likes: seq<KarmaLike>, since: int, u: nat): nat {
    Weight(Filter(likes, CreditsP(since, u)))
  }

  /** The users with at least one windowed like: the groups of the aggregation. */
  function Scored(likes: seq<KarmaLike>, since: int): set<nat> {
    set l | l in likes && InWindow(l, since) :: l.targetAuthor
  }

  lemma {:induction false} WeightAppend(a: seq<KarmaLike>, b: seq<KarmaLike>)
    ensures Weight(a + b) == Weight(a) + Weight(b)
    decreases |b|
  {
    if b == [] {
      assert a + b == a;
    } else {
      var init := b[..|b| - 1];
      assert b == init + [b[|b| - 1]];
      assert a + b == (a + init) + [b[|b| - 1]];
      WeightAppend(a, init);
    }
  }

  /** Karma is additive: the karma over two batches of likes is the sum of their karmas. */
  lemma KarmaAppend(a: seq<KarmaLike>, b: seq<KarmaLike>, since: int, u: nat)
    ensures Karma(a + b, since, u) == Karma(a, since, u) + Karma(b, since, u)
  {
    FilterAppend(a, b, CreditsP(since, u));
    WeightAppend(Filter(a, CreditsP(since, u)), Filter(b, CreditsP(since, u)));
  }

  /**
   * One more like adds 5 to the liked post's author or 1 to the liked
   * comment's author when it is inside the window, and changes no one
   * else's karma; a like outside the window adds nothing. Liking one's own
   * content is not excluded.
   */
  lemma KarmaOfLike(likes: seq<KarmaLike>, l: KarmaLike, since: int, u: nat)
    ensures Karma(likes + [l], since, u) ==
              Karma(likes, since, u) +
              (if InWindow(l, since) && l.targetAuthor == u
               then (if l.target.PostTarget? then PostLikePoints else CommentLikePoints)
               else 0)
  {
    KarmaAppend(likes, [l], since, u);
    assert [l][..0] == [];
    FilterSnoc([], l, CreditsP(since, u));
    assert [] + [l] == [l];
  }

  /** Exactly the scored users have positive karma. */
  lemma {:induction false} KarmaPositive(likes: seq<KarmaLike>, since: int, u: nat)
    ensures Karma(likes, since, u) > 0 <==> u in Scored(likes, since)
  {
    if likes != [] {
      var init := likes[..|likes| - 1];
      var l := likes[|likes| - 1];
      assert likes == init + [l];
      KarmaPositive(init, since, u);
      KarmaOfLike(init, l, since, u);
      assert Scored(likes, since) == Scored(init, since) + (if InWindow(l, since) then {l.targetAuthor} else {});
    }
  }

  /** A descending order by karma. */
  predicate Sorted(es: seq<Entry>) {
    forall i, j :: 0 <= i <= j < |es| ==> es[j].karma <= es[i].karma
  }

  /** No user has two rows. */
  predicate DistinctUsers(es: seq<Entry>) {
    forall i, j :: 0 <= i < |es| && 0 <= j < |es| && es[i].user == es[j].user ==> i == j
  }

  /** The users that have a row. */
  function UsersOf(es: seq<Entry>): set<nat> {
    set e | e in es :: e.user
  }

  /**
   * What the query promises: the scored users with their karma, at most
   * five, none listed twice, in non-increasing karma, and no scored user
   * left out has more karma than any listed one. The order among users with
   * equal karma is left open, as the query sorts by karma alone.
   */
  ghost predicate IsLeaderboard(likes: seq<KarmaLike>, since: int, board: seq<Entry>) {
    var scored := Scored(likes, since);
    |board| == (if |scored| < TopK then |scored| else TopK) &&
    DistinctUsers(board) &&
    (forall i :: 0 <= i < |board| ==>
       board[i].user in scored && board[i].karma == Karma(likes, since, board[i].user)) &&
    Sorted(board) &&
    (forall u, i :: u in scored && u !in UsersOf(board) && 0 <= i < |board| ==>
       Karma(likes, since, u) <= board[i].karma)
  }

  /** The scored users in order of their first windowed like. */
  function Beneficiaries(likes: seq<KarmaLike>, since: int): seq<nat> {
    if likes == [] then []
    else
      var init := Beneficiaries(likes[..|likes| - 1], since);
      var l := likes[|likes| - 1];
      if InWindow(l, since) && l.targetAuthor !in init then init + [l.targetAuthor] else init
  }

  lemma {:induction false} BeneficiariesAreScored(likes: seq<KarmaLike>, since: int)
    ensures Distinct(Beneficiaries(likes, since))
    ensures forall u :: u in Beneficiaries(likes, since) <==> u in Scored(likes, since)
  {
    if likes != [] {
      var init := likes[..|likes| - 1];
      var l := likes[|likes| - 1];
      assert likes == init + [l];
      BeneficiariesAreScored(init, since);
      assert Scored(likes, since) == Scored(init, since) + (if InWindow(l, since) then {l.targetAuthor} else {});
    }
  }

  /** One row per scored user, with that user's total: the grouped sum. */
  function Totals(likes: seq<KarmaLike>, since: int): seq<Entry> {
    var bs := Beneficiaries(likes, since);
    seq(|bs|, i requires 0 <= i < |bs| => Entry(bs[i], Karma(likes, since, bs[i])))
  }

  /** Puts `x` after every row with at least its karma, keeping the rest in place. */
  function Insert(x: Entry, s: seq<Entry>): seq<Entry>
    decreases |s|
  {
    if s == [] then [x]
    else if s[0].karma >= x.karma then [s[0]] + Insert(x, s[1..])
    else [x] + s
  }

  /** A stable sort by descending karma: rows with equal karma keep their order. */
  function SortDesc(es: seq<Entry>): seq<Entry> {
    if es == [] then [] else Insert(es[|es| - 1], SortDesc(es[..|es| - 1]))
  }

  /** Insertion adds exactly the new row: the result is a permutation of `s` plus `x`. */
  lemma {:induction false} InsertPermutes(x: Entry, s: seq<Entry>)
    ensures multiset(Insert(x, s)) == multiset(s) + multiset{x}
    decreases |s|
  {
    if s != [] && s[0].karma >= x.karma {
      assert s == [s[0]] + s[1..];
      InsertPermutes(x, s[1..]);
    }
  }

  /** Insertion grows the list by one row: the new one. */
  lemma {:induction false} InsertMembers(x: Entry, s: seq<Entry>)
    ensures |Insert(x, s)| == |s| + 1
    ensures forall e :: e in Insert(x, s) <==> e == x || e in s
    decreases |s|
  {
    if s != [] {
      assert s == [s[0]] + s[1..];
      InsertMembers(x, s[1..]);
    }
  }

  /** Insertion into a descending list keeps it descending. */
  lemma {:induction false} InsertSorted(x: Entry, s: seq<Entry>)
    requires Sorted(s)
    ensures Sorted(Insert(x, s))
    decreases |s|
  {
    if s != [] && s[0].karma >= x.karma {
      var tail := s[1..];
      assert Sorted(tail);
      InsertSorted(x, tail);
      InsertMembers(x, tail);
      var r := Insert(x, s);
      assert r == [s[0]] + Insert(x, tail);
      forall j | 0 < j < |r| ensures r[j].karma <= r[0].karma {
        assert r[j] in Insert(x, tail);
      }
    }
  }

  /** Insertion of a row for a new user keeps users distinct. */
  lemma {:induction false} InsertDistinct(x: Entry, s: seq<Entry>)
    requires DistinctUsers(s) && x.user !in UsersOf(s)
    ensures DistinctUsers(Insert(x, s))
    decreases |s|
  {
    if s != [] && s[0].karma >= x.karma {
      var tail := s[1..];
      assert s == [s[0]] + tail;
      assert DistinctUsers(tail);
      assert UsersOf(tail) <= UsersOf(s);
      InsertDistinct(x, tail);
      InsertMembers(x, tail);
      var r := Insert(x, s);
      assert r == [s[0]] + Insert(x, tail);
      forall j | 0 < j < |r| ensures r[j].user != s[0].user {
        assert r[j] in Insert(x, tail);
        if r[j] != x {
          var m :| 0 <= m < |tail| && tail[m] == r[j];
          assert s[m + 1] == r[j];
        }
      }
    }
  }

  /** What one insertion step of the sort guarantees. */
  lemma InsertFacts(x: Entry, s: seq<Entry>)
    ensures |Insert(x, s)| == |s| + 1
    ensures forall e :: e in Insert(x, s) <==> e == x || e in s
    ensures Sorted(s) ==> Sorted(Insert(x, s))
    ensures DistinctUsers(s) && x.user !in UsersOf(s) ==> DistinctUsers(Insert(x, s))
  {
    InsertMembers(x, s);
    if Sorted(s) {
      InsertSorted(x, s);
    }
    if DistinctUsers(s) && x.user !in UsersOf(s) {
      InsertDistinct(x, s);
    }
  }

  lemma {:induction false} SortFacts(es: seq<Entry>)
    ensures |SortDesc(es)| == |es|
    ensures multiset(SortDesc(es)) == multiset(es)
    ensures forall e :: e in SortDesc(es) <==> e in es
    ensures Sorted(SortDesc(es))
    ensures DistinctUsers(es) ==> DistinctUsers(SortDesc(es))
  {
    if es != [] {
      var init := es[..|es| - 1];
      var x := es[|es| - 1];
      assert es == init + [x];
      SortFacts(init);
      InsertFacts(x, SortDesc(init));
      InsertPermutes(x, SortDesc(init));
      if DistinctUsers(es) {
        assert DistinctUsers(init);
        assert x.user !in UsersOf(SortDesc(init));
      }
    }
  }

  /** The first `TopK` rows, or all of them when there are fewer. */
  function Take(es: seq<Entry>): seq<Entry> {
    if |es| <= TopK then es else es[..TopK]
  }

  lemma TotalsFacts(likes: seq<KarmaLike>, since: int)
    ensures |Totals(likes, since)| == |Scored(likes, since)|
    ensures DistinctUsers(Totals(likes, since))
    ensures forall e :: e in Totals(likes, since) <==>
              e.user in Scored(likes, since) && e.karma == Karma(likes, since, e.user)
  {
    var bs := Beneficiaries(likes, since);
    var ts := Totals(likes, since);
    BeneficiariesAreScored(likes, since);
    DistinctCard(bs, Scored(likes, since));
    assert |ts| == |bs|;
    forall e: Entry | e.user in Scored(likes, since) && e.karma == Karma(likes, since, e.user)
      ensures e in ts
    {
      var i :| 0 <= i < |bs| && bs[i] == e.user;
      assert ts[i] == e;
    }
  }

  /** A row of a descending list that the cut leaves out has no more karma than any kept row. */
  lemma CutOffBelow(sorted: seq<Entry>, e: Entry)
    requires Sorted(sorted) && e in sorted && e !in Take(sorted)
    ensures forall i :: 0 <= i < |Take(sorted)| ==> e.karma <= Take(sorted)[i].karma
  {
    var board := Take(sorted);
    var j :| 0 <= j < |sorted| && sorted[j] == e;
    forall m | 0 <= m < |board| ensures board[m] == sorted[m] && board[m] != e {
      assert board[m] in board;
    }
    assert |board| <= j;
  }

  /** The stable ranking of the grouped totals satisfies the leaderboard's promise. */
  lemma RankingIsLeaderboard(likes: seq<KarmaLike>, since: int)
    ensures IsLeaderboard(likes, since, Take(SortDesc(Totals(likes, since))))
  {
    var ts := Totals(likes, since);
    var sorted := SortDesc(ts);
    var board := Take(sorted);
    TotalsFacts(likes, since);
    SortFacts(ts);
    assert forall i :: 0 <= i < |board| ==> board[i] == sorted[i];
    forall i | 0 <= i < |board|
      ensures board[i].user in Scored(likes, since) && board[i].karma == Karma(likes, since, board[i].user)
    {
      assert sorted[i] in sorted;
    }
    forall u, i | u in Scored(likes, since) && u !in UsersOf(board) && 0 <= i < |board|
      ensures Karma(likes, since, u) <= board[i].karma
    {
      var e := Entry(u, Karma(likes, since, u));
      assert e in sorted;
      assert e !in board;
      CutOffBelow(sorted, e);
    }
  }

  /**
   * The leaderboard at time `now`: the likes of the last 24 hours scored,
   * grouped by beneficiary, stably sorted by karma and cut to five rows.
   */
  function ComputeLeaderboard(likes: seq<KarmaLike>, now: int): (board: seq<Entry>)
    ensures IsLeaderboard(likes, now - WindowSeconds, board)
  {
    RankingIsLeaderboard(likes, now - WindowSeconds);
    Take(SortDesc(Totals(likes, now - WindowSeconds)))
  }

  /** A scored user with more karma than row `k` of a valid leaderboard is listed above that row. */
  lemma RankedAbove(likes: seq<KarmaLike>, since: int, board: seq<Entry>, k: nat, u: nat)
    requires IsLeaderboard(likes, since, board) && k < |board| && u in Scored(likes, since)
    ensures Karma(likes, since, u) > board[k].karma ==> exists j :: 0 <= j < k && board[j].user == u
  {
    if Karma(likes, since, u) > board[k].karma {
      assert u in UsersOf(board);
      var e :| e in board && e.user == u;
      var j :| 0 <= j < |board| && board[j] == e;
      assert j < k;
    }
  }

  /**
   * If row `k` of `b1` outscores row `k` of `b2`, the user of any row of `b1`
   * up to `k` is listed above row `k` in `b2`.
   */
  lemma AboveStaysAbove(likes: seq<KarmaLike>, since: int, b1: seq<Entry>, b2: seq<Entry>, k: nat, i: nat)
    requires IsLeaderboard(likes, since, b1) && IsLeaderboard(likes, since, b2) && i <= k < |b1|
    ensures b1[k].karma > b2[k].karma ==> exists j :: 0 <= j < k && b2[j].user == b1[i].user
  {
    assert b1[i].karma >= b1[k].karma;
    RankedAbove(likes, since, b2, k, b1[i].user);
  }

  /** Row `k` of one valid leaderboard has no more karma than row `k` of another. */
  lemma KarmaColumnBound(likes: seq<KarmaLike>, since: int, b1: seq<Entry>, b2: seq<Entry>, k: nat)
    requires IsLeaderboard(likes, since, b1) && IsLeaderboard(likes, since, b2) && k < |b1|
    ensures b1[k].karma <= b2[k].karma
  {
    var top1 := seq(k + 1, i requires 0 <= i <= k => b1[i].user);
    var top2 := seq(k, i requires 0 <= i < k => b2[i].user);
    forall i | 0 <= i <= k && b1[k].karma > b2[k].karma ensures top1[i] in top2 {
      AboveStaysAbove(likes, since, b1, b2, k, i);
      var j :| 0 <= j < k && b2[j].user == b1[i].user;
      assert top2[j] == top1[i];
    }
    assert Distinct(top1);
    DistinctInside(top1, top2);
  }

  /**
   * Ties are the only freedom: any two valid leaderboards for the same likes
   * have the same length and the same karma in every row.
   */
  lemma ScoresDetermined(likes: seq<KarmaLike>, since: int, b1: seq<Entry>, b2: seq<Entry>)
    requires IsLeaderboard(likes, since, b1) && IsLeaderboard(likes, since, b2)
    ensures |b1| == |b2|
    ensures forall k :: 0 <= k < |b1| ==> b1[k].karma == b2[k].karma
  {
    forall k | 0 <= k < |b1| ensures b1[k].karma == b2[k].karma {
      KarmaColumnBound(likes, since, b1, b2, k);
      KarmaColumnBound(likes, since, b2, b1, k);
    }
  }
}
