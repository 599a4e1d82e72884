/**
 * Order-preserving selection from a sequence: the shape of every
 * "loop over the rows and append the ones that match" in the feed code.
 */
module Seqs {

  /** The elements of `s` that satisfy `p`, in the order they occur in `s`. */
  function Filter<T>(s: seq<T>, p: T -> bool): (r: seq<T>)
    ensures |r| <= |s|
  {
    if s == [] then []
    else if p(s[|s| - 1]) then Filter(s[..|s| - 1], p) + [s[|s| - 1]]
    else Filter(s[..|s| - 1], p)
  }

  /** The indices of `s` whose elements satisfy `p`, in increasing order. */
  function Positions<T>(s: seq<T>, p: T -> bool): (r: seq<nat>)
  {
    if s == [] then []
    else if p(s[|s| - 1]) then Positions(s[..|s| - 1], p) + [|s| - 1]
    else Positions(s[..|s| - 1], p)
  }

  /** No element occurs twice in `s`. */
  predicate Distinct<T(==)>(s: seq<T>) {
    forall i, j :: 0 <= i < |s| && 0 <= j < |s| && s[i] == s[j] ==> i == j
  }

  /** Dropping the first element keeps a sequence duplicate-free. */
  lemma DistinctTail<T>(s: seq<T>)
    requires Distinct(s) && s != []
    ensures Distinct(s[1..])
  {
    forall i, j | 0 <= i < |s| - 1 && 0 <= j < |s| - 1 && s[1..][i] == s[1..][j] ensures i == j {
      assert s[i + 1] == s[j + 1];
    }
  }

  /** Two duplicate-free sequences with no element in common concatenate to a duplicate-free one. */
  lemma DistinctAppend<T>(xs: seq<T>, ys: seq<T>)
    requires Distinct(xs) && Distinct(ys)
    requires forall y :: y in xs ==> y !in ys
    ensures Distinct(xs + ys)
  {
    var s := xs + ys;
    forall i, j | 0 <= i < |s| && 0 <= j < |s| && s[i] == s[j] ensures i == j {
      assert i < |xs| ==> s[i] in xs;
      assert j < |xs| ==> s[j] in xs;
      assert i >= |xs| ==> s[i] == ys[i - |xs|];
      assert j >= |xs| ==> s[j] == ys[j - |xs|];
      assert i < |xs| <==> j < |xs|;
    }
  }

  /** An element followed by two sequences, each duplicate-free and pairwise apart, is duplicate-free. */
  lemma DistinctJoin<T>(c: T, below: seq<T>, rest: seq<T>)
    requires Distinct(below) && Distinct(rest) && c !in below && c !in rest
    requires forall x :: x in below ==> x !in rest
    ensures Distinct([c] + below + rest)
  {
    DistinctAppend([c], below);
    DistinctAppend([c] + below, rest);
  }

  /** Appending one element extends the selection by that element exactly when it satisfies `p`. */
  lemma FilterSnoc<T>(s: seq<T>, x: T, p: T -> bool)
    ensures Filter(s + [x], p) == if p(x) then Filter(s, p) + [x] else Filter(s, p)
  {
    assert (s + [x])[..|s + [x]| - 1] == s;
  }

  /** Every recorded index is an index of `s` whose element satisfies `p`. */
  lemma {:induction false} PositionsSound<T>(s: seq<T>, p: T -> bool)
    ensures forall i :: i in Positions(s, p) ==> i < |s| && p(s[i])
  {
    if s != [] {
      var init := s[..|s| - 1];
      PositionsSound(init, p);
      assert forall i :: 0 <= i < |init| ==> init[i] == s[i];
    }
  }

  /** Every index whose element satisfies `p` is recorded. */
  lemma {:induction false} PositionsComplete<T>(s: seq<T>, p: T -> bool)
    ensures forall i :: 0 <= i < |s| && p(s[i]) ==> i in Positions(s, p)
  {
    if s != [] {
      var init := s[..|s| - 1];
      PositionsComplete(init, p);
      assert forall i :: 0 <= i < |init| ==> init[i] == s[i];
    }
  }

  /** The recorded indices increase strictly. */
  lemma {:induction false} PositionsIncreasing<T>(s: seq<T>, p: T -> bool)
    ensures forall k, m :: 0 <= k < m < |Positions(s, p)| ==> Positions(s, p)[k] < Positions(s, p)[m]
  {
    if s != [] {
      var init := s[..|s| - 1];
      PositionsIncreasing(init, p);
      PositionsSound(init, p);
      var ps := Positions(init, p);
      assert forall k :: 0 <= k < |ps| ==> ps[k] in ps;
    }
  }

  /** The k-th selected element is the element at the k-th recorded index. */
  lemma {:induction false} PositionsIndex<T>(s: seq<T>, p: T -> bool)
    ensures |Positions(s, p)| == |Filter(s, p)|
    ensures forall k :: 0 <= k < |Filter(s, p)| ==>
              Positions(s, p)[k] < |s| && Filter(s, p)[k] == s[Positions(s, p)[k]]
  {
    if s != [] {
      var init := s[..|s| - 1];
      PositionsIndex(init, p);
      assert forall i :: 0 <= i < |init| ==> init[i] == s[i];
    }
  }

  /**
   * Filter keeps exactly the satisfying elements and keeps them in input order:
   * its k-th element is the element of `s` at the k-th satisfying index, those
   * indices increase strictly, and every satisfying index is among them.
   */
  lemma FilterByPositions<T>(s: seq<T>, p: T -> bool)
    ensures |Positions(s, p)| == |Filter(s, p)|
    ensures forall k :: 0 <= k < |Filter(s, p)| ==>
              Positions(s, p)[k] < |s| && Filter(s, p)[k] == s[Positions(s, p)[k]]
    ensures forall k, m :: 0 <= k < m < |Positions(s, p)| ==> Positions(s, p)[k] < Positions(s, p)[m]
    ensures forall i :: 0 <= i < |s| && p(s[i]) ==> i in Positions(s, p)
    ensures forall i :: i in Positions(s, p) ==> i < |s| && p(s[i])
  {
    PositionsIndex(s, p);
    PositionsIncreasing(s, p);
    PositionsComplete(s, p);
    PositionsSound(s, p);
  }

  /** Membership in the selection: present in `s` and satisfying `p`. */
  lemma {:induction false} FilterMember<T>(s: seq<T>, p: T -> bool, x: T)
    ensures x in Filter(s, p) <==> x in s && p(x)
  {
    if s != [] {
      var init := s[..|s| - 1];
      FilterMember(init, p, x);
      assert s == init + [s[|s| - 1]];
    }
  }

  /** Selection never duplicates: a distinct sequence selects a distinct sequence. */
  lemma {:induction false} FilterDistinct<T>(s: seq<T>, p: T -> bool)
    requires Distinct(s)
    ensures Distinct(Filter(s, p))
  {
    FilterByPositions(s, p);
    var f, ps := Filter(s, p), Positions(s, p);
    forall i, j | 0 <= i < |f| && 0 <= j < |f| && f[i] == f[j] ensures i == j {
      assert s[ps[i]] == s[ps[j]];
    }
  }

  /**
   * Two selections by disjoint conditions together are as long as the selection
   * by their union.
   */
  lemma {:induction false} FilterDisjointUnion<T>(s: seq<T>, p: T -> bool, q: T -> bool, pq: T -> bool)
    requires forall x :: pq(x) == (p(x) || q(x))
    requires forall x :: !(p(x) && q(x))
    ensures |Filter(s, p)| + |Filter(s, q)| == |Filter(s, pq)|
  {
    if s != [] {
      FilterDisjointUnion(s[..|s| - 1], p, q, pq);
    }
  }

  /** Selecting by `p` and by `!p` splits `s` into two parts whose lengths add up to |s|. */
  lemma {:induction false} FilterComplement<T>(s: seq<T>, p: T -> bool, notP: T -> bool)
    requires forall x :: notP(x) == !p(x)
    ensures |Filter(s, p)| + |Filter(s, notP)| == |s|
  {
    if s != [] {
      FilterComplement(s[..|s| - 1], p, notP);
    }
  }

  /** A selection by a condition nothing in `s` meets is empty. */
  lemma {:induction false} FilterNone<T>(s: seq<T>, p: T -> bool)
    requires forall i :: 0 <= i < |s| ==> !p(s[i])
    ensures Filter(s, p) == []
  {
    if s != [] {
      FilterNone(s[..|s| - 1], p);
    }
  }

  /** A distinct sequence has as many elements as the set of its elements. */
  lemma {:induction false} DistinctCard<T>(s: seq<T>, elems: set<T>)
    requires Distinct(s)
    requires forall x :: x in elems <==> x in s
    ensures |elems| == |s|
  {
    if s != [] {
      var init := s[..|s| - 1];
      var last := s[|s| - 1];
      assert Distinct(init);
      assert s == init + [last];
      assert last !in init;
      DistinctCard(init, elems - {last});
    }
  }

  /** Selection distributes over concatenation. */
  lemma {:induction false} FilterAppend<T>(a: seq<T>, b: seq<T>, p: T -> bool)
    ensures Filter(a + b, p) == Filter(a, p) + Filter(b, p)
    decreases |b|
  {
    if b != [] {
      var init := b[..|b| - 1];
      var x := b[|b| - 1];
      assert b == init + [x];
      assert a + b == (a + init) + [x];
      FilterAppend(a, init, p);
      FilterSnoc(a + init, x, p);
      FilterSnoc(init, x, p);
      if p(x) {
        assert Filter(a, p) + (Filter(init, p) + [x]) == (Filter(a, p) + Filter(init, p)) + [x];
      }
    } else {
      assert a + b == a;
    }
  }

  /** A sequence has at least as many elements as the set of its elements. */
  lemma {:induction false} SeqSetCard<T>(s: seq<T>, elems: set<T>)
    requires forall x :: x in elems <==> x in s
    ensures |elems| <= |s|
  {
    if s != [] {
      var init := s[..|s| - 1];
      var last := s[|s| - 1];
      assert s == init + [last];
      if last in init {
        SeqSetCard(init, elems);
      } else {
        SeqSetCard(init, elems - {last});
      }
    }
  }

  /** A subset is no larger than its superset. */
  lemma SubsetCard<T>(a: set<T>, b: set<T>)
    ensures a <= b ==> |a| <= |b|
  {
    if a <= b {
      assert b == a + (b - a);
      assert a * (b - a) == {};
    }
  }

  /** Pigeonhole: a duplicate-free sequence whose elements all occur in `b` is no longer than `b`. */
  lemma DistinctInside<T>(a: seq<T>, b: seq<T>)
    requires Distinct(a)
    ensures (forall i :: 0 <= i < |a| ==> a[i] in b) ==> |a| <= |b|
  {
    var sa := set x | x in a;
    var sb := set x | x in b;
    DistinctCard(a, sa);
    SeqSetCard(b, sb);
    assert (forall i :: 0 <= i < |a| ==> a[i] in b) ==> sa <= sb;
    SubsetCard(sa, sb);
  }

  /**
   * A duplicate-free selection `f` from a duplicate-free `s`, together with
   * the set of elements it leaves out, accounts for `s` exactly.
   */
  lemma PartitionCard<T>(s: seq<T>, f: seq<T>, left: set<T>)
    requires Distinct(s) && Distinct(f)
    requires forall x :: x in f ==> x in s
    requires forall x :: x in left <==> x in s && x !in f
    ensures |f| + |left| == |s|
  {
    var all := set x | x in s;
    var kept := set x | x in f;
    DistinctCard(s, all);
    DistinctCard(f, kept);
    assert all == kept + left && kept !! left;
  }
}
