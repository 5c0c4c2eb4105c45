/**
 * Sorting carts by (y, x), as `sorted` does with the cart order, and what
 * sortedness says about carts that share a position.
 */
module Ordering {
  import opened Carts

  /** No cart is ordered before one that precedes it. */
  predicate Sorted(s: seq<Cart>) {
    forall i, j :: 0 <= i < j < |s| ==> !Less(s[j], s[i])
  }

  /** Every earlier cart is ordered strictly before every later one. */
  predicate StrictlySorted(s: seq<Cart>) {
    forall i, j :: 0 <= i < j < |s| ==> Less(s[i], s[j])
  }

  /** No two carts of the list share a position. */
  predicate DistinctPositions(s: seq<Cart>) {
    forall i, j :: 0 <= i < j < |s| ==> !SamePos(s[i], s[j])
  }

  /** Two neighbours in the list share a position. */
  predicate HasAdjacentPair(s: seq<Cart>) {
    exists k :: 0 <= k < |s| - 1 && SamePos(s[k], s[k + 1])
  }

  lemma StrictlySortedIsSortedAndDistinct(s: seq<Cart>)
    requires StrictlySorted(s)
    ensures Sorted(s) && DistinctPositions(s)
  {
  }

  /** A sorted list stays sorted under a new head that no element is ordered before. */
  lemma SortedCons(h: Cart, rest: seq<Cart>)
    requires Sorted(rest)
    requires forall e :: e in rest ==> !Less(e, h)
    ensures Sorted([h] + rest)
  {
    var r := [h] + rest;
    forall i, j | 0 <= i < j < |r|
      ensures !Less(r[j], r[i])
    {
      assert r[j] == rest[j - 1];
      if i > 0 {
        assert r[i] == rest[i - 1];
      }
    }
  }

  /** Place c after every cart it is not ordered before, keeping the order stable. */
  function Insert(c: Cart, s: seq<Cart>): (r: seq<Cart>)
    requires Sorted(s)
    ensures Sorted(r)
    ensures multiset(r) == multiset(s) + multiset{c}
  {
    if |s| == 0 then [c]
    else if Less(c, s[0]) then
      InsertFront(c, s);
      [c] + s
    else
      var rest := Insert(c, s[1..]);
      InsertBehind(c, s, rest);
      [s[0]] + rest
  }

  /** A cart ordered before the head of a sorted list can lead it. */
  lemma InsertFront(c: Cart, s: seq<Cart>)
    requires Sorted(s) && |s| > 0 && Less(c, s[0])
    ensures Sorted([c] + s)
  {
    forall e | e in s
      ensures !Less(e, c)
    {
      LessIsStrictTotalOrder(c, s[0], e);
    }
    SortedCons(c, s);
  }

  /** The head of a sorted list can lead the insertion into its tail. */
  lemma InsertBehind(c: Cart, s: seq<Cart>, rest: seq<Cart>)
    requires Sorted(s) && |s| > 0
    requires Sorted(rest) && multiset(rest) == multiset(s[1..]) + multiset{c}
    requires !Less(c, s[0])
    ensures Sorted([s[0]] + rest)
    ensures multiset([s[0]] + rest) == multiset(s) + multiset{c}
  {
    forall e | e in rest
      ensures !Less(e, s[0])
    {
      assert e in multiset(rest);
      if e != c {
        assert e in multiset(s[1..]);
        var k :| 0 <= k < |s[1..]| && s[1..][k] == e;
        assert s[k + 1] == e;
      }
    }
    SortedCons(s[0], rest);
    assert s == [s[0]] + s[1..];
  }

  /** Stable insertion sort of the cart list by (y, x). */
  function Sort(s: seq<Cart>): (r: seq<Cart>)
    ensures Sorted(r)
    ensures multiset(r) == multiset(s)
    ensures |r| == |s|
    ensures AllUnit(s) ==> AllUnit(r)
  {
    if |s| == 0 then []
    else
      var init := Sort(s[..|s| - 1]);
      assert s == s[..|s| - 1] + [s[|s| - 1]];
      var r := Insert(s[|s| - 1], init);
      assert |multiset(r)| == |multiset(s)|;
      assert forall k :: 0 <= k < |r| ==> r[k] in multiset(s);
      r
  }

  /** A cart no element is ordered after goes to the end of a sorted list. */
  lemma {:induction false} InsertLast(c: Cart, s: seq<Cart>)
    requires Sorted(s)
    requires forall k :: 0 <= k < |s| ==> !Less(c, s[k])
    ensures Insert(c, s) == s + [c]
  {
    if |s| > 0 {
      assert Sorted(s[1..]) by {
        forall i, j | 0 <= i < j < |s[1..]|
          ensures !Less(s[1..][j], s[1..][i])
        {
          assert s[1..][j] == s[j + 1] && s[1..][i] == s[i + 1];
        }
      }
      assert forall k :: 0 <= k < |s[1..]| ==> s[1..][k] == s[k + 1];
      InsertLast(c, s[1..]);
      assert s == [s[0]] + s[1..];
    }
  }

  /** Dropping the last cart of a sorted list leaves a sorted list the last cart is not ordered before. */
  lemma SortedInit(s: seq<Cart>, init: seq<Cart>)
    requires Sorted(s) && |s| > 0 && init == s[..|s| - 1]
    ensures Sorted(init)
    ensures forall k :: 0 <= k < |init| ==> !Less(s[|s| - 1], init[k])
  {
  }

  /** Sorting an already sorted list leaves it as it is: the sort is stable. */
  lemma {:induction false} SortIdentity(s: seq<Cart>)
    requires Sorted(s)
    ensures Sort(s) == s
  {
    if |s| > 0 {
      var init, last := s[..|s| - 1], s[|s| - 1];
      assert Sort(init) == init by {
        SortedInit(s, init);
        SortIdentity(init);
      }
      assert Insert(last, init) == s by {
        SortedInit(s, init);
        InsertLast(last, init);
        assert s == init + [last];
      }
      assert Sort(s) == Insert(last, Sort(init));
    }
  }

  /** Sorting twice is sorting once. */
  lemma SortIdempotent(s: seq<Cart>)
    ensures Sort(Sort(s)) == Sort(s)
  {
    SortIdentity(Sort(s));
  }

  /** In a sorted list, a cart between two carts at one position is at that position too. */
  lemma SortedBetween(s: seq<Cart>, i: int, j: int, k: int)
    requires Sorted(s) && 0 <= i <= j <= k < |s|
    requires SamePos(s[i], s[k])
    ensures SamePos(s[i], s[j])
  {
    if i < j && j < k {
      LessIsStrictTotalOrder(s[i], s[j], s[k]);
    }
  }

  /**
   * Sorting puts carts that share a position next to each other: a sorted
   * list has two carts at one position exactly when two neighbours do.
   */
  lemma SortedDuplicatesAdjacent(s: seq<Cart>)
    requires Sorted(s)
    ensures !DistinctPositions(s) <==> HasAdjacentPair(s)
  {
    if !DistinctPositions(s) {
      var i, j :| 0 <= i < j < |s| && SamePos(s[i], s[j]);
      SortedBetween(s, i, i + 1, j);
      assert SamePos(s[i], s[i + 1]);
    }
    if HasAdjacentPair(s) {
      var k :| 0 <= k < |s| - 1 && SamePos(s[k], s[k + 1]);
      assert !DistinctPositions(s);
    }
  }
}
