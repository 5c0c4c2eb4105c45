/**
 * Collision detection: a single pass over a cart list that reports the
 * position of the first two neighbours sharing a cell.
 */
module Collision {
  import opened Carts
  import opened Ordering

  /** No cart in positions lo .. hi - 1 shares its position with its successor. */
  predicate NoPairBetween(s: seq<Cart>, lo: int, hi: int) {
    forall n :: lo <= n < hi && 0 <= n < |s| - 1 ==> !SamePos(s[n], s[n + 1])
  }

  /** k is the first index whose cart shares its position with the next one. */
  predicate FirstAdjacentPair(s: seq<Cart>, k: int) {
    && 0 <= k < |s| - 1
    && SamePos(s[k], s[k + 1])
    && NoPairBetween(s, 0, k)
  }

  /**
   * The scan after it has remembered the position of s[k]: report it if
   * s[k + 1] is at the same place, otherwise move on.
   */
  function DetectFrom(s: seq<Cart>, k: nat): (r: Option<Pos>)
    requires k < |s|
    decreases |s| - k
    ensures r.None? <==> NoPairBetween(s, k, |s|)
    ensures r.Some? ==> exists m :: k <= m < |s| - 1 && SamePos(s[m], s[m + 1]) && r.value == PosOf(s[m])
                                    && NoPairBetween(s, k, m)
  {
    if k + 1 == |s| then None
    else if PosOf(s[k]) == PosOf(s[k + 1]) then Some(PosOf(s[k]))
    else DetectFrom(s, k + 1)
  }

  /**
   * The source's detect_collision: None exactly when no two neighbours share
   * a position, otherwise the position of the first such pair.
   */
  function DetectCollision(s: seq<Cart>): (r: Option<Pos>)
    ensures r.None? <==> !HasAdjacentPair(s)
    ensures r.Some? ==> exists k :: FirstAdjacentPair(s, k) && r.value == PosOf(s[k])
  {
    if |s| == 0 then None
    else
      var r := DetectFrom(s, 0);
      assert NoPairBetween(s, 0, |s|) <==> !HasAdjacentPair(s);
      r
  }

  /** A reported position is held by two different entries of the list. */
  lemma DetectedIsShared(s: seq<Cart>)
    ensures DetectCollision(s).Some? ==>
              exists i, j :: 0 <= i < j < |s| && PosOf(s[i]) == DetectCollision(s).value == PosOf(s[j])
  {
    if DetectCollision(s).Some? {
      var k :| FirstAdjacentPair(s, k) && DetectCollision(s).value == PosOf(s[k]);
      assert PosOf(s[k]) == PosOf(s[k + 1]);
    }
  }

  /** On a sorted list the scan finds a collision exactly when two carts share a position. */
  lemma DetectOnSorted(s: seq<Cart>)
    requires Sorted(s)
    ensures DetectCollision(s).None? <==> DistinctPositions(s)
  {
    SortedDuplicatesAdjacent(s);
  }

  /** Only coordinates matter: lists with the same positions give the same answer. */
  lemma DetectSeesOnlyPositions(s: seq<Cart>, t: seq<Cart>)
    requires |s| == |t|
    requires forall k :: 0 <= k < |s| ==> PosOf(s[k]) == PosOf(t[k])
    ensures DetectCollision(s) == DetectCollision(t)
  {
    if |s| > 0 {
      DetectFromSeesOnlyPositions(s, t, 0);
    }
  }

  lemma {:induction false} DetectFromSeesOnlyPositions(s: seq<Cart>, t: seq<Cart>, k: nat)
    requires |s| == |t| && k < |s|
    requires forall m :: 0 <= m < |s| ==> PosOf(s[m]) == PosOf(t[m])
    ensures DetectFrom(s, k) == DetectFrom(t, k)
    decreases |s| - k
  {
    if k + 1 < |s| {
      DetectFromSeesOnlyPositions(s, t, k + 1);
    }
  }
}
