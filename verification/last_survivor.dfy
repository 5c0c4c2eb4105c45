/**
 * The last-survivor driver: ticks in which every cart not yet marked as
 * collided moves once, is compared with the others, and collided carts are
 * removed at the end of the tick, until at most one cart is left.
 *
 * Inside a tick the cart list does not change, so a cart's identity is its
 * index in that list, and the `collided` list is a list of such indices.
 * Whether a cart counts as collided is decided by a Membership mode:
 * ByPosition is the source's `in` test, which compares positions only;
 * ByIdentity is the identity test the removal evidently intends.
 */
module LastSurvivor {
  import opened Directions
  import opened Carts
  import opened Ordering

  datatype Membership = ByPosition | ByIdentity

  /** The loop state at the end of a pass over the list, or a step off the grid. */
  datatype PassResult = Passed(carts: seq<Cart>, collided: seq<nat>) | PassOffTrack

  /** A tick: the moved list and its collided indices, then the sorted survivors. */
  datatype TickResult = Survivors(moved: seq<Cart>, collided: seq<nat>, carts: seq<Cart>) | TickOffTrack

  /** What a run ends with: the last cart's position, an empty list, or neither in time. */
  datatype Outcome = Survivor(at: Pos) | NoSurvivor | OutOfFuel | OffTrack

  // ---------------------------------------------------------------------
  // The collided list
  // ---------------------------------------------------------------------

  /** Every recorded index names a cart of the list. */
  predicate IndicesIn(col: seq<nat>, n: nat) {
    forall q :: 0 <= q < |col| ==> col[q] < n
  }

  /** No index is recorded twice. */
  predicate NoRepeats(col: seq<nat>) {
    forall a, b :: 0 <= a < b < |col| ==> col[a] != col[b]
  }

  /** Cart k counts as collided: by position (some recorded cart stands where it stands) or by identity. */
  predicate IsCollided(m: Membership, carts: seq<Cart>, col: seq<nat>, k: nat)
    requires IndicesIn(col, |carts|) && k < |carts|
  {
    match m
    case ByPosition => exists q :: 0 <= q < |col| && SamePos(carts[col[q]], carts[k])
    case ByIdentity => k in col
  }

  /** The list is recorded two at a time, and each recorded pair is two carts at one position. */
  predicate PairedUp(carts: seq<Cart>, col: seq<nat>)
    requires IndicesIn(col, |carts|)
  {
    && |col| % 2 == 0
    && forall q :: 0 <= q < |col| - 1 && q % 2 == 0 ==>
         col[q] != col[q + 1] && SamePos(carts[col[q]], carts[col[q + 1]])
  }

  /** No two carts that are not collided share a position. */
  predicate Apart(m: Membership, carts: seq<Cart>, col: seq<nat>)
    requires IndicesIn(col, |carts|)
  {
    forall a, b {:trigger SamePos(carts[a], carts[b])} :: 0 <= a < b < |carts| && !IsCollided(m, carts, col, a) && !IsCollided(m, carts, col, b)
                   ==> !SamePos(carts[a], carts[b])
  }

  /** col2 extends col. */
  predicate Extends(col2: seq<nat>, col: seq<nat>) {
    |col| <= |col2| && col2[..|col|] == col
  }

  /** A recorded cart counts as collided in either mode. */
  lemma RecordedIsCollided(m: Membership, carts: seq<Cart>, col: seq<nat>, q: nat)
    requires IndicesIn(col, |carts|) && q < |col|
    ensures IsCollided(m, carts, col, col[q])
  {
    if m.ByPosition? {
      assert SamePos(carts[col[q]], carts[col[q]]);
    }
  }

  /**
   * The identity test is the stricter one: a cart that is collided in either
   * mode stands where some recorded cart stands, so it is collided by position.
   */
  lemma IdentityImpliesPosition(m: Membership, carts: seq<Cart>, col: seq<nat>, k: nat)
    requires IndicesIn(col, |carts|) && k < |carts|
    ensures IsCollided(m, carts, col, k) ==> IsCollided(ByPosition, carts, col, k)
    ensures IsCollided(ByIdentity, carts, col, k) ==> IsCollided(m, carts, col, k)
  {
    if IsCollided(ByIdentity, carts, col, k) {
      var q :| 0 <= q < |col| && col[q] == k;
      assert SamePos(carts[col[q]], carts[k]);
    }
  }

  /** Recording more carts never makes a collided cart uncollided. */
  lemma CollidedGrows(m: Membership, carts: seq<Cart>, col: seq<nat>, col2: seq<nat>, k: nat)
    requires IndicesIn(col2, |carts|) && Extends(col2, col) && k < |carts|
    ensures IndicesIn(col, |carts|)
    ensures IsCollided(m, carts, col, k) ==> IsCollided(m, carts, col2, k)
  {
    assert forall q :: 0 <= q < |col| ==> col[q] == col2[q];
    if m.ByPosition? && IsCollided(m, carts, col, k) {
      var q :| 0 <= q < |col| && SamePos(carts[col[q]], carts[k]);
      assert col2[q] == col[q];
    }
  }

  /** Moving a cart that is not recorded leaves the other carts' status and the pairs alone. */
  lemma MoveKeepsRecord(m: Membership, carts: seq<Cart>, col: seq<nat>, i: nat, c: Cart)
    requires IndicesIn(col, |carts|) && i < |carts| && i !in col
    ensures IndicesIn(col, |carts[i := c]|)
    ensures forall k :: 0 <= k < |carts| && k != i ==> IsCollided(m, carts[i := c], col, k) == IsCollided(m, carts, col, k)
    ensures PairedUp(carts[i := c], col) == PairedUp(carts, col)
  {
    var moved := carts[i := c];
    assert forall q :: 0 <= q < |col| ==> moved[col[q]] == carts[col[q]];
  }

  // ---------------------------------------------------------------------
  // One pass: the inner scan and the outer loop
  // ---------------------------------------------------------------------

  /** The inner scan decides to record carts j and i as a colliding pair. */
  predicate Pairs(m: Membership, carts: seq<Cart>, col: seq<nat>, i: nat, j: nat)
    requires IndicesIn(col, |carts|) && i < |carts| && j < |carts|
  {
    && !IsCollided(m, carts, col, j)
    && j != i
    && SamePos(carts[j], carts[i])
    && (m.ByIdentity? ==> i !in col)
  }

  /**
   * The inner scan over carts j onwards, after cart i moved: every cart not
   * yet collided, other than i, at i's position is recorded with i.
   */
  function MarkCollisions(m: Membership, carts: seq<Cart>, col: seq<nat>, i: nat, j: nat): (r: seq<nat>)
    requires IndicesIn(col, |carts|) && i < |carts| && j <= |carts|
    decreases |carts| - j
    ensures IndicesIn(r, |carts|) && Extends(r, col)
    ensures i in col ==> r == col
    ensures |r| <= |col| + 2
  {
    if j == |carts| then col
    else
      RecordedHasNoPartner(m, carts, col, i, j);
      if Pairs(m, carts, col, i, j) then
        var r := MarkCollisions(m, carts, col + [j, i], i, j + 1);
        assert r[..|col|] == r[..|col| + 2][..|col|];
        r
      else
        MarkCollisions(m, carts, col, i, j + 1)
  }

  /**
   * The scan from j appends a run of pairs (x, i) of carts x that were not
   * yet collided, and afterwards every cart from j on at i's position counts
   * as collided, or i does.
   */
  lemma {:induction false} ScanCovers(m: Membership, carts: seq<Cart>, col: seq<nat>, i: nat, j: nat)
    requires IndicesIn(col, |carts|) && i < |carts| && j <= |carts|
    decreases |carts| - j
    ensures Covers(m, carts, MarkCollisions(m, carts, col, i, j), i, j)
    ensures AppendedPairs(m, carts, col, MarkCollisions(m, carts, col, i, j), i, j)
  {
    var r := MarkCollisions(m, carts, col, i, j);
    if j < |carts| {
      if Pairs(m, carts, col, i, j) {
        MarkStep(m, carts, col, i, j);
        ScanCovers(m, carts, col + [j, i], i, j + 1);
        MarkPairedTail(m, carts, col, i, j, r);
      } else {
        ScanCovers(m, carts, col, i, j + 1);
        MarkSkippedTail(m, carts, col, i, j, r);
      }
    }
  }

  /** The scan keeps every recorded pair on one cell, and records no cart twice. */
  lemma {:induction false} ScanKeepsPairs(m: Membership, carts: seq<Cart>, col: seq<nat>, i: nat, j: nat)
    requires IndicesIn(col, |carts|) && i < |carts| && j <= |carts|
    decreases |carts| - j
    ensures PairedUp(carts, col) ==> PairedUp(carts, MarkCollisions(m, carts, col, i, j))
    ensures NoRepeats(col) ==> NoRepeats(MarkCollisions(m, carts, col, i, j))
  {
    if j < |carts| {
      if Pairs(m, carts, col, i, j) {
        MarkStep(m, carts, col, i, j);
        ScanKeepsPairs(m, carts, col + [j, i], i, j + 1);
      } else {
        ScanKeepsPairs(m, carts, col, i, j + 1);
      }
    }
  }

  /**
   * Once the moving cart is recorded, the scan records nothing more: by
   * identity it refuses outright, and by position every cart on its cell
   * already counts as collided. So one scan records one pair at most.
   */
  lemma RecordedHasNoPartner(m: Membership, carts: seq<Cart>, col: seq<nat>, i: nat, j: nat)
    requires IndicesIn(col, |carts|) && i < |carts| && j < |carts|
    ensures i in col ==> !Pairs(m, carts, col, i, j)
  {
    if i in col && m.ByPosition? && SamePos(carts[j], carts[i]) {
      var q :| 0 <= q < |col| && col[q] == i;
      assert SamePos(carts[col[q]], carts[j]);
    }
  }

  /** Every cart from j on, other than i, that stands at i's position is collided, or i is. */
  predicate Covers(m: Membership, carts: seq<Cart>, r: seq<nat>, i: nat, j: nat)
    requires IndicesIn(r, |carts|) && i < |carts|
  {
    forall n :: j <= n < |carts| && n != i && SamePos(carts[n], carts[i]) ==>
      IsCollided(m, carts, r, n) || IsCollided(m, carts, r, i)
  }

  /**
   * What the scan from j appends to col is a run of pairs (x, i), with x a
   * cart from j on, other than i, at i's position and not collided before
   * the scan.
   */
  predicate AppendedPairs(m: Membership, carts: seq<Cart>, col: seq<nat>, r: seq<nat>, i: nat, j: nat)
    requires IndicesIn(col, |carts|) && IndicesIn(r, |carts|) && i < |carts|
  {
    forall q :: |col| <= q < |r| ==>
      if (q - |col|) % 2 == 1 then r[q] == i
      else j <= r[q] && r[q] != i && SamePos(carts[r[q]], carts[i]) && !IsCollided(m, carts, col, r[q])
  }

  /** The scan's result after recording (j, i) still extends the list before it and marks j. */
  lemma MarkPairedTail(m: Membership, carts: seq<Cart>, col: seq<nat>, i: nat, j: nat, r: seq<nat>)
    requires IndicesIn(col + [j, i], |carts|) && i < |carts| && j < |carts|
    requires IsCollided(m, carts, col + [j, i], j)
    requires IndicesIn(r, |carts|) && Extends(r, col + [j, i])
    requires Covers(m, carts, r, i, j + 1)
    requires IndicesIn(col, |carts|) && Pairs(m, carts, col, i, j)
    requires AppendedPairs(m, carts, col + [j, i], r, i, j + 1)
    ensures Extends(r, col)
    ensures Covers(m, carts, r, i, j)
    ensures AppendedPairs(m, carts, col, r, i, j)
  {
    var col2 := col + [j, i];
    CollidedGrows(m, carts, col2, r, j);
    assert r[..|col|] == r[..|col2|][..|col|];
    PairedAppended(m, carts, col, i, j, r);
  }

  /** The pair (j, i) followed by the later scan's pairs is again a run of pairs (x, i). */
  lemma PairedAppended(m: Membership, carts: seq<Cart>, col: seq<nat>, i: nat, j: nat, r: seq<nat>)
    requires IndicesIn(col, |carts|) && i < |carts| && j < |carts|
    requires Pairs(m, carts, col, i, j)
    requires IndicesIn(col + [j, i], |carts|) && IndicesIn(r, |carts|) && Extends(r, col + [j, i])
    requires AppendedPairs(m, carts, col + [j, i], r, i, j + 1)
    ensures AppendedPairs(m, carts, col, r, i, j)
  {
    var col2 := col + [j, i];
    forall q | |col| <= q < |r|
      ensures if (q - |col|) % 2 == 1 then r[q] == i
              else j <= r[q] && r[q] != i && SamePos(carts[r[q]], carts[i]) && !IsCollided(m, carts, col, r[q])
    {
      if q < |col2| {
        assert r[q] == r[..|col2|][q] == col2[q];
      } else {
        assert (q - |col2|) % 2 == (q - |col|) % 2;
        if (q - |col|) % 2 == 0 {
          CollidedGrows(m, carts, col, col2, r[q]);
        }
      }
    }
  }

  /** A cart the scan passes over without recording was collided already, or is not at i's place. */
  lemma MarkSkippedTail(m: Membership, carts: seq<Cart>, col: seq<nat>, i: nat, j: nat, r: seq<nat>)
    requires IndicesIn(col, |carts|) && i < |carts| && j < |carts|
    requires !Pairs(m, carts, col, i, j)
    requires IndicesIn(r, |carts|) && Extends(r, col)
    requires Covers(m, carts, r, i, j + 1)
    requires AppendedPairs(m, carts, col, r, i, j + 1)
    ensures Covers(m, carts, r, i, j)
    ensures AppendedPairs(m, carts, col, r, i, j)
  {
    CollidedGrows(m, carts, col, r, j);
    CollidedGrows(m, carts, col, r, i);
  }

  /** Recording the pair (j, i) keeps the list paired and free of repeats, and marks j. */
  lemma MarkStep(m: Membership, carts: seq<Cart>, col: seq<nat>, i: nat, j: nat)
    requires IndicesIn(col, |carts|) && i < |carts| && j < |carts|
    requires Pairs(m, carts, col, i, j)
    ensures IndicesIn(col + [j, i], |carts|)
    ensures PairedUp(carts, col) ==> PairedUp(carts, col + [j, i])
    ensures NoRepeats(col) ==> NoRepeats(col + [j, i])
    ensures IsCollided(m, carts, col + [j, i], j)
  {
    var col2 := col + [j, i];
    assert forall q :: 0 <= q < |col| ==> col2[q] == col[q];
    RecordedIsCollided(m, carts, col2, |col|);
    if PairedUp(carts, col) {
      PairedAppend(carts, col, j, i);
    }
    if NoRepeats(col) {
      NotCollidedNotRecorded(m, carts, col, j);
      NoRepeatsAppend(col, j, i);
    }
  }

  /** Appending a pair of two different carts at one position keeps the list paired. */
  lemma PairedAppend(carts: seq<Cart>, col: seq<nat>, j: nat, i: nat)
    requires IndicesIn(col, |carts|) && i < |carts| && j < |carts|
    requires PairedUp(carts, col) && j != i && SamePos(carts[j], carts[i])
    ensures IndicesIn(col + [j, i], |carts|) && PairedUp(carts, col + [j, i])
  {
    var col2 := col + [j, i];
    assert forall q :: 0 <= q < |col| ==> col2[q] == col[q];
    assert col2[|col|] == j && col2[|col| + 1] == i;
  }

  /** Appending two new, different indices keeps the list free of repeats. */
  lemma NoRepeatsAppend(col: seq<nat>, j: nat, i: nat)
    requires NoRepeats(col) && j !in col && i !in col && j != i
    ensures NoRepeats(col + [j, i])
  {
    var col2 := col + [j, i];
    assert forall q :: 0 <= q < |col| ==> col2[q] == col[q];
  }

  /**
   * The outer loop from cart i on: a cart that counts as collided is
   * skipped; any other cart moves one step and is compared with the rest.
   * Carts before i are untouched, cart i takes its step unless it counts as
   * collided, and every cart that is not collided at the end has taken its
   * step. TurnTakenOnce pins every later cart to the state its turn found.
   */
  function Pass(m: Membership, carts: seq<Cart>, col: seq<nat>, track: Track, i: nat): (r: PassResult)
    requires AllUnit(carts) && IndicesIn(col, |carts|) && i <= |carts|
    decreases |carts| - i
    ensures r.Passed? ==> |r.carts| == |carts| && AllUnit(r.carts)
    ensures r.Passed? ==> IndicesIn(r.collided, |r.carts|) && Extends(r.collided, col)
    ensures r.Passed? && PairedUp(carts, col) ==> PairedUp(r.carts, r.collided)
    ensures r.Passed? && NoRepeats(col) ==> NoRepeats(r.collided)
    ensures r.Passed? && Apart(m, carts, col) ==> Apart(m, r.carts, r.collided)
    ensures r.Passed? ==> forall k :: 0 <= k < i && k < |carts| ==> r.carts[k] == carts[k]
    ensures r.Passed? ==> forall k :: i <= k < |carts| ==>
              r.carts[k] == carts[k] || (CanMove(carts[k], track) && r.carts[k] == Move(carts[k], track))
    ensures r.Passed? ==> forall k :: i <= k < |carts| && IsCollided(m, carts, col, k) ==> r.carts[k] == carts[k]
    ensures r.Passed? ==> forall k :: 0 <= k < |carts| && IsCollided(m, carts, col, k) ==>
              IsCollided(m, r.carts, r.collided, k)
    ensures r.Passed? ==> forall k :: i <= k < |carts| && !IsCollided(m, r.carts, r.collided, k) ==>
              CanMove(carts[k], track) && r.carts[k] == Move(carts[k], track)
    ensures r.PassOffTrack? ==> exists k :: i <= k < |carts| && !CanMove(carts[k], track)
    ensures r.Passed? && i < |carts| && !IsCollided(m, carts, col, i) ==>
              CanMove(carts[i], track) && r.carts[i] == Move(carts[i], track)
  {
    if i == |carts| then Passed(carts, col)
    else
      if IsCollided(m, carts, col, i) then
        var r := Pass(m, carts, col, track, i + 1);
        if r.Passed? then
          SkipLift(m, carts, col, track, i, i + 1, r.carts, r.collided);
          r
        else r
      else if !CanMove(carts[i], track) then PassOffTrack
      else
        var moved := carts[i := Move(carts[i], track)];
        NotCollidedNotRecorded(m, carts, col, i);
        MoveKeepsRecord(m, carts, col, i, Move(carts[i], track));
        var col2 := MarkCollisions(m, moved, col, i, 0);
        PassStep(m, carts, col, track, i);
        ScanKeepsPairs(m, moved, col, i, 0);
        var r := Pass(m, moved, col2, track, i + 1);
        if r.Passed? then
          MoveLift(m, carts, col, track, i, i + 1, moved, col2, r.carts, r.collided);
          r
        else r
  }

  /** Carts that count as collided and keep their state, with carts they were recorded with, stay collided. */
  lemma StillCollided(m: Membership, carts: seq<Cart>, col: seq<nat>, out: seq<Cart>, col2: seq<nat>, k: nat)
    requires IndicesIn(col, |carts|) && IndicesIn(col2, |out|) && |out| == |carts| && Extends(col2, col)
    requires forall n :: 0 <= n < |carts| && IsCollided(m, carts, col, n) ==> out[n] == carts[n]
    requires k < |carts| && IsCollided(m, carts, col, k)
    ensures IsCollided(m, out, col2, k)
  {
    assert forall q :: 0 <= q < |col| ==> col2[q] == col[q];
    match m
    case ByIdentity =>
    case ByPosition =>
      var q :| 0 <= q < |col| && SamePos(carts[col[q]], carts[k]);
      RecordedIsCollided(m, carts, col, q);
      assert SamePos(out[col2[q]], out[k]);
  }

  /** The contract of the pass from i + 1 carries over to the pass from i when cart i is skipped. */
  lemma SkipLift(m: Membership, carts: seq<Cart>, col: seq<nat>, track: Track, i: nat, j: nat,
                 out: seq<Cart>, col2: seq<nat>)
    requires AllUnit(carts) && IndicesIn(col, |carts|) && i < |carts| && j == i + 1
    requires IsCollided(m, carts, col, i)
    requires |out| == |carts| && IndicesIn(col2, |out|) && Extends(col2, col)
    requires forall k :: 0 <= k < j && k < |carts| ==> out[k] == carts[k]
    requires forall k :: j <= k < |carts| ==>
               out[k] == carts[k] || (CanMove(carts[k], track) && out[k] == Move(carts[k], track))
    requires forall k :: j <= k < |carts| && IsCollided(m, carts, col, k) ==> out[k] == carts[k]
    requires forall k :: j <= k < |carts| && !IsCollided(m, out, col2, k) ==>
               CanMove(carts[k], track) && out[k] == Move(carts[k], track)
    ensures forall k :: i <= k < |carts| ==>
              out[k] == carts[k] || (CanMove(carts[k], track) && out[k] == Move(carts[k], track))
    ensures forall k :: i <= k < |carts| && IsCollided(m, carts, col, k) ==> out[k] == carts[k]
    ensures forall k :: 0 <= k < |carts| && IsCollided(m, carts, col, k) ==> IsCollided(m, out, col2, k)
    ensures forall k :: i <= k < |carts| && !IsCollided(m, out, col2, k) ==>
              CanMove(carts[k], track) && out[k] == Move(carts[k], track)
  {
    forall k | 0 <= k < |carts| && IsCollided(m, carts, col, k)
      ensures IsCollided(m, out, col2, k)
    {
      StillCollided(m, carts, col, out, col2, k);
    }
  }

  /**
   * The contract of the pass from i + 1 over the list with cart i moved
   * carries over to the pass from i.
   */
  lemma MoveLift(m: Membership, carts: seq<Cart>, col: seq<nat>, track: Track, i: nat, j: nat,
                 moved: seq<Cart>, col2: seq<nat>, out: seq<Cart>, col3: seq<nat>)
    requires AllUnit(carts) && IndicesIn(col, |carts|) && i < |carts| && j == i + 1
    requires !IsCollided(m, carts, col, i) && CanMove(carts[i], track)
    requires moved == carts[i := Move(carts[i], track)]
    requires IndicesIn(col2, |moved|) && Extends(col2, col)
    requires |out| == |carts| && IndicesIn(col3, |out|) && Extends(col3, col2)
    requires forall k :: 0 <= k < j && k < |moved| ==> out[k] == moved[k]
    requires forall k :: j <= k < |moved| ==>
               out[k] == moved[k] || (CanMove(moved[k], track) && out[k] == Move(moved[k], track))
    requires forall k :: j <= k < |moved| && IsCollided(m, moved, col2, k) ==> out[k] == moved[k]
    requires forall k :: 0 <= k < |moved| && IsCollided(m, moved, col2, k) ==> IsCollided(m, out, col3, k)
    requires forall k :: j <= k < |moved| && !IsCollided(m, out, col3, k) ==>
               CanMove(moved[k], track) && out[k] == Move(moved[k], track)
    ensures Extends(col3, col)
    ensures forall k :: 0 <= k < i ==> out[k] == carts[k]
    ensures forall k :: i <= k < |carts| ==>
              out[k] == carts[k] || (CanMove(carts[k], track) && out[k] == Move(carts[k], track))
    ensures forall k :: i <= k < |carts| && IsCollided(m, carts, col, k) ==> out[k] == carts[k]
    ensures forall k :: 0 <= k < |carts| && IsCollided(m, carts, col, k) ==> IsCollided(m, out, col3, k)
    ensures forall k :: i <= k < |carts| && !IsCollided(m, out, col3, k) ==>
              CanMove(carts[k], track) && out[k] == Move(carts[k], track)
  {
    assert col3[..|col|] == col3[..|col2|][..|col|];
    NotCollidedNotRecorded(m, carts, col, i);
    MoveKeepsRecord(m, carts, col, i, Move(carts[i], track));
    forall k | 0 <= k < |carts| && IsCollided(m, carts, col, k)
      ensures k != i && IsCollided(m, moved, col2, k) && IsCollided(m, out, col3, k)
    {
      CollidedGrows(m, moved, col, col2, k);
    }
  }

  lemma NotCollidedNotRecorded(m: Membership, carts: seq<Cart>, col: seq<nat>, i: nat)
    requires IndicesIn(col, |carts|) && i < |carts| && !IsCollided(m, carts, col, i)
    ensures i !in col
  {
  }

  /** After cart i moved and was compared with the rest, carts that are not collided are still apart. */
  lemma PassStep(m: Membership, carts: seq<Cart>, col: seq<nat>, track: Track, i: nat)
    requires AllUnit(carts) && IndicesIn(col, |carts|) && i < |carts|
    requires !IsCollided(m, carts, col, i) && CanMove(carts[i], track)
    ensures AllUnit(carts[i := Move(carts[i], track)])
    ensures var moved := carts[i := Move(carts[i], track)];
            Apart(m, carts, col) ==> Apart(m, moved, MarkCollisions(m, moved, col, i, 0))
  {
    var moved := carts[i := Move(carts[i], track)];
    NotCollidedNotRecorded(m, carts, col, i);
    MoveKeepsRecord(m, carts, col, i, Move(carts[i], track));
    var col2 := MarkCollisions(m, moved, col, i, 0);
    ScanCovers(m, moved, col, i, 0);
    forall a, b | 0 <= a < b < |moved| && Apart(m, carts, col) && !IsCollided(m, moved, col2, a) && !IsCollided(m, moved, col2, b)
      ensures !SamePos(moved[a], moved[b])
    {
      CollidedGrows(m, moved, col, col2, a);
      CollidedGrows(m, moved, col, col2, b);
      if a != i && b != i {
        assert !IsCollided(m, carts, col, a) && !IsCollided(m, carts, col, b);
      }
    }
  }

  // ---------------------------------------------------------------------
  // The pass turn by turn
  // ---------------------------------------------------------------------

  /**
   * Cart k's turn on the list s with collided list c: a cart that counts as
   * collided is skipped; any other cart steps, or the pass leaves the grid,
   * and the inner scan records what it lands on.
   */
  function TurnOf(m: Membership, s: seq<Cart>, c: seq<nat>, track: Track, k: nat): (r: PassResult)
    requires AllUnit(s) && IndicesIn(c, |s|) && k < |s|
    ensures r.Passed? ==> |r.carts| == |s| && AllUnit(r.carts) && IndicesIn(r.collided, |s|)
    ensures r.Passed? ==> forall n :: 0 <= n < |s| && n != k ==> r.carts[n] == s[n]
  {
    if IsCollided(m, s, c, k) then Passed(s, c)
    else if !CanMove(s[k], track) then PassOffTrack
    else
      var moved := s[k := Move(s[k], track)];
      Passed(moved, MarkCollisions(m, moved, c, k, 0))
  }

  /**
   * The loop state once the turns of carts i .. k - 1 are over, built from
   * the front one turn at a time.
   */
  function Turns(m: Membership, carts: seq<Cart>, col: seq<nat>, track: Track, i: nat, k: nat): (r: PassResult)
    requires AllUnit(carts) && IndicesIn(col, |carts|) && i <= k <= |carts|
    decreases k
    ensures r.Passed? ==> |r.carts| == |carts| && AllUnit(r.carts) && IndicesIn(r.collided, |carts|)
  {
    if k == i then Passed(carts, col)
    else Then(m, Turns(m, carts, col, track, i, k - 1), track, k - 1)
  }

  /** Cart k's turn after the state st, unless the pass already left the grid. */
  function Then(m: Membership, st: PassResult, track: Track, k: nat): (r: PassResult)
    requires st.Passed? ==> AllUnit(st.carts) && IndicesIn(st.collided, |st.carts|) && k < |st.carts|
    ensures r.Passed? ==> st.Passed? && |r.carts| == |st.carts| && AllUnit(r.carts) && IndicesIn(r.collided, |st.carts|)
  {
    if st.Passed? then TurnOf(m, st.carts, st.collided, track, k) else PassOffTrack
  }

  /** Cart k's turn leaves every other cart where it was. */
  lemma ThenKeeps(m: Membership, st: PassResult, track: Track, k: nat, n: nat)
    requires st.Passed? ==> AllUnit(st.carts) && IndicesIn(st.collided, |st.carts|) && k < |st.carts|
    requires Then(m, st, track, k).Passed? && n < |st.carts| && n != k
    ensures Then(m, st, track, k).carts[n] == st.carts[n]
  {
  }

  /** The pass from cart i is the turns of carts i onwards, taken one after the other. */
  lemma {:induction false} PassFollowsTurns(m: Membership, carts: seq<Cart>, col: seq<nat>, track: Track, i: nat)
    requires AllUnit(carts) && IndicesIn(col, |carts|) && i <= |carts|
    decreases |carts| - i
    ensures Pass(m, carts, col, track, i) == Turns(m, carts, col, track, i, |carts|)
  {
    if i == |carts| {
      assert Turns(m, carts, col, track, i, i) == Passed(carts, col);
    } else {
      PassOneTurn(m, carts, col, track, i);
      TurnsShift(m, carts, col, track, i, |carts|);
      var first := TurnOf(m, carts, col, track, i);
      if first.Passed? {
        PassFollowsTurns(m, first.carts, first.collided, track, i + 1);
        assert Pass(m, carts, col, track, i) == Pass(m, first.carts, first.collided, track, i + 1);
      }
    }
  }

  /** The pass from cart i takes cart i's turn, then goes on from i + 1 unless it left the grid. */
  lemma PassOneTurn(m: Membership, carts: seq<Cart>, col: seq<nat>, track: Track, i: nat)
    requires AllUnit(carts) && IndicesIn(col, |carts|) && i < |carts|
    ensures var first := TurnOf(m, carts, col, track, i);
            Pass(m, carts, col, track, i)
            == (if first.Passed? then Pass(m, first.carts, first.collided, track, i + 1) else PassOffTrack)
  {
  }

  /** The turns from i are cart i's turn followed by the turns from i + 1 on the state it leaves. */
  lemma {:induction false} TurnsShift(m: Membership, carts: seq<Cart>, col: seq<nat>, track: Track, i: nat, k: nat)
    requires AllUnit(carts) && IndicesIn(col, |carts|) && i < k <= |carts|
    decreases k
    ensures ShiftHolds(m, carts, col, track, i, k)
  {
    if k == i + 1 {
      ShiftFirst(m, carts, col, track, i);
    } else {
      TurnsShift(m, carts, col, track, i, k - 1);
      ShiftNext(m, carts, col, track, i, k);
    }
  }

  /** The turns of carts i .. k - 1 are cart i's turn followed by those of carts i + 1 .. k - 1. */
  predicate ShiftHolds(m: Membership, carts: seq<Cart>, col: seq<nat>, track: Track, i: nat, k: nat)
    requires AllUnit(carts) && IndicesIn(col, |carts|) && i < k <= |carts|
  {
    var first := TurnOf(m, carts, col, track, i);
    Turns(m, carts, col, track, i, k) ==
    (if first.Passed? then Turns(m, first.carts, first.collided, track, i + 1, k) else PassOffTrack)
  }

  /** The shift for the single turn of cart i. */
  lemma ShiftFirst(m: Membership, carts: seq<Cart>, col: seq<nat>, track: Track, i: nat)
    requires AllUnit(carts) && IndicesIn(col, |carts|) && i < |carts|
    ensures ShiftHolds(m, carts, col, track, i, i + 1)
  {
    var first := TurnOf(m, carts, col, track, i);
    assert Turns(m, carts, col, track, i, i + 1) == Then(m, Passed(carts, col), track, i) == first;
    if first.Passed? {
      assert Turns(m, first.carts, first.collided, track, i + 1, i + 1) == Passed(first.carts, first.collided);
    }
  }

  /** The shift carries over from the turns up to k - 1 to those up to k. */
  lemma ShiftNext(m: Membership, carts: seq<Cart>, col: seq<nat>, track: Track, i: nat, k: nat)
    requires AllUnit(carts) && IndicesIn(col, |carts|) && i + 1 < k <= |carts|
    requires ShiftHolds(m, carts, col, track, i, k - 1)
    ensures ShiftHolds(m, carts, col, track, i, k)
  {
    var first := TurnOf(m, carts, col, track, i);
    var prev := Turns(m, carts, col, track, i, k - 1);
    assert Turns(m, carts, col, track, i, k) == Then(m, prev, track, k - 1);
    if first.Passed? {
      assert Turns(m, first.carts, first.collided, track, i + 1, k) == Then(m, prev, track, k - 1);
    } else {
      assert Then(m, prev, track, k - 1) == PassOffTrack;
    }
  }

  /** Only carts whose turn is over can have changed. */
  lemma {:induction false} TurnsLeaveRest(m: Membership, carts: seq<Cart>, col: seq<nat>, track: Track, i: nat, k: nat, n: nat)
    requires AllUnit(carts) && IndicesIn(col, |carts|) && i <= k <= |carts| && n < |carts| && !(i <= n < k)
    requires Turns(m, carts, col, track, i, k).Passed?
    decreases k
    ensures Turns(m, carts, col, track, i, k).carts[n] == carts[n]
  {
    if k > i {
      var prev := Turns(m, carts, col, track, i, k - 1);
      ThenKeeps(m, prev, track, k - 1, n);
      TurnsLeaveRest(m, carts, col, track, i, k - 1, n);
    }
  }

  /** A pass that got through turn k2 got through every earlier turn, and a cart is final once its turn is over. */
  lemma {:induction false} TurnsPrefix(m: Membership, carts: seq<Cart>, col: seq<nat>, track: Track, i: nat, k: nat, k2: nat)
    requires AllUnit(carts) && IndicesIn(col, |carts|) && i <= k <= k2 <= |carts|
    requires Turns(m, carts, col, track, i, k2).Passed?
    decreases k2
    ensures Turns(m, carts, col, track, i, k).Passed?
    ensures forall n :: 0 <= n < k ==> Turns(m, carts, col, track, i, k2).carts[n] == Turns(m, carts, col, track, i, k).carts[n]
  {
    if k < k2 {
      var prev := Turns(m, carts, col, track, i, k2 - 1);
      assert prev.Passed?;
      TurnsPrefix(m, carts, col, track, i, k, k2 - 1);
      forall n | 0 <= n < k
        ensures Turns(m, carts, col, track, i, k2).carts[n] == prev.carts[n]
      {
        ThenKeeps(m, prev, track, k2 - 1, n);
      }
    }
  }

  /**
   * Cart k ends the pass at c: put, if it counted as collided when its turn
   * came, and one step on otherwise.
   */
  predicate TurnOutcome(m: Membership, carts: seq<Cart>, col: seq<nat>, track: Track, i: nat, k: nat, c: Cart)
    requires AllUnit(carts) && IndicesIn(col, |carts|) && i <= k < |carts|
  {
    var before := Turns(m, carts, col, track, i, k);
    && before.Passed?
    && if IsCollided(m, before.carts, before.collided, k) then c == carts[k]
       else CanMove(carts[k], track) && c == Move(carts[k], track)
  }

  /**
   * When cart k's turn comes it still stands where it stood at the start,
   * and in a pass that stays on the grid it ends the pass as its turn left
   * it: put if it counted as collided then, one step on otherwise.
   */
  lemma TurnTakenOnce(m: Membership, carts: seq<Cart>, col: seq<nat>, track: Track, i: nat, k: nat)
    requires AllUnit(carts) && IndicesIn(col, |carts|) && i <= k < |carts|
    requires Turns(m, carts, col, track, i, |carts|).Passed?
    ensures Turns(m, carts, col, track, i, k).Passed? && Turns(m, carts, col, track, i, k).carts[k] == carts[k]
    ensures TurnOutcome(m, carts, col, track, i, k, Turns(m, carts, col, track, i, |carts|).carts[k])
  {
    TurnsPrefix(m, carts, col, track, i, k + 1, |carts|);
    TurnsLeaveRest(m, carts, col, track, i, k, k);
  }

  /** The pass leaves the grid at cart k: the turns before went through, and cart k is not collided and has no cell to go to. */
  predicate LeavesGridAt(m: Membership, carts: seq<Cart>, col: seq<nat>, track: Track, i: nat, k: nat)
    requires AllUnit(carts) && IndicesIn(col, |carts|) && i <= |carts|
  {
    && i <= k < |carts|
    && var before := Turns(m, carts, col, track, i, k);
       && before.Passed?
       && !IsCollided(m, before.carts, before.collided, k)
       && !CanMove(before.carts[k], track)
  }

  /** The turns up to k leave the grid exactly when some cart before k is one that leaves it. */
  lemma {:induction false} TurnsOffTrack(m: Membership, carts: seq<Cart>, col: seq<nat>, track: Track, i: nat, k: nat)
    requires AllUnit(carts) && IndicesIn(col, |carts|) && i <= k <= |carts|
    decreases k
    ensures OffTrackHolds(m, carts, col, track, i, k)
  {
    if k > i {
      TurnsOffTrack(m, carts, col, track, i, k - 1);
      OffTrackNext(m, carts, col, track, i, k);
    }
  }

  /** The turns up to k are off the grid exactly when one of carts i .. k - 1 left it. */
  predicate OffTrackHolds(m: Membership, carts: seq<Cart>, col: seq<nat>, track: Track, i: nat, k: nat)
    requires AllUnit(carts) && IndicesIn(col, |carts|) && i <= k <= |carts|
  {
    Turns(m, carts, col, track, i, k).PassOffTrack? <==> exists n: nat :: n < k && LeavesGridAt(m, carts, col, track, i, n)
  }

  /** The off-grid characterisation carries over from the turns up to k - 1 to those up to k. */
  lemma OffTrackNext(m: Membership, carts: seq<Cart>, col: seq<nat>, track: Track, i: nat, k: nat)
    requires AllUnit(carts) && IndicesIn(col, |carts|) && i < k <= |carts|
    requires OffTrackHolds(m, carts, col, track, i, k - 1)
    ensures OffTrackHolds(m, carts, col, track, i, k)
  {
    if Turns(m, carts, col, track, i, k - 1).Passed? {
      OffTrackAfterPassed(m, carts, col, track, i, k);
    } else {
      OffTrackAfterOff(m, carts, col, track, i, k);
    }
  }

  /** After turns that went through, only cart k - 1 can be the one that leaves the grid before k. */
  lemma OffTrackAfterPassed(m: Membership, carts: seq<Cart>, col: seq<nat>, track: Track, i: nat, k: nat)
    requires AllUnit(carts) && IndicesIn(col, |carts|) && i < k <= |carts|
    requires OffTrackHolds(m, carts, col, track, i, k - 1) && Turns(m, carts, col, track, i, k - 1).Passed?
    ensures OffTrackHolds(m, carts, col, track, i, k)
  {
    TurnOffTrack(m, carts, col, track, i, k - 1);
    assert forall n: nat :: n < k && LeavesGridAt(m, carts, col, track, i, n) ==> n == k - 1;
  }

  /** After turns that already left the grid, the cart that left it is still before k. */
  lemma OffTrackAfterOff(m: Membership, carts: seq<Cart>, col: seq<nat>, track: Track, i: nat, k: nat)
    requires AllUnit(carts) && IndicesIn(col, |carts|) && i < k <= |carts|
    requires OffTrackHolds(m, carts, col, track, i, k - 1) && Turns(m, carts, col, track, i, k - 1).PassOffTrack?
    ensures OffTrackHolds(m, carts, col, track, i, k)
  {
    StaysOffTrack(m, carts, col, track, i, k);
    var n: nat :| n < k - 1 && LeavesGridAt(m, carts, col, track, i, n);
    assert n < k;
  }

  /** Once the pass has left the grid, it stays off it. */
  lemma StaysOffTrack(m: Membership, carts: seq<Cart>, col: seq<nat>, track: Track, i: nat, k: nat)
    requires AllUnit(carts) && IndicesIn(col, |carts|) && i < k <= |carts|
    requires Turns(m, carts, col, track, i, k - 1).PassOffTrack?
    ensures Turns(m, carts, col, track, i, k).PassOffTrack?
  {
    assert Turns(m, carts, col, track, i, k) == Then(m, PassOffTrack, track, k - 1);
  }

  /** After turns that went through, the next turn leaves the grid exactly when its cart is one that leaves it. */
  lemma TurnOffTrack(m: Membership, carts: seq<Cart>, col: seq<nat>, track: Track, i: nat, k: nat)
    requires AllUnit(carts) && IndicesIn(col, |carts|) && i <= k < |carts|
    requires Turns(m, carts, col, track, i, k).Passed?
    ensures Turns(m, carts, col, track, i, k + 1).PassOffTrack? <==> LeavesGridAt(m, carts, col, track, i, k)
  {
    var prev := Turns(m, carts, col, track, i, k);
    assert Turns(m, carts, col, track, i, k + 1) == Then(m, prev, track, k);
    TurnsLeaveRest(m, carts, col, track, i, k, k);
  }

  /** A state of the turns that is off the grid stays off it through every later turn. */
  lemma {:induction false} GoneAfterLeaving(m: Membership, carts: seq<Cart>, col: seq<nat>, track: Track, i: nat, k: nat, k2: nat)
    requires AllUnit(carts) && IndicesIn(col, |carts|) && i <= k <= k2 <= |carts|
    requires Turns(m, carts, col, track, i, k).PassOffTrack?
    decreases k2
    ensures Turns(m, carts, col, track, i, k2).PassOffTrack?
  {
    if k < k2 {
      GoneAfterLeaving(m, carts, col, track, i, k, k2 - 1);
      StaysOffTrack(m, carts, col, track, i, k2);
    }
  }

  /** A pass leaves the grid at one cart at most. */
  lemma LeavesGridOnce(m: Membership, carts: seq<Cart>, col: seq<nat>, track: Track, i: nat, k: nat, k2: nat)
    requires AllUnit(carts) && IndicesIn(col, |carts|) && i <= |carts|
    requires LeavesGridAt(m, carts, col, track, i, k) && LeavesGridAt(m, carts, col, track, i, k2)
    ensures k == k2
  {
    if k < k2 {
      NoLaterLeave(m, carts, col, track, i, k, k2);
    } else if k2 < k {
      NoLaterLeave(m, carts, col, track, i, k2, k);
    }
  }

  /** No cart after the one that takes the pass off the grid leaves it again. */
  lemma NoLaterLeave(m: Membership, carts: seq<Cart>, col: seq<nat>, track: Track, i: nat, k: nat, k2: nat)
    requires AllUnit(carts) && IndicesIn(col, |carts|) && i <= |carts|
    requires LeavesGridAt(m, carts, col, track, i, k) && k < k2
    ensures !LeavesGridAt(m, carts, col, track, i, k2)
  {
    if k2 < |carts| {
      TurnOffTrack(m, carts, col, track, i, k);
      GoneAfterLeaving(m, carts, col, track, i, k + 1, k2);
    }
  }

  // ---------------------------------------------------------------------
  // Removal, re-sorting, and the run
  // ---------------------------------------------------------------------

  /** The carts from index k on that do not count as collided, in list order. */
  function Remaining(m: Membership, carts: seq<Cart>, col: seq<nat>, k: nat): (r: seq<Cart>)
    requires IndicesIn(col, |carts|) && k <= |carts|
    decreases |carts| - k
    ensures |r| <= |carts| - k
    ensures forall e :: e in r ==> exists n :: k <= n < |carts| && carts[n] == e && !IsCollided(m, carts, col, n)
    ensures forall n :: k <= n < |carts| && !IsCollided(m, carts, col, n) ==> carts[n] in r
  {
    if k == |carts| then
      []
    else
      var rest := Remaining(m, carts, col, k + 1);
      if IsCollided(m, carts, col, k) then
        rest
      else
        var r := [carts[k]] + rest;
        assert forall e :: e in r ==> e == carts[k] || e in rest;
        r
  }

  /** Removal keeps only carts of the list, so their velocities stay unit vectors. */
  lemma RemainingUnit(m: Membership, carts: seq<Cart>, col: seq<nat>, k: nat)
    requires IndicesIn(col, |carts|) && k <= |carts| && AllUnit(carts)
    ensures AllUnit(Remaining(m, carts, col, k))
  {
    var r := Remaining(m, carts, col, k);
    forall q | 0 <= q < |r|
      ensures IsUnit(r[q].v)
    {
      assert r[q] in r;
    }
  }

  /** When the carts that are not collided are apart, the remaining ones have distinct positions. */
  lemma {:induction false} RemainingApart(m: Membership, carts: seq<Cart>, col: seq<nat>, k: nat)
    requires IndicesIn(col, |carts|) && k <= |carts| && Apart(m, carts, col)
    decreases |carts| - k
    ensures DistinctPositions(Remaining(m, carts, col, k))
  {
    if k < |carts| {
      RemainingApart(m, carts, col, k + 1);
      var rest := Remaining(m, carts, col, k + 1);
      if !IsCollided(m, carts, col, k) {
        forall e | e in rest
          ensures !SamePos(carts[k], e)
        {
          var n :| k + 1 <= n < |carts| && carts[n] == e && !IsCollided(m, carts, col, n);
        }
        DistinctCons(carts[k], rest);
      }
    }
  }

  /** Under the identity test, removal drops exactly the recorded carts. */
  lemma {:induction false} RemainingCount(carts: seq<Cart>, col: seq<nat>, k: nat)
    requires IndicesIn(col, |carts|) && k <= |carts|
    decreases |carts| - k
    ensures |Remaining(ByIdentity, carts, col, k)| + |RecordedFrom(col, k, |carts|)| == |carts| - k
  {
    if k < |carts| {
      RemainingCount(carts, col, k + 1);
      RecordedFromStep(col, k, |carts|);
    } else {
      assert RecordedFrom(col, k, |carts|) == {};
    }
  }

  /** A cart apart from every cart of a list of distinct positions can head that list. */
  lemma DistinctCons(h: Cart, rest: seq<Cart>)
    requires DistinctPositions(rest)
    requires forall e :: e in rest ==> !SamePos(h, e)
    ensures DistinctPositions([h] + rest)
  {
    var r := [h] + rest;
    forall a, b | 0 <= a < b < |r|
      ensures !SamePos(r[a], r[b])
    {
      assert r[b] == rest[b - 1];
      if a > 0 {
        assert r[a] == rest[a - 1];
      }
    }
  }

  /** The recorded indices in k .. n - 1. */
  function RecordedFrom(col: seq<nat>, k: nat, n: nat): set<nat> {
    set x | k <= x < n && x in col
  }

  /** Counting the recorded indices from k on: k itself, then the rest. */
  lemma RecordedFromStep(col: seq<nat>, k: nat, n: nat)
    requires k < n
    ensures RecordedFrom(col, n, n) == {}
    ensures k in col ==> RecordedFrom(col, k, n) == RecordedFrom(col, k + 1, n) + {k}
    ensures k !in col ==> RecordedFrom(col, k, n) == RecordedFrom(col, k + 1, n)
    ensures k !in RecordedFrom(col, k + 1, n)
  {
  }

  /** The indices a collided list records. */
  function Recorded(col: seq<nat>): set<nat> {
    set x | x in col
  }

  /** A list without repeats has as many distinct entries as entries. */
  lemma {:induction false} DistinctCount(col: seq<nat>)
    requires NoRepeats(col)
    ensures |Recorded(col)| == |col|
  {
    if |col| > 0 {
      var init := col[..|col| - 1];
      var last := col[|col| - 1];
      DistinctCount(init);
      assert col == init + [last];
      assert Recorded(col) == Recorded(init) + {last};
      assert last !in Recorded(init);
    }
  }

  /**
   * One tick of the source's run_until_last_collision: a pass with an empty
   * collided list, removal of the collided carts, and a re-sort.
   */
  function SurvivorTick(m: Membership, carts: seq<Cart>, track: Track): (r: TickResult)
    requires AllUnit(carts)
    ensures r.Survivors? ==> |r.moved| == |carts| && IndicesIn(r.collided, |carts|)
    ensures r.Survivors? ==> PairedUp(r.moved, r.collided) && NoRepeats(r.collided)
    ensures r.Survivors? ==> Sorted(r.carts) && AllUnit(r.carts) && |r.carts| <= |carts|
    ensures r.Survivors? ==> forall e :: e in r.carts <==>
              exists n :: 0 <= n < |carts| && r.moved[n] == e && !IsCollided(m, r.moved, r.collided, n)
    ensures r.Survivors? ==> forall k :: 0 <= k < |carts| ==>
              r.moved[k] == carts[k] || (CanMove(carts[k], track) && r.moved[k] == Move(carts[k], track))
    ensures r.Survivors? ==> forall k :: 0 <= k < |carts| && !IsCollided(m, r.moved, r.collided, k) ==>
              CanMove(carts[k], track) && r.moved[k] == Move(carts[k], track)
    ensures r.Survivors? && DistinctPositions(carts) ==> Apart(m, r.moved, r.collided)
    ensures r.TickOffTrack? ==> exists k :: 0 <= k < |carts| && !CanMove(carts[k], track)
  {
    match Pass(m, carts, [], track, 0)
    case PassOffTrack => TickOffTrack
    case Passed(moved, col) =>
      assert DistinctPositions(carts) ==> Apart(m, carts, []);
      var rest := Remaining(m, moved, col, 0);
      RemainingUnit(m, moved, col, 0);
      var sorted := Sort(rest);
      SameElements(rest, sorted);
      Survivors(moved, col, sorted)
  }

  /**
   * The tick's pass is the turns of all carts from an empty collided list:
   * it stays on the grid exactly when the turns do, and then ends in their
   * state, with every cart put or one step on as its turn decided.
   */
  predicate TickFollowsTurns(m: Membership, carts: seq<Cart>, track: Track, r: TickResult)
    requires AllUnit(carts)
  {
    && (r.Survivors? <==> Turns(m, carts, [], track, 0, |carts|).Passed?)
    && (r.Survivors? ==> Turns(m, carts, [], track, 0, |carts|) == Passed(r.moved, r.collided))
    && (r.Survivors? ==> forall k :: 0 <= k < |carts| && k < |r.moved| ==>
                           TurnOutcome(m, carts, [], track, 0, k, r.moved[k]))
  }

  /** Turn by turn, a tick moves every cart that is not collided when its turn comes, and no other. */
  lemma TickTakesTurns(m: Membership, carts: seq<Cart>, track: Track)
    requires AllUnit(carts)
    ensures TickFollowsTurns(m, carts, track, SurvivorTick(m, carts, track))
  {
    PassFollowsTurns(m, carts, [], track, 0);
    var r := SurvivorTick(m, carts, track);
    if r.Survivors? {
      forall k | 0 <= k < |carts|
        ensures TurnOutcome(m, carts, [], track, 0, k, r.moved[k])
      {
        TurnTakenOnce(m, carts, [], track, 0, k);
      }
    }
  }

  /**
   * A tick leaves the grid exactly when some cart that is not collided when
   * its turn comes, after turns that all stayed on the grid, has no cell to
   * go to.
   */
  lemma TickOffTrackIff(m: Membership, carts: seq<Cart>, track: Track)
    requires AllUnit(carts)
    ensures SurvivorTick(m, carts, track).TickOffTrack? <==>
            exists k: nat :: k < |carts| && LeavesGridAt(m, carts, [], track, 0, k)
  {
    TurnsOffTrack(m, carts, [], track, 0, |carts|);
    PassFollowsTurns(m, carts, [], track, 0);
  }

  /** Two lists holding the same multiset hold the same elements. */
  lemma SameElements(s: seq<Cart>, t: seq<Cart>)
    requires multiset(s) == multiset(t)
    ensures forall e :: e in s <==> e in t
  {
    forall e
      ensures e in s <==> e in t
    {
      assert e in s <==> e in multiset(s);
      assert e in t <==> e in multiset(t);
    }
  }

  /** A tick that starts with carts at distinct positions ends with survivors at distinct positions. */
  lemma SurvivorTickApart(m: Membership, carts: seq<Cart>, track: Track)
    requires AllUnit(carts) && DistinctPositions(carts)
    ensures var r := SurvivorTick(m, carts, track);
            r.Survivors? ==> DistinctPositions(r.carts)
  {
    var p := Pass(m, carts, [], track, 0);
    if p.Passed? {
      assert Apart(m, carts, []);
      RemainingApart(m, p.carts, p.collided, 0);
      var rest := Remaining(m, p.carts, p.collided, 0);
      DistinctPermutation(rest, Sort(rest));
    }
  }

  /** Under the identity test, a tick removes exactly the carts it recorded. */
  lemma SurvivorTickCount(carts: seq<Cart>, track: Track)
    requires AllUnit(carts)
    ensures var r := SurvivorTick(ByIdentity, carts, track);
            r.Survivors? ==> |r.carts| == |carts| - |r.collided|
  {
    var p := Pass(ByIdentity, carts, [], track, 0);
    if p.Passed? {
      RemainingCount(p.carts, p.collided, 0);
      DistinctCount(p.collided);
      assert RecordedFrom(p.collided, 0, |p.carts|) == Recorded(p.collided);
    }
  }

  /** A list with two equal entries holds that entry at least twice. */
  lemma TwiceCounted(t: seq<Cart>, i: int, j: int)
    requires 0 <= i < j < |t| && t[i] == t[j]
    ensures multiset(t)[t[i]] >= 2
  {
    assert t == t[..j] + t[j..];
    assert t[i] in t[..j];
    assert t[j] in t[j..];
    assert multiset(t) == multiset(t[..j]) + multiset(t[j..]);
  }

  /** An entry held at least twice sits at two different indices. */
  lemma {:induction false} TwoIndices(s: seq<Cart>, e: Cart)
    requires multiset(s)[e] >= 2
    ensures exists a, b :: 0 <= a < b < |s| && s[a] == e && s[b] == e
  {
    var n := |s| - 1;
    assert s == s[..n] + [s[n]];
    assert multiset(s) == multiset(s[..n]) + multiset{s[n]};
    if s[n] == e {
      assert e in multiset(s[..n]);
      var a :| 0 <= a < n && s[..n][a] == e;
      assert s[a] == e && s[n] == e;
    } else {
      TwoIndices(s[..n], e);
      var a, b :| 0 <= a < b < n && s[..n][a] == e && s[..n][b] == e;
      assert s[a] == e && s[b] == e;
    }
  }

  /** Reordering a list whose carts have distinct positions keeps them distinct. */
  lemma DistinctPermutation(s: seq<Cart>, t: seq<Cart>)
    requires multiset(s) == multiset(t) && DistinctPositions(s)
    ensures DistinctPositions(t)
  {
    forall i, j | 0 <= i < j < |t|
      ensures !SamePos(t[i], t[j])
    {
      assert t[i] in multiset(s) && t[j] in multiset(s);
      if t[i] == t[j] {
        TwiceCounted(t, i, j);
        TwoIndices(s, t[i]);
      } else {
        var a :| 0 <= a < |s| && s[a] == t[i];
        var b :| 0 <= b < |s| && s[b] == t[j];
        assert a != b;
      }
    }
  }

  /** Under the identity test a tick removes an even number of carts. */
  lemma TickParity(m: Membership, carts: seq<Cart>, track: Track)
    requires AllUnit(carts)
    ensures var r := SurvivorTick(m, carts, track);
            r.Survivors? && m.ByIdentity? ==> |r.carts| % 2 == |carts| % 2
  {
    var r := SurvivorTick(m, carts, track);
    if r.Survivors? && m.ByIdentity? {
      SurvivorTickCount(carts, track);
      assert |r.collided| % 2 == 0;
      OddMinusEven(|carts|, |r.collided|);
    }
  }

  lemma OddMinusEven(a: int, b: int)
    requires b % 2 == 0
    ensures (a - b) % 2 == a % 2
  {
  }

  /**
   * The list the source's loop holds after n ticks, when it got that far:
   * None once the loop stopped earlier (at most one cart left) or a tick
   * stepped off the grid.
   */
  function AfterTicks(m: Membership, carts: seq<Cart>, track: Track, n: nat): (r: Option<seq<Cart>>)
    requires AllUnit(carts)
    decreases n
    ensures r.Some? ==> AllUnit(r.value) && |r.value| <= |carts|
    ensures n == 0 ==> r == Some(carts)
  {
    if n == 0 then Some(carts)
    else if |carts| <= 1 then None
    else
      match SurvivorTick(m, carts, track)
      case TickOffTrack => None
      case Survivors(_, _, rest) => AfterTicks(m, rest, track, n - 1)
  }

  /**
   * The source's run_until_last_collision, allowed at most `fuel` ticks:
   * tick while more than one cart is left, then report the one left. A
   * report is the one cart of the list the loop reached after some number
   * of ticks; the run is out of fuel exactly when the loop would still go on.
   */
  function RunUntilLastCollision(m: Membership, carts: seq<Cart>, track: Track, fuel: nat): (r: Outcome)
    requires AllUnit(carts)
    decreases fuel
    ensures r.Survivor? ==> LoneCartBy(m, carts, track, fuel, r.at)
    ensures r.NoSurvivor? ==> EmptiedBy(m, carts, track, fuel)
    ensures r.OffTrack? ==> OffGridBy(m, carts, track, fuel)
    ensures r.OutOfFuel? <==> StillRunning(m, carts, track, fuel)
    ensures r.Survivor? ==> |carts| >= 1
    ensures |carts| == 1 ==> r == Survivor(PosOf(carts[0]))
    ensures m.ByIdentity? && |carts| % 2 == 1 ==> !r.NoSurvivor?
  {
    assert AfterTicks(m, carts, track, 0) == Some(carts);
    if |carts| > 1 then
      if fuel == 0 then OutOfFuel
      else
        match SurvivorTick(m, carts, track)
        case TickOffTrack => OffTrack
        case Survivors(_, _, rest) =>
          TickParity(m, carts, track);
          AfterTicksStep(m, carts, track, rest, 0);
          var r := RunUntilLastCollision(m, rest, track, fuel - 1);
          RunLift(m, carts, track, rest, fuel, r);
          r
    else if |carts| == 1 then Survivor(PosOf(carts[0]))
    else NoSurvivor
  }

  /** Within `fuel` ticks the loop reaches a list of one cart, standing at `at`. */
  predicate LoneCartBy(m: Membership, carts: seq<Cart>, track: Track, fuel: nat, at: Pos)
    requires AllUnit(carts)
  {
    exists n :: 0 <= n <= fuel && AfterTicks(m, carts, track, n).Some?
                && |AfterTicks(m, carts, track, n).value| == 1
                && at == PosOf(AfterTicks(m, carts, track, n).value[0])
  }

  /** Within `fuel` ticks the loop reaches the empty list. */
  predicate EmptiedBy(m: Membership, carts: seq<Cart>, track: Track, fuel: nat)
    requires AllUnit(carts)
  {
    exists n :: 0 <= n <= fuel && AfterTicks(m, carts, track, n) == Some([])
  }

  /** Before `fuel` ticks are over the loop reaches a list of several carts whose tick leaves the grid. */
  predicate OffGridBy(m: Membership, carts: seq<Cart>, track: Track, fuel: nat)
    requires AllUnit(carts)
  {
    exists n :: 0 <= n < fuel && AfterTicks(m, carts, track, n).Some?
                && |AfterTicks(m, carts, track, n).value| > 1
                && SurvivorTick(m, AfterTicks(m, carts, track, n).value, track).TickOffTrack?
  }

  /** After `fuel` ticks the loop still holds more than one cart, so it would go on. */
  predicate StillRunning(m: Membership, carts: seq<Cart>, track: Track, fuel: nat)
    requires AllUnit(carts)
  {
    AfterTicks(m, carts, track, fuel).Some? && |AfterTicks(m, carts, track, fuel).value| > 1
  }

  /** After a tick that left rest, the contract of the run from rest carries over to the whole run. */
  lemma RunLift(m: Membership, carts: seq<Cart>, track: Track, rest: seq<Cart>, fuel: nat, r: Outcome)
    requires AllUnit(carts) && |carts| > 1 && fuel > 0
    requires SurvivorTick(m, carts, track).Survivors? && SurvivorTick(m, carts, track).carts == rest
    requires AllUnit(rest)
    requires r.Survivor? ==> LoneCartBy(m, rest, track, fuel - 1, r.at)
    requires r.NoSurvivor? ==> EmptiedBy(m, rest, track, fuel - 1)
    requires r.OffTrack? ==> OffGridBy(m, rest, track, fuel - 1)
    requires r.OutOfFuel? <==> StillRunning(m, rest, track, fuel - 1)
    ensures r.Survivor? ==> LoneCartBy(m, carts, track, fuel, r.at)
    ensures r.NoSurvivor? ==> EmptiedBy(m, carts, track, fuel)
    ensures r.OffTrack? ==> OffGridBy(m, carts, track, fuel)
    ensures r.OutOfFuel? <==> StillRunning(m, carts, track, fuel)
  {
    StillRunningLift(m, carts, track, rest, fuel);
    match r
    case Survivor(at) => LoneCartLift(m, carts, track, rest, fuel, at);
    case NoSurvivor => EmptiedLift(m, carts, track, rest, fuel);
    case OffTrack => OffGridLift(m, carts, track, rest, fuel);
    case OutOfFuel =>
  }

  lemma StillRunningLift(m: Membership, carts: seq<Cart>, track: Track, rest: seq<Cart>, fuel: nat)
    requires AllUnit(carts) && |carts| > 1 && fuel > 0
    requires SurvivorTick(m, carts, track).Survivors? && SurvivorTick(m, carts, track).carts == rest
    requires AllUnit(rest)
    ensures StillRunning(m, carts, track, fuel) == StillRunning(m, rest, track, fuel - 1)
  {
    AfterTicksStep(m, carts, track, rest, fuel - 1);
  }

  lemma LoneCartLift(m: Membership, carts: seq<Cart>, track: Track, rest: seq<Cart>, fuel: nat, at: Pos)
    requires AllUnit(carts) && |carts| > 1 && fuel > 0
    requires SurvivorTick(m, carts, track).Survivors? && SurvivorTick(m, carts, track).carts == rest
    requires AllUnit(rest) && LoneCartBy(m, rest, track, fuel - 1, at)
    ensures LoneCartBy(m, carts, track, fuel, at)
  {
    var n :| 0 <= n <= fuel - 1 && AfterTicks(m, rest, track, n).Some?
             && |AfterTicks(m, rest, track, n).value| == 1
             && at == PosOf(AfterTicks(m, rest, track, n).value[0]);
    AfterTicksStep(m, carts, track, rest, n);
  }

  lemma EmptiedLift(m: Membership, carts: seq<Cart>, track: Track, rest: seq<Cart>, fuel: nat)
    requires AllUnit(carts) && |carts| > 1 && fuel > 0
    requires SurvivorTick(m, carts, track).Survivors? && SurvivorTick(m, carts, track).carts == rest
    requires AllUnit(rest) && EmptiedBy(m, rest, track, fuel - 1)
    ensures EmptiedBy(m, carts, track, fuel)
  {
    var n :| 0 <= n <= fuel - 1 && AfterTicks(m, rest, track, n) == Some([]);
    AfterTicksStep(m, carts, track, rest, n);
  }

  lemma OffGridLift(m: Membership, carts: seq<Cart>, track: Track, rest: seq<Cart>, fuel: nat)
    requires AllUnit(carts) && |carts| > 1 && fuel > 0
    requires SurvivorTick(m, carts, track).Survivors? && SurvivorTick(m, carts, track).carts == rest
    requires AllUnit(rest) && OffGridBy(m, rest, track, fuel - 1)
    ensures OffGridBy(m, carts, track, fuel)
  {
    var n :| 0 <= n < fuel - 1 && AfterTicks(m, rest, track, n).Some?
             && |AfterTicks(m, rest, track, n).value| > 1
             && SurvivorTick(m, AfterTicks(m, rest, track, n).value, track).TickOffTrack?;
    AfterTicksStep(m, carts, track, rest, n);
  }

  /** After a tick on more than one cart that left rest, n more ticks reach what n ticks from rest reach. */
  lemma AfterTicksStep(m: Membership, carts: seq<Cart>, track: Track, rest: seq<Cart>, n: nat)
    requires AllUnit(carts) && |carts| > 1
    requires SurvivorTick(m, carts, track).Survivors? && SurvivorTick(m, carts, track).carts == rest
    ensures AllUnit(rest)
    ensures AfterTicks(m, carts, track, n + 1) == AfterTicks(m, rest, track, n)
  {
  }

}
