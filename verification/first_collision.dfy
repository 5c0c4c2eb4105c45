/**
 * The first-collision driver: ticks of moving every cart once in (y, x)
 * order, scanning for a collision after each single move.
 */
module FirstCollision {
  import opened Directions
  import opened Carts
  import opened Ordering
  import opened Collision

  /** What one tick ends with: a reported collision, the moved carts, or a step off the grid. */
  datatype TickResult = Crash(at: Pos, carts: seq<Cart>) | Ticked(carts: seq<Cart>) | TickOffTrack

  /** What a run ends with; a collision keeps the cart list it was found in. */
  datatype Outcome = Collision(at: Pos, carts: seq<Cart>) | OutOfFuel | OffTrack

  /**
   * What a tick looks for after each step: two equal neighbours in the list
   * (the source's scan), or another cart where the moved one landed (the
   * check evidently intended).
   */
  datatype Check = Neighbours | Landing

  /** Carts i .. k - 1 can each take their step. */
  predicate CanMoveBetween(s: seq<Cart>, track: Track, i: int, k: int) {
    forall n :: i <= n < k && 0 <= n < |s| ==> CanMove(s[n], track)
  }

  /** Carts i .. |s| - 1 can each take their step. */
  predicate CanMoveFrom(s: seq<Cart>, track: Track, i: int) {
    CanMoveBetween(s, track, i, |s|)
  }

  /** A cart's step where it has one; a cart without one stays put (a tick never gets past it). */
  function Step(c: Cart, track: Track): Cart {
    if IsUnit(c.v) && CanMove(c, track) then Move(c, track) else c
  }

  /** The list in the middle of a tick: carts i .. k - 1 have taken their step, the rest not. */
  function Stage(s: seq<Cart>, track: Track, i: int, k: int): (r: seq<Cart>)
    ensures |r| == |s|
    ensures forall n :: 0 <= n < |s| ==> r[n] == (if i <= n < k then Step(s[n], track) else s[n])
  {
    seq(|s|, n requires 0 <= n < |s| => if i <= n < k then Step(s[n], track) else s[n])
  }

  /**
   * The check fires on the list t as it stands right after cart k's step:
   * the source's scan sees two equal neighbours, the intended check sees
   * another cart where cart k landed.
   */
  predicate Hit(check: Check, t: seq<Cart>, k: nat)
    requires k < |t|
  {
    match check
    case Neighbours => HasAdjacentPair(t)
    case Landing => exists j :: 0 <= j < |t| && j != k && SamePos(t[j], t[k])
  }

  /** The check fires right after cart k's step in the tick from cart i. */
  predicate Fires(check: Check, s: seq<Cart>, track: Track, i: int, k: nat)
    requires k < |s|
  {
    Hit(check, Stage(s, track, i, k + 1), k)
  }

  /** Carts i .. k - 1 took their steps one after the other, and the check fired after none of them. */
  predicate QuietUntil(check: Check, s: seq<Cart>, track: Track, i: nat, k: nat)
    requires k <= |s|
    decreases k
  {
    if k <= i then true
    else
      && QuietUntil(check, s, track, i, k - 1)
      && CanMove(s[k - 1], track)
      && !Fires(check, s, track, i, k - 1)
  }

  /** The tick from cart i stops right after cart k's step: the steps before were quiet, and the check fires. */
  predicate StopsAt(check: Check, s: seq<Cart>, track: Track, i: nat, k: nat) {
    && i <= k < |s|
    && QuietUntil(check, s, track, i, k)
    && CanMove(s[k], track)
    && Fires(check, s, track, i, k)
  }

  /** The tick from cart i leaves the grid at cart k: the steps before were quiet, and cart k has no cell to go to. */
  predicate StuckAt(check: Check, s: seq<Cart>, track: Track, i: nat, k: nat) {
    && i <= k < |s|
    && QuietUntil(check, s, track, i, k)
    && !CanMove(s[k], track)
  }

  /** Quiet steps are steps that could be taken. */
  lemma {:induction false} QuietCanMove(check: Check, s: seq<Cart>, track: Track, i: nat, k: nat)
    requires k <= |s| && QuietUntil(check, s, track, i, k)
    decreases k
    ensures CanMoveBetween(s, track, i, k)
  {
    if k > i {
      assert QuietUntil(check, s, track, i, k - 1) && CanMove(s[k - 1], track);
      QuietCanMove(check, s, track, i, k - 1);
    }
  }

  /** Quiet steps up to k2 are quiet up to any earlier k, and cart k then moved without the check firing. */
  lemma {:induction false} QuietPrefix(check: Check, s: seq<Cart>, track: Track, i: nat, k: nat, k2: nat)
    requires i <= k < k2 <= |s|
    requires QuietUntil(check, s, track, i, k2)
    decreases k2
    ensures QuietUntil(check, s, track, i, k) && CanMove(s[k], track) && !Fires(check, s, track, i, k)
  {
    assert QuietUntil(check, s, track, i, k2 - 1);
    if k < k2 - 1 {
      QuietPrefix(check, s, track, i, k, k2 - 1);
    }
  }

  /** A tick that is quiet up to k began with a step of cart i that did not fire the check. */
  lemma QuietStart(check: Check, s: seq<Cart>, track: Track, i: nat, k: nat)
    requires i < k <= |s|
    ensures QuietUntil(check, s, track, i, k) ==> CanMove(s[i], track) && !Fires(check, s, track, i, i)
  {
    if QuietUntil(check, s, track, i, k) {
      QuietPrefix(check, s, track, i, i, k);
    }
  }

  /**
   * A tick ends in at most one way: it stops at one cart at most, leaves the
   * grid at one cart at most, never both, and neither when it runs quietly
   * to the end.
   */
  lemma TickEndsOnce(check: Check, s: seq<Cart>, track: Track, i: nat, k: nat, k2: nat)
    requires i <= |s|
    ensures StopsAt(check, s, track, i, k) && StopsAt(check, s, track, i, k2) ==> k == k2
    ensures StuckAt(check, s, track, i, k) && StuckAt(check, s, track, i, k2) ==> k == k2
    ensures !(StopsAt(check, s, track, i, k) && StuckAt(check, s, track, i, k2))
    ensures QuietUntil(check, s, track, i, |s|) ==> !StopsAt(check, s, track, i, k) && !StuckAt(check, s, track, i, k)
  {
    if i <= k < k2 <= |s| && QuietUntil(check, s, track, i, k2) {
      QuietPrefix(check, s, track, i, k, k2);
    }
    if i <= k2 < k <= |s| && QuietUntil(check, s, track, i, k) {
      QuietPrefix(check, s, track, i, k2, k);
    }
    if i <= k < |s| && QuietUntil(check, s, track, i, |s|) {
      QuietPrefix(check, s, track, i, k, |s|);
    }
  }

  /** Carts with a direction keep one after any stage of a tick. */
  lemma StageUnit(s: seq<Cart>, track: Track, i: int, k: int)
    requires AllUnit(s)
    ensures AllUnit(Stage(s, track, i, k))
  {
  }

  /** Moving cart i of a list whose earlier carts have moved continues the same tick. */
  lemma StageShift(s: seq<Cart>, track: Track, i: nat, k: int)
    requires i < |s| && i < k
    ensures Stage(s[i := Step(s[i], track)], track, i + 1, k) == Stage(s, track, i, k)
  {
    var moved := s[i := Step(s[i], track)];
    var a := Stage(moved, track, i + 1, k);
    var b := Stage(s, track, i, k);
    assert forall n :: 0 <= n < |s| ==> a[n] == b[n];
  }

  /** Stopping the tick right after cart i's step leaves just that cart moved. */
  lemma StageOne(s: seq<Cart>, track: Track, i: nat)
    requires i < |s|
    ensures Stage(s, track, i, i + 1) == s[i := Step(s[i], track)]
  {
    var t := Stage(s, track, i, i + 1);
    assert forall n :: 0 <= n < |s| ==> t[n] == s[i := Step(s[i], track)][n];
  }

  /** After a quiet first step, the steps up to k are quiet from i exactly when they are from i + 1. */
  lemma {:induction false} QuietShift(check: Check, s: seq<Cart>, moved: seq<Cart>, track: Track, i: nat, k: nat)
    requires i < k <= |s| && CanMove(s[i], track) && !Fires(check, s, track, i, i)
    requires moved == s[i := Step(s[i], track)]
    decreases k
    ensures QuietUntil(check, moved, track, i + 1, k) <==> QuietUntil(check, s, track, i, k)
  {
    if k == i + 1 {
      assert QuietUntil(check, s, track, i, i);
    } else {
      QuietShift(check, s, moved, track, i, k - 1);
      assert moved[k - 1] == s[k - 1];
      StageShift(s, track, i, k);
    }
  }

  /** After a quiet first step, the tick from i stops or leaves the grid at k exactly when the tick from i + 1 does. */
  lemma EndShift(check: Check, s: seq<Cart>, moved: seq<Cart>, track: Track, i: nat, k: nat)
    requires i < k < |s| && CanMove(s[i], track) && !Fires(check, s, track, i, i)
    requires moved == s[i := Step(s[i], track)]
    ensures StopsAt(check, moved, track, i + 1, k) <==> StopsAt(check, s, track, i, k)
    ensures StuckAt(check, moved, track, i + 1, k) <==> StuckAt(check, s, track, i, k)
    ensures Stage(moved, track, i + 1, k + 1) == Stage(s, track, i, k + 1)
  {
    QuietShift(check, s, moved, track, i, k);
    assert moved[k] == s[k];
    StageShift(s, track, i, k + 1);
  }

  /**
   * A quiet step of cart i hands the tick on to cart i + 1: the tick from
   * i + 1 over the moved list ends the way the tick from i does.
   */
  lemma HandOn(check: Check, s: seq<Cart>, moved: seq<Cart>, track: Track, i: nat)
    requires i < |s| && CanMove(s[i], track) && !Fires(check, s, track, i, i)
    requires moved == s[i := Step(s[i], track)]
    ensures QuietUntil(check, moved, track, i + 1, |s|) <==> QuietUntil(check, s, track, i, |s|)
    ensures Stage(moved, track, i + 1, |s|) == Stage(s, track, i, |s|)
    ensures forall k: nat :: StopsAt(check, moved, track, i + 1, k) ==>
              StopsAt(check, s, track, i, k) && Stage(moved, track, i + 1, k + 1) == Stage(s, track, i, k + 1)
    ensures forall k: nat :: StuckAt(check, moved, track, i + 1, k) ==> StuckAt(check, s, track, i, k)
  {
    QuietShift(check, s, moved, track, i, |s|);
    StageShift(s, track, i, |s|);
    forall k: nat | StopsAt(check, moved, track, i + 1, k)
      ensures StopsAt(check, s, track, i, k) && Stage(moved, track, i + 1, k + 1) == Stage(s, track, i, k + 1)
    {
      EndShift(check, s, moved, track, i, k);
    }
    forall k: nat | StuckAt(check, moved, track, i + 1, k)
      ensures StuckAt(check, s, track, i, k)
    {
      EndShift(check, s, moved, track, i, k);
    }
  }

  /**
   * Carts i onwards each take one step in list order; after every step the
   * whole list, in its order from the start of the tick, is scanned. The
   * tick ends without a report exactly when every step was quiet; a report
   * is the scan's answer on the list as it stood after the step that
   * stopped the tick; a step off the grid comes after quiet steps only.
   */
  function MoveEach(s: seq<Cart>, track: Track, i: nat): (r: TickResult)
    requires i <= |s| && AllUnit(s)
    decreases |s| - i
    ensures r.Ticked? <==> QuietUntil(Neighbours, s, track, i, |s|)
    ensures r.Ticked? ==> r.carts == Stage(s, track, i, |s|)
    ensures r.Crash? ==> exists k: nat :: StopsAt(Neighbours, s, track, i, k) && r.carts == Stage(s, track, i, k + 1)
                                     && DetectCollision(r.carts) == Some(r.at)
    ensures r.TickOffTrack? ==> exists k: nat :: StuckAt(Neighbours, s, track, i, k)
  {
    if i == |s| then
      assert Stage(s, track, i, |s|) == s;
      Ticked(s)
    else if !CanMove(s[i], track) then
      assert StuckAt(Neighbours, s, track, i, i);
      QuietStart(Neighbours, s, track, i, |s|);
      TickOffTrack
    else
      var moved := s[i := Move(s[i], track)];
      assert Step(s[i], track) == Move(s[i], track);
      StageOne(s, track, i);
      assert AllUnit(moved);
      QuietStart(Neighbours, s, track, i, |s|);
      match DetectCollision(moved)
      case Some(p) =>
        assert StopsAt(Neighbours, s, track, i, i);
        Crash(p, moved)
      case None =>
        var r := MoveEach(moved, track, i + 1);
        MoveEachLift(s, moved, track, i, i + 1, r);
        r
  }

  /** The contract of the tick from i + 1 over the moved list carries over to the tick from i. */
  lemma MoveEachLift(s: seq<Cart>, moved: seq<Cart>, track: Track, i: nat, j: nat, r: TickResult)
    requires i < |s| && CanMove(s[i], track) && !Fires(Neighbours, s, track, i, i)
    requires moved == s[i := Step(s[i], track)] && j == i + 1
    requires r.Ticked? <==> QuietUntil(Neighbours, moved, track, j, |s|)
    requires r.Ticked? ==> r.carts == Stage(moved, track, j, |s|)
    requires r.Crash? ==> exists k: nat :: StopsAt(Neighbours, moved, track, j, k)
                                       && r.carts == Stage(moved, track, j, k + 1)
                                       && DetectCollision(r.carts) == Some(r.at)
    requires r.TickOffTrack? ==> exists k: nat :: StuckAt(Neighbours, moved, track, j, k)
    ensures r.Ticked? <==> QuietUntil(Neighbours, s, track, i, |s|)
    ensures r.Ticked? ==> r.carts == Stage(s, track, i, |s|)
    ensures r.Crash? ==> exists k: nat :: StopsAt(Neighbours, s, track, i, k) && r.carts == Stage(s, track, i, k + 1)
                                     && DetectCollision(r.carts) == Some(r.at)
    ensures r.TickOffTrack? ==> exists k: nat :: StuckAt(Neighbours, s, track, i, k)
  {
    QuietShift(Neighbours, s, moved, track, i, |s|);
    StageShift(s, track, i, |s|);
    if r.Crash? {
      var k: nat :| StopsAt(Neighbours, moved, track, j, k) && r.carts == Stage(moved, track, j, k + 1)
                    && DetectCollision(r.carts) == Some(r.at);
      EndShift(Neighbours, s, moved, track, i, k);
    }
    if r.TickOffTrack? {
      var k: nat :| StuckAt(Neighbours, moved, track, j, k);
      EndShift(Neighbours, s, moved, track, i, k);
    }
  }

  /** One tick of the source: sort once, then move every cart in that order. */
  function Tick(carts: seq<Cart>, track: Track): (r: TickResult)
    requires AllUnit(carts)
    ensures r.Ticked? <==> QuietUntil(Neighbours, Sort(carts), track, 0, |carts|)
    ensures r.Ticked? ==> r.carts == Stage(Sort(carts), track, 0, |carts|)
    ensures r.Crash? ==> exists k: nat :: StopsAt(Neighbours, Sort(carts), track, 0, k)
                                     && r.carts == Stage(Sort(carts), track, 0, k + 1)
                                     && DetectCollision(r.carts) == Some(r.at)
    ensures r.Crash? ==> exists i, j :: 0 <= i < j < |r.carts| && PosOf(r.carts[i]) == r.at == PosOf(r.carts[j])
    ensures r.TickOffTrack? ==> exists k: nat :: StuckAt(Neighbours, Sort(carts), track, 0, k)
    ensures r.Ticked? ==> |r.carts| == |carts| && AllUnit(r.carts)
  {
    StageUnit(Sort(carts), track, 0, |carts|);
    var r := MoveEach(Sort(carts), track, 0);
    if r.Crash? then DetectedIsShared(r.carts); r else r
  }

  /**
   * The list after n ticks under a check when every one of them moved all
   * carts with the check quiet; None once a tick stopped or left the grid.
   */
  function Reached(check: Check, carts: seq<Cart>, track: Track, n: nat): (r: Option<seq<Cart>>)
    requires AllUnit(carts)
    decreases n
    ensures r.Some? ==> |r.value| == |carts| && AllUnit(r.value)
  {
    if n == 0 then Some(carts)
    else
      var s := Sort(carts);
      if QuietUntil(check, s, track, 0, |s|) then
        StageUnit(s, track, 0, |s|);
        Reached(check, Stage(s, track, 0, |s|), track, n - 1)
      else None
  }

  /** After a quiet tick that turned carts into s, the later ticks start from s. */
  lemma ReachedStep(check: Check, carts: seq<Cart>, track: Track, s: seq<Cart>)
    requires AllUnit(carts) && QuietUntil(check, Sort(carts), track, 0, |carts|)
    requires s == Stage(Sort(carts), track, 0, |carts|)
    ensures AllUnit(s)
    ensures forall n: nat :: Reached(check, carts, track, n + 1) == Reached(check, s, track, n)
  {
  }

  /**
   * The source's run_until_collision, allowed at most `fuel` ticks. A report
   * is the crash of the tick that follows some number of quiet ticks, a cell
   * shared by two carts of the list it was found in; the run is out of fuel
   * exactly when all its ticks were quiet.
   */
  function RunUntilCollision(carts: seq<Cart>, track: Track, fuel: nat): (r: Outcome)
    requires AllUnit(carts)
    decreases fuel
    ensures r.Collision? ==> exists n :: 0 <= n < fuel && Reached(Neighbours, carts, track, n).Some?
                                         && Tick(Reached(Neighbours, carts, track, n).value, track) == Crash(r.at, r.carts)
    ensures r.Collision? ==> |r.carts| == |carts|
                             && exists i, j :: 0 <= i < j < |r.carts| && PosOf(r.carts[i]) == r.at == PosOf(r.carts[j])
    ensures r.OffTrack? ==> exists n :: 0 <= n < fuel && Reached(Neighbours, carts, track, n).Some?
                                        && Tick(Reached(Neighbours, carts, track, n).value, track).TickOffTrack?
    ensures r.OutOfFuel? <==> Reached(Neighbours, carts, track, fuel).Some?
  {
    if fuel == 0 then OutOfFuel
    else
      var t := Tick(carts, track);
      assert Reached(Neighbours, carts, track, 0) == Some(carts);
      match t
      case Crash(p, s) => Collision(p, s)
      case Ticked(s) =>
        var r := RunUntilCollision(s, track, fuel - 1);
        RunLift(carts, track, s, fuel, r);
        r
      case TickOffTrack => OffTrack
  }

  /** After a quiet first tick, the contract of the run from the ticked list carries over to the whole run. */
  lemma RunLift(carts: seq<Cart>, track: Track, s: seq<Cart>, fuel: nat, r: Outcome)
    requires AllUnit(carts) && fuel > 0 && Tick(carts, track) == Ticked(s)
    requires r.Collision? ==> exists n :: 0 <= n < fuel - 1 && Reached(Neighbours, s, track, n).Some?
                                          && Tick(Reached(Neighbours, s, track, n).value, track) == Crash(r.at, r.carts)
    requires r.OffTrack? ==> exists n :: 0 <= n < fuel - 1 && Reached(Neighbours, s, track, n).Some?
                                         && Tick(Reached(Neighbours, s, track, n).value, track).TickOffTrack?
    requires r.OutOfFuel? <==> Reached(Neighbours, s, track, fuel - 1).Some?
    ensures r.Collision? ==> exists n :: 0 <= n < fuel && Reached(Neighbours, carts, track, n).Some?
                                         && Tick(Reached(Neighbours, carts, track, n).value, track) == Crash(r.at, r.carts)
    ensures r.OffTrack? ==> exists n :: 0 <= n < fuel && Reached(Neighbours, carts, track, n).Some?
                                        && Tick(Reached(Neighbours, carts, track, n).value, track).TickOffTrack?
    ensures r.OutOfFuel? <==> Reached(Neighbours, carts, track, fuel).Some?
  {
    ReachedStep(Neighbours, carts, track, s);
    assert Reached(Neighbours, carts, track, fuel) == Reached(Neighbours, s, track, fuel - 1);
    if r.Collision? {
      var n :| 0 <= n < fuel - 1 && Reached(Neighbours, s, track, n).Some?
               && Tick(Reached(Neighbours, s, track, n).value, track) == Crash(r.at, r.carts);
      assert Reached(Neighbours, carts, track, n + 1) == Reached(Neighbours, s, track, n);
    }
    if r.OffTrack? {
      var n :| 0 <= n < fuel - 1 && Reached(Neighbours, s, track, n).Some?
               && Tick(Reached(Neighbours, s, track, n).value, track).TickOffTrack?;
      assert Reached(Neighbours, carts, track, n + 1) == Reached(Neighbours, s, track, n);
    }
  }

  // ---------------------------------------------------------------------
  // The collision check as evidently intended: after each step, compare
  // the cart that moved with every other cart.
  // ---------------------------------------------------------------------

  /**
   * Like MoveEach, but after cart k's step the tick stops exactly when
   * another cart stands where cart k landed, and reports that cell.
   */
  function MoveEachChecked(s: seq<Cart>, track: Track, i: nat): (r: TickResult)
    requires i <= |s| && AllUnit(s)
    decreases |s| - i
    ensures r.Ticked? <==> QuietUntil(Landing, s, track, i, |s|)
    ensures r.Ticked? ==> r.carts == Stage(s, track, i, |s|)
    ensures r.Crash? ==> exists k: nat :: StopsAt(Landing, s, track, i, k) && r.carts == Stage(s, track, i, k + 1)
                                     && r.at == PosOf(r.carts[k])
    ensures r.Crash? ==> |r.carts| == |s|
                         && exists a, b :: 0 <= a < b < |r.carts| && PosOf(r.carts[a]) == r.at == PosOf(r.carts[b])
    ensures r.TickOffTrack? ==> exists k: nat :: StuckAt(Landing, s, track, i, k)
  {
    if i == |s| then
      assert Stage(s, track, i, |s|) == s;
      Ticked(s)
    else if !CanMove(s[i], track) then
      assert StuckAt(Landing, s, track, i, i);
      QuietStart(Landing, s, track, i, |s|);
      TickOffTrack
    else
      var moved := s[i := Move(s[i], track)];
      assert Step(s[i], track) == Move(s[i], track);
      StageOne(s, track, i);
      assert AllUnit(moved);
      QuietStart(Landing, s, track, i, |s|);
      if exists j :: 0 <= j < |moved| && j != i && SamePos(moved[j], moved[i]) then
        var j :| 0 <= j < |moved| && j != i && SamePos(moved[j], moved[i]);
        assert StopsAt(Landing, s, track, i, i);
        if j < i then
          assert PosOf(moved[j]) == PosOf(moved[i]) == PosOf(moved[i]);
          Crash(PosOf(moved[i]), moved)
        else
          assert PosOf(moved[i]) == PosOf(moved[i]) == PosOf(moved[j]);
          Crash(PosOf(moved[i]), moved)
      else
        var r := MoveEachChecked(moved, track, i + 1);
        MoveEachCheckedLift(s, moved, track, i, i + 1, r);
        r
  }

  /** The contract of the checked tick from i + 1 over the moved list carries over to the tick from i. */
  lemma MoveEachCheckedLift(s: seq<Cart>, moved: seq<Cart>, track: Track, i: nat, j: nat, r: TickResult)
    requires i < |s| && CanMove(s[i], track) && !Fires(Landing, s, track, i, i)
    requires moved == s[i := Step(s[i], track)] && j == i + 1
    requires r.Ticked? <==> QuietUntil(Landing, moved, track, j, |s|)
    requires r.Ticked? ==> r.carts == Stage(moved, track, j, |s|)
    requires r.Crash? ==> exists k: nat :: StopsAt(Landing, moved, track, j, k)
                                       && r.carts == Stage(moved, track, j, k + 1)
                                       && r.at == PosOf(r.carts[k])
    requires r.TickOffTrack? ==> exists k: nat :: StuckAt(Landing, moved, track, j, k)
    ensures r.Ticked? <==> QuietUntil(Landing, s, track, i, |s|)
    ensures r.Ticked? ==> r.carts == Stage(s, track, i, |s|)
    ensures r.Crash? ==> exists k: nat :: StopsAt(Landing, s, track, i, k) && r.carts == Stage(s, track, i, k + 1)
                                     && r.at == PosOf(r.carts[k])
    ensures r.TickOffTrack? ==> exists k: nat :: StuckAt(Landing, s, track, i, k)
  {
    QuietShift(Landing, s, moved, track, i, |s|);
    StageShift(s, track, i, |s|);
    if r.Crash? {
      var k: nat :| StopsAt(Landing, moved, track, j, k) && r.carts == Stage(moved, track, j, k + 1)
                    && r.at == PosOf(r.carts[k]);
      EndShift(Landing, s, moved, track, i, k);
    }
    if r.TickOffTrack? {
      var k: nat :| StuckAt(Landing, moved, track, j, k);
      EndShift(Landing, s, moved, track, i, k);
    }
  }

  /** One tick with the intended check. */
  function TickChecked(carts: seq<Cart>, track: Track): (r: TickResult)
    requires AllUnit(carts)
    ensures r.Ticked? <==> QuietUntil(Landing, Sort(carts), track, 0, |carts|)
    ensures r.Ticked? ==> r.carts == Stage(Sort(carts), track, 0, |carts|)
    ensures r.Crash? ==> exists k: nat :: StopsAt(Landing, Sort(carts), track, 0, k)
                                     && r.carts == Stage(Sort(carts), track, 0, k + 1)
                                     && r.at == PosOf(r.carts[k])
    ensures r.Crash? ==> exists i, j :: 0 <= i < j < |r.carts| && PosOf(r.carts[i]) == r.at == PosOf(r.carts[j])
    ensures r.TickOffTrack? ==> exists k: nat :: StuckAt(Landing, Sort(carts), track, 0, k)
    ensures r.Ticked? ==> |r.carts| == |carts| && AllUnit(r.carts)
  {
    StageUnit(Sort(carts), track, 0, |carts|);
    MoveEachChecked(Sort(carts), track, 0)
  }

  /**
   * The first-collision run with the intended check, allowed at most `fuel`
   * ticks: a report is the first landing of the tick that follows some
   * number of quiet ticks.
   */
  function RunUntilFirstCrash(carts: seq<Cart>, track: Track, fuel: nat): (r: Outcome)
    requires AllUnit(carts)
    decreases fuel
    ensures r.Collision? ==> exists n :: 0 <= n < fuel && Reached(Landing, carts, track, n).Some?
                                         && TickChecked(Reached(Landing, carts, track, n).value, track) == Crash(r.at, r.carts)
    ensures r.Collision? ==> |r.carts| == |carts|
                             && exists i, j :: 0 <= i < j < |r.carts| && PosOf(r.carts[i]) == r.at == PosOf(r.carts[j])
    ensures r.OffTrack? ==> exists n :: 0 <= n < fuel && Reached(Landing, carts, track, n).Some?
                                        && TickChecked(Reached(Landing, carts, track, n).value, track).TickOffTrack?
    ensures r.OutOfFuel? <==> Reached(Landing, carts, track, fuel).Some?
  {
    if fuel == 0 then OutOfFuel
    else
      var t := TickChecked(carts, track);
      assert Reached(Landing, carts, track, 0) == Some(carts);
      match t
      case Crash(p, s) => Collision(p, s)
      case Ticked(s) =>
        var r := RunUntilFirstCrash(s, track, fuel - 1);
        RunCheckedLift(carts, track, s, fuel, r);
        r
      case TickOffTrack => OffTrack
  }

  /** After a quiet first tick, the contract of the run from the ticked list carries over to the whole run. */
  lemma RunCheckedLift(carts: seq<Cart>, track: Track, s: seq<Cart>, fuel: nat, r: Outcome)
    requires AllUnit(carts) && fuel > 0 && TickChecked(carts, track) == Ticked(s)
    requires r.Collision? ==> exists n :: 0 <= n < fuel - 1 && Reached(Landing, s, track, n).Some?
                                          && TickChecked(Reached(Landing, s, track, n).value, track) == Crash(r.at, r.carts)
    requires r.OffTrack? ==> exists n :: 0 <= n < fuel - 1 && Reached(Landing, s, track, n).Some?
                                         && TickChecked(Reached(Landing, s, track, n).value, track).TickOffTrack?
    requires r.OutOfFuel? <==> Reached(Landing, s, track, fuel - 1).Some?
    ensures r.Collision? ==> exists n :: 0 <= n < fuel && Reached(Landing, carts, track, n).Some?
                                         && TickChecked(Reached(Landing, carts, track, n).value, track) == Crash(r.at, r.carts)
    ensures r.OffTrack? ==> exists n :: 0 <= n < fuel && Reached(Landing, carts, track, n).Some?
                                        && TickChecked(Reached(Landing, carts, track, n).value, track).TickOffTrack?
    ensures r.OutOfFuel? <==> Reached(Landing, carts, track, fuel).Some?
  {
    ReachedStep(Landing, carts, track, s);
    assert Reached(Landing, carts, track, fuel) == Reached(Landing, s, track, fuel - 1);
    if r.Collision? {
      var n :| 0 <= n < fuel - 1 && Reached(Landing, s, track, n).Some?
               && TickChecked(Reached(Landing, s, track, n).value, track) == Crash(r.at, r.carts);
      assert Reached(Landing, carts, track, n + 1) == Reached(Landing, s, track, n);
    }
    if r.OffTrack? {
      var n :| 0 <= n < fuel - 1 && Reached(Landing, s, track, n).Some?
               && TickChecked(Reached(Landing, s, track, n).value, track).TickOffTrack?;
      assert Reached(Landing, carts, track, n + 1) == Reached(Landing, s, track, n);
    }
  }
}
