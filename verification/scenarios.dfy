/**
 * Small hand-built tracks on which the model is worked through to the end:
 * single steps over curves and intersections, the parse of a tiny input,
 * and the two inputs on which the drivers as written and as intended part
 * ways.
 */
module Scenarios {
  import opened Directions
  import opened Carts
  import opened Ordering
  import opened Collision
  import opened Parse
  import FirstCollision
  import LastSurvivor

  const East := Vec(1, 0)
  const West := Vec(-1, 0)
  const North := Vec(0, -1)
  const South := Vec(0, 1)

  /** A single column of vertical rail, three rows high. */
  const Column: Track := ["|", "|", "|"]

  /** A cart heading down the column moves one row per step and keeps its heading. */
  lemma ColumnSteps()
    ensures CanMove(Cart(0, 0, South, TurnLeft), Column)
            && Move(Cart(0, 0, South, TurnLeft), Column) == Cart(0, 1, South, TurnLeft)
    ensures CanMove(Cart(0, 1, South, TurnLeft), Column)
            && Move(Cart(0, 1, South, TurnLeft), Column) == Cart(0, 2, South, TurnLeft)
  {
    assert Column[1] == "|" && Column[1][0] == '|';
    assert Column[2] == "|" && Column[2][0] == '|';
    PlainStep(Cart(0, 0, South, TurnLeft), Column);
    PlainStep(Cart(0, 1, South, TurnLeft), Column);
  }

  /** A cart heading east onto '/' heads north; onto '\' it heads south. */
  lemma CurveSteps()
    ensures Move(Cart(0, 0, East, TurnLeft), ["-/"]) == Cart(1, 0, North, TurnLeft)
    ensures Move(Cart(0, 0, East, TurnRight), ["-\\"]) == Cart(1, 0, South, TurnRight)
  {
    assert ["-/"][0][1] == '/';
    assert ["-\\"][0][1] == '\\';
  }

  /** An east-heading cart stepping onto a `+` turns by its current rule, then the rule advances: north for left, east for straight, south for right. */
  lemma IntersectionSteps()
    ensures Move(Cart(0, 0, East, TurnLeft), ["-+"]) == Cart(1, 0, North, TurnStraight)
    ensures Move(Cart(0, 0, East, TurnStraight), ["-+"]) == Cart(1, 0, East, TurnRight)
    ensures Move(Cart(0, 0, East, TurnRight), ["-+"]) == Cart(1, 0, South, TurnLeft)
  {
    assert ["-+"][0][1] == '+';
  }

  /** The first input below: a cart heading down above a cart heading right, and one heading left. */
  const MissedLines: seq<string> := ["v  -<", ">-"]
  const MissedTrack: Track := ["|  --", "--"]
  const MissedCarts: seq<Cart> := [Cart(0, 0, South, TurnLeft), Cart(4, 0, West, TurnLeft), Cart(0, 1, East, TurnLeft)]

  lemma ParseMissedRow0()
    ensures RowRails("v  -<") == "|  --"
    ensures RowCarts("v  -<", 0, 0) == [Cart(0, 0, South, TurnLeft), Cart(4, 0, West, TurnLeft)]
  {
    var row := "v  -<";
    assert RowCarts(row, 0, 5) == [];
    assert RowCarts(row, 0, 4) == [Cart(4, 0, West, TurnLeft)];
    assert RowCarts(row, 0, 3) == RowCarts(row, 0, 4);
    assert RowCarts(row, 0, 2) == RowCarts(row, 0, 3);
    assert RowCarts(row, 0, 1) == RowCarts(row, 0, 2);
  }

  lemma ParseMissedRow1()
    ensures RowRails(">-") == "--"
    ensures RowCarts(">-", 1, 0) == [Cart(0, 1, East, TurnLeft)]
  {
    assert RowCarts(">-", 1, 1) == [];
  }

  /** A row that starts with a cart marker is not blank. */
  lemma MarkerFirstNotBlank(row: string)
    requires |row| > 0 && IsMarker(row[0])
    ensures !IsBlank(row)
  {
    assert row[0] !in Whitespace;
  }

  lemma ParseMissedTail()
    ensures ParseLines([">-"], 1) == Parsed([Cart(0, 1, East, TurnLeft)], ["--"])
  {
    ParseMissedRow1();
    MarkerFirstNotBlank(">-");
    assert [">-"][1..] == [];
  }

  /** A non-blank first row gives its carts and rails ahead of those of the rows after it. */
  lemma ParseNonBlank(lines: seq<string>, y: int)
    requires |lines| > 0 && !IsBlank(lines[0])
    ensures var rest := ParseLines(lines[1..], y + 1);
            ParseLines(lines, y) == Parsed(RowCarts(lines[0], y, 0) + rest.carts, [RowRails(lines[0])] + rest.track)
  {
  }

  /** Parsing reads the carts in (y, x) order and leaves straight rails under them. */
  lemma ParseMissed()
    ensures ParseInput(MissedLines) == Parsed(MissedCarts, MissedTrack)
  {
    ParseMissedLines();
  }

  lemma ParseMissedLines()
    ensures ParseLines(MissedLines, 0) == Parsed(MissedCarts, MissedTrack)
  {
    var tail := ParseLines([">-"], 1);
    assert ParseLines(MissedLines, 0)
           == Parsed(RowCarts("v  -<", 0, 0) + tail.carts, [RowRails("v  -<")] + tail.track) by {
      MarkerFirstNotBlank(MissedLines[0]);
      assert MissedLines[0] == "v  -<" && MissedLines[1..] == [">-"];
      ParseNonBlank(MissedLines, 0);
    }
    ParseMissedRow0();
    ParseMissedTail();
    assert [Cart(0, 0, South, TurnLeft), Cart(4, 0, West, TurnLeft)] + [Cart(0, 1, East, TurnLeft)] == MissedCarts;
    assert ["|  --"] + ["--"] == MissedTrack;
  }

  // ---------------------------------------------------------------------
  // The first collision missed: the down-heading cart lands on the cart
  // below it, but the two are not neighbours in the tick's sorted list.
  // ---------------------------------------------------------------------

  /** The list after the first cart of the tick has moved onto the third. */
  const MissedFirstStep: seq<Cart> := MissedCarts[0 := Cart(0, 1, South, TurnLeft)]

  /** The list after the second step of the tick. */
  const MissedSecondStep: seq<Cart> := MissedFirstStep[1 := Cart(3, 0, West, TurnLeft)]

  /** The list at the end of the tick the source lets pass. */
  const MissedAfterTick: seq<Cart> := MissedSecondStep[2 := Cart(1, 1, East, TurnLeft)]

  /** The parsed carts are already in (y, x) order, so the tick keeps their order. */
  lemma SortMissed()
    ensures Sort(MissedCarts) == MissedCarts
  {
    assert Sorted(MissedCarts);
    SortIdentity(MissedCarts);
  }

  /** Three carts heading along the four directions make a list of them. */
  lemma ThreeUnit(a: Cart, b: Cart, c: Cart)
    requires IsUnit(a.v) && IsUnit(b.v) && IsUnit(c.v)
    ensures AllUnit([a, b, c])
  {
  }

  /** Replacing a cart by one heading along a direction keeps the list's headings directions. */
  lemma UnitUpdate(s: seq<Cart>, i: nat, c: Cart)
    requires AllUnit(s) && i < |s| && IsUnit(c.v)
    ensures AllUnit(s[i := c])
  {
  }

  lemma MissedUnit()
    ensures AllUnit(MissedCarts) && AllUnit(MissedFirstStep)
    ensures AllUnit(MissedSecondStep) && AllUnit(MissedAfterTick)
  {
    ThreeUnit(Cart(0, 0, South, TurnLeft), Cart(4, 0, West, TurnLeft), Cart(0, 1, East, TurnLeft));
    UnitUpdate(MissedCarts, 0, Cart(0, 1, South, TurnLeft));
    UnitUpdate(MissedFirstStep, 1, Cart(3, 0, West, TurnLeft));
    UnitUpdate(MissedSecondStep, 2, Cart(1, 1, East, TurnLeft));
  }

  /** A step onto a straight rail only advances the cart. */
  lemma PlainStep(c: Cart, track: Track)
    requires IsUnit(c.v) && CanMove(c, track)
    requires track[c.y + c.v.dy][c.x + c.v.dx] in "-|"
    ensures Move(c, track) == Cart(c.x + c.v.dx, c.y + c.v.dy, c.v, c.nextTurn)
  {
  }

  /** The three steps of the tick, one cart each. */
  predicate MissedMoveDown() {
    CanMove(MissedCarts[0], MissedTrack) && Move(MissedCarts[0], MissedTrack) == MissedFirstStep[0]
  }

  predicate MissedMoveLeft() {
    CanMove(MissedFirstStep[1], MissedTrack) && Move(MissedFirstStep[1], MissedTrack) == MissedSecondStep[1]
  }

  predicate MissedMoveRight() {
    CanMove(MissedSecondStep[2], MissedTrack) && Move(MissedSecondStep[2], MissedTrack) == MissedAfterTick[2]
  }

  lemma MissedMoves()
    ensures MissedMoveDown() && MissedMoveLeft() && MissedMoveRight()
  {
    MissedDownHolds();
    MissedLeftHolds();
    MissedRightHolds();
  }

  lemma MissedDownHolds()
    ensures MissedMoveDown()
  {
    var c := Cart(0, 0, South, TurnLeft);
    assert MissedCarts[0] == c;
    assert MissedTrack[1] == "--" && MissedTrack[1][0] == '-';
    PlainStep(c, MissedTrack);
  }

  lemma MissedLeftHolds()
    ensures MissedMoveLeft()
  {
    var c := Cart(4, 0, West, TurnLeft);
    assert MissedFirstStep[1] == MissedCarts[1] == c;
    assert MissedTrack[0] == "|  --" && MissedTrack[0][3] == '-';
    PlainStep(c, MissedTrack);
  }

  lemma MissedRightHolds()
    ensures MissedMoveRight()
  {
    var c := Cart(0, 1, East, TurnLeft);
    assert MissedSecondStep[2] == MissedFirstStep[2] == MissedCarts[2] == c;
    assert MissedTrack[1] == "--" && MissedTrack[1][1] == '-';
    PlainStep(c, MissedTrack);
  }

  /** After the first step two carts share (0, 1), and the source's scan does not see it. */
  lemma MissedScan()
    ensures HasAdjacentPair(MissedFirstStep) == false
    ensures DetectCollision(MissedFirstStep) == None
    ensures !DistinctPositions(MissedFirstStep)
  {
    assert MissedFirstStep[1] == MissedCarts[1] && MissedFirstStep[2] == MissedCarts[2];
    assert SamePos(MissedFirstStep[0], MissedFirstStep[2]);
  }

  lemma MissedNoNeighbours()
    ensures DetectCollision(MissedSecondStep) == None
    ensures DetectCollision(MissedAfterTick) == None
  {
    assert MissedSecondStep[0] == MissedFirstStep[0] && MissedSecondStep[2] == MissedCarts[2];
    assert !HasAdjacentPair(MissedSecondStep);
    assert MissedAfterTick[0] == MissedFirstStep[0] && MissedAfterTick[1] == MissedSecondStep[1];
    assert !HasAdjacentPair(MissedAfterTick);
  }

  /** A step the scan passes continues the tick from the next cart. */
  lemma QuietStep(s: seq<Cart>, track: Track, i: nat, next: Cart, moved: seq<Cart>)
    requires i < |s| && AllUnit(s) && CanMove(s[i], track)
    requires next == Move(s[i], track) && moved == s[i := next]
    requires DetectCollision(moved) == None
    ensures AllUnit(moved)
    ensures FirstCollision.MoveEach(s, track, i) == FirstCollision.MoveEach(moved, track, i + 1)
  {
  }

  lemma MissedLastStep()
    ensures AllUnit(MissedSecondStep)
    ensures FirstCollision.MoveEach(MissedSecondStep, MissedTrack, 2) == FirstCollision.Ticked(MissedAfterTick)
  {
    MissedUnit();
    MissedMoves();
    MissedNoNeighbours();
    QuietStep(MissedSecondStep, MissedTrack, 2, MissedAfterTick[2], MissedAfterTick);
  }

  lemma MissedTickTail()
    ensures AllUnit(MissedFirstStep)
    ensures FirstCollision.MoveEach(MissedFirstStep, MissedTrack, 1) == FirstCollision.Ticked(MissedAfterTick)
  {
    MissedUnit();
    MissedMoves();
    MissedNoNeighbours();
    MissedLastStep();
    QuietStep(MissedFirstStep, MissedTrack, 1, MissedSecondStep[1], MissedSecondStep);
  }

  /** Before the tick's second step, cart 0 has landed on cart 2. */
  lemma MissedLanded()
    ensures AllUnit(MissedCarts) && FirstCollision.CanMoveFrom(MissedCarts, MissedTrack, 0)
    ensures FirstCollision.Fires(FirstCollision.Landing, MissedCarts, MissedTrack, 0, 0)
  {
    MissedUnit();
    MissedCanMove();
    var t := FirstCollision.Stage(MissedCarts, MissedTrack, 0, 1);
    assert t[0] == MissedFirstStep[0] by {
      MissedDownHolds();
    }
    assert t[2] == MissedCarts[2];
    assert SamePos(t[2], t[0]);
  }

  /** Every cart of the tick can take its step. */
  lemma MissedCanMove()
    ensures FirstCollision.CanMoveFrom(MissedCarts, MissedTrack, 0)
  {
    MissedMoves();
    forall n | 0 <= n < |MissedCarts|
      ensures CanMove(MissedCarts[n], MissedTrack)
    {
      if n == 1 {
        assert MissedCarts[1] == MissedFirstStep[1];
      } else if n == 2 {
        assert MissedCarts[2] == MissedSecondStep[2];
      }
    }
  }

  /**
   * The tick as written lets the pile-up at (0, 1) pass: it ends with every
   * cart moved, although the first step put a cart onto another.
   */
  lemma MissedByTick()
    ensures AllUnit(MissedCarts) && FirstCollision.CanMoveFrom(Sort(MissedCarts), MissedTrack, 0)
    ensures FirstCollision.Fires(FirstCollision.Landing, Sort(MissedCarts), MissedTrack, 0, 0)
    ensures FirstCollision.Tick(MissedCarts, MissedTrack) == FirstCollision.Ticked(MissedAfterTick)
    ensures FirstCollision.RunUntilCollision(MissedCarts, MissedTrack, 1) == FirstCollision.OutOfFuel
  {
    MissedUnit();
    SortMissed();
    MissedMoves();
    MissedScan();
    MissedTickTail();
    QuietStep(MissedCarts, MissedTrack, 0, MissedFirstStep[0], MissedFirstStep);
    MissedLanded();
  }

  /** A step that lands on another cart ends the checked tick with a crash where it landed. */
  lemma CheckedCatch(s: seq<Cart>, track: Track, i: nat, j: nat, moved: seq<Cart>)
    requires i < |s| && j < |s| && j != i && AllUnit(s) && CanMove(s[i], track)
    requires moved == s[i := Move(s[i], track)] && SamePos(moved[j], moved[i])
    ensures FirstCollision.MoveEachChecked(s, track, i) == FirstCollision.Crash(PosOf(moved[i]), moved)
  {
  }

  /** The intended check stops at the first step and reports (0, 1). */
  lemma CaughtByCheckedTick()
    ensures AllUnit(MissedCarts)
    ensures FirstCollision.TickChecked(MissedCarts, MissedTrack) == FirstCollision.Crash(Pos(0, 1), MissedFirstStep)
    ensures FirstCollision.RunUntilFirstCrash(MissedCarts, MissedTrack, 1) == FirstCollision.Collision(Pos(0, 1), MissedFirstStep)
  {
    MissedUnit();
    SortMissed();
    MissedMoves();
    assert MissedFirstStep[2] == MissedCarts[2];
    assert SamePos(MissedFirstStep[2], MissedFirstStep[0]);
    CheckedCatch(MissedCarts, MissedTrack, 0, 2, MissedFirstStep);
  }

  // ---------------------------------------------------------------------
  // The last survivor removed: two carts crash at (1, 0), and a third cart
  // that drives onto the wreck in the same tick is taken for one of them.
  // ---------------------------------------------------------------------

  /** Carts read from the rows ">-<" and " ^", with their track. */
  const PileTrack: Track := ["---", " |"]
  const PileCarts: seq<Cart> := [Cart(0, 0, East, TurnLeft), Cart(2, 0, West, TurnLeft), Cart(1, 1, North, TurnLeft)]

  /** The list after each cart's step in turn. */
  const PileFirst: seq<Cart> := PileCarts[0 := Cart(1, 0, East, TurnLeft)]
  const PileSecond: seq<Cart> := PileFirst[1 := Cart(1, 0, West, TurnLeft)]
  const PileThird: seq<Cart> := PileSecond[2 := Cart(1, 0, North, TurnLeft)]

  lemma PileUnit()
    ensures AllUnit(PileCarts) && AllUnit(PileFirst) && AllUnit(PileSecond) && AllUnit(PileThird)
  {
    ThreeUnit(Cart(0, 0, East, TurnLeft), Cart(2, 0, West, TurnLeft), Cart(1, 1, North, TurnLeft));
    UnitUpdate(PileCarts, 0, Cart(1, 0, East, TurnLeft));
    UnitUpdate(PileFirst, 1, Cart(1, 0, West, TurnLeft));
    UnitUpdate(PileSecond, 2, Cart(1, 0, North, TurnLeft));
  }

  lemma PileMoveFirst()
    ensures CanMove(PileCarts[0], PileTrack) && Move(PileCarts[0], PileTrack) == PileFirst[0]
  {
    assert PileCarts[0] == Cart(0, 0, East, TurnLeft);
    assert PileTrack[0] == "---" && PileTrack[0][1] == '-';
    PlainStep(PileCarts[0], PileTrack);
  }

  lemma PileMoveSecond()
    ensures CanMove(PileFirst[1], PileTrack) && Move(PileFirst[1], PileTrack) == PileSecond[1]
  {
    assert PileFirst[1] == PileCarts[1] == Cart(2, 0, West, TurnLeft);
    assert PileTrack[0] == "---" && PileTrack[0][1] == '-';
    PlainStep(PileFirst[1], PileTrack);
  }

  lemma PileMoveThird()
    ensures CanMove(PileSecond[2], PileTrack) && Move(PileSecond[2], PileTrack) == PileThird[2]
  {
    assert PileSecond[2] == PileFirst[2] == PileCarts[2] == Cart(1, 1, North, TurnLeft);
    assert PileTrack[0] == "---" && PileTrack[0][1] == '-';
    PlainStep(PileSecond[2], PileTrack);
  }

  /** A cart that is not collided and can step moves, and the inner scan runs from the start. */
  lemma PassMoves(m: LastSurvivor.Membership, carts: seq<Cart>, col: seq<nat>, track: Track, i: nat,
                  moved: seq<Cart>, col2: seq<nat>)
    requires AllUnit(carts) && LastSurvivor.IndicesIn(col, |carts|) && i < |carts|
    requires !LastSurvivor.IsCollided(m, carts, col, i) && CanMove(carts[i], track)
    requires moved == carts[i := Move(carts[i], track)]
    requires LastSurvivor.IndicesIn(col2, |carts|) && col2 == LastSurvivor.MarkCollisions(m, moved, col, i, 0)
    ensures AllUnit(moved)
    ensures LastSurvivor.Pass(m, carts, col, track, i) == LastSurvivor.Pass(m, moved, col2, track, i + 1)
  {
  }

  /** The positions after each step: the first two carts meet at (1, 0), and the third joins them. */
  lemma PilePositions()
    ensures PileFirst[1] == PileCarts[1] && PileFirst[2] == PileCarts[2] && PileSecond[2] == PileCarts[2]
    ensures PileSecond[0] == PileFirst[0] && PileThird[0] == PileFirst[0] && PileThird[1] == PileSecond[1]
    ensures !SamePos(PileFirst[0], PileFirst[1]) && !SamePos(PileFirst[0], PileFirst[2])
    ensures SamePos(PileSecond[0], PileSecond[1]) && !SamePos(PileSecond[2], PileSecond[1])
    ensures SamePos(PileThird[2], PileThird[0]) && SamePos(PileThird[2], PileThird[1])
  {
  }

  /** The inner scans of the tick: only the second step records a pair, the first two carts. */
  lemma PileScanFirst(m: LastSurvivor.Membership)
    ensures LastSurvivor.MarkCollisions(m, PileFirst, [], 0, 0) == []
  {
    PilePositions();
    assert LastSurvivor.MarkCollisions(m, PileFirst, [], 0, 2) == [];
    assert LastSurvivor.MarkCollisions(m, PileFirst, [], 0, 1) == [];
  }

  lemma PileScanSecond(m: LastSurvivor.Membership)
    ensures LastSurvivor.MarkCollisions(m, PileSecond, [], 1, 0) == [0, 1]
  {
    PilePositions();
    assert LastSurvivor.MarkCollisions(m, PileSecond, [0, 1], 1, 2) == [0, 1];
    assert LastSurvivor.MarkCollisions(m, PileSecond, [0, 1], 1, 1) == [0, 1];
    assert LastSurvivor.Pairs(m, PileSecond, [], 1, 0);
    assert [] + [0, 1] == [0, 1];
  }

  lemma PileScanThird(m: LastSurvivor.Membership)
    ensures LastSurvivor.MarkCollisions(m, PileThird, [0, 1], 2, 0) == [0, 1]
  {
    LastSurvivor.RecordedIsCollided(m, PileThird, [0, 1], 0);
    LastSurvivor.RecordedIsCollided(m, PileThird, [0, 1], 1);
    assert LastSurvivor.MarkCollisions(m, PileThird, [0, 1], 2, 2) == [0, 1];
    assert LastSurvivor.MarkCollisions(m, PileThird, [0, 1], 2, 1) == [0, 1];
  }

  lemma PilePassThird(m: LastSurvivor.Membership)
    ensures LastSurvivor.Pass(m, PileSecond, [0, 1], PileTrack, 2) == LastSurvivor.Passed(PileThird, [0, 1])
  {
    PileUnit();
    PileMoveThird();
    PileScanThird(m);
    PilePositions();
    assert !LastSurvivor.IsCollided(m, PileSecond, [0, 1], 2);
    PassMoves(m, PileSecond, [0, 1], PileTrack, 2, PileThird, [0, 1]);
  }

  lemma PilePassSecond(m: LastSurvivor.Membership)
    ensures LastSurvivor.Pass(m, PileFirst, [], PileTrack, 1) == LastSurvivor.Passed(PileThird, [0, 1])
  {
    PileUnit();
    PileMoveSecond();
    PileScanSecond(m);
    assert !LastSurvivor.IsCollided(m, PileFirst, [], 1);
    PassMoves(m, PileFirst, [], PileTrack, 1, PileSecond, [0, 1]);
    PilePassThird(m);
  }

  /** The pass of the tick, in either mode: every cart moves, and the first two are recorded. */
  lemma PilePass(m: LastSurvivor.Membership)
    ensures LastSurvivor.Pass(m, PileCarts, [], PileTrack, 0) == LastSurvivor.Passed(PileThird, [0, 1])
  {
    PileUnit();
    PileMoveFirst();
    PileScanFirst(m);
    assert !LastSurvivor.IsCollided(m, PileCarts, [], 0);
    PassMoves(m, PileCarts, [], PileTrack, 0, PileFirst, []);
    PilePassSecond(m);
  }

  /** By position, the third cart stands where a recorded cart stands and is removed with them. */
  lemma PileRemainingByPosition()
    ensures LastSurvivor.Remaining(LastSurvivor.ByPosition, PileThird, [0, 1], 0) == []
  {
    PilePositions();
    assert [0, 1][0] == 0;
    assert SamePos(PileThird[[0, 1][0]], PileThird[2]);
    assert LastSurvivor.IsCollided(LastSurvivor.ByPosition, PileThird, [0, 1], 2);
    assert LastSurvivor.Remaining(LastSurvivor.ByPosition, PileThird, [0, 1], 2) == [];
    assert LastSurvivor.Remaining(LastSurvivor.ByPosition, PileThird, [0, 1], 1) == [];
  }

  /** By identity, only the two recorded carts are removed. */
  lemma PileRemainingByIdentity()
    ensures LastSurvivor.Remaining(LastSurvivor.ByIdentity, PileThird, [0, 1], 0) == [PileThird[2]]
  {
    assert LastSurvivor.Remaining(LastSurvivor.ByIdentity, PileThird, [0, 1], 3) == [];
    assert LastSurvivor.Remaining(LastSurvivor.ByIdentity, PileThird, [0, 1], 2) == [PileThird[2]];
    assert LastSurvivor.Remaining(LastSurvivor.ByIdentity, PileThird, [0, 1], 1) == [PileThird[2]];
  }

  /**
   * As written, the run ends with no cart at all (the source then fails on
   * an empty list); with the identity test the third cart survives at (1, 0).
   */
  lemma PileRuns()
    ensures LastSurvivor.RunUntilLastCollision(LastSurvivor.ByPosition, PileCarts, PileTrack, 1) == LastSurvivor.NoSurvivor
    ensures LastSurvivor.RunUntilLastCollision(LastSurvivor.ByIdentity, PileCarts, PileTrack, 1) == LastSurvivor.Survivor(Pos(1, 0))
  {
    PileTickByPosition();
    PileTickByIdentity();
  }

  lemma PileTickByPosition()
    ensures LastSurvivor.SurvivorTick(LastSurvivor.ByPosition, PileCarts, PileTrack)
            == LastSurvivor.Survivors(PileThird, [0, 1], [])
  {
    PilePass(LastSurvivor.ByPosition);
    PileRemainingByPosition();
  }

  lemma PileTickByIdentity()
    ensures LastSurvivor.SurvivorTick(LastSurvivor.ByIdentity, PileCarts, PileTrack)
            == LastSurvivor.Survivors(PileThird, [0, 1], [PileThird[2]])
  {
    PilePass(LastSurvivor.ByIdentity);
    PileRemainingByIdentity();
    assert Sort([PileThird[2]]) == [PileThird[2]] by {
      assert [PileThird[2]][..0] == [];
    }
  }

  /** Two carts heading east along one short rail, the second at its east end. */
  const QueueTrack: Track := ["--"]
  const QueueCarts: seq<Cart> := [Cart(0, 0, East, TurnLeft), Cart(1, 0, East, TurnLeft)]

  /**
   * The second cart has no cell to step into, but the first cart runs into
   * it first, so it counts as collided when its turn comes and is skipped:
   * the tick stays on the grid. The first cart ends one step on, where it
   * crashed, and the second where it stood.
   */
  lemma QueueTick()
    ensures AllUnit(QueueCarts) && !CanMove(QueueCarts[1], QueueTrack)
    ensures LastSurvivor.SurvivorTick(LastSurvivor.ByPosition, QueueCarts, QueueTrack).Survivors?
    ensures LastSurvivor.SurvivorTick(LastSurvivor.ByPosition, QueueCarts, QueueTrack).moved
            == [Cart(1, 0, East, TurnLeft), Cart(1, 0, East, TurnLeft)]
  {
    var m := LastSurvivor.ByPosition;
    QueueStaysOnGrid();
    QueueFirstTurn();
    LastSurvivor.TickTakesTurns(m, QueueCarts, QueueTrack);
    var r := LastSurvivor.SurvivorTick(m, QueueCarts, QueueTrack);
    assert LastSurvivor.TurnOutcome(m, QueueCarts, [], QueueTrack, 0, 0, r.moved[0]);
    assert LastSurvivor.TurnOutcome(m, QueueCarts, [], QueueTrack, 0, 1, r.moved[1]);
  }

  /** Neither cart takes the tick off the grid: the first can move, and the second is collided at its turn. */
  lemma QueueStaysOnGrid()
    ensures AllUnit(QueueCarts)
    ensures LastSurvivor.SurvivorTick(LastSurvivor.ByPosition, QueueCarts, QueueTrack).Survivors?
  {
    var m := LastSurvivor.ByPosition;
    QueueFirstTurn();
    var moved := QueueCarts[0 := Cart(1, 0, East, TurnLeft)];
    assert SamePos(moved[[1, 0][0]], moved[1]);
    assert !LastSurvivor.LeavesGridAt(m, QueueCarts, [], QueueTrack, 0, 0);
    assert !LastSurvivor.LeavesGridAt(m, QueueCarts, [], QueueTrack, 0, 1);
    assert forall k: nat :: k < |QueueCarts| ==> !LastSurvivor.LeavesGridAt(m, QueueCarts, [], QueueTrack, 0, k) by {
      forall k: nat | k < |QueueCarts| ensures !LastSurvivor.LeavesGridAt(m, QueueCarts, [], QueueTrack, 0, k) {
        assert k == 0 || k == 1;
      }
    }
    LastSurvivor.TickOffTrackIff(m, QueueCarts, QueueTrack);
    assert !LastSurvivor.SurvivorTick(m, QueueCarts, QueueTrack).TickOffTrack?;
  }

  /** The first cart's turn: it steps onto the second cart's cell, and the scan records the two. */
  lemma QueueFirstTurn()
    ensures AllUnit(QueueCarts) && !CanMove(QueueCarts[1], QueueTrack)
    ensures CanMove(QueueCarts[0], QueueTrack)
    ensures LastSurvivor.Turns(LastSurvivor.ByPosition, QueueCarts, [], QueueTrack, 0, 1)
            == LastSurvivor.Passed(QueueCarts[0 := Cart(1, 0, East, TurnLeft)], [1, 0])
  {
    var m := LastSurvivor.ByPosition;
    assert QueueTrack[0] == "--" && QueueTrack[0][1] == '-';
    PlainStep(QueueCarts[0], QueueTrack);
    var moved := QueueCarts[0 := Cart(1, 0, East, TurnLeft)];
    assert LastSurvivor.Pairs(m, moved, [], 0, 1);
    assert LastSurvivor.MarkCollisions(m, moved, [], 0, 0) == LastSurvivor.MarkCollisions(m, moved, [], 0, 1)
        == LastSurvivor.MarkCollisions(m, moved, [1, 0], 0, 2) == [1, 0];
    assert LastSurvivor.Turns(m, QueueCarts, [], QueueTrack, 0, 1)
        == LastSurvivor.Then(m, LastSurvivor.Passed(QueueCarts, []), QueueTrack, 0)
        == LastSurvivor.Passed(moved, [1, 0]);
  }
}
