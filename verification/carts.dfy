/**
 * The per-cart state machine: a cart's position, velocity and turn cycle,
 * one movement step over the track, and the positional equality and
 * (y, x) ordering that the drivers use.
 */
module Carts {
  import opened Directions

  /** The track grid, indexed as track[y][x]. */
  type Track = seq<seq<char>>

  /** A value that may be missing, as the source's None. */
  datatype Option<T> = None | Some(value: T)

  /** A grid coordinate (x, y), the value both drivers report. */
  datatype Pos = Pos(x: int, y: int)

  /**
   * The turn a cart makes at its next intersection. The source keeps the
   * three turn rules in a rotating queue; this is the queue's head.
   */
  datatype Turn = TurnLeft | TurnStraight | TurnRight

  /** The queue after rotating its head to the back: left -> straight -> right -> left. */
  function Next(t: Turn): Turn {
    match t
    case TurnLeft => TurnStraight
    case TurnStraight => TurnRight
    case TurnRight => TurnLeft
  }

  /** The rotation a turn rule applies to a velocity. */
  function Apply(t: Turn, v: Vec): Vec {
    match t
    case TurnLeft => Left(v)
    case TurnStraight => Straight(v)
    case TurnRight => Right(v)
  }

  datatype Cart = Cart(x: int, y: int, v: Vec, nextTurn: Turn)

  /** Carts whose velocity is one of the four directions, as every created cart's is. */
  predicate AllUnit(carts: seq<Cart>) {
    forall k :: 0 <= k < |carts| ==> IsUnit(carts[k].v)
  }

  function PosOf(c: Cart): Pos {
    Pos(c.x, c.y)
  }

  /** A new cart drawn with a marker: it heads the marker's way and turns left first. */
  function NewCart(x: int, y: int, symbol: char): (c: Cart)
    requires IsMarker(symbol)
    ensures PosOf(c) == Pos(x, y)
    ensures IsUnit(c.v) && SpeedToSymbol[c.v] == symbol
    ensures c.nextTurn == TurnLeft
  {
    Cart(x, y, SymbolToSpeed[symbol], TurnLeft)
  }

  /** Crossing an intersection: turn by the head rule, then rotate the rules. */
  function HandleIntersect(c: Cart): (r: Cart)
    ensures PosOf(r) == PosOf(c)
    ensures IsUnit(r.v) <==> IsUnit(c.v)
    ensures r.nextTurn != c.nextTurn
    ensures c.nextTurn == TurnLeft ==> r.v == Left(c.v) && r.nextTurn == TurnStraight
    ensures c.nextTurn == TurnStraight ==> r.v == c.v && r.nextTurn == TurnRight
    ensures c.nextTurn == TurnRight ==> r.v == Right(c.v) && r.nextTurn == TurnLeft
  {
    c.(v := Apply(c.nextTurn, c.v), nextTurn := Next(c.nextTurn))
  }

  /** Passing a curve: look the new direction up in the mirror table. */
  function HandleCurve(c: Cart, curve: char): (r: Cart)
    requires IsUnit(c.v) && IsCurve(curve)
    ensures PosOf(r) == PosOf(c) && r.nextTurn == c.nextTurn
    ensures IsUnit(r.v) && r.v != c.v && r.v != Reverse(c.v)
    ensures r.v == (if (curve == '/') == (c.v.dy == 0) then Left(c.v) else Right(c.v))
  {
    TurnsPermuteUnits(c.v);
    c.(v := CurveTurn(c.v, curve))
  }

  /** Every cell of the grid, as an (x, y) position. */
  function Cells(track: Track): (r: set<Pos>)
    ensures forall x, y :: Pos(x, y) in r <==> 0 <= y < |track| && 0 <= x < |track[y]|
  {
    set y, x | 0 <= y < |track| && 0 <= x < |track[y]| :: Pos(x, y)
  }

  /** The cell a cart steps into lies on the grid. */
  predicate CanMove(c: Cart, track: Track) {
    && 0 <= c.y + c.v.dy < |track|
    && 0 <= c.x + c.v.dx < |track[c.y + c.v.dy]|
  }

  /**
   * A step is allowed exactly when the cell it enters is one of the grid's
   * cells, so that reading `track[y][x]` there neither fails nor wraps round.
   */
  lemma CanMoveOnGrid(c: Cart, track: Track)
    ensures CanMove(c, track) <==> Pos(c.x + c.v.dx, c.y + c.v.dy) in Cells(track)
  {
  }

  /** One step: advance by the velocity, then react to the cell landed on. */
  function Move(c: Cart, track: Track): (r: Cart)
    requires IsUnit(c.v) && CanMove(c, track)
    ensures r.x == c.x + c.v.dx && r.y == c.y + c.v.dy
    ensures IsUnit(r.v)
    ensures var cell := track[r.y][r.x];
            && (!IsCurve(cell) && cell != '+' ==> r.v == c.v)
            && (cell != '+' ==> r.nextTurn == c.nextTurn)
            && (cell == '+' ==> r.nextTurn == Next(c.nextTurn) && r.v == Apply(c.nextTurn, c.v))
            && (IsCurve(cell) ==> r.v == CurveTurn(c.v, cell))
  {
    var moved := c.(x := c.x + c.v.dx, y := c.y + c.v.dy);
    var cell := track[moved.y][moved.x];
    if cell == '\\' || cell == '/' then HandleCurve(moved, cell)
    else if cell == '+' then HandleIntersect(moved)
    else moved
  }

  /** Three intersections in a row bring both the turn rule and the heading back. */
  lemma ThreeIntersections(c: Cart)
    ensures HandleIntersect(HandleIntersect(HandleIntersect(c))) == c
  {
    TurnsInverse(c.v);
  }

  /** The turn rule cycles with period exactly three. */
  lemma TurnPeriod(t: Turn)
    ensures Next(Next(Next(t))) == t
    ensures Next(t) != t && Next(Next(t)) != t
  {
  }

  // ---------------------------------------------------------------------
  // Equality and ordering
  // ---------------------------------------------------------------------

  /** The source's cart equality: same coordinates, whatever the heading. */
  predicate SamePos(a: Cart, b: Cart) {
    a.x == b.x && a.y == b.y
  }

  /** The source's cart order: by row, then by column. */
  predicate Less(a: Cart, b: Cart) {
    a.y < b.y || (a.y == b.y && a.x < b.x)
  }

  /** Less is a strict total order on positions, and SamePos is its incomparability. */
  lemma LessIsStrictTotalOrder(a: Cart, b: Cart, c: Cart)
    ensures !Less(a, a)
    ensures Less(a, b) ==> !Less(b, a)
    ensures Less(a, b) && Less(b, c) ==> Less(a, c)
    ensures SamePos(a, b) <==> !Less(a, b) && !Less(b, a)
    ensures SamePos(a, b) <==> PosOf(a) == PosOf(b)
  {
  }
}
