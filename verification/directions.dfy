/**
 * Direction algebra of the mine-cart simulation: velocity vectors, the three
 * turn rules, the symbol <-> velocity tables and the curve mirror table.
 * The grid's y axis grows downwards, so "north" is (0, -1).
 */
module Directions {

  /** A velocity (dx, dy); a cart's velocity is always one of the four unit vectors. */
  datatype Vec = Vec(dx: int, dy: int)

  /** Squared length: the dot product of a velocity with itself. */
  function Norm2(v: Vec): int {
    v.dx * v.dx + v.dy * v.dy
  }

  /** The dot product of two velocities. */
  function Dot(v: Vec, w: Vec): int {
    v.dx * w.dx + v.dy * w.dy
  }

  /** The z part of the cross product; negative when w points anticlockwise of v on screen. */
  function Cross(v: Vec, w: Vec): int {
    v.dx * w.dy - v.dy * w.dx
  }

  /** Turn left: (i, j) -> (j, -i). */
  function Left(v: Vec): Vec {
    Vec(v.dy, -v.dx)
  }

  /** Turn right: (i, j) -> (-j, i). */
  function Right(v: Vec): Vec {
    Vec(-v.dy, v.dx)
  }

  /** Go straight on. */
  function Straight(v: Vec): Vec {
    v
  }

  /**
   * The geometry of the three turn rules. With y growing downwards, a left
   * turn is a quarter turn anticlockwise as drawn: the result is
   * perpendicular, as long, and on the left-hand side (negative cross
   * product). A right turn is the same on the right-hand side, and going
   * straight keeps a parallel velocity pointing the same way.
   */
  lemma TurnGeometry(v: Vec)
    ensures Dot(v, Left(v)) == 0 && Norm2(Left(v)) == Norm2(v) && Cross(v, Left(v)) == -Norm2(v)
    ensures Dot(v, Right(v)) == 0 && Norm2(Right(v)) == Norm2(v) && Cross(v, Right(v)) == Norm2(v)
    ensures Cross(v, Straight(v)) == 0 && Dot(v, Straight(v)) == Norm2(v)
  {
  }

  /** A non-zero v fixes w from the dot and cross products of v with w. */
  lemma {:induction false} Unique(v: Vec, w: Vec, t: Vec)
    requires v != Vec(0, 0)
    requires Dot(v, w) == Dot(v, t) && Cross(v, w) == Cross(v, t)
    ensures w == t
  {
    var n := Norm2(v);
    var a, b := w.dx - t.dx, w.dy - t.dy;
    assert n > 0 by {
      if v.dx != 0 { assert v.dx * v.dx > 0; } else { assert v.dy * v.dy > 0; }
    }
    assert v.dx * a + v.dy * b == Dot(v, w) - Dot(v, t) == 0;
    assert v.dx * b - v.dy * a == Cross(v, w) - Cross(v, t) == 0;
    assert n * a == v.dx * (v.dx * a + v.dy * b) - v.dy * (v.dx * b - v.dy * a);
    assert n * b == v.dy * (v.dx * a + v.dy * b) + v.dx * (v.dx * b - v.dy * a);
  }

  /**
   * The conditions of TurnGeometry each pin down one velocity: for a
   * non-zero v they hold of Left(v), Right(v) and Straight(v) and of
   * nothing else.
   */
  lemma TurnsDetermined(v: Vec, w: Vec)
    requires v != Vec(0, 0)
    ensures Dot(v, w) == 0 && Cross(v, w) == -Norm2(v) <==> w == Left(v)
    ensures Dot(v, w) == 0 && Cross(v, w) == Norm2(v) <==> w == Right(v)
    ensures Cross(v, w) == 0 && Dot(v, w) == Norm2(v) <==> w == Straight(v)
  {
    TurnGeometry(v);
    if Dot(v, w) == 0 && Cross(v, w) == -Norm2(v) {
      Unique(v, w, Left(v));
    }
    if Dot(v, w) == 0 && Cross(v, w) == Norm2(v) {
      Unique(v, w, Right(v));
    }
    if Cross(v, w) == 0 && Dot(v, w) == Norm2(v) {
      Unique(v, w, Straight(v));
    }
  }

  /** The opposite velocity. */
  function Reverse(v: Vec): Vec {
    Vec(-v.dx, -v.dy)
  }

  /** The four unit directions north, south, east and west. */
  predicate IsUnit(v: Vec) {
    || (v.dx == 0 && (v.dy == 1 || v.dy == -1))
    || (v.dy == 0 && (v.dx == 1 || v.dx == -1))
  }

  /** The characters that mark a cart in the input. */
  const Markers: string := "<>^v"

  predicate IsMarker(s: char) {
    s in Markers
  }

  /** The two curve characters. */
  predicate IsCurve(s: char) {
    s == '/' || s == '\\'
  }

  /** Velocity of a cart drawn with a given marker. */
  const SymbolToSpeed: map<char, Vec> := map[
    '>' := Vec(1, 0),
    '<' := Vec(-1, 0),
    '^' := Vec(0, -1),
    'v' := Vec(0, 1)
  ]

  /** Marker drawn for a given velocity: the inverse of SymbolToSpeed. */
  const SpeedToSymbol: map<Vec, char> := map[
    Vec(1, 0) := '>',
    Vec(-1, 0) := '<',
    Vec(0, -1) := '^',
    Vec(0, 1) := 'v'
  ]

  /** Direction marker after passing a curve, keyed by (marker before, curve). */
  const CurveTransitions: map<(char, char), char> := map[
    ('>', '/') := '^',
    ('>', '\\') := 'v',
    ('^', '/') := '>',
    ('^', '\\') := '<',
    ('<', '/') := 'v',
    ('<', '\\') := '^',
    ('v', '/') := '<',
    ('v', '\\') := '>'
  ]

  // ---------------------------------------------------------------------
  // Rotation laws
  // ---------------------------------------------------------------------

  /** Left and right undo each other, and straight changes nothing. */
  lemma TurnsInverse(v: Vec)
    ensures Right(Left(v)) == v
    ensures Left(Right(v)) == v
    ensures Straight(v) == v
  {
  }

  /** Four quarter turns in the same sense are the identity; two are a U-turn. */
  lemma FourTurnsIdentity(v: Vec)
    ensures Left(Left(v)) == Reverse(v) == Right(Right(v))
    ensures Left(Left(Left(Left(v)))) == v
    ensures Right(Right(Right(Right(v)))) == v
  {
  }

  /** The unit directions are exactly the four axis vectors. */
  lemma UnitCases(v: Vec)
    ensures IsUnit(v) <==> v == Vec(1, 0) || v == Vec(-1, 0) || v == Vec(0, -1) || v == Vec(0, 1)
  {
  }

  /** Left and right map the unit directions onto the unit directions. */
  lemma TurnsPermuteUnits(v: Vec)
    ensures IsUnit(Left(v)) <==> IsUnit(v)
    ensures IsUnit(Right(v)) <==> IsUnit(v)
    ensures IsUnit(v) ==> Left(v) != v && Right(v) != v && Left(v) != Right(v)
  {
    UnitCases(v);
    UnitCases(Left(v));
    UnitCases(Right(v));
  }

  /** Every unit direction is reached by a left (and a right) turn from a unit direction. */
  lemma TurnsOntoUnits(u: Vec)
    requires IsUnit(u)
    ensures exists v :: IsUnit(v) && Left(v) == u
    ensures exists v :: IsUnit(v) && Right(v) == u
  {
    var r, l := Right(u), Left(u);
    TurnsPermuteUnits(u);
    TurnsInverse(u);
    assert IsUnit(r) && Left(r) == u;
    assert IsUnit(l) && Right(l) == u;
  }

  // ---------------------------------------------------------------------
  // The symbol tables
  // ---------------------------------------------------------------------

  /** The keys of SymbolToSpeed are exactly the markers, its values exactly the unit vectors. */
  lemma SymbolTableDomain(s: char, v: Vec)
    ensures s in SymbolToSpeed <==> IsMarker(s)
    ensures v in SpeedToSymbol <==> IsUnit(v)
    ensures IsMarker(s) ==> IsUnit(SymbolToSpeed[s])
  {
  }

  /** SpeedToSymbol is the inverse of SymbolToSpeed, in both directions. */
  lemma SymbolTablesInverse(s: char, v: Vec)
    ensures IsMarker(s) ==> SymbolToSpeed[s] in SpeedToSymbol && SpeedToSymbol[SymbolToSpeed[s]] == s
    ensures IsUnit(v) ==> SpeedToSymbol[v] in SymbolToSpeed && SymbolToSpeed[SpeedToSymbol[v]] == v
  {
  }

  // ---------------------------------------------------------------------
  // The curve table
  // ---------------------------------------------------------------------

  /** The curve table is defined on exactly the eight (marker, curve) pairs, and yields markers. */
  lemma CurveTableDomain(s: char, k: char)
    ensures (s, k) in CurveTransitions <==> IsMarker(s) && IsCurve(k)
    ensures (s, k) in CurveTransitions ==> IsMarker(CurveTransitions[(s, k)])
  {
  }

  /** Passing the same curve twice restores the marker: each curve's table is an involution. */
  lemma CurveInvolution(s: char, k: char)
    requires IsMarker(s) && IsCurve(k)
    ensures (CurveTransitions[(s, k)], k) in CurveTransitions
    ensures CurveTransitions[(CurveTransitions[(s, k)], k)] == s
  {
  }

  /** For a fixed curve, distinct markers go to distinct markers, and every marker is hit. */
  lemma CurveBijection(s: char, t: char, k: char)
    requires IsMarker(s) && IsMarker(t) && IsCurve(k)
    ensures CurveTransitions[(s, k)] == CurveTransitions[(t, k)] ==> s == t
    ensures exists p :: IsMarker(p) && CurveTransitions[(p, k)] == t
  {
    CurveInvolution(s, k);
    CurveInvolution(t, k);
    var p := CurveTransitions[(t, k)];
    CurveTableDomain(t, k);
    assert IsMarker(p) && CurveTransitions[(p, k)] == t;
  }

  /**
   * The velocity after a curve, read through the three tables: the
   * symbol of the current velocity, the curve entry, and its velocity.
   */
  function CurveTurn(v: Vec, curve: char): (r: Vec)
    requires IsUnit(v) && IsCurve(curve)
    ensures IsUnit(r)
    ensures r == (if (curve == '/') == (v.dy == 0) then Left(v) else Right(v))
  {
    SymbolToSpeed[CurveTransitions[(SpeedToSymbol[v], curve)]]
  }

  /** A curve is reversible: driving back through it undoes the turn. */
  lemma CurveReversible(v: Vec, curve: char)
    requires IsUnit(v) && IsCurve(curve)
    ensures CurveTurn(Reverse(CurveTurn(v, curve)), curve) == Reverse(v)
  {
  }
}
