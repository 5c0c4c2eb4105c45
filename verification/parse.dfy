/**
 * Parsing the input rows: every cart marker becomes a cart, and the marker's
 * cell becomes the straight rail underneath it. Rows arrive already split,
 * without their line terminators.
 */
module Parse {
  import opened Directions
  import opened Carts
  import opened Ordering

  /** The carts found in the input, in reading order, and the track without them. */
  datatype Parsed = Parsed(carts: seq<Cart>, track: Track)

  /** The characters Python's str.strip() removes. */
  const Whitespace: string := " \t\n\r\U{B}\U{C}\U{1C}\U{1D}\U{1E}\U{1F}\U{85}\U{A0}\U{1680}"
    + "\U{2000}\U{2001}\U{2002}\U{2003}\U{2004}\U{2005}\U{2006}\U{2007}\U{2008}\U{2009}\U{200A}"
    + "\U{2028}\U{2029}\U{202F}\U{205F}\U{3000}"

  /** A row made only of whitespace; such rows are skipped and take no row number. */
  predicate IsBlank(row: string) {
    forall k :: 0 <= k < |row| ==> row[k] in Whitespace
  }

  /** str.lstrip(): drop leading whitespace. What is dropped is blank, and what is left starts with a non-blank. */
  function TrimStart(s: string): (r: string)
    ensures |r| <= |s| && r == s[|s| - |r|..]
    ensures IsBlank(s[..|s| - |r|])
    ensures |r| > 0 ==> r[0] !in Whitespace
  {
    if |s| > 0 && s[0] in Whitespace then
      var r := TrimStart(s[1..]);
      TrimStartLift(s, r);
      r
    else s
  }

  /** The recursive step of TrimStart: a blank first character joins the dropped part. */
  lemma TrimStartLift(s: string, r: string)
    requires |s| > 0 && s[0] in Whitespace
    requires |r| <= |s| - 1 && r == s[1..][|s| - 1 - |r|..]
    requires IsBlank(s[1..][..|s| - 1 - |r|])
    ensures r == s[|s| - |r|..]
    ensures IsBlank(s[..|s| - |r|])
  {
    var d := s[..|s| - |r|];
    forall k | 0 <= k < |d|
      ensures d[k] in Whitespace
    {
      if k > 0 {
        assert d[k] == s[1..][..|s| - 1 - |r|][k - 1];
      }
    }
  }

  /** str.rstrip(): drop trailing whitespace. What is dropped is blank, and what is left ends with a non-blank. */
  function TrimEnd(s: string): (r: string)
    ensures |r| <= |s| && r == s[..|r|]
    ensures IsBlank(s[|r|..])
    ensures |r| > 0 ==> r[|r| - 1] !in Whitespace
  {
    if |s| > 0 && s[|s| - 1] in Whitespace then
      var r := TrimEnd(s[..|s| - 1]);
      TrimEndLift(s, r);
      r
    else s
  }

  /** The recursive step of TrimEnd: a blank last character joins the dropped part. */
  lemma TrimEndLift(s: string, r: string)
    requires |s| > 0 && s[|s| - 1] in Whitespace
    requires |r| <= |s| - 1 && r == s[..|s| - 1][..|r|]
    requires IsBlank(s[..|s| - 1][|r|..])
    ensures r == s[..|r|]
    ensures IsBlank(s[|r|..])
  {
    var d := s[|r|..];
    forall k | 0 <= k < |d|
      ensures d[k] in Whitespace
    {
      if k < |d| - 1 {
        assert d[k] == s[..|s| - 1][|r|..][k];
      }
    }
  }

  /** str.strip(): whitespace dropped from both ends. */
  function Strip(s: string): string {
    TrimEnd(TrimStart(s))
  }

  /** The source keeps a row exactly when `l.strip()` is a non-empty string. */
  lemma {:induction false} BlankIffStripsEmpty(row: string)
    ensures IsBlank(row) <==> Strip(row) == ""
  {
    var t := TrimStart(row);
    if t == "" {
      assert row[..|row|] == row;
    } else {
      assert row[|row| - |t|] == t[0];
    }
  }

  /** The rail a cart with velocity v stands on when it is read from the input. */
  function RailFor(v: Vec): char {
    if v.dy == 0 then '-' else '|'
  }

  /**
   * The rail under a cell. A marker stands on the straight rail along its
   * velocity's axis; any other character is its own rail.
   */
  function Rail(s: char): (r: char)
    ensures !IsMarker(r)
    ensures r == s <==> !IsMarker(s)
    ensures IsMarker(s) ==> r == RailFor(SymbolToSpeed[s]) && (r == '-' || r == '|')
  {
    if IsMarker(s) then (if s == '<' || s == '>' then '-' else '|') else s
  }

  /** A row with every marker replaced by its rail. */
  function RowRails(row: string): (r: string)
    ensures |r| == |row|
    ensures forall k :: 0 <= k < |row| ==> r[k] == Rail(row[k])
  {
    seq(|row|, k requires 0 <= k < |row| => Rail(row[k]))
  }

  /** c is the cart read from a marker of row y at column x or later. */
  predicate ReadFrom(c: Cart, row: string, y: int, x: nat) {
    && c.y == y && x <= c.x < |row|
    && IsMarker(row[c.x]) && c == NewCart(c.x, y, row[c.x])
    && IsUnit(c.v)
  }

  /** Some cart of the list stands at column j. */
  predicate HasCartAt(s: seq<Cart>, j: int) {
    exists k :: 0 <= k < |s| && s[k].x == j
  }

  /**
   * The carts of row y drawn at columns x onwards, left to right: one per
   * marker, at the marker's column, heading the marker's way.
   */
  function RowCarts(row: string, y: int, x: nat): (r: seq<Cart>)
    requires x <= |row|
    decreases |row| - x
    ensures forall k :: 0 <= k < |r| ==> ReadFrom(r[k], row, y, x)
    ensures forall j :: x <= j < |row| && IsMarker(row[j]) ==> HasCartAt(r, j)
    ensures forall a, b :: 0 <= a < b < |r| ==> r[a].x < r[b].x
  {
    if x == |row| then []
    else
      var rest := RowCarts(row, y, x + 1);
      if IsMarker(row[x]) then
        var r := [NewCart(x, y, row[x])] + rest;
        RowCartsCons(row, y, x, rest, r);
        r
      else rest
  }

  /** A marker at column x put in front of the carts read from x + 1 onwards. */
  lemma RowCartsCons(row: string, y: int, x: nat, rest: seq<Cart>, r: seq<Cart>)
    requires x < |row| && IsMarker(row[x])
    requires forall k :: 0 <= k < |rest| ==> ReadFrom(rest[k], row, y, x + 1)
    requires forall j :: x + 1 <= j < |row| && IsMarker(row[j]) ==> HasCartAt(rest, j)
    requires forall a, b :: 0 <= a < b < |rest| ==> rest[a].x < rest[b].x
    requires r == [NewCart(x, y, row[x])] + rest
    ensures forall k :: 0 <= k < |r| ==> ReadFrom(r[k], row, y, x)
    ensures forall j :: x <= j < |row| && IsMarker(row[j]) ==> HasCartAt(r, j)
    ensures forall a, b :: 0 <= a < b < |r| ==> r[a].x < r[b].x
  {
    assert forall k :: 1 <= k < |r| ==> r[k] == rest[k - 1];
    forall j | x <= j < |row| && IsMarker(row[j])
      ensures HasCartAt(r, j)
    {
      if j == x {
        assert r[0].x == j;
      } else {
        var k :| 0 <= k < |rest| && rest[k].x == j;
        assert r[k + 1].x == j;
      }
    }
  }

  /** Carts with velocities drawn over a row: each cart's marker at its column. */
  function Overlay(rails: string, carts: seq<Cart>): (r: string)
    requires forall k :: 0 <= k < |carts| ==> 0 <= carts[k].x < |rails| && IsUnit(carts[k].v)
    ensures |r| == |rails|
    decreases |carts|
  {
    if |carts| == 0 then rails
    else
      SymbolTableDomain(' ', carts[0].v);
      Overlay(rails[carts[0].x := SpeedToSymbol[carts[0].v]], carts[1..])
  }

  /**
   * Parsing a row loses nothing: drawing its carts back over its rails gives
   * the row again.
   */
  lemma ParseRowRoundTrip(row: string, y: int)
    ensures Overlay(RowRails(row), RowCarts(row, y, 0)) == row
  {
    RoundTripFrom(row, y, 0);
    assert row[..0] + RowRails(row)[0..] == RowRails(row);
  }

  lemma {:induction false} RoundTripFrom(row: string, y: int, x: nat)
    requires x <= |row|
    decreases |row| - x
    ensures Overlay(row[..x] + RowRails(row)[x..], RowCarts(row, y, x)) == row
  {
    var rails := RowRails(row);
    if x == |row| {
      assert row[..x] + rails[x..] == row;
    } else {
      RoundTripFrom(row, y, x + 1);
      SplitStep(row, rails, x);
      if IsMarker(row[x]) {
        var c := NewCart(x, y, row[x]);
        SymbolTablesInverse(row[x], c.v);
        OverlayCons(row[..x] + rails[x..], c, RowCarts(row, y, x + 1));
      } else {
        assert rails[x] == row[x];
      }
    }
  }

  /** Drawing a list whose head is c: c's marker first, then the rest. */
  lemma OverlayCons(s: string, c: Cart, rest: seq<Cart>)
    requires 0 <= c.x < |s| && IsUnit(c.v)
    requires forall k :: 0 <= k < |rest| ==> 0 <= rest[k].x < |s| && IsUnit(rest[k].v)
    ensures Overlay(s, [c] + rest) == Overlay(s[c.x := SpeedToSymbol[c.v]], rest)
  {
    SymbolTableDomain(' ', c.v);
    assert ([c] + rest)[0] == c && ([c] + rest)[1..] == rest;
  }

  /** Restoring the cell at x moves the boundary between row and rails one column on. */
  lemma SplitStep(row: string, rails: string, x: nat)
    requires x < |row| == |rails|
    ensures (row[..x] + rails[x..])[x := row[x]] == row[..x + 1] + rails[x + 1..]
    ensures rails[x] == row[x] ==> row[..x] + rails[x..] == row[..x + 1] + rails[x + 1..]
  {
  }

  /** No marker is left on the rails, so reading them again finds no cart. */
  lemma RailsHaveNoCarts(row: string, y: int, x: nat)
    requires x <= |row|
    ensures forall k :: 0 <= k < |row| ==> !IsMarker(RowRails(row)[k])
    ensures RowCarts(RowRails(row), y, x) == []
  {
    var rails := RowRails(row);
    forall k | 0 <= k < |row|
      ensures !IsMarker(rails[k])
    {
      if IsMarker(row[k]) {
        assert Rail(row[k]) == RailFor(SymbolToSpeed[row[k]]);
      }
    }
    NoMarkersNoCarts(rails, y, x);
  }

  lemma {:induction false} NoMarkersNoCarts(row: string, y: int, x: nat)
    requires x <= |row|
    requires forall k :: 0 <= k < |row| ==> !IsMarker(row[k])
    decreases |row| - x
    ensures RowCarts(row, y, x) == []
  {
    if x < |row| {
      NoMarkersNoCarts(row, y, x + 1);
    }
  }

  /** The rows that do not strip to nothing, in order. */
  function NonBlank(lines: seq<string>): (r: seq<string>)
    ensures |r| <= |lines|
    ensures forall k :: 0 <= k < |r| ==> !IsBlank(r[k])
  {
    if |lines| == 0 then []
    else if IsBlank(lines[0]) then NonBlank(lines[1..])
    else [lines[0]] + NonBlank(lines[1..])
  }

  /** A row is among the non-blank rows exactly when it is a row of the input that is not blank. */
  lemma {:induction false} NonBlankMembers(lines: seq<string>)
    decreases |lines|
    ensures forall x :: x in NonBlank(lines) <==> x in lines && !IsBlank(x)
  {
    if |lines| > 0 {
      NonBlankMembers(lines[1..]);
      assert forall x :: x in lines <==> x == lines[0] || x in lines[1..];
    }
  }

  /**
   * NonBlank is a filter: the non-blank rows of two blocks of rows are
   * those of the first block followed by those of the second.
   */
  lemma {:induction false} NonBlankAppend(a: seq<string>, b: seq<string>)
    decreases |a|
    ensures NonBlank(a + b) == NonBlank(a) + NonBlank(b)
  {
    if |a| == 0 {
      assert a + b == b;
    } else {
      var ab := a + b;
      assert ab[0] == a[0];
      assert ab[1..] == a[1..] + b;
      NonBlankAppend(a[1..], b);
      var head := if IsBlank(a[0]) then [] else [a[0]];
      assert NonBlank(ab) == head + NonBlank(a[1..] + b);
      assert NonBlank(a) == head + NonBlank(a[1..]);
      assert head + (NonBlank(a[1..]) + NonBlank(b)) == (head + NonBlank(a[1..])) + NonBlank(b);
    }
  }

  /** A single row is kept exactly when it is not blank. */
  lemma NonBlankOne(row: string)
    ensures NonBlank([row]) == (if IsBlank(row) then [] else [row])
  {
    assert [row][1..] == [];
  }

  /**
   * c is a freshly read cart of a track whose first row is row y: it heads
   * along the rail it stands on and turns left at its first intersection.
   */
  predicate OnTrack(c: Cart, track: Track, y: int) {
    && IsUnit(c.v) && c.nextTurn == TurnLeft
    && y <= c.y < y + |track|
    && 0 <= c.x < |track[c.y - y]|
    && track[c.y - y][c.x] == RailFor(c.v)
  }

  /** The carts of s that stand on row y, in list order. */
  function OnRow(s: seq<Cart>, y: int): (r: seq<Cart>)
    ensures |r| <= |s|
    ensures forall k :: 0 <= k < |r| ==> r[k].y == y && r[k] in s
  {
    if |s| == 0 then []
    else
      var rest := OnRow(s[1..], y);
      if s[0].y == y then [s[0]] + rest else rest
  }

  /** Picking a row's carts out of two lists one after the other. */
  lemma {:induction false} OnRowAppend(a: seq<Cart>, b: seq<Cart>, y: int)
    decreases |a|
    ensures OnRow(a + b, y) == OnRow(a, y) + OnRow(b, y)
  {
    if |a| == 0 {
      assert a + b == b;
    } else {
      OnRowAppend(a[1..], b, y);
      assert (a + b)[0] == a[0] && (a + b)[1..] == a[1..] + b;
    }
  }

  /** A list all on row y is its own row. */
  lemma {:induction false} OnRowAll(s: seq<Cart>, y: int)
    requires forall k :: 0 <= k < |s| ==> s[k].y == y
    decreases |s|
    ensures OnRow(s, y) == s
  {
    if |s| > 0 {
      assert forall k :: 1 <= k < |s| ==> s[1..][k - 1] == s[k];
      OnRowAll(s[1..], y);
    }
  }

  /** A list with no cart on row y has none there. */
  lemma {:induction false} OnRowNone(s: seq<Cart>, y: int)
    requires forall k :: 0 <= k < |s| ==> s[k].y != y
    decreases |s|
    ensures OnRow(s, y) == []
  {
    if |s| > 0 {
      assert forall k :: 1 <= k < |s| ==> s[1..][k - 1] == s[k];
      OnRowNone(s[1..], y);
    }
  }

  /**
   * r is the parse of the non-blank rows `rows`, numbered from y: one track
   * row per row, holding its rails; the carts strictly in (y, x) order, each
   * on a rail of the track; and the carts on the k-th row exactly the carts
   * read from it, left to right.
   */
  predicate ParsedFrom(rows: seq<string>, y: int, r: Parsed) {
    && |r.track| == |rows|
    && (forall k :: 0 <= k < |r.track| ==> r.track[k] == RowRails(rows[k]))
    && StrictlySorted(r.carts)
    && (forall k :: 0 <= k < |r.carts| ==> OnTrack(r.carts[k], r.track, y))
    && (forall yy :: y <= yy < y + |rows| ==> OnRow(r.carts, yy) == RowCarts(rows[yy - y], yy, 0))
  }

  /**
   * The source's parse_input on rows numbered from y: blank rows are
   * skipped and take no row number, and the rest are parsed row by row.
   */
  function ParseLines(lines: seq<string>, y: int): (r: Parsed)
    decreases |lines|
    ensures ParsedFrom(NonBlank(lines), y, r)
  {
    if |lines| == 0 then Parsed([], [])
    else if IsBlank(lines[0]) then
      assert NonBlank(lines) == NonBlank(lines[1..]);
      ParseLines(lines[1..], y)
    else
      var rest := ParseLines(lines[1..], y + 1);
      var r := Parsed(RowCarts(lines[0], y, 0) + rest.carts, [RowRails(lines[0])] + rest.track);
      NonBlankCons(lines);
      ParseRowLift(NonBlank(lines), y, NonBlank(lines[1..]), rest, r);
      r
  }

  /** The contract of the parse of the rows after a non-blank row carries over once that row is put in front. */
  lemma ParseRowLift(all: seq<string>, y: int, rows: seq<string>, rest: Parsed, r: Parsed)
    requires |all| > 0 && all[1..] == rows
    requires ParsedFrom(rows, y + 1, rest)
    requires r == Parsed(RowCarts(all[0], y, 0) + rest.carts, [RowRails(all[0])] + rest.track)
    ensures ParsedFrom(all, y, r)
  {
    ParseRowsCons(all[0], y, rest, r);
    ParseRowsByRow(all, y, rows, rest, r);
    forall k | 0 <= k < |r.track|
      ensures r.track[k] == RowRails(all[k])
    {
      if k > 0 {
        assert r.track[k] == rest.track[k - 1];
        assert all[k] == rows[k - 1];
      }
    }
  }

  /** Row by row, the carts of a non-blank row put in front of the parsed rows after it. */
  lemma ParseRowsByRow(all: seq<string>, y: int, rows: seq<string>, rest: Parsed, r: Parsed)
    requires |all| > 0 && all[1..] == rows
    requires forall yy :: y + 1 <= yy < y + 1 + |rows| ==> OnRow(rest.carts, yy) == RowCarts(rows[yy - (y + 1)], yy, 0)
    requires forall k :: 0 <= k < |rest.carts| ==> rest.carts[k].y >= y + 1
    requires r == Parsed(RowCarts(all[0], y, 0) + rest.carts, [RowRails(all[0])] + rest.track)
    ensures forall yy :: y <= yy < y + |all| ==> OnRow(r.carts, yy) == RowCarts(all[yy - y], yy, 0)
  {
    forall yy | y <= yy < y + |all|
      ensures OnRow(r.carts, yy) == RowCarts(all[yy - y], yy, 0)
    {
      if yy == y {
        FirstRowCarts(all[0], y, rest.carts);
      } else {
        assert all[yy - y] == rows[yy - (y + 1)];
        LaterRowCarts(all[0], y, rest.carts, yy);
      }
    }
  }

  /** The first row's carts are the carts read from it. */
  lemma FirstRowCarts(row: string, y: int, rest: seq<Cart>)
    requires forall k :: 0 <= k < |rest| ==> rest[k].y >= y + 1
    ensures OnRow(RowCarts(row, y, 0) + rest, y) == RowCarts(row, y, 0)
  {
    var here := RowCarts(row, y, 0);
    assert forall k :: 0 <= k < |here| ==> ReadFrom(here[k], row, y, 0);
    OnRowAppend(here, rest, y);
    OnRowAll(here, y);
    OnRowNone(rest, y);
    assert here + [] == here;
  }

  /** A later row's carts all come from the rows after the first. */
  lemma LaterRowCarts(row: string, y: int, rest: seq<Cart>, yk: int)
    requires yk > y
    ensures OnRow(RowCarts(row, y, 0) + rest, yk) == OnRow(rest, yk)
  {
    var here := RowCarts(row, y, 0);
    assert forall k :: 0 <= k < |here| ==> ReadFrom(here[k], row, y, 0);
    OnRowAppend(here, rest, yk);
    OnRowNone(here, yk);
    assert [] + OnRow(rest, yk) == OnRow(rest, yk);
  }

  /** A non-blank first row is the first of the non-blank rows. */
  lemma NonBlankCons(lines: seq<string>)
    requires |lines| > 0 && !IsBlank(lines[0])
    ensures NonBlank(lines) == [lines[0]] + NonBlank(lines[1..])
    ensures |NonBlank(lines)| > 0 && NonBlank(lines)[0] == lines[0] && NonBlank(lines)[1..] == NonBlank(lines[1..])
  {
  }

  /** A non-blank row of carts and rails put in front of the parsed rows after it. */
  lemma ParseRowsCons(row: string, y: int, rest: Parsed, r: Parsed)
    requires StrictlySorted(rest.carts)
    requires forall k :: 0 <= k < |rest.carts| ==> OnTrack(rest.carts[k], rest.track, y + 1)
    requires r == Parsed(RowCarts(row, y, 0) + rest.carts, [RowRails(row)] + rest.track)
    ensures StrictlySorted(r.carts)
    ensures forall k :: 0 <= k < |r.carts| ==> OnTrack(r.carts[k], r.track, y)
    ensures forall k :: 0 <= k < |rest.carts| ==> rest.carts[k].y >= y + 1
  {
    ParseRowsOnTrack(row, y, rest, r);
    assert forall k :: 0 <= k < |rest.carts| ==> rest.carts[k].y >= y + 1 by {
      forall k | 0 <= k < |rest.carts| ensures rest.carts[k].y >= y + 1 {
        assert OnTrack(rest.carts[k], rest.track, y + 1);
      }
    }
    ParseRowsOrdered(row, y, rest, r);
  }

  lemma ParseRowsOnTrack(row: string, y: int, rest: Parsed, r: Parsed)
    requires forall k :: 0 <= k < |rest.carts| ==> OnTrack(rest.carts[k], rest.track, y + 1)
    requires r == Parsed(RowCarts(row, y, 0) + rest.carts, [RowRails(row)] + rest.track)
    ensures forall k :: 0 <= k < |r.carts| ==> OnTrack(r.carts[k], r.track, y)
  {
    var here := RowCarts(row, y, 0);
    forall k | 0 <= k < |r.carts|
      ensures OnTrack(r.carts[k], r.track, y)
    {
      if k < |here| {
        HereOnTrack(row, y, here[k], r.track);
        assert r.carts[k] == here[k];
      } else {
        var c := rest.carts[k - |here|];
        assert r.carts[k] == c;
        RestOnTrack(c, rest.track, r.track, y);
      }
    }
  }

  /** A cart read from row y stands on that row's rails. */
  lemma HereOnTrack(row: string, y: int, c: Cart, track: Track)
    requires ReadFrom(c, row, y, 0)
    requires |track| > 0 && track[0] == RowRails(row)
    ensures OnTrack(c, track, y)
  {
    assert Rail(row[c.x]) == RailFor(SymbolToSpeed[row[c.x]]);
  }

  /** A cart on the rows after y stays on them once row y is put in front. */
  lemma RestOnTrack(c: Cart, rest: Track, track: Track, y: int)
    requires OnTrack(c, rest, y + 1)
    requires |track| == |rest| + 1 && track[1..] == rest
    ensures OnTrack(c, track, y)
  {
    assert track[c.y - y] == rest[c.y - (y + 1)];
  }

  lemma ParseRowsOrdered(row: string, y: int, rest: Parsed, r: Parsed)
    requires StrictlySorted(rest.carts)
    requires forall k :: 0 <= k < |rest.carts| ==> rest.carts[k].y >= y + 1
    requires r == Parsed(RowCarts(row, y, 0) + rest.carts, [RowRails(row)] + rest.track)
    ensures StrictlySorted(r.carts)
  {
    var here := RowCarts(row, y, 0);
    forall a, b | 0 <= a < b < |r.carts|
      ensures Less(r.carts[a], r.carts[b])
    {
      if b < |here| {
        assert r.carts[a] == here[a] && r.carts[b] == here[b];
      } else if a < |here| {
        assert ReadFrom(here[a], row, y, 0);
        assert r.carts[a] == here[a];
        assert r.carts[b] == rest.carts[b - |here|];
      } else {
        assert r.carts[a] == rest.carts[a - |here|] && r.carts[b] == rest.carts[b - |here|];
      }
    }
  }

  /**
   * The source's parse_input: rows are numbered from 0 after the blank ones
   * are dropped; the track is their rails, and row k's carts are the carts
   * read from the k-th non-blank row, the whole list in reading order.
   */
  function ParseInput(lines: seq<string>): (r: Parsed)
    ensures |r.track| == |NonBlank(lines)|
    ensures forall k :: 0 <= k < |r.track| ==> r.track[k] == RowRails(NonBlank(lines)[k])
    ensures forall y :: 0 <= y < |r.track| ==> OnRow(r.carts, y) == RowCarts(NonBlank(lines)[y], y, 0)
    ensures forall k :: 0 <= k < |r.carts| ==> OnTrack(r.carts[k], r.track, 0)
    ensures StrictlySorted(r.carts) && Sorted(r.carts) && DistinctPositions(r.carts)
    ensures AllUnit(r.carts)
  {
    var r := ParseLines(lines, 0);
    StrictlySortedIsSortedAndDistinct(r.carts);
    r
  }

  /** Rails strip to nothing exactly when the row they come from does. */
  lemma RailsBlank(row: string)
    ensures IsBlank(RowRails(row)) <==> IsBlank(row)
  {
    var rails := RowRails(row);
    forall k | 0 <= k < |row| && IsMarker(row[k])
      ensures rails[k] !in Whitespace && row[k] !in Whitespace
    {
      assert Rail(row[k]) == RailFor(SymbolToSpeed[row[k]]);
    }
    assert forall k :: 0 <= k < |row| && !IsMarker(row[k]) ==> rails[k] == row[k];
  }

  /** Parsing the parsed track again finds no cart and changes no row. */
  lemma {:induction false} ReparseTrack(lines: seq<string>, y: int)
    ensures ParseLines(ParseLines(lines, y).track, y) == Parsed([], ParseLines(lines, y).track)
    decreases |lines|
  {
    if |lines| > 0 {
      if IsBlank(lines[0]) {
        ReparseTrack(lines[1..], y);
      } else {
        ReparseTrack(lines[1..], y + 1);
        var rest := ParseLines(lines[1..], y + 1).track;
        assert ParseLines(lines, y).track == [RowRails(lines[0])] + rest;
        ReparseRow(lines[0], rest, y);
      }
    }
  }

  /** The rails of a non-blank row, reparsed in front of reparsed rails, give no cart. */
  lemma ReparseRow(row: string, rest: Track, y: int)
    requires !IsBlank(row)
    requires ParseLines(rest, y + 1) == Parsed([], rest)
    ensures ParseLines([RowRails(row)] + rest, y) == Parsed([], [RowRails(row)] + rest)
  {
    var track := [RowRails(row)] + rest;
    RailsBlank(row);
    RailsHaveNoCarts(row, y, 0);
    RailsIdempotent(row);
    assert track[0] == RowRails(row) && track[1..] == rest;
    assert !IsBlank(track[0]) && RowCarts(track[0], y, 0) == [];
    assert ParseLines(track, y) == Parsed([] + [], [RowRails(track[0])] + rest);
  }

  /** Replacing markers by rails a second time changes nothing. */
  lemma RailsIdempotent(row: string)
    ensures RowRails(RowRails(row)) == RowRails(row)
  {
    forall k | 0 <= k < |row|
      ensures Rail(Rail(row[k])) == Rail(row[k])
    {
      if IsMarker(row[k]) {
        assert Rail(row[k]) == RailFor(SymbolToSpeed[row[k]]);
      }
    }
  }
}
