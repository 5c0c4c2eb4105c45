# Mine-cart simulation, modelled in Dafny

This project models the simulation in `day13.py`. Carts ride a grid of rails: `-` and `|` are straight track, `/` and `\` are curves, and `+` is an intersection. Each cart starts out drawn as `<`, `>`, `^` or `v`. Every cart moves one cell per step. On a curve it turns by the mirror table. At an intersection it turns left, then goes straight on, then turns right, and repeats that cycle. Carts are ordered by row, then by column, and two carts are "equal" when they stand on the same cell.

The model covers:

- **The direction algebra** (`directions.dfy`). It holds the three turn rules, the marker/velocity tables and the curve table.
- **The cart state machine** (`carts.dfy`). It holds the constructor, `move`, the intersection and curve handlers, positional equality and the (y, x) order.
- **`sorted`** (`ordering.dfy`), modelled as a stable insertion sort under that order.
- **`parse_input`** (`parse.dfy`).
- **`detect_collision`** (`collision.dfy`).
- **`run_until_collision`** (`first_collision.dfy`).
- **`run_until_last_collision`** (`last_survivor.dfy`).
- **Worked inputs** (`scenarios.dfy`). These are small hand-built inputs on which the drivers are evaluated to the end. They include the two inputs on which the source goes wrong.

How the model is built:

- **Pure functions.** Everything is a pure function over immutable datatypes.
- **Velocities.** A velocity is `Vec(dx, dy)`, with y growing downwards.
- **The turn queue.** The source rotates a three-element deque of turn rules. The model stores the deque's head as a `Turn` and rotates with `Next`.
- **Cart lists.** Within a tick the source mutates carts in place but never reorders its list. So a list of carts is a `seq<Cart>`, and one tick produces successive versions of it.
- **Cart identity.** The `is` test in `run_until_last_collision` becomes a test on list indices, and the `collided` list is a list of indices.
- **The `in` test.** The source's `in` compares positions, through `__eq__`. The model's `Membership` mode chooses between that test (`ByPosition`) and a test by index (`ByIdentity`).
- **Turning.** Left turns `(dx, dy)` into `(dy, -dx)`, right turns it into `(-dy, dx)`, and straight changes nothing. These are the formulas in the source.
- **Fuel.** Both drivers can run forever, so each takes a `fuel` bound on the number of ticks.
- **Failures.** A step off the grid ends a run with `OffTrack`. Where the source crashes on an empty survivor list, the model ends with `NoSurvivor`.
- **Whitespace.** `l.strip()` is modelled by `Strip`, which drops characters of the `Whitespace` list from both ends. That list is exactly the set of characters for which CPython's `str.isspace` holds: U+0009 to U+000D, U+001C to U+001F, U+0020, U+0085, U+00A0, U+1680, U+2000 to U+200A, U+2028, U+2029, U+202F, U+205F and U+3000.
- **Ticks as stages.** Within a tick, `Stage(s, track, i, k)` is the list once carts i to k - 1 have taken their step. `Reached` and `AfterTicks` give the list a driver holds after n ticks. The drivers' contracts are stated in these terms.
- **Turns.** In `run_until_last_collision`, `TurnOf` is one turn of the outer `for` loop, and `Turns(…, i, k)` is the loop state once the turns of carts i to k - 1 are over. That state is built front to back, one turn at a time. `PassFollowsTurns` proves that the recursive `Pass` is the same thing. So a cart's outcome can be stated in terms of the state its turn found.

Three behaviours of the code, which the model keeps as written:

- **Spotting a first collision.** `run_until_collision` sorts the list once per tick. After each single move it scans that list, in its order from the start of the tick, for equal neighbours. A cart that lands on a cart that is not its neighbour in that order goes unseen (Findings, row 1).
- **When the survivor loop stops.** `run_until_last_collision` loops while more than one cart remains. So it stops with no cart at all when the last carts crash together, and `carts[0]` then raises `IndexError`.
- **Which carts are skipped.** The `in` tests on `collided` compare positions. So the loop skips, and the removal drops, every cart that stands where a recorded cart stands, not only the recorded carts (Findings, row 2).

## Model

| member | source | states |
|---|---|---|
| Directions.TurnsInverse | day13.py:5-12 | Turning left then right, or right then left, gives back the original velocity, and going straight changes nothing. |
| Directions.FourTurnsIdentity | day13.py:5-9 | Two quarter turns in the same sense reverse a velocity, and four give it back. |
| Directions.TurnGeometry | day13.py:5-12 | `_left` gives a velocity perpendicular to the old one, as long, and on its left as drawn with y downwards (cross product minus the squared length). `_right` gives the same on the right (cross product plus the squared length). `_straight` gives a parallel velocity pointing the same way. |
| Directions.TurnsDetermined | day13.py:5-12 | For a non-zero velocity, those conditions hold of the result of `_left`, `_right` and `_straight` and of no other velocity, in both directions. |
| Directions.UnitCases | day13.py:14-19 | The unit directions are exactly the four velocities that the marker table assigns. |
| Directions.TurnsPermuteUnits | day13.py:5-9 | A left or a right turn gives a unit direction exactly when it is applied to one. On a unit direction, left, right and the original are three different velocities. |
| Directions.TurnsOntoUnits | day13.py:5-9 | Every unit direction is the left turn of some unit direction, and also the right turn of one. So both turns map the four directions onto themselves. |
| Directions.SymbolTableDomain | day13.py:14-21 | The marker table is defined on exactly the four markers and yields unit directions. The reverse table is defined on exactly the unit directions. |
| Directions.SymbolTablesInverse | day13.py:14-21 | The velocity-to-marker table inverts the marker-to-velocity table, in both directions. |
| Directions.CurveTableDomain | day13.py:23-32 | The curve table is defined on exactly the eight (marker, curve) pairs, and every entry is a marker. |
| Directions.CurveInvolution | day13.py:23-32 | For each curve, looking a marker up twice gives the marker back, so the table is its own inverse. |
| Directions.CurveBijection | day13.py:23-32 | For each curve, distinct markers map to distinct markers, and every marker is reached. |
| Directions.CurveTurn | day13.py:61-63 | Reading a velocity through the three tables gives a unit direction. It is a left turn when the cart moves horizontally onto `/` or vertically onto `\`, and a right turn otherwise. |
| Directions.CurveReversible | day13.py:23-32 | Driving back through a curve the other way undoes the turn it made. |
| Carts.NewCart | day13.py:42-46 | A new cart stands where its marker was drawn. Its velocity is a unit direction whose marker is the one it was read from, and its first intersection turn is left. |
| Carts.HandleIntersect | day13.py:57-59 | Crossing an intersection keeps the cart's position and keeps a unit velocity a unit velocity. Under the rule left it turns left and the rule becomes straight. Under straight it keeps its velocity and the rule becomes right. Under right it turns right and the rule becomes left. |
| Carts.HandleCurve | day13.py:61-63 | A curve keeps the cart's position and turn rule. The new velocity is a unit direction, neither the old one nor its reverse. It is the left turn of the old one when the cart moves horizontally onto `/` or vertically onto `\`, and the right turn otherwise. |
| Carts.CanMoveOnGrid | day13.py:49-51 | A step can be taken exactly when the cell it enters is one of the grid's cells, so that `track[self.y][self.x]` reads that cell. |
| Carts.Move | day13.py:48-55 | A step moves the cart by exactly its velocity from before the step, and leaves a unit velocity. On a straight cell nothing else changes. Only a `+` advances the turn rule, and there the velocity is turned by the old rule. On a curve the velocity is the table's turn. |
| Carts.ThreeIntersections | day13.py:46-59 | Three intersections in a row bring back both the heading and the turn rule. |
| Carts.TurnPeriod | day13.py:46-59 | The turn rules cycle left, straight, right with period exactly three. |
| Carts.LessIsStrictTotalOrder | day13.py:71-75 | This is the contract for `Carts.SamePos` (`__eq__`) and `Carts.Less` (`__lt__`). The order is irreflexive, asymmetric and transitive. Two carts are unordered exactly when they stand on the same cell, which is exactly when `__eq__` holds. |
| Ordering.Sort | day13.py:106 | Sorting gives a list in (y, x) order with the same carts, counted with multiplicity. |
| Ordering.SortIdentity | day13.py:106 | Sorting a list that is already in order leaves it unchanged: ties keep their order. |
| Ordering.SortIdempotent | day13.py:106 | Sorting twice is the same as sorting once. |
| Ordering.SortedDuplicatesAdjacent | day13.py:106-109 | In a sorted list, two carts share a cell exactly when two neighbours do. |
| Collision.DetectFrom | day13.py:97-100 | The loop from entry k on returns nothing exactly when no two neighbours from k on share a cell. Otherwise it returns the cell of the first such pair from k on. |
| Collision.DetectCollision | day13.py:95-101 | The scan finds nothing exactly when no two neighbours share a cell. Otherwise it reports the cell of the first such pair of neighbours. |
| Collision.DetectedIsShared | day13.py:95-101 | A reported cell is held by two different entries of the list. |
| Collision.DetectOnSorted | day13.py:95-101 | On a sorted list the scan finds nothing exactly when all carts stand on distinct cells. |
| Collision.DetectSeesOnlyPositions | day13.py:95-101 | Two lists whose carts stand on the same cells, in the same order, get the same answer. Headings and turn rules play no part. |
| FirstCollision.TickEndsOnce | day13.py:107-111 | A tick stops at one cart at most and leaves the grid at one cart at most, never both. A tick whose steps were all quiet does neither. |
| FirstCollision.MoveEach | day13.py:107-111 | The carts from i on move one at a time, in list order, and the whole list is scanned after each move. The tick ends without a report exactly when every step was possible and no scan fired, and then every cart has moved once. A report comes from the first step after which the scan fired: the list is the list after that step, with later carts unmoved, and the reported cell is the scan's answer on it. A step off the grid comes after quiet steps only. |
| FirstCollision.Tick | day13.py:105-111 | A tick sorts once, then runs the loop above on the sorted list. A quiet tick keeps the number of carts and their unit velocities. A reported cell is held by two carts of the list it was found in. |
| FirstCollision.RunUntilCollision | day13.py:103-112 | A report is the crash of the tick that follows some number of quiet ticks, with the list that tick stopped on. The run leaves the grid only in a tick that follows quiet ticks. It is out of fuel exactly when all `fuel` ticks were quiet. |
| FirstCollision.MoveEachChecked | day13.py:107-111 | The corrected loop. The tick ends without a report exactly when every step was possible and no cart landed on another, and then every cart has moved once. A report comes from the first step that landed a cart on another: the list is the list after that step, and the reported cell is where that cart landed, held by two carts. |
| FirstCollision.TickChecked | day13.py:105-111 | The corrected tick: the corrected loop on the sorted list. Its report is the landing cell of the first step that landed a cart on another. |
| FirstCollision.RunUntilFirstCrash | day13.py:103-112 | The corrected run. A report is the first landing of the tick that follows some number of quiet ticks. It is out of fuel exactly when all `fuel` ticks were quiet. |
| LastSurvivor.RecordedIsCollided | day13.py:118-124 | A cart that is in `collided` counts as collided under either test. |
| LastSurvivor.IdentityImpliesPosition | day13.py:118-124 | The positional `in` is the weaker test: a cart collided under either test is collided by position, and a cart collided by identity is collided under either test. |
| LastSurvivor.MarkStep | day13.py:121-123 | Recording a cart that the inner test accepts, together with the moving cart, keeps the list paired and free of repeats. The recorded cart then counts as collided. |
| LastSurvivor.MarkCollisions | day13.py:120-123 | The inner scan only appends to `collided`, with valid indices, and appends at most one pair. If the moving cart is already recorded, it appends nothing. |
| LastSurvivor.ScanCovers | day13.py:120-123 | What the scan appends is a run of pairs (x, c): c is the moving cart, and x is a later-scanned cart other than c, on c's cell, that was not collided before the scan. Afterwards, every other cart on c's cell counts as collided, or c does. |
| LastSurvivor.ScanKeepsPairs | day13.py:120-123 | The scan keeps every recorded pair on one cell, and records no cart twice. |
| LastSurvivor.RecordedHasNoPartner | day13.py:118-123 | Once the moving cart is in `collided`, the inner test accepts no cart. The identity test refuses outright. By position, every cart on its cell already counts as collided. |
| LastSurvivor.Pass | day13.py:116-123 | A pass keeps the list length and unit velocities. It only extends `collided`, keeping it paired and free of repeats. Carts before the current one are untouched, and every later cart keeps its state or takes one step. A cart that counts as collided at the start keeps its state, and stays collided. The current cart, if it is not collided, takes exactly one step. Every cart not collided at the end has taken its step. If the uncollided carts stood apart before the pass, they stand apart after it. A step off the grid only comes from a cart that cannot move. |
| LastSurvivor.TurnOf | day13.py:117-123 | One turn of the outer loop changes no cart but the one whose turn it is. It keeps the length, unit velocities and valid indices. |
| LastSurvivor.PassFollowsTurns | day13.py:116-123 | The pass from cart i is the turns of carts i onwards, each taken on the state the one before left. |
| LastSurvivor.TurnsShift | day13.py:116-123 | The turns from cart i are cart i's turn, then the turns from i + 1 on the state it left. |
| LastSurvivor.TurnsLeaveRest | day13.py:116-123 | Only carts whose turn is over can have changed. |
| LastSurvivor.TurnsPrefix | day13.py:116-123 | Turns that got through cart k2 got through every earlier cart, and a cart is final once its turn is over. |
| LastSurvivor.TurnTakenOnce | day13.py:117-123 | When a cart's turn comes, it still stands where it started. In a pass that stays on the grid, it ends as its turn left it. If it counted as collided when its turn came, it stays put, and otherwise it moves exactly one step. |
| LastSurvivor.TurnOffTrack | day13.py:117-119 | After turns that stayed on the grid, the next turn leaves it exactly when its cart is not collided and cannot move. |
| LastSurvivor.TurnsOffTrack | day13.py:116-119 | The turns up to cart k leave the grid exactly when some earlier cart leaves it. That cart was reached with every turn before it on the grid, was not collided then, and could not move. |
| LastSurvivor.GoneAfterLeaving | day13.py:116-119 | Once the turns are off the grid, they stay off. |
| LastSurvivor.LeavesGridOnce | day13.py:116-119 | At most one cart takes a pass off the grid. |
| LastSurvivor.Remaining | day13.py:124 | Removal keeps a cart of the list exactly when it does not count as collided, and never lengthens the list. |
| LastSurvivor.RemainingApart | day13.py:124 | If the uncollided carts are apart, the carts kept by removal stand on distinct cells. |
| LastSurvivor.RemainingCount | day13.py:124 | Under the identity test, removal drops exactly the recorded carts. |
| LastSurvivor.TickTakesTurns | day13.py:115-124 | A tick goes through exactly when the turns of all carts stay on the grid, starting from an empty `collided`. It then ends in their state. Each cart ends the tick as its own turn left it: put if it counted as collided when its turn came, one step on otherwise. |
| LastSurvivor.TickOffTrackIff | day13.py:115-119 | A tick leaves the grid exactly when some cart cannot move, was reached uncollided, and had every turn before it on the grid. |
| LastSurvivor.SurvivorTick | day13.py:115-124 | A tick records collided carts in pairs of two different carts on one cell, with no repeats. Every cart that is not collided at the end has taken exactly one step, and every other cart has taken one step or none. A cart survives exactly when it does not count as collided. The survivors come out sorted, and never outnumber the carts before the tick. A tick that starts with carts on distinct cells leaves the uncollided carts apart. |
| LastSurvivor.SurvivorTickApart | day13.py:115-124 | A tick that starts with carts on distinct cells ends with survivors on distinct cells. |
| LastSurvivor.SurvivorTickCount | day13.py:116-124 | Under the identity test, the survivors number exactly the carts minus the recorded ones. |
| LastSurvivor.TickParity | day13.py:116-124 | Under the identity test, a tick keeps the parity of the number of carts. |
| LastSurvivor.RunUntilLastCollision | day13.py:114-126 | A report is the position of the one cart left in the list the loop holds after some number of ticks. The run ends with no survivor only when that list is empty, and leaves the grid only in a tick on more than one cart. It is out of fuel exactly when more than one cart is left after `fuel` ticks. A single cart is reported at its own cell. Under the identity test, an odd number of carts never ends with an empty list. |
| Parse.TrimStart | day13.py:85 | The left part of `str.strip()`: the result is a suffix of the row, the part dropped is whitespace, and a non-empty result starts with a character that is not whitespace. |
| Parse.TrimEnd | day13.py:85 | The right part of `str.strip()`: the result is a prefix of the row, the part dropped is whitespace, and a non-empty result ends with a character that is not whitespace. |
| Parse.BlankIffStripsEmpty | day13.py:85 | This is the contract for `Parse.IsBlank`. A row is blank exactly when `strip()` leaves the empty string, so that the `if l.strip()` filter drops it. |
| Parse.NonBlank | day13.py:85 | The rows kept are never more than the input rows, and none of them is blank. |
| Parse.NonBlankMembers | day13.py:85 | A row is kept exactly when it is a row of the input and is not blank. |
| Parse.NonBlankAppend | day13.py:85 | The filter works row by row: the rows kept from two blocks of rows are those kept from the first block, followed by those kept from the second, so all non-blank rows are kept in order. |
| Parse.Rail | day13.py:89-91 | The rail put under a cell is never a marker. It is the cell itself exactly when the cell is not a marker. Under a marker it is `-` or `\|`, running along the axis of the marker's velocity. |
| Parse.RowRails | day13.py:87-91 | A row keeps its length. Markers become `-` (for `<` and `>`) or `\|` (for `^` and `v`), and every other character is unchanged. |
| Parse.RowCarts | day13.py:88-91 | Every cart of a row comes from a marker at its column and heads that marker's way. Every marker gives a cart. Columns strictly increase, so each marker gives exactly one cart. |
| Parse.ParseRowRoundTrip | day13.py:87-92 | Drawing a row's carts back over its rails gives the row again, so parsing a row loses nothing. |
| Parse.RailsHaveNoCarts | day13.py:89-91 | The rails hold no marker, so reading them again finds no cart. |
| Parse.RailsIdempotent | day13.py:91 | Replacing markers by rails a second time changes nothing. |
| Parse.RailsBlank | day13.py:85-91 | A row's rails are blank exactly when the row is. |
| Parse.ParseLines | day13.py:82-93 | The track has one row per non-blank input row, with that row's markers replaced by rails. Blank rows take no row number. The carts on the k-th track row are exactly the carts read from the k-th non-blank row, left to right. The carts come out strictly in (y, x) order, and each heads along the rail it stands on and turns left first. |
| Parse.ParseInput | day13.py:82-93 | The same, numbered from row 0: the track is the rails of the non-blank rows, and row y's carts are those read from the y-th non-blank row. The carts are in (y, x) order, on distinct cells, with unit velocities. |
| Parse.ReparseTrack | day13.py:82-93 | Parsing the parsed track again finds no cart and gives the same track back. |
| Scenarios.ColumnSteps | day13.py:48-55 | A cart heading down a straight column moves one row per step and keeps its heading. |
| Scenarios.CurveSteps | day13.py:48-63 | A cart heading east turns north on `/` and south on `\`. |
| Scenarios.IntersectionSteps | day13.py:54-59 | Three single steps onto a `+`, each by an east-heading cart with a different turn rule. Under left it ends heading north, under straight east, and under right south, and each time the rule advances. |
| Scenarios.ParseMissed | day13.py:82-93 | The rows `v  -<` and `>-` parse into three carts in (y, x) order on the rails `\|  --` and `--`. |
| Scenarios.MissedScan | day13.py:95-101 | After the first step of that input, two carts share (0, 1), yet no two neighbours in the list do, so the scan reports nothing. |
| Scenarios.MissedByTick | day13.py:103-112 | On that input the source's tick finishes without a report, although its first step landed a cart on another. |
| Scenarios.CaughtByCheckedTick | day13.py:103-112 | On that input the corrected tick stops at the first step and reports (0, 1). |
| Scenarios.PileRuns | day13.py:114-126 | On the rows `>-<` and ` ^`, the positional test removes all three carts, leaving an empty list. The identity test leaves the third cart, at (1, 0). |
| Scenarios.QueueTick | day13.py:115-124 | Take the row `--` with two east-heading carts, at (0, 0) and (1, 0). The second cart could not move, yet the positional tick stays on the grid. The first cart lands on the second, both are recorded, and the second is skipped. The tick leaves the first cart one step on, at (1, 0), where it crashed, and the second where it stood. |

## Left out

- `snapshot` and `run_animation` (day13.py:128-151) are terminal output, `print` and `sleep`, and are not modelled.
- `step_1`, `step_2` and the `__main__` block (day13.py:153-167) open files and print, and are not modelled.
- `readlines` and the `line[:-1]` chop (day13.py:85-87) are not modelled. Rows arrive already split and without terminators. So the source's loss of the last character of a final row with no newline is not modelled.
- `__repr__`, `__str__` and `__hash__` (day13.py:65-69, 77-78) only format or hash carts and are not modelled.
- Carts.Move: requires the target cell to exist. Python would wrap a negative index, or raise `IndexError` on a too-large one. The drivers check the cell first and end with `OffTrack` instead.
- LastSurvivor.RunUntilLastCollision: an empty final list gives `NoSurvivor` rather than the source's `IndexError`. The model proves that the identity-test run cannot reach it from an odd number of carts, but proves nothing for the positional test, which can reach it (Findings, row 2).
- FirstCollision.RunUntilCollision, FirstCollision.RunUntilFirstCrash and LastSurvivor.RunUntilLastCollision are bounded by `fuel`. Runs longer than the bound give `OutOfFuel`, and no property is stated about how many ticks a run needs.
- Ordering.Sort: stability is proved only for input that is already sorted (`SortIdentity`). That a general input keeps the order of ties is not stated. Python's `sorted` is stable.
- LastSurvivor.Pairs: the identity mode also refuses to record the moving cart if it is already recorded. The positional mode needs no such guard, because there the source skips such a cart. This guard is part of the corrected behaviour, not of the source.
- Python's `in` tests identity before `==`. The positional mode does not model this separately, because a cart always stands on its own cell.
- Performance, hashing and the exact exception types are not modelled.
- The published example grid with its expected first-collision cell is not worked through. The scenarios use smaller hand-built tracks.

## Findings

| source | as written | input that shows it | evidently intended | confidence | as-written member | corrected member |
|---|---|---|---|---|---|---|
| day13.py:103-112 | The tick sorts once, then scans the list in that stale order for equal neighbours after each move. A cart that lands on a cart that is not its neighbour in that list goes unseen. | Rows `v  -<` and `>-`. The first cart moves down onto the cart at (0, 1), but the cart at (4, 0) sits between them in the list, and the tick reports nothing. | Stop as soon as a cart lands on another cart, and report that cell, (0, 1). | not executed | FirstCollision.RunUntilCollision, Scenarios.MissedByTick | FirstCollision.RunUntilFirstCrash, Scenarios.CaughtByCheckedTick |
| day13.py:114-126 | `c in collided` and `not c in collided` compare positions. A third cart that drives onto a crash cell later in the same tick is skipped by the inner scan, then removed with the crashed pair. This can empty the list, and then `carts[0]` raises `IndexError`. | Rows `>-<` and ` ^`. The first two carts crash at (1, 0), the third drives onto (1, 0) in the same tick, and all three are removed. | Remove only the carts that were recorded as crashed. The third cart survives at (1, 0), and a run from an odd number of carts always ends with one. | not executed | LastSurvivor.RunUntilLastCollision (ByPosition), Scenarios.PileRuns | LastSurvivor.RunUntilLastCollision (ByIdentity), LastSurvivor.TickParity, Scenarios.PileRuns |
