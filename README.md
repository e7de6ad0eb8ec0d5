# A* grid engine — Dafny model

This project models the engine of a browser demo of A* path finding. The
`Grid` (resources/scripts/grid.js) holds a rectangle of `Cell`s
(docs/demo/resources/scripts/cell.js), a start, a target and the open list,
and runs the search one `step` at a time.

- A cell has a type (`checked`, `traversable`, `blocked`, `start`,
  `target`), coordinates, an h value, a g value, a display flag and the
  cell it was reached from.
- Every setter dispatches a change event. The model keeps the events, in
  order, in a `log` field, on cells and on the grid.
- The grid's setters do the following:
  - `width` and `height` create or announce the removal of a strip of
    cells.
  - `start` and `target` hand the cell type over and reset the search.
  - `canWalkDiagonal` and `steppingCost` change the price of a move and
    reset the search.
- `step` does one of three things:
  - It pops the cell with the lowest (f, h) from the open list.
  - It stops when that cell is the target or when the list is empty.
  - Otherwise it marks the cell checked and relaxes its neighbours. Each
    neighbour gets g = g(from) + cost, or cost·√2 for a diagonal move,
    whenever that is lower. The open list is then sorted again.

Modules, one per file:

| file | module | what it holds |
|---|---|---|
| common.dfy | `Common` | `Option`, `Input` (a value of the expected JS type, or `Foreign`), `Outcome` (done or thrown), `Result`, addition of values that may be `undefined` |
| areas.dfy | `Areas` | the inclusive rectangle `Area` and the order in which its points are visited |
| heuristics.dfy | `Heuristics` | the Manhattan and octile estimates, and their consistency |
| ordering.dfy | `OpenOrder` | the open list's comparator and the stable sort used for `Array.prototype.sort` |
| cells.dfy | `Cells` | `Kind`, `CellEvent`, the value `CellState`, one pure transition function per setter, and `class Cell` |
| grid.dfy | `Grids` | `class Grid` and the specification functions for its operations |

Each state-changing method is specified against a pure function of the old
state. A cell setter ensures `State() == WithG(old(State()), v)`. The grid's
reset ensures that every cell it may touch ends in `AfterReset(...)` of its
old state. The properties the source promises are proved about those
functions:

- a reset cell has no g and is no longer checked;
- a relaxed cell's g never rises and is at most the cost through `from`;
- the estimate is consistent;
- the sorted open list is a permutation, ordered by (f, h) when every key
  is a number.

## Model

| member | source | states |
|---|---|---|
| Common.DistinctJoin | resources/scripts/grid.js:441-458 | two lists without repeats that share no cell concatenate to a list without repeats |
| Areas.Points | resources/scripts/grid.js:198-211 | the points listed are exactly the points of the inclusive rectangle [x1, x2] × [y1, y2] |
| Areas.PointsAscending | resources/scripts/grid.js:37-61 | the points are listed column by column and, within a column, by increasing y |
| Heuristics.Delta | resources/scripts/grid.js:373-374 | the distance along one axis is the absolute difference of the coordinates |
| Heuristics.Octile | resources/scripts/grid.js:376-381 | both branches compute min·√2 + (max − min) of the two distances |
| Heuristics.EstimateNonNegative | resources/scripts/grid.js:370-386 | for a positive cost the estimate is never negative, and it is zero exactly at the target |
| Heuristics.EstimateSymmetric | resources/scripts/grid.js:373-383 | the estimate does not depend on which cell is the target |
| Heuristics.EstimateConsistent | resources/scripts/grid.js:447-449 | one allowed move to a neighbour lowers the estimate by at most that move's price (cost, or cost·√2 diagonally) |
| OpenOrder.BeforeIsLexicographic | resources/scripts/grid.js:460-463 | for numeric keys, a cell goes first exactly when its f is lower, or its f is equal and its h lower |
| OpenOrder.NotBeforeTransitive | resources/scripts/grid.js:460-463 | on numeric keys "not before" is transitive, so the comparator is a total preorder |
| OpenOrder.Insert | resources/scripts/grid.js:457-463 | inserting adds exactly one element to the multiset of the list |
| OpenOrder.Sort | resources/scripts/grid.js:457-463 | the sort is a permutation of its input |
| OpenOrder.InsertSorted | resources/scripts/grid.js:460-463 | inserting a numeric key into a sorted list keeps it sorted |
| OpenOrder.SortSorted | resources/scripts/grid.js:457-463 | when every key is a number, the sorted list is in (f, h) order |
| OpenOrder.SortUndefined | resources/scripts/grid.js:460-463 | when no f has a value, the comparator orders nothing and the list keeps its order |
| OpenOrder.SortKeepsDistinct | resources/scripts/grid.js:457-463 | sorting a list without repeats gives a list without repeats |
| OpenOrder.SortJoinKeepsDistinct | resources/scripts/grid.js:457-463 | concatenating the open list with the new cells and sorting gives no repeats when none was there before |
| Cells.ParseKind | docs/demo/resources/scripts/cell.js:20-32 | a name is accepted exactly when it is one of the five type names, and it is read as the kind of that name |
| Cells.ParseKindName | docs/demo/resources/scripts/cell.js:20 | every kind is accepted under its own name |
| Cells.WithKindOnce | docs/demo/resources/scripts/cell.js:34-48 | setting a type twice is setting it once; typechange fires only on a change |
| Cells.WithHRepeated | docs/demo/resources/scripts/cell.js:110-127 | h takes the new value; a number set twice fires once, but `undefined` (NaN) fires every time |
| Cells.WithGShowsNumber | docs/demo/resources/scripts/cell.js:137-155 | on a change g takes the new value and display becomes whether g is a number, before gchange; otherwise nothing changes |
| Cells.WithComingFromFires | docs/demo/resources/scripts/cell.js:195-213 | setting the predecessor always stores it and fires one event, named `gchange` |
| Cells.Cell.constructor | docs/demo/resources/scripts/cell.js:16-28 | a new cell is traversable and hidden, has no h, g or predecessor, and has fired type, display, x and y from `undefined`, in that order |
| Cells.Cell.SetKind | docs/demo/resources/scripts/cell.js:34-48 | the state becomes `WithKind` of the old state |
| Cells.Cell.SetType | docs/demo/resources/scripts/cell.js:29-50 | an unknown name throws and changes nothing; a known one sets that kind |
| Cells.Cell.SetX | docs/demo/resources/scripts/cell.js:57-77 | stores x and fires xchange only when the value differs |
| Cells.Cell.SetY | docs/demo/resources/scripts/cell.js:83-103 | stores y and fires ychange only when the value differs |
| Cells.Cell.SetH | docs/demo/resources/scripts/cell.js:109-129 | stores h and fires hchange whenever old and new differ as JS `!=` does, NaN included |
| Cells.Cell.SetDisplay | docs/demo/resources/scripts/cell.js:170-188 | ignores a non-boolean or an unchanged value; otherwise stores it and fires displaychange |
| Cells.Cell.SetG | docs/demo/resources/scripts/cell.js:136-157 | the state becomes `WithG` of the old state (see `WithGShowsNumber`) |
| Cells.Cell.SetComingFrom | docs/demo/resources/scripts/cell.js:194-215 | `undefined` and non-cells throw and change nothing; a cell is always stored, with one event |
| Cells.Cell.FValue | docs/demo/resources/scripts/cell.js:162-164 | f has a value exactly when g and h have one, and then it is g + h |
| Cells.Cell.GetPathOfCell | docs/demo/resources/scripts/cell.js:229-243 | a cell that is not checked gives `undefined` at once; a checked cell throws exactly when some predecessor on its walk is not checked, having collected the walk up to the first such predecessor; otherwise it gives `undefined`, having collected the whole walk |
| Cells.StaleCycleWalks | docs/demo/resources/scripts/cell.js:237-239 | two stale predecessors pointing at each other, one of them not checked, form a walk that ends where the source throws |
| Grids.SlotsTotal | resources/scripts/grid.js:506-514 | the neighbour loops look at 8 places with diagonals and 4 without |
| Grids.OpenOrdered | resources/scripts/grid.js:457-463 | after the sort the open list is in (f, h) order when every cell has a g and an h, and in insertion order when no cell has an f |
| Grids.OpenDistinct | resources/scripts/grid.js:441-463 | appending cells not yet open and sorting keeps the open list free of repeats |
| Grids.WidthAreaSpan | resources/scripts/grid.js:198-211 | the strip covers every new column, stays within columns [lo − 1, hi) and rows [0, height), and includes column lo − 1 |
| Grids.HeightAreaSpan | resources/scripts/grid.js:255-268 | the same for rows when the height changes |
| Grids.GrowCovers | resources/scripts/grid.js:194-204 | when the old grid was fully stored and the strip is created, every position of the larger grid holds a cell |
| Grids.MadeCell | resources/scripts/grid.js:41-48 | a position with no cell gets a new traversable, hidden cell with no g and the computed h; an existing cell keeps everything but h and fires at most one event |
| Grids.AddEvents | resources/scripts/grid.js:56-60 | one addcell per point, in the order of the points, naming the stored cell |
| Grids.RemoveEvents | resources/scripts/grid.js:87-91 | one removecell per point, in the order of the points, naming the cell stored there |
| Grids.ClearedCell | resources/scripts/grid.js:398-408 | a cleared cell has no g and is hidden; checked becomes traversable and other kinds stay; h is recomputed exactly when asked; position and predecessor stay |
| Grids.Usable | resources/scripts/grid.js:439-443 | exactly the cells around that are not open yet and are traversable or the target, without repeats |
| Grids.RelaxedBound | resources/scripts/grid.js:445-455 | after relaxation g is at most g(from) + the move's cost and never higher than before; a cell whose g changed comes from `from` and is displayed; kind, h and position stay |
| Grids.AppendInOrder | resources/scripts/grid.js:506-520 | appending a cell found later in the loops keeps the result in loop order |
| Grids.Grid.GetCell | resources/scripts/grid.js:345-349 | nothing outside [0, width) × [0, height); otherwise the stored cell, which exists for every in-bounds position of a fully stored grid |
| Grids.Grid.CalcHCell | resources/scripts/grid.js:370-386 | no value exactly when there is no target |
| Grids.Grid.CalcHCellValue | resources/scripts/grid.js:370-386 | the cost times the Manhattan distance, or times the octile distance with diagonals; non-negative, and zero exactly at the target |
| Grids.Grid.SurroundingPlaces | resources/scripts/grid.js:503-524 | every cell returned is a stored, in-bounds neighbour in an allowed direction |
| Grids.Grid.SurroundingCount | resources/scripts/grid.js:506-521 | at most one cell per place looked at |
| Grids.Grid.SurroundingOrdered | resources/scripts/grid.js:506-521 | the cells come x-offset first, then y-offset, as the loops visit them |
| Grids.Grid.SurroundingDistinct | resources/scripts/grid.js:503-524 | no cell is returned twice |
| Grids.Grid.SurroundingAt | resources/scripts/grid.js:506-521 | a neighbour in reach is found by the time the loops pass its place |
| Grids.Grid.SurroundingPrefix | resources/scripts/grid.js:506-521 | what the loops have found so far is a prefix of what they find later |
| Grids.Grid.SurroundingComplete | resources/scripts/grid.js:503-524 | every neighbour in reach is returned |
| Grids.Grid.SurroundingNeighbours | resources/scripts/grid.js:503-524 | a cell is returned exactly when it is a neighbour in reach; in loop order, without repeats, at most 8 (4 without diagonals) |
| Grids.Grid.GetSurroundingCells | resources/scripts/grid.js:503-524 | the loops return `Surrounding(x, y, 9)` |
| Grids.Grid.GatherColumn | resources/scripts/grid.js:507-520 | one pass of the inner loop extends the result by one column of places |
| Grids.Grid.ClearCell | resources/scripts/grid.js:400-407 | the cell ends in `Cleared` of its old state |
| Grids.Grid.ClearColumn | resources/scripts/grid.js:397-409 | every stored cell of column x is cleared; every other cell is unchanged |
| Grids.Grid.ClearAll | resources/scripts/grid.js:396-409 | every stored in-bounds cell is cleared; every other cell is unchanged |
| Grids.Grid.Relax | resources/scripts/grid.js:446-454 | the cell ends in `Relaxed` of its old state |
| Grids.Grid.RelaxAll | resources/scripts/grid.js:445-455 | every usable cell is relaxed through `from` |
| Grids.Grid.Enqueue | resources/scripts/grid.js:457-463 | the open list becomes the sort of the old list plus the new cells, in (f, h) order when all have keys, with no repeats |
| Grids.Grid.RelaxAround | resources/scripts/grid.js:439-455 | the usable cells around `from` are relaxed, every other cell is unchanged, and none was open |
| Grids.Grid.AppendPossibleCells | resources/scripts/grid.js:435-464 | nothing happens without a cell; otherwise the usable neighbours are relaxed, every other cell is unchanged, and the open list is requeued with them |
| Grids.Grid.AppendAround | resources/scripts/grid.js:439-463 | the relaxation and the requeue for a given cell |
| Grids.Grid.Step | resources/scripts/grid.js:471-494 | a finished search reports found and changes nothing; an empty list reports no cells (found without a target); a popped target sets found; any other popped cell is marked checked unless it is the start, its neighbours are relaxed and the list requeued; no repeats appear |
| Grids.Grid.Advance | resources/scripts/grid.js:475-490 | the three outcomes of a step that has not yet found the target |
| Grids.Grid.Conclude | resources/scripts/grid.js:475-490 | an empty list or a popped target ends the search, with no cell changed |
| Grids.Grid.Progress | resources/scripts/grid.js:482-487 | a popped cell other than the target is expanded |
| Grids.Grid.Shift | resources/scripts/grid.js:475 | `shift` gives the first cell and leaves the rest, or nothing for an empty list |
| Grids.Grid.Expand | resources/scripts/grid.js:483-486 | the popped cell is marked and its neighbours relaxed and queued |
| Grids.Grid.MarkChecked | resources/scripts/grid.js:483-484 | the popped cell becomes checked unless it is the start; no other cell changes; it does not become usable |
| Grids.Grid.PrimeOpenList | resources/scripts/grid.js:413-428 | found is cleared, the open list is [start] or empty, the start gets g = 0, and the reset event fires |
| Grids.Grid.ResetPathfinding | resources/scripts/grid.js:393-429 | every cell ends in `AfterReset` of its old state, the open list is [start] or empty, found is cleared and the reset event fires |
| Grids.Grid.Materialize | resources/scripts/grid.js:41-45 | a position with no cell gets a new cell in its initial state; nothing else changes |
| Grids.Grid.SetHAt | resources/scripts/grid.js:48 | only the h of the cell at that position changes |
| Grids.Grid.Recompute | resources/scripts/grid.js:41-48 | the cell at that position ends in `Made` of the old states |
| Grids.Grid.FillArea | resources/scripts/grid.js:37-49 | every point of the area holds a cell in the `Made` state; only cells of the area are new |
| Grids.Grid.CreateCells | resources/scripts/grid.js:36-62 | as `FillArea`, followed by one addcell event per point |
| Grids.Grid.DropHolders | resources/scripts/grid.js:65-75 | a start or target inside the area is dropped, and then the search is reset without new h; otherwise nothing changes |
| Grids.Grid.RemoveCells | resources/scripts/grid.js:64-93 | as `DropHolders`, followed by one removecell event per point; the cells stay stored |
| Grids.Grid.StoreSize | resources/scripts/grid.js:194 | the size is stored before the strip is made or removed |
| Grids.Grid.Grow | resources/scripts/grid.js:194-227 | the strip is created in the `Made` state, the grid stays fully stored, and the events are the addcells then the size change |
| Grids.Grid.GrowStrip | resources/scripts/grid.js:196-204 | creating the strip after the size is stored |
| Grids.Grid.Shrink | resources/scripts/grid.js:205-227 | a start or target in the strip is dropped and the search is reset when one was; the events are the reset, the removecells and the size change |
| Grids.Grid.Resize | resources/scripts/grid.js:194-227 | no change, a grow or a shrink, each with its cells, holders, search state and events |
| Grids.Grid.SetSize | resources/scripts/grid.js:181-230 | a bad size throws and changes nothing; otherwise `Resize`'s three cases (the height setter at grid.js:238-287 is the same with the axes swapped) |
| Grids.Grid.HandOver | resources/scripts/grid.js:107-111 | the old holder becomes traversable and the new one takes the kind |
| Grids.Grid.ChangeTarget | resources/scripts/grid.js:104-127 | the type is handed over, the target is stored, the search is reset with new h, and then targetchange fires |
| Grids.Grid.SetTarget | resources/scripts/grid.js:101-134 | a non-cell throws and changes nothing; the same target changes nothing; otherwise as `ChangeTarget` |
| Grids.Grid.ChangeStart | resources/scripts/grid.js:144-166 | the type is handed over, the start is stored, the search is reset keeping h, and then startchange fires |
| Grids.Grid.SetStart | resources/scripts/grid.js:141-173 | a non-cell throws and changes nothing; the same start changes nothing; otherwise as `ChangeStart` |
| Grids.Grid.StoreCanWalkDiagonal | resources/scripts/grid.js:297-308 | stores the flag even when unchanged, resets with new h, and fires with old = !v |
| Grids.Grid.SetCanWalkDiagonal | resources/scripts/grid.js:294-314 | a non-boolean throws and changes nothing; otherwise as `StoreCanWalkDiagonal` |
| Grids.Grid.StoreSteppingCost | resources/scripts/grid.js:324-336 | stores the cost, resets with new h, and fires old and new |
| Grids.Grid.SetSteppingCost | resources/scripts/grid.js:321-344 | no number, or one that is not positive, throws and changes nothing; otherwise as `StoreSteppingCost` |
| Grids.Grid.constructor | resources/scripts/grid.js:27-34 | an empty 0 × 0 grid with no start or target, diagonals allowed, cost 1, an empty open list and found false (grid.js:356-362) |

## Left out

- Numbers: `real` stands in for IEEE doubles. `Sqrt2` is the rational 1.4142135623730951, the decimal that `Math.SQRT2` prints. Rounding, overflow and infinities are not modelled. `undefined` and NaN are both `None`.
- Coercion: `parseInt` and `parseFloat` are not modelled, and neither is loose `==`. In JS, the `display` and `canWalkDiagonal` setters accept 0, 1, "0" and "" (cell.js:172, grid.js:296). `Input` folds every value of another type into `Foreign`.
- Cells.Cell.SetX: takes an integer. The string and float inputs that `parseInt` would convert are not modelled. The same holds for `SetY`, `SetH` and `SetG` with `parseFloat`.
- Grids.Grid.SetSteppingCost: takes the result of `parseFloat`, with `None` for NaN. `isFinite` is implicit, because a `real` is always finite.
- Area: the class is not part of this model. Its points are assumed to be visited x outer, y inner. The order of the addcell and removecell events depends on that assumption.
- OpenOrder.Sort: a stable insertion sort. `Array.prototype.sort` leaves the order implementation-defined when the comparator is inconsistent. Keys that mix numbers with NaN make grid.js:460-463 inconsistent, so in that case the model chooses one order among those the language allows.
- Cells.Cell.GetPathOfCell: for a checked cell, requires the walk it follows (`Walk`) as a ghost parameter. The only chains without one are cycles of checked cells, on which the source never stops. `resetPathfinding` leaves `comingFrom` in place, and stale links can form such cycles. A cycle through a cell that is not checked does have a walk, and the model throws there as the source does. The list the source builds is only ghost, because it is never returned.
- Events: dispatch is modelled as appending to `log`. Listeners, and anything they might do during dispatch, are not modelled.
- Grid storage: `grid[x][y]` is a map from positions to cells. JavaScript's sparse nested arrays are not modelled. A position outside the map reads as `undefined`.
- Width and height shrink: the source keeps the cells of a removed strip, as the model does. Because of `newW - 1` at grid.js:208, the strip also includes the last column that stays. That column is announced as removed, and a start or target in it is dropped. The model does this as written.
- The start cell's `appendPossibleCells()` at grid.js:419 is called without an argument, so it returns at once. The model's reset therefore leaves the open list as `[start]`.
- `Object.makeEventManager`, the demo's table and pathfinder scripts and the page around them are not part of this model.
