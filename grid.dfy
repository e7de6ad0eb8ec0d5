/** The A* engine (resources/scripts/grid.js): a grid of cells, the start and
    target, the open list, and the operations that expand it one step at a
    time. The dispatched events are kept in order in `log`. */
module Grids {
  import opened Common
  import opened Areas
  import opened Heuristics
  import opened OpenOrder
  import opened Cells

  /** A dispatched grid event with its payload. */
  datatype GridEvent =
    | AddCell(added: Cell, x: int, y: int)
    | RemoveCell(removed: Cell?, x: int, y: int)   // null: nothing was ever stored there
    | TargetChange(oldTarget: Cell?, newTarget: Cell?)
    | StartChange(oldStart: Cell?, newStart: Cell?)
    | WidthChange(oldWidth: int, newWidth: int)
    | HeightChange(oldHeight: int, newHeight: int)
    | CanWalkDiagonalChange(oldValue: bool, newValue: bool)
    | SteppingCostChange(oldCost: real, newCost: real)
    | PathfindingReset

  /** What `step` reports. `'undefined'` is the initial value of the result
      variable; every path overwrites it. */
  datatype Status = Found | Undefined | Progressed | NoCells

  /** `getCell`'s bounds test, negated. */
  predicate OutOfBounds(x: int, y: int, width: int, height: int) {
    x < 0 || y < 0 || y > height - 1 || x > width - 1
  }

  /** The offset of position k (0 to 8) of the neighbour loops: x outer, y inner. */
  function OffsetX(k: nat): (r: int) { if k < 3 then -1 else if k < 6 then 0 else 1 }
  function OffsetY(k: nat): (r: int) { k - 3 * (OffsetX(k) + 1) - 1 }

  /** The position of the offset (dx, dy) in the loops' order. */
  function Position(dx: int, dy: int): (r: int) { 3 * (dx + 1) + (dy + 1) }

  /** Positions and offsets are two views of the same nine places. */
  lemma PositionOffset(k: nat)
    requires k < 9
    ensures Position(OffsetX(k), OffsetY(k)) == k
    ensures -1 <= OffsetX(k) <= 1 && -1 <= OffsetY(k) <= 1
  {
  }

  /** Position 3 (xS + 1) + (yS + 1) of the loops has the offset (xS, yS). */
  lemma OffsetsAt(xS: int, yS: int)
    requires -1 <= xS <= 1 && -1 <= yS <= 1
    ensures OffsetX(3 * (xS + 1) + (yS + 1)) == xS && OffsetY(3 * (xS + 1) + (yS + 1)) == yS
  {
    assert xS == -1 || xS == 0 || xS == 1;
    assert yS == -1 || yS == 0 || yS == 1;
  }

  /** Whether the loops look at position k: never the origin, and a diagonal
      only when diagonal moves are allowed. */
  predicate Looked(k: nat, diagonal: bool) {
    !(OffsetX(k) == 0 && OffsetY(k) == 0) && (diagonal || OffsetX(k) == 0 || OffsetY(k) == 0)
  }

  /** The number of positions below k that the loops look at. */
  function Slots(k: nat, diagonal: bool): (r: nat) {
    if k == 0 then 0 else Slots(k - 1, diagonal) + (if Looked(k - 1, diagonal) then 1 else 0)
  }

  /** Eight neighbours with diagonal moves, four without. */
  lemma SlotsTotal()
    ensures Slots(9, true) == 8 && Slots(9, false) == 4
  {
  }

  /** The heuristic for a cell at (x, y), given the target's position if there
      is a target: `undefined` without one. */
  function Heuristic(x: int, y: int, target: Option<(int, int)>, diagonal: bool, cost: real): (r: Option<real>) {
    if target.None? then None
    else Some(Estimate(x, y, target.value.0, target.value.1, diagonal, cost))
  }

  /** Builds the key map the open list is sorted by. */
  function Keys(s: seq<Cell>): (m: map<Cell, Key>)
    reads (set c | c in s)`g, (set c | c in s)`h
  {
    map c | c in s :: Key(c.FValue(), c.h)
  }

  /** Two lists holding the same cells, as a re-sorted list does, hold the
      same cells and give the same keys. */
  lemma KeysAgree(a: seq<Cell>, b: seq<Cell>)
    requires multiset(a) == multiset(b)
    ensures (forall c :: c in a <==> c in b) && Keys(a) == Keys(b)
  {
    assert forall c :: c in a <==> c in multiset(a);
    assert forall c :: c in b <==> c in multiset(b);
  }

  /** What re-sorting promises of the open list s, built from the cells
      `joined` in the order they were appended: when all its cells have a g
      and an h, it is ordered by (f, h); when none has an f, as without a
      target, it is `joined` unchanged. */
  ghost predicate SortedOpen(s: seq<Cell>, joined: seq<Cell>)
    reads (set c | c in s)`g, (set c | c in s)`h
  {
    && ((forall c :: c in s ==> c.g.Some? && c.h.Some?) ==> SortedBy(s, Keys(s)))
    && ((forall c :: c in s ==> c.FValue().None?) ==> s == joined)
  }

  /** The open list after the sort: when all its cells have a g and an h,
      it is ordered by (f, h); when none has an f, as without a target,
      the sort moves nothing and the cells stay in the order they were
      appended. */
  lemma OpenOrdered(s: seq<Cell>)
    ensures SortedOpen(Sort(s, Keys(s)), s)
  {
    var keys := Keys(s);
    var r := Sort(s, keys);
    KeysAgree(r, s);
    if forall c :: c in r ==> c.g.Some? && c.h.Some? {
      assert AllDefined(s, keys) by {
        forall i | 0 <= i < |s| ensures s[i] in keys && Defined(keys[s[i]]) {
          assert s[i] in r;
        }
      }
      SortSorted(s, keys);
    }
    if forall c :: c in r ==> c.FValue().None? {
      assert forall i :: 0 <= i < |s| ==> s[i] in r;
      SortUndefined(s, keys);
    }
  }

  /** Appending new cells to an open list without repeats and sorting
      gives no repeats. */
  lemma OpenDistinct(a: seq<Cell>, b: seq<Cell>)
    ensures Distinct(a) && Distinct(b) && (forall c :: c in b ==> c !in a) ==> Distinct(Sort(a + b, Keys(a + b)))
  {
    if Distinct(a) && Distinct(b) && (forall c :: c in b ==> c !in a) {
      SortJoinKeepsDistinct(a, b, Keys(a + b));
    }
  }

  /** `v - 1 < 0 ? 0 : v - 1`: the last index of a size, never below 0. */
  function LastIndex(v: int): (r: nat)
  {
    if v - 1 < 0 then 0 else v - 1
  }

  /** The area a width change between `lo` and `hi` columns hands to
      `createCells` (growing) or `removeCells` (shrinking): the columns from
      the last index of the smaller width to the last index of the larger
      one, over all rows. */
  function WidthArea(lo: int, hi: int, height: int): (r: Area) {
    Area(LastIndex(lo), LastIndex(hi), 0, height - 1)
  }

  /** The same for a height change between `lo` and `hi` rows. */
  function HeightArea(lo: int, hi: int, width: int): (r: Area) {
    Area(0, width - 1, LastIndex(lo), LastIndex(hi))
  }

  /** A width that grows from `lo` to `hi` creates every new column, and
      recomputes the column before them; a width that shrinks announces the
      columns that leave the grid, and also the last column that stays. */
  lemma {:induction false} WidthAreaSpan(lo: int, hi: int, height: int)
    requires 0 <= lo < hi
    ensures forall x, y :: lo <= x < hi && 0 <= y < height ==> Contains(WidthArea(lo, hi, height), x, y)
    ensures forall x, y :: Contains(WidthArea(lo, hi, height), x, y) ==>
              LastIndex(lo) <= x < hi && 0 <= y < height
    ensures lo >= 1 ==> forall y :: 0 <= y < height ==> Contains(WidthArea(lo, hi, height), LastIndex(lo), y)
  {
  }

  /** The same for the rows of a height change. */
  lemma {:induction false} HeightAreaSpan(lo: int, hi: int, width: int)
    requires 0 <= lo < hi
    ensures forall x, y :: 0 <= x < width && lo <= y < hi ==> Contains(HeightArea(lo, hi, width), x, y)
    ensures forall x, y :: Contains(HeightArea(lo, hi, width), x, y) ==>
              0 <= x < width && LastIndex(lo) <= y < hi
    ensures lo >= 1 ==> forall x :: 0 <= x < width ==> Contains(HeightArea(lo, hi, width), x, LastIndex(lo))
  {
  }

  /** The area a change of `dim` from `lo` to `hi` hands to `createCells`
      or `removeCells`, `other` being the size along the other axis. */
  function ResizeArea(dim: Dimension, lo: int, hi: int, other: int): (r: Area) {
    if dim == Width then WidthArea(lo, hi, other) else HeightArea(lo, hi, other)
  }

  /** The `widthchange` or `heightchange` event. */
  function SizeChange(dim: Dimension, was: int, now: int): (r: GridEvent) {
    if dim == Width then WidthChange(was, now) else HeightChange(was, now)
  }

  /** The checks the width and height setters make before changing anything:
      `parseInt(value) !== value` rejects what is not an integer, and a
      negative integer is rejected next. */
  function ParseSize(dim: Dimension, v: Input<int>): (r: Result<nat>)
  {
    if v.Foreign? then Err(NotAnInteger(dim))
    else if v.value < 0 then Err(Negative(dim))
    else Ok(v.value)
  }

  /** The events `removeCells` fires before its `removecell` events: the
      reset, when it dropped the start or the target. */
  function ResetMark(dropped: bool): (r: seq<GridEvent>) {
    if dropped then [PathfindingReset] else []
  }

  /** The cell stored at p, or nothing. */
  function Lookup(cells: map<(int, int), Cell>, p: (int, int)): (c: Cell?)
  {
    if p in cells then cells[p] else null
  }

  /** Every position of a width x height grid holds a cell in m. */
  ghost predicate CoversAll(m: map<(int, int), Cell>, width: int, height: int) {
    forall x, y :: 0 <= x < width && 0 <= y < height ==> (x, y) in m
  }

  /** The width (when `dim` is `Width`) or the height of a grid whose size
      along `dim` is `along` and whose other size is `across`. */
  function Side(dim: Dimension, along: int, across: int, axis: Dimension): (r: int) {
    if dim == axis then along else across
  }

  /** Growing the size along `dim` from `was` to n keeps every position
      inside the new bounds stored, once the old cells are kept and the
      grown strip is filled. */
  lemma GrowCovers(dim: Dimension, was: int, n: int, other: int, m0: map<(int, int), Cell>, m: map<(int, int), Cell>)
    requires 0 <= was < n
    requires CoversAll(m0, Side(dim, was, other, Width), Side(dim, was, other, Height))
    requires Extends(m0, m)
    requires forall q: (int, int) :: Contains(ResizeArea(dim, was, n, other), q.0, q.1) ==> q in m
    ensures CoversAll(m, Side(dim, n, other, Width), Side(dim, n, other, Height))
  {
    if dim == Width {
      WidthAreaSpan(was, n, other);
    } else {
      HeightAreaSpan(was, n, other);
    }
  }

  /** The cell a target or start setter is handed, as a set: empty for
      `undefined` and for a value that is not a cell. */
  function Handed(v: Input<Cell?>): (r: set<Cell>) {
    if v.Given? && v.value != null then {v.value} else {}
  }

  /** What the target and start setters do to a cell's kind before the
      reset: the new holder takes kind k, the old one becomes traversable. */
  function HandedOver(s: CellState, wasHolder: bool, isHolder: bool, k: Kind): (r: CellState) {
    if isHolder then WithKind(s, k) else if wasHolder then WithKind(s, Traversable) else s
  }

  /** Every cell of m0 is still stored, under the same position, in m. */
  ghost predicate Extends(m0: map<(int, int), Cell>, m: map<(int, int), Cell>) {
    forall q :: q in m0 ==> q in m && m[q] == m0[q]
  }

  /** The state of each stored cell, by position. */
  function StatesAt(m: map<(int, int), Cell>): (r: map<(int, int), CellState>)
    reads m.Values
    ensures r.Keys == m.Keys
  {
    map q | q in m :: m[q].State()
  }

  /** The state `createCells` leaves at q, given the states `before` stored
      beforehand: the stored cell's, or a new cell's at q, with its h set to
      the estimate h through the `hValue` setter. */
  function Made(before: map<(int, int), CellState>, q: (int, int), h: Option<real>): (r: CellState)
  {
    WithH(if q in before then before[q] else Initial(q.0, q.1), h)
  }

  /** The cells m stores inside the area a. */
  function StoredIn(m: map<(int, int), Cell>, a: Area): (r: set<Cell>) {
    set q | q in m && Contains(a, q.0, q.1) :: m[q]
  }

  /** While the rows of a column are visited, the cell at an unvisited
      row (x, y) of the column, when there is one, was stored in c0. */
  lemma RowStored(c0: map<(int, int), Cell>, m: map<(int, int), Cell>, a: Area, x: int, y: int)
    requires Extends(c0, m) && (forall q :: q in m && q !in c0 ==> q.1 < y) && Contains(a, x, y)
    ensures (x, y) in m ==> m[(x, y)] in StoredIn(c0, a)
  {
    if (x, y) in m {
      assert (x, y) in c0 && c0[(x, y)] == m[(x, y)];
    }
  }

  /** While the columns of an area are visited, the cells stored in an
      unvisited column x were stored in c0 inside the area. */
  lemma ColumnStored(st: map<(int, int), CellState>, s0: map<(int, int), CellState>, c0: map<(int, int), Cell>,
                     m: map<(int, int), Cell>, a: Area, x: int, tp: Option<(int, int)>, diagonal: bool, cost: real)
    requires FilledUpTo(st, s0, a, x, a.y1, tp, diagonal, cost) && st.Keys == m.Keys && s0.Keys == c0.Keys
    requires Extends(c0, m) && a.x1 <= x <= a.x2
    ensures StoredIn(m, Area(x, x, a.y1, a.y2)) <= StoredIn(c0, a)
  {
    forall c | c in StoredIn(m, Area(x, x, a.y1, a.y2)) ensures c in StoredIn(c0, a) {
      var q :| q in m && Contains(Area(x, x, a.y1, a.y2), q.0, q.1) && m[q] == c;
      assert q in st && !Visited(a, q, x, a.y1);
      assert q in c0 && c0[q] == c && Contains(a, q.0, q.1);
    }
  }

  /** A key updated twice holds the second value. */
  lemma UpdateTwice<K, V>(m: map<K, V>, k: K, a: V, b: V)
    ensures m[k := a][k := b] == m[k := b]
  {
  }

  /** What `createCells` leaves at q: h is the estimate; a point with no
      stored cell gets a traversable, hidden cell at q with no g and no
      predecessor that has fired its creation events; a stored cell keeps
      all but h, and its events grow by one `hchange` at most. */
  lemma MadeCell(before: map<(int, int), CellState>, q: (int, int), h: Option<real>)
    ensures Made(before, q, h).h == h
    ensures q !in before ==>
      var r := Made(before, q, h);
      && r.kind == Traversable && r.x == q.0 && r.y == q.1 && r.g.None? && !r.display && r.comingFrom == null
      && r.log[..4] == [TypeChange(None, Traversable), DisplayChange(None, false), XChange(None, q.0), YChange(None, q.1)]
    ensures q in before ==>
      var r := Made(before, q, h);
      && r.(h := before[q].h, log := before[q].log) == before[q]
      && before[q].log <= r.log && |r.log| <= |before[q].log| + 1
  {
    WithHRepeated(if q in before then before[q] else Initial(q.0, q.1), h);
  }

  /** `createCells(area)` visits the area column by column, and each column
      row by row: q comes before the point (x, y). */
  predicate Visited(a: Area, q: (int, int), x: int, y: int) {
    Contains(a, q.0, q.1) && (q.0 < x || (q.0 == x && q.1 < y))
  }

  /** The states st, against the states s0 stored at the start of
      `createCells(a)`: every point visited before (x, y) holds the state
      `createCells` leaves there, every other stored point keeps its state,
      and only visited points were added. */
  ghost predicate FilledUpTo(st: map<(int, int), CellState>, s0: map<(int, int), CellState>, a: Area, x: int, y: int,
                             tp: Option<(int, int)>, diagonal: bool, cost: real)
  {
    && (forall q :: q in st && q !in s0 ==> Visited(a, q, x, y))
    && (forall q {:trigger Visited(a, q, x, y)} ::
          Visited(a, q, x, y) ==> q in st && st[q] == Made(s0, q, Heuristic(q.0, q.1, tp, diagonal, cost)))
    && (forall q :: q in s0 && !Visited(a, q, x, y) ==> q in st && st[q] == s0[q])
  }

  /** Before the first point of the area is visited, nothing is filled. */
  lemma FillStart(s0: map<(int, int), CellState>, a: Area, tp: Option<(int, int)>, diagonal: bool, cost: real)
    ensures FilledUpTo(s0, s0, a, a.x1, a.y1, tp, diagonal, cost)
  {
  }

  /** Visiting (x, y) of the area extends the states filled so far by one
      point, whatever was stored there before the loop began. */
  lemma FillStep(st: map<(int, int), CellState>, s0: map<(int, int), CellState>, a: Area, x: int, y: int,
                 tp: Option<(int, int)>, diagonal: bool, cost: real)
    requires FilledUpTo(st, s0, a, x, y, tp, diagonal, cost) && Contains(a, x, y)
    ensures FilledUpTo(st[(x, y) := Made(st, (x, y), Heuristic(x, y, tp, diagonal, cost))], s0, a, x, y + 1, tp, diagonal, cost)
  {
    var next := st[(x, y) := Made(st, (x, y), Heuristic(x, y, tp, diagonal, cost))];
    assert !Visited(a, (x, y), x, y);
    assert Made(st, (x, y), Heuristic(x, y, tp, diagonal, cost)) == Made(s0, (x, y), Heuristic(x, y, tp, diagonal, cost));
    forall q | Visited(a, q, x, y + 1)
      ensures q in next && next[q] == Made(s0, q, Heuristic(q.0, q.1, tp, diagonal, cost))
    {
      if q != (x, y) {
        assert Visited(a, q, x, y);
      }
    }
  }

  /** Past the last row of column x, the first row of column x + 1 is next. */
  lemma FillColumn(st: map<(int, int), CellState>, s0: map<(int, int), CellState>, a: Area, x: int, y: int,
                   tp: Option<(int, int)>, diagonal: bool, cost: real)
    requires FilledUpTo(st, s0, a, x, y, tp, diagonal, cost) && a.y2 < y
    ensures FilledUpTo(st, s0, a, x + 1, a.y1, tp, diagonal, cost)
  {
    forall q | Visited(a, q, x + 1, a.y1)
      ensures q in st && st[q] == Made(s0, q, Heuristic(q.0, q.1, tp, diagonal, cost))
    {
      assert Visited(a, q, x, y);
    }
  }

  /** Past the last column, every point of the area is filled. */
  lemma FillDone(st: map<(int, int), CellState>, s0: map<(int, int), CellState>, a: Area, x: int,
                 tp: Option<(int, int)>, diagonal: bool, cost: real)
    requires FilledUpTo(st, s0, a, x, a.y1, tp, diagonal, cost) && a.x2 < x
    ensures forall q: (int, int) :: Contains(a, q.0, q.1) ==> q in st && st[q] == Made(s0, q, Heuristic(q.0, q.1, tp, diagonal, cost))
  {
    forall q: (int, int) | Contains(a, q.0, q.1)
      ensures q in st && st[q] == Made(s0, q, Heuristic(q.0, q.1, tp, diagonal, cost))
    {
      assert Visited(a, q, x, a.y1);
    }
  }

  /** Every point of ps holds a cell in m. */
  ghost predicate AllStored(ps: seq<(int, int)>, m: map<(int, int), Cell>) {
    forall p :: p in ps ==> p in m
  }

  /** The `addcell` events for the points ps, in order, each carrying the
      cell m holds there. */
  function AddEvents(ps: seq<(int, int)>, m: map<(int, int), Cell>): (r: seq<GridEvent>)
    requires AllStored(ps, m)
    ensures |r| == |ps|
    ensures forall j :: 0 <= j < |ps| ==> r[j] == AddCell(m[ps[j]], ps[j].0, ps[j].1)
  {
    if ps == [] then [] else AddEvents(ps[..|ps| - 1], m) + [AddCell(m[ps[|ps| - 1]], ps[|ps| - 1].0, ps[|ps| - 1].1)]
  }

  /** The `removecell` events for the points ps, in order, each carrying
      what m holds there (nothing, where no cell was ever stored). */
  function RemoveEvents(ps: seq<(int, int)>, m: map<(int, int), Cell>): (r: seq<GridEvent>)
    ensures |r| == |ps|
    ensures forall j :: 0 <= j < |ps| ==> r[j] == RemoveCell(Lookup(m, ps[j]), ps[j].0, ps[j].1)
  {
    if ps == [] then [] else RemoveEvents(ps[..|ps| - 1], m) + [RemoveCell(Lookup(m, ps[|ps| - 1]), ps[|ps| - 1].0, ps[|ps| - 1].1)]
  }

  /** What `resetPathfinding` does to a cell inside the bounds: g is
      cleared, h is recomputed when asked for, and a checked cell becomes
      traversable again. */
  function Cleared(s: CellState, h: Option<real>, resetH: bool): (r: CellState) {
    var noG := WithG(s, None);
    var newH := if resetH then WithH(noG, h) else noG;
    if newH.kind == Checked then WithKind(newH, Traversable) else newH
  }

  /** What `resetPathfinding` does to any cell: cleared when the loops visit
      it, then given g = 0 when it is the start. */
  function AfterReset(s: CellState, visited: bool, isStart: bool, h: Option<real>, resetH: bool): (r: CellState) {
    var t := if visited then Cleared(s, h, resetH) else s;
    if isStart then WithG(t, Some(0.0)) else t
  }

  /** A cleared cell has no g and is not displayed, is no longer checked,
      keeps every other kind and its position, and holds the new h exactly
      when h was recomputed. */
  lemma ClearedCell(s: CellState, h: Option<real>, resetH: bool)
    ensures var t := Cleared(s, h, resetH);
      t.g == None && !t.display && t.kind != Checked
      && (s.kind != Checked ==> t.kind == s.kind)
      && t.h == (if resetH then h else s.h)
      && SameCoordinates(s, t) && t.comingFrom == s.comingFrom
  {
  }

  /** The filter of `appendPossibleCells`: the cells around that are not open
      yet and are traversable or the target, kept in their order. */
  function Usable(around: seq<Cell>, open: seq<Cell>): (r: seq<Cell>)
    reads (set c | c in around)`kind
    ensures forall c :: c in r ==> c in around && c !in open && (c.kind == Traversable || c.kind == Target)
    ensures forall c :: c in around && c !in open && (c.kind == Traversable || c.kind == Target) ==> c in r
    ensures Distinct(around) ==> Distinct(r)
  {
    if around == [] then []
    else
      var rest := Usable(around[1..], open);
      var c := around[0];
      assert around == [c] + around[1..];
      if c !in open && (c.kind == Traversable || c.kind == Target) then [c] + rest else rest
  }

  /** What `appendPossibleCells` does to one usable cell in state s, seen
      from `from` in state f: when the cell has no g yet, or reaching it
      from `from` with one move, priced at `cost` per straight step, is
      cheaper, that cost becomes its g and `from` its predecessor. A cost
      with no value (`from` had no g) never compares lower. */
  function Relaxed(s: CellState, from: Cell, f: CellState, cost: real): (r: CellState) {
    var calced := Plus(f.g, Some(MoveCost(s.x - f.x, s.y - f.y, cost)));
    if s.g.None? || (calced.Some? && calced.value < s.g.value) then WithComingFrom(WithG(s, calced), from)
    else s
  }

  /** Relaxation through a cell with a g: afterwards the cell's g is at most
      the cost through `from` and never higher than before; a cell whose g
      was lowered or first set is reached from `from`; nothing but g,
      display, predecessor and the log changes. */
  lemma RelaxedBound(s: CellState, from: Cell, f: CellState, cost: real)
    requires f.g.Some?
    ensures var t := Relaxed(s, from, f, cost);
      t.g.Some? && t.g.value <= f.g.value + MoveCost(s.x - f.x, s.y - f.y, cost)
      && (s.g.Some? ==> t.g.value <= s.g.value)
      && (t.g != s.g ==> t.comingFrom == from && t.display)
      && t.kind == s.kind && t.h == s.h && SameCoordinates(s, t)
  {
  }

  /** The states of the cells of cs, as a snapshot. */
  function StatesOf(cs: set<Cell>): (m: map<Cell, CellState>)
    reads cs
    ensures m.Keys == cs
  {
    map c | c in cs :: c.State()
  }

  /** Against the snapshot `before`, the cells of cs that are `newcomers`
      were relaxed through `from`, in state f, and every other cell of cs is
      as it was; all newcomers are cells of cs. */
  ghost predicate RelaxedFrom(cs: set<Cell>, before: map<Cell, CellState>, newcomers: seq<Cell>, from: Cell, f: CellState, cost: real)
    reads cs
  {
    (forall c :: c in newcomers ==> c in cs)
    && forall c {:trigger c.State()} :: c in cs ==>
         c in before && c.State() == if c in newcomers then Relaxed(before[c], from, f, cost) else before[c]
  }

  /** One expansion against the snapshot `before`: the popped cell `from`,
      which was in state `was`, is marked checked unless it is the start,
      and the other cells, cs, are relaxed through `from` in its new state
      as RelaxedFrom says. */
  ghost predicate ExpandedFrom(cs: set<Cell>, before: map<Cell, CellState>, newcomers: seq<Cell>, from: Cell, was: CellState,
                               isStart: bool, cost: real)
    reads cs, from
  {
    && from.State() == (if isStart then was else WithKind(was, Checked))
    && RelaxedFrom(cs, before, newcomers, from, from.State(), cost)
  }

  /** The open list s after `appendPossibleCells`: the cells `before` with
      the `newcomers` appended, sorted by (f, h), with what the sort
      promises, and without repeats when `before` had none. */
  ghost predicate Requeued(s: seq<Cell>, before: seq<Cell>, newcomers: seq<Cell>)
    reads (set c | c in before + newcomers)`g, (set c | c in before + newcomers)`h, (set c | c in s)`g, (set c | c in s)`h
  {
    && s == Sort(before + newcomers, Keys(before + newcomers))
    && SortedOpen(s, before + newcomers)
    && (Distinct(before) ==> Distinct(s))
  }

  /** The cells of s sit at strictly increasing positions around (x, y),
      in the order the neighbour loops visit them. */
  ghost predicate InLoopOrder(s: seq<Cell>, x: int, y: int)
    reads set c | c in s
  {
    forall i, j :: 0 <= i < j < |s| ==> Position(s[i].x - x, s[i].y - y) < Position(s[j].x - x, s[j].y - y)
  }

  /** A cell beyond every position of an ordered sequence extends it in order. */
  lemma AppendInOrder(s: seq<Cell>, c: Cell, x: int, y: int)
    requires InLoopOrder(s, x, y)
    requires forall d :: d in s ==> Position(d.x - x, d.y - y) < Position(c.x - x, c.y - y)
    ensures InLoopOrder(s + [c], x, y)
  {
    var t := s + [c];
    forall i, j | 0 <= i < j < |t| ensures Position(t[i].x - x, t[i].y - y) < Position(t[j].x - x, t[j].y - y) {
      assert t[i] == s[i] && s[i] in s;
      if j < |s| {
        assert t[j] == s[j];
      }
    }
  }

  class Grid {
    var width: int
    var height: int
    var start: Cell?
    var target: Cell?
    var canWalkDiagonal: bool
    var steppingCost: real
    var openList: seq<Cell>
    var found: bool
    /** The backing array: the cell at column x, row y is `cells[(x, y)]`. */
    var cells: map<(int, int), Cell>
    var log: seq<GridEvent>

    /** Every stored cell sits at its own coordinates, the sizes are not
        negative and the cost is positive. */
    ghost predicate Coherent()
      reads this`width, this`height, this`steppingCost, this`cells, cells.Values`x, cells.Values`y
    {
      0 <= width && 0 <= height && 0.0 < steppingCost
      && forall p :: p in cells ==> cells[p].x == p.0 && cells[p].y == p.1
    }

    /** Every position inside the bounds holds a cell. */
    ghost predicate Covered()
      reads this`width, this`height, this`cells
    {
      CoversAll(cells, width, height)
    }

    ghost predicate Valid()
      reads this`width, this`height, this`steppingCost, this`cells, cells.Values`x, cells.Values`y
    {
      Coherent() && Covered()
    }

    /** The cells the grid's operations may change. */
    function Touched(): (r: set<Cell>)
      reads this
    {
      cells.Values + (set c | c in openList) + (if start == null then {} else {start})
        + (if target == null then {} else {target})
    }

    /** The first open cell, as a set: empty when the list is. */
    function Front(): (r: set<Cell>)
      reads this`openList
    {
      if openList == [] then {} else {openList[0]}
    }

    /** The target, as a set: empty when there is none. */
    function TargetCell(): (r: set<Cell>)
      reads this`target
    {
      if target == null then {} else {target}
    }

    /** The start, as a set: empty when there is none. */
    function StartCell(): (r: set<Cell>)
      reads this`start
    {
      if start == null then {} else {start}
    }

    /** `getCell`: no cell outside the bounds, the stored cell inside them. */
    function GetCell(x: int, y: int): (c: Cell?)
      reads this`width, this`height, this`cells
      ensures OutOfBounds(x, y, width, height) ==> c == null
      ensures c != null ==> (x, y) in cells && c == cells[(x, y)]
      ensures Covered() ==> (c == null <==> OutOfBounds(x, y, width, height))
    {
      if OutOfBounds(x, y, width, height) then null
      else if (x, y) in cells then cells[(x, y)]
      else null
    }

    /** The target's position, if there is a target. */
    function TargetPoint(): (r: Option<(int, int)>)
      reads this`target, TargetCell()`x, TargetCell()`y
    {
      if target == null then None else Some((target.x, target.y))
    }

    /** `calcHCell`: no value without a target, the estimate towards it
        otherwise. */
    function CalcHCell(c: Cell): (r: Option<real>)
      reads this`target, this`canWalkDiagonal, this`steppingCost, c`x, c`y, TargetCell()`x, TargetCell()`y
      ensures r.None? <==> target == null
    {
      Heuristic(c.x, c.y, TargetPoint(), canWalkDiagonal, steppingCost)
    }

    /** What `calcHCell` computes: the stepping cost times the Manhattan
        distance, or the octile distance when diagonal moves are allowed;
        never negative, and zero exactly on the target's position. */
    lemma CalcHCellValue(c: Cell)
      requires target != null
      ensures CalcHCell(c).Some?
      ensures !canWalkDiagonal ==>
                CalcHCell(c).value == steppingCost * (Delta(c.x, target.x) + Delta(c.y, target.y)) as real
      ensures canWalkDiagonal ==>
                CalcHCell(c).value == steppingCost * Octile(Delta(c.x, target.x), Delta(c.y, target.y))
      ensures 0.0 < steppingCost ==>
                0.0 <= CalcHCell(c).value && (CalcHCell(c).value == 0.0 <==> c.x == target.x && c.y == target.y)
    {
      if 0.0 < steppingCost {
        EstimateNonNegative(c.x, c.y, target.x, target.y, canWalkDiagonal, steppingCost);
      }
    }

    /** The cells the neighbour loops have collected after looking at the
        positions below k. */
    function Surrounding(x: int, y: int, k: nat): (r: seq<Cell>)
      reads this`width, this`height, this`cells, this`canWalkDiagonal
      requires k <= 9
    {
      if k == 0 then []
      else
        var c := GetCell(x + OffsetX(k - 1), y + OffsetY(k - 1));
        Surrounding(x, y, k - 1) + (if Looked(k - 1, canWalkDiagonal) && c != null then [c] else [])
    }

    /** c is a stored cell next to (x, y) that the loops can reach: at most
        one away on each axis, not (x, y) itself, and straight when diagonal
        moves are not allowed. */
    predicate InReach(c: Cell, x: int, y: int)
      reads this`width, this`height, this`cells, this`canWalkDiagonal, c`x, c`y
    {
      c == GetCell(c.x, c.y)
      && -1 <= c.x - x <= 1 && -1 <= c.y - y <= 1 && (c.x, c.y) != (x, y)
      && (canWalkDiagonal || c.x == x || c.y == y)
    }

    /** Each collected cell is in reach and sits at a position below k. */
    lemma {:induction false} SurroundingPlaces(x: int, y: int, k: nat)
      requires Coherent() && k <= 9
      ensures forall c :: c in Surrounding(x, y, k) ==> InReach(c, x, y) && Position(c.x - x, c.y - y) < k
    {
      if k > 0 {
        SurroundingPlaces(x, y, k - 1);
        var prev := Surrounding(x, y, k - 1);
        var c := GetCell(x + OffsetX(k - 1), y + OffsetY(k - 1));
        if Looked(k - 1, canWalkDiagonal) && c != null {
          CollectedInReach(x, y, k - 1);
          assert Surrounding(x, y, k) == prev + [c];
        } else {
          assert Surrounding(x, y, k) == prev;
        }
      }
    }

    /** The cell collected at position j is in reach and sits at j. */
    lemma CollectedInReach(x: int, y: int, j: nat)
      requires Coherent() && j < 9 && Looked(j, canWalkDiagonal) && GetCell(x + OffsetX(j), y + OffsetY(j)) != null
      ensures var c := GetCell(x + OffsetX(j), y + OffsetY(j));
        InReach(c, x, y) && Position(c.x - x, c.y - y) == j
    {
      PositionOffset(j);
      var c := GetCell(x + OffsetX(j), y + OffsetY(j));
      assert c.x == x + OffsetX(j) && c.y == y + OffsetY(j);
    }

    /** At most one cell is collected per position looked at. */
    lemma {:induction false} SurroundingCount(x: int, y: int, k: nat)
      requires k <= 9
      ensures |Surrounding(x, y, k)| <= Slots(k, canWalkDiagonal)
    {
      if k > 0 {
        SurroundingCount(x, y, k - 1);
      }
    }

    /** The cells are collected in the loops' order: each sits at a
        position beyond those of the cells before it. */
    lemma {:induction false} SurroundingOrdered(x: int, y: int, k: nat)
      requires Coherent() && k <= 9
      ensures InLoopOrder(Surrounding(x, y, k), x, y)
    {
      if k > 0 {
        SurroundingOrdered(x, y, k - 1);
        var prev := Surrounding(x, y, k - 1);
        var c := GetCell(x + OffsetX(k - 1), y + OffsetY(k - 1));
        if Looked(k - 1, canWalkDiagonal) && c != null {
          SurroundingPlaces(x, y, k - 1);
          PositionOffset(k - 1);
          assert c.x == x + OffsetX(k - 1) && c.y == y + OffsetY(k - 1);
          AppendInOrder(prev, c, x, y);
          assert Surrounding(x, y, k) == prev + [c];
        } else {
          assert Surrounding(x, y, k) == prev;
        }
      }
    }

    /** No cell is collected twice, since no two sit at the same position. */
    lemma SurroundingDistinct(x: int, y: int, k: nat)
      requires Coherent() && k <= 9
      ensures Distinct(Surrounding(x, y, k))
    {
      SurroundingOrdered(x, y, k);
    }

    /** A cell in reach is collected when the loops look at its position. */
    lemma SurroundingAt(x: int, y: int, c: Cell)
      requires InReach(c, x, y)
      ensures Position(c.x - x, c.y - y) < 9 && c in Surrounding(x, y, Position(c.x - x, c.y - y) + 1)
    {
      var k := Position(c.x - x, c.y - y);
      OffsetsAt(c.x - x, c.y - y);
      assert x + OffsetX(k) == c.x && y + OffsetY(k) == c.y;
      SurroundingTakes(x, y, k, c);
    }

    /** The cell at a position the loops look at is collected there. */
    lemma SurroundingTakes(x: int, y: int, k: nat, c: Cell)
      requires k < 9 && Looked(k, canWalkDiagonal) && GetCell(x + OffsetX(k), y + OffsetY(k)) == c
      ensures c in Surrounding(x, y, k + 1)
    {
    }

    /** What the loops have collected is only ever extended. */
    lemma {:induction false} SurroundingPrefix(x: int, y: int, j: nat, k: nat)
      requires j <= k <= 9
      ensures Surrounding(x, y, j) <= Surrounding(x, y, k)
      decreases k - j
    {
      if j < k {
        SurroundingPrefix(x, y, j, k - 1);
      }
    }

    /** Every cell in reach has been collected once the loops are done. */
    lemma SurroundingComplete(x: int, y: int)
      ensures forall c :: InReach(c, x, y) ==> c in Surrounding(x, y, 9)
    {
      forall c | InReach(c, x, y) ensures c in Surrounding(x, y, 9) {
        SurroundingAt(x, y, c);
        SurroundingPrefix(x, y, Position(c.x - x, c.y - y) + 1, 9);
      }
    }

    /** `getSorrundingCells(x, y)` on a coherent grid returns exactly the
        stored neighbours of (x, y) in reach: never (x, y) itself, only
        straight neighbours without diagonal moves, and every such
        neighbour; in the loops' order (column by column), no cell twice,
        at most eight cells, and at most four without diagonal moves. */
    lemma SurroundingNeighbours(x: int, y: int)
      requires Coherent()
      ensures var s := Surrounding(x, y, 9);
        (forall c :: c in s <==> InReach(c, x, y))
        && InLoopOrder(s, x, y)
        && Distinct(s)
        && |s| <= 8 && (!canWalkDiagonal ==> |s| <= 4)
    {
      SurroundingPlaces(x, y, 9);
      SurroundingComplete(x, y);
      SurroundingCount(x, y, 9);
      SurroundingOrdered(x, y, 9);
      SurroundingDistinct(x, y, 9);
      SlotsTotal();
    }

    /** `getSorrundingCells(x, y)`: the neighbour loops. */
    method GetSurroundingCells(x: int, y: int) returns (found: seq<Cell>)
      ensures found == Surrounding(x, y, 9)
    {
      found := [];
      for xS := -1 to 2
        invariant found == Surrounding(x, y, 3 * (xS + 1))
      {
        found := GatherColumn(x, y, xS, found);
      }
    }

    /** The inner neighbour loop, over the rows of offset column xS. */
    method GatherColumn(x: int, y: int, xS: int, before: seq<Cell>) returns (found: seq<Cell>)
      requires -1 <= xS <= 1 && before == Surrounding(x, y, 3 * (xS + 1))
      ensures found == Surrounding(x, y, 3 * (xS + 2))
    {
      found := before;
      for yS := -1 to 2
        invariant found == Surrounding(x, y, 3 * (xS + 1) + (yS + 1))
      {
        OffsetsAt(xS, yS);
        if xS == 0 && yS == 0 {
          continue;
        }
        var diagonal := xS != 0 && yS != 0;
        if !canWalkDiagonal && diagonal {
          continue;
        }
        var c := GetCell(x + xS, y + yS);
        if c != null {
          found := found + [c];
        }
      }
    }

    /** The body of the reset loops for one cell. */
    method ClearCell(c: Cell, resetH: bool)
      modifies c`g, c`h, c`kind, c`display, c`log
      ensures c.State() == Cleared(old(c.State()), old(Heuristic(c.x, c.y, TargetPoint(), canWalkDiagonal, steppingCost)), resetH)
    {
      ghost var h := Heuristic(c.x, c.y, TargetPoint(), canWalkDiagonal, steppingCost);
      c.SetG(None);
      if resetH {
        assert TargetPoint() == old(TargetPoint());
        c.SetH(CalcHCell(c));
      }
      if c.kind == Checked {
        c.SetKind(Traversable);
      }
    }

    /** The inner reset loop, over the rows of column x. */
    method ClearColumn(x: int, resetH: bool, ghost touched: set<Cell>, ghost tp: Option<(int, int)>)
      requires Coherent() && cells.Values <= touched && tp == TargetPoint()
      requires target != null ==> target in touched
      modifies touched`g, touched`h, touched`kind, touched`display, touched`log
      ensures forall c {:trigger c.State()} :: c in touched ==>
        c.State() == if GetCell(c.x, c.y) == c && c.x == x
                     then Cleared(old(c.State()), Heuristic(c.x, c.y, tp, canWalkDiagonal, steppingCost), resetH)
                     else old(c.State())
    {
      for y := 0 to height
        invariant TargetPoint() == tp
        invariant forall c {:trigger c.State()} :: c in touched ==>
          c.State() == if GetCell(c.x, c.y) == c && c.x == x && c.y < y
                       then Cleared(old(c.State()), Heuristic(c.x, c.y, tp, canWalkDiagonal, steppingCost), resetH)
                       else old(c.State())
      {
        var c := GetCell(x, y);
        if c != null {
          ClearCell(c, resetH);
        }
      }
    }

    /** The outer reset loop, over the columns. */
    method ClearAll(resetH: bool, ghost touched: set<Cell>, ghost tp: Option<(int, int)>)
      requires Coherent() && cells.Values <= touched && tp == TargetPoint()
      requires target != null ==> target in touched
      modifies touched`g, touched`h, touched`kind, touched`display, touched`log
      ensures forall c :: c in touched ==>
        c.State() == old(AfterReset(c.State(), GetCell(c.x, c.y) == c, false,
                                    Heuristic(c.x, c.y, tp, canWalkDiagonal, steppingCost), resetH))
    {
      for x := 0 to width
        invariant forall c :: c in touched ==>
          c.State() == if GetCell(c.x, c.y) == c && c.x < x
                       then Cleared(old(c.State()), Heuristic(c.x, c.y, tp, canWalkDiagonal, steppingCost), resetH)
                       else old(c.State())
      {
        ClearColumn(x, resetH, touched, tp);
      }
    }

    /** The body of `appendPossibleCells`' `forEach`, for one usable cell. */
    method Relax(cell: Cell, from: Cell)
      requires cell != from
      modifies cell`g, cell`display, cell`comingFrom, cell`log
      ensures cell.State() == Relaxed(old(cell.State()), from, from.State(), steppingCost)
    {
      var diagonal := !(from.x == cell.x || from.y == cell.y);
      var calced := Plus(from.g, Some(steppingCost * (if diagonal then Sqrt2 else 1.0)));
      if cell.g.None? || (calced.Some? && calced.value < cell.g.value) {
        cell.SetG(calced);
        var _ := cell.SetComingFrom(Given(from));
      }
    }

    /** The `forEach` of `appendPossibleCells`: relaxes every usable cell, in order. */
    method RelaxAll(usable: seq<Cell>, from: Cell)
      requires Distinct(usable) && from !in usable
      modifies (set c | c in usable)`g, (set c | c in usable)`display, (set c | c in usable)`comingFrom,
               (set c | c in usable)`log
      ensures forall c {:trigger c.State()} :: c in old(cells.Values) && c in usable ==>
        c.State() == Relaxed(old(c.State()), from, from.State(), steppingCost)
    {
      for i := 0 to |usable|
        invariant forall j :: 0 <= j < i ==>
          usable[j].State() == Relaxed(old(usable[j].State()), from, from.State(), steppingCost)
        invariant forall j :: i <= j < |usable| ==> usable[j].State() == old(usable[j].State())
      {
        Relax(usable[i], from);
      }
    }

    /** The cells `appendPossibleCells(from)` opens with the open list `open`:
        the usable ones around `from`. */
    function Opened(from: Cell, open: seq<Cell>): (r: seq<Cell>)
      reads this`width, this`height, this`cells, this`canWalkDiagonal, from`x, from`y
      reads (set c | c in Surrounding(from.x, from.y, 9))`kind
    {
      Usable(Surrounding(from.x, from.y, 9), open)
    }

    /** The end of `appendPossibleCells`: the usable cells are appended and
        the open list is sorted by (f, h). No cell appears twice when none
        did before and the usable cells are new. */
    method Enqueue(usable: seq<Cell>)
      modifies this`openList
      ensures found == old(found) && (old(Coherent()) ==> Coherent())
      ensures openList == Sort(old(openList) + usable, Keys(old(openList) + usable))
      ensures Distinct(old(openList)) && Distinct(usable) && (forall c :: c in usable ==> c !in old(openList)) ==>
                Distinct(openList)
      ensures SortedOpen(openList, old(openList) + usable)
    {
      var joined := openList + usable;
      openList := Sort(joined, Keys(joined));
      OpenOrdered(joined);
      OpenDistinct(old(openList), usable);
    }

    /** The first half of `appendPossibleCells(from)`: the usable cells
        around `from` are collected and relaxed through it, in order. */
    method RelaxAround(from: Cell) returns (usable: seq<Cell>)
      requires Coherent()
      modifies cells.Values`g, cells.Values`display, cells.Values`comingFrom, cells.Values`log
      ensures Coherent() && found == old(found)
      ensures usable == old(Opened(from, openList))
      ensures Distinct(usable) && forall c :: c in usable ==> c !in openList
      ensures from.State() == old(from.State())
      ensures RelaxedFrom(cells.Values - {from}, old(StatesOf(cells.Values - {from})), usable, from, from.State(), steppingCost)
    {
      var around := GetSurroundingCells(from.x, from.y);
      usable := Usable(around, openList);
      assert usable == old(Opened(from, openList)) by {
        assert around == old(Surrounding(from.x, from.y, 9));
        assert usable == old(Usable(around, openList));
      }
      assert Distinct(usable) && from !in usable && (forall c :: c in usable ==> c in cells.Values) by {
        SurroundingNeighbours(from.x, from.y);
      }
      RelaxAll(usable, from);
    }

    /** `appendPossibleCells(from)`: nothing without a cell. Otherwise the
        usable cells around `from` are relaxed through it, then appended to
        the open list, which is sorted by (f, h). */
    method AppendPossibleCells(from: Cell?) returns (ghost newcomers: seq<Cell>)
      requires Coherent()
      modifies this`openList, cells.Values`g, cells.Values`display, cells.Values`comingFrom, cells.Values`log
      ensures newcomers == if from == null then [] else old(Opened(from, openList))
      ensures from == null ==> openList == old(openList)
      ensures from != null ==> Requeued(openList, old(openList), newcomers)
      ensures from != null ==> from.State() == old(from.State())
      ensures from != null ==>
        RelaxedFrom(cells.Values - {from}, old(StatesOf(cells.Values - {from})), newcomers, from, from.State(), steppingCost)
      ensures from == null ==> StatesOf(cells.Values) == old(StatesOf(cells.Values))
    {
      newcomers := [];
      if from != null {
        newcomers := AppendAround(from);
      }
    }

    /** `appendPossibleCells(from)` with a cell: the usable cells around it
        are relaxed through it, then appended to the open list, which is
        sorted by (f, h). */
    method AppendAround(from: Cell) returns (newcomers: seq<Cell>)
      requires Coherent()
      modifies this`openList, cells.Values`g, cells.Values`display, cells.Values`comingFrom, cells.Values`log
      ensures Coherent() && found == old(found)
      ensures newcomers == old(Opened(from, openList))
      ensures Requeued(openList, old(openList), newcomers)
      ensures from.State() == old(from.State())
      ensures RelaxedFrom(cells.Values - {from}, old(StatesOf(cells.Values - {from})), newcomers, from, from.State(), steppingCost)
    {
      newcomers := RelaxAround(from);
      Enqueue(newcomers);
    }

    /** `step()`: one step of A*. A search already found stays found. Otherwise
        the first open cell is taken off the list. It ends the search when it
        is the target, and so does an empty list when there is no target
        (nothing equals nothing); an empty list with a target reports that
        no cells are left. Any other cell is marked checked, unless it is the
        start, and expanded. The status is never `'undefined'`. */
    method Step() returns (st: Status)
      requires Coherent()
      modifies this`openList, this`found, cells.Values`g, cells.Values`display, cells.Values`comingFrom, cells.Values`log
      modifies Front()`kind, Front()`log
      ensures Coherent()
      ensures st != Undefined && (st == Found <==> found)
      ensures old(found) ==> st == Found && openList == old(openList)
      ensures !old(found) && old(openList) == [] ==>
        openList == [] && st == (if target == null then Found else NoCells)
      ensures !old(found) && old(openList) != [] && old(openList[0]) == target ==>
        st == Found && openList == old(openList[1..])
      ensures !old(found) && old(openList) != [] && old(openList[0]) != target ==>
        var cell := old(openList[0]);
        var rest := old(openList[1..]);
        var newcomers := old(Opened(cell, openList[1..]));
        st == Progressed
        && Requeued(openList, rest, newcomers)
        && ExpandedFrom(cells.Values - {cell}, old(StatesOf(cells.Values - {cell})), newcomers, cell, old(cell.State()),
                        cell == start, steppingCost)
      ensures old(found) || old(openList) == [] || old(openList[0]) == target ==>
        unchanged(old(Touched()))
      ensures Distinct(old(openList)) ==> Distinct(openList)
    {
      if found {
        return Found;
      }
      st := Advance();
    }

    /** `step()` on a search not yet found: the first open cell is taken off
        the list and ends the search when it is the target; an empty list
        ends it when there is no target and reports that no cells are left
        otherwise; any other cell is marked checked, unless it is the start,
        and expanded. */
    method Advance() returns (st: Status)
      requires Coherent() && !found
      modifies this`openList, this`found, cells.Values`g, cells.Values`display, cells.Values`comingFrom, cells.Values`log
      modifies Front()`kind, Front()`log
      ensures Coherent()
      ensures st != Undefined && (st == Found <==> found)
      ensures old(openList) == [] ==>
        openList == [] && st == (if target == null then Found else NoCells)
      ensures old(openList) != [] && old(openList[0]) == target ==>
        st == Found && openList == old(openList[1..])
      ensures old(openList) != [] && old(openList[0]) != target ==>
        var cell := old(openList[0]);
        var rest := old(openList[1..]);
        var newcomers := old(Opened(cell, openList[1..]));
        st == Progressed
        && Requeued(openList, rest, newcomers)
        && ExpandedFrom(cells.Values - {cell}, old(StatesOf(cells.Values - {cell})), newcomers, cell, old(cell.State()),
                        cell == start, steppingCost)
      ensures old(openList) == [] || old(openList[0]) == target ==>
        unchanged(old(Touched()))
      ensures Distinct(old(openList)) ==> Distinct(openList)
    {
      if openList != [] && openList[0] != target {
        st := Progress();
      } else {
        st := Conclude();
      }
    }

    /** The branches of `step()` that end the step without expanding: the
        first open cell is the target, or the list is empty. Taking the
        target off the list finds the search; an empty list finds it only
        when there is no target (`undefined == undefined`), and otherwise
        reports that no cells are left. No cell changes. */
    method Conclude() returns (st: Status)
      requires Coherent() && !found && (openList == [] || openList[0] == target)
      modifies this`openList, this`found
      ensures Coherent()
      ensures st != Undefined && (st == Found <==> found)
      ensures old(openList) == [] ==>
        openList == [] && st == (if target == null then Found else NoCells)
      ensures old(openList) != [] && old(openList[0]) == target ==>
        st == Found && openList == old(openList[1..])
      ensures old(openList) != [] && old(openList[0]) != target ==>
        var cell := old(openList[0]);
        var rest := old(openList[1..]);
        var newcomers := old(Opened(cell, openList[1..]));
        st == Progressed
        && Requeued(openList, rest, newcomers)
        && ExpandedFrom(cells.Values - {cell}, old(StatesOf(cells.Values - {cell})), newcomers, cell, old(cell.State()),
                        cell == start, steppingCost)
      ensures old(openList) == [] || old(openList[0]) == target ==>
        unchanged(old(Touched()))
      ensures Distinct(old(openList)) ==> Distinct(openList)
    {
      var cell := Shift();
      if cell == target {
        found := true;
        st := Found;
      } else {
        st := NoCells;
      }
    }

    /** The progressing branch of `step()`: the first open cell is neither
        the target nor missing; it is taken off the list, marked checked
        unless it is the start, and expanded. */
    method Progress() returns (st: Status)
      requires Coherent() && !found && openList != [] && openList[0] != target
      modifies this`openList, cells.Values`g, cells.Values`display, cells.Values`comingFrom, cells.Values`log
      modifies Front()`kind, Front()`log
      ensures Coherent()
      ensures st != Undefined && (st == Found <==> found)
      ensures old(openList) != [] && old(openList[0]) != target ==>
        var cell := old(openList[0]);
        var rest := old(openList[1..]);
        var newcomers := old(Opened(cell, openList[1..]));
        st == Progressed
        && Requeued(openList, rest, newcomers)
        && ExpandedFrom(cells.Values - {cell}, old(StatesOf(cells.Values - {cell})), newcomers, cell, old(cell.State()),
                        cell == start, steppingCost)
      ensures Distinct(old(openList)) ==> Distinct(openList)
    {
      var cell := Shift();
      assert Opened(cell, openList) == old(Opened(cell, openList[1..])) by {
        ghost var around := Surrounding(cell.x, cell.y, 9);
        assert around == old(Surrounding(cell.x, cell.y, 9));
        assert Usable(around, openList) == old(Usable(around, openList[1..]));
      }
      ghost var newcomers := Expand(cell);
      st := Progressed;
    }

    /** `this.openList.shift()`: the first open cell, taken off the list, or
        no cell when the list is empty. */
    method Shift() returns (cell: Cell?)
      modifies this`openList
      ensures old(openList) == [] ==> cell == null && openList == []
      ensures old(openList) != [] ==> cell == old(openList[0]) && openList == old(openList[1..])
      ensures Distinct(old(openList)) ==> Distinct(openList)
    {
      cell := null;
      if openList != [] {
        cell := openList[0];
        openList := openList[1..];
      }
    }

    /** The progressing branch of `step()`: `cell`, just taken off the open
        list, is marked checked unless it is the start, then expanded. */
    method Expand(cell: Cell) returns (ghost newcomers: seq<Cell>)
      requires Coherent()
      modifies this`openList, cells.Values`g, cells.Values`display, cells.Values`comingFrom, cells.Values`log
      modifies cell`kind, cell`log
      ensures Coherent() && found == old(found)
      ensures newcomers == old(Opened(cell, openList))
      ensures Requeued(openList, old(openList), newcomers)
      ensures ExpandedFrom(cells.Values - {cell}, old(StatesOf(cells.Values - {cell})), newcomers, cell, old(cell.State()),
                           cell == start, steppingCost)
    {
      MarkChecked(cell);
      newcomers := AppendAround(cell);
    }

    /** `cell.type = 'checked'` for any cell but the start. The cells around
        `cell`, and so what expanding it opens, do not change. */
    method MarkChecked(cell: Cell)
      requires Coherent()
      modifies cell`kind, cell`log
      ensures found == old(found)
      ensures Coherent() && StatesOf(cells.Values - {cell}) == old(StatesOf(cells.Values - {cell}))
      ensures cell.State() == if cell == start then old(cell.State()) else WithKind(old(cell.State()), Checked)
      ensures Opened(cell, openList) == old(Opened(cell, openList))
      ensures cell !in Opened(cell, openList)
    {
      ghost var around := Surrounding(cell.x, cell.y, 9);
      assert cell !in around by {
        SurroundingNeighbours(cell.x, cell.y);
      }
      if cell != start {
        cell.SetKind(Checked);
        assert Surrounding(cell.x, cell.y, 9) == around;
        assert Usable(around, openList) == old(Usable(around, openList));
      }
    }

    /** The end of the reset: the search is restarted from the start, which
        gets g = 0, and the reset is announced, followed by the caller's
        own events `announce`. */
    method PrimeOpenList(ghost touched: set<Cell>, announce: seq<GridEvent>)
      modifies this`found, this`openList, this`log, StartCell()`g, StartCell()`display, StartCell()`log
      ensures !found
      ensures openList == if start == null then [] else [start]
      ensures log == old(log) + [PathfindingReset] + announce
      ensures forall c {:trigger c.State()} :: c in touched ==>
        c.State() == if c == start then WithG(old(c.State()), Some(0.0)) else old(c.State())
    {
      found := false;
      openList := [];
      log := log + [PathfindingReset] + announce;
      if start != null {
        openList := [start];
        start.SetG(Some(0.0));
      }
    }

    /** `resetPathfinding(resetH)`: every cell inside the bounds loses its g,
        gets a recomputed h when `resetH` is true, and stops being checked;
        the search is no longer found, and the open list holds the start
        alone, with g = 0, or nothing without a start. The call that would
        expand the start passes no cell, so nothing is expanded. The
        ghost set `touched` is the frame the caller grants: any set holding
        the cells the grid reaches. `pathfindingreset` is fired, and then
        the events `announce` of the setter that called the reset. */
    method ResetPathfinding(resetH: bool, ghost touched: set<Cell>, announce: seq<GridEvent>)
      requires Coherent() && Touched() <= touched
      modifies this`found, this`openList, this`log
      modifies touched`g, touched`h, touched`kind, touched`display, touched`log
      ensures !found
      ensures openList == if start == null then [] else [start]
      ensures log == old(log) + [PathfindingReset] + announce
      ensures forall c {:trigger c.State()} :: c in touched ==>
        c.State() == old(AfterReset(c.State(), GetCell(c.x, c.y) == c, c == start,
                                    Heuristic(c.x, c.y, TargetPoint(), canWalkDiagonal, steppingCost), resetH))
    {
      ghost var tp := TargetPoint();
      ClearAll(resetH, touched, tp);
      PrimeOpenList(touched, announce);
    }

    /** The cell stored under p, as a set: empty when there is none. */
    function CellAt(p: (int, int)): (r: set<Cell>)
      reads this`cells
    {
      if p in cells then {cells[p]} else {}
    }

    /** The stored cells inside the area a. */
    function CellsIn(a: Area): (r: set<Cell>)
      reads this`cells
    {
      StoredIn(cells, a)
    }

    /** Stores a new cell under p when none is there. */
    method Materialize(p: (int, int)) returns (cell: Cell)
      requires Coherent()
      modifies this`cells
      ensures Coherent() && p in cells && cells[p] == cell && Extends(old(cells), cells)
      ensures cells.Keys == old(cells).Keys + {p}
      ensures TargetPoint() == old(TargetPoint())
      ensures p in old(cells) ==> cells == old(cells)
      ensures p !in old(cells) ==> fresh(cell) && cells == old(cells)[p := cell]
      ensures p in old(cells) ==> StatesAt(cells) == old(StatesAt(cells))
      ensures p !in old(cells) ==> StatesAt(cells) == old(StatesAt(cells))[p := Initial(p.0, p.1)]
    {
      if p in cells {
        cell := cells[p];
      } else {
        cell := new Cell(p.0, p.1);
        cells := cells[p := cell];
      }
    }

    /** The `hValue` setter on the cell stored under p: no other stored
        state changes. */
    method SetHAt(p: (int, int), v: Option<real>)
      requires Coherent() && p in cells
      modifies CellAt(p)`h, CellAt(p)`log
      ensures Coherent() && TargetPoint() == old(TargetPoint())
      ensures StatesAt(cells) == old(StatesAt(cells))[p := WithH(old(StatesAt(cells))[p], v)]
    {
      ghost var before := StatesAt(cells);
      cells[p].SetH(v);
      forall q | q in cells && q != p
        ensures cells[q].State() == before[q]
      {
        assert cells[q].x == q.0 && cells[q].y == q.1;
      }
    }

    /** The body of the inner loop of `createCells(area)` at p: the cell
        stored there, or a fresh one stored when there is none, gets its h
        recomputed towards the target; no other stored state changes. */
    method Recompute(p: (int, int))
      requires Coherent()
      modifies this`cells, CellAt(p)`h, CellAt(p)`log
      ensures Coherent() && TargetPoint() == old(TargetPoint()) && Extends(old(cells), cells)
      ensures cells.Keys == old(cells).Keys + {p} && (p !in old(cells) ==> fresh(cells[p]))
      ensures StatesAt(cells) ==
        old(StatesAt(cells))[p := Made(old(StatesAt(cells)), p, Heuristic(p.0, p.1, TargetPoint(), canWalkDiagonal, steppingCost))]
    {
      ghost var st := StatesAt(cells);
      var cell := Materialize(p);
      var h := CalcHCell(cell);
      SetHAt(p, h);
      if p !in st {
        UpdateTwice(st, p, Initial(p.0, p.1), Made(st, p, h));
      }
    }

    /** One pass of the inner loop of `createCells(area)`, at (x, y), in
        column x whose stored cells were `column` when its loop began with
        the entries c0: the states filled in visiting order, given the
        states s0 stored when the loop over the area began, reach one
        point further. */
    method CreateRow(area: Area, x: int, y: int, ghost tp: Option<(int, int)>, ghost s0: map<(int, int), CellState>,
                     ghost c0: map<(int, int), Cell>, ghost column: set<Cell>, ghost st0: map<(int, int), CellState>)
        returns (ghost st: map<(int, int), CellState>)
      requires Coherent() && tp == TargetPoint() && Contains(area, x, y)
      requires column == StoredIn(c0, Area(x, x, area.y1, area.y2)) && Extends(c0, cells)
      requires forall q :: q in cells && q !in c0 ==> q.1 < y
      requires st0 == StatesAt(cells) && FilledUpTo(st0, s0, area, x, y, tp, canWalkDiagonal, steppingCost)
      modifies this`cells, column`h, column`log
      ensures Coherent() && TargetPoint() == tp && Extends(c0, cells) && Extends(old(cells), cells)
      ensures forall q :: q in cells && q !in c0 ==> q.1 < y + 1
      ensures st == StatesAt(cells) && FilledUpTo(st, s0, area, x, y + 1, tp, canWalkDiagonal, steppingCost)
      ensures forall q :: q in cells && q !in old(cells) ==> fresh(cells[q])
    {
      RowStored(c0, cells, Area(x, x, area.y1, area.y2), x, y);
      Recompute((x, y));
      FillStep(st0, s0, area, x, y, tp, canWalkDiagonal, steppingCost);
      st := StatesAt(cells);
    }

    /** The inner loop of `createCells(area)`, over the rows of column x,
        given the states s0 stored when the loop over the area began. */
    method CreateColumn(area: Area, x: int, ghost tp: Option<(int, int)>, ghost column: set<Cell>,
                        ghost s0: map<(int, int), CellState>, ghost st0: map<(int, int), CellState>)
        returns (ghost st: map<(int, int), CellState>)
      requires Coherent() && tp == TargetPoint() && column == CellsIn(Area(x, x, area.y1, area.y2))
      requires area.x1 <= x <= area.x2
      requires st0 == StatesAt(cells) && FilledUpTo(st0, s0, area, x, area.y1, tp, canWalkDiagonal, steppingCost)
      modifies this`cells, column`h, column`log
      ensures Coherent() && TargetPoint() == tp && Extends(old(cells), cells)
      ensures st == StatesAt(cells) && FilledUpTo(st, s0, area, x + 1, area.y1, tp, canWalkDiagonal, steppingCost)
      ensures forall q :: q in cells && q !in old(cells) ==> fresh(cells[q])
    {
      var y := area.y1;
      st := st0;
      while y <= area.y2
        invariant area.y1 <= y
        invariant Coherent() && TargetPoint() == tp && Extends(old(cells), cells)
        invariant forall q :: q in cells && q !in old(cells) ==> q.1 < y
        invariant st == StatesAt(cells) && FilledUpTo(st, s0, area, x, y, tp, canWalkDiagonal, steppingCost)
        invariant forall q :: q in cells && q !in old(cells) ==> fresh(cells[q])
        decreases area.y2 - y
      {
        st := CreateRow(area, x, y, tp, s0, old(cells), column, st);
        y := y + 1;
      }
      FillColumn(st, s0, area, x, y, tp, canWalkDiagonal, steppingCost);
    }

    /** The loop of `createCells(area)`, column by column: every point of
        the area holds the cell `createCells` leaves there: the one stored,
        or a fresh one where none was, with h recomputed towards the
        target. The stored entries are kept. */
    method FillArea(area: Area, ghost tp: Option<(int, int)>, ghost inside: set<Cell>)
      requires Coherent() && tp == TargetPoint() && inside == CellsIn(area)
      modifies this`cells, inside`h, inside`log
      ensures Coherent() && TargetPoint() == tp
      ensures Extends(old(cells), cells)
      ensures forall q :: q in cells && q !in old(cells) ==> Contains(area, q.0, q.1) && fresh(cells[q])
      ensures forall q: (int, int) :: Contains(area, q.0, q.1) ==>
        q in cells && cells[q].State() == Made(old(StatesAt(cells)), q, Heuristic(q.0, q.1, tp, canWalkDiagonal, steppingCost))
    {
      ghost var s0 := StatesAt(cells);
      ghost var st := s0;
      FillStart(s0, area, tp, canWalkDiagonal, steppingCost);
      var x := area.x1;
      while x <= area.x2
        invariant area.x1 <= x
        invariant Coherent() && TargetPoint() == tp && Extends(old(cells), cells)
        invariant st == StatesAt(cells) && FilledUpTo(st, s0, area, x, area.y1, tp, canWalkDiagonal, steppingCost)
        invariant forall q :: q in cells && q !in old(cells) ==> fresh(cells[q])
        decreases area.x2 - x
      {
        ghost var column := CellsIn(Area(x, x, area.y1, area.y2));
        ColumnStored(st, s0, old(cells), cells, area, x, tp, canWalkDiagonal, steppingCost);
        st := CreateColumn(area, x, tp, column, s0, st);
        x := x + 1;
      }
      FillDone(st, s0, area, x, tp, canWalkDiagonal, steppingCost);
      forall q: (int, int) | Contains(area, q.0, q.1)
        ensures q in cells && cells[q].State() == Made(s0, q, Heuristic(q.0, q.1, tp, canWalkDiagonal, steppingCost))
      {
        assert st[q] == cells[q].State();
      }
    }

    /** `createCells(area)`: the loop above, with `addcell` fired for each
        point of the area in visiting order, carrying the cell stored there,
        followed by the caller's own events `announce`. */
    method CreateCells(area: Area, ghost tp: Option<(int, int)>, ghost inside: set<Cell>, announce: seq<GridEvent>)
      requires Coherent() && tp == TargetPoint() && inside == CellsIn(area)
      modifies this`cells, this`log, inside`h, inside`log
      ensures Coherent() && TargetPoint() == tp
      ensures Extends(old(cells), cells)
      ensures forall q :: q in cells && q !in old(cells) ==> Contains(area, q.0, q.1) && fresh(cells[q])
      ensures forall q: (int, int) :: Contains(area, q.0, q.1) ==>
        q in cells && cells[q].State() == Made(old(StatesAt(cells)), q, Heuristic(q.0, q.1, tp, canWalkDiagonal, steppingCost))
      ensures log == old(log) + AddEvents(Points(area), cells) + announce
    {
      FillArea(area, tp, inside);
      log := log + AddEvents(Points(area), cells) + announce;
    }

    /** The first half of `removeCells(area)`: a start or target inside the
        area is dropped (the cell keeps its kind), and the search is reset,
        without recomputing h, when either was; the events `announce` come
        last. */
    method DropHolders(area: Area, ghost touched: set<Cell>, announce: seq<GridEvent>)
      requires Coherent() && touched == Touched()
      modifies this`start, this`target, this`found, this`openList, this`log
      modifies touched`g, touched`h, touched`kind, touched`display, touched`log
      ensures start == if old(start != null && Contains(area, start.x, start.y)) then null else old(start)
      ensures target == if old(target != null && Contains(area, target.x, target.y)) then null else old(target)
      ensures log == old(log) + ResetMark(old(start) != start || old(target) != target) + announce
      ensures old(start) != start || old(target) != target ==>
        && !found && (openList == if start == null then [] else [start])
        && forall c {:trigger c.State()} :: c in touched ==>
             c.State() == AfterReset(old(c.State()), old(GetCell(c.x, c.y)) == c, c == start,
                                     Heuristic(c.x, c.y, TargetPoint(), canWalkDiagonal, steppingCost), false)
      ensures old(start) == start && old(target) == target ==>
        && found == old(found) && openList == old(openList)
        && forall c {:trigger c.State()} :: c in touched ==> c.State() == old(c.State())
    {
      var containsTarget := target != null && Contains(area, target.x, target.y);
      var containsStart := start != null && Contains(area, start.x, start.y);
      if containsStart {
        start := null;
      }
      if containsTarget {
        target := null;
      }
      if containsStart || containsTarget {
        ResetPathfinding(false, touched, announce);
      } else {
        log := log + announce;
      }
    }

    /** `removeCells(area)`: the holders inside the area are dropped as
        above, then `removecell` is fired for each point of the area in
        visiting order, with whatever is stored there, followed by the
        caller's own events `announce`. The cells stay stored. */
    method RemoveCells(area: Area, announce: seq<GridEvent>, ghost touched: set<Cell>)
      requires Coherent() && touched == Touched()
      modifies this`start, this`target, this`found, this`openList, this`log
      modifies touched`g, touched`h, touched`kind, touched`display, touched`log
      ensures cells == old(cells) && width == old(width) && height == old(height) && Coherent()
      ensures old(Covered()) ==> Covered()
      ensures start == if old(start != null && Contains(area, start.x, start.y)) then null else old(start)
      ensures target == if old(target != null && Contains(area, target.x, target.y)) then null else old(target)
      ensures log == old(log) + ResetMark(old(start) != start || old(target) != target) + RemoveEvents(Points(area), cells) + announce
      ensures old(start) != start || old(target) != target ==>
        && !found && (openList == if start == null then [] else [start])
        && forall c {:trigger c.State()} :: c in touched ==>
             c.State() == AfterReset(old(c.State()), old(GetCell(c.x, c.y)) == c, c == start,
                                     Heuristic(c.x, c.y, TargetPoint(), canWalkDiagonal, steppingCost), false)
      ensures old(start) == start && old(target) == target ==>
        && found == old(found) && openList == old(openList)
        && forall c {:trigger c.State()} :: c in touched ==> c.State() == old(c.State())
    {
      DropHolders(area, touched, RemoveEvents(Points(area), cells) + announce);
    }

    /** The size along `dim`. */
    function Size(dim: Dimension): (r: int)
      reads this`width, this`height
    {
      if dim == Width then width else height
    }

    /** The size along the other axis. */
    function Across(dim: Dimension): (r: int)
      reads this`width, this`height
    {
      if dim == Width then height else width
    }

    /** `width = newWidth` (or `height = newHeight`): the size along `dim`
        becomes n; the cells stay coherent, and a size that does not grow
        leaves every position inside the bounds stored. */
    method StoreSize(dim: Dimension, n: nat)
      requires Coherent()
      modifies this`width, this`height
      ensures Coherent() && Size(dim) == n && Across(dim) == old(Across(dim))
      ensures start == old(start) && target == old(target) && found == old(found) && openList == old(openList)
      ensures old(Covered()) && n <= old(Size(dim)) ==> Covered()
    {
      if dim == Width {
        width := n;
      } else {
        height := n;
      }
    }

    /** The `width` (or `height`) setter growing the size along `dim` to n
        while the other size is not 0: the size is stored, the cells of the
        grown strip are created, and the change is announced. */
    method Grow(dim: Dimension, n: nat)
      requires Valid() && Size(dim) < n && 0 < Across(dim)
      modifies this`width, this`height, this`cells, this`log
      modifies CellsIn(ResizeArea(dim, Size(dim), n, Across(dim)))`h, CellsIn(ResizeArea(dim, Size(dim), n, Across(dim)))`log
      ensures Valid() && Size(dim) == n && Across(dim) == old(Across(dim))
      ensures start == old(start) && target == old(target) && found == old(found) && openList == old(openList)
      ensures var area := ResizeArea(dim, old(Size(dim)), n, old(Across(dim)));
        && Extends(old(cells), cells)
        && (forall q :: q in cells && q !in old(cells) ==> Contains(area, q.0, q.1) && fresh(cells[q]))
        && (forall q: (int, int) :: Contains(area, q.0, q.1) ==>
              q in cells && cells[q].State() == Made(old(StatesAt(cells)), q, Heuristic(q.0, q.1, TargetPoint(), canWalkDiagonal, steppingCost)))
        && log == old(log) + AddEvents(Points(area), cells) + [SizeChange(dim, old(Size(dim)), n)]
    {
      var was := Size(dim);
      var other := Across(dim);
      StoreSize(dim, n);
      GrowStrip(dim, was, n, other);
    }

    /** The rest of a growth once the new size is stored: the cells of the
        strip between the old and the new size are created, which brings
        the grid back to covering its bounds. */
    method GrowStrip(dim: Dimension, was: nat, n: nat, other: nat)
      requires Coherent() && was < n && Size(dim) == n && Across(dim) == other
      requires CoversAll(cells, Side(dim, was, other, Width), Side(dim, was, other, Height))
      modifies this`cells, this`log
      modifies CellsIn(ResizeArea(dim, was, n, other))`h, CellsIn(ResizeArea(dim, was, n, other))`log
      ensures Valid()
      ensures start == old(start) && target == old(target) && found == old(found) && openList == old(openList)
      ensures var area := ResizeArea(dim, was, n, other);
        && Extends(old(cells), cells)
        && (forall q :: q in cells && q !in old(cells) ==> Contains(area, q.0, q.1) && fresh(cells[q]))
        && (forall q: (int, int) :: Contains(area, q.0, q.1) ==>
              q in cells && cells[q].State() == Made(old(StatesAt(cells)), q, Heuristic(q.0, q.1, TargetPoint(), canWalkDiagonal, steppingCost)))
        && log == old(log) + AddEvents(Points(area), cells) + [SizeChange(dim, was, n)]
    {
      var area := ResizeArea(dim, was, n, other);
      CreateCells(area, TargetPoint(), CellsIn(area), [SizeChange(dim, was, n)]);
      GrowCovers(dim, was, n, other, old(cells), cells);
    }

    /** The same setter shrinking the size along `dim` to n while the other
        size is not 0: the size is stored, the cells of the shrunk strip are
        removed, and the change is announced. */
    method Shrink(dim: Dimension, n: nat, ghost touched: set<Cell>)
      requires Valid() && n < Size(dim) && 0 < Across(dim) && touched == Touched()
      modifies this`width, this`height, this`start, this`target, this`found, this`openList, this`log
      modifies touched`g, touched`h, touched`kind, touched`display, touched`log
      ensures Valid() && Size(dim) == n && Across(dim) == old(Across(dim))
      ensures var area := ResizeArea(dim, n, old(Size(dim)), old(Across(dim)));
        var dropped := old(start) != start || old(target) != target;
        && cells == old(cells)
        && start == (if old(start != null && Contains(area, start.x, start.y)) then null else old(start))
        && target == (if old(target != null && Contains(area, target.x, target.y)) then null else old(target))
        && log == old(log) + ResetMark(dropped) + RemoveEvents(Points(area), cells) + [SizeChange(dim, old(Size(dim)), n)]
      ensures old(start) != start || old(target) != target ==>
        && !found && (openList == if start == null then [] else [start])
        && forall c {:trigger c.State()} :: c in touched ==>
             c.State() == AfterReset(old(c.State()), GetCell(c.x, c.y) == c, c == start,
                                     Heuristic(c.x, c.y, TargetPoint(), canWalkDiagonal, steppingCost), false)
      ensures old(start) == start && old(target) == target ==>
        && found == old(found) && openList == old(openList)
        && forall c {:trigger c.State()} :: c in touched ==> c.State() == old(c.State())
    {
      var was := Size(dim);
      var area := ResizeArea(dim, n, was, Across(dim));
      StoreSize(dim, n);
      assert Touched() == touched;
      RemoveCells(area, [SizeChange(dim, was, n)], touched);
    }

    /** The body of the `width` (or `height`) setter after its checks: the
        size is stored; when it changed and the other size is not 0, the
        cells of the grown strip are created, or those of the shrunk strip
        removed; a change is announced last. The ghost set `touched` names
        the cells the grid reaches on entry. */
    method Resize(dim: Dimension, n: nat, ghost touched: set<Cell>)
      requires Valid() && touched == Touched()
      modifies this`width, this`height, this`cells, this`start, this`target, this`found, this`openList, this`log
      modifies touched`g, touched`h, touched`kind, touched`display, touched`log
      ensures Valid() && Size(dim) == n && Across(dim) == old(Across(dim))
      ensures old(Size(dim)) == n || old(Across(dim)) == 0 ==>
        && cells == old(cells) && start == old(start) && target == old(target)
        && found == old(found) && openList == old(openList)
        && (forall c {:trigger c.State()} :: c in touched ==> c.State() == old(c.State()))
        && log == old(log) + (if old(Size(dim)) == n then [] else [SizeChange(dim, old(Size(dim)), n)])
      ensures old(Size(dim)) < n && 0 < old(Across(dim)) ==>
        var area := ResizeArea(dim, old(Size(dim)), n, old(Across(dim)));
        && start == old(start) && target == old(target) && found == old(found) && openList == old(openList)
        && Extends(old(cells), cells)
        && (forall q :: q in cells && q !in old(cells) ==> Contains(area, q.0, q.1) && fresh(cells[q]))
        && (forall q: (int, int) :: Contains(area, q.0, q.1) ==>
              q in cells && cells[q].State() == Made(old(StatesAt(cells)), q, Heuristic(q.0, q.1, TargetPoint(), canWalkDiagonal, steppingCost)))
        && (forall c {:trigger c.State()} :: c in touched && c !in old(CellsIn(area)) ==> c.State() == old(c.State()))
        && log == old(log) + AddEvents(Points(area), cells) + [SizeChange(dim, old(Size(dim)), n)]
      ensures n < old(Size(dim)) && 0 < old(Across(dim)) ==>
        var area := ResizeArea(dim, n, old(Size(dim)), old(Across(dim)));
        var dropped := old(start) != start || old(target) != target;
        && cells == old(cells)
        && start == (if old(start != null && Contains(area, start.x, start.y)) then null else old(start))
        && target == (if old(target != null && Contains(area, target.x, target.y)) then null else old(target))
        && log == old(log) + ResetMark(dropped) + RemoveEvents(Points(area), cells) + [SizeChange(dim, old(Size(dim)), n)]
        && (dropped ==>
              && !found && (openList == if start == null then [] else [start])
              && forall c {:trigger c.State()} :: c in touched ==>
                   c.State() == AfterReset(old(c.State()), GetCell(c.x, c.y) == c, c == start,
                                           Heuristic(c.x, c.y, TargetPoint(), canWalkDiagonal, steppingCost), false))
        && (!dropped ==>
              && found == old(found) && openList == old(openList)
              && forall c {:trigger c.State()} :: c in touched ==> c.State() == old(c.State()))
    {
      var was := Size(dim);
      if was == n || Across(dim) == 0 {
        StoreSize(dim, n);
        if was != n {
          log := log + [SizeChange(dim, was, n)];
        }
      } else if was < n {
        Grow(dim, n);
      } else {
        Shrink(dim, n, touched);
      }
    }

    /** The kind changes of the target and start setters: the old holder
        `was`, when there is one, becomes traversable, then the new holder
        `now`, when there is one, takes kind k. */
    method HandOver(was: Cell?, now: Cell?, k: Kind, ghost touched: set<Cell>)
      requires was != now
      requires (was != null ==> was in touched) && (now != null ==> now in touched)
      modifies touched`kind, touched`log
      ensures forall c {:trigger c.State()} :: c in touched ==>
        c.State() == HandedOver(old(c.State()), c == was, c == now, k)
    {
      if was != null {
        was.SetKind(Traversable);
      }
      if now != null {
        now.SetKind(k);
      }
    }

    /** The `target` setter's change, for a value other than the current
        target: the old target becomes traversable and the new one a
        target, the pathfinding is reset with h recomputed towards the new
        target, and `targetchange` is fired after the reset's event. */
    method ChangeTarget(now: Cell?, ghost touched: set<Cell>)
      requires Coherent() && now != target && touched == Touched() + (if now == null then {} else {now})
      modifies this`target, this`found, this`openList, this`log
      modifies touched`g, touched`h, touched`kind, touched`display, touched`log
      ensures start == old(start)
      ensures target == now && !found && (openList == if start == null then [] else [start])
      ensures log == old(log) + [PathfindingReset, TargetChange(old(target), now)]
      ensures forall c {:trigger c.State()} :: c in touched ==>
        c.State() == AfterReset(HandedOver(old(c.State()), c == old(target), c == now, Target),
                                old(GetCell(c.x, c.y)) == c, c == start,
                                Heuristic(c.x, c.y, TargetPoint(), canWalkDiagonal, steppingCost), true)
    {
      var was := target;
      HandOver(was, now, Target, touched);
      target := now;
      assert Coherent();
      ResetPathfinding(true, touched, [TargetChange(was, now)]);
    }

    /** The `target` setter. A value that is neither a cell nor `undefined`
        throws and changes nothing, and so does the current target; any
        other value is handed to the change above. */
    method SetTarget(v: Input<Cell?>) returns (o: Outcome)
      requires Valid()
      modifies this`target, this`found, this`openList, this`log
      modifies (Touched() + Handed(v))`g, (Touched() + Handed(v))`h, (Touched() + Handed(v))`kind,
               (Touched() + Handed(v))`display, (Touched() + Handed(v))`log
      ensures Valid() && start == old(start)
      ensures o == if v.Foreign? then Thrown(TargetNotACell) else Done
      ensures v.Foreign? || v.value == old(target) ==>
        && target == old(target) && found == old(found) && openList == old(openList) && log == old(log)
        && forall c {:trigger c.State()} :: c in old(Touched()) + Handed(v) ==> c.State() == old(c.State())
      ensures v.Given? && v.value != old(target) ==>
        && target == v.value && !found && (openList == if start == null then [] else [start])
        && log == old(log) + [PathfindingReset, TargetChange(old(target), v.value)]
        && forall c {:trigger c.State()} :: c in old(Touched()) + Handed(v) ==>
             c.State() == AfterReset(HandedOver(old(c.State()), c == old(target), c == v.value, Target),
                                     old(GetCell(c.x, c.y)) == c, c == start,
                                     Heuristic(c.x, c.y, TargetPoint(), canWalkDiagonal, steppingCost), true)
    {
      if v.Foreign? {
        return Thrown(TargetNotACell);
      }
      o := Done;
      if target != v.value {
        ChangeTarget(v.value, Touched() + Handed(v));
      }
    }

    /** The `start` setter's change: as the target's, with kind start, a
        reset that keeps h, and `startchange`. */
    method ChangeStart(now: Cell?, ghost touched: set<Cell>)
      requires Coherent() && now != start && touched == Touched() + (if now == null then {} else {now})
      modifies this`start, this`found, this`openList, this`log
      modifies touched`g, touched`h, touched`kind, touched`display, touched`log
      ensures target == old(target)
      ensures start == now && !found && (openList == if now == null then [] else [now])
      ensures log == old(log) + [PathfindingReset, StartChange(old(start), now)]
      ensures forall c {:trigger c.State()} :: c in touched ==>
        c.State() == AfterReset(HandedOver(old(c.State()), c == old(start), c == now, Start),
                                old(GetCell(c.x, c.y)) == c, c == now,
                                Heuristic(c.x, c.y, TargetPoint(), canWalkDiagonal, steppingCost), false)
    {
      var was := start;
      HandOver(was, now, Start, touched);
      start := now;
      assert Coherent();
      ResetPathfinding(false, touched, [StartChange(was, now)]);
    }

    /** The `start` setter: as the target setter, with the change above. */
    method SetStart(v: Input<Cell?>) returns (o: Outcome)
      requires Valid()
      modifies this`start, this`found, this`openList, this`log
      modifies (Touched() + Handed(v))`g, (Touched() + Handed(v))`h, (Touched() + Handed(v))`kind,
               (Touched() + Handed(v))`display, (Touched() + Handed(v))`log
      ensures Valid() && target == old(target)
      ensures o == if v.Foreign? then Thrown(StartNotACell) else Done
      ensures v.Foreign? || v.value == old(start) ==>
        && start == old(start) && found == old(found) && openList == old(openList) && log == old(log)
        && forall c {:trigger c.State()} :: c in old(Touched()) + Handed(v) ==> c.State() == old(c.State())
      ensures v.Given? && v.value != old(start) ==>
        && start == v.value && !found && (openList == if v.value == null then [] else [v.value])
        && log == old(log) + [PathfindingReset, StartChange(old(start), v.value)]
        && forall c {:trigger c.State()} :: c in old(Touched()) + Handed(v) ==>
             c.State() == AfterReset(HandedOver(old(c.State()), c == old(start), c == v.value, Start),
                                     old(GetCell(c.x, c.y)) == c, c == v.value,
                                     Heuristic(c.x, c.y, TargetPoint(), canWalkDiagonal, steppingCost), false)
    {
      if v.Foreign? {
        return Thrown(StartNotACell);
      }
      o := Done;
      if start != v.value {
        ChangeStart(v.value, Touched() + Handed(v));
      }
    }

    /** The `canWalkDiagonal` setter's change for a boolean b: b is stored,
        even when already held, the pathfinding is reset with h recomputed,
        and `canwalkdiagonalchange` is fired announcing !b as the old
        value. */
    method StoreCanWalkDiagonal(b: bool, ghost touched: set<Cell>)
      requires Coherent() && touched == Touched()
      modifies this`canWalkDiagonal, this`found, this`openList, this`log
      modifies touched`g, touched`h, touched`kind, touched`display, touched`log
      ensures canWalkDiagonal == b && !found && (openList == if start == null then [] else [start])
      ensures log == old(log) + [PathfindingReset, CanWalkDiagonalChange(!b, b)]
      ensures forall c {:trigger c.State()} :: c in touched ==>
        c.State() == AfterReset(old(c.State()), old(GetCell(c.x, c.y)) == c, c == start,
                                Heuristic(c.x, c.y, TargetPoint(), b, steppingCost), true)
    {
      canWalkDiagonal := b;
      assert Coherent();
      ResetPathfinding(true, touched, [CanWalkDiagonalChange(!b, b)]);
    }

    /** The `canWalkDiagonal` setter: a value that is not a boolean throws
        and changes nothing; a boolean is handed to the change above. */
    method SetCanWalkDiagonal(v: Input<bool>) returns (o: Outcome)
      requires Valid()
      modifies this`canWalkDiagonal, this`found, this`openList, this`log
      modifies Touched()`g, Touched()`h, Touched()`kind, Touched()`display, Touched()`log
      ensures Valid()
      ensures o == if v.Foreign? then Thrown(NotABoolean) else Done
      ensures v.Foreign? ==>
        && canWalkDiagonal == old(canWalkDiagonal) && found == old(found) && openList == old(openList)
        && log == old(log)
        && forall c {:trigger c.State()} :: c in old(Touched()) ==> c.State() == old(c.State())
      ensures v.Given? ==>
        && canWalkDiagonal == v.value && !found && (openList == if start == null then [] else [start])
        && log == old(log) + [PathfindingReset, CanWalkDiagonalChange(!v.value, v.value)]
        && forall c {:trigger c.State()} :: c in old(Touched()) ==>
             c.State() == AfterReset(old(c.State()), old(GetCell(c.x, c.y)) == c, c == start,
                                     Heuristic(c.x, c.y, TargetPoint(), v.value, steppingCost), true)
    {
      if v.Foreign? {
        return Thrown(NotABoolean);
      }
      o := Done;
      StoreCanWalkDiagonal(v.value, Touched());
    }

    /** The `steppingCost` setter's change for a positive cost: it is
        stored, the pathfinding is reset with h recomputed, and
        `steppingcostchange` is fired with the old and the new cost. */
    method StoreSteppingCost(cost: real, ghost touched: set<Cell>)
      requires Coherent() && 0.0 < cost && touched == Touched()
      modifies this`steppingCost, this`found, this`openList, this`log
      modifies touched`g, touched`h, touched`kind, touched`display, touched`log
      ensures steppingCost == cost && !found && (openList == if start == null then [] else [start])
      ensures log == old(log) + [PathfindingReset, SteppingCostChange(old(steppingCost), cost)]
      ensures forall c {:trigger c.State()} :: c in touched ==>
        c.State() == AfterReset(old(c.State()), old(GetCell(c.x, c.y)) == c, c == start,
                                Heuristic(c.x, c.y, TargetPoint(), canWalkDiagonal, cost), true)
    {
      var was := steppingCost;
      steppingCost := cost;
      assert Coherent();
      ResetPathfinding(true, touched, [SteppingCostChange(was, cost)]);
    }

    /** The `steppingCost` setter, after `parseFloat`: no number, or one not
        above 0, throws and changes nothing; a positive cost is handed to
        the change above. */
    method SetSteppingCost(v: Option<real>) returns (o: Outcome)
      requires Valid()
      modifies this`steppingCost, this`found, this`openList, this`log
      modifies Touched()`g, Touched()`h, Touched()`kind, Touched()`display, Touched()`log
      ensures Valid()
      ensures o == if v.Some? && 0.0 < v.value then Done else Thrown(NotPositive)
      ensures o.Thrown? ==>
        && steppingCost == old(steppingCost) && found == old(found) && openList == old(openList)
        && log == old(log)
        && forall c {:trigger c.State()} :: c in old(Touched()) ==> c.State() == old(c.State())
      ensures o.Done? ==>
        && steppingCost == v.value && !found && (openList == if start == null then [] else [start])
        && log == old(log) + [PathfindingReset, SteppingCostChange(old(steppingCost), v.value)]
        && forall c {:trigger c.State()} :: c in old(Touched()) ==>
             c.State() == AfterReset(old(c.State()), old(GetCell(c.x, c.y)) == c, c == start,
                                     Heuristic(c.x, c.y, TargetPoint(), canWalkDiagonal, v.value), true)
    {
      if v.None? || v.value <= 0.0 {
        return Thrown(NotPositive);
      }
      o := Done;
      StoreSteppingCost(v.value, Touched());
    }

    /** The `width` (or `height`) setter: a value that is not an integer,
        or a negative one, throws and changes nothing; any other value is
        handed to the body above. The ghost set `touched` names the cells
        the grid reaches on entry. */
    method SetSize(dim: Dimension, v: Input<int>, ghost touched: set<Cell>) returns (o: Outcome)
      requires Valid() && touched == Touched()
      modifies this`width, this`height, this`cells, this`start, this`target, this`found, this`openList, this`log
      modifies touched`g, touched`h, touched`kind, touched`display, touched`log
      ensures Valid()
      ensures o == if ParseSize(dim, v).Ok? then Done else Thrown(ParseSize(dim, v).failure)
      ensures o.Thrown? ==>
        && width == old(width) && height == old(height) && cells == old(cells) && log == old(log)
        && start == old(start) && target == old(target) && found == old(found) && openList == old(openList)
        && forall c {:trigger c.State()} :: c in touched ==> c.State() == old(c.State())
      ensures o.Done? ==> Size(dim) == v.value && Across(dim) == old(Across(dim))
      ensures o.Done? && (old(Size(dim)) == v.value || old(Across(dim)) == 0) ==>
        && cells == old(cells) && start == old(start) && target == old(target)
        && found == old(found) && openList == old(openList)
        && (forall c {:trigger c.State()} :: c in touched ==> c.State() == old(c.State()))
        && log == old(log) + (if old(Size(dim)) == v.value then [] else [SizeChange(dim, old(Size(dim)), v.value)])
      ensures o.Done? && old(Size(dim)) < v.value && 0 < old(Across(dim)) ==>
        var area := ResizeArea(dim, old(Size(dim)), v.value, old(Across(dim)));
        && start == old(start) && target == old(target) && found == old(found) && openList == old(openList)
        && Extends(old(cells), cells)
        && (forall q :: q in cells && q !in old(cells) ==> Contains(area, q.0, q.1) && fresh(cells[q]))
        && (forall q: (int, int) :: Contains(area, q.0, q.1) ==>
              q in cells && cells[q].State() == Made(old(StatesAt(cells)), q, Heuristic(q.0, q.1, TargetPoint(), canWalkDiagonal, steppingCost)))
        && (forall c {:trigger c.State()} :: c in touched && c !in old(CellsIn(area)) ==> c.State() == old(c.State()))
        && log == old(log) + AddEvents(Points(area), cells) + [SizeChange(dim, old(Size(dim)), v.value)]
      ensures o.Done? && v.value < old(Size(dim)) && 0 < old(Across(dim)) ==>
        var area := ResizeArea(dim, v.value, old(Size(dim)), old(Across(dim)));
        var dropped := old(start) != start || old(target) != target;
        && cells == old(cells)
        && start == (if old(start != null && Contains(area, start.x, start.y)) then null else old(start))
        && target == (if old(target != null && Contains(area, target.x, target.y)) then null else old(target))
        && log == old(log) + ResetMark(dropped) + RemoveEvents(Points(area), cells) + [SizeChange(dim, old(Size(dim)), v.value)]
        && (dropped ==>
              && !found && (openList == if start == null then [] else [start])
              && forall c {:trigger c.State()} :: c in touched ==>
                   c.State() == AfterReset(old(c.State()), GetCell(c.x, c.y) == c, c == start,
                                           Heuristic(c.x, c.y, TargetPoint(), canWalkDiagonal, steppingCost), false))
        && (!dropped ==>
              && found == old(found) && openList == old(openList)
              && forall c {:trigger c.State()} :: c in touched ==> c.State() == old(c.State()))
    {
      match ParseSize(dim, v)
      case Err(f) =>
        o := Thrown(f);
      case Ok(n) =>
        Resize(dim, n, touched);
        o := Done;
    }

    /** `new Grid()`: an empty 0 x 0 grid without start or target, with
        diagonal moves allowed, a stepping cost of 1, an empty open list
        and nothing found. */
    constructor ()
      ensures Valid() && width == 0 && height == 0 && cells == map[]
      ensures start == null && target == null && canWalkDiagonal && steppingCost == 1.0
      ensures openList == [] && !found && log == []
    {
      width := 0;
      height := 0;
      start := null;
      target := null;
      canWalkDiagonal := true;
      steppingCost := 1.0;
      openList := [];
      found := false;
      cells := map[];
      log := [];
    }
  }
}
