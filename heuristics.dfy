/** The distance estimate `calcHCell` computes (resources/scripts/grid.js:370-386),
    on plain coordinates: Manhattan distance on a 4-connected grid, octile
    distance on an 8-connected one, both scaled by the stepping cost. */
module Heuristics {

  /** `Math.SQRT2`, the double closest to the square root of two. Only
      1 < Sqrt2 < 2 is used in the proofs. */
  const Sqrt2: real := 1.4142135623730951

  /** `a < b ? b - a : a - b` */
  function Delta(a: int, b: int): (d: nat)
    ensures d == a - b || d == b - a
  {
    if a < b then b - a else a - b
  }

  function Min(a: nat, b: nat): (r: nat) { if a < b then a else b }
  function Max(a: nat, b: nat): (r: nat) { if a < b then b else a }

  /** The cost of one move between two cells at most one apart on each axis:
      straight moves cost `cost`, diagonal ones `cost * Sqrt2`. */
  function MoveCost(dx: int, dy: int, cost: real): (r: real) {
    Scale(cost, MoveLength(dx, dy))
  }

  /** A length in straight steps, priced at `cost` per step. Kept as a
      function of its own so that proofs about prices can name the product. */
  function Scale(cost: real, s: real): (r: real) { cost * s }

  /** The length of one move, in straight steps. */
  function MoveLength(dx: int, dy: int): (r: real) {
    if dx != 0 && dy != 0 then Sqrt2 else 1.0
  }

  /** The octile distance, in straight steps, of a cell dx columns and dy
      rows away: the shorter delta is walked diagonally, the rest straight. */
  function Octile(dx: nat, dy: nat): (r: real)
    ensures r == Min(dx, dy) as real * Sqrt2 + (Max(dx, dy) - Min(dx, dy)) as real
  {
    if dx < dy then dx as real * Sqrt2 + (dy - dx) as real
    else dy as real * Sqrt2 + (dx - dy) as real
  }

  /** The unscaled estimate: octile distance with diagonal moves, Manhattan
      distance without. */
  function Span(dx: nat, dy: nat, diagonal: bool): (r: real) {
    if diagonal then Octile(dx, dy) else (dx + dy) as real
  }

  /** The estimate for the cell (cx, cy) towards the target (tx, ty):
      the stepping cost times the span between them. */
  function Estimate(cx: int, cy: int, tx: int, ty: int, diagonal: bool, cost: real): (r: real) {
    var deltaX := Delta(cx, tx);
    var deltaY := Delta(cy, ty);
    Scale(cost, Span(deltaX, deltaY, diagonal))
  }

  /** A positive cost gives a non-negative estimate that is zero exactly at the target. */
  lemma {:induction false} EstimateNonNegative(cx: int, cy: int, tx: int, ty: int, diagonal: bool, cost: real)
    requires 0.0 < cost
    ensures 0.0 <= Estimate(cx, cy, tx, ty, diagonal, cost)
    ensures Estimate(cx, cy, tx, ty, diagonal, cost) == 0.0 <==> cx == tx && cy == ty
  {
    var s := Span(Delta(cx, tx), Delta(cy, ty), diagonal);
    assert 0.0 <= s;
    assert s == 0.0 <==> cx == tx && cy == ty;
    if s == 0.0 {
      assert cost * s == 0.0;
    } else {
      assert 0.0 < cost * s;
    }
  }

  /** The estimate does not depend on which of the two cells is the target. */
  lemma EstimateSymmetric(cx: int, cy: int, tx: int, ty: int, diagonal: bool, cost: real)
    ensures Estimate(cx, cy, tx, ty, diagonal, cost) == Estimate(tx, ty, cx, cy, diagonal, cost)
  {
    assert Delta(cx, tx) == Delta(tx, cx) && Delta(cy, ty) == Delta(ty, cy);
  }

  /** One move changes each delta by at most one, and the span by at most
      the move's length. */
  lemma SpanStep(dx: nat, dy: nat, ex: nat, ey: nat, diagonal: bool)
    requires -1 <= ex - dx <= 1 && -1 <= ey - dy <= 1
    requires !diagonal ==> ex == dx || ey == dy
    ensures Span(dx, dy, diagonal) <= Span(ex, ey, diagonal) + (if ex != dx && ey != dy then Sqrt2 else 1.0)
  {
  }

  /** Pricing at a positive cost keeps an inequality between lengths. */
  lemma ScaledStep(cost: real, a: real, step: real, b: real)
    requires 0.0 < cost && a <= step + b
    ensures Scale(cost, a) <= Scale(cost, step) + Scale(cost, b)
  {
    assert cost * (step + b) == cost * step + cost * b;
  }

  /** Unscaled consistency: one move changes the span by at most that move's length. */
  lemma {:induction false} SpanConsistent(cx: int, cy: int, nx: int, ny: int, tx: int, ty: int, diagonal: bool)
    requires -1 <= nx - cx <= 1 && -1 <= ny - cy <= 1
    requires !diagonal ==> nx == cx || ny == cy
    ensures Span(Delta(cx, tx), Delta(cy, ty), diagonal)
         <= MoveLength(nx - cx, ny - cy) + Span(Delta(nx, tx), Delta(ny, ty), diagonal)
  {
    var dx, dy := Delta(cx, tx), Delta(cy, ty);
    var ex, ey := Delta(nx, tx), Delta(ny, ty);
    assert ex != dx <==> nx != cx;
    assert ey != dy <==> ny != cy;
    SpanStep(dx, dy, ex, ey, diagonal);
  }

  /** The estimate is consistent: moving to a neighbour the grid can step to
      lowers it by at most that move's cost. This is what lets A* settle a
      cell the first time it is expanded. */
  lemma {:induction false} EstimateConsistent(cx: int, cy: int, nx: int, ny: int, tx: int, ty: int,
                                              diagonal: bool, cost: real)
    requires 0.0 < cost
    requires -1 <= nx - cx <= 1 && -1 <= ny - cy <= 1
    requires !diagonal ==> nx == cx || ny == cy
    ensures Estimate(cx, cy, tx, ty, diagonal, cost)
         <= MoveCost(nx - cx, ny - cy, cost) + Estimate(nx, ny, tx, ty, diagonal, cost)
  {
    SpanConsistent(cx, cy, nx, ny, tx, ty, diagonal);
    ScaledStep(cost, Span(Delta(cx, tx), Delta(cy, ty), diagonal), MoveLength(nx - cx, ny - cy),
               Span(Delta(nx, tx), Delta(ny, ty), diagonal));
  }
}
