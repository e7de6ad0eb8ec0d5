/** The inclusive rectangles the grid uses to say which cells a resize creates
    or announces as removed. The class behind them is not part of this model:
    an area is `[x1, x2] x [y1, y2]` with a membership test, and its points are
    visited column by column (x outer, y inner, both ascending). */
module Areas {

  datatype Area = Area(x1: int, x2: int, y1: int, y2: int)

  /** `area.contains(x, y)`: an inclusive bounds check on both axes. */
  predicate Contains(a: Area, x: int, y: int) {
    a.x1 <= x <= a.x2 && a.y1 <= y <= a.y2
  }

  /** p comes before q when walking column by column. */
  predicate ColumnMajorBefore(p: (int, int), q: (int, int)) {
    p.0 < q.0 || (p.0 == q.0 && p.1 < q.1)
  }

  predicate Ascending(s: seq<(int, int)>) {
    forall i, j :: 0 <= i < j < |s| ==> ColumnMajorBefore(s[i], s[j])
  }

  /** The points (x, y1), (x, y1 + 1), ..., (x, yEnd - 1). */
  function Column(x: int, y1: int, yEnd: int): (r: seq<(int, int)>)
    decreases yEnd - y1
  {
    if yEnd <= y1 then [] else Column(x, y1, yEnd - 1) + [(x, yEnd - 1)]
  }

  /** The points of the columns x1, ..., x - 1 of the area, in visiting order. */
  function ColumnsBefore(a: Area, x: int): (r: seq<(int, int)>)
    decreases x - a.x1
  {
    if x <= a.x1 then [] else ColumnsBefore(a, x - 1) + Column(x - 1, a.y1, a.y2 + 1)
  }

  /** Every point of the area, in visiting order, and nothing else. */
  function Points(a: Area): (r: seq<(int, int)>)
    ensures forall p :: p in r <==> Contains(a, p.0, p.1)
  {
    ColumnsBeforeMembers(a, a.x2 + 1);
    ColumnsBefore(a, a.x2 + 1)
  }

  /** A column holds exactly its rows. */
  lemma {:induction false} ColumnMembers(x: int, y1: int, yEnd: int)
    ensures forall p :: p in Column(x, y1, yEnd) <==> p.0 == x && y1 <= p.1 < yEnd
    decreases yEnd - y1
  {
    if y1 < yEnd {
      ColumnMembers(x, y1, yEnd - 1);
    }
  }

  /** The columns before x hold exactly the area's points left of x. */
  lemma {:induction false} ColumnsBeforeMembers(a: Area, x: int)
    ensures forall p :: p in ColumnsBefore(a, x) <==> a.x1 <= p.0 < x && a.y1 <= p.1 <= a.y2
    decreases x - a.x1
  {
    if a.x1 < x {
      ColumnsBeforeMembers(a, x - 1);
      ColumnMembers(x - 1, a.y1, a.y2 + 1);
    }
  }

  /** A column is visited bottom-up, each row once. */
  lemma {:induction false} ColumnAscending(x: int, y1: int, yEnd: int)
    ensures Ascending(Column(x, y1, yEnd))
    decreases yEnd - y1
  {
    if y1 < yEnd {
      ColumnAscending(x, y1, yEnd - 1);
      var r := Column(x, y1, yEnd - 1);
      ColumnMembers(x, y1, yEnd - 1);
      forall i | 0 <= i < |r| ensures ColumnMajorBefore(r[i], (x, yEnd - 1)) {
        assert r[i] in r;
      }
    }
  }

  /** The columns are visited left to right, each point once. */
  lemma {:induction false} ColumnsBeforeAscending(a: Area, x: int)
    ensures Ascending(ColumnsBefore(a, x))
    decreases x - a.x1
  {
    if a.x1 < x {
      ColumnsBeforeAscending(a, x - 1);
      ColumnAscending(x - 1, a.y1, a.y2 + 1);
      var left := ColumnsBefore(a, x - 1);
      var col := Column(x - 1, a.y1, a.y2 + 1);
      ColumnsBeforeMembers(a, x - 1);
      ColumnMembers(x - 1, a.y1, a.y2 + 1);
      forall i, j | 0 <= i < |left| && 0 <= j < |col| ensures ColumnMajorBefore(left[i], col[j]) {
        assert left[i] in left && col[j] in col;
      }
    }
  }

  /** `area.iterator()` visits the points column by column, x outer and y
      inner, both ascending, so no point twice. */
  lemma PointsAscending(a: Area)
    ensures Ascending(Points(a))
  {
    ColumnsBeforeAscending(a, a.x2 + 1);
  }
}
