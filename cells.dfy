/** A cell of the grid (docs/demo/resources/scripts/cell.js): its kind, its
    coordinates, its h and g values, a display flag tied to g, the cell it was
    reached from, and the change events its setters dispatch, kept in order
    in `log`. */
module Cells {
  import opened Common

  /** The five values of `type`. */
  datatype Kind = Checked | Traversable | Blocked | Start | Target

  /** The string a kind is written as. */
  function KindName(k: Kind): (r: string) {
    match k
    case Checked => "checked"
    case Traversable => "traversable"
    case Blocked => "blocked"
    case Start => "start"
    case Target => "target"
  }

  /** `types.indexOf(v) != -1`, and which kind v names. */
  function ParseKind(v: string): (r: Option<Kind>)
    ensures r.Some? ==> KindName(r.value) == v
    ensures r.None? <==> forall k: Kind :: KindName(k) != v
  {
    if v == "checked" then Some(Checked)
    else if v == "traversable" then Some(Traversable)
    else if v == "blocked" then Some(Blocked)
    else if v == "start" then Some(Start)
    else if v == "target" then Some(Target)
    else None
  }

  /** Every kind is accepted under its own name, and no two kinds share one. */
  lemma ParseKindName(k: Kind)
    ensures ParseKind(KindName(k)) == Some(k)
  {
  }

  /** A dispatched event with its `old` and `new` payload; `None` is `undefined`. */
  datatype CellEvent =
    | TypeChange(oldKind: Option<Kind>, newKind: Kind)
    | XChange(oldX: Option<int>, newX: int)
    | YChange(oldY: Option<int>, newY: int)
    | HChange(oldH: Option<real>, newH: Option<real>)
    | GChange(oldG: Option<real>, newG: Option<real>)
    | DisplayChange(oldDisplay: Option<bool>, newDisplay: bool)
    | ComingFromChange(oldFrom: Cell?, newFrom: Cell)

  /** The name an event is dispatched under. A change of `comingFrom` is
      dispatched as `gchange`, not under its declared name. */
  function EventName(e: CellEvent): (r: string) {
    match e
    case TypeChange(_, _) => "typechange"
    case XChange(_, _) => "xchange"
    case YChange(_, _) => "ychange"
    case HChange(_, _) => "hchange"
    case GChange(_, _) => "gchange"
    case DisplayChange(_, _) => "displaychange"
    case ComingFromChange(_, _) => "gchange"
  }

  /** Everything a cell holds, as one value. */
  datatype CellState = CellState(kind: Kind, x: int, y: int, h: Option<real>, g: Option<real>,
                                 display: bool, comingFrom: Cell?, log: seq<CellEvent>)

  /** A new cell at (x, y): traversable, hidden, with no h, g or
      predecessor, having fired the type, display, x and y events from
      `undefined`. */
  function Initial(x: int, y: int): (r: CellState) {
    CellState(Traversable, x, y, None, None, false, null,
              [TypeChange(None, Traversable), DisplayChange(None, false), XChange(None, x), YChange(None, y)])
  }

  /** The `type` setter with a valid name: fires only on a change. */
  function WithKind(s: CellState, k: Kind): (r: CellState) {
    if s.kind != k then s.(kind := k, log := s.log + [TypeChange(Some(s.kind), k)]) else s
  }

  /** The `x` setter. */
  function WithX(s: CellState, v: int): (r: CellState) {
    if v != s.x then s.(x := v, log := s.log + [XChange(Some(s.x), v)]) else s
  }

  /** The `y` setter. */
  function WithY(s: CellState, v: int): (r: CellState) {
    if v != s.y then s.(y := v, log := s.log + [YChange(Some(s.y), v)]) else s
  }

  /** The `hValue` setter: `val != hValue`, which NaN always passes. */
  function WithH(s: CellState, v: Option<real>): (r: CellState) {
    if Differs(s.h, v) then s.(h := v, log := s.log + [HChange(s.h, v)]) else s
  }

  /** The `display` setter: a value that is not a boolean is ignored, and so
      is the value already held. */
  function WithDisplay(s: CellState, v: Input<bool>): (r: CellState) {
    if v.Given? && v.value != s.display then
      s.(display := v.value, log := s.log + [DisplayChange(Some(s.display), v.value)])
    else s
  }

  /** The `gValue` setter: on a change it stores the value, then sets
      `display` to whether the value is a number, then fires `gchange`. */
  function WithG(s: CellState, v: Option<real>): (r: CellState) {
    if Differs(s.g, v) then
      var shown := WithDisplay(s.(g := v), Given(v.Some?));
      shown.(log := shown.log + [GChange(s.g, v)])
    else s
  }

  /** The `comingFrom` setter with a cell: stores it and always fires. */
  function WithComingFrom(s: CellState, c: Cell): (r: CellState) {
    s.(comingFrom := c, log := s.log + [ComingFromChange(s.comingFrom, c)])
  }

  /** The setters never touch what they are not about. */
  predicate SameCoordinates(s: CellState, t: CellState) {
    s.x == t.x && s.y == t.y
  }

  /** Setting a kind a second time changes nothing and fires nothing. */
  lemma WithKindOnce(s: CellState, k: Kind)
    ensures WithKind(WithKind(s, k), k) == WithKind(s, k)
    ensures WithKind(s, k).kind == k
    ensures |WithKind(s, k).log| == |s.log| + (if s.kind == k then 0 else 1)
  {
  }

  /** A number given to `hValue` a second time fires nothing; "no value"
      given again fires every time, because NaN differs from itself. */
  lemma WithHRepeated(s: CellState, v: Option<real>)
    ensures WithH(s, v).h == v
    ensures v.Some? ==> WithH(WithH(s, v), v) == WithH(s, v)
    ensures v.None? ==> |WithH(WithH(s, v), v).log| == |s.log| + 2
  {
  }

  /** After a change of g, display says whether g is a number, and the
      display event (if any) comes before the `gchange` event. */
  lemma WithGShowsNumber(s: CellState, v: Option<real>)
    ensures Differs(s.g, v) ==> WithG(s, v).g == v && WithG(s, v).display == v.Some?
    ensures Differs(s.g, v) ==> WithG(s, v).log[|WithG(s, v).log| - 1] == GChange(s.g, v)
    ensures Differs(s.g, v) && s.display != v.Some? ==>
              WithG(s, v).log == s.log + [DisplayChange(Some(s.display), v.Some?), GChange(s.g, v)]
    ensures !Differs(s.g, v) ==> WithG(s, v) == s
    ensures SameCoordinates(s, WithG(s, v)) && WithG(s, v).kind == s.kind
  {
  }

  /** Once a predecessor is set it stays set, and each assignment fires one
      event named `gchange`. */
  lemma WithComingFromFires(s: CellState, c: Cell)
    ensures WithComingFrom(s, c).comingFrom != null
    ensures |WithComingFrom(s, c).log| == |s.log| + 1
    ensures EventName(WithComingFrom(s, c).log[|s.log|]) == "gchange"
  {
  }

  /** The cells `getPathOfCell` visits: each one was reached from the next,
      and the last one either was reached from nowhere or is a predecessor
      that is not checked, where the walk throws. `resetPathfinding` leaves
      `comingFrom` in place, so stale links can form cycles; a cycle is a
      walk only when a cell on it that is not checked ends it. */
  ghost predicate Walk(chain: seq<Cell>)
    reads set c | c in chain
  {
    |chain| >= 1
    && (forall i :: 0 <= i < |chain| - 1 ==> chain[i].comingFrom == chain[i + 1])
    && (chain[|chain| - 1].comingFrom == null || (|chain| >= 2 && chain[|chain| - 1].kind != Checked))
  }

  /** Two cells whose stale predecessors point at each other, where the second
      is not checked: the walk from the first stops there and throws. */
  lemma StaleCycleWalks(b: Cell, c: Cell)
    requires b.comingFrom == c && c.comingFrom == b && c.kind != Checked
    ensures Walk([b, c])
  {
  }

  class Cell {
    var kind: Kind
    var x: int
    var y: int
    var h: Option<real>
    var g: Option<real>
    var display: bool
    var comingFrom: Cell?
    var log: seq<CellEvent>

    function State(): (r: CellState)
      reads this
    {
      CellState(kind, x, y, h, g, display, comingFrom, log)
    }

    /** `new Cell(xPos, yPos)`: type, display, x and y are set through their
        setters, in that order, each firing from `undefined`. */
    constructor (xPos: int, yPos: int)
      ensures State() == Initial(xPos, yPos)
    {
      kind := Traversable;
      display := false;
      x := xPos;
      y := yPos;
      h := None;
      g := None;
      comingFrom := null;
      log := [TypeChange(None, Traversable), DisplayChange(None, false), XChange(None, xPos), YChange(None, yPos)];
    }

    /** The `type` setter with one of the five names. */
    method SetKind(k: Kind)
      modifies this`kind, this`log
      ensures State() == WithKind(old(State()), k)
    {
      if kind != k {
        var was := kind;
        kind := k;
        log := log + [TypeChange(Some(was), k)];
      }
    }

    /** The `type` setter: a string that names no kind throws and changes
        nothing. */
    method SetType(v: string) returns (o: Outcome)
      modifies this`kind, this`log
      ensures ParseKind(v).None? ==> o == Thrown(UnknownType(v)) && State() == old(State())
      ensures ParseKind(v).Some? ==> o == Done && State() == WithKind(old(State()), ParseKind(v).value)
    {
      var k := ParseKind(v);
      if k.None? {
        return Thrown(UnknownType(v));
      }
      SetKind(k.value);
      return Done;
    }

    method SetX(v: int)
      modifies this`x, this`log
      ensures State() == WithX(old(State()), v)
    {
      if v != x {
        var was := x;
        x := v;
        log := log + [XChange(Some(was), v)];
      }
    }

    method SetY(v: int)
      modifies this`y, this`log
      ensures State() == WithY(old(State()), v)
    {
      if v != y {
        var was := y;
        y := v;
        log := log + [YChange(Some(was), v)];
      }
    }

    method SetH(v: Option<real>)
      modifies this`h, this`log
      ensures State() == WithH(old(State()), v)
    {
      if Differs(h, v) {
        var was := h;
        h := v;
        log := log + [HChange(was, v)];
      }
    }

    method SetDisplay(v: Input<bool>)
      modifies this`display, this`log
      ensures State() == WithDisplay(old(State()), v)
    {
      if v.Given? && v.value != display {
        var was := display;
        display := v.value;
        log := log + [DisplayChange(Some(was), v.value)];
      }
    }

    method SetG(v: Option<real>)
      modifies this`g, this`display, this`log
      ensures State() == WithG(old(State()), v)
    {
      if Differs(g, v) {
        var was := g;
        g := v;
        SetDisplay(Given(v.Some?));
        log := log + [GChange(was, v)];
      }
    }

    /** The `comingFrom` setter: `undefined` (here `null`) and anything that
        is not a cell throw; a cell is stored, firing even when unchanged. */
    method SetComingFrom(v: Input<Cell?>) returns (o: Outcome)
      modifies this`comingFrom, this`log
      ensures (v.Foreign? || v.value == null) ==> o == Thrown(NotACell) && State() == old(State())
      ensures v.Given? && v.value != null ==> o == Done && State() == WithComingFrom(old(State()), v.value)
    {
      if v.Foreign? || v.value == null {
        return Thrown(NotACell);
      }
      var was := comingFrom;
      comingFrom := v.value;
      log := log + [ComingFromChange(was, v.value)];
      return Done;
    }

    /** `fValue`: g + h, which has no value when either part has none. */
    function FValue(): (f: Option<real>)
      reads this`g, this`h
      ensures f.Some? <==> g.Some? && h.Some?
      ensures f.Some? ==> f.value == g.value + h.value
    {
      Plus(g, h)
    }

    /** `getPathOfCell`: a cell that is not checked gives `undefined`; otherwise
        the predecessor chain is walked and collected, throwing at the first
        predecessor that is not checked. The collected list is never
        returned, so a walk that does not throw also gives `undefined`;
        `walked` is that list. For a checked cell, `chain` is the walk from
        it, which ends at a cell reached from nowhere or at a cell that is not
        checked; only a cycle of checked cells, on which the source never
        stops, has no such walk. */
    method GetPathOfCell(ghost chain: seq<Cell>) returns (o: Outcome, ghost walked: seq<Cell>)
      requires kind == Checked ==> Walk(chain) && chain[0] == this
      ensures o.Thrown? <==> kind == Checked && exists i :: 1 <= i < |chain| && chain[i].kind != Checked
      ensures o.Thrown? ==> o.failure == InconsistentPath
      ensures o.Thrown? ==> exists i :: 1 <= i < |chain| && chain[i].kind != Checked
                                     && (forall j :: 1 <= j < i ==> chain[j].kind == Checked)
                                     && walked == chain[..i]
      ensures kind == Checked && o.Done? ==> walked == chain
    {
      if kind != Checked {
        return Done, [];
      }
      var ret := [this];
      var c := this;
      ghost var k := 0;
      while c.comingFrom != null
        invariant 0 <= k < |chain| && c == chain[k] && ret == chain[..k + 1]
        invariant forall i :: 1 <= i <= k ==> chain[i].kind == Checked
        invariant k < |chain| - 1 ==> c.comingFrom == chain[k + 1]
        invariant k == |chain| - 1 ==> c.comingFrom == null
        decreases |chain| - k
      {
        if c.comingFrom.kind != Checked {
          return Thrown(InconsistentPath), ret;
        }
        c := c.comingFrom;
        ret := ret + [c];
        k := k + 1;
      }
      return Done, ret;
    }
  }
}
