/** Values shared by the cell and the grid: JavaScript's "no value", setter
    arguments that may be of the wrong type, and the strings the setters throw. */
module Common {

  /** A number slot that may hold no number: JavaScript's `undefined` and `NaN`
      are both `None`. */
  datatype Option<+T> = None | Some(value: T)

  /** JavaScript's `a != b` on numbers, with `None` standing for NaN:
      NaN differs from everything, itself included. */
  predicate Differs(a: Option<real>, b: Option<real>) {
    !(a.Some? && b.Some? && a.value == b.value)
  }

  /** `a + b` on numbers: NaN (or `undefined`) on either side gives NaN. */
  function Plus(a: Option<real>, b: Option<real>): (r: Option<real>)
  {
    if a.Some? && b.Some? then Some(a.value + b.value) else None
  }

  /** An argument handed to a setter: a value of the type the setter expects,
      or a value of some other JavaScript type. */
  datatype Input<+T> = Given(value: T) | Foreign

  /** The dimension a width or height setter is about. */
  datatype Dimension = Width | Height

  /** One constructor per `throw` in the source. */
  datatype Failure =
    | UnknownType(name: string)      // Cell type setter: not one of the five names
    | NotACell                       // Cell comingFrom setter: undefined or not a Cell
    | InconsistentPath               // getPathOfCell: an ancestor is not 'checked'
    | TargetNotACell                 // Grid target setter
    | StartNotACell                  // Grid start setter
    | NotAnInteger(dim: Dimension)   // Grid width/height setter: parseInt(v) !== v
    | Negative(dim: Dimension)       // Grid width/height setter: v < 0
    | NotABoolean                    // Grid canWalkDiagonal setter
    | NotPositive                    // Grid steppingCost setter

  /** How a setter or a void call ends: normally, or by throwing. */
  datatype Outcome = Done | Thrown(failure: Failure)

  /** A validated value, or the failure that rejects it. */
  datatype Result<+T> = Ok(value: T) | Err(failure: Failure)

  /** No element occurs twice. */
  predicate Distinct<T(==)>(s: seq<T>) {
    forall i, j :: 0 <= i < j < |s| ==> s[i] != s[j]
  }

  /** Two sequences without repeats and without a common element join into
      one without repeats. */
  lemma DistinctJoin<T>(a: seq<T>, b: seq<T>)
    requires Distinct(a) && Distinct(b)
    requires forall c :: c in b ==> c !in a
    ensures Distinct(a + b)
  {
    var s := a + b;
    forall i, j | 0 <= i < j < |s| ensures s[i] != s[j] {
      if j >= |a| && i < |a| {
        assert s[j] == b[j - |a|] && s[i] == a[i];
        assert s[j] in b;
      } else if i >= |a| {
        assert s[i] == b[i - |a|] && s[j] == b[j - |a|];
      }
    }
  }

}
