/**
 Ranges over an ordered type: bounds, the coarse equality under which all clearly empty ranges
 are one, containment, and intersection, as the range class computes them.
 */
module Ranges {
  import opened Wrappers

  /** What a range asks of its value type: `<`, and the value that `TYPE{}` denotes. */
  datatype Order<!T(!new)> = Order(less: (T, T) -> bool, initial: T) {
    /** `<` is a strict total order, and values that it does not tell apart are equal. */
    ghost predicate Strict() {
      && (forall x :: !less(x, x))
      && (forall x, y, z :: less(x, y) && less(y, z) ==> less(x, z))
      && (forall x, y :: less(x, y) || less(y, x) || x == y)
    }

    /** Between two values there is a third, and there is no least and no greatest value. */
    ghost predicate Dense() {
      && (forall x, y {:trigger HasBetween(x, y)} :: less(x, y) ==> HasBetween(x, y))
      && (forall x :: HasBelow(x) && HasAbove(x))
    }

    ghost predicate HasBetween(x: T, y: T) {
      exists z :: less(x, z) && less(z, y)
    }

    ghost predicate HasBelow(x: T) {
      exists z :: less(z, x)
    }

    ghost predicate HasAbove(x: T) {
      exists z :: less(x, z)
    }
  }

  datatype Bound<T> = NoBound | Inclusive(value: T) | Exclusive(value: T) {
    predicate IsLimited() {
      !NoBound?
    }
  }

  /** Would `b`, as a lower bound, include `v`? */
  predicate ExtendsDownTo<T(!new)>(o: Order<T>, b: Bound<T>, v: T) {
    match b
    case NoBound => true
    case Inclusive(x) => !o.less(v, x)
    case Exclusive(x) => o.less(x, v)
  }

  /** Would `b`, as an upper bound, include `v`? */
  predicate ExtendsUpTo<T(!new)>(o: Order<T>, b: Bound<T>, v: T) {
    match b
    case NoBound => true
    case Inclusive(x) => !o.less(x, v)
    case Exclusive(x) => o.less(v, x)
  }

  predicate BoundsEqual<T(==)>(a: Bound<T>, b: Bound<T>) {
    if a.IsLimited() then b.IsLimited() && a.Inclusive? == b.Inclusive? && a.value == b.value
    else !b.IsLimited()
  }

  datatype Range<T> = Range(lower: Bound<T>, upper: Bound<T>)

  /** The bounds cross: the upper one is below the lower one. */
  predicate Crossing<T(!new)>(o: Order<T>, lower: Bound<T>, upper: Bound<T>) {
    lower.IsLimited() && upper.IsLimited() && o.less(upper.value, lower.value)
  }

  /** The class invariant of a range, which its constructor checks. */
  predicate Valid<T(!new)>(o: Order<T>, r: Range<T>) {
    !Crossing(o, r.lower, r.upper)
  }

  function MakeRange<T(!new)>(o: Order<T>, lower: Bound<T>, upper: Bound<T>): (r: Result<Range<T>, ()>)
    ensures r.Success? <==> !Crossing(o, lower, upper)
    ensures r.Success? ==> Valid(o, r.value) && r.value == Range(lower, upper)
  {
    if Crossing(o, lower, upper) then Failure(()) else Success(Range(lower, upper))
  }

  /** The range that `range()` makes: exclusive on both sides of one value. */
  function EmptyRange<T(!new)>(o: Order<T>): Range<T> {
    Range(Exclusive(o.initial), Exclusive(o.initial))
  }

  /** Clearly empty: limited on both sides, not inclusive on both, and nothing in between. */
  predicate Empty<T(!new)>(o: Order<T>, r: Range<T>) {
    && (r.lower.Exclusive? || r.upper.Exclusive?)
    && r.lower.IsLimited() && r.upper.IsLimited()
    && !o.less(r.lower.value, r.upper.value)
  }

  /** `operator==` */
  predicate Equal<T(==, !new)>(o: Order<T>, a: Range<T>, b: Range<T>) {
    || (BoundsEqual(a.lower, b.lower) && BoundsEqual(a.upper, b.upper))
    || (Empty(o, a) && Empty(o, b))
  }

  predicate ContainsValue<T(!new)>(o: Order<T>, r: Range<T>, v: T) {
    ExtendsDownTo(o, r.lower, v) && ExtendsUpTo(o, r.upper, v)
  }

  /** The lower bound of an intersection: the higher of the two, and the exclusive one at a tie. */
  function HigherLower<T(!new)>(o: Order<T>, a: Bound<T>, b: Bound<T>): Bound<T> {
    if !a.IsLimited() then b
    else if !b.IsLimited() then a
    else if o.less(a.value, b.value) then b
    else if o.less(b.value, a.value) then a
    else if a.Exclusive? then a
    else b
  }

  /** The upper bound of an intersection: the lower of the two, and the exclusive one at a tie. */
  function LowerUpper<T(!new)>(o: Order<T>, a: Bound<T>, b: Bound<T>): Bound<T> {
    if !a.IsLimited() then b
    else if !b.IsLimited() then a
    else if o.less(b.value, a.value) then b
    else if o.less(a.value, b.value) then a
    else if a.Exclusive? then a
    else b
  }

  /** `operator&`: the intersection, or the default empty range if the bounds cross. */
  function Meet<T(!new)>(o: Order<T>, a: Range<T>, b: Range<T>): Range<T> {
    var lower := HigherLower(o, a.lower, b.lower);
    var upper := LowerUpper(o, a.upper, b.upper);
    if Crossing(o, lower, upper) then EmptyRange(o) else Range(lower, upper)
  }

  /** `contains(range)` */
  predicate Contains<T(==, !new)>(o: Order<T>, a: Range<T>, b: Range<T>) {
    Equal(o, Meet(o, a, b), b)
  }
}
