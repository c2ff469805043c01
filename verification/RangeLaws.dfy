/**
 The algebra of ranges: modulo the class's own equality, intersection is the meet of the
 containment order; and what that order and that equality say about the values in a range.
 */
module RangeLaws {
  import opened Ranges

  /** Two bounds that leave no room: they cross, or they meet without both including the value. */
  predicate Void<T(!new)>(o: Order<T>, lower: Bound<T>, upper: Bound<T>) {
    lower.IsLimited() && upper.IsLimited() &&
    (o.less(upper.value, lower.value) ||
     (!o.less(lower.value, upper.value) && (lower.Exclusive? || upper.Exclusive?)))
  }

  // ----- Equality is a congruence -----

  /** An intersection is clearly empty exactly when the bounds it comes from leave no room. */
  lemma MeetIsRaw<T(!new)>(o: Order<T>, a: Range<T>, b: Range<T>)
    requires o.Strict()
    ensures Valid(o, Meet(o, a, b))
    ensures var l, u := HigherLower(o, a.lower, b.lower), LowerUpper(o, a.upper, b.upper);
            if Void(o, l, u) then Empty(o, Meet(o, a, b))
            else Meet(o, a, b) == Range(l, u) && !Empty(o, Meet(o, a, b))
  {
  }

  lemma EqualIsRaw<T(!new)>(o: Order<T>, a: Range<T>, b: Range<T>)
    requires o.Strict() && Valid(o, a) && Valid(o, b)
    ensures Equal(o, a, b) <==> a == b || (Void(o, a.lower, a.upper) && Void(o, b.lower, b.upper))
    ensures Empty(o, a) <==> Void(o, a.lower, a.upper)
  {
  }

  lemma EqualIsEquivalence<T(!new)>(o: Order<T>, a: Range<T>, b: Range<T>, c: Range<T>)
    requires o.Strict() && Valid(o, a) && Valid(o, b) && Valid(o, c)
    ensures Equal(o, a, a)
    ensures Equal(o, a, b) ==> Equal(o, b, a)
    ensures Equal(o, a, b) && Equal(o, b, c) ==> Equal(o, a, c)
  {
  }

  lemma MeetCongruent<T(!new)>(o: Order<T>, a: Range<T>, a': Range<T>, b: Range<T>, b': Range<T>)
    requires o.Strict() && Valid(o, a) && Valid(o, a') && Valid(o, b) && Valid(o, b')
    requires Equal(o, a, a') && Equal(o, b, b')
    ensures Equal(o, Meet(o, a, b), Meet(o, a', b'))
  {
  }

  // ----- Intersection is a meet -----

  lemma MeetAssociates<T(!new)>(o: Order<T>, a: Range<T>, b: Range<T>, c: Range<T>)
    requires o.Strict() && Valid(o, a) && Valid(o, b) && Valid(o, c)
    ensures Equal(o, Meet(o, a, Meet(o, b, c)), Meet(o, Meet(o, a, b), c))
  {
  }

  lemma ContainsReflexive<T(!new)>(o: Order<T>, a: Range<T>)
    requires o.Strict() && Valid(o, a)
    ensures Contains(o, a, a) && Equal(o, Meet(o, a, a), a)
  {
  }

  lemma MeetCommutes<T(!new)>(o: Order<T>, a: Range<T>, b: Range<T>)
    requires o.Strict() && Valid(o, a) && Valid(o, b)
    ensures Equal(o, Meet(o, a, b), Meet(o, b, a))
    ensures Contains(o, a, b) && Contains(o, b, a) ==> Equal(o, a, b)
  {
  }

  lemma ContainsTransitive<T(!new)>(o: Order<T>, a: Range<T>, b: Range<T>, c: Range<T>)
    requires o.Strict() && Valid(o, a) && Valid(o, b) && Valid(o, c)
    requires Contains(o, a, b) && Contains(o, b, c)
    ensures Contains(o, a, c)
  {
  }

  lemma MeetContains<T(!new)>(o: Order<T>, a: Range<T>, b: Range<T>)
    requires o.Strict() && Valid(o, a) && Valid(o, b)
    ensures Contains(o, a, Meet(o, a, b)) && Contains(o, b, Meet(o, a, b))
  {
  }

  lemma MeetContainsCommon<T(!new)>(o: Order<T>, a: Range<T>, b: Range<T>, c: Range<T>)
    requires o.Strict() && Valid(o, a) && Valid(o, b) && Valid(o, c)
    requires Contains(o, a, c) && Contains(o, b, c)
    ensures Contains(o, Meet(o, a, b), c)
  {
  }

  /**
   Modulo equality, containment is a partial order and the intersection is the greatest range
   that both operands contain; so it is idempotent, commutative and associative.
   */
  lemma MeetLaws<T(!new)>(o: Order<T>, a: Range<T>, b: Range<T>, c: Range<T>)
    requires o.Strict() && Valid(o, a) && Valid(o, b) && Valid(o, c)
    ensures Contains(o, a, a)
    ensures Contains(o, a, b) && Contains(o, b, a) ==> Equal(o, a, b)
    ensures Contains(o, a, b) && Contains(o, b, c) ==> Contains(o, a, c)
    ensures Valid(o, Meet(o, a, b))
    ensures Contains(o, a, Meet(o, a, b)) && Contains(o, b, Meet(o, a, b))
    ensures Contains(o, a, c) && Contains(o, b, c) <==> Contains(o, Meet(o, a, b), c)
    ensures Equal(o, Meet(o, a, a), a)
    ensures Equal(o, Meet(o, a, b), Meet(o, b, a))
    ensures Equal(o, Meet(o, a, Meet(o, b, c)), Meet(o, Meet(o, a, b), c))
  {
    hide Meet, Contains, Equal, Valid;
    var ab := Meet(o, a, b);
    ContainsReflexive(o, a);
    MeetCommutes(o, a, b);
    MeetIsRaw(o, a, b);
    MeetContains(o, a, b);
    MeetAssociates(o, a, b, c);
    if Contains(o, a, b) && Contains(o, b, c) {
      ContainsTransitive(o, a, b, c);
    }
    if Contains(o, a, c) && Contains(o, b, c) {
      MeetContainsCommon(o, a, b, c);
    }
    if Contains(o, ab, c) {
      ContainsTransitive(o, a, ab, c);
      ContainsTransitive(o, b, ab, c);
    }
  }

  /** The range with both limits included. */
  function Closure<T>(r: Range<T>): Range<T> {
    Range(if r.lower.Exclusive? then Inclusive(r.lower.value) else r.lower,
          if r.upper.Exclusive? then Inclusive(r.upper.value) else r.upper)
  }

  /** An intersection has bounds of its operands, unless even with all limits included they have no
      value in common; then it is the default range. */
  lemma MeetBounds<T(!new)>(o: Order<T>, a: Range<T>, b: Range<T>)
    requires o.Strict() && Valid(o, a) && Valid(o, b)
    ensures if exists v :: ContainsValue(o, Closure(a), v) && ContainsValue(o, Closure(b), v)
            then Meet(o, a, b).lower in {a.lower, b.lower} && Meet(o, a, b).upper in {a.upper, b.upper}
            else Meet(o, a, b) == Range(Exclusive(o.initial), Exclusive(o.initial))
  {
    var lower, upper := HigherLower(o, a.lower, b.lower), LowerUpper(o, a.upper, b.upper);
    if !Crossing(o, lower, upper) {
      var v := if lower.IsLimited() then lower.value else if upper.IsLimited() then upper.value else o.initial;
      assert ContainsValue(o, Closure(a), v) && ContainsValue(o, Closure(b), v);
    }
  }

  /** Ranges are equal exactly when each contains the other. */
  lemma EqualContains<T(!new)>(o: Order<T>, a: Range<T>, b: Range<T>)
    requires o.Strict() && Valid(o, a) && Valid(o, b)
    ensures Equal(o, a, b) <==> Contains(o, a, b) && Contains(o, b, a)
  {
  }

  /** The bounds of `a` lie no further in than those of `b`. */
  predicate Reaches<T(==, !new)>(o: Order<T>, a: Range<T>, b: Range<T>) {
    && (a.lower.NoBound? ||
        (b.lower.IsLimited() &&
         (o.less(a.lower.value, b.lower.value) ||
          (a.lower.value == b.lower.value && (a.lower.Inclusive? || b.lower.Exclusive?)))))
    && (a.upper.NoBound? ||
        (b.upper.IsLimited() &&
         (o.less(b.upper.value, a.upper.value) ||
          (a.upper.value == b.upper.value && (a.upper.Inclusive? || b.upper.Exclusive?)))))
  }

  /** Containment, which the code decides by an intersection, told from the bounds alone. */
  lemma ContainsByBounds<T(!new)>(o: Order<T>, a: Range<T>, b: Range<T>)
    requires o.Strict() && Valid(o, a) && Valid(o, b)
    ensures Contains(o, a, b) <==> Empty(o, b) || Reaches(o, a, b)
  {
  }

  // ----- What the laws say about values -----

  /**
   The constructor refuses limits with no value between them even if both are included. In a
   dense order without ends, the bounds with no value between them are those it refuses and
   those of ranges that are clearly empty; the default range is one.
   */
  lemma Refused<T(!new)>(o: Order<T>, lower: Bound<T>, upper: Bound<T>)
    requires o.Strict()
    ensures MakeRange(o, lower, upper).Failure? <==>
            && lower.IsLimited() && upper.IsLimited()
            && forall v :: !ContainsValue(o, Range(Inclusive(lower.value), Inclusive(upper.value)), v)
    ensures MakeRange(o, lower, upper).Failure? ==> forall v :: !ContainsValue(o, Range(lower, upper), v)
    ensures o.Dense() ==>
              ((forall v :: !ContainsValue(o, Range(lower, upper), v)) <==>
               MakeRange(o, lower, upper).Failure? || Empty(o, MakeRange(o, lower, upper).value))
    ensures Valid(o, EmptyRange(o)) && Empty(o, EmptyRange(o))
    ensures EmptyRange(o).lower == EmptyRange(o).upper == Exclusive(o.initial)
  {
    if lower.IsLimited() && upper.IsLimited() && !Crossing(o, lower, upper) {
      assert ContainsValue(o, Range(Inclusive(lower.value), Inclusive(upper.value)), lower.value);
    }
    if o.Dense() && !Void(o, lower, upper) {
      var v := RoomHasValue(o, lower, upper);
    }
  }

  /** In every order: intersection is exact, and the other notions are sound. */
  lemma Sound<T(!new)>(o: Order<T>, a: Range<T>, b: Range<T>, v: T)
    requires o.Strict() && Valid(o, a) && Valid(o, b)
    ensures ContainsValue(o, Meet(o, a, b), v) <==> ContainsValue(o, a, v) && ContainsValue(o, b, v)
    ensures Empty(o, a) ==> !ContainsValue(o, a, v)
    ensures Equal(o, a, b) ==> (ContainsValue(o, a, v) <==> ContainsValue(o, b, v))
    ensures Contains(o, a, b) && ContainsValue(o, b, v) ==> ContainsValue(o, a, v)
  {
  }

  /** In a dense order without ends, bounds that leave room have a value between them. */
  lemma RoomHasValue<T(!new)>(o: Order<T>, lower: Bound<T>, upper: Bound<T>) returns (v: T)
    requires o.Strict() && o.Dense() && !Void(o, lower, upper)
    ensures ContainsValue(o, Range(lower, upper), v)
  {
    if lower.IsLimited() && upper.IsLimited() {
      if o.less(lower.value, upper.value) {
        assert o.HasBetween(lower.value, upper.value);
        v :| o.less(lower.value, v) && o.less(v, upper.value);
      } else {
        v := lower.value;
      }
    } else if lower.IsLimited() {
      assert o.HasAbove(lower.value);
      v :| o.less(lower.value, v);
    } else if upper.IsLimited() {
      assert o.HasBelow(upper.value);
      v :| o.less(v, upper.value);
    } else {
      v := o.initial;
    }
  }

  /** The lower bound that starts where `b`, as an upper bound, stops; and the other way around. */
  function Opposite<T>(b: Bound<T>): Bound<T>
    requires b.IsLimited()
  {
    if b.Inclusive? then Exclusive(b.value) else Inclusive(b.value)
  }

  /** In a dense order without ends, what `b` holds and `a` does not shows at a bound. */
  lemma MissingValue<T(!new)>(o: Order<T>, a: Range<T>, b: Range<T>) returns (v: T)
    requires o.Strict() && o.Dense() && Valid(o, a) && Valid(o, b)
    requires !Contains(o, a, b)
    ensures ContainsValue(o, b, v) && !ContainsValue(o, a, v)
  {
    MeetIsRaw(o, a, b);
    EqualIsRaw(o, b, b);
    if HigherLower(o, a.lower, b.lower) != b.lower {
      v := RoomHasValue(o, b.lower, LowerUpper(o, b.upper, Opposite(a.lower)));
    } else {
      v := RoomHasValue(o, HigherLower(o, b.lower, Opposite(a.upper)), b.upper);
    }
  }

  /** In a dense order without ends, the notions say exactly what they say about values. */
  lemma Exact<T(!new)>(o: Order<T>, a: Range<T>, b: Range<T>)
    requires o.Strict() && o.Dense() && Valid(o, a) && Valid(o, b)
    ensures Empty(o, a) <==> forall v :: !ContainsValue(o, a, v)
    ensures Contains(o, a, b) <==> forall v :: ContainsValue(o, b, v) ==> ContainsValue(o, a, v)
    ensures Equal(o, a, b) <==> forall v :: ContainsValue(o, a, v) <==> ContainsValue(o, b, v)
  {
    forall v
      ensures Empty(o, a) ==> !ContainsValue(o, a, v)
      ensures Contains(o, a, b) && ContainsValue(o, b, v) ==> ContainsValue(o, a, v)
      ensures Equal(o, a, b) ==> (ContainsValue(o, a, v) <==> ContainsValue(o, b, v))
    {
      Sound(o, a, b, v);
    }
    if !Empty(o, a) {
      EqualIsRaw(o, a, a);
      var v := RoomHasValue(o, a.lower, a.upper);
    }
    if !Contains(o, a, b) {
      var v := MissingValue(o, a, b);
    }
    if !Contains(o, b, a) {
      var v := MissingValue(o, b, a);
    }
    MeetLaws(o, a, b, a);
  }

  /** The reals are such an order. */
  lemma RealsAreDense()
    ensures REALS.Strict() && REALS.Dense()
  {
    forall x, y {:trigger REALS.HasBetween(x, y)} | REALS.less(x, y)
      ensures REALS.HasBetween(x, y)
    {
      assert REALS.less(x, (x + y) / 2.0) && REALS.less((x + y) / 2.0, y);
    }
    forall x
      ensures REALS.HasBelow(x) && REALS.HasAbove(x)
    {
      assert REALS.less(x - 1.0, x) && REALS.less(x, x + 1.0);
    }
  }

  const REALS: Order<real> := Order((x: real, y: real) => x < y, 0.0)

  // ----- Over the integers -----

  const INTEGERS: Order<int> := Order((x: int, y: int) => x < y, 0)

  /**
   Over the integers `empty()` can be fooled, and just so: a range that holds no integer is
   reported as not empty exactly when it is exclusive on both sides of two neighbours.
   */
  lemma IntegerEmptiness(r: Range<int>)
    requires Valid(INTEGERS, r)
    ensures INTEGERS.Strict()
    ensures (forall v :: !ContainsValue(INTEGERS, r, v)) <==>
            || Empty(INTEGERS, r)
            || (r.lower.Exclusive? && r.upper.Exclusive? && r.upper.value == r.lower.value + 1)
    ensures r == Range(Exclusive(0), Exclusive(1)) ==>
              (forall v :: !ContainsValue(INTEGERS, r, v)) && !Empty(INTEGERS, r)
  {
    var v := if r.lower.Inclusive? then r.lower.value
             else if r.lower.Exclusive? then r.lower.value + 1
             else if r.upper.Inclusive? then r.upper.value
             else if r.upper.Exclusive? then r.upper.value - 1
             else 0;
    if Empty(INTEGERS, r) || (r.lower.Exclusive? && r.upper.Exclusive? && r.upper.value == r.lower.value + 1) {
      assert forall w :: !ContainsValue(INTEGERS, r, w);
    } else {
      assert ContainsValue(INTEGERS, r, v);
    }
  }

  /** No integer is in the range, though its bounds do not say so. */
  predicate Gap(r: Range<int>) {
    r.lower.Exclusive? && r.upper.Exclusive? && r.upper.value == r.lower.value + 1
  }

  /** All integers in `b` are in `a`. */
  ghost predicate Encloses(a: Range<int>, b: Range<int>) {
    forall v :: ContainsValue(INTEGERS, b, v) ==> ContainsValue(INTEGERS, a, v)
  }

  /** The first integer that a lower bound lets in, and the last that an upper bound does. */
  function First(b: Bound<int>): int
    requires b.IsLimited()
  {
    if b.Inclusive? then b.value else b.value + 1
  }

  function Last(b: Bound<int>): int
    requires b.IsLimited()
  {
    if b.Inclusive? then b.value else b.value - 1
  }

  /** As far as integers go, `a` starts no later than `b`, and ends no earlier. */
  predicate Spans(a: Range<int>, b: Range<int>) {
    && (a.lower.IsLimited() ==> b.lower.IsLimited() && First(a.lower) <= First(b.lower))
    && (a.upper.IsLimited() ==> b.upper.IsLimited() && Last(b.upper) <= Last(a.upper))
  }

  /** A bound of `b` stops just before `n` where `a` stops at the neighbour of `n`, included. */
  predicate OffByOne(a: Range<int>, b: Range<int>) {
    || (a.lower.Inclusive? && b.lower.Exclusive? && a.lower.value == b.lower.value + 1)
    || (a.upper.Inclusive? && b.upper.Exclusive? && a.upper.value == b.upper.value - 1)
  }

  lemma IntegersAreStrict()
    ensures INTEGERS.Strict()
  {
  }

  /** Where `b` holds an integer, the closed form says whether all of them are in `a`. */
  lemma SpansIsEncloses(a: Range<int>, b: Range<int>)
    requires Valid(INTEGERS, a) && Valid(INTEGERS, b) && !Empty(INTEGERS, b) && !Gap(b)
    ensures Encloses(a, b) <==> Spans(a, b)
  {
    if a.lower.IsLimited() && b.lower.NoBound? {
      var below := First(a.lower) - 1;
      var v := if b.upper.IsLimited() && Last(b.upper) < below then Last(b.upper) else below;
      assert ContainsValue(INTEGERS, b, v) && !ContainsValue(INTEGERS, a, v);
    } else if a.upper.IsLimited() && b.upper.NoBound? {
      var above := Last(a.upper) + 1;
      var v := if b.lower.IsLimited() && First(b.lower) > above then First(b.lower) else above;
      assert ContainsValue(INTEGERS, b, v) && !ContainsValue(INTEGERS, a, v);
    } else {
      assert b.lower.IsLimited() ==> ContainsValue(INTEGERS, b, First(b.lower));
      assert b.upper.IsLimited() ==> ContainsValue(INTEGERS, b, Last(b.upper));
    }
  }

  /** Exactly when `contains` misses that all of `b`'s integers are in `a`. */
  predicate ContainmentMissed(a: Range<int>, b: Range<int>) {
    && !Empty(INTEGERS, b)
    && if Gap(b) then !Reaches(INTEGERS, a, b) else Spans(a, b) && OffByOne(a, b)
  }

  /**
   Over the integers, containment means that the values are contained but for an exact set of
   exceptions: those in which a bound is off by one, or `b` holds nothing but does not show it.
   */
  lemma IntegerContainment(a: Range<int>, b: Range<int>)
    requires Valid(INTEGERS, a) && Valid(INTEGERS, b)
    ensures Contains(INTEGERS, a, b) <==> Encloses(a, b) && !ContainmentMissed(a, b)
    ensures Encloses(a, b) && !Contains(INTEGERS, a, b) <==> ContainmentMissed(a, b)
  {
    hide Contains, Spans, OffByOne;
    IntegersAreStrict();
    ContainsByBounds(INTEGERS, a, b);
    IntegerEmptiness(b);
    if !Empty(INTEGERS, b) && !Gap(b) {
      SpansIsEncloses(a, b);
      SpansButReaches(a, b);
    }
  }

  /** Where the integers are spanned, only a bound that is off by one keeps the bounds apart. */
  lemma SpansButReaches(a: Range<int>, b: Range<int>)
    ensures Reaches(INTEGERS, a, b) <==> Spans(a, b) && !OffByOne(a, b)
  {
  }

  /** Exactly when two ranges with the same integers are not equal. */
  predicate EqualityMissed(a: Range<int>, b: Range<int>) {
    && a != b
    && if Empty(INTEGERS, a) || Gap(a) then (Empty(INTEGERS, b) || Gap(b)) && (Gap(a) || Gap(b))
       else !Empty(INTEGERS, b) && !Gap(b) && Spans(a, b) && Spans(b, a)
  }

  /** Equality likewise: the exceptions are those of containment, either way round. */
  lemma IntegerEquality(a: Range<int>, b: Range<int>)
    requires Valid(INTEGERS, a) && Valid(INTEGERS, b)
    ensures Encloses(a, b) && Encloses(b, a) && !Equal(INTEGERS, a, b) <==> EqualityMissed(a, b)
    ensures EqualityMissed(a, b) <==>
            Encloses(a, b) && Encloses(b, a) && (ContainmentMissed(a, b) || ContainmentMissed(b, a))
  {
    hide Contains, ContainmentMissed, Spans;
    IntegersAreStrict();
    MeetLaws(INTEGERS, a, b, a);
    IntegerContainment(a, b);
    IntegerContainment(b, a);
    EqualContains(INTEGERS, a, b);
    EqualIsRaw(INTEGERS, a, b);
    IntegerEmptiness(a);
    IntegerEmptiness(b);
    if !Empty(INTEGERS, a) && !Gap(a) && !Empty(INTEGERS, b) && !Gap(b) {
      SpansIsEncloses(a, b);
      SpansIsEncloses(b, a);
    }
  }

  /** The example in the code's own comment: `[0, 9]` is not found to contain `[0, 10)`. */
  lemma IntegerContainmentIncomplete()
    ensures var a, b := Range(Inclusive(0), Inclusive(9)), Range(Inclusive(0), Exclusive(10));
            && Valid(INTEGERS, a) && Valid(INTEGERS, b)
            && Encloses(a, b) && Encloses(b, a)
            && !Contains(INTEGERS, a, b) && Contains(INTEGERS, b, a) && !Equal(INTEGERS, a, b)
  {
    var a, b := Range(Inclusive(0), Inclusive(9)), Range(Inclusive(0), Exclusive(10));
    IntegerContainment(a, b);
    IntegerContainment(b, a);
  }
}
