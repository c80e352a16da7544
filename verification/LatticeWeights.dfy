/** The weights of a lattice, in exact arithmetic: two costs kept apart and compared by
    their sum. */
module LatticeWeights {

  /** A number as the weights hold it: a real, or one of the values that are not. */
  datatype Number = Real(value: real) | PlusInfinity | MinusInfinity | NotANumber {

    function Add(other: Number): Number {
      if NotANumber? || other.NotANumber? then NotANumber
      else if Real? && other.Real? then Real(value + other.value)
      else if Real? then other
      else if other.Real? || this == other then this
      else NotANumber
    }

    function Negate(): Number {
      match this
      case Real(v) => Real(-v)
      case PlusInfinity => MinusInfinity
      case MinusInfinity => PlusInfinity
      case NotANumber => NotANumber
    }

    /** Nothing is less than, or greater than, what is not a number. */
    predicate Less(other: Number) {
      if NotANumber? || other.NotANumber? then false
      else if Real? && other.Real? then value < other.value
      else (MinusInfinity? && !other.MinusInfinity?) || (other.PlusInfinity? && !PlusInfinity?)
    }
  }

  datatype Ordering = Less | Equal | Greater

  datatype Side = Left | Right | Any

  datatype LatticeWeight = LatticeWeight(graph: Number, acoustic: Number) {

    function Total(): Number {
      graph.Add(acoustic)
    }

    predicate IsMember() {
      && !graph.NotANumber? && !acoustic.NotANumber? && !graph.MinusInfinity? && !acoustic.MinusInfinity?
      && (graph.PlusInfinity? <==> acoustic.PlusInfinity?)
    }

    /** `Greater` is better: a smaller total, or on a tie a smaller graph cost. */
    function Compare(other: LatticeWeight): Ordering {
      if Total().Less(other.Total()) then Greater
      else if other.Total().Less(Total()) then Ordering.Less
      else if graph.Less(other.graph) then Greater
      else if other.graph.Less(graph) then Ordering.Less
      else Equal
    }

    function Plus(rhs: LatticeWeight): LatticeWeight {
      if !IsMember() || !rhs.IsMember() then NO_WEIGHT
      else if Compare(rhs) != Ordering.Less then this else rhs
    }

    function Times(rhs: LatticeWeight): LatticeWeight {
      if !IsMember() || !rhs.IsMember() then NO_WEIGHT
      else LatticeWeight(graph.Add(rhs.graph), acoustic.Add(rhs.acoustic))
    }

    function Divide(rhs: LatticeWeight): LatticeWeight {
      if !IsMember() || !rhs.IsMember() then NO_WEIGHT
      else if rhs == ZERO_WEIGHT then NO_WEIGHT
      else if this == ZERO_WEIGHT then ZERO_WEIGHT
      else LatticeWeight(graph.Add(rhs.graph.Negate()), acoustic.Add(rhs.acoustic.Negate()))
    }
  }

  const ZERO_WEIGHT := LatticeWeight(PlusInfinity, PlusInfinity)
  const ONE_WEIGHT := LatticeWeight(Real(0.0), Real(0.0))
  const NO_WEIGHT := LatticeWeight(NotANumber, NotANumber)

  /** The members are the pairs of reals and the one zero. */
  lemma Members(w: LatticeWeight)
    ensures w.IsMember() <==> (w.graph.Real? && w.acoustic.Real?) || w == ZERO_WEIGHT
  {}

  lemma CompareIsAnOrder(a: LatticeWeight, b: LatticeWeight, c: LatticeWeight)
    requires a.IsMember() && b.IsMember() && c.IsMember()
    ensures a.Compare(b) == Equal <==> a == b
    ensures a.Compare(b) == Greater <==> b.Compare(a) == Ordering.Less
    ensures a.Compare(b) != Ordering.Less && b.Compare(c) != Ordering.Less ==> a.Compare(c) != Ordering.Less
  {}

  /** ⊕ picks the better of two, and is a commutative, associative and idempotent
      operation with zero as identity. */
  lemma PlusLaws(a: LatticeWeight, b: LatticeWeight, c: LatticeWeight)
    requires a.IsMember() && b.IsMember() && c.IsMember()
    ensures a.Plus(b) == a || a.Plus(b) == b
    ensures a.Plus(b) == b.Plus(a) && a.Plus(a) == a && a.Plus(ZERO_WEIGHT) == a
    ensures a.Plus(b).Plus(c) == a.Plus(b.Plus(c))
  {
    hide LatticeWeight.Compare, LatticeWeight.IsMember;
    CompareIsAnOrder(a, b, c);
    CompareIsAnOrder(b, a, c);
    CompareIsAnOrder(a, c, b);
    CompareIsAnOrder(b, c, a);
    CompareIsAnOrder(c, a, b);
    CompareIsAnOrder(c, b, a);
    ZeroIsWorst(a);
  }

  /** What ⊕ picks costs no more in all than either, and of two that cost the same in all
      it has no more of it from the graph. */
  lemma PlusIsCheapest(a: LatticeWeight, b: LatticeWeight)
    requires a.IsMember() && b.IsMember() && a != ZERO_WEIGHT && b != ZERO_WEIGHT
    ensures var s := a.Plus(b);
            var (total, mine, theirs) := (s.graph.value + s.acoustic.value, a.graph.value + a.acoustic.value, b.graph.value + b.acoustic.value);
            && s.graph.Real? && s.acoustic.Real? && total <= mine && total <= theirs
            && (mine == total ==> s.graph.value <= a.graph.value) && (theirs == total ==> s.graph.value <= b.graph.value)
  {
    hide LatticeWeight.Compare;
    Members(a);
    Members(b);
    CompareIsByTotal(a, b);
  }

  lemma CompareIsByTotal(a: LatticeWeight, b: LatticeWeight)
    requires a.graph.Real? && a.acoustic.Real? && b.graph.Real? && b.acoustic.Real?
    ensures var (mine, theirs) := (a.graph.value + a.acoustic.value, b.graph.value + b.acoustic.value);
            && (a.Compare(b) == Greater <==> mine < theirs || (mine == theirs && a.graph.value < b.graph.value))
            && (a.Compare(b) == Ordering.Less <==> theirs < mine || (mine == theirs && b.graph.value < a.graph.value))
  {}

  lemma ZeroIsWorst(a: LatticeWeight)
    requires a.IsMember()
    ensures ZERO_WEIGHT.IsMember() && a.Compare(ZERO_WEIGHT) != Ordering.Less && a.Compare(a) == Equal
  {}

  /** ⊗ adds both costs, and distributes over ⊕. */
  lemma TimesLaws(a: LatticeWeight, b: LatticeWeight, c: LatticeWeight)
    requires a.IsMember() && b.IsMember() && c.IsMember()
    ensures a.Times(b).IsMember() && a.Times(b) == b.Times(a)
    ensures a.Times(ONE_WEIGHT) == a && a.Times(ZERO_WEIGHT) == ZERO_WEIGHT
    ensures a.Times(b) == ZERO_WEIGHT <==> a == ZERO_WEIGHT || b == ZERO_WEIGHT
    ensures a != ZERO_WEIGHT && b != ZERO_WEIGHT ==>
              a.Times(b) == LatticeWeight(Real(a.graph.value + b.graph.value), Real(a.acoustic.value + b.acoustic.value))
    ensures a.Times(b).Times(c) == a.Times(b.Times(c))
  {}

  // A factor that is not zero does not change which of two is better.
  lemma CompareTimes(a: LatticeWeight, b: LatticeWeight, c: LatticeWeight)
    requires a.IsMember() && b.IsMember() && c.IsMember() && c != ZERO_WEIGHT
    ensures c.Times(a).Compare(c.Times(b)) == a.Compare(b)
  {}

  lemma Distributes(a: LatticeWeight, b: LatticeWeight, c: LatticeWeight)
    requires a.IsMember() && b.IsMember() && c.IsMember()
    ensures c.Times(a.Plus(b)) == c.Times(a).Plus(c.Times(b))
  {
    hide LatticeWeight.Compare, LatticeWeight.IsMember, LatticeWeight.Times;
    TimesLaws(c, a, b);
    TimesLaws(c, b, a);
    ZeroIsWorst(ZERO_WEIGHT);
    if c == ZERO_WEIGHT {
      TimesLaws(a, ZERO_WEIGHT, a);
      TimesLaws(b, ZERO_WEIGHT, b);
      PlusLaws(a, b, a);
    } else {
      CompareTimes(a, b, c);
    }
  }

  /** Dividing undoes ⊗, and whatever it answers multiplies back. */
  lemma DivideUndoes(a: LatticeWeight, b: LatticeWeight)
    requires a.IsMember() && b.IsMember() && b != ZERO_WEIGHT
    ensures b.Times(a).Divide(b) == a
    ensures a.Divide(b).IsMember() && b.Times(a.Divide(b)) == a
  {}

  lemma DivideByZero(a: LatticeWeight)
    ensures !a.Divide(ZERO_WEIGHT).IsMember()
  {}
}
