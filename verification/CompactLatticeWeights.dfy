/** The weights of a compact lattice: a cost and the labels that earned it. The better
    of two keeps its whole alignment, which still leaves a semiring. */
module CompactLatticeWeights {
  import opened LatticeWeights

  type Labels = seq<int>

  /** Lexicographic order, on alignments of any length. */
  function CompareLabels(a: Labels, b: Labels): Ordering {
    if |a| == 0 then (if |b| == 0 then Equal else Ordering.Less)
    else if |b| == 0 then Greater
    else if a[0] < b[0] then Ordering.Less
    else if a[0] > b[0] then Greater
    else CompareLabels(a[1..], b[1..])
  }

  function Reversed(a: Labels): (r: Labels)
    ensures |r| == |a|
  {
    seq(|a|, k requires 0 <= k < |a| => a[|a| - 1 - k])
  }

  datatype Compact = Compact(weight: LatticeWeight, alignment: Labels) {

    predicate IsMember() {
      weight.IsMember() && (weight != ZERO_WEIGHT || alignment == [])
    }

    /** The cost decides, then the shorter alignment, then the smaller one. */
    function Compare(other: Compact): Ordering {
      var byCost := weight.Compare(other.weight);
      if byCost != Equal then byCost
      else if |alignment| < |other.alignment| then Greater
      else if |alignment| > |other.alignment| then Ordering.Less
      else CompareLabels(other.alignment, alignment)
    }

    function Plus(rhs: Compact): Compact {
      if !IsMember() || !rhs.IsMember() then NONE
      else if Compare(rhs) != Ordering.Less then this else rhs
    }

    function Times(rhs: Compact): Compact {
      if !IsMember() || !rhs.IsMember() then NONE
      else
        var product := weight.Times(rhs.weight);
        if product == ZERO_WEIGHT then ZERO else Compact(product, alignment + rhs.alignment)
    }

    function Reverse(): Compact {
      Compact(weight, Reversed(alignment))
    }

    function Divide(rhs: Compact, side: Side): Compact {
      if !IsMember() || !rhs.IsMember() then NONE
      else if rhs.weight == ZERO_WEIGHT then NONE
      else if weight == ZERO_WEIGHT then ZERO
      else if |rhs.alignment| > |alignment| then NONE
      else
        var quotient := weight.Divide(rhs.weight);
        var split := |alignment| - |rhs.alignment|;
        if !quotient.IsMember() then NONE
        else match side
          case Left => if alignment[..|rhs.alignment|] != rhs.alignment then NONE else New(quotient, alignment[|rhs.alignment|..])
          case Right => if alignment[split..] != rhs.alignment then NONE else New(quotient, alignment[..split])
          case Any => NONE
    }
  }

  const ZERO := Compact(ZERO_WEIGHT, [])
  const ONE := Compact(ONE_WEIGHT, [])
  const NONE := Compact(NO_WEIGHT, [])

  /** A weight from its halves: there is one zero, and it has no alignment. */
  function New(weight: LatticeWeight, alignment: Labels): (w: Compact)
    ensures weight.IsMember() ==> w.IsMember()
  {
    if weight == ZERO_WEIGHT then ZERO else Compact(weight, alignment)
  }

  // -- The order ----------------------------------------------------------------------------

  lemma {:induction false} LabelsAreOrdered(a: Labels, b: Labels, c: Labels)
    ensures CompareLabels(a, b) == Equal <==> a == b
    ensures CompareLabels(a, b) == Greater <==> CompareLabels(b, a) == Ordering.Less
    ensures CompareLabels(a, b) != Ordering.Less && CompareLabels(b, c) != Ordering.Less ==> CompareLabels(a, c) != Ordering.Less
    decreases |a| + |b| + |c|
  {
    if |a| > 0 && |b| > 0 {
      assert a == [a[0]] + a[1..] && b == [b[0]] + b[1..];
      if |c| > 0 {
        LabelsAreOrdered(a[1..], b[1..], c[1..]);
      } else {
        LabelsAreOrdered(a[1..], b[1..], []);
      }
    }
  }

  lemma CompareIsAnOrder(a: Compact, b: Compact, c: Compact)
    requires a.IsMember() && b.IsMember() && c.IsMember()
    ensures a.Compare(b) == Equal <==> a == b
    ensures a.Compare(b) == Greater <==> b.Compare(a) == Ordering.Less
    ensures a.Compare(b) != Ordering.Less && b.Compare(c) != Ordering.Less ==> a.Compare(c) != Ordering.Less
  {
    hide LatticeWeight.Compare, LatticeWeight.IsMember, CompareLabels;
    LatticeWeights.CompareIsAnOrder(a.weight, b.weight, c.weight);
    LatticeWeights.CompareIsAnOrder(b.weight, a.weight, c.weight);
    LatticeWeights.CompareIsAnOrder(b.weight, c.weight, a.weight);
    LatticeWeights.CompareIsAnOrder(a.weight, c.weight, b.weight);
    LabelsAreOrdered(b.alignment, a.alignment, c.alignment);
    LabelsAreOrdered(a.alignment, b.alignment, c.alignment);
    LabelsAreOrdered(c.alignment, b.alignment, a.alignment);
  }

  lemma ZeroIsWorst(a: Compact)
    requires a.IsMember()
    ensures ZERO.IsMember() && a.Compare(ZERO) != Ordering.Less && a.Compare(a) == Equal
  {
    LatticeWeights.ZeroIsWorst(a.weight);
    LatticeWeights.CompareIsAnOrder(a.weight, ZERO_WEIGHT, a.weight);
    LabelsAreOrdered(a.alignment, a.alignment, a.alignment);
  }

  // -- The semiring ---------------------------------------------------------------------------

  /** ⊕ picks the better of two, and is a commutative, associative and idempotent
      operation with zero as identity. */
  /** Before another alignment at the first place where they differ. */
  ghost predicate Precedes(a: Labels, b: Labels) {
    exists k :: 0 <= k < |a| && k < |b| && a[..k] == b[..k] && a[k] < b[k]
  }

  lemma {:induction false} FirstDifference(a: Labels, b: Labels)
    requires |a| == |b|
    ensures CompareLabels(a, b) == Ordering.Less ==> Precedes(a, b)
    ensures CompareLabels(a, b) == Equal ==> a == b
    decreases |a|
  {
    if |a| > 0 {
      assert a == [a[0]] + a[1..] && b == [b[0]] + b[1..];
      FirstDifference(a[1..], b[1..]);
      if a[0] < b[0] {
        assert a[..0] == b[..0];
      } else if a[0] == b[0] && Precedes(a[1..], b[1..]) {
        var k :| 0 <= k < |a[1..]| && k < |b[1..]| && a[1..][..k] == b[1..][..k] && a[1..][k] < b[1..][k];
        assert a[..k + 1] == [a[0]] + a[1..][..k] && b[..k + 1] == [b[0]] + b[1..][..k];
        assert a[k + 1] < b[k + 1];
      }
    }
  }

  /** What ⊕ picks has the cost the lattice's own ⊕ picks; of two alignments at that cost,
      one no longer than the other, and of two as long the one that comes first. */
  lemma PlusIsBest(a: Compact, b: Compact)
    requires a.IsMember() && b.IsMember()
    ensures var s := a.Plus(b);
            && s.weight == a.weight.Plus(b.weight)
            && (forall other | other in [a, b] && other.weight == s.weight ::
                  |s.alignment| <= |other.alignment|
                  && (|s.alignment| == |other.alignment| ==> s.alignment == other.alignment || Precedes(s.alignment, other.alignment)))
  {
    hide LatticeWeight.Compare, LatticeWeight.IsMember, CompareLabels, Precedes;
    LatticeWeights.CompareIsAnOrder(a.weight, b.weight, a.weight);
    LabelsAreOrdered(a.alignment, b.alignment, a.alignment);
    LabelsAreOrdered(b.alignment, a.alignment, a.alignment);
    if |a.alignment| == |b.alignment| {
      FirstDifference(a.alignment, b.alignment);
      FirstDifference(b.alignment, a.alignment);
    }
  }

  lemma PlusLaws(a: Compact, b: Compact, c: Compact)
    requires a.IsMember() && b.IsMember() && c.IsMember()
    ensures a.Plus(b) == a || a.Plus(b) == b
    ensures a.Plus(b) == b.Plus(a) && a.Plus(a) == a && a.Plus(ZERO) == a
    ensures a.Plus(b).Plus(c) == a.Plus(b.Plus(c))
  {
    hide Compact.Compare, Compact.IsMember;
    CompareIsAnOrder(a, b, c);
    CompareIsAnOrder(b, a, c);
    CompareIsAnOrder(a, c, b);
    CompareIsAnOrder(b, c, a);
    CompareIsAnOrder(c, a, b);
    CompareIsAnOrder(c, b, a);
    ZeroIsWorst(a);
  }

  lemma ProductIsMember(a: Compact, b: Compact)
    requires a.IsMember() && b.IsMember()
    ensures a.Times(b).IsMember()
    ensures a.Times(b) == if a == ZERO || b == ZERO then ZERO else Compact(a.weight.Times(b.weight), a.alignment + b.alignment)
    ensures a.Times(b) == ZERO <==> a == ZERO || b == ZERO
    ensures a != ZERO && b != ZERO ==> a.weight.Times(b.weight) != ZERO_WEIGHT
  {
    hide LatticeWeight.Times, LatticeWeight.IsMember;
    LatticeWeights.TimesLaws(a.weight, b.weight, a.weight);
  }

  /** ⊗ joins alignments end to end, so it has an order; one and zero are what they
      should be on both sides. */
  lemma TimesLaws(a: Compact, b: Compact, c: Compact)
    requires a.IsMember() && b.IsMember() && c.IsMember()
    ensures a.Times(b).IsMember()
    ensures a.Times(ONE) == a == ONE.Times(a)
    ensures a.Times(ZERO) == ZERO == ZERO.Times(a)
    ensures a.Times(b).Times(c) == a.Times(b.Times(c))
  {
    assert ONE.IsMember() && ZERO.IsMember() && ONE != ZERO;
    assert a.alignment + [] == a.alignment && [] + a.alignment == a.alignment;
    assert (a.alignment + b.alignment) + c.alignment == a.alignment + (b.alignment + c.alignment);
    LatticeWeights.TimesLaws(a.weight, b.weight, c.weight);
    LatticeWeights.TimesLaws(a.weight, ONE_WEIGHT, c.weight);
    hide LatticeWeight.Times, LatticeWeight.IsMember, Compact.IsMember, Compact.Times;
    ProductIsMember(a, b);
    ProductIsMember(b, c);
    ProductIsMember(a.Times(b), c);
    ProductIsMember(a, b.Times(c));
    ProductIsMember(a, ONE);
    ProductIsMember(ONE, a);
    ProductIsMember(a, ZERO);
    ProductIsMember(ZERO, a);
  }

  // -- Distributing over a choice -----------------------------------------------------------

  lemma {:induction false} SamePrefix(c: Labels, a: Labels, b: Labels)
    ensures CompareLabels(c + a, c + b) == CompareLabels(a, b)
  {
    if |c| == 0 {
      assert c + a == a && c + b == b;
    } else {
      assert (c + a)[1..] == c[1..] + a && (c + b)[1..] == c[1..] + b;
      SamePrefix(c[1..], a, b);
    }
  }

  lemma {:induction false} SameSuffix(c: Labels, a: Labels, b: Labels)
    requires |a| == |b|
    ensures CompareLabels(a + c, b + c) == CompareLabels(a, b)
  {
    if |a| == 0 {
      assert a + c == c && b + c == c;
      LabelsAreOrdered(c, c, c);
    } else {
      assert (a + c)[1..] == a[1..] + c && (b + c)[1..] == b[1..] + c;
      SameSuffix(c, a[1..], b[1..]);
    }
  }

  // A factor that is not zero changes neither the order of two weights on its right
  // nor of two on its left.
  lemma CompareTimes(a: Compact, b: Compact, c: Compact)
    requires a.IsMember() && b.IsMember() && c.IsMember() && a != ZERO && b != ZERO && c != ZERO
    ensures c.Times(a).Compare(c.Times(b)) == a.Compare(b)
    ensures a.Times(c).Compare(b.Times(c)) == a.Compare(b)
  {
    ProductIsMember(c, a);
    ProductIsMember(c, b);
    ProductIsMember(a, c);
    ProductIsMember(b, c);
    LatticeWeights.CompareTimes(a.weight, b.weight, c.weight);
    LatticeWeights.TimesLaws(a.weight, c.weight, c.weight);
    LatticeWeights.TimesLaws(b.weight, c.weight, c.weight);
    SamePrefix(c.alignment, b.alignment, a.alignment);
    if |a.alignment| == |b.alignment| {
      SameSuffix(c.alignment, b.alignment, a.alignment);
    }
    hide LatticeWeight.Times, LatticeWeight.Compare, LatticeWeight.IsMember, CompareLabels;
  }

  lemma AddZero(a: Compact)
    requires a.IsMember()
    ensures a.Plus(ZERO) == a == ZERO.Plus(a) && ZERO.IsMember()
  {
    assert ZERO.IsMember();
    PlusLaws(a, ZERO, a);
  }

  /** ⊗ distributes over ⊕ from both sides, ties and all. */
  lemma Distributes(a: Compact, b: Compact, c: Compact)
    requires a.IsMember() && b.IsMember() && c.IsMember()
    ensures c.Times(a.Plus(b)) == c.Times(a).Plus(c.Times(b))
    ensures a.Plus(b).Times(c) == a.Times(c).Plus(b.Times(c))
  {
    hide Compact.Compare, Compact.IsMember, Compact.Times;
    TimesLaws(a, b, c);
    TimesLaws(c, a, b);
    TimesLaws(c, b, a);
    TimesLaws(a, c, b);
    TimesLaws(b, c, a);
    PlusLaws(a, b, c);
    AddZero(a);
    AddZero(b);
    AddZero(ZERO);
    AddZero(c.Times(a));
    AddZero(c.Times(b));
    AddZero(a.Times(c));
    AddZero(b.Times(c));
    if a != ZERO && b != ZERO && c != ZERO {
      CompareTimes(a, b, c);
    }
  }

  // -- Dividing -------------------------------------------------------------------------------

  /** Whether `part` is the front, or the back, of `whole`. */
  predicate Ends(whole: Labels, part: Labels, side: Side) {
    match side
    case Left => part <= whole
    case Right => |part| <= |whole| && whole[|whole| - |part|..] == part
    case Any => false
  }

  /** There is a quotient exactly when the divisor is not zero and its alignment is the
      end of the dividend's; and then it multiplies back. */
  lemma DivideAnswers(a: Compact, b: Compact, side: Side)
    requires a.IsMember() && b.IsMember()
    ensures a.Divide(b, side).IsMember() <==> b != ZERO && (a == ZERO || Ends(a.alignment, b.alignment, side))
    ensures a.Divide(b, Left).IsMember() ==> b.Times(a.Divide(b, Left)) == a
    ensures a.Divide(b, Right).IsMember() ==> a.Divide(b, Right).Times(b) == a
  {
    if b != ZERO && a != ZERO {
      QuotientMultiplies(a, b);
      hide LatticeWeight.Divide, LatticeWeight.IsMember, LatticeWeight.Times, Compact.Times;
      NewIsMember(a.weight.Divide(b.weight));
    } else if b != ZERO {
      ZeroTimes(b);
    }
  }

  lemma NewIsMember(weight: LatticeWeight)
    requires weight.IsMember()
    ensures forall labels: Labels :: New(weight, labels).IsMember()
    ensures !NONE.IsMember()
  {}

  lemma ZeroTimes(b: Compact)
    requires b.IsMember()
    ensures ZERO.IsMember() && b.Times(ZERO) == ZERO == ZERO.Times(b)
  {
    assert ZERO.IsMember();
    TimesLaws(b, ZERO, ZERO);
  }

  lemma QuotientMultiplies(a: Compact, b: Compact)
    requires a.IsMember() && b.IsMember() && a != ZERO && b != ZERO
    ensures a.weight.Divide(b.weight).IsMember() && a.weight.Divide(b.weight) != ZERO_WEIGHT
    ensures b.alignment <= a.alignment ==> b.Times(New(a.weight.Divide(b.weight), a.alignment[|b.alignment|..])) == a
    ensures Ends(a.alignment, b.alignment, Right) ==>
              New(a.weight.Divide(b.weight), a.alignment[..|a.alignment| - |b.alignment|]).Times(b) == a
  {
    var q := a.weight.Divide(b.weight);
    LatticeWeights.DivideUndoes(a.weight, b.weight);
    LatticeWeights.TimesLaws(b.weight, q, b.weight);
    if b.alignment <= a.alignment {
      ProductIsMember(b, Compact(q, a.alignment[|b.alignment|..]));
      assert b.alignment + a.alignment[|b.alignment|..] == a.alignment;
    }
    if Ends(a.alignment, b.alignment, Right) {
      ProductIsMember(Compact(q, a.alignment[..|a.alignment| - |b.alignment|]), b);
      assert a.alignment[..|a.alignment| - |b.alignment|] + b.alignment == a.alignment;
    }
  }

  /** Dividing undoes ⊗ from the side it was done on. */
  lemma DivideUndoes(a: Compact, b: Compact)
    requires a.IsMember() && b.IsMember() && b != ZERO
    ensures b.Times(a).Divide(b, Left) == a
    ensures a.Times(b).Divide(b, Right) == a
  {
    ProductIsMember(b, a);
    ProductIsMember(a, b);
    LatticeWeights.DivideUndoes(a.weight, b.weight);
    LatticeWeights.TimesLaws(b.weight, a.weight, a.weight);
    if a != ZERO {
      assert (b.alignment + a.alignment)[..|b.alignment|] == b.alignment;
      assert (b.alignment + a.alignment)[|b.alignment|..] == a.alignment;
      assert (a.alignment + b.alignment)[|a.alignment|..] == b.alignment;
      assert (a.alignment + b.alignment)[..|a.alignment|] == a.alignment;
    }
    hide LatticeWeight.Times, LatticeWeight.Divide;
  }

  // -- Reversing --------------------------------------------------------------------------------

  lemma ReversedTwice(a: Labels)
    ensures Reversed(Reversed(a)) == a
  {}

  lemma ReversedJoin(a: Labels, b: Labels)
    ensures Reversed(a + b) == Reversed(b) + Reversed(a)
  {}

  /** Reversing undoes itself, and turns a product round. */
  lemma ReverseLaws(a: Compact, b: Compact)
    requires a.IsMember() && b.IsMember()
    ensures a.Reverse().IsMember() && a.Reverse().Reverse() == a && (a.Reverse() == ZERO <==> a == ZERO)
    ensures a.Times(b).Reverse() == b.Reverse().Times(a.Reverse())
  {
    ReversedTwice(a.alignment);
    ReversedTwice(b.alignment);
    ReversedJoin(a.alignment, b.alignment);
    LatticeWeights.TimesLaws(a.weight, b.weight, a.weight);
    assert Reversed([]) == [];
    hide LatticeWeight.Times, LatticeWeight.IsMember, Reversed;
  }

  /** Two weights of one cost and one length that reading backwards puts the other way
      round. */
  predicate Flips(a: Compact, b: Compact) {
    && a.weight == b.weight && |a.alignment| == |b.alignment|
    && CompareLabels(a.alignment, b.alignment) != CompareLabels(Reversed(a.alignment), Reversed(b.alignment))
  }

  /** Reversing a choice is choosing between the reversals, exactly when the tie-break
      reads the same backwards. */
  lemma ReverseDistributesUnlessFlipped(a: Compact, b: Compact)
    requires a.IsMember() && b.IsMember()
    ensures a.Plus(b).Reverse() == a.Reverse().Plus(b.Reverse()) <==> !Flips(a, b)
  {
    hide LatticeWeight.Compare, LatticeWeight.IsMember, CompareLabels;
    ReverseLaws(a, b);
    ReverseLaws(b, a);
    LatticeWeights.CompareIsAnOrder(a.weight, b.weight, a.weight);
    LabelsAreOrdered(a.alignment, b.alignment, a.alignment);
    LabelsAreOrdered(b.alignment, a.alignment, b.alignment);
    LabelsAreOrdered(Reversed(a.alignment), Reversed(b.alignment), Reversed(a.alignment));
    LabelsAreOrdered(Reversed(b.alignment), Reversed(a.alignment), Reversed(b.alignment));
    hide Reversed;
  }

  lemma LabelsFlip()
    ensures CompareLabels([1, 3], [2, 1]) != CompareLabels(Reversed([1, 3]), Reversed([2, 1]))
  {
    assert Reversed([1, 3]) == [3, 1] && Reversed([2, 1]) == [1, 2];
  }

  lemma UnitIsMember(labels: Labels)
    ensures Compact(ONE_WEIGHT, labels).IsMember()
  {}

  /** Such weights exist. */
  lemma SomethingFlips()
    ensures var (a, b) := (Compact(ONE_WEIGHT, [1, 3]), Compact(ONE_WEIGHT, [2, 1]));
            a.IsMember() && b.IsMember() && a.Plus(b).Reverse() != a.Reverse().Plus(b.Reverse())
  {
    hide CompareLabels, Reversed, LatticeWeight.IsMember, LatticeWeight.Compare, Compact.Plus, Compact.Reverse, Compact.IsMember;
    LabelsFlip();
    UnitIsMember([1, 3]);
    UnitIsMember([2, 1]);
    ReverseDistributesUnlessFlipped(Compact(ONE_WEIGHT, [1, 3]), Compact(ONE_WEIGHT, [2, 1]));
  }

  // -- What a subset shares -----------------------------------------------------------------------

  /** The longest common front of two alignments. */
  function Shared(a: Labels, b: Labels): Labels {
    if |a| == 0 || |b| == 0 || a[0] != b[0] then [] else [a[0]] + Shared(a[1..], b[1..])
  }

  /** The better cost, and the shared front of the alignments; zero contributes
      nothing. */
  function Divisor(a: Compact, b: Compact): Compact {
    if a == ZERO then b
    else if b == ZERO then a
    else New(a.weight.Plus(b.weight), Shared(a.alignment, b.alignment))
  }

  lemma {:induction false} SharedIsLongest(a: Labels, b: Labels, p: Labels)
    ensures Shared(a, b) <= a && Shared(a, b) <= b
    ensures p <= a && p <= b ==> p <= Shared(a, b)
  {
    if |a| > 0 && |b| > 0 && a[0] == b[0] {
      if |p| > 0 && p <= a && p <= b {
        SharedIsLongest(a[1..], b[1..], p[1..]);
      } else {
        SharedIsLongest(a[1..], b[1..], []);
      }
    }
  }

  lemma FrontsAreEqual(p: Labels, q: Labels)
    requires p <= q && q <= p
    ensures p == q
  {}

  /** Sharing is commutative and associative, being what both have most of. */
  lemma SharedLaws(a: Labels, b: Labels, c: Labels)
    ensures Shared(a, b) == Shared(b, a)
    ensures Shared(Shared(a, b), c) == Shared(a, Shared(b, c))
  {
    hide Shared;
    SharedIsLongest(a, b, Shared(b, a));
    SharedIsLongest(b, a, Shared(a, b));
    FrontsAreEqual(Shared(a, b), Shared(b, a));
    var (l, r) := (Shared(Shared(a, b), c), Shared(a, Shared(b, c)));
    SharedIsLongest(Shared(a, b), c, r);
    SharedIsLongest(a, Shared(b, c), l);
    SharedIsLongest(a, b, r);
    SharedIsLongest(b, c, l);
    FrontsAreEqual(l, r);
  }

  lemma DivisorIsMember(a: Compact, b: Compact)
    requires a.IsMember() && b.IsMember()
    ensures Divisor(a, b).IsMember() && (Divisor(a, b) == ZERO <==> a == ZERO && b == ZERO)
    ensures a != ZERO && b != ZERO ==> Divisor(a, b) == Compact(a.weight.Plus(b.weight), Shared(a.alignment, b.alignment))
  {
    LatticeWeights.PlusLaws(a.weight, b.weight, a.weight);
    hide LatticeWeight.Plus;
  }

  /** The common divisor is commutative and associative with zero as identity. */
  lemma DivisorLaws(a: Compact, b: Compact, c: Compact)
    requires a.IsMember() && b.IsMember() && c.IsMember()
    ensures Divisor(a, b) == Divisor(b, a) && Divisor(a, ZERO) == a
    ensures Divisor(Divisor(a, b), c) == Divisor(a, Divisor(b, c))
  {
    DivisorIsMember(a, b);
    DivisorIsMember(b, c);
    LatticeWeights.PlusLaws(a.weight, b.weight, c.weight);
    SharedLaws(a.alignment, b.alignment, c.alignment);
    if a != ZERO && b != ZERO && c != ZERO {
      DivisorIsMember(Divisor(a, b), c);
      DivisorIsMember(a, Divisor(b, c));
    }
    hide LatticeWeight.Plus, Shared;
  }

  /** It left-divides each of the weights it came from, exactly. */
  /** The common divisor costs what ⊕ would, and holds every alignment that begins both. */
  lemma DivisorIsGreatest(a: Compact, b: Compact, prefix: Labels)
    requires a.IsMember() && b.IsMember() && a != ZERO && b != ZERO
    ensures var d := Divisor(a, b);
            && d.weight == a.weight.Plus(b.weight) && d.alignment <= a.alignment && d.alignment <= b.alignment
            && (prefix <= a.alignment && prefix <= b.alignment ==> prefix <= d.alignment)
  {
    hide LatticeWeight.Plus, LatticeWeight.IsMember;
    DivisorIsMember(a, b);
    SharedIsLongest(a.alignment, b.alignment, prefix);
  }

  lemma DivisorDivides(a: Compact, b: Compact)
    requires a.IsMember() && b.IsMember() && a != ZERO
    ensures var d := Divisor(a, b);
            d.IsMember() && a.Divide(d, Left).IsMember() && d.Times(a.Divide(d, Left)) == a
  {
    DivisorIsMember(a, b);
    SharedIsLongest(a.alignment, b.alignment, []);
    DivideAnswers(a, Divisor(a, b), Left);
  }

  function Fold(subset: seq<Compact>): Compact {
    if |subset| == 0 then ZERO else Divisor(Fold(subset[..|subset| - 1]), subset[|subset| - 1])
  }

  ghost predicate AllMembers(subset: seq<Compact>) {
    forall k | 0 <= k < |subset| :: subset[k].IsMember()
  }

  lemma {:induction false} FoldIsMember(subset: seq<Compact>)
    requires AllMembers(subset)
    ensures Fold(subset).IsMember() && (Fold(subset) == ZERO <==> forall k | 0 <= k < |subset| :: subset[k] == ZERO)
  {
    hide Compact.IsMember, Divisor;
    if |subset| > 0 {
      var front := subset[..|subset| - 1];
      FoldIsMember(front);
      DivisorIsMember(Fold(front), subset[|subset| - 1]);
    } else {
      ZeroIsMember();
    }
  }

  lemma ZeroIsMember()
    ensures ZERO.IsMember()
  {}

  // Any weight of a subset can be taken out and put last.
  lemma {:induction false} FoldTakesOut(subset: seq<Compact>, k: nat)
    requires AllMembers(subset) && k < |subset|
    ensures Fold(subset) == Divisor(Fold(subset[..k] + subset[k + 1..]), subset[k])
  {
    hide Compact.IsMember, Divisor;
    var n := |subset| - 1;
    var front := subset[..n];
    var rest := subset[..k] + subset[k + 1..];
    if k == n {
      assert rest == front;
    } else {
      FoldTakesOut(front, k);
      var inner := front[..k] + front[k + 1..];
      assert rest[..|rest| - 1] == inner && rest[|rest| - 1] == subset[n];
      FoldIsMember(inner);
      DivisorLaws(Fold(inner), subset[k], subset[n]);
      DivisorLaws(subset[k], subset[n], Fold(inner));
      DivisorLaws(Fold(inner), subset[n], subset[k]);
    }
  }

  lemma SameSize<T>(a: seq<T>, b: seq<T>)
    requires multiset(a) == multiset(b)
    ensures |a| == |b|
  {
    assert |a| == |multiset(a)| == |multiset(b)| == |b|;
  }

  lemma TakenOut<T>(s: seq<T>, k: nat)
    requires k < |s|
    ensures multiset(s[..k] + s[k + 1..]) == multiset(s) - multiset{s[k]}
  {
    assert s == s[..k] + [s[k]] + s[k + 1..];
  }

  // The last of one list is somewhere in any rearrangement of it, and what is left of
  // each is again a rearrangement.
  lemma MatchLast<T>(a: seq<T>, b: seq<T>) returns (k: nat)
    requires multiset(a) == multiset(b) && |a| > 0
    ensures k < |b| == |a| && b[k] == a[|a| - 1]
    ensures multiset(a[..|a| - 1]) == multiset(b[..k] + b[k + 1..])
  {
    SameSize(a, b);
    assert a[|a| - 1] in multiset(a);
    k :| k < |b| && b[k] == a[|a| - 1];
    TakenOut(a, |a| - 1);
    TakenOut(b, k);
    assert a[..|a| - 1] + a[|a|..] == a[..|a| - 1];
  }

  lemma RestAreMembers(b: seq<Compact>, k: nat)
    requires AllMembers(b) && k < |b|
    ensures AllMembers(b[..k] + b[k + 1..]) && AllMembers(b[..|b| - 1])
  {
    hide Compact.IsMember;
  }

  /** The order a subset is folded in does not matter. */
  lemma {:induction false} FoldIgnoresOrder(a: seq<Compact>, b: seq<Compact>)
    requires AllMembers(a) && AllMembers(b) && multiset(a) == multiset(b)
    ensures Fold(a) == Fold(b)
    decreases |a|
  {
    hide *;
    SameSize(a, b);
    if |a| == 0 {
      assert a == b;
    } else {
      var k := MatchLast(a, b);
      var (front, rest) := (a[..|a| - 1], b[..k] + b[k + 1..]);
      RestAreMembers(a, 0);
      RestAreMembers(b, k);
      FoldIgnoresOrder(front, rest);
      FoldTakesOut(b, k);
      FoldTakesOut(a, |a| - 1);
      assert front + a[|a|..] == front;
    }
  }

  /** What a subset folds to left-divides every weight in it that is not zero. */
  lemma FoldDividesAll(subset: seq<Compact>, k: nat)
    requires AllMembers(subset) && k < |subset| && subset[k] != ZERO
    ensures var d := Fold(subset);
            subset[k].Divide(d, Left).IsMember() && d.Times(subset[k].Divide(d, Left)) == subset[k]
  {
    hide Compact.IsMember, Divisor, Compact.Divide, Compact.Times, Fold;
    var rest := subset[..k] + subset[k + 1..];
    FoldTakesOut(subset, k);
    FoldIsMember(rest);
    DivisorLaws(Fold(rest), subset[k], subset[k]);
    DivisorDivides(subset[k], Fold(rest));
  }
}
