/** What the property bits mean of an FST, and what each mutation does to it. */
module FstFacts {
  import opened Costs
  import opened DecodingGraphs
  import opened Routes
  import opened Properties

  predicate ArcAt(g: Graph, s: nat, k: nat) {
    s < |g.arcs| && k < |g.arcs[s]|
  }

  ghost predicate Acceptor(g: Graph) {
    forall s: nat, k: nat | ArcAt(g, s, k) :: g.arcs[s][k].ilabel == g.arcs[s][k].olabel
  }

  ghost predicate HasEpsilons(g: Graph) {
    exists s: nat, k: nat :: ArcAt(g, s, k) && g.arcs[s][k].ilabel == EPSILON && g.arcs[s][k].olabel == EPSILON
  }

  ghost predicate HasInputEpsilons(g: Graph) {
    exists s: nat, k: nat :: ArcAt(g, s, k) && g.arcs[s][k].ilabel == EPSILON
  }

  ghost predicate HasOutputEpsilons(g: Graph) {
    exists s: nat, k: nat :: ArcAt(g, s, k) && g.arcs[s][k].olabel == EPSILON
  }

  /** No state has two arcs of one input label. */
  ghost predicate InputDeterministic(g: Graph) {
    forall s: nat, j: nat, k: nat | j < k && ArcAt(g, s, j) && ArcAt(g, s, k) :: g.arcs[s][j].ilabel != g.arcs[s][k].ilabel
  }

  ghost predicate OutputDeterministic(g: Graph) {
    forall s: nat, j: nat, k: nat | j < k && ArcAt(g, s, j) && ArcAt(g, s, k) :: g.arcs[s][j].olabel != g.arcs[s][k].olabel
  }

  ghost predicate InputSorted(g: Graph) {
    forall s: nat, j: nat, k: nat | j < k && ArcAt(g, s, j) && ArcAt(g, s, k) :: g.arcs[s][j].ilabel <= g.arcs[s][k].ilabel
  }

  ghost predicate OutputSorted(g: Graph) {
    forall s: nat, j: nat, k: nat | j < k && ArcAt(g, s, j) && ArcAt(g, s, k) :: g.arcs[s][j].olabel <= g.arcs[s][k].olabel
  }

  ghost predicate WeightedArcs(g: Graph) {
    exists s: nat, k: nat :: ArcAt(g, s, k) && !IsTrivialWeight(g.arcs[s][k].weight)
  }

  ghost predicate WeightedFinals(g: Graph) {
    exists s: nat :: s < |g.finals| && !IsTrivialWeight(g.finals[s])
  }

  ghost predicate OnCycle(g: Graph, s: nat) {
    exists t: nat :: HasArc(g, s, t) && Reaches(g, t, s)
  }

  ghost predicate Cyclic(g: Graph) {
    exists s: nat :: OnCycle(g, s)
  }

  ghost predicate InitialCyclic(g: Graph) {
    g.start.Some? && OnCycle(g, g.start.value)
  }

  ghost predicate WeightedCycles(g: Graph) {
    exists s: nat, k: nat :: ArcAt(g, s, k) && !IsTrivialWeight(g.arcs[s][k].weight) && Reaches(g, g.arcs[s][k].nextstate, s)
  }

  /** Every arc goes to a greater state. */
  ghost predicate TopSorted(g: Graph) {
    forall s: nat, k: nat | ArcAt(g, s, k) :: s < g.arcs[s][k].nextstate
  }

  ghost predicate Reached(g: Graph, s: nat) {
    g.start.Some? && Reaches(g, g.start.value, s)
  }

  ghost predicate Accessible(g: Graph) {
    forall s: nat | s < |g.arcs| :: Reached(g, s)
  }

  ghost predicate Finishes(g: Graph, s: nat) {
    exists f: nat :: f < |g.finals| && g.finals[f] != Infinite && Reaches(g, s, f)
  }

  ghost predicate CoAccessible(g: Graph) {
    forall s: nat | s < |g.arcs| :: Finishes(g, s)
  }

  /** States in a row from 0, each leading to the next by its one arc, the last one
      final and no other. */
  ghost predicate StringLike(g: Graph) {
    && (g.start.Some? ==> g.start.value == 0)
    && (forall s: nat, k: nat | ArcAt(g, s, k) :: g.arcs[s][k].nextstate == s + 1)
    && (forall f: nat | f < |g.finals| && g.finals[f] != Infinite :: f + 1 >= |g.arcs|)
    && (forall s: nat | s < |g.arcs| && s < |g.finals| && g.finals[s] == Infinite :: |g.arcs[s]| == 1)
  }

  ghost function TruthOf(g: Graph): Truth {
    Truth(Acceptor(g), InputDeterministic(g), OutputDeterministic(g), HasEpsilons(g), HasInputEpsilons(g), HasOutputEpsilons(g),
          InputSorted(g), OutputSorted(g), WeightedArcs(g) || WeightedFinals(g), Cyclic(g), InitialCyclic(g), TopSorted(g),
          Accessible(g), CoAccessible(g), StringLike(g), WeightedCycles(g))
  }

  /** An FST's shape: a final weight for each state. Arcs may lead to states not yet
      added. */
  ghost predicate Shaped(g: Graph) {
    |g.finals| == |g.arcs|
  }

  // -- What follows from having more arcs --------------------------------------------------

  /** `more` has all of `fewer`'s states and arcs, and the same start. */
  ghost predicate Extends(more: Graph, fewer: Graph) {
    && more.start == fewer.start && |more.arcs| == |fewer.arcs| && more.finals == fewer.finals && HasArcsOf(more, fewer)
  }

  lemma MoreArcsMoreCycles(more: Graph, fewer: Graph)
    requires HasArcsOf(more, fewer) && more.start == fewer.start
    ensures Cyclic(fewer) ==> Cyclic(more)
    ensures InitialCyclic(fewer) ==> InitialCyclic(more)
  {
    forall s: nat | OnCycle(fewer, s) ensures OnCycle(more, s) {
      var t: nat :| HasArc(fewer, s, t) && Reaches(fewer, t, s);
      MoreReaches(more, fewer, t, s);
    }
  }

  lemma MoreArcsMoreReached(more: Graph, fewer: Graph)
    requires Extends(more, fewer)
    ensures Accessible(fewer) ==> Accessible(more)
    ensures CoAccessible(fewer) ==> CoAccessible(more)
  {
    hide HasArc, Reaches;
    if Accessible(fewer) {
      forall s: nat | s < |more.arcs| ensures Reached(more, s) {
        assert Reached(fewer, s);
        MoreReaches(more, fewer, fewer.start.value, s);
      }
    }
    if CoAccessible(fewer) {
      forall s: nat | s < |more.arcs| ensures Finishes(more, s) {
        assert Finishes(fewer, s);
        var f: nat :| f < |fewer.finals| && fewer.finals[f] != Infinite && Reaches(fewer, s, f);
        MoreReaches(more, fewer, s, f);
      }
    }
  }

  lemma SortedIsAcyclic(g: Graph)
    requires TopSorted(g)
    ensures !Cyclic(g) && !InitialCyclic(g)
  {
    forall s: nat ensures !OnCycle(g, s) {
      if OnCycle(g, s) {
        var t: nat :| HasArc(g, s, t) && Reaches(g, t, s);
        ArcsGoUp(g);
        RoutesGoUp(g, t, s);
      }
    }
  }

  lemma ArcsGoUp(g: Graph)
    requires TopSorted(g)
    ensures forall i: nat, j: nat | HasArc(g, i, j) :: i < j
  {
    forall i: nat, j: nat | HasArc(g, i, j) ensures i < j {
      var k: nat :| k < |g.arcs[i]| && g.arcs[i][k].nextstate == j;
      assert ArcAt(g, i, k);
    }
  }

  // -- Appending an arc --------------------------------------------------------------------------

  function WithArc(g: Graph, s: nat, arc: Arc): Graph
    requires s < |g.arcs|
  {
    g.(arcs := g.arcs[s := g.arcs[s] + [arc]])
  }

  function LastOf(arcs: seq<Arc>): Option<Arc> {
    if |arcs| == 0 then None else Some(arcs[|arcs| - 1])
  }

  lemma ArcsAfter(g: Graph, s: nat, arc: Arc)
    requires s < |g.arcs|
    ensures var after := WithArc(g, s, arc);
            && (forall i: nat, k: nat | ArcAt(g, i, k) :: ArcAt(after, i, k) && after.arcs[i][k] == g.arcs[i][k])
            && ArcAt(after, s, |g.arcs[s]|) && after.arcs[s][|g.arcs[s]|] == arc
            && (forall i: nat, k: nat | ArcAt(after, i, k) :: ArcAt(g, i, k) || (i == s && k == |g.arcs[s]|))
            && Extends(after, g)
  {
    var after := WithArc(g, s, arc);
    forall i: nat, j: nat | HasArc(g, i, j) ensures HasArc(after, i, j) {
      var k: nat :| k < |g.arcs[i]| && g.arcs[i][k].nextstate == j;
      assert after.arcs[i][k] == g.arcs[i][k];
    }
  }

  lemma AppendedLabels(g: Graph, s: nat, arc: Arc)
    requires s < |g.arcs|
    ensures var after := WithArc(g, s, arc);
            && (Acceptor(after) <==> Acceptor(g) && arc.ilabel == arc.olabel)
            && (HasEpsilons(after) <==> HasEpsilons(g) || (arc.ilabel == EPSILON && arc.olabel == EPSILON))
            && (HasInputEpsilons(after) <==> HasInputEpsilons(g) || arc.ilabel == EPSILON)
            && (HasOutputEpsilons(after) <==> HasOutputEpsilons(g) || arc.olabel == EPSILON)
            && (WeightedArcs(after) <==> WeightedArcs(g) || !IsTrivialWeight(arc.weight))
            && (TopSorted(after) <==> TopSorted(g) && s < arc.nextstate)
  {
    hide ArcAt, IsTrivialWeight, Extends;
    ArcsAfter(g, s, arc);
    hide WithArc;
  }

  lemma AppendedOrder(g: Graph, s: nat, arc: Arc)
    requires s < |g.arcs|
    ensures var (after, prev) := (WithArc(g, s, arc), LastOf(g.arcs[s]));
            && (InputSorted(after) <==> InputSorted(g) && !(prev.Some? && prev.value.ilabel > arc.ilabel))
            && (OutputSorted(after) <==> OutputSorted(g) && !(prev.Some? && prev.value.olabel > arc.olabel))
            && (InputDeterministic(after) ==> InputDeterministic(g))
            && (OutputDeterministic(after) ==> OutputDeterministic(g))
  {
    hide Extends;
    ArcsAfter(g, s, arc);
    var after := WithArc(g, s, arc);
    var n := |g.arcs[s]|;
    if n > 0 {
      assert ArcAt(g, s, n - 1) && ArcAt(after, s, n - 1) && ArcAt(after, s, n);
    }
    hide ArcAt, WithArc;
  }

  lemma AppendedCycles(g: Graph, s: nat, arc: Arc)
    requires s < |g.arcs|
    ensures WeightedCycles(g) ==> WeightedCycles(WithArc(g, s, arc))
  {
    hide IsTrivialWeight, Reaches;
    ArcsAfter(g, s, arc);
    var after := WithArc(g, s, arc);
    if WeightedCycles(g) {
      var i: nat, k: nat :| ArcAt(g, i, k) && !IsTrivialWeight(g.arcs[i][k].weight) && Reaches(g, g.arcs[i][k].nextstate, i);
      MoreReaches(after, g, g.arcs[i][k].nextstate, i);
      assert ArcAt(after, i, k);
    }
  }

  lemma ArcIsAppended(g: Graph, s: nat, arc: Arc)
    requires s < |g.arcs|
    ensures var prev := LastOf(g.arcs[s]);
            var marked := ArcMarked(TruthOf(g), arc.ilabel != arc.olabel, arc.ilabel == EPSILON, arc.olabel == EPSILON, !IsTrivialWeight(arc.weight));
            ArcAppended(PlaceMarked(marked, prev.Some? && prev.value.ilabel > arc.ilabel, prev.Some? && prev.value.olabel > arc.olabel, arc.nextstate <= s),
                        TruthOf(WithArc(g, s, arc)))
  {
    hide Acceptor, HasEpsilons, HasInputEpsilons, HasOutputEpsilons, InputDeterministic, OutputDeterministic, InputSorted, OutputSorted,
         WeightedArcs, WeightedFinals, Cyclic, InitialCyclic, TopSorted, Accessible, CoAccessible, StringLike, WeightedCycles,
         IsTrivialWeight, WithArc, ArcAt, HasArcsOf, LastOf;
    var after := WithArc(g, s, arc);
    AppendedLabels(g, s, arc);
    AppendedOrder(g, s, arc);
    AppendedCycles(g, s, arc);
    AppendedRoutes(g, s, arc);
  }

  lemma AppendedRoutes(g: Graph, s: nat, arc: Arc)
    requires s < |g.arcs|
    ensures var after := WithArc(g, s, arc);
            && (Cyclic(g) ==> Cyclic(after)) && (InitialCyclic(g) ==> InitialCyclic(after))
            && (Accessible(g) ==> Accessible(after)) && (CoAccessible(g) ==> CoAccessible(after))
            && (TopSorted(after) ==> !Cyclic(after) && !InitialCyclic(after))
            && WeightedFinals(after) == WeightedFinals(g)
  {
    hide HasArcsOf, Cyclic, InitialCyclic, Accessible, CoAccessible, TopSorted, ArcAt, WithArc;
    var after := WithArc(g, s, arc);
    ArcsAfter(g, s, arc);
    MoreArcsMoreCycles(after, g);
    MoreArcsMoreReached(after, g);
    if TopSorted(after) {
      SortedIsAcyclic(after);
    }
    SameFinals(after, g);
  }

  lemma SameFinals(a: Graph, b: Graph)
    requires a.finals == b.finals
    ensures WeightedFinals(a) == WeightedFinals(b)
  {}

  /** The rule for an appended arc keeps every claim true. */
  lemma AddArcIsSound(g: Graph, props: bv64, s: nat, arc: Arc)
    requires s < |g.arcs| && Sound(props, TruthOf(g))
    ensures Sound(AddArcProperties(props, s, arc, LastOf(g.arcs[s])), TruthOf(WithArc(g, s, arc)))
  {
    hide Sound, TruthOf, WithArc, ArcAppended, MarkArc, MarkPlace, KeepAfterAddArc, ArcMarked, PlaceMarked, IsTrivialWeight;
    var prev := LastOf(g.arcs[s]);
    var (differs, i, o, w) := (arc.ilabel != arc.olabel, arc.ilabel == EPSILON, arc.olabel == EPSILON, !IsTrivialWeight(arc.weight));
    var (iDown, oDown, back) := (prev.Some? && prev.value.ilabel > arc.ilabel, prev.Some? && prev.value.olabel > arc.olabel, arc.nextstate <= s);
    MarkArcIsSound(props, TruthOf(g), differs, i, o, w);
    MarkPlaceIsSound(MarkArc(props, differs, i, o, w), ArcMarked(TruthOf(g), differs, i, o, w), iDown, oDown, back);
    ArcIsAppended(g, s, arc);
    KeepAfterAddArcIsSound(MarkPlace(MarkArc(props, differs, i, o, w), iDown, oDown, back),
                           PlaceMarked(ArcMarked(TruthOf(g), differs, i, o, w), iDown, oDown, back), TruthOf(WithArc(g, s, arc)));
  }

  // -- Changing what is not an arc ------------------------------------------------------------

  lemma SameArcsSameLabels(a: Graph, b: Graph)
    requires a.arcs == b.arcs
    ensures Acceptor(a) == Acceptor(b) && HasEpsilons(a) == HasEpsilons(b) && HasInputEpsilons(a) == HasInputEpsilons(b)
    ensures HasOutputEpsilons(a) == HasOutputEpsilons(b) && WeightedArcs(a) == WeightedArcs(b) && TopSorted(a) == TopSorted(b)
    ensures InputDeterministic(a) == InputDeterministic(b) && OutputDeterministic(a) == OutputDeterministic(b)
    ensures InputSorted(a) == InputSorted(b) && OutputSorted(a) == OutputSorted(b)
  {
    hide IsTrivialWeight;
    forall s: nat, k: nat ensures ArcAt(a, s, k) == ArcAt(b, s, k) {}
    hide ArcAt;
  }

  lemma SameArcsSameRoutes(a: Graph, b: Graph)
    requires a.arcs == b.arcs
    ensures HasArcsOf(a, b) && HasArcsOf(b, a)
    ensures forall s: nat, t: nat :: Reaches(a, s, t) == Reaches(b, s, t)
    ensures forall s: nat :: OnCycle(a, s) == OnCycle(b, s)
    ensures Cyclic(a) == Cyclic(b) && WeightedCycles(a) == WeightedCycles(b)
  {
    forall s: nat, t: nat ensures HasArc(a, s, t) == HasArc(b, s, t) {}
    hide HasArc;
    forall s: nat, t: nat ensures Reaches(a, s, t) == Reaches(b, s, t) {
      if Reaches(a, s, t) {
        MoreReaches(b, a, s, t);
      }
      if Reaches(b, s, t) {
        MoreReaches(a, b, s, t);
      }
    }
    hide Reaches, IsTrivialWeight;
    WeightedCyclesCarry(a, b);
    WeightedCyclesCarry(b, a);
  }

  lemma WeightedCyclesCarry(a: Graph, b: Graph)
    requires a.arcs == b.arcs && forall s: nat, t: nat :: Reaches(a, s, t) == Reaches(b, s, t)
    ensures WeightedCycles(a) ==> WeightedCycles(b)
  {
    hide Reaches, IsTrivialWeight;
    if WeightedCycles(a) {
      var s: nat, k: nat :| ArcAt(a, s, k) && !IsTrivialWeight(a.arcs[s][k].weight) && Reaches(a, a.arcs[s][k].nextstate, s);
      assert ArcAt(b, s, k);
    }
  }

  function WithStart(g: Graph, start: Option<nat>): Graph {
    g.(start := start)
  }

  lemma StartIsSet(g: Graph, start: Option<nat>)
    ensures StartSet(TruthOf(g), TruthOf(WithStart(g, start)))
  {
    var after := WithStart(g, start);
    SameArcsSameLabels(after, g);
    SameArcsSameRoutes(after, g);
    SameFinals(after, g);
    assert CoAccessible(after) == CoAccessible(g) by { SameFinishes(after, g); }
    hide *;
    StartOnCycle(after);
    WhatStartSets(g, after);
  }

  lemma StartOnCycle(g: Graph)
    ensures InitialCyclic(g) ==> Cyclic(g)
  {}

  lemma WhatStartSets(g: Graph, after: Graph)
    requires Acceptor(after) == Acceptor(g) && HasEpsilons(after) == HasEpsilons(g) && HasInputEpsilons(after) == HasInputEpsilons(g)
    requires HasOutputEpsilons(after) == HasOutputEpsilons(g) && WeightedArcs(after) == WeightedArcs(g) && TopSorted(after) == TopSorted(g)
    requires InputDeterministic(after) == InputDeterministic(g) && OutputDeterministic(after) == OutputDeterministic(g)
    requires InputSorted(after) == InputSorted(g) && OutputSorted(after) == OutputSorted(g)
    requires Cyclic(after) == Cyclic(g) && WeightedCycles(after) == WeightedCycles(g)
    requires CoAccessible(after) == CoAccessible(g) && WeightedFinals(after) == WeightedFinals(g)
    requires InitialCyclic(after) ==> Cyclic(after)
    ensures StartSet(TruthOf(g), TruthOf(after))
  {
    hide Acceptor, HasEpsilons, HasInputEpsilons, HasOutputEpsilons, InputDeterministic, OutputDeterministic, InputSorted, OutputSorted,
         WeightedArcs, WeightedFinals, Cyclic, InitialCyclic, TopSorted, Accessible, CoAccessible, StringLike, WeightedCycles;
  }

  lemma SameFinishes(a: Graph, b: Graph)
    requires a.arcs == b.arcs && a.finals == b.finals && forall s: nat, t: nat :: Reaches(a, s, t) == Reaches(b, s, t)
    ensures CoAccessible(a) == CoAccessible(b)
  {
    hide Reaches;
    forall s: nat ensures Finishes(a, s) == Finishes(b, s) {}
  }

  function WithFinal(g: Graph, s: nat, weight: Cost): Graph
    requires s < |g.finals|
  {
    g.(finals := g.finals[s := weight])
  }

  lemma FinalWeighted(g: Graph, s: nat, weight: Cost)
    requires s < |g.finals|
    ensures var (after, was) := (WithFinal(g, s, weight), g.finals[s]);
            && (IsTrivialWeight(was) && WeightedFinals(g) ==> WeightedFinals(after))
            && (!IsTrivialWeight(weight) ==> WeightedFinals(after))
            && (IsTrivialWeight(weight) && !WeightedFinals(g) ==> !WeightedFinals(after))
  {
    hide IsTrivialWeight;
    var after := WithFinal(g, s, weight);
    assert after.finals[s] == weight;
    if IsTrivialWeight(g.finals[s]) && WeightedFinals(g) {
      var f: nat :| f < |g.finals| && !IsTrivialWeight(g.finals[f]);
      assert after.finals[f] == g.finals[f];
    }
  }

  lemma FinalIsSet(g: Graph, s: nat, weight: Cost)
    requires s < |g.finals|
    ensures FinalSet(TruthOf(g), TruthOf(WithFinal(g, s, weight)), g.finals[s], weight)
  {
    var after := WithFinal(g, s, weight);
    SameArcsSameLabels(after, g);
    SameArcsSameRoutes(after, g);
    FinalWeighted(g, s, weight);
    SameReached(after, g);
    hide Acceptor, HasEpsilons, HasInputEpsilons, HasOutputEpsilons, InputDeterministic, OutputDeterministic, InputSorted, OutputSorted,
         WeightedArcs, WeightedFinals, Cyclic, InitialCyclic, TopSorted, Accessible, CoAccessible, StringLike, WeightedCycles, IsTrivialWeight,
         Reaches, OnCycle, HasArcsOf;
  }

  lemma SameReached(a: Graph, b: Graph)
    requires a.start == b.start && a.arcs == b.arcs
    ensures Accessible(a) == Accessible(b) && InitialCyclic(a) == InitialCyclic(b)
  {
    SameArcsSameRoutes(a, b);
    hide Reaches, OnCycle;
    forall s: nat ensures Reached(a, s) == Reached(b, s) {}
  }

  // -- A new state ----------------------------------------------------------------------------------

  function WithState(g: Graph): Graph {
    g.(arcs := g.arcs + [[]], finals := g.finals + [Infinite])
  }

  lemma StateLabels(g: Graph)
    ensures var a := WithState(g);
            && Acceptor(a) == Acceptor(g) && HasEpsilons(a) == HasEpsilons(g) && HasInputEpsilons(a) == HasInputEpsilons(g)
            && HasOutputEpsilons(a) == HasOutputEpsilons(g) && WeightedArcs(a) == WeightedArcs(g) && TopSorted(a) == TopSorted(g)
            && InputDeterministic(a) == InputDeterministic(g) && OutputDeterministic(a) == OutputDeterministic(g)
            && InputSorted(a) == InputSorted(g) && OutputSorted(a) == OutputSorted(g)
  {
    hide IsTrivialWeight;
    var a := WithState(g);
    forall s: nat, k: nat ensures ArcAt(a, s, k) == ArcAt(g, s, k) && (ArcAt(g, s, k) ==> a.arcs[s][k] == g.arcs[s][k]) {}
    hide ArcAt, WithState;
  }

  lemma StateRoutes(g: Graph)
    ensures forall s: nat, t: nat :: Reaches(WithState(g), s, t) == Reaches(g, s, t)
    ensures Cyclic(WithState(g)) == Cyclic(g) && InitialCyclic(WithState(g)) == InitialCyclic(g)
    ensures WeightedCycles(WithState(g)) == WeightedCycles(g)
  {
    var a := WithState(g);
    forall s: nat, t: nat ensures HasArc(a, s, t) == HasArc(g, s, t) {
      if HasArc(g, s, t) {
        var k :| 0 <= k < |g.arcs[s]| && g.arcs[s][k].nextstate == t;
        assert a.arcs[s][k].nextstate == t;
      }
    }
    hide HasArc;
    forall s: nat, t: nat ensures Reaches(a, s, t) == Reaches(g, s, t) {
      if Reaches(a, s, t) {
        MoreReaches(g, a, s, t);
      }
      if Reaches(g, s, t) {
        MoreReaches(a, g, s, t);
      }
    }
    hide Reaches, IsTrivialWeight;
    forall s: nat ensures OnCycle(a, s) == OnCycle(g, s) {}
    forall s: nat, k: nat ensures ArcAt(a, s, k) == ArcAt(g, s, k) && (ArcAt(g, s, k) ==> a.arcs[s][k] == g.arcs[s][k]) {}
    hide ArcAt, WithState, OnCycle;
  }

  lemma StateReached(g: Graph)
    requires Shaped(g)
    ensures Accessible(WithState(g)) ==> Accessible(g)
    ensures CoAccessible(WithState(g)) ==> CoAccessible(g)
    ensures WeightedFinals(WithState(g)) == WeightedFinals(g)
    ensures !StringLike(WithState(g))
  {
    var a := WithState(g);
    StateRoutes(g);
    hide Reaches;
    forall s: nat | Reached(a, s) ensures Reached(g, s) {}
    forall s: nat | Finishes(a, s) ensures Finishes(g, s) {
      var f: nat :| f < |a.finals| && a.finals[f] != Infinite && Reaches(a, s, f);
      assert f < |g.finals| && g.finals[f] == a.finals[f];
    }
    if WeightedFinals(g) {
      var f: nat :| f < |g.finals| && !IsTrivialWeight(g.finals[f]);
      assert a.finals[f] == g.finals[f];
    }
    assert a.finals[|g.finals|] == Infinite && a.arcs[|g.arcs|] == [];
  }

  lemma StateIsAdded(g: Graph)
    requires Shaped(g)
    ensures StateAdded(TruthOf(g), TruthOf(WithState(g)))
  {
    StateLabels(g);
    StateRoutes(g);
    StateReached(g);
    hide Acceptor, HasEpsilons, HasInputEpsilons, HasOutputEpsilons, InputDeterministic, OutputDeterministic, InputSorted, OutputSorted,
         WeightedArcs, WeightedFinals, Cyclic, InitialCyclic, TopSorted, Accessible, CoAccessible, StringLike, WeightedCycles, Reaches, WithState;
  }

  // -- Replacing an arc ------------------------------------------------------------------------------

  predicate OtherArc(g: Graph, s: nat, k: nat, i: nat, j: nat) {
    ArcAt(g, i, j) && (i != s || j != k)
  }

  /** The facts about labels and weights with arc `k` of state `s` left out. */
  ghost function TruthBut(g: Graph, s: nat, k: nat): Truth {
    TruthOf(g).(
      acceptor := forall i: nat, j: nat | OtherArc(g, s, k, i, j) :: g.arcs[i][j].ilabel == g.arcs[i][j].olabel,
      epsilons := exists i: nat, j: nat :: OtherArc(g, s, k, i, j) && g.arcs[i][j].ilabel == EPSILON && g.arcs[i][j].olabel == EPSILON,
      iEpsilons := exists i: nat, j: nat :: OtherArc(g, s, k, i, j) && g.arcs[i][j].ilabel == EPSILON,
      oEpsilons := exists i: nat, j: nat :: OtherArc(g, s, k, i, j) && g.arcs[i][j].olabel == EPSILON,
      weighted := (exists i: nat, j: nat :: OtherArc(g, s, k, i, j) && !IsTrivialWeight(g.arcs[i][j].weight)) || WeightedFinals(g))
  }

  function WithSetArc(g: Graph, s: nat, k: nat, arc: Arc): Graph
    requires ArcAt(g, s, k)
  {
    g.(arcs := g.arcs[s := g.arcs[s][k := arc]])
  }

  lemma ArcIsUnmarked(g: Graph, s: nat, k: nat)
    requires ArcAt(g, s, k)
    ensures var was := g.arcs[s][k];
            ArcUnmarked(TruthOf(g), TruthBut(g, s, k), was.ilabel != was.olabel, was.ilabel == EPSILON, was.olabel == EPSILON, !IsTrivialWeight(was.weight))
  {
    hide IsTrivialWeight, WeightedFinals, InputDeterministic, OutputDeterministic, InputSorted, OutputSorted, Cyclic, InitialCyclic,
         TopSorted, Accessible, CoAccessible, StringLike, WeightedCycles;
    forall i: nat, j: nat | ArcAt(g, i, j) ensures OtherArc(g, s, k, i, j) || (i == s && j == k) {}
    forall i: nat, j: nat | OtherArc(g, s, k, i, j) ensures ArcAt(g, i, j) {}
    hide ArcAt, OtherArc;
  }

  lemma ArcIsReplaced(g: Graph, s: nat, k: nat, arc: Arc)
    requires ArcAt(g, s, k)
    ensures ArcReplaced(ArcMarked(TruthBut(g, s, k), arc.ilabel != arc.olabel, arc.ilabel == EPSILON, arc.olabel == EPSILON, !IsTrivialWeight(arc.weight)),
                        TruthOf(WithSetArc(g, s, k, arc)))
  {
    hide IsTrivialWeight, WeightedFinals, InputDeterministic, OutputDeterministic, InputSorted, OutputSorted, Cyclic, InitialCyclic,
         TopSorted, Accessible, CoAccessible, StringLike, WeightedCycles;
    var after := WithSetArc(g, s, k, arc);
    SameFinals(after, g);
    assert ArcAt(after, s, k) && after.arcs[s][k] == arc;
    forall i: nat, j: nat | OtherArc(g, s, k, i, j) ensures ArcAt(after, i, j) && after.arcs[i][j] == g.arcs[i][j] {}
    forall i: nat, j: nat | ArcAt(after, i, j) ensures OtherArc(g, s, k, i, j) || (i == s && j == k) {}
    hide ArcAt, OtherArc, WithSetArc;
  }

  lemma SetArcIsSound(g: Graph, props: bv64, s: nat, k: nat, arc: Arc)
    requires ArcAt(g, s, k) && Sound(props, TruthOf(g))
    ensures Sound(SetArcProperties(props, g.arcs[s][k], arc), TruthOf(WithSetArc(g, s, k, arc)))
  {
    hide Sound, TruthOf, TruthBut, WithSetArc, ArcReplaced, ArcUnmarked, MarkArc, UnmarkArc, KeepAfterSetArc, ArcMarked, IsTrivialWeight;
    var was := g.arcs[s][k];
    var (differs, i, o, w) := (arc.ilabel != arc.olabel, arc.ilabel == EPSILON, arc.olabel == EPSILON, !IsTrivialWeight(arc.weight));
    var bare := UnmarkArc(props, was.ilabel != was.olabel, was.ilabel == EPSILON, was.olabel == EPSILON, !IsTrivialWeight(was.weight));
    ArcIsUnmarked(g, s, k);
    UnmarkArcIsSound(props, TruthOf(g), TruthBut(g, s, k), was.ilabel != was.olabel, was.ilabel == EPSILON, was.olabel == EPSILON, !IsTrivialWeight(was.weight));
    MarkArcIsSound(bare, TruthBut(g, s, k), differs, i, o, w);
    ArcIsReplaced(g, s, k, arc);
    KeepAfterSetArcIsSound(MarkArc(bare, differs, i, o, w), ArcMarked(TruthBut(g, s, k), differs, i, o, w), TruthOf(WithSetArc(g, s, k, arc)));
  }

  // -- Deleting arcs ---------------------------------------------------------------------------------

  function WithFewerArcs(g: Graph, s: nat, n: nat): Graph
    requires s < |g.arcs| && n <= |g.arcs[s]|
  {
    g.(arcs := g.arcs[s := g.arcs[s][..n]])
  }

  /** Every arc of `fewer` is one of `more`, in the same order. */
  ghost predicate KeepsArcs(fewer: Graph, more: Graph) {
    forall s: nat, k: nat | ArcAt(fewer, s, k) :: ArcAt(more, s, k) && more.arcs[s][k] == fewer.arcs[s][k]
  }

  lemma FewerLabels(fewer: Graph, more: Graph)
    requires KeepsArcs(fewer, more)
    ensures Acceptor(more) ==> Acceptor(fewer)
    ensures HasEpsilons(fewer) ==> HasEpsilons(more)
    ensures HasInputEpsilons(fewer) ==> HasInputEpsilons(more)
    ensures HasOutputEpsilons(fewer) ==> HasOutputEpsilons(more)
    ensures WeightedArcs(fewer) ==> WeightedArcs(more)
    ensures TopSorted(more) ==> TopSorted(fewer)
    ensures InputDeterministic(more) ==> InputDeterministic(fewer)
    ensures OutputDeterministic(more) ==> OutputDeterministic(fewer)
    ensures InputSorted(more) ==> InputSorted(fewer)
    ensures OutputSorted(more) ==> OutputSorted(fewer)
  {
    hide ArcAt, IsTrivialWeight;
  }

  lemma FewerRoutes(fewer: Graph, more: Graph)
    requires KeepsArcs(fewer, more)
    ensures HasArcsOf(more, fewer)
    ensures WeightedCycles(fewer) ==> WeightedCycles(more)
  {
    forall s: nat, t: nat | HasArc(fewer, s, t) ensures HasArc(more, s, t) {
      var k: nat :| k < |fewer.arcs[s]| && fewer.arcs[s][k].nextstate == t;
      assert ArcAt(fewer, s, k);
    }
    hide HasArc, Reaches, IsTrivialWeight;
    if WeightedCycles(fewer) {
      var s: nat, k: nat :| ArcAt(fewer, s, k) && !IsTrivialWeight(fewer.arcs[s][k].weight) && Reaches(fewer, fewer.arcs[s][k].nextstate, s);
      MoreReaches(more, fewer, fewer.arcs[s][k].nextstate, s);
      assert ArcAt(more, s, k);
    }
  }

  lemma ArcsAreRemoved(g: Graph, s: nat, n: nat)
    requires s < |g.arcs| && n <= |g.arcs[s]|
    ensures var after := WithFewerArcs(g, s, n);
            ArcsRemoved(TruthOf(g), TruthOf(after)) && (Accessible(after) ==> Accessible(g)) && (CoAccessible(after) ==> CoAccessible(g))
  {
    var after := WithFewerArcs(g, s, n);
    assert KeepsArcs(after, g);
    FewerLabels(after, g);
    FewerRoutes(after, g);
    MoreArcsMoreCycles(g, after);
    MoreArcsMoreReached(g, after);
    SameFinals(after, g);
    hide Acceptor, HasEpsilons, HasInputEpsilons, HasOutputEpsilons, InputDeterministic, OutputDeterministic, InputSorted, OutputSorted,
         WeightedArcs, WeightedFinals, Cyclic, InitialCyclic, TopSorted, Accessible, CoAccessible, StringLike, WeightedCycles, KeepsArcs;
  }

  // -- No states at all --------------------------------------------------------------------------------

  lemma EmptyTruth()
    ensures TruthOf(Graph(None, [], [])) == NOTHING
  {}

  // -- Swapping and copying sides -----------------------------------------------------------------------

  function MapArcs(g: Graph, f: Arc -> Arc): Graph {
    g.(arcs := seq(|g.arcs|, s requires 0 <= s < |g.arcs| => seq(|g.arcs[s]|, k requires 0 <= k < |g.arcs[s]| => f(g.arcs[s][k]))))
  }

  function Swap(): Arc -> Arc {
    (arc: Arc) => arc.(ilabel := arc.olabel, olabel := arc.ilabel)
  }

  function Copy(input: bool): Arc -> Arc {
    (arc: Arc) => if input then arc.(olabel := arc.ilabel) else arc.(ilabel := arc.olabel)
  }

  /** The same arcs but for their labels. */
  ghost predicate Relabels(after: Graph, g: Graph) {
    && after.start == g.start && after.finals == g.finals && |after.arcs| == |g.arcs|
    && (forall s: nat | s < |g.arcs| :: |after.arcs[s]| == |g.arcs[s]|)
    && (forall s: nat, k: nat :: ArcAt(after, s, k) == ArcAt(g, s, k))
    && forall s: nat, k: nat | ArcAt(g, s, k) :: after.arcs[s][k].weight == g.arcs[s][k].weight && after.arcs[s][k].nextstate == g.arcs[s][k].nextstate
  }

  lemma RelabelledRoutes(a: Graph, g: Graph)
    requires Relabels(a, g)
    ensures forall s: nat, t: nat :: Reaches(a, s, t) == Reaches(g, s, t)
    ensures forall s: nat :: OnCycle(a, s) == OnCycle(g, s)
  {
    forall s: nat, t: nat ensures HasArc(a, s, t) == HasArc(g, s, t) {
      if HasArc(a, s, t) {
        var k: nat :| k < |a.arcs[s]| && a.arcs[s][k].nextstate == t;
        assert ArcAt(g, s, k);
      }
      if HasArc(g, s, t) {
        var k: nat :| k < |g.arcs[s]| && g.arcs[s][k].nextstate == t;
        assert ArcAt(g, s, k);
      }
    }
    hide HasArc;
    forall s: nat, t: nat ensures Reaches(a, s, t) == Reaches(g, s, t) {
      if Reaches(a, s, t) {
        MoreReaches(g, a, s, t);
      }
      if Reaches(g, s, t) {
        MoreReaches(a, g, s, t);
      }
    }
  }

  lemma RelabelledReach(a: Graph, g: Graph)
    requires Relabels(a, g)
    ensures Cyclic(a) == Cyclic(g) && InitialCyclic(a) == InitialCyclic(g) && Accessible(a) == Accessible(g) && CoAccessible(a) == CoAccessible(g)
  {
    RelabelledRoutes(a, g);
    hide Reaches, OnCycle, ArcAt;
    forall s: nat ensures Reached(a, s) == Reached(g, s) && Finishes(a, s) == Finishes(g, s) {}
  }

  lemma RelabelledRest(a: Graph, g: Graph)
    requires Relabels(a, g)
    ensures WeightedArcs(a) == WeightedArcs(g) && WeightedFinals(a) == WeightedFinals(g) && TopSorted(a) == TopSorted(g)
    ensures StringLike(a) == StringLike(g) && WeightedCycles(a) == WeightedCycles(g)
  {
    RelabelledRoutes(a, g);
    SameFinals(a, g);
    hide Reaches, IsTrivialWeight, ArcAt, OnCycle;
  }

  lemma MapRelabels(g: Graph, f: Arc -> Arc)
    requires forall arc :: f(arc).weight == arc.weight && f(arc).nextstate == arc.nextstate
    ensures Relabels(MapArcs(g, f), g)
    ensures forall s: nat, k: nat | ArcAt(g, s, k) :: ArcAt(MapArcs(g, f), s, k) && MapArcs(g, f).arcs[s][k] == f(g.arcs[s][k])
  {}

  /** Inverting an FST inverts the facts. */
  lemma InvertedTruth(g: Graph)
    ensures TruthOf(MapArcs(g, Swap())) == Inverted(TruthOf(g))
  {
    hide Acceptor, HasEpsilons, HasInputEpsilons, HasOutputEpsilons, InputDeterministic, OutputDeterministic, InputSorted, OutputSorted,
         WeightedArcs, WeightedFinals, Cyclic, InitialCyclic, TopSorted, Accessible, CoAccessible, StringLike, WeightedCycles, Relabels, ArcAt, MapArcs;
    var a := MapArcs(g, Swap());
    MapRelabels(g, Swap());
    RelabelledReach(a, g);
    RelabelledRest(a, g);
    SwappedLabels(g);
  }

  lemma SwappedLabels(g: Graph)
    ensures var a := MapArcs(g, Swap());
            && Acceptor(a) == Acceptor(g) && HasEpsilons(a) == HasEpsilons(g)
            && HasInputEpsilons(a) == HasOutputEpsilons(g) && HasOutputEpsilons(a) == HasInputEpsilons(g)
            && InputDeterministic(a) == OutputDeterministic(g) && OutputDeterministic(a) == InputDeterministic(g)
            && InputSorted(a) == OutputSorted(g) && OutputSorted(a) == InputSorted(g)
  {
    hide Acceptor, HasEpsilons, HasInputEpsilons, HasOutputEpsilons, InputDeterministic, OutputDeterministic, InputSorted, OutputSorted;
    MapRelabels(g, Swap());
    InvertedLabels(g, MapArcs(g, Swap()));
  }

  lemma CopiedLabels(g: Graph, input: bool)
    ensures var a := MapArcs(g, Copy(input));
            && Acceptor(a) && HasInputEpsilons(a) == HasOutputEpsilons(a) == HasEpsilons(a)
            && HasInputEpsilons(a) == (if input then HasInputEpsilons(g) else HasOutputEpsilons(g))
            && InputDeterministic(a) == OutputDeterministic(a) == (if input then InputDeterministic(g) else OutputDeterministic(g))
            && InputSorted(a) == OutputSorted(a) == (if input then InputSorted(g) else OutputSorted(g))
  {
    hide Acceptor, HasEpsilons, HasInputEpsilons, HasOutputEpsilons, InputDeterministic, OutputDeterministic, InputSorted, OutputSorted;
    MapRelabels(g, Copy(input));
    ProjectedLabels(g, MapArcs(g, Copy(input)), input);
  }

  lemma InvertedLabels(g: Graph, a: Graph)
    requires forall s: nat, k: nat :: ArcAt(a, s, k) == ArcAt(g, s, k)
    requires forall s: nat, k: nat | ArcAt(g, s, k) && ArcAt(a, s, k) :: a.arcs[s][k].ilabel == g.arcs[s][k].olabel && a.arcs[s][k].olabel == g.arcs[s][k].ilabel
    ensures Acceptor(a) == Acceptor(g) && HasEpsilons(a) == HasEpsilons(g)
    ensures HasInputEpsilons(a) == HasOutputEpsilons(g) && HasOutputEpsilons(a) == HasInputEpsilons(g)
    ensures InputDeterministic(a) == OutputDeterministic(g) && OutputDeterministic(a) == InputDeterministic(g)
    ensures InputSorted(a) == OutputSorted(g) && OutputSorted(a) == InputSorted(g)
  {
    hide ArcAt;
  }

  /** Projecting an FST onto one side projects the facts. */
  lemma ProjectedTruth(g: Graph, input: bool)
    ensures TruthOf(MapArcs(g, Copy(input))) == Projected(TruthOf(g), input)
  {
    hide Acceptor, HasEpsilons, HasInputEpsilons, HasOutputEpsilons, InputDeterministic, OutputDeterministic, InputSorted, OutputSorted,
         WeightedArcs, WeightedFinals, Cyclic, InitialCyclic, TopSorted, Accessible, CoAccessible, StringLike, WeightedCycles, Relabels, ArcAt, MapArcs;
    var a := MapArcs(g, Copy(input));
    MapRelabels(g, Copy(input));
    RelabelledReach(a, g);
    RelabelledRest(a, g);
    CopiedLabels(g, input);
  }

  lemma ProjectedLabels(g: Graph, a: Graph, input: bool)
    requires forall s: nat, k: nat :: ArcAt(a, s, k) == ArcAt(g, s, k)
    requires forall s: nat, k: nat | ArcAt(g, s, k) && ArcAt(a, s, k) ::
               a.arcs[s][k].ilabel == a.arcs[s][k].olabel == if input then g.arcs[s][k].ilabel else g.arcs[s][k].olabel
    ensures Acceptor(a) && HasInputEpsilons(a) == HasOutputEpsilons(a) == HasEpsilons(a)
    ensures HasInputEpsilons(a) == if input then HasInputEpsilons(g) else HasOutputEpsilons(g)
    ensures InputDeterministic(a) == OutputDeterministic(a) == if input then InputDeterministic(g) else OutputDeterministic(g)
    ensures InputSorted(a) == OutputSorted(a) == if input then InputSorted(g) else OutputSorted(g)
  {
    hide ArcAt;
  }
}
