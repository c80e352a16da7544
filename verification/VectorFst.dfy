/** A mutable FST that keeps its property bits as it goes: after any run of its
    operations, every bit set is true of it. */
module VectorFsts {
  import opened Costs
  import opened DecodingGraphs
  import opened Properties
  import opened PropertyCaches
  import opened FstFacts
  import opened StateDeletion

  class VectorFst {
    var start: Option<nat>
    var arcs: seq<seq<Arc>>
    var finals: seq<Cost>
    const cache: PropertyCache

    function Value(): Graph
      reads this
    {
      Graph(start, finals, arcs)
    }

    /** Every claim the bits make is true. */
    ghost predicate Valid()
      reads this, cache
    {
      Shaped(Value()) && Sound(cache.bits, TruthOf(Value()))
    }

    constructor ()
      ensures Valid() && fresh(cache) && Value() == Graph(None, [], [])
    {
      start, arcs, finals := None, [], [];
      cache := new PropertyCache(K_NULL_PROPERTIES | (K_EXPANDED | K_MUTABLE));
      new;
      EmptyTruth();
      FreshBits();
      DeleteAllStatesIsSound(0, K_EXPANDED | K_MUTABLE);
    }

    method SetStart(state: Option<nat>)
      requires Valid()
      modifies this, cache
      ensures Valid() && Value() == WithStart(old(Value()), state)
    {
      hide Sound, TruthOf, StartSet, SetStartProperties;
      StartIsSet(Value(), state);
      SetStartIsSound(cache.bits, TruthOf(Value()), TruthOf(WithStart(Value(), state)));
      start := state;
      cache.Modify(SetStartProperties);
    }

    method SetFinal(state: nat, weight: Cost)
      requires Valid()
      modifies this, cache
      ensures Valid() && Value() == if state < |old(finals)| then WithFinal(old(Value()), state, weight) else old(Value())
    {
      hide Sound, TruthOf, FinalSet, SetFinalProperties;
      if state < |finals| {
        var was := finals[state];
        FinalIsSet(Value(), state, weight);
        SetFinalIsSound(cache.bits, TruthOf(Value()), TruthOf(WithFinal(Value(), state, weight)), was, weight);
        cache.Modify((props: bv64) => SetFinalProperties(props, was, weight));
        finals := finals[state := weight];
      }
    }

    method AddState() returns (id: nat)
      requires Valid()
      modifies this, cache
      ensures Valid() && Value() == WithState(old(Value())) && id == |old(arcs)|
    {
      hide Sound, TruthOf, StateAdded, AddStateProperties;
      id := |arcs|;
      StateIsAdded(Value());
      AddStateIsSound(cache.bits, TruthOf(Value()), TruthOf(WithState(Value())));
      arcs, finals := arcs + [[]], finals + [Infinite];
      cache.Modify(AddStateProperties);
    }

    method AddArc(state: nat, arc: Arc)
      requires Valid()
      modifies this, cache
      ensures Valid() && Value() == if state < |old(arcs)| then WithArc(old(Value()), state, arc) else old(Value())
    {
      hide Sound, TruthOf, AddArcProperties;
      if state < |arcs| {
        var prev := LastOf(arcs[state]);
        FstFacts.AddArcIsSound(Value(), cache.bits, state, arc);
        arcs := arcs[state := arcs[state] + [arc]];
        cache.Modify((props: bv64) => AddArcProperties(props, state, arc, prev));
      }
    }

    /** Rewrites every arc of a state in place. */
    method MutateArcs(state: nat, mutator: Arc -> Arc)
      requires Valid()
      modifies this, cache
      ensures Valid() && start == old(start) && finals == old(finals) && |arcs| == |old(arcs)|
      ensures forall s | 0 <= s < |arcs| && s != state :: arcs[s] == old(arcs)[s]
      ensures state < |old(arcs)| && state < |arcs| ==>
                |arcs[state]| == |old(arcs)[state]| && forall k | 0 <= k < |arcs[state]| && k < |old(arcs)[state]| :: arcs[state][k] == mutator(old(arcs)[state][k])
    {
      hide Sound, TruthOf, SetArcProperties;
      if state >= |arcs| {
        return;
      }
      ghost var before := arcs;
      var props := cache.bits;
      for k := 0 to |arcs[state]|
        invariant start == old(start) && finals == old(finals) && |arcs| == |before| == |finals|
        invariant (forall s | 0 <= s < |arcs| && s != state :: arcs[s] == before[s]) && |arcs[state]| == |before[state]|
        invariant forall j | 0 <= j < |arcs[state]| :: arcs[state][j] == if j < k then mutator(before[state][j]) else before[state][j]
        invariant Sound(props, TruthOf(Value()))
      {
        var was := arcs[state][k];
        var arc := mutator(was);
        SetArcIsSound(Value(), props, state, k, arc);
        arcs := arcs[state := arcs[state][k := arc]];
        props := SetArcProperties(props, was, arc);
      }
      cache.Set(props);
    }

    /** Deletes the last `n` arcs of a state, or all of them. */
    method DeleteArcsN(state: nat, n: nat)
      requires Valid()
      modifies this, cache
      ensures Valid()
      ensures Value() == if state < |old(arcs)| then WithFewerArcs(old(Value()), state, |old(arcs)[state]| - Min(n, |old(arcs)[state]|)) else old(Value())
    {
      hide Sound, TruthOf, ArcsRemoved, DeleteArcsProperties, Accessible, CoAccessible;
      if state < |arcs| {
        var left := |arcs[state]| - Min(n, |arcs[state]|);
        ArcsAreRemoved(Value(), state, left);
        FewerReached(Value(), WithFewerArcs(Value(), state, left));
        DeleteArcsIsSound(cache.bits, TruthOf(Value()), TruthOf(WithFewerArcs(Value(), state, left)));
        arcs := arcs[state := arcs[state][..left]];
        cache.Modify(DeleteArcsProperties);
      }
    }

    method DeleteArcs(state: nat)
      requires Valid()
      modifies this, cache
      ensures Valid() && Value() == if state < |old(arcs)| then WithFewerArcs(old(Value()), state, 0) else old(Value())
    {
      hide Sound, TruthOf;
      if state < |arcs| {
        DeleteArcsN(state, |arcs[state]|);
      }
    }

    method DeleteAllStates()
      requires Valid()
      modifies this, cache
      ensures Valid() && Value() == Graph(None, [], [])
    {
      hide Sound, DeleteAllStatesProperties;
      EmptyTruth();
      StaticBits();
      hide TruthOf;
      DeleteAllStatesIsSound(cache.bits, K_EXPANDED | K_MUTABLE);
      start, arcs, finals := None, [], [];
      cache.Modify((props: bv64) => DeleteAllStatesProperties(props, K_EXPANDED | K_MUTABLE));
    }

    /** Deletes states and renumbers the rest. Deleting nothing leaves everything as it
        was. */
    method DeleteStates(dstates: seq<nat>)
      requires Valid() && Value().Valid()
      modifies this, cache
      ensures Valid() && Value().Valid()
      ensures dstates == [] ==> Value() == old(Value())
      ensures dstates != [] ==> exists newid, oldids :: Deletion(Value(), old(Value()), dstates, newid, oldids)
    {
      hide Sound, TruthOf, ArcsRemoved, DeleteStatesProperties;
      if dstates == [] {
        return;
      }
      hide Leaves, Deletion, Renumbers, Graph.Valid;
      ghost var before := Value();
      var newid, oldids := Renumber(|arcs|, dstates);
      var left, weights := Compact(before, arcs, finals, newid, oldids);
      InRange(before);
      arcs, finals := left, weights;
      if start.Some? {
        start := newid[start.value];
      }
      WhatIsLeft(before, dstates, newid, oldids, left, weights);
      LeftIsValid(Value(), before, newid, oldids);
      StatesAreRemoved(Value(), before, newid, oldids);
      DeleteStatesIsSound(cache.bits, TruthOf(before), TruthOf(Value()));
      cache.Modify(DeleteStatesProperties);
    }

    /** Takes in what a correct scan settled. */
    method Discover(props: bv64, mask: bv64)
      requires Valid() && Sound(props, TruthOf(Value()))
      modifies cache
      ensures Valid()
    {
      hide Sound, TruthOf, Discovered;
      DiscoverIsSound(cache.bits, props, mask, TruthOf(Value()));
      cache.Discover(props, mask);
    }
  }

  /** What deleting `dstates` does: exactly they go, the rest keep their order, and
      each keeps its final weight and the arcs among those left. */
  ghost predicate Deletion(after: Graph, before: Graph, dstates: seq<nat>, newid: seq<Option<nat>>, oldids: seq<nat>) {
    && Leaves(after, before, newid, oldids)
    && (forall s: nat | s < |newid| :: newid[s].None? <==> s in dstates)
    && after.start == if before.start.Some? && before.start.value < |newid| then newid[before.start.value] else None
  }

  lemma InRange(g: Graph)
    requires g.Valid()
    ensures g.start.Some? ==> g.start.value < |g.arcs|
  {}

  /** The states left, each with its arcs to the others left. */
  method Compact(ghost g: Graph, arcs: seq<seq<Arc>>, finals: seq<Cost>, newid: seq<Option<nat>>, oldids: seq<nat>)
    returns (left: seq<seq<Arc>>, weights: seq<Cost>)
    requires g.Valid() && g.arcs == arcs && g.finals == finals && |newid| == |arcs| && Renumbers(newid, oldids)
    ensures |left| == |weights| == |oldids| && forall k: nat | k < |oldids| :: oldids[k] < |arcs|
    ensures forall k: nat | k < |oldids| :: left[k] == Remapped(arcs[oldids[k]], newid) && weights[k] == finals[oldids[k]]
  {
    left, weights := [], [];
    for i := 0 to |oldids|
      invariant |left| == |weights| == i
      invariant forall k: nat | k < i :: left[k] == Remapped(arcs[oldids[k]], newid) && weights[k] == finals[oldids[k]]
    {
      var remapped := Remap(arcs[oldids[i]], newid);
      left, weights := left + [remapped], weights + [finals[oldids[i]]];
    }
  }

  lemma WhatIsLeft(g: Graph, dstates: seq<nat>, newid: seq<Option<nat>>, oldids: seq<nat>, left: seq<seq<Arc>>, weights: seq<Cost>)
    requires g.Valid() && |newid| == |g.arcs| && Renumbers(newid, oldids) && |left| == |weights| == |oldids|
    requires forall s: nat | s < |newid| :: newid[s].None? <==> s in dstates
    requires forall k: nat | k < |oldids| :: oldids[k] < |g.arcs| && left[k] == Remapped(g.arcs[oldids[k]], newid) && weights[k] == g.finals[oldids[k]]
    ensures g.start.Some? ==> g.start.value < |newid|
    ensures var start := if g.start.Some? then newid[g.start.value] else None;
            Deletion(Graph(start, weights, left), g, dstates, newid, oldids) && Leaves(Graph(start, weights, left), g, newid, oldids)
  {}

  method Renumber(n: nat, dstates: seq<nat>) returns (newid: seq<Option<nat>>, oldids: seq<nat>)
    ensures |newid| == n && Renumbers(newid, oldids) && forall s: nat | s < n :: newid[s].None? <==> s in dstates
  {
    var gone := seq(n, _ => false);
    for d := 0 to |dstates|
      invariant |gone| == n && forall s: nat | s < n :: gone[s] <==> s in dstates[..d]
    {
      assert dstates[..d + 1] == dstates[..d] + [dstates[d]];
      if dstates[d] < n {
        gone := gone[dstates[d] := true];
      }
    }
    assert dstates[..|dstates|] == dstates;
    newid, oldids := [], [];
    for i := 0 to n
      invariant |newid| == i && Renumbers(newid, oldids) && forall s: nat | s < i :: newid[s].None? <==> gone[s]
    {
      if gone[i] {
        newid := newid + [None];
      } else {
        newid, oldids := newid + [Some(|oldids|)], oldids + [i];
      }
    }
  }

  method Remap(arcs: seq<Arc>, newid: seq<Option<nat>>) returns (left: seq<Arc>)
    requires forall k | 0 <= k < |arcs| :: arcs[k].nextstate < |newid|
    ensures left == Remapped(arcs, newid)
  {
    left := [];
    for j := 0 to |arcs|
      invariant left == Remapped(arcs[..j], newid)
    {
      assert arcs[..j + 1][..j] == arcs[..j];
      var t := newid[arcs[j].nextstate];
      if t.Some? {
        left := left + [arcs[j].(nextstate := t.value)];
      }
    }
    assert arcs[..|arcs|] == arcs;
  }

  lemma LeftIsValid(after: Graph, g: Graph, newid: seq<Option<nat>>, oldids: seq<nat>)
    requires Leaves(after, g, newid, oldids)
    ensures after.Valid() && Shaped(after)
  {
    forall i, k | 0 <= i < |after.arcs| && 0 <= k < |after.arcs[i]| ensures after.arcs[i][k].nextstate < |after.arcs| {
      assert ArcAt(after, i, k);
      var p := ArcWas(after, g, newid, oldids, i, k);
    }
  }

  lemma FreshBits()
    ensures K_NULL_PROPERTIES | (K_EXPANDED | K_MUTABLE) == DeleteAllStatesProperties(0, K_EXPANDED | K_MUTABLE)
    ensures (K_EXPANDED | K_MUTABLE) & !K_BINARY_PROPERTIES == 0
  {}

  lemma StaticBits()
    ensures (K_EXPANDED | K_MUTABLE) & !K_BINARY_PROPERTIES == 0
  {}

  lemma FewerReached(g: Graph, after: Graph)
    requires (Accessible(after) ==> Accessible(g)) && (CoAccessible(after) ==> CoAccessible(g))
    ensures (TruthOf(after).accessible ==> TruthOf(g).accessible) && (TruthOf(after).coAccessible ==> TruthOf(g).coAccessible)
  {}

  /** Inverting an FST and its bits keeps every claim true. */
  lemma InvertIsSound(g: Graph, props: bv64)
    requires Sound(props, TruthOf(g))
    ensures Sound(InvertProperties(props), TruthOf(MapArcs(g, Swap())))
  {
    hide Sound, TruthOf, InvertProperties;
    InvertedTruth(g);
    Properties.InvertIsSound(props, TruthOf(g));
  }

  /** And so does projecting it onto one side. */
  lemma ProjectIsSound(g: Graph, props: bv64, input: bool)
    requires Sound(props, TruthOf(g))
    ensures Sound(ProjectProperties(props, input), TruthOf(MapArcs(g, Copy(input))))
  {
    hide Sound, TruthOf, ProjectProperties;
    ProjectedTruth(g, input);
    Properties.ProjectIsSound(props, TruthOf(g), input);
  }
}
