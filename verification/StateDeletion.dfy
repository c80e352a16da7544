/** Deleting states: those left are renumbered in order, their arcs to deleted states
    dropped and the rest redirected. Whatever the deletion cannot break, it does not. */
module StateDeletion {
  import opened Costs
  import opened DecodingGraphs
  import opened Routes
  import opened Properties
  import opened FstFacts

  /** An old number's new one, or none for a deleted state; and the old numbers of the
      states left. */
  ghost predicate Renumbers(newid: seq<Option<nat>>, oldids: seq<nat>) {
    && (forall i | 0 <= i < |oldids| :: oldids[i] < |newid| && newid[oldids[i]] == Some(i))
    && (forall s | 0 <= s < |newid| && newid[s].Some? :: newid[s].value < |oldids| && oldids[newid[s].value] == s)
    && (forall i, j | 0 <= i < j < |oldids| :: oldids[i] < oldids[j])
  }

  function Kept(arc: Arc, newid: seq<Option<nat>>): Option<Arc> {
    if arc.nextstate < |newid| && newid[arc.nextstate].Some? then Some(arc.(nextstate := newid[arc.nextstate].value)) else None
  }

  /** The arcs to states that are left, redirected. */
  function Remapped(arcs: seq<Arc>, newid: seq<Option<nat>>): seq<Arc> {
    if |arcs| == 0 then []
    else
      var last := Kept(arcs[|arcs| - 1], newid);
      Remapped(arcs[..|arcs| - 1], newid) + if last.Some? then [last.value] else []
  }

  /** Where an arc that is left was. */
  ghost function Place(arcs: seq<Arc>, newid: seq<Option<nat>>, k: nat): nat {
    if |arcs| == 0 then 0
    else if k < |Remapped(arcs[..|arcs| - 1], newid)| then Place(arcs[..|arcs| - 1], newid, k)
    else |arcs| - 1
  }

  lemma {:induction false} PlaceOf(arcs: seq<Arc>, newid: seq<Option<nat>>, k: nat)
    requires k < |Remapped(arcs, newid)|
    ensures Place(arcs, newid, k) < |arcs|
    ensures Kept(arcs[Place(arcs, newid, k)], newid) == Some(Remapped(arcs, newid)[k])
  {
    if |arcs| > 0 {
      var front := arcs[..|arcs| - 1];
      if k < |Remapped(front, newid)| {
        PlaceOf(front, newid, k);
      }
    }
  }

  lemma {:induction false} PlacesRise(arcs: seq<Arc>, newid: seq<Option<nat>>, j: nat, k: nat)
    requires j < k < |Remapped(arcs, newid)|
    ensures Place(arcs, newid, j) < Place(arcs, newid, k)
  {
    if |arcs| > 0 {
      var front := arcs[..|arcs| - 1];
      if k < |Remapped(front, newid)| {
        PlacesRise(front, newid, j, k);
      } else {
        PlaceOf(front, newid, j);
      }
    }
  }

  /** `after` is what deletion leaves of `g`. */
  ghost predicate Leaves(after: Graph, g: Graph, newid: seq<Option<nat>>, oldids: seq<nat>) {
    && Shaped(g) && Shaped(after) && |newid| == |g.arcs| && |oldids| == |after.arcs| && Renumbers(newid, oldids)
    && (forall i: nat | i < |oldids| :: after.arcs[i] == Remapped(g.arcs[oldids[i]], newid) && after.finals[i] == g.finals[oldids[i]])
    && (after.start.Some? ==> after.start.value < |oldids| && g.start == Some(oldids[after.start.value]))
  }

  // The arc of `g` an arc of `after` is.
  lemma ArcWas(after: Graph, g: Graph, newid: seq<Option<nat>>, oldids: seq<nat>, i: nat, k: nat) returns (p: nat)
    requires Leaves(after, g, newid, oldids) && ArcAt(after, i, k)
    ensures p == Place(g.arcs[oldids[i]], newid, k) && ArcAt(g, oldids[i], p)
    ensures var (a, b) := (after.arcs[i][k], g.arcs[oldids[i]][p]);
            && a.ilabel == b.ilabel && a.olabel == b.olabel && a.weight == b.weight
            && a.nextstate < |oldids| && b.nextstate == oldids[a.nextstate]
  {
    p := Place(g.arcs[oldids[i]], newid, k);
    PlaceOf(g.arcs[oldids[i]], newid, k);
  }

  lemma LeftLabels(after: Graph, g: Graph, newid: seq<Option<nat>>, oldids: seq<nat>)
    requires Leaves(after, g, newid, oldids)
    ensures Acceptor(g) ==> Acceptor(after)
    ensures HasEpsilons(after) ==> HasEpsilons(g)
    ensures HasInputEpsilons(after) ==> HasInputEpsilons(g)
    ensures HasOutputEpsilons(after) ==> HasOutputEpsilons(g)
    ensures WeightedArcs(after) ==> WeightedArcs(g)
  {
    hide IsTrivialWeight;
    forall i: nat, k: nat | ArcAt(after, i, k)
      ensures exists s: nat, p: nat :: ArcAt(g, s, p) && SameMarks(after.arcs[i][k], g.arcs[s][p])
    {
      var p := ArcWas(after, g, newid, oldids, i, k);
      assert SameMarks(after.arcs[i][k], g.arcs[oldids[i]][p]);
    }
    hide Leaves, ArcAt;
  }

  ghost predicate SameMarks(a: Arc, b: Arc) {
    a.ilabel == b.ilabel && a.olabel == b.olabel && a.weight == b.weight
  }

  lemma LeftOrder(after: Graph, g: Graph, newid: seq<Option<nat>>, oldids: seq<nat>)
    requires Leaves(after, g, newid, oldids)
    ensures InputDeterministic(g) ==> InputDeterministic(after)
    ensures OutputDeterministic(g) ==> OutputDeterministic(after)
    ensures InputSorted(g) ==> InputSorted(after)
    ensures OutputSorted(g) ==> OutputSorted(after)
  {
    forall i: nat, j: nat, k: nat | j < k && ArcAt(after, i, j) && ArcAt(after, i, k)
      ensures exists s: nat, p: nat, q: nat :: p < q && ArcAt(g, s, p) && ArcAt(g, s, q)
                && SameMarks(after.arcs[i][j], g.arcs[s][p]) && SameMarks(after.arcs[i][k], g.arcs[s][q])
    {
      var p := ArcWas(after, g, newid, oldids, i, j);
      var q := ArcWas(after, g, newid, oldids, i, k);
      PlacesRise(g.arcs[oldids[i]], newid, j, k);
      assert SameMarks(after.arcs[i][j], g.arcs[oldids[i]][p]) && SameMarks(after.arcs[i][k], g.arcs[oldids[i]][q]);
    }
    hide Leaves, ArcAt;
  }

  lemma LeftTopSorted(after: Graph, g: Graph, newid: seq<Option<nat>>, oldids: seq<nat>)
    requires Leaves(after, g, newid, oldids)
    ensures TopSorted(g) ==> TopSorted(after)
  {
    if TopSorted(g) {
      forall i: nat, k: nat | ArcAt(after, i, k) ensures i < after.arcs[i][k].nextstate {
        var p := ArcWas(after, g, newid, oldids, i, k);
        assert oldids[i] < oldids[after.arcs[i][k].nextstate];
      }
    }
  }

  lemma ArcWasThere(after: Graph, g: Graph, newid: seq<Option<nat>>, oldids: seq<nat>, i: nat, t: nat)
    requires Leaves(after, g, newid, oldids) && HasArc(after, i, t)
    ensures i < |oldids| && t < |oldids| && HasArc(g, oldids[i], oldids[t])
  {
    var k: nat :| k < |after.arcs[i]| && after.arcs[i][k].nextstate == t;
    assert ArcAt(after, i, k);
    var p := ArcWas(after, g, newid, oldids, i, k);
  }

  lemma ReachedBefore(after: Graph, g: Graph, newid: seq<Option<nat>>, oldids: seq<nat>, i: nat, t: nat)
    requires Leaves(after, g, newid, oldids) && Reaches(after, i, t) && i < |oldids|
    ensures t < |oldids| && Reaches(g, oldids[i], oldids[t])
  {
    hide HasArc;
    var path :| Route(after, path, i, t);
    forall n | 0 <= n < |path| ensures path[n] < |oldids| {
      if n > 0 {
        assert HasArc(after, path[n - 1], path[n - 1 + 1]);
        ArcWasThere(after, g, newid, oldids, path[n - 1], path[n]);
      }
    }
    var was := seq(|path|, n requires 0 <= n < |path| => oldids[path[n]]);
    forall n | 0 <= n < |was| - 1 ensures HasArc(g, was[n], was[n + 1]) {
      ArcWasThere(after, g, newid, oldids, path[n], path[n + 1]);
    }
    assert Route(g, was, oldids[i], oldids[t]);
  }

  lemma LeftCycles(after: Graph, g: Graph, newid: seq<Option<nat>>, oldids: seq<nat>)
    requires Leaves(after, g, newid, oldids)
    ensures Cyclic(after) ==> Cyclic(g)
    ensures InitialCyclic(after) ==> InitialCyclic(g)
  {
    hide HasArc, Reaches;
    forall i: nat | OnCycle(after, i) ensures i < |oldids| && OnCycle(g, oldids[i]) {
      var t: nat :| HasArc(after, i, t) && Reaches(after, t, i);
      ArcWasThere(after, g, newid, oldids, i, t);
      ReachedBefore(after, g, newid, oldids, t, i);
    }
  }

  lemma LeftWeightedCycles(after: Graph, g: Graph, newid: seq<Option<nat>>, oldids: seq<nat>)
    requires Leaves(after, g, newid, oldids)
    ensures WeightedCycles(after) ==> WeightedCycles(g)
    ensures WeightedFinals(after) ==> WeightedFinals(g)
  {
    hide Reaches, IsTrivialWeight;
    if WeightedCycles(after) {
      var i: nat, k: nat :| ArcAt(after, i, k) && !IsTrivialWeight(after.arcs[i][k].weight) && Reaches(after, after.arcs[i][k].nextstate, i);
      var p := ArcWas(after, g, newid, oldids, i, k);
      ReachedBefore(after, g, newid, oldids, after.arcs[i][k].nextstate, i);
    }
  }

  /** Deletion leaves every fact that can only be lost by gaining something. */
  lemma StatesAreRemoved(after: Graph, g: Graph, newid: seq<Option<nat>>, oldids: seq<nat>)
    requires Leaves(after, g, newid, oldids)
    ensures ArcsRemoved(TruthOf(g), TruthOf(after))
  {
    hide Acceptor, HasEpsilons, HasInputEpsilons, HasOutputEpsilons, InputDeterministic, OutputDeterministic, InputSorted, OutputSorted,
         WeightedArcs, WeightedFinals, Cyclic, InitialCyclic, TopSorted, Accessible, CoAccessible, StringLike, WeightedCycles, Leaves;
    LeftLabels(after, g, newid, oldids);
    LeftOrder(after, g, newid, oldids);
    LeftTopSorted(after, g, newid, oldids);
    LeftCycles(after, g, newid, oldids);
    LeftWeightedCycles(after, g, newid, oldids);
  }
}
