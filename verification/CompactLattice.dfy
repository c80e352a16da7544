/** Moving a lattice's input labels into its weights: the same paths, saying the same
    words, at the same costs, each with the frames it spans in its weight. */
module CompactLattices {
  import Costs
  import opened LatticeWeights
  import opened CompactLatticeWeights

  const EPSILON: int := 0

  datatype Arc<W> = Arc(ilabel: int, olabel: int, weight: W, nextstate: nat)

  /** Arcs and final weights by state; a state that is not final has weight zero. */
  datatype Machine<W> = Machine(start: Costs.Option<nat>, arcs: seq<seq<Arc<W>>>, finals: seq<W>) {
    ghost predicate Valid() {
      |finals| == |arcs| && forall s, k | 0 <= s < |arcs| && 0 <= k < |arcs[s]| :: arcs[s][k].nextstate < |arcs|
    }
  }

  type Lattice = Machine<LatticeWeight>
  type CompactLattice = Machine<Compact>

  // -- Paths --------------------------------------------------------------------------------

  /** An arc taken: its state, and its place there. */
  datatype Taken = Taken(from: nat, index: nat)

  ghost predicate IsArc<W>(m: Machine<W>, taken: Taken) {
    taken.from < |m.arcs| && taken.index < |m.arcs[taken.from]|
  }

  ghost predicate IsPath<W>(m: Machine<W>, path: seq<Taken>, state: nat) {
    if |path| == 0 then m.start == Costs.Some(state)
    else
      var last := path[|path| - 1];
      IsArc(m, last) && m.arcs[last.from][last.index].nextstate == state && IsPath(m, path[..|path| - 1], last.from)
  }

  /** A label, unless it is epsilon. */
  function Said(symbol: int): Labels {
    if symbol == EPSILON then [] else [symbol]
  }

  ghost function Words<W>(m: Machine<W>, path: seq<Taken>, state: nat): Labels
    requires IsPath(m, path, state)
  {
    if |path| == 0 then []
    else
      var last := path[|path| - 1];
      Words(m, path[..|path| - 1], last.from) + Said(m.arcs[last.from][last.index].olabel)
  }

  /** The frames a path consumes, by their labels. */
  ghost function Frames<W>(m: Machine<W>, path: seq<Taken>, state: nat): Labels
    requires IsPath(m, path, state)
  {
    if |path| == 0 then []
    else
      var last := path[|path| - 1];
      Frames(m, path[..|path| - 1], last.from) + Said(m.arcs[last.from][last.index].ilabel)
  }

  ghost function WeightOf(lattice: Lattice, path: seq<Taken>, state: nat): LatticeWeight
    requires IsPath(lattice, path, state)
  {
    if |path| == 0 then ONE_WEIGHT
    else
      var last := path[|path| - 1];
      WeightOf(lattice, path[..|path| - 1], last.from).Times(lattice.arcs[last.from][last.index].weight)
  }

  ghost function CompactWeightOf(compact: CompactLattice, path: seq<Taken>, state: nat): Compact
    requires IsPath(compact, path, state)
  {
    if |path| == 0 then ONE
    else
      var last := path[|path| - 1];
      CompactWeightOf(compact, path[..|path| - 1], last.from).Times(compact.arcs[last.from][last.index].weight)
  }

  // -- The conversion -------------------------------------------------------------------------

  function CompactArc(arc: Arc<LatticeWeight>): Arc<Compact> {
    Arc(arc.olabel, arc.olabel, New(arc.weight, Said(arc.ilabel)), arc.nextstate)
  }

  function CompactFinal(weight: LatticeWeight): Compact {
    if weight.IsMember() && weight != ZERO_WEIGHT then New(weight, []) else ZERO
  }

  ghost predicate ArcsAre(arcs: seq<Arc<Compact>>, of: seq<Arc<LatticeWeight>>) {
    |arcs| == |of| && forall k | 0 <= k < |arcs| :: arcs[k] == CompactArc(of[k])
  }

  ghost predicate IsCompactOf(compact: CompactLattice, lattice: Lattice) {
    && compact.start == lattice.start && |compact.arcs| == |lattice.arcs| && |compact.finals| == |lattice.finals|
    && (forall s | 0 <= s < |lattice.arcs| :: ArcsAre(compact.arcs[s], lattice.arcs[s]))
    && (forall s | 0 <= s < |lattice.finals| :: compact.finals[s] == CompactFinal(lattice.finals[s]))
  }

  method ToCompact(lattice: Lattice) returns (compact: CompactLattice)
    requires lattice.Valid()
    ensures compact.Valid() && IsCompactOf(compact, lattice)
  {
    var arcs: seq<seq<Arc<Compact>>> := [];
    var finals: seq<Compact> := [];
    for s := 0 to |lattice.arcs|
      invariant |arcs| == |finals| == s
      invariant forall q | 0 <= q < s :: ArcsAre(arcs[q], lattice.arcs[q]) && finals[q] == CompactFinal(lattice.finals[q])
    {
      var final := ZERO;
      if lattice.finals[s].IsMember() && lattice.finals[s] != ZERO_WEIGHT {
        final := New(lattice.finals[s], []);
      }
      var here: seq<Arc<Compact>> := [];
      for k := 0 to |lattice.arcs[s]|
        invariant ArcsAre(here, lattice.arcs[s][..k])
      {
        var arc := lattice.arcs[s][k];
        var alignment: Labels := [];
        if arc.ilabel != EPSILON {
          alignment := alignment + [arc.ilabel];
        }
        assert alignment == Said(arc.ilabel);
        here := here + [Arc(arc.olabel, arc.olabel, New(arc.weight, alignment), arc.nextstate)];
      }
      assert lattice.arcs[s][..|lattice.arcs[s]|] == lattice.arcs[s];
      arcs, finals := arcs + [here], finals + [final];
    }
    compact := Machine(lattice.start, arcs, finals);
    forall s, k | 0 <= s < |compact.arcs| && 0 <= k < |compact.arcs[s]| ensures compact.arcs[s][k].nextstate < |compact.arcs| {
      assert ArcsAre(compact.arcs[s], lattice.arcs[s]);
    }
  }

  // -- What it keeps ----------------------------------------------------------------------------

  /** A cost and the frames it spans, or no weight where the cost is none. */
  function Joined(weight: LatticeWeight, frames: Labels): Compact {
    if weight.IsMember() then New(weight, frames) else NONE
  }

  lemma JoinedTimes(a: LatticeWeight, frames: Labels, b: LatticeWeight, more: Labels)
    ensures Joined(a, frames).Times(New(b, more)) == Joined(a.Times(b), frames + more)
  {
    if a.IsMember() && b.IsMember() {
      LatticeWeights.TimesLaws(a, b, a);
    }
  }

  /** The paths are the same, by the same arcs, saying the same words, which they now also
      read; and a path's weight is its lattice weight and its input labels. */
  lemma {:induction false} PathsAreKept(lattice: Lattice, compact: CompactLattice, path: seq<Taken>, state: nat)
    requires IsCompactOf(compact, lattice)
    ensures IsPath(compact, path, state) <==> IsPath(lattice, path, state)
    ensures IsPath(lattice, path, state) ==>
              && Words(compact, path, state) == Words(lattice, path, state) == Frames(compact, path, state)
              && CompactWeightOf(compact, path, state) == Joined(WeightOf(lattice, path, state), Frames(lattice, path, state))
    decreases |path|
  {
    hide Joined, LatticeWeight.Times, Compact.Times, Said, New;
    if |path| == 0 {
      EmptyPath();
    } else {
      var last := path[|path| - 1];
      var front := path[..|path| - 1];
      PathsAreKept(lattice, compact, front, last.from);
      if last.from < |lattice.arcs| {
        assert ArcsAre(compact.arcs[last.from], lattice.arcs[last.from]);
      }
      if IsPath(lattice, path, state) {
        var arc := lattice.arcs[last.from][last.index];
        JoinedTimes(WeightOf(lattice, front, last.from), Frames(lattice, front, last.from), arc.weight, Said(arc.ilabel));
      }
    }
  }

  lemma EmptyPath()
    ensures Joined(ONE_WEIGHT, []) == ONE
  {}

  /** Finishing a path: its final weight adds its costs and no frames. */
  lemma AcceptingIsKept(lattice: Lattice, compact: CompactLattice, path: seq<Taken>, state: nat)
    requires IsCompactOf(compact, lattice) && IsPath(lattice, path, state) && IsPath(compact, path, state)
    requires state < |lattice.finals| && lattice.finals[state].IsMember()
    ensures CompactWeightOf(compact, path, state).Times(compact.finals[state])
         == Joined(WeightOf(lattice, path, state).Times(lattice.finals[state]), Frames(lattice, path, state))
  {
    hide Joined, LatticeWeight.Times, Compact.Times, Said, LatticeWeight.IsMember;
    PathsAreKept(lattice, compact, path, state);
    JoinedTimes(WeightOf(lattice, path, state), Frames(lattice, path, state), lattice.finals[state], []);
    assert Frames(lattice, path, state) + [] == Frames(lattice, path, state);
  }
}
