/** Decoding to a lattice: the part of the composition that survived the beam, with
    every arc between two surviving states and the two costs of each kept apart. */
module Lattices {
  import opened Costs
  import opened DecodingGraphs
  import opened Frontiers
  import opened Beams
  import opened Viterbi

  datatype LatticeArc = LatticeArc(ilabel: int, olabel: int, graph: Cost, acoustic: Cost, nextstate: nat)

  /** The growing lattice: arcs by the state they leave, and the final graph cost
      of each state, infinite when it is not final. */
  datatype Lattice = Lattice(start: Option<nat>, arcs: seq<seq<LatticeArc>>, finals: seq<Cost>) {
    function AddState(): Lattice {
      this.(arcs := arcs + [[]], finals := finals + [Infinite])
    }

    function AddArc(from: nat, arc: LatticeArc): Lattice
      requires from < |arcs|
    {
      this.(arcs := arcs[from := arcs[from] + [arc]])
    }
  }

  // -- What a lattice stands for -------------------------------------------------------------

  /** A state of the composition: how many frames are behind it, and where. */
  datatype Pair = Pair(frames: nat, state: nat)

  /** An arc of the composition: the graph arc, and the frames behind its target. */
  datatype Origin = Origin(frames: nat, taken: Taken)

  function Source(g: Graph, o: Origin): Pair
    requires IsArc(g, o.taken)
  {
    Pair(FramesBefore(g, o.taken, o.frames), o.taken.from)
  }

  function Target(g: Graph, o: Origin): Pair
    requires IsArc(g, o.taken)
  {
    Pair(o.frames, ArcOf(g, o.taken).nextstate)
  }

  /** Which composition state each lattice state is, and which composition arc each
      lattice arc is. */
  datatype Ledger = Ledger(names: seq<Pair>, origins: seq<seq<Origin>>)

  ghost predicate Shape(lattice: Lattice, ledger: Ledger) {
    && |lattice.arcs| == |lattice.finals| == |ledger.names| == |ledger.origins|
    && forall q | 0 <= q < |lattice.arcs| :: |lattice.arcs[q]| == |ledger.origins[q]|
  }

  ghost predicate NoDuplicates<T>(s: seq<T>) {
    forall i, j | 0 <= i < j < |s| :: s[i] != s[j]
  }

  /** A lattice arc is its origin: same ends, same labels, same two costs. */
  ghost predicate ArcIs(g: Graph, d: Dense, names: seq<Pair>, q: nat, arc: LatticeArc, o: Origin)
    requires d.Valid() && q < |names|
  {
    && Fits(g, d, o.taken, o.frames)
    && names[q] == Source(g, o)
    && arc.nextstate < |names| && names[arc.nextstate] == Target(g, o)
    && arc.ilabel == ArcOf(g, o.taken).ilabel && arc.olabel == ArcOf(g, o.taken).olabel
    && arc.graph == ArcOf(g, o.taken).weight && arc.acoustic == Acoustic(g, d, o.taken, o.frames)
  }

  /** States are distinct composition states, arcs are distinct composition arcs
      between them, and nothing is past `frames`. */
  ghost predicate Faithful(g: Graph, d: Dense, lattice: Lattice, ledger: Ledger, frames: nat)
    requires d.Valid()
  {
    && Shape(lattice, ledger)
    && NoDuplicates(ledger.names)
    && (forall p | p in ledger.names :: p.frames <= frames)
    && (forall q, j | 0 <= q < |lattice.arcs| && 0 <= j < |lattice.arcs[q]| ::
          ArcIs(g, d, ledger.names, q, lattice.arcs[q][j], ledger.origins[q][j]))
    && (forall q | 0 <= q < |ledger.origins| :: NoDuplicates(ledger.origins[q]))
  }

  /** A composition arc between two states of the lattice. */
  ghost predicate Between(g: Graph, d: Dense, names: seq<Pair>, o: Origin) {
    Fits(g, d, o.taken, o.frames) && Source(g, o) in names && Target(g, o) in names
  }

  ghost predicate HasOrigin(origins: seq<seq<Origin>>, o: Origin) {
    exists q :: 0 <= q < |origins| && o in origins[q]
  }

  /** No composition arc between two lattice states is missing. */
  ghost predicate Full(g: Graph, d: Dense, ledger: Ledger) {
    forall o: Origin | Between(g, d, ledger.names, o) :: HasOrigin(ledger.origins, o)
  }

  /** A frontier's words name the lattice states of this frame, all of them. */
  ghost predicate Named(ledger: Ledger, frontier: Frontier, frames: nat) {
    && (forall s | s in frontier ::
          frontier[s].aux.Some? && frontier[s].aux.value < |ledger.names| && ledger.names[frontier[s].aux.value] == Pair(frames, s))
    && (forall p | p in ledger.names && p.frames == frames :: p.state in frontier)
  }

  // -- Reachability ------------------------------------------------------------------------------

  ghost predicate Reachable(g: Graph, d: Dense, p: Pair)
    requires g.Valid()
  {
    exists path :: Walk(g, d, path, p.frames, p.state)
  }

  /** A cost some path the beam drops nowhere has. */
  ghost predicate ReachedInside(g: Graph, d: Dense, opts: DecodeOptions, frames: nat, state: nat, cost: Cost)
    requires g.Valid() && d.Valid()
  {
    exists path :: IsInside(g, d, opts, path, frames, state) && WalkCost(g, d, path, frames, state) == cost
  }

  ghost predicate ReachedTried(g: Graph, d: Dense, opts: DecodeOptions, frames: nat, state: nat, cost: Cost)
    requires g.Valid() && d.Valid()
  {
    exists path :: IsTried(g, d, opts, path, frames, state) && WalkCost(g, d, path, frames, state) == cost
  }

  ghost predicate AllReached(g: Graph, d: Dense, opts: DecodeOptions, frontier: Frontier, frames: nat)
    requires g.Valid() && d.Valid()
  {
    forall s | s in frontier :: s < |g.arcs| && ReachedInside(g, d, opts, frames, s, frontier[s].cost)
  }

  ghost predicate AllReachedTried(g: Graph, d: Dense, opts: DecodeOptions, frontier: Frontier, frames: nat)
    requires g.Valid() && d.Valid()
  {
    forall s | s in frontier :: s < |g.arcs| && ReachedTried(g, d, opts, frames, s, frontier[s].cost)
  }

  lemma ReachedOn(g: Graph, d: Dense, opts: DecodeOptions, frames: nat, taken: Taken, cost: Cost, cutoff: Cost)
    requires g.Valid() && d.Valid() && IsArc(g, taken) && ArcOf(g, taken).ilabel == EPSILON
    requires ReachedInside(g, d, opts, frames, taken.from, cost)
    requires AllInside(g, d, opts, frames, cutoff) && cost.Plus(ArcOf(g, taken).weight).AtMost(cutoff)
    ensures ReachedInside(g, d, opts, frames, ArcOf(g, taken).nextstate, cost.Plus(ArcOf(g, taken).weight))
    ensures ArcOf(g, taken).nextstate < |g.arcs|
  {
    hide Inside, StaysInside;
    var path :| IsInside(g, d, opts, path, frames, taken.from) && WalkCost(g, d, path, frames, taken.from) == cost;
    EpsilonCosts(g, d, taken, frames, cost);
    InsideOn(g, d, opts, path, frames, taken);
    WalkOn(g, d, path, frames, taken);
  }

  lemma TriedReachedOn(g: Graph, d: Dense, opts: DecodeOptions, frames: nat, taken: Taken, cost: Cost)
    requires g.Valid() && d.Valid() && Fits(g, d, taken, frames) && ArcOf(g, taken).ilabel != EPSILON
    requires ReachedInside(g, d, opts, frames - 1, taken.from, cost)
    ensures ReachedTried(g, d, opts, frames, ArcOf(g, taken).nextstate, cost.Plus(ArcCost(g, d, taken, frames)))
    ensures ArcOf(g, taken).nextstate < |g.arcs|
  {
    hide Inside, StaysInside;
    var path :| IsInside(g, d, opts, path, frames - 1, taken.from) && WalkCost(g, d, path, frames - 1, taken.from) == cost;
    TriedOn(g, d, opts, path, frames, taken);
    WalkOn(g, d, path, frames, taken);
  }

  lemma ReachedIsReal(g: Graph, d: Dense, opts: DecodeOptions, frontier: Frontier, frames: nat)
    requires g.Valid() && d.Valid() && (AllReached(g, d, opts, frontier, frames) || AllReachedTried(g, d, opts, frontier, frames))
    ensures TokensAreReal(g, d, frontier, frames)
  {
    hide StaysInside, WalkCost;
    forall s | s in frontier ensures IsReal(g, d, frames, s, frontier[s].cost) {
      if ReachedInside(g, d, opts, frames, s, frontier[s].cost) {
        var path :| IsInside(g, d, opts, path, frames, s) && WalkCost(g, d, path, frames, s) == frontier[s].cost;
      } else {
        var path :| IsTried(g, d, opts, path, frames, s) && WalkCost(g, d, path, frames, s) == frontier[s].cost;
      }
    }
  }

  lemma PrunedIsReached(g: Graph, d: Dense, opts: DecodeOptions, frontier: Frontier, pruned: Frontier, cutoff: Cost, frames: nat)
    requires g.Valid() && d.Valid() && frames > 0
    requires AllReachedTried(g, d, opts, frontier, frames) && AllInside(g, d, opts, frames, cutoff)
    requires pruned == if cutoff.Finite? then Kept(frontier, cutoff) else frontier
    ensures AllReached(g, d, opts, pruned, frames)
  {
    hide StaysInside, Inside, WalkCost;
    forall s | s in pruned ensures ReachedInside(g, d, opts, frames, s, pruned[s].cost) {
      assert frontier[s].cost.AtMost(cutoff) && ReachedTried(g, d, opts, frames, s, frontier[s].cost);
      var path :| IsTried(g, d, opts, path, frames, s) && WalkCost(g, d, path, frames, s) == frontier[s].cost;
      TriedIsInside(g, d, opts, path, frames, s);
    }
  }

  // -- Epsilon arcs, to a fixed point ---------------------------------------------------------------

  method SettleEpsilonArcs(g: Graph, d: Dense, frontier: Frontier, queue: seq<nat>, state: nat, cutoff: Cost, ghost opts: DecodeOptions, ghost frames: nat, ghost w: nat -> nat)
    returns (after: Frontier, pushed: seq<nat>)
    requires g.Valid() && d.Valid() && state in frontier && AllReached(g, d, opts, frontier, frames)
    requires AllInside(g, d, opts, frames, cutoff)
    ensures AllReached(g, d, opts, after, frames)
    ensures state < |g.arcs| && Relaxed(g, frontier, after, queue, pushed, state, frontier[state].cost, |g.arcs[state]|, cutoff)
    ensures WeightOf(w, pushed) <= WeightOf(w, queue) + EpsilonsOut(g, w, state, |g.arcs[state]|)
  {
    hide Relaxed, ReachedInside, AllInside;
    var token := frontier[state];
    after, pushed := frontier, queue;
    RelaxedStart(g, frontier, queue, state, token.cost, cutoff);
    var k := 0;
    while k < |g.arcs[state]|
      invariant 0 <= k <= |g.arcs[state]| && AllReached(g, d, opts, after, frames)
      invariant ReachedInside(g, d, opts, frames, state, token.cost)
      invariant Relaxed(g, frontier, after, queue, pushed, state, token.cost, k, cutoff)
      invariant WeightOf(w, pushed) <= WeightOf(w, queue) + EpsilonsOut(g, w, state, k)
    {
      var arc := g.arcs[state][k];
      var cost := token.cost.Plus(arc.weight);
      RelaxedMore(g, frontier, after, queue, pushed, state, token.cost, k, cutoff, Token(cost, None));
      if arc.ilabel == EPSILON && !cutoff.Less(cost) {
        ReachedOn(g, d, opts, frames, Taken(state, k), token.cost, cutoff);
        var improved;
        after, improved := RelaxCost(after, arc.nextstate, cost, None);
        if improved {
          PushedWeight(w, pushed, arc.nextstate);
          pushed := pushed + [arc.nextstate];
        }
      }
      k := k + 1;
    }
  }

  method SettleEpsilons(g: Graph, d: Dense, frontier: Frontier, cutoff: Cost, ghost opts: DecodeOptions, ghost frames: nat) returns (settled: bool, after: Frontier)
    requires g.Valid() && d.Valid() && AllReached(g, d, opts, frontier, frames) && AllInside(g, d, opts, frames, cutoff)
    ensures AllReached(g, d, opts, after, frames)
    ensures Improves(after, frontier)
    ensures settled ==> AllSettled(g, after, cutoff)
    ensures FewEpsilonPaths(g) ==> settled
  {
    hide Settled, Relaxed, ReachedInside, AllInside, FewEpsilonPaths, BoundsPaths, WeightOf, EpsilonsOut;
    var queue := KeysInSomeOrder(frontier);
    QueueStart(g, frontier, queue, cutoff);
    ghost var w := PathBound(g);
    BoundedHere(g);
    if FewEpsilonPaths(g) {
      LightQueue(g, w, queue);
    }
    var budget := |frontier| * 64 + 1024;
    var steps := 0;
    after := frontier;
    while |queue| > 0
      invariant 0 <= steps <= budget && AllReached(g, d, opts, after, frames)
      invariant Improves(after, frontier) && Draining(g, after, queue, cutoff)
      invariant FewEpsilonPaths(g) ==> steps + WeightOf(w, queue) <= budget
      decreases budget - steps
    {
      var state := queue[|queue| - 1];
      ghost var waiting := queue;
      queue := queue[..|queue| - 1];
      steps := steps + 1;
      if steps > budget {
        if FewEpsilonPaths(g) {
          assert state in after;
          WaitingWeighs(g, w, waiting);
        }
        settled := false;
        return;
      }
      ghost var before := after;
      after, queue := SettleEpsilonArcs(g, d, after, queue, state, cutoff, opts, frames, w);
      if FewEpsilonPaths(g) {
        DrainedWeight(g, w, waiting, queue, state);
      }
      DrainOne(g, before, after, waiting, queue, state, cutoff);
      RelaxedImproves(g, before, after, waiting[..|waiting| - 1], queue, state, before[state].cost, cutoff);
      ImprovesTransitive(after, before, frontier);
    }
    settled := true;
  }

  /** Prunes, settles, and prunes again if the cap is exceeded: what is near stays, and
      nothing stays that the beam drops. */
  method SettleAndPrune(g: Graph, d: Dense, frontier: Frontier, opts: DecodeOptions, ghost frames: nat) returns (settled: bool, after: Frontier)
    requires g.Valid() && d.Valid() && frames > 0
    requires AllReachedTried(g, d, opts, frontier, frames) && AllTried(g, d, opts, frontier, frames)
    ensures AllReached(g, d, opts, after, frames)
    ensures settled ==> KeepsNear(g, d, opts, after, frontier, frames) && NearSettled(g, d, opts, after, frames) && Capped(after, opts)
    ensures FewEpsilonPaths(g) ==> settled
  {
    hide AllSettled, ReachedInside, ReachedTried, AllReachedTried, FewEpsilonPaths, AllTried, AllInside, Near, TokensAreReal, KeepsNear, NearUnder,
         NearSettled, Capped, CutoffOf;
    ReachedIsReal(g, d, opts, frontier, frames);
    var pruned, cutoff := Prune(frontier, opts);
    PrunedIsCutoff(frontier, pruned, opts, cutoff);
    NothingNearIsCut(g, d, opts, frontier, frames, cutoff);
    PrunedKeepsNear(g, d, opts, frontier, pruned, cutoff, frames);
    CutoffIsInside(g, d, opts, frontier, frames, cutoff);
    PrunedIsReached(g, d, opts, frontier, pruned, cutoff, frames);
    settled, after := SettleEpsilons(g, d, pruned, cutoff, opts, frames);
    if !settled {
      return;
    }
    ghost var mid := after;
    ReachedIsReal(g, d, opts, after, frames);
    if |after| > opts.maxActive {
      var tighter;
      after, tighter := Prune(after, opts);
      PrunedIsCutoff(mid, after, opts, tighter);
      NothingNearIsCut(g, d, opts, mid, frames, tighter);
      PrunedKeepsNear(g, d, opts, mid, after, tighter, frames);
      KeptIsCapped(mid, after, opts, tighter);
    } else {
      AllKeepsNear(g, d, opts, after, frames);
      FewAreCapped(after, opts);
    }
    SettledIsNear(g, d, opts, mid, after, cutoff, frames);
    ImprovedKeepsNear(g, d, opts, after, mid, pruned, frontier, frames);
  }

  // -- Emitting arcs, kept until it is known who survived ----------------------------------------------

  /** A graph arc that reached a state, kept whatever the relaxation decided. */
  datatype Pending = Pending(from: nat, to: nat, ilabel: int, olabel: int, graph: Cost, acoustic: Cost)

  ghost predicate PendingIs(g: Graph, d: Dense, names: seq<Pair>, p: Pending, taken: Taken, t: nat)
    requires d.Valid()
  {
    && Fits(g, d, taken, t + 1) && ArcOf(g, taken).ilabel != EPSILON
    && p.from < |names| && names[p.from] == Pair(t, taken.from) && p.to == ArcOf(g, taken).nextstate
    && p.ilabel == ArcOf(g, taken).ilabel && p.olabel == ArcOf(g, taken).olabel
    && p.graph == ArcOf(g, taken).weight && p.acoustic == Acoustic(g, d, taken, t + 1)
  }

  ghost predicate AllPending(g: Graph, d: Dense, names: seq<Pair>, pending: seq<Pending>, takens: seq<Taken>, t: nat)
    requires d.Valid()
  {
    && |takens| == |pending| && NoDuplicates(takens)
    && forall i | 0 <= i < |pending| :: PendingIs(g, d, names, pending[i], takens[i], t)
  }

  lemma PendingMore(g: Graph, d: Dense, names: seq<Pair>, pending: seq<Pending>, takens: seq<Taken>, t: nat, p: Pending, taken: Taken)
    requires d.Valid() && AllPending(g, d, names, pending, takens, t) && PendingIs(g, d, names, p, taken, t) && taken !in takens
    ensures AllPending(g, d, names, pending + [p], takens + [taken], t)
  {}

  method EmitPendingFrom(g: Graph, d: Dense, t: nat, state: nat, token: Token, next: Frontier, pending: seq<Pending>,
                         ghost opts: DecodeOptions, ghost names: seq<Pair>, ghost takens: seq<Taken>)
    returns (error: Option<Error>, after: Frontier, more: seq<Pending>, ghost more_takens: seq<Taken>)
    requires g.Valid() && d.Valid() && t < d.NumFrames() && state < |g.arcs| && ReachedInside(g, d, opts, t, state, token.cost)
    requires AllReachedTried(g, d, opts, next, t + 1) && AllPending(g, d, names, pending, takens, t)
    requires token.aux.Some? && token.aux.value < |names| && names[token.aux.value] == Pair(t, state)
    requires forall taken | taken in takens :: taken.from != state
    ensures error == None ==>
              && AllReachedTried(g, d, opts, after, t + 1) && AllPending(g, d, names, more, more_takens, t)
              && Improves(after, next) && Emitted(g, d, after, state, token.cost, |g.arcs[state]|, t + 1)
              && (forall taken | taken in takens :: taken in more_takens)
              && (forall taken | taken in more_takens :: taken in takens || taken.from == state)
              && (forall k: nat | k < |g.arcs[state]| && g.arcs[state][k].ilabel != EPSILON :: Taken(state, k) in more_takens)
    ensures error.Some? ==> NamesNoColumn(g, d, error.value)
  {
    hide ReachedInside, ReachedTried, Emitted, AllPending;
    error, after, more, more_takens := None, next, pending, takens;
    var frame := d.scores[t];
    EmittedStart(g, d, after, state, token.cost, t + 1);
    var k := 0;
    while k < |g.arcs[state]|
      invariant 0 <= k <= |g.arcs[state]| && AllReachedTried(g, d, opts, after, t + 1)
      invariant AllPending(g, d, names, more, more_takens, t)
      invariant Improves(after, next) && Emitted(g, d, after, state, token.cost, k, t + 1)
      invariant forall taken | taken in takens :: taken in more_takens
      invariant forall taken | taken in more_takens :: taken in takens || (taken.from == state && taken.index < k)
      invariant forall j: nat | j < k && g.arcs[state][j].ilabel != EPSILON :: Taken(state, j) in more_takens
    {
      var arc := g.arcs[state][k];
      ghost var taken := Taken(state, k);
      if arc.ilabel == EPSILON {
        EmittedMore(g, d, after, state, token.cost, k, t + 1);
      } else {
        var column := d.ColumnOf(arc.ilabel);
        if column.None? {
          error := Some(BadLabel(state, arc.ilabel));
          return;
        }
        var acoustic := frame[column.value];
        var cost := token.cost.Plus(arc.weight).Plus(acoustic);
        PlusAssociates(token.cost, arc.weight, acoustic);
        assert Fits(g, d, taken, t + 1) && FramesBefore(g, taken, t + 1) == t;
        TriedReachedOn(g, d, opts, t + 1, taken, token.cost);
        ghost var before := after;
        var improved;
        after, improved := RelaxCost(after, arc.nextstate, cost, None);
        assert Improves(after, before) && Covers(after, arc.nextstate, cost);
        ImprovesTransitive(after, before, next);
        EmittedStays(g, d, after, before, state, token.cost, k, t + 1);
        EmittedMore(g, d, after, state, token.cost, k, t + 1);
        var p := Pending(token.aux.value, arc.nextstate, arc.ilabel, arc.olabel, arc.weight, acoustic);
        PendingMore(g, d, names, more, more_takens, t, p, taken);
        more, more_takens := more + [p], more_takens + [taken];
      }
      k := k + 1;
    }
  }

  /** Every emitting arc out of a state already done is pending. */
  ghost predicate PendingDone(g: Graph, current: Frontier, takens: seq<Taken>, left: set<nat>) {
    forall s: nat, k: nat | s in current && s !in left && s < |g.arcs| && k < |g.arcs[s]| && g.arcs[s][k].ilabel != EPSILON ::
      Taken(s, k) in takens
  }

  method EmitPending(g: Graph, d: Dense, t: nat, current: Frontier, ghost opts: DecodeOptions, ghost ledger: Ledger)
    returns (error: Option<Error>, next: Frontier, pending: seq<Pending>, ghost takens: seq<Taken>)
    requires g.Valid() && d.Valid() && t < d.NumFrames()
    requires AllReached(g, d, opts, current, t) && Named(ledger, current, t)
    ensures error == None ==>
              && AllReachedTried(g, d, opts, next, t + 1) && AllEmitted(g, d, current, next, {}, t + 1)
              && AllPending(g, d, ledger.names, pending, takens, t) && PendingDone(g, current, takens, {})
    ensures error.Some? ==> NamesNoColumn(g, d, error.value)
  {
    hide ReachedInside, ReachedTried, Emitted, AllPending;
    error, next, pending, takens := None, map[], [], [];
    NothingPending(g, d, ledger.names, t);
    var left := current.Keys;
    while left != {}
      invariant left <= current.Keys && error == None
      invariant AllReachedTried(g, d, opts, next, t + 1) && AllEmitted(g, d, current, next, left, t + 1)
      invariant AllPending(g, d, ledger.names, pending, takens, t) && PendingDone(g, current, takens, left)
      invariant forall taken | taken in takens :: taken.from in current && taken.from !in left
      decreases |left|
    {
      var state :| state in left;
      left := left - {state};
      ghost var (before, were) := (next, takens);
      error, next, pending, takens := EmitPendingFrom(g, d, t, state, current[state], next, pending, opts, ledger.names, takens);
      if error.Some? {
        return;
      }
      forall s | s in current && s !in left
        ensures s < |g.arcs| && Emitted(g, d, next, s, current[s].cost, |g.arcs[s]|, t + 1)
      {
        if s != state {
          EmittedStays(g, d, next, before, s, current[s].cost, |g.arcs[s]|, t + 1);
        }
      }
    }
  }

  lemma NothingPending(g: Graph, d: Dense, names: seq<Pair>, t: nat)
    requires d.Valid()
    ensures AllPending(g, d, names, [], [], t)
  {}

  // -- Allocating states -----------------------------------------------------------------------------

  lemma AddStateFaithful(g: Graph, d: Dense, lattice: Lattice, ledger: Ledger, frames: nat, p: Pair)
    requires d.Valid() && Faithful(g, d, lattice, ledger, frames) && p !in ledger.names && p.frames <= frames
    ensures Faithful(g, d, lattice.AddState(), Ledger(ledger.names + [p], ledger.origins + [[]]), frames)
  {
    hide Fits, Acoustic;
    var grown := lattice.AddState();
    var names := ledger.names + [p];
    forall q, j | 0 <= q < |grown.arcs| && 0 <= j < |grown.arcs[q]|
      ensures ArcIs(g, d, names, q, grown.arcs[q][j], (ledger.origins + [[]])[q][j])
    {
      assert ArcIs(g, d, ledger.names, q, lattice.arcs[q][j], ledger.origins[q][j]);
    }
  }

  /** Every arc the lattice had, it still has. */
  ghost predicate KeepsOrigins(after: Ledger, before: Ledger) {
    && before.names <= after.names && |before.origins| <= |after.origins|
    && forall q | 0 <= q < |before.origins| :: before.origins[q] <= after.origins[q]
  }

  lemma KeepsTransitive(a: Ledger, b: Ledger, c: Ledger)
    requires KeepsOrigins(a, b) && KeepsOrigins(b, c)
    ensures KeepsOrigins(a, c)
  {
    forall q | 0 <= q < |c.origins| ensures c.origins[q] <= a.origins[q] {
      assert c.origins[q] <= b.origins[q] && b.origins[q] <= a.origins[q];
    }
  }

  lemma OriginKept(after: Ledger, before: Ledger, o: Origin)
    requires KeepsOrigins(after, before) && HasOrigin(before.origins, o)
    ensures HasOrigin(after.origins, o)
  {
    var q :| 0 <= q < |before.origins| && o in before.origins[q];
    assert before.origins[q] <= after.origins[q];
    assert o in after.origins[q];
  }

  ghost predicate SamePastNames(after: Ledger, before: Ledger, frames: nat) {
    forall p | p in after.names && p.frames < frames :: p in before.names
  }

  /** Every origin so far belongs to an earlier frame. */
  ghost predicate OriginsBefore(ledger: Ledger, frames: nat) {
    forall q, o | 0 <= q < |ledger.origins| && o in ledger.origins[q] :: o.frames < frames
  }

  /** What allocating does: only states of this frame are new, and they have neither
      arcs nor a final cost. */
  ghost predicate OnlyNewStates(after: Ledger, before: Ledger, grown: Lattice, lattice: Lattice, frames: nat) {
    && KeepsOrigins(after, before) && SamePastNames(after, before, frames)
    && (forall q | 0 <= q < |after.origins| :: after.origins[q] == if q < |before.origins| then before.origins[q] else [])
    && grown.start == lattice.start && |lattice.finals| <= |grown.finals|
    && (forall q | 0 <= q < |grown.finals| :: grown.finals[q] == if q < |lattice.finals| then lattice.finals[q] else Infinite)
  }

  /** The states of this frame already given a lattice state. */
  ghost predicate NamedSoFar(ledger: Ledger, named: Frontier, frontier: Frontier, left: set<nat>, frames: nat) {
    && named.Keys == frontier.Keys
    && (forall s | s in frontier :: named[s].cost == frontier[s].cost)
    && (forall s | s in frontier && s !in left ::
          named[s].aux.Some? && named[s].aux.value < |ledger.names| && ledger.names[named[s].aux.value] == Pair(frames, s))
    && (forall p | p in ledger.names && p.frames == frames :: p.state in frontier && p.state !in left)
  }

  lemma NameOne(ledger: Ledger, named: Frontier, frontier: Frontier, left: set<nat>, frames: nat, s: nat)
    requires NamedSoFar(ledger, named, frontier, left, frames) && s in left && s in frontier
    ensures Pair(frames, s) !in ledger.names
    ensures NamedSoFar(Ledger(ledger.names + [Pair(frames, s)], ledger.origins + [[]]),
                       named[s := named[s].(aux := Some(|ledger.names|))], frontier, left - {s}, frames)
  {}

  lemma AddedIsNew(after: Ledger, before: Ledger, grown: Lattice, lattice: Lattice, frames: nat, p: Pair)
    requires OnlyNewStates(after, before, grown, lattice, frames) && p.frames == frames
    requires |after.names| == |after.origins| && |before.names| == |before.origins|
    ensures OnlyNewStates(Ledger(after.names + [p], after.origins + [[]]), before, grown.AddState(), lattice, frames)
  {}

  /** Gives every state of the frontier a lattice state. */
  method Allocate(lattice: Lattice, frontier: Frontier, ghost g: Graph, ghost d: Dense, ghost ledger: Ledger, ghost frames: nat)
    returns (grown: Lattice, named: Frontier, ghost after: Ledger)
    requires d.Valid() && Faithful(g, d, lattice, ledger, frames)
    requires forall p | p in ledger.names :: p.frames < frames
    ensures Faithful(g, d, grown, after, frames) && Named(after, named, frames)
    ensures named.Keys == frontier.Keys && forall s | s in frontier :: named[s].cost == frontier[s].cost
    ensures OnlyNewStates(after, ledger, grown, lattice, frames)
  {
    grown, named, after := lattice, frontier, ledger;
    var left := frontier.Keys;
    ShapeOf(g, d, lattice, ledger, frames);
    hide Faithful, OnlyNewStates, NamedSoFar;
    NothingNew(ledger, lattice, frames);
    NobodyNamed(ledger, frontier, frames);
    while left != {}
      invariant left <= frontier.Keys && Shape(grown, after) && Faithful(g, d, grown, after, frames)
      invariant NamedSoFar(after, named, frontier, left, frames)
      invariant OnlyNewStates(after, ledger, grown, lattice, frames)
      decreases |left|
    {
      var s :| s in left;
      NameOne(after, named, frontier, left, frames, s);
      AddStateFaithful(g, d, grown, after, frames, Pair(frames, s));
      AddedIsNew(after, ledger, grown, lattice, frames, Pair(frames, s));
      KeysOf(after, named, frontier, left, frames);
      named := named[s := named[s].(aux := Some(|grown.arcs|))];
      grown := grown.AddState();
      after := Ledger(after.names + [Pair(frames, s)], after.origins + [[]]);
      left := left - {s};
    }
    AllNamed(after, named, frontier, frames);
  }

  lemma NothingNew(ledger: Ledger, lattice: Lattice, frames: nat)
    ensures OnlyNewStates(ledger, ledger, lattice, lattice, frames)
  {}

  lemma NobodyNamed(ledger: Ledger, frontier: Frontier, frames: nat)
    requires forall p | p in ledger.names :: p.frames < frames
    ensures NamedSoFar(ledger, frontier, frontier, frontier.Keys, frames)
  {}

  lemma KeysOf(ledger: Ledger, named: Frontier, frontier: Frontier, left: set<nat>, frames: nat)
    requires NamedSoFar(ledger, named, frontier, left, frames)
    ensures named.Keys == frontier.Keys
  {}

  lemma AllNamed(ledger: Ledger, named: Frontier, frontier: Frontier, frames: nat)
    requires NamedSoFar(ledger, named, frontier, {}, frames)
    ensures Named(ledger, named, frames)
    ensures named.Keys == frontier.Keys && forall s | s in frontier :: named[s].cost == frontier[s].cost
  {}

  // -- Adding arcs -------------------------------------------------------------------------------------

  function WithOrigin(ledger: Ledger, q: nat, o: Origin): Ledger
    requires q < |ledger.origins|
  {
    Ledger(ledger.names, ledger.origins[q := ledger.origins[q] + [o]])
  }

  lemma AddArcFaithful(g: Graph, d: Dense, lattice: Lattice, ledger: Ledger, frames: nat, q: nat, arc: LatticeArc, o: Origin)
    requires d.Valid() && Faithful(g, d, lattice, ledger, frames) && q < |lattice.arcs|
    requires ArcIs(g, d, ledger.names, q, arc, o) && o !in ledger.origins[q]
    ensures var after := WithOrigin(ledger, q, o);
            && Faithful(g, d, lattice.AddArc(q, arc), after, frames)
            && KeepsOrigins(after, ledger) && HasOrigin(after.origins, o) && after.names == ledger.names
            && (forall p | HasOrigin(after.origins, p) :: p == o || HasOrigin(ledger.origins, p))
  {
    hide ArcIs;
    var after := WithOrigin(ledger, q, o);
    var grown := lattice.AddArc(q, arc);
    assert after.origins[q] == ledger.origins[q] + [o];
    assert o in after.origins[q];
    forall k, j | 0 <= k < |grown.arcs| && 0 <= j < |grown.arcs[k]|
      ensures ArcIs(g, d, after.names, k, grown.arcs[k][j], after.origins[k][j])
    {
      if k == q && j == |lattice.arcs[q]| {
      } else {
        assert grown.arcs[k][j] == lattice.arcs[k][j] && after.origins[k][j] == ledger.origins[k][j];
      }
    }
    forall p | HasOrigin(after.origins, p) ensures p == o || HasOrigin(ledger.origins, p) {
      var k :| 0 <= k < |after.origins| && p in after.origins[k];
      if p != o {
        assert p in ledger.origins[k];
      }
    }
  }

  /** The part of the lattice building that neither starts nor ends anything. */
  ghost predicate SameEnds(after: Lattice, before: Lattice) {
    after.start == before.start && after.finals == before.finals
  }

  /** Adds an arc for every pending one whose target survived. */
  method LinkPending(lattice: Lattice, next: Frontier, pending: seq<Pending>,
                     ghost g: Graph, ghost d: Dense, ghost ledger: Ledger, ghost takens: seq<Taken>, ghost t: nat)
    returns (grown: Lattice, ghost after: Ledger)
    requires d.Valid() && Faithful(g, d, lattice, ledger, t + 1) && Named(ledger, next, t + 1)
    requires AllPending(g, d, ledger.names, pending, takens, t) && OriginsBefore(ledger, t + 1)
    ensures Faithful(g, d, grown, after, t + 1) && after.names == ledger.names && KeepsOrigins(after, ledger)
    ensures SameEnds(grown, lattice)
    ensures forall i | 0 <= i < |takens| && pending[i].to in next :: HasOrigin(after.origins, Origin(t + 1, takens[i]))
    ensures forall o | HasOrigin(after.origins, o) :: o.frames <= t || (o.frames == t + 1 && o.taken in takens)
  {
    hide Faithful, Fits, Acoustic;
    grown, after := lattice, ledger;
    SelfKept(ledger);
    EarlierOrigins(ledger, t);
    var i := 0;
    while i < |pending|
      invariant 0 <= i <= |pending| == |takens|
      invariant Faithful(g, d, grown, after, t + 1) && after.names == ledger.names && KeepsOrigins(after, ledger)
      invariant SameEnds(grown, lattice)
      invariant forall j | 0 <= j < i && pending[j].to in next :: HasOrigin(after.origins, Origin(t + 1, takens[j]))
      invariant forall o | HasOrigin(after.origins, o) :: o.frames <= t || (o.frames == t + 1 && o.taken in takens[..i])
    {
      var step := pending[i];
      assert PendingIs(g, d, ledger.names, step, takens[i], t);
      if step.to in next {
        var arc := LatticeArc(step.ilabel, step.olabel, step.graph, step.acoustic, next[step.to].aux.value);
        ghost var o := Origin(t + 1, takens[i]);
        PendingArc(g, d, after.names, arc, step, takens[i], t, next, ledger);
        NotYet(after, o, takens, i, t);
        ShapeOf(g, d, grown, after, t + 1);
        AddArcFaithful(g, d, grown, after, t + 1, step.from, arc, o);
        KeepsTransitive(WithOrigin(after, step.from, o), after, ledger);
        AllKept(WithOrigin(after, step.from, o), after);
        grown, after := grown.AddArc(step.from, arc), WithOrigin(after, step.from, o);
      }
      i := i + 1;
    }
  }

  lemma SelfKept(ledger: Ledger)
    ensures KeepsOrigins(ledger, ledger)
  {}

  lemma AllKept(after: Ledger, before: Ledger)
    requires KeepsOrigins(after, before)
    ensures forall o | HasOrigin(before.origins, o) :: HasOrigin(after.origins, o)
  {
    forall o | HasOrigin(before.origins, o) ensures HasOrigin(after.origins, o) {
      OriginKept(after, before, o);
    }
  }

  lemma EarlierOrigins(ledger: Ledger, t: nat)
    requires OriginsBefore(ledger, t + 1)
    ensures forall o | HasOrigin(ledger.origins, o) :: o.frames <= t
  {}

  lemma ShapeOf(g: Graph, d: Dense, lattice: Lattice, ledger: Ledger, frames: nat)
    requires d.Valid() && Faithful(g, d, lattice, ledger, frames)
    ensures Shape(lattice, ledger)
  {}

  lemma PendingArc(g: Graph, d: Dense, names: seq<Pair>, arc: LatticeArc, step: Pending, taken: Taken, t: nat, next: Frontier, ledger: Ledger)
    requires d.Valid() && PendingIs(g, d, names, step, taken, t) && names == ledger.names
    requires Named(ledger, next, t + 1) && step.to in next
    requires arc == LatticeArc(step.ilabel, step.olabel, step.graph, step.acoustic, next[step.to].aux.value)
    ensures ArcIs(g, d, names, step.from, arc, Origin(t + 1, taken))
  {}

  lemma FreshInPrefix<T>(s: seq<T>, i: nat)
    requires i < |s| && NoDuplicates(s)
    ensures s[i] !in s[..i]
  {}

  lemma NotYet(ledger: Ledger, o: Origin, takens: seq<Taken>, i: nat, t: nat)
    requires i < |takens| && NoDuplicates(takens) && o == Origin(t + 1, takens[i])
    requires forall p | HasOrigin(ledger.origins, p) :: p.frames <= t || (p.frames == t + 1 && p.taken in takens[..i])
    ensures !HasOrigin(ledger.origins, o)
    ensures forall q | 0 <= q < |ledger.origins| :: o !in ledger.origins[q]
  {
    FreshInPrefix(takens, i);
  }

  /** Adds a lattice arc for every epsilon arc between two states of the frontier. */
  method EmitEpsilons(g: Graph, lattice: Lattice, frontier: Frontier, ghost d: Dense, ghost ledger: Ledger, ghost frames: nat)
    returns (grown: Lattice, ghost after: Ledger)
    requires g.Valid() && d.Valid() && Faithful(g, d, lattice, ledger, frames) && Named(ledger, frontier, frames)
    requires forall s | s in frontier :: s < |g.arcs|
    requires forall o | HasOrigin(ledger.origins, o) && o.frames == frames :: IsArc(g, o.taken) && ArcOf(g, o.taken).ilabel != EPSILON
    ensures Faithful(g, d, grown, after, frames) && after.names == ledger.names && KeepsOrigins(after, ledger)
    ensures SameEnds(grown, lattice)
    ensures forall s: nat, k: nat | s in frontier && Silent(g, frontier, s, k) :: HasOrigin(after.origins, Origin(frames, Taken(s, k)))
    ensures forall o | HasOrigin(after.origins, o) :: HasOrigin(ledger.origins, o) || o.frames == frames
  {
    hide Faithful, ArcIs;
    grown, after := lattice, ledger;
    SelfKept(ledger);
    var left := frontier.Keys;
    while left != {}
      invariant left <= frontier.Keys
      invariant Faithful(g, d, grown, after, frames) && after.names == ledger.names && KeepsOrigins(after, ledger)
      invariant SameEnds(grown, lattice)
      invariant forall s: nat, k: nat | s in frontier && s !in left && Silent(g, frontier, s, k) ::
                  HasOrigin(after.origins, Origin(frames, Taken(s, k)))
      invariant forall o | HasOrigin(after.origins, o) ::
                  HasOrigin(ledger.origins, o) || (o.frames == frames && o.taken.from in frontier && o.taken.from !in left)
      decreases |left|
    {
      var s :| s in left;
      left := left - {s};
      ghost var before := after;
      grown, after := EmitEpsilonsFrom(g, grown, frontier, s, d, after, frames);
      KeepsTransitive(after, before, ledger);
      AllKept(after, before);
    }
  }

  /** An epsilon arc between two states of the frontier. */
  ghost predicate Silent(g: Graph, frontier: Frontier, s: nat, k: nat) {
    s < |g.arcs| && k < |g.arcs[s]| && g.arcs[s][k].ilabel == EPSILON && g.arcs[s][k].nextstate in frontier
  }

  method EmitEpsilonsFrom(g: Graph, lattice: Lattice, frontier: Frontier, s: nat, ghost d: Dense, ghost ledger: Ledger, ghost frames: nat)
    returns (grown: Lattice, ghost after: Ledger)
    requires g.Valid() && d.Valid() && Faithful(g, d, lattice, ledger, frames) && Named(ledger, frontier, frames)
    requires s in frontier && s < |g.arcs|
    requires forall k: nat | Silent(g, frontier, s, k) :: !HasOrigin(ledger.origins, Origin(frames, Taken(s, k)))
    ensures Faithful(g, d, grown, after, frames) && after.names == ledger.names && KeepsOrigins(after, ledger)
    ensures SameEnds(grown, lattice)
    ensures forall k: nat | Silent(g, frontier, s, k) :: HasOrigin(after.origins, Origin(frames, Taken(s, k)))
    ensures forall o | HasOrigin(after.origins, o) :: HasOrigin(ledger.origins, o) || (o.frames == frames && o.taken.from == s)
  {
    hide Faithful, ArcIs;
    grown, after := lattice, ledger;
    SelfKept(ledger);
    var token := frontier[s];
    var k := 0;
    while k < |g.arcs[s]|
      invariant 0 <= k <= |g.arcs[s]|
      invariant Faithful(g, d, grown, after, frames) && after.names == ledger.names && KeepsOrigins(after, ledger)
      invariant SameEnds(grown, lattice)
      invariant forall j: nat | j < k && Silent(g, frontier, s, j) :: HasOrigin(after.origins, Origin(frames, Taken(s, j)))
      invariant forall o | HasOrigin(after.origins, o) ::
                  HasOrigin(ledger.origins, o) || (o.frames == frames && o.taken.from == s && o.taken.index < k)
    {
      var arc := g.arcs[s][k];
      if arc.ilabel == EPSILON && arc.nextstate in frontier {
        var made := LatticeArc(arc.ilabel, arc.olabel, arc.weight, ZERO, frontier[arc.nextstate].aux.value);
        ghost var o := Origin(frames, Taken(s, k));
        SilentArc(g, d, after, frontier, s, k, frames, made);
        ShapeOf(g, d, grown, after, frames);
        Absent(after, o);
        AddArcFaithful(g, d, grown, after, frames, token.aux.value, made, o);
        KeepsTransitive(WithOrigin(after, token.aux.value, o), after, ledger);
        AllKept(WithOrigin(after, token.aux.value, o), after);
        grown, after := grown.AddArc(token.aux.value, made), WithOrigin(after, token.aux.value, o);
      }
      k := k + 1;
    }
  }

  lemma Absent(ledger: Ledger, o: Origin)
    requires !HasOrigin(ledger.origins, o)
    ensures forall q | 0 <= q < |ledger.origins| :: o !in ledger.origins[q]
  {}

  lemma SilentArc(g: Graph, d: Dense, ledger: Ledger, frontier: Frontier, s: nat, k: nat, frames: nat, made: LatticeArc)
    requires d.Valid() && Named(ledger, frontier, frames) && s in frontier && Silent(g, frontier, s, k)
    requires var arc := g.arcs[s][k];
             made == LatticeArc(arc.ilabel, arc.olabel, arc.weight, ZERO, frontier[arc.nextstate].aux.value)
    ensures ArcIs(g, d, ledger.names, frontier[s].aux.value, made, Origin(frames, Taken(s, k)))
  {}

  // -- One frame keeps the lattice whole -----------------------------------------------------------

  ghost predicate PairInside(g: Graph, d: Dense, opts: DecodeOptions, p: Pair)
    requires g.Valid() && d.Valid()
  {
    exists path :: IsInside(g, d, opts, path, p.frames, p.state)
  }

  /** Every lattice state is reached by a path the beam drops nowhere. */
  ghost predicate AllNamesReached(g: Graph, d: Dense, opts: DecodeOptions, ledger: Ledger)
    requires g.Valid() && d.Valid()
  {
    forall p | p in ledger.names :: p.state < |g.arcs| && PairInside(g, d, opts, p)
  }

  /** The lattice after `frames` frames: faithful to the composition, with no arc
      between its states missing. */
  ghost predicate Built(g: Graph, d: Dense, opts: DecodeOptions, lattice: Lattice, ledger: Ledger, current: Frontier, frames: nat)
    requires g.Valid() && d.Valid()
  {
    && Faithful(g, d, lattice, ledger, frames) && Full(g, d, ledger)
    && Named(ledger, current, frames) && AllReached(g, d, opts, current, frames) && AllNamesReached(g, d, opts, ledger)
    && OriginsBefore(ledger, frames + 1)
    && (forall q | 0 <= q < |lattice.finals| :: lattice.finals[q] == Infinite)
  }

  lemma PendingOutlives(g: Graph, d: Dense, names: seq<Pair>, more: seq<Pair>, pending: seq<Pending>, takens: seq<Taken>, t: nat)
    requires d.Valid() && AllPending(g, d, names, pending, takens, t) && names <= more
    ensures AllPending(g, d, more, pending, takens, t)
  {
    hide Fits, Acoustic;
    forall i | 0 <= i < |pending| ensures PendingIs(g, d, more, pending[i], takens[i], t) {
      assert PendingIs(g, d, names, pending[i], takens[i], t);
    }
  }

  lemma PendingEmits(g: Graph, d: Dense, names: seq<Pair>, pending: seq<Pending>, takens: seq<Taken>, t: nat, i: nat)
    requires d.Valid() && AllPending(g, d, names, pending, takens, t) && i < |takens|
    ensures IsArc(g, takens[i]) && ArcOf(g, takens[i]).ilabel != EPSILON && pending[i].to == ArcOf(g, takens[i]).nextstate
  {
    assert PendingIs(g, d, names, pending[i], takens[i], t);
  }

  // An arc into the new frame is an emitting one, and so was pending, or an epsilon
  // one, and so links two tokens of the frontier.
  lemma ArcIntoFrame(g: Graph, d: Dense, current: Frontier, next: Frontier, before: Ledger, named: Ledger, linked: Ledger, after: Ledger,
                     pending: seq<Pending>, takens: seq<Taken>, t: nat, o: Origin)
    requires d.Valid() && Named(before, current, t) && Named(named, next, t + 1) && SamePastNames(named, before, t + 1)
    requires AllPending(g, d, named.names, pending, takens, t) && PendingDone(g, current, takens, {})
    requires forall i | 0 <= i < |takens| && pending[i].to in next :: HasOrigin(linked.origins, Origin(t + 1, takens[i]))
    requires KeepsOrigins(after, linked)
    requires forall s: nat, k: nat | s in next && Silent(g, next, s, k) :: HasOrigin(after.origins, Origin(t + 1, Taken(s, k)))
    requires Between(g, d, named.names, o) && o.frames == t + 1
    ensures HasOrigin(after.origins, o)
  {
    hide Acoustic;
    var from, k := o.taken.from, o.taken.index;
    assert Target(g, o).state in next;
    if ArcOf(g, o.taken).ilabel == EPSILON {
      assert Source(g, o).state in next;
      assert Silent(g, next, from, k);
      assert HasOrigin(after.origins, Origin(t + 1, Taken(from, k)));
    } else {
      assert Source(g, o) in before.names;
      assert from in current && Taken(from, k) in takens;
      var i :| 0 <= i < |takens| && takens[i] == o.taken;
      PendingEmits(g, d, named.names, pending, takens, t, i);
      OriginKept(after, linked, o);
    }
  }

  lemma FrameIsFull(g: Graph, d: Dense, current: Frontier, next: Frontier, before: Ledger, named: Ledger, linked: Ledger, after: Ledger,
                    pending: seq<Pending>, takens: seq<Taken>, t: nat)
    requires g.Valid() && d.Valid() && Full(g, d, before) && Named(before, current, t) && Named(named, next, t + 1)
    requires SamePastNames(named, before, t + 1) && KeepsOrigins(named, before)
    requires forall p | p in named.names :: p.frames <= t + 1
    requires AllPending(g, d, named.names, pending, takens, t) && PendingDone(g, current, takens, {})
    requires forall i | 0 <= i < |takens| && pending[i].to in next :: HasOrigin(linked.origins, Origin(t + 1, takens[i]))
    requires KeepsOrigins(linked, named) && KeepsOrigins(after, linked) && after.names == named.names
    requires forall s: nat, k: nat | s in next && Silent(g, next, s, k) :: HasOrigin(after.origins, Origin(t + 1, Taken(s, k)))
    ensures Full(g, d, after)
  {
    hide AllPending, PendingDone, Named, Fits, KeepsOrigins;
    forall o: Origin | Between(g, d, after.names, o) ensures HasOrigin(after.origins, o) {
      if o.frames == t + 1 {
        ArcIntoFrame(g, d, current, next, before, named, linked, after, pending, takens, t, o);
      } else {
        assert Between(g, d, before.names, o);
        OriginKept(named, before, o);
        OriginKept(linked, named, o);
        OriginKept(after, linked, o);
      }
    }
  }

  lemma NewNamesReached(g: Graph, d: Dense, opts: DecodeOptions, before: Ledger, named: Ledger, next: Frontier, frames: nat)
    requires g.Valid() && d.Valid() && AllNamesReached(g, d, opts, before) && AllReached(g, d, opts, next, frames)
    requires SamePastNames(named, before, frames) && Named(named, next, frames)
    requires forall p | p in named.names :: p.frames <= frames
    ensures AllNamesReached(g, d, opts, named)
  {
    hide IsInside, WalkCost;
    forall p | p in named.names ensures p.state < |g.arcs| && PairInside(g, d, opts, p) {
      if p.frames == frames {
        assert p == Pair(frames, p.state) && p.state in next;
        assert ReachedInside(g, d, opts, frames, p.state, next[p.state].cost);
        var path :| IsInside(g, d, opts, path, frames, p.state);
        assert IsInside(g, d, opts, path, p.frames, p.state);
      }
    }
  }

  lemma AllocatedBefore(named: Ledger, before: Ledger, grown: Lattice, lattice: Lattice, frames: nat)
    requires OnlyNewStates(named, before, grown, lattice, frames) && OriginsBefore(before, frames)
    ensures OriginsBefore(named, frames)
  {}

  lemma AllOriginsBefore(ledger: Ledger, frames: nat)
    requires forall o | HasOrigin(ledger.origins, o) :: o.frames <= frames
    ensures OriginsBefore(ledger, frames + 1)
  {}

  lemma AllocatedKeeps(named: Ledger, before: Ledger, grown: Lattice, lattice: Lattice, frames: nat)
    requires OnlyNewStates(named, before, grown, lattice, frames)
    ensures KeepsOrigins(named, before) && SamePastNames(named, before, frames) && grown.start == lattice.start
    ensures (forall q | 0 <= q < |lattice.finals| :: lattice.finals[q] == Infinite) ==>
              forall q | 0 <= q < |grown.finals| :: grown.finals[q] == Infinite
  {}

  lemma NamesUpTo(g: Graph, d: Dense, lattice: Lattice, ledger: Ledger, frames: nat)
    requires d.Valid() && Faithful(g, d, lattice, ledger, frames)
    ensures forall p | p in ledger.names :: p.frames <= frames
  {}

  lemma LaterFrame(g: Graph, d: Dense, lattice: Lattice, ledger: Ledger, frames: nat)
    requires d.Valid() && Faithful(g, d, lattice, ledger, frames)
    ensures Faithful(g, d, lattice, ledger, frames + 1)
  {
    hide ArcIs;
  }

  lemma OnlySilentLater(g: Graph, d: Dense, named: Ledger, linked: Ledger, pending: seq<Pending>, takens: seq<Taken>, t: nat)
    requires d.Valid() && AllPending(g, d, named.names, pending, takens, t)
    requires forall o | HasOrigin(linked.origins, o) :: o.frames <= t || (o.frames == t + 1 && o.taken in takens)
    ensures forall o | HasOrigin(linked.origins, o) && o.frames == t + 1 :: IsArc(g, o.taken) && ArcOf(g, o.taken).ilabel != EPSILON
  {
    hide AllPending, HasOrigin;
    forall o | HasOrigin(linked.origins, o) && o.frames == t + 1
      ensures IsArc(g, o.taken) && ArcOf(g, o.taken).ilabel != EPSILON
    {
      var i :| 0 <= i < |takens| && takens[i] == o.taken;
      PendingEmits(g, d, named.names, pending, takens, t, i);
    }
  }

  /** Turns the tokens that survived a frame into states, and the arcs between them
      and the last frame's, and among them, into arcs. */
  method GrowFrame(g: Graph, lattice: Lattice, survivors: Frontier, pending: seq<Pending>, ghost d: Dense, ghost opts: DecodeOptions,
                   ghost current: Frontier, ghost ledger: Ledger, ghost takens: seq<Taken>, ghost t: nat)
    returns (grown: Lattice, next: Frontier, ghost after: Ledger)
    requires g.Valid() && d.Valid() && Built(g, d, opts, lattice, ledger, current, t)
    requires AllPending(g, d, ledger.names, pending, takens, t) && PendingDone(g, current, takens, {})
    requires AllReached(g, d, opts, survivors, t + 1)
    ensures Built(g, d, opts, grown, after, next, t + 1) && grown.start == lattice.start && ledger.names <= after.names
    ensures next.Keys == survivors.Keys && forall s | s in survivors :: next[s].cost == survivors[s].cost
  {
    hide Faithful, AllPending, PendingDone, Named, ReachedInside, OnlyNewStates, KeepsOrigins, SamePastNames, OriginsBefore, Full, AllNamesReached, Silent, HasOrigin;
    NamesUpTo(g, d, lattice, ledger, t);
    LaterFrame(g, d, lattice, ledger, t);
    ghost var named, linked;
    grown, next, named := Allocate(lattice, survivors, g, d, ledger, t + 1);
    AllocatedKeeps(named, ledger, grown, lattice, t + 1);
    AllocatedBefore(named, ledger, grown, lattice, t + 1);
    NamesUpTo(g, d, grown, named, t + 1);
    NamesGrow(named, ledger);
    PendingOutlives(g, d, ledger.names, named.names, pending, takens, t);
    grown, linked := LinkPending(grown, next, pending, g, d, named, takens, t);
    OnlySilentLater(g, d, named, linked, pending, takens, t);
    SameNames(linked, named, next, t + 1);
    grown, after := EmitEpsilons(g, grown, next, d, linked, t + 1);
    FrameIsFull(g, d, current, next, ledger, named, linked, after, pending, takens, t);
    NewNamesReached(g, d, opts, ledger, named, next, t + 1);
    SameNames(after, named, next, t + 1);
    SameNamesReached(g, d, opts, after, named);
    AllOriginsBefore(after, t + 1);
  }

  lemma NamesGrow(after: Ledger, before: Ledger)
    requires KeepsOrigins(after, before)
    ensures before.names <= after.names
  {}

  lemma SameNames(after: Ledger, before: Ledger, frontier: Frontier, frames: nat)
    requires after.names == before.names && Named(before, frontier, frames)
    ensures Named(after, frontier, frames)
  {}

  lemma SameNamesReached(g: Graph, d: Dense, opts: DecodeOptions, after: Ledger, before: Ledger)
    requires g.Valid() && d.Valid() && after.names == before.names && AllNamesReached(g, d, opts, before)
    ensures AllNamesReached(g, d, opts, after)
  {}

  // -- The decoder ------------------------------------------------------------------------------------

  /** Final costs sit on the states of the last frame, and are the graph's own. */
  ghost predicate Finals(g: Graph, d: Dense, lattice: Lattice, ledger: Ledger) {
    && |lattice.finals| == |ledger.names|
    && forall q | 0 <= q < |lattice.finals| ::
         && ledger.names[q].state < |g.finals|
         && lattice.finals[q] == if ledger.names[q].frames == d.NumFrames() then g.finals[ledger.names[q].state] else Infinite
  }

  ghost predicate Starts(g: Graph, lattice: Lattice, ledger: Ledger) {
    && g.start.Some? && lattice.start.Some? && lattice.start.value < |ledger.names|
    && ledger.names[lattice.start.value] == Pair(0, g.start.value)
  }

  /** What the decoder promises of a lattice, whatever the beam. */
  ghost predicate IsLattice(g: Graph, d: Dense, opts: DecodeOptions, lattice: Lattice, ledger: Ledger)
    requires g.Valid() && d.Valid()
  {
    && Faithful(g, d, lattice, ledger, d.NumFrames()) && Full(g, d, ledger) && AllNamesReached(g, d, opts, ledger)
    && Starts(g, lattice, ledger) && Finals(g, d, lattice, ledger)
    && exists q :: 0 <= q < |lattice.finals| && lattice.finals[q].Finite?
  }

  /** Every state of the composition up to `frames` frames is a lattice state. */
  ghost predicate NamesEverything(g: Graph, d: Dense, ledger: Ledger, frames: nat)
    requires g.Valid()
  {
    forall p: Pair | p.frames <= frames && Reachable(g, d, p) :: p in ledger.names
  }

  /** Every state a path reaches that stays near is a lattice state. */
  ghost predicate NamesNear(g: Graph, d: Dense, opts: DecodeOptions, ledger: Ledger, frames: nat)
    requires g.Valid() && d.Valid()
  {
    forall path, k: nat, s | k <= frames && Walk(g, d, path, k, s) && StaysNear(g, d, opts, path, k, s) :: Pair(k, s) in ledger.names
  }

  lemma DominatesNames(g: Graph, d: Dense, opts: DecodeOptions, ledger: Ledger, current: Frontier, frames: nat)
    requires g.Valid() && d.Valid() && Dominates(g, d, opts, current, frames) && Named(ledger, current, frames)
    requires frames > 0 ==> NamesNear(g, d, opts, ledger, frames - 1)
    ensures NamesNear(g, d, opts, ledger, frames)
  {
    hide StaysNear;
    forall path, k: nat, s | k <= frames && Walk(g, d, path, k, s) && StaysNear(g, d, opts, path, k, s)
      ensures Pair(k, s) in ledger.names
    {
      if k == frames {
        assert Covers(current, s, WalkCost(g, d, path, frames, s));
        assert ledger.names[current[s].aux.value] == Pair(k, s);
      }
    }
  }

  // With nothing to cut, that is every state there is.
  lemma NearNamesEverything(g: Graph, d: Dense, opts: DecodeOptions, ledger: Ledger, frames: nat)
    requires g.Valid() && d.Valid() && NamesNear(g, d, opts, ledger, frames)
    ensures Exhaustive(opts, g.NumStates()) ==> NamesEverything(g, d, ledger, frames)
  {
    hide StaysNear;
    if Exhaustive(opts, g.NumStates()) {
      forall p: Pair | p.frames <= frames && Reachable(g, d, p) ensures p in ledger.names {
        var path :| Walk(g, d, path, p.frames, p.state);
        EverythingStaysNear(g, d, opts, path, p.frames, p.state);
        assert Pair(p.frames, p.state) in ledger.names;
      }
    }
  }

  lemma SameKeysDominate(g: Graph, d: Dense, opts: DecodeOptions, named: Frontier, frontier: Frontier, frames: nat)
    requires g.Valid() && d.Valid() && Dominates(g, d, opts, frontier, frames)
    requires named.Keys == frontier.Keys && forall s | s in frontier :: named[s].cost == frontier[s].cost
    ensures Dominates(g, d, opts, named, frames)
  {
    hide Walk, WalkCost, StaysNear;
    forall path, s | Walk(g, d, path, frames, s) && StaysNear(g, d, opts, path, frames, s)
      ensures Covers(named, s, WalkCost(g, d, path, frames, s))
    {
      assert Covers(frontier, s, WalkCost(g, d, path, frames, s));
    }
  }

  lemma EmptyIsFaithful(g: Graph, d: Dense)
    requires g.Valid() && d.Valid()
    ensures Faithful(g, d, Lattice(None, [], []), Ledger([], []), 0)
  {}

  lemma StartIsReached(g: Graph, d: Dense, opts: DecodeOptions)
    requires g.Valid() && d.Valid() && g.start.Some?
    ensures AllReached(g, d, opts, map[g.start.value := Token(ZERO, None)], 0)
    ensures AllInside(g, d, opts, 0, Infinite)
  {
    assert IsInside(g, d, opts, [], 0, g.start.value) && WalkCost(g, d, [], 0, g.start.value) == ZERO;
  }

  // The states of frame 0, before their epsilon arcs are in.
  lemma StartIsFull(g: Graph, d: Dense, current: Frontier, named: Ledger, after: Ledger)
    requires d.Valid() && Named(named, current, 0) && (forall p | p in named.names :: p.frames <= 0) && after.names == named.names
    requires forall s: nat, k: nat | s in current && Silent(g, current, s, k) :: HasOrigin(after.origins, Origin(0, Taken(s, k)))
    ensures Full(g, d, after)
  {
    forall o: Origin | Between(g, d, after.names, o) ensures HasOrigin(after.origins, o) {
      var from, k := o.taken.from, o.taken.index;
      assert o.frames == 0 && Source(g, o).state in current && Target(g, o).state in current;
      assert Silent(g, current, from, k);
      assert HasOrigin(after.origins, Origin(0, Taken(from, k)));
    }
  }

  lemma NoOriginsYet(named: Ledger, grown: Lattice, lattice: Lattice, frames: nat)
    requires OnlyNewStates(named, Ledger([], []), grown, lattice, frames)
    ensures forall o :: !HasOrigin(named.origins, o)
  {}

  lemma NewStart(g: Graph, d: Dense, lattice: Lattice, ledger: Ledger, frames: nat, start: Option<nat>)
    requires d.Valid() && Faithful(g, d, lattice, ledger, frames)
    ensures Faithful(g, d, lattice.(start := start), ledger, frames)
  {
    hide ArcIs;
  }

  /** The states and arcs of frame 0, settled with no cutoff. */
  method StartLattice(g: Graph, ghost d: Dense, ghost opts: DecodeOptions, frontier: Frontier)
    returns (lattice: Lattice, current: Frontier, ghost ledger: Ledger)
    requires g.Valid() && d.Valid() && g.start.Some? && g.start.value in frontier && AllReached(g, d, opts, frontier, 0)
    ensures Built(g, d, opts, lattice, ledger, current, 0) && Starts(g, lattice, ledger)
    ensures current.Keys == frontier.Keys && forall s | s in frontier :: current[s].cost == frontier[s].cost
  {
    hide Faithful, ReachedInside, OnlyNewStates, KeepsOrigins, SamePastNames, OriginsBefore, Full, AllNamesReached, Silent, HasOrigin;
    EmptyIsFaithful(g, d);
    lattice := Lattice(None, [], []);
    ghost var named;
    lattice, current, named := Allocate(lattice, frontier, g, d, Ledger([], []), 0);
    AllocatedKeeps(named, Ledger([], []), lattice, Lattice(None, [], []), 0);
    NoOriginsYet(named, lattice, Lattice(None, [], []), 0);
    NewStart(g, d, lattice, named, 0, Some(current[g.start.value].aux.value));
    lattice := lattice.(start := Some(current[g.start.value].aux.value));
    NamesUpTo(g, d, lattice, named, 0);
    lattice, ledger := EmitEpsilons(g, lattice, current, d, named, 0);
    StartIsFull(g, d, current, named, ledger);
    NothingNamed(g, d, opts);
    OldNames(named);
    NewNamesReached(g, d, opts, Ledger([], []), named, current, 0);
    SameNames(ledger, named, current, 0);
    SameNamesReached(g, d, opts, ledger, named);
    AllOriginsBefore(ledger, 0);
  }

  lemma NothingNamed(g: Graph, d: Dense, opts: DecodeOptions)
    requires g.Valid() && d.Valid()
    ensures AllNamesReached(g, d, opts, Ledger([], []))
  {}

  lemma OldNames(named: Ledger)
    ensures SamePastNames(named, Ledger([], []), 0)
  {}

  lemma FinalSet(g: Graph, d: Dense, lattice: Lattice, finals: seq<Cost>, ledger: Ledger, frames: nat)
    requires d.Valid() && Faithful(g, d, lattice, ledger, frames) && |finals| == |lattice.finals|
    ensures Faithful(g, d, lattice.(finals := finals), ledger, frames)
  {
    hide ArcIs;
  }

  lemma NamesApart(g: Graph, d: Dense, lattice: Lattice, ledger: Ledger, frames: nat)
    requires d.Valid() && Faithful(g, d, lattice, ledger, frames)
    ensures NoDuplicates(ledger.names) && Shape(lattice, ledger)
  {}

  /** Which final costs are set once the states outside `left` are done. */
  ghost predicate FinalsSoFar(g: Graph, d: Dense, finals: seq<Cost>, ledger: Ledger, left: set<nat>)
  {
    && |finals| == |ledger.names|
    && forall q | 0 <= q < |finals| ::
         && ledger.names[q].state < |g.finals|
         && finals[q] == if ledger.names[q].frames == d.NumFrames() && ledger.names[q].state !in left
                         then g.finals[ledger.names[q].state] else Infinite
  }

  lemma NoFinalsYet(g: Graph, d: Dense, opts: DecodeOptions, lattice: Lattice, ledger: Ledger, current: Frontier)
    requires g.Valid() && d.Valid() && Built(g, d, opts, lattice, ledger, current, d.NumFrames())
    ensures FinalsSoFar(g, d, lattice.finals, ledger, current.Keys)
  {
    hide PairInside, ReachedInside, Full, ArcIs;
  }

  lemma FinalOne(g: Graph, d: Dense, finals: seq<Cost>, ledger: Ledger, left: set<nat>, current: Frontier, s: nat)
    requires NoDuplicates(ledger.names) && Named(ledger, current, d.NumFrames()) && s in current && s in left
    requires FinalsSoFar(g, d, finals, ledger, left)
    ensures s < |g.finals|
    ensures FinalsSoFar(g, d, finals[current[s].aux.value := g.finals[s]], ledger, left - {s})
  {
    var at := current[s].aux.value;
    assert ledger.names[at] == Pair(d.NumFrames(), s);
    forall q | 0 <= q < |finals| && q != at
      ensures !(ledger.names[q].frames == d.NumFrames() && ledger.names[q].state == s)
    {
      assert ledger.names[q] != ledger.names[at];
    }
  }

  /** Gives the states of the last frame the graph's final costs. */
  method SetFinals(g: Graph, lattice: Lattice, current: Frontier, ghost d: Dense, ghost opts: DecodeOptions, ghost ledger: Ledger)
    returns (done: Lattice, reached: bool)
    requires g.Valid() && d.Valid() && Built(g, d, opts, lattice, ledger, current, d.NumFrames())
    ensures Faithful(g, d, done, ledger, d.NumFrames()) && Finals(g, d, done, ledger) && done.start == lattice.start
    ensures reached <==> exists q :: 0 <= q < |done.finals| && done.finals[q].Finite?
    ensures !reached ==> forall s | s in current :: s < |g.finals| && g.finals[s].Infinite?
  {
    hide Faithful, AllReached, AllNamesReached, Full, OriginsBefore;
    done, reached := lattice, false;
    NoFinalsYet(g, d, opts, lattice, ledger, current);
    NamesApart(g, d, lattice, ledger, d.NumFrames());
    var left := current.Keys;
    while left != {}
      invariant left <= current.Keys && done.start == lattice.start && Shape(done, ledger)
      invariant Faithful(g, d, done, ledger, d.NumFrames()) && FinalsSoFar(g, d, done.finals, ledger, left)
      invariant !reached ==> forall s | s in current && s !in left :: s < |g.finals| && g.finals[s].Infinite?
      invariant reached ==> exists s :: s in current && s !in left && s < |g.finals| && g.finals[s].Finite?
      decreases |left|
    {
      var s :| s in left;
      ghost var before := left;
      left := left - {s};
      FinalOne(g, d, done.finals, ledger, before, current, s);
      if g.finals[s].Finite? {
        reached := true;
        FinalSet(g, d, done, done.finals[current[s].aux.value := g.finals[s]], ledger, d.NumFrames());
        done := done.(finals := done.finals[current[s].aux.value := g.finals[s]]);
      } else {
        NotFinal(g, d, done.finals, ledger, before, current, s);
      }
    }
    ReachedIsFinal(g, d, done.finals, ledger, current, reached);
  }

  lemma NotFinal(g: Graph, d: Dense, finals: seq<Cost>, ledger: Ledger, left: set<nat>, current: Frontier, s: nat)
    requires FinalsSoFar(g, d, finals, ledger, left) && Named(ledger, current, d.NumFrames()) && s in current && s in left
    requires s < |g.finals| && g.finals[s].Infinite?
    ensures FinalsSoFar(g, d, finals, ledger, left - {s})
  {}

  lemma ReachedIsFinal(g: Graph, d: Dense, finals: seq<Cost>, ledger: Ledger, current: Frontier, reached: bool)
    requires FinalsSoFar(g, d, finals, ledger, {}) && Named(ledger, current, d.NumFrames())
    requires !reached ==> forall s | s in current :: s < |g.finals| && g.finals[s].Infinite?
    requires reached ==> exists s :: s in current && s < |g.finals| && g.finals[s].Finite?
    ensures reached <==> exists q :: 0 <= q < |finals| && finals[q].Finite?
  {
    if reached {
      var s :| s in current && s < |g.finals| && g.finals[s].Finite?;
      assert finals[current[s].aux.value].Finite?;
    }
  }

  /** Decodes to a lattice. Whatever the beam, it is the part of the composition between
      the states that survived, each of them reached by a path the beam drops nowhere and
      every state among them that a path reaches which stays near; and there is one if
      such a path accepts. With everything kept those are all states, and no lattice
      means nothing accepts. */
  method LatticeDecode(g: Graph, d: Dense, opts: DecodeOptions) returns (r: Result<Option<Lattice>, Error>, ghost ledger: Ledger)
    requires g.Valid() && d.Valid()
    ensures r.Success? && r.value.Some? ==> IsLattice(g, d, opts, r.value.value, ledger) && NamesNear(g, d, opts, ledger, d.NumFrames())
    ensures r.Success? && r.value.None? ==> IsBestNear(g, d, opts, None)
    ensures r.Success? && r.value.Some? && Exhaustive(opts, g.NumStates()) ==> NamesEverything(g, d, ledger, d.NumFrames())
    ensures r.Success? && r.value.None? && Exhaustive(opts, g.NumStates()) ==> IsBest(g, d, None)
    ensures r.Failure? && r.error.BadLabel? ==> NamesNoColumn(g, d, r.error)
    ensures FewEpsilonPaths(g) ==> r != Failure(Unsettled)
  {
    hide Walk, Dominates, AllSettled, AllEmitted, Faithful, Full, Named, AllNamesReached, OriginsBefore, IsBest, IsBestNear,
         NamesNoColumn, AllPending, PendingDone, NamesEverything, NamesNear, Starts, Finals, FewEpsilonPaths,
         AllReached, AllReachedTried, AllTried, AllInside, KeepsNear, NearSettled, Capped;
    ledger := Ledger([], []);
    if g.start.None? {
      NoStart(g, d, opts);
      return Success(None), ledger;
    }
    StartIsReached(g, d, opts);
    var start: Frontier := map[g.start.value := Token(ZERO, None)];
    var settled, frontier := SettleEpsilons(g, d, start, Infinite, opts, 0);
    if !settled {
      return Failure(Unsettled), ledger;
    }
    StartStaysCovered(frontier, g.start.value);
    StartDominates(g, d, opts, frontier);
    var lattice, current;
    lattice, current, ledger := StartLattice(g, d, opts, frontier);
    SameKeysDominate(g, d, opts, current, frontier, 0);
    DominatesNames(g, d, opts, ledger, current, 0);
    var t := 0;
    while t < d.NumFrames()
      invariant t <= d.NumFrames()
      invariant Built(g, d, opts, lattice, ledger, current, t) && Starts(g, lattice, ledger)
      invariant Dominates(g, d, opts, current, t) && NamesNear(g, d, opts, ledger, t)
    {
      var error, next, pending;
      ghost var takens;
      error, next, pending, takens := EmitPending(g, d, t, current, opts, ledger);
      if error.Some? {
        LabelIsBad(g, d, error.value);
        return Failure(error.value), ledger;
      }
      if next == map[] {
        NothingKeepsNear(g, d, opts, t + 1);
        NextDominates(g, d, opts, current, map[], map[], t);
        NothingAccepts(g, d, opts, t + 1);
        BestNear(g, d, opts, None);
        return Success(None), ledger;
      }
      EmissionsAreTried(g, d, opts, current, next, t);
      var survivors;
      settled, survivors := SettleAndPrune(g, d, next, opts, t + 1);
      if !settled {
        return Failure(Unsettled), ledger;
      }
      ghost var (was, before) := (current, ledger);
      lattice, current, ledger := GrowFrame(g, lattice, survivors, pending, d, opts, was, before, takens, t);
      StaysStarted(g, lattice, ledger, before);
      NextDominates(g, d, opts, was, next, survivors, t);
      SameKeysDominate(g, d, opts, current, survivors, t + 1);
      NamesStay(g, d, opts, ledger, before, t);
      DominatesNames(g, d, opts, ledger, current, t + 1);
      t := t + 1;
    }
    var done, reached := SetFinals(g, lattice, current, d, opts, ledger);
    if !reached {
      NothingFinished(g, d, opts, current);
      BestNear(g, d, opts, None);
      return Success(None), ledger;
    }
    StaysStarted(g, done, ledger, ledger);
    NearNamesEverything(g, d, opts, ledger, d.NumFrames());
    return Success(Some(done)), ledger;
  }

  lemma StaysStarted(g: Graph, lattice: Lattice, after: Ledger, before: Ledger)
    requires before.names <= after.names
    ensures forall earlier: Lattice | Starts(g, earlier, before) && earlier.start == lattice.start :: Starts(g, lattice, after)
  {}

  lemma NamesStay(g: Graph, d: Dense, opts: DecodeOptions, after: Ledger, before: Ledger, frames: nat)
    requires g.Valid() && d.Valid() && NamesNear(g, d, opts, before, frames) && before.names <= after.names
    ensures NamesNear(g, d, opts, after, frames)
  {
    hide StaysNear;
  }
}
