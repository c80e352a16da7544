/** Frame-synchronous Viterbi beam search over a decoding graph: the best path of
    the graph against the acoustic matrix, one frame at a time. */
module Viterbi {
  import opened Costs
  import opened DecodingGraphs
  import opened FiniteSets
  import opened Frontiers
  import opened Beams

  datatype Error = BadLabel(state: nat, symbol: int) | Unsettled

  /** One step of a path, kept so the answer can be read back. */
  datatype Link = Link(prev: Option<nat>, olabel: int)

  /** The output labels along the best path, and its whole cost. */
  datatype Decoded = Decoded(labels: seq<int>, weight: Cost)

  // -- The arena of links ------------------------------------------------------------------

  /** Every link points further back. */
  ghost predicate Linked(links: seq<Link>) {
    forall i | 0 <= i < |links| :: links[i].prev.Some? ==> links[i].prev.value < i
  }

  ghost predicate InArena(links: seq<Link>, at: Option<nat>) {
    at.Some? ==> at.value < |links|
  }

  /** The labels from the start up to a link. */
  ghost function LabelsTo(links: seq<Link>, at: Option<nat>): seq<int>
    requires Linked(links) && InArena(links, at)
    decreases if at.Some? then at.value + 1 else 0
  {
    if at.None? then [] else LabelsTo(links, links[at.value].prev) + [links[at.value].olabel]
  }

  // The arena only grows, so what a link reads back never changes.
  lemma {:induction false} LabelsStay(links: seq<Link>, more: seq<Link>, at: Option<nat>)
    requires Linked(links) && Linked(links + more) && InArena(links, at)
    ensures LabelsTo(links + more, at) == LabelsTo(links, at)
    decreases if at.Some? then at.value + 1 else 0
  {
    if at.Some? {
      LabelsStay(links, more, links[at.value].prev);
    }
  }

  method TraceBack(links: seq<Link>, from: Option<nat>) returns (labels: seq<int>)
    requires Linked(links) && InArena(links, from)
    ensures labels == LabelsTo(links, from)
  {
    labels := [];
    var at := from;
    while at.Some?
      invariant InArena(links, at)
      invariant LabelsTo(links, from) == LabelsTo(links, at) + labels
      decreases if at.Some? then at.value + 1 else 0
    {
      labels := [links[at.value].olabel] + labels;
      at := links[at.value].prev;
    }
  }

  // -- What a frontier stands for ------------------------------------------------------------

  /** A token is a real path: `path` reaches the state at the token's cost, and the
      links read its labels back. */
  ghost predicate TokenIsPath(g: Graph, d: Dense, links: seq<Link>, token: Token, path: seq<Taken>, frames: nat, state: nat)
    requires g.Valid() && d.Valid() && Linked(links)
  {
    && Walk(g, d, path, frames, state)
    && WalkCost(g, d, path, frames, state) == token.cost
    && InArena(links, token.aux)
    && (forall k | 0 <= k < |path| :: IsArc(g, path[k]))
    && LabelsTo(links, token.aux) == Outputs(g, path)
  }

  ghost predicate Sound(g: Graph, d: Dense, links: seq<Link>, frontier: Frontier, paths: map<nat, seq<Taken>>, frames: nat)
    requires g.Valid() && d.Valid()
  {
    && Linked(links)
    && forall s | s in frontier :: s in paths && TokenIsPath(g, d, links, frontier[s], paths[s], frames, s)
  }

  /** No path after `frames` frames that stayed near beats its state's token. */
  ghost predicate Dominates(g: Graph, d: Dense, opts: DecodeOptions, frontier: Frontier, frames: nat)
    requires g.Valid() && d.Valid()
  {
    forall path, s | Walk(g, d, path, frames, s) && StaysNear(g, d, opts, path, frames, s) ::
      Covers(frontier, s, WalkCost(g, d, path, frames, s))
  }

  /** No token is that of a path the beam drops. */
  ghost predicate PathsInside(g: Graph, d: Dense, opts: DecodeOptions, frontier: Frontier, paths: map<nat, seq<Taken>>, frames: nat)
    requires g.Valid() && d.Valid()
  {
    forall s | s in frontier :: s in paths && IsInside(g, d, opts, paths[s], frames, s)
  }

  ghost predicate PathsTried(g: Graph, d: Dense, opts: DecodeOptions, frontier: Frontier, paths: map<nat, seq<Taken>>, frames: nat)
    requires g.Valid() && d.Valid()
  {
    forall s | s in frontier :: s in paths && IsTried(g, d, opts, paths[s], frames, s)
  }

  /** A frontier that covers everything another does. */
  ghost predicate Improves(after: Frontier, before: Frontier) {
    forall s | s in before :: Covers(after, s, before[s].cost)
  }

  lemma ImprovesTransitive(a: Frontier, b: Frontier, c: Frontier)
    requires Improves(a, b) && Improves(b, c)
    ensures Improves(a, c)
  {
    forall s | s in c ensures Covers(a, s, c[s].cost) {
      assert Covers(b, s, c[s].cost);
      assert Covers(a, s, b[s].cost);
    }
  }

  lemma CoversImproved(after: Frontier, before: Frontier, s: nat, cost: Cost)
    requires Improves(after, before) && Covers(before, s, cost)
    ensures Covers(after, s, cost)
  {
    assert Covers(after, s, before[s].cost);
  }

  // -- Relaxing one arc ------------------------------------------------------------------------

  /** Records `cost` at `state` if it beats what is already there. */
  method Relax(frontier: Frontier, links: seq<Link>, state: nat, cost: Cost, prevLink: Option<nat>, olabel: int)
    returns (after: Frontier, grown: seq<Link>, improved: bool)
    ensures improved <==> !Covers(frontier, state, cost)
    ensures !improved ==> after == frontier && grown == links
    ensures improved ==>
              && after == frontier[state := Token(cost, if olabel == EPSILON then prevLink else Some(|links|))]
              && grown == links + if olabel == EPSILON then [] else [Link(prevLink, olabel)]
  {
    if state in frontier && frontier[state].cost.AtMost(cost) {
      return frontier, links, false;
    }
    if olabel == EPSILON {
      grown := links;
      after := frontier[state := Token(cost, prevLink)];
    } else {
      grown := links + [Link(prevLink, olabel)];
      after := frontier[state := Token(cost, Some(|grown| - 1))];
    }
    improved := true;
  }

  lemma TokenStays(g: Graph, d: Dense, links: seq<Link>, more: seq<Link>, token: Token, path: seq<Taken>, frames: nat, state: nat)
    requires g.Valid() && d.Valid() && Linked(links) && Linked(links + more)
    requires TokenIsPath(g, d, links, token, path, frames, state)
    ensures TokenIsPath(g, d, links + more, token, path, frames, state)
  {
    LabelsStay(links, more, token.aux);
  }

  lemma TokenExtended(g: Graph, d: Dense, links: seq<Link>, token: Token, path: seq<Taken>, frames: nat, taken: Taken)
    requires g.Valid() && d.Valid() && Linked(links) && Fits(g, d, taken, frames)
    requires TokenIsPath(g, d, links, token, path, FramesBefore(g, taken, frames), taken.from)
    ensures var arc := ArcOf(g, taken);
            var more := if arc.olabel == EPSILON then [] else [Link(token.aux, arc.olabel)];
            var aux := if arc.olabel == EPSILON then token.aux else Some(|links|);
            && Linked(links + more)
            && TokenIsPath(g, d, links + more, Token(token.cost.Plus(ArcCost(g, d, taken, frames)), aux), path + [taken], frames, arc.nextstate)
  {
    var arc := ArcOf(g, taken);
    var more := if arc.olabel == EPSILON then [] else [Link(token.aux, arc.olabel)];
    WalkOn(g, d, path, frames, taken);
    OutputsOn(g, path, taken);
    LabelsStay(links, more, token.aux);
  }

  /** Relaxing along an arc keeps every token a real path. `path` is the one being
      extended: its token may already have been replaced. */
  lemma RelaxIsSound(g: Graph, d: Dense, links: seq<Link>, frontier: Frontier, paths: map<nat, seq<Taken>>, frames: nat,
                     token: Token, path: seq<Taken>, taken: Taken)
    requires g.Valid() && d.Valid() && Sound(g, d, links, frontier, paths, frames) && Fits(g, d, taken, frames)
    requires TokenIsPath(g, d, links, token, path, FramesBefore(g, taken, frames), taken.from)
    ensures var arc := ArcOf(g, taken);
            var more := if arc.olabel == EPSILON then [] else [Link(token.aux, arc.olabel)];
            var aux := if arc.olabel == EPSILON then token.aux else Some(|links|);
            Sound(g, d, links + more, frontier[arc.nextstate := Token(token.cost.Plus(ArcCost(g, d, taken, frames)), aux)],
                  paths[arc.nextstate := path + [taken]], frames)
  {
    hide TokenIsPath;
    var arc := ArcOf(g, taken);
    var more := if arc.olabel == EPSILON then [] else [Link(token.aux, arc.olabel)];
    TokenExtended(g, d, links, token, path, frames, taken);
    forall s | s in frontier && s != arc.nextstate
      ensures TokenIsPath(g, d, links + more, frontier[s], paths[s], frames, s)
    {
      TokenStays(g, d, links, more, frontier[s], paths[s], frames, s);
    }
  }

  // -- Epsilon arcs, to a fixed point ----------------------------------------------------------

  /** An epsilon arc out of a state of this cost has nothing left to improve. */
  ghost predicate ArcSettled(frontier: Frontier, cost: Cost, arc: Arc, cutoff: Cost) {
    arc.ilabel == EPSILON && !cutoff.Less(cost.Plus(arc.weight)) ==>
      Covers(frontier, arc.nextstate, cost.Plus(arc.weight))
  }

  ghost predicate Settled(g: Graph, frontier: Frontier, s: nat, cutoff: Cost) {
    s in frontier && s < |g.arcs| ==>
      forall k | 0 <= k < |g.arcs[s]| :: ArcSettled(frontier, frontier[s].cost, g.arcs[s][k], cutoff)
  }

  ghost predicate AllSettled(g: Graph, frontier: Frontier, cutoff: Cost) {
    forall s: nat :: Settled(g, frontier, s, cutoff)
  }

  lemma StaysSettled(g: Graph, after: Frontier, before: Frontier, s: nat, cost: Cost, k: nat, cutoff: Cost)
    requires s < |g.arcs| && k < |g.arcs[s]| && ArcSettled(before, cost, g.arcs[s][k], cutoff) && Improves(after, before)
    ensures ArcSettled(after, cost, g.arcs[s][k], cutoff)
  {
    var arc := g.arcs[s][k];
    if Covers(before, arc.nextstate, cost.Plus(arc.weight)) {
      CoversImproved(after, before, arc.nextstate, cost.Plus(arc.weight));
    }
  }

  /** What relaxing the epsilon arcs of one state does: only states pushed on the
      queue change, and every arc of the state is settled for the token it had. */
  ghost predicate Relaxed(g: Graph, before: Frontier, after: Frontier, queue: seq<nat>, grown: seq<nat>, state: nat, cost: Cost, arcs: nat, cutoff: Cost)
    requires state < |g.arcs| && arcs <= |g.arcs[state]|
  {
    && Improves(after, before)
    && (forall s | s in queue :: s in grown)
    && (forall s | s in grown :: s in queue || s in after)
    && (forall s | s in after :: s in grown || (s in before && after[s] == before[s]))
    && (forall k | 0 <= k < arcs :: ArcSettled(after, cost, g.arcs[state][k], cutoff))
  }

  lemma RelaxedMore(g: Graph, before: Frontier, mid: Frontier, queue: seq<nat>, grown: seq<nat>, state: nat, cost: Cost, k: nat, cutoff: Cost, token: Token)
    requires state < |g.arcs| && k < |g.arcs[state]| && Relaxed(g, before, mid, queue, grown, state, cost, k, cutoff)
    ensures var arc := g.arcs[state][k];
            var total := cost.Plus(arc.weight);
            && (ArcSettled(mid, cost, arc, cutoff) ==> Relaxed(g, before, mid, queue, grown, state, cost, k + 1, cutoff))
            && (token.cost == total && !Covers(mid, arc.nextstate, total) ==>
                  Relaxed(g, before, mid[arc.nextstate := token], queue, grown + [arc.nextstate], state, cost, k + 1, cutoff))
  {
    var arc := g.arcs[state][k];
    var total := cost.Plus(arc.weight);
    if token.cost == total && !Covers(mid, arc.nextstate, total) {
      var after := mid[arc.nextstate := token];
      assert Improves(after, mid);
      ImprovesTransitive(after, mid, before);
      forall j | 0 <= j < k + 1 ensures ArcSettled(after, cost, g.arcs[state][j], cutoff) {
        if j < k {
          StaysSettled(g, after, mid, state, cost, j, cutoff);
        }
      }
    }
  }

  method RelaxEpsilonArcs(g: Graph, d: Dense, frontier: Frontier, links: seq<Link>, queue: seq<nat>, state: nat, cutoff: Cost,
                          ghost opts: DecodeOptions, ghost frames: nat, ghost paths: map<nat, seq<Taken>>, ghost w: nat -> nat)
    returns (after: Frontier, grown: seq<Link>, pushed: seq<nat>, ghost after_paths: map<nat, seq<Taken>>)
    requires g.Valid() && d.Valid() && state in frontier && state < |g.arcs|
    requires Sound(g, d, links, frontier, paths, frames)
    requires PathsInside(g, d, opts, frontier, paths, frames) && AllInside(g, d, opts, frames, cutoff)
    ensures Sound(g, d, grown, after, after_paths, frames) && PathsInside(g, d, opts, after, after_paths, frames)
    ensures Relaxed(g, frontier, after, queue, pushed, state, frontier[state].cost, |g.arcs[state]|, cutoff)
    ensures WeightOf(w, pushed) <= WeightOf(w, queue) + EpsilonsOut(g, w, state, |g.arcs[state]|)
  {
    hide Walk, WalkCost, Outputs, LabelsTo, Relaxed, IsInside, AllInside;
    var token := frontier[state];
    ghost var path := paths[state];
    after, grown, pushed, after_paths := frontier, links, queue, paths;
    ghost var extra := [];
    RelaxedStart(g, frontier, queue, state, token.cost, cutoff);
    assert links + extra == links;
    var k := 0;
    while k < |g.arcs[state]|
      invariant 0 <= k <= |g.arcs[state]| && grown == links + extra
      invariant Sound(g, d, grown, after, after_paths, frames)
      invariant TokenIsPath(g, d, grown, token, path, frames, state)
      invariant PathsInside(g, d, opts, after, after_paths, frames) && IsInside(g, d, opts, path, frames, state)
      invariant Relaxed(g, frontier, after, queue, pushed, state, token.cost, k, cutoff)
      invariant WeightOf(w, pushed) <= WeightOf(w, queue) + EpsilonsOut(g, w, state, k)
    {
      var arc := g.arcs[state][k];
      var cost := token.cost.Plus(arc.weight);
      RelaxedMore(g, frontier, after, queue, pushed, state, token.cost, k, cutoff, Token(cost, if arc.olabel == EPSILON then token.aux else Some(|grown|)));
      if arc.ilabel == EPSILON && !cutoff.Less(cost) {
        ghost var taken := Taken(state, k);
        EpsilonCosts(g, d, taken, frames, token.cost);
        RelaxIsSound(g, d, grown, after, after_paths, frames, token, path, taken);
        TokenStaysInside(g, d, opts, grown, token, path, frames, taken, cutoff);
        ghost var was := grown;
        var improved;
        after, grown, improved := Relax(after, grown, arc.nextstate, cost, token.aux, arc.olabel);
        if improved {
          extra := extra + if arc.olabel == EPSILON then [] else [Link(token.aux, arc.olabel)];
          TokenStays(g, d, was, if arc.olabel == EPSILON then [] else [Link(token.aux, arc.olabel)], token, path, frames, state);
          after_paths := after_paths[arc.nextstate := path + [taken]];
          PushedWeight(w, pushed, arc.nextstate);
          pushed := pushed + [arc.nextstate];
        }
      }
      k := k + 1;
    }
  }

  lemma TokenStaysInside(g: Graph, d: Dense, opts: DecodeOptions, links: seq<Link>, token: Token, path: seq<Taken>, frames: nat, taken: Taken, cutoff: Cost)
    requires g.Valid() && d.Valid() && Linked(links) && Fits(g, d, taken, frames) && ArcOf(g, taken).ilabel == EPSILON
    requires TokenIsPath(g, d, links, token, path, frames, taken.from) && IsInside(g, d, opts, path, frames, taken.from)
    requires AllInside(g, d, opts, frames, cutoff) && token.cost.Plus(ArcCost(g, d, taken, frames)).AtMost(cutoff)
    ensures IsInside(g, d, opts, path + [taken], frames, ArcOf(g, taken).nextstate)
  {
    hide Inside;
    InsideOn(g, d, opts, path, frames, taken);
  }

  lemma RelaxedStart(g: Graph, frontier: Frontier, queue: seq<nat>, state: nat, cost: Cost, cutoff: Cost)
    requires state < |g.arcs|
    ensures Relaxed(g, frontier, frontier, queue, queue, state, cost, 0, cutoff)
  {}

  lemma EpsilonCosts(g: Graph, d: Dense, taken: Taken, frames: nat, cost: Cost)
    requires d.Valid() && IsArc(g, taken) && ArcOf(g, taken).ilabel == EPSILON
    ensures Fits(g, d, taken, frames) && FramesBefore(g, taken, frames) == frames
    ensures cost.Plus(ArcCost(g, d, taken, frames)) == cost.Plus(ArcOf(g, taken).weight)
  {}

  /** No arc of the graph is taken without consuming a frame. */
  ghost predicate EpsilonFree(g: Graph) {
    forall s, k | 0 <= s < |g.arcs| && 0 <= k < |g.arcs[s]| :: g.arcs[s][k].ilabel != EPSILON
  }

  /** What the first epsilon arcs of a state lead to, added up. */
  ghost function EpsilonsOut(g: Graph, w: nat -> nat, s: nat, k: nat): nat
    requires s < |g.arcs| && k <= |g.arcs[s]|
  {
    if k == 0 then 0
    else EpsilonsOut(g, w, s, k - 1) + if g.arcs[s][k - 1].ilabel == EPSILON then w(g.arcs[s][k - 1].nextstate) else 0
  }

  /** A bound on how many epsilon paths begin at each state, the empty one included, none of
      them above what the budget allows for each token. */
  ghost predicate BoundsPaths(g: Graph, w: nat -> nat) {
    forall s: nat | s < |g.arcs| :: 1 + EpsilonsOut(g, w, s, |g.arcs[s]|) <= w(s) <= 64
  }

  /** No more than 64 epsilon paths begin at any state. */
  ghost predicate FewEpsilonPaths(g: Graph) {
    exists w: nat -> nat :: BoundsPaths(g, w)
  }

  ghost function PathBound(g: Graph): nat -> nat {
    if w: nat -> nat :| BoundsPaths(g, w) then w else (s: nat) => 1
  }

  ghost function WeightOf(w: nat -> nat, queue: seq<nat>): nat {
    if |queue| == 0 then 0 else WeightOf(w, queue[..|queue| - 1]) + w(queue[|queue| - 1])
  }

  lemma PushedWeight(w: nat -> nat, queue: seq<nat>, state: nat)
    ensures WeightOf(w, queue + [state]) == WeightOf(w, queue) + w(state)
  {
    assert (queue + [state])[..|queue|] == queue;
  }

  lemma {:induction false} LightQueue(g: Graph, w: nat -> nat, queue: seq<nat>)
    requires BoundsPaths(g, w) && forall s | s in queue :: s < |g.arcs|
    ensures WeightOf(w, queue) <= 64 * |queue|
  {
    if |queue| > 0 {
      var front := queue[..|queue| - 1];
      assert queue[|queue| - 1] in queue;
      forall s | s in front ensures s in queue {}
      LightQueue(g, w, queue[..|queue| - 1]);
    }
  }

  // Draining one state costs a step, and what it pushes weighs that much less than it did.
  lemma DrainedWeight(g: Graph, w: nat -> nat, queue: seq<nat>, pushed: seq<nat>, state: nat)
    requires BoundsPaths(g, w) && |queue| > 0 && state == queue[|queue| - 1] && state < |g.arcs|
    requires WeightOf(w, pushed) <= WeightOf(w, queue[..|queue| - 1]) + EpsilonsOut(g, w, state, |g.arcs[state]|)
    ensures 1 + WeightOf(w, pushed) <= WeightOf(w, queue)
  {}

  lemma WaitingWeighs(g: Graph, w: nat -> nat, queue: seq<nat>)
    requires BoundsPaths(g, w) && |queue| > 0 && queue[|queue| - 1] < |g.arcs|
    ensures WeightOf(w, queue) >= 1
  {}

  lemma {:induction false} NoEpsilonsOut(g: Graph, s: nat, k: nat)
    requires EpsilonFree(g) && s < |g.arcs| && k <= |g.arcs[s]|
    ensures EpsilonsOut(g, (q: nat) => 1, s, k) == 0
  {
    if k > 0 {
      NoEpsilonsOut(g, s, k - 1);
    }
  }

  lemma EpsilonFreeIsFew(g: Graph)
    requires EpsilonFree(g)
    ensures FewEpsilonPaths(g)
  {
    var w: nat -> nat := (q: nat) => 1;
    forall s: nat | s < |g.arcs| ensures 1 + EpsilonsOut(g, w, s, |g.arcs[s]|) <= w(s) <= 64 {
      NoEpsilonsOut(g, s, |g.arcs[s]|);
    }
    assert BoundsPaths(g, w);
  }

  /** Everything not waiting in the queue is settled, and the queue waits on states
      that are there. */
  ghost predicate Draining(g: Graph, frontier: Frontier, queue: seq<nat>, cutoff: Cost) {
    && (forall s | s in queue :: s in frontier)
    && (forall s: nat | s !in queue :: Settled(g, frontier, s, cutoff))
  }

  lemma DrainOne(g: Graph, before: Frontier, after: Frontier, queue: seq<nat>, pushed: seq<nat>, state: nat, cutoff: Cost)
    requires |queue| > 0 && state == queue[|queue| - 1] && state in before && state < |g.arcs|
    requires Draining(g, before, queue, cutoff)
    requires Relaxed(g, before, after, queue[..|queue| - 1], pushed, state, before[state].cost, |g.arcs[state]|, cutoff)
    ensures Draining(g, after, pushed, cutoff)
  {
    var rest := queue[..|queue| - 1];
    forall s | s in pushed ensures s in after {
      if s in rest {
        assert s in queue;
        assert Covers(after, s, before[s].cost);
      }
    }
    forall s: nat | s !in pushed ensures Settled(g, after, s, cutoff) {
      if s in after && s < |g.arcs| && s != state {
        assert s !in queue;
        forall k | 0 <= k < |g.arcs[s]| ensures ArcSettled(after, after[s].cost, g.arcs[s][k], cutoff) {
          assert ArcSettled(before, before[s].cost, g.arcs[s][k], cutoff);
          StaysSettled(g, after, before, s, before[s].cost, k, cutoff);
        }
      }
    }
  }

  /** Relaxes the epsilon arcs until nothing improves, or gives up when the budget
      runs out. */
  method RelaxEpsilons(g: Graph, d: Dense, frontier: Frontier, links: seq<Link>, cutoff: Cost,
                       ghost opts: DecodeOptions, ghost frames: nat, ghost paths: map<nat, seq<Taken>>)
    returns (settled: bool, after: Frontier, grown: seq<Link>, ghost after_paths: map<nat, seq<Taken>>)
    requires g.Valid() && d.Valid() && Sound(g, d, links, frontier, paths, frames)
    requires PathsInside(g, d, opts, frontier, paths, frames) && AllInside(g, d, opts, frames, cutoff)
    ensures Sound(g, d, grown, after, after_paths, frames) && PathsInside(g, d, opts, after, after_paths, frames)
    ensures Improves(after, frontier)
    ensures settled ==> AllSettled(g, after, cutoff)
    ensures FewEpsilonPaths(g) ==> settled
  {
    hide Walk, WalkCost, TokenIsPath, Settled, Relaxed, FewEpsilonPaths, PathsInside, AllInside, BoundsPaths, WeightOf, EpsilonsOut;
    var queue := KeysInSomeOrder(frontier);
    QueueStart(g, frontier, queue, cutoff);
    ghost var w := PathBound(g);
    StartWeight(g, d, links, frontier, paths, frames, queue);
    var budget := |frontier| * 64 + 1024;
    var steps := 0;
    after, grown, after_paths := frontier, links, paths;
    while |queue| > 0
      invariant 0 <= steps <= budget
      invariant Sound(g, d, grown, after, after_paths, frames) && PathsInside(g, d, opts, after, after_paths, frames)
      invariant Improves(after, frontier) && Draining(g, after, queue, cutoff)
      invariant FewEpsilonPaths(g) ==> steps + WeightOf(w, queue) <= budget
      decreases budget - steps
    {
      var state := queue[|queue| - 1];
      ghost var waiting := queue;
      queue := queue[..|queue| - 1];
      steps := steps + 1;
      StatesExist(g, d, grown, after, after_paths, frames, state);
      BoundedHere(g);
      if steps > budget {
        if FewEpsilonPaths(g) {
          WaitingWeighs(g, w, waiting);
        }
        settled := false;
        return;
      }
      ghost var before := after;
      after, grown, queue, after_paths := RelaxEpsilonArcs(g, d, after, grown, queue, state, cutoff, opts, frames, after_paths, w);
      if FewEpsilonPaths(g) {
        DrainedWeight(g, w, waiting, queue, state);
      }
      DrainOne(g, before, after, waiting, queue, state, cutoff);
      RelaxedImproves(g, before, after, waiting[..|waiting| - 1], queue, state, before[state].cost, cutoff);
      ImprovesTransitive(after, before, frontier);
    }
    settled := true;
  }

  lemma BoundedHere(g: Graph)
    ensures FewEpsilonPaths(g) ==> BoundsPaths(g, PathBound(g))
  {}

  lemma StartWeight(g: Graph, d: Dense, links: seq<Link>, frontier: Frontier, paths: map<nat, seq<Taken>>, frames: nat, queue: seq<nat>)
    requires g.Valid() && d.Valid() && Sound(g, d, links, frontier, paths, frames)
    requires |queue| == |frontier| && forall s | s in queue :: s in frontier
    ensures FewEpsilonPaths(g) ==> WeightOf(PathBound(g), queue) <= 64 * |frontier|
  {
    hide TokenIsPath, BoundsPaths;
    SoundStatesExist(g, d, links, frontier, paths, frames);
    BoundedHere(g);
    if FewEpsilonPaths(g) {
      LightQueue(g, PathBound(g), queue);
    }
  }

  lemma QueueStart(g: Graph, frontier: Frontier, queue: seq<nat>, cutoff: Cost)
    requires forall s :: s in queue <==> s in frontier
    ensures Draining(g, frontier, queue, cutoff)
  {}

  lemma RelaxedImproves(g: Graph, before: Frontier, after: Frontier, queue: seq<nat>, pushed: seq<nat>, state: nat, cost: Cost, cutoff: Cost)
    requires state < |g.arcs| && Relaxed(g, before, after, queue, pushed, state, cost, |g.arcs[state]|, cutoff)
    ensures Improves(after, before)
  {}

  lemma StatesExist(g: Graph, d: Dense, links: seq<Link>, frontier: Frontier, paths: map<nat, seq<Taken>>, frames: nat, state: nat)
    requires g.Valid() && d.Valid() && Sound(g, d, links, frontier, paths, frames) && state in frontier
    ensures state < |g.arcs|
  {
    WalkArcs(g, d, paths[state], frames, state);
  }

  /** A map's keys, in whatever order it yields them. */
  method KeysInSomeOrder(frontier: Frontier) returns (keys: seq<nat>)
    ensures forall s :: s in keys <==> s in frontier
    ensures |keys| == |frontier|
  {
    keys := [];
    var left := frontier.Keys;
    while left != {}
      invariant left <= frontier.Keys
      invariant forall s :: s in keys <==> s in frontier && s !in left
      invariant |keys| + |left| == |frontier.Keys|
      decreases |left|
    {
      var s :| s in left;
      keys, left := keys + [s], left - {s};
    }
  }

  // -- Emitting arcs, one frame -------------------------------------------------------------------

  /** Every emitting arc out of a state of this cost is matched by a token of the
      next frame. */
  ghost predicate Emitted(g: Graph, d: Dense, next: Frontier, state: nat, cost: Cost, arcs: nat, frames: nat)
    requires d.Valid() && state < |g.arcs| && arcs <= |g.arcs[state]| && 0 < frames <= d.NumFrames()
  {
    forall k: nat | k < arcs && g.arcs[state][k].ilabel != EPSILON :: EmittedArc(g, d, next, Taken(state, k), cost, frames)
  }

  ghost predicate EmittedArc(g: Graph, d: Dense, next: Frontier, taken: Taken, cost: Cost, frames: nat)
    requires d.Valid() && IsArc(g, taken) && 0 < frames <= d.NumFrames()
  {
    && Fits(g, d, taken, frames)
    && Covers(next, ArcOf(g, taken).nextstate, cost.Plus(ArcCost(g, d, taken, frames)))
  }

  lemma EmittedStays(g: Graph, d: Dense, after: Frontier, before: Frontier, state: nat, cost: Cost, arcs: nat, frames: nat)
    requires d.Valid() && state < |g.arcs| && arcs <= |g.arcs[state]| && 0 < frames <= d.NumFrames()
    requires Improves(after, before) && Emitted(g, d, before, state, cost, arcs, frames)
    ensures Emitted(g, d, after, state, cost, arcs, frames)
  {
    forall k: nat | k < arcs && g.arcs[state][k].ilabel != EPSILON
      ensures EmittedArc(g, d, after, Taken(state, k), cost, frames)
    {
      var taken := Taken(state, k);
      assert EmittedArc(g, d, before, taken, cost, frames);
      CoversImproved(after, before, ArcOf(g, taken).nextstate, cost.Plus(ArcCost(g, d, taken, frames)));
    }
  }

  method EmitFrom(g: Graph, d: Dense, t: nat, state: nat, token: Token, next: Frontier, links: seq<Link>,
                  ghost opts: DecodeOptions, ghost path: seq<Taken>, ghost paths: map<nat, seq<Taken>>)
    returns (error: Option<Error>, after: Frontier, grown: seq<Link>, ghost more: seq<Link>, ghost after_paths: map<nat, seq<Taken>>)
    requires g.Valid() && d.Valid() && t < d.NumFrames() && state < |g.arcs|
    requires Sound(g, d, links, next, paths, t + 1) && TokenIsPath(g, d, links, token, path, t, state)
    requires PathsTried(g, d, opts, next, paths, t + 1) && IsInside(g, d, opts, path, t, state)
    ensures error == None ==>
              && Sound(g, d, grown, after, after_paths, t + 1) && grown == links + more
              && PathsTried(g, d, opts, after, after_paths, t + 1)
              && Improves(after, next)
              && Emitted(g, d, after, state, token.cost, |g.arcs[state]|, t + 1)
    ensures error.Some? ==> NamesNoColumn(g, d, error.value)
  {
    hide Walk, WalkCost, Outputs, LabelsTo, Emitted, IsInside, IsTried;
    error, after, grown, after_paths, more := None, next, links, paths, [];
    var frame := d.scores[t];
    assert links + more == links;
    EmittedStart(g, d, after, state, token.cost, t + 1);
    var k := 0;
    while k < |g.arcs[state]|
      invariant 0 <= k <= |g.arcs[state]| && grown == links + more
      invariant Sound(g, d, grown, after, after_paths, t + 1) && TokenIsPath(g, d, grown, token, path, t, state)
      invariant PathsTried(g, d, opts, after, after_paths, t + 1)
      invariant Improves(after, next) && Emitted(g, d, after, state, token.cost, k, t + 1)
    {
      var arc := g.arcs[state][k];
      ghost var taken := Taken(state, k);
      if arc.ilabel == EPSILON {
        EmittedMore(g, d, after, state, token.cost, k, t + 1);
      } else {
        var column := d.ColumnOf(arc.ilabel);
        if column.None? {
          error := Some(BadLabel(state, arc.ilabel));
          return;
        }
        var cost := token.cost.Plus(arc.weight).Plus(frame[column.value]);
        PlusAssociates(token.cost, arc.weight, frame[column.value]);
        assert Fits(g, d, taken, t + 1) && FramesBefore(g, taken, t + 1) == t;
        RelaxIsSound(g, d, grown, after, after_paths, t + 1, token, path, taken);
        TriedOn(g, d, opts, path, t + 1, taken);
        ghost var (was, before) := (grown, after);
        var improved;
        after, grown, improved := Relax(after, grown, arc.nextstate, cost, token.aux, arc.olabel);
        if improved {
          more := more + if arc.olabel == EPSILON then [] else [Link(token.aux, arc.olabel)];
          TokenStays(g, d, was, if arc.olabel == EPSILON then [] else [Link(token.aux, arc.olabel)], token, path, t, state);
          after_paths := after_paths[arc.nextstate := path + [taken]];
        }
        assert Improves(after, before) && Covers(after, arc.nextstate, cost);
        ImprovesTransitive(after, before, next);
        EmittedStays(g, d, after, before, state, token.cost, k, t + 1);
        EmittedMore(g, d, after, state, token.cost, k, t + 1);
      }
      k := k + 1;
    }
  }

  lemma PlusAssociates(a: Cost, b: Cost, c: Cost)
    ensures a.Plus(b).Plus(c) == a.Plus(b.Plus(c))
  {}

  lemma EmittedStart(g: Graph, d: Dense, next: Frontier, state: nat, cost: Cost, frames: nat)
    requires d.Valid() && state < |g.arcs| && 0 < frames <= d.NumFrames()
    ensures Emitted(g, d, next, state, cost, 0, frames)
  {}

  lemma EmittedMore(g: Graph, d: Dense, next: Frontier, state: nat, cost: Cost, k: nat, frames: nat)
    requires d.Valid() && state < |g.arcs| && k < |g.arcs[state]| && 0 < frames <= d.NumFrames()
    requires Emitted(g, d, next, state, cost, k, frames)
    requires g.arcs[state][k].ilabel == EPSILON || EmittedArc(g, d, next, Taken(state, k), cost, frames)
    ensures Emitted(g, d, next, state, cost, k + 1, frames)
  {}

  /** The error names an arc that is really there and matches no column. */
  ghost predicate NamesNoColumn(g: Graph, d: Dense, error: Error) {
    error.BadLabel? && error.symbol != EPSILON && d.ColumnOf(error.symbol) == None
    && error.state < |g.arcs| && exists k :: 0 <= k < |g.arcs[error.state]| && g.arcs[error.state][k].ilabel == error.symbol
  }

  ghost predicate AllEmitted(g: Graph, d: Dense, current: Frontier, next: Frontier, left: set<nat>, frames: nat)
    requires d.Valid() && 0 < frames <= d.NumFrames()
  {
    forall s | s in current && s !in left ::
      s < |g.arcs| && Emitted(g, d, next, s, current[s].cost, |g.arcs[s]|, frames)
  }

  /** One frame's emissions, out of every state in whatever order the map yields
      them. */
  method EmitFrame(g: Graph, d: Dense, t: nat, current: Frontier, links: seq<Link>, ghost opts: DecodeOptions, ghost paths: map<nat, seq<Taken>>)
    returns (error: Option<Error>, next: Frontier, grown: seq<Link>, ghost next_paths: map<nat, seq<Taken>>)
    requires g.Valid() && d.Valid() && t < d.NumFrames() && Sound(g, d, links, current, paths, t)
    requires PathsInside(g, d, opts, current, paths, t)
    ensures error == None ==>
              && Sound(g, d, grown, next, next_paths, t + 1) && PathsTried(g, d, opts, next, next_paths, t + 1)
              && AllEmitted(g, d, current, next, {}, t + 1)
    ensures error.Some? ==> NamesNoColumn(g, d, error.value)
  {
    hide TokenIsPath, Emitted, IsInside, IsTried;
    error, next, grown, next_paths := None, map[], links, map[];
    var left := current.Keys;
    while left != {}
      invariant left <= current.Keys && error == None
      invariant Sound(g, d, grown, current, paths, t) && Sound(g, d, grown, next, next_paths, t + 1)
      invariant PathsTried(g, d, opts, next, next_paths, t + 1)
      invariant AllEmitted(g, d, current, next, left, t + 1)
      decreases |left|
    {
      var state :| state in left;
      left := left - {state};
      StatesExist(g, d, grown, current, paths, t, state);
      ghost var before := next;
      ghost var was := grown;
      ghost var more;
      error, next, grown, more, next_paths := EmitFrom(g, d, t, state, current[state], next, grown, opts, paths[state], next_paths);
      if error.Some? {
        return;
      }
      SoundStays(g, d, was, more, current, paths, t);
      forall s | s in current && s !in left
        ensures s < |g.arcs| && Emitted(g, d, next, s, current[s].cost, |g.arcs[s]|, t + 1)
      {
        if s != state {
          EmittedStays(g, d, next, before, s, current[s].cost, |g.arcs[s]|, t + 1);
        }
      }
    }
  }

  lemma SoundStays(g: Graph, d: Dense, links: seq<Link>, more: seq<Link>, frontier: Frontier, paths: map<nat, seq<Taken>>, frames: nat)
    requires g.Valid() && d.Valid() && Sound(g, d, links, frontier, paths, frames) && Linked(links + more)
    ensures Sound(g, d, links + more, frontier, paths, frames)
  {
    hide TokenIsPath;
    forall s | s in frontier ensures TokenIsPath(g, d, links + more, frontier[s], paths[s], frames, s) {
      TokenStays(g, d, links, more, frontier[s], paths[s], frames, s);
    }
  }

  // -- Nothing near beats the tokens ---------------------------------------------------------------

  /** Every near cost is at or under the cutoff. */
  ghost predicate NearUnder(g: Graph, d: Dense, opts: DecodeOptions, frames: nat, cutoff: Cost)
    requires g.Valid() && d.Valid()
  {
    forall cost: Cost | Near(g, d, opts, frames, cost) :: cost.AtMost(cutoff)
  }

  /** Whatever is covered at a near cost stays covered. */
  ghost predicate KeepsNear(g: Graph, d: Dense, opts: DecodeOptions, after: Frontier, before: Frontier, frames: nat)
    requires g.Valid() && d.Valid()
  {
    forall s, cost: Cost | Covers(before, s, cost) && Near(g, d, opts, frames, cost) :: Covers(after, s, cost)
  }

  /** Every epsilon arc that leads to a near cost is settled. */
  ghost predicate NearSettled(g: Graph, d: Dense, opts: DecodeOptions, frontier: Frontier, frames: nat)
    requires g.Valid() && d.Valid()
  {
    forall s: nat, k: nat, cost: Cost |
      && s < |g.arcs| && k < |g.arcs[s]| && g.arcs[s][k].ilabel == EPSILON && Covers(frontier, s, cost)
      && (frames > 0 ==> Near(g, d, opts, frames, cost.Plus(g.arcs[s][k].weight))) ::
      Covers(frontier, g.arcs[s][k].nextstate, cost.Plus(g.arcs[s][k].weight))
  }

  /** If the last frame's tokens beat what stays near, and their emissions are matched, and
      what is near is kept and settled, then so do this frame's. */
  lemma {:induction false} NextCovers(g: Graph, d: Dense, opts: DecodeOptions, current: Frontier, emitted: Frontier, next: Frontier, t: nat, path: seq<Taken>, s: nat)
    requires g.Valid() && d.Valid() && t < d.NumFrames()
    requires Dominates(g, d, opts, current, t) && AllEmitted(g, d, current, emitted, {}, t + 1)
    requires KeepsNear(g, d, opts, next, emitted, t + 1) && NearSettled(g, d, opts, next, t + 1)
    requires Walk(g, d, path, t + 1, s) && StaysNear(g, d, opts, path, t + 1, s)
    ensures Covers(next, s, WalkCost(g, d, path, t + 1, s))
    decreases |path|
  {
    hide Near, AllEmitted;
    var last := path[|path| - 1];
    var front := path[..|path| - 1];
    if ArcOf(g, last).ilabel == EPSILON {
      NextCovers(g, d, opts, current, emitted, next, t, front, last.from);
      EpsilonCosts(g, d, last, t + 1, WalkCost(g, d, front, t + 1, last.from));
    } else {
      EmissionCovered(g, d, opts, current, emitted, t, path, s);
    }
  }

  lemma EmissionCovered(g: Graph, d: Dense, opts: DecodeOptions, current: Frontier, emitted: Frontier, t: nat, path: seq<Taken>, s: nat)
    requires g.Valid() && d.Valid() && t < d.NumFrames()
    requires Dominates(g, d, opts, current, t) && AllEmitted(g, d, current, emitted, {}, t + 1)
    requires Walk(g, d, path, t + 1, s) && SurelyTried(g, d, opts, path, t + 1, s)
    ensures Covers(emitted, s, WalkCost(g, d, path, t + 1, s))
  {
    hide StaysNear;
    var last := path[|path| - 1];
    var cost := WalkCost(g, d, path[..|path| - 1], t, last.from);
    assert Covers(current, last.from, cost);
    assert EmittedArc(g, d, emitted, Taken(last.from, last.index), current[last.from].cost, t + 1);
    PlusMonotone(current[last.from].cost, cost, ArcCost(g, d, last, t + 1));
  }

  lemma NextDominates(g: Graph, d: Dense, opts: DecodeOptions, current: Frontier, emitted: Frontier, next: Frontier, t: nat)
    requires g.Valid() && d.Valid() && t < d.NumFrames()
    requires Dominates(g, d, opts, current, t) && AllEmitted(g, d, current, emitted, {}, t + 1)
    requires KeepsNear(g, d, opts, next, emitted, t + 1) && NearSettled(g, d, opts, next, t + 1)
    ensures Dominates(g, d, opts, next, t + 1)
  {
    hide AllEmitted, KeepsNear, NearSettled, Covers;
    var frames := t + 1;
    forall path, s | Walk(g, d, path, frames, s) && StaysNear(g, d, opts, path, frames, s)
      ensures Covers(next, s, WalkCost(g, d, path, frames, s))
    {
      NextCovers(g, d, opts, current, emitted, next, t, path, s);
    }
  }

  /** So everything surely tried has its token among the emissions. */
  lemma EmissionsAreTried(g: Graph, d: Dense, opts: DecodeOptions, current: Frontier, emitted: Frontier, t: nat)
    requires g.Valid() && d.Valid() && t < d.NumFrames()
    requires Dominates(g, d, opts, current, t) && AllEmitted(g, d, current, emitted, {}, t + 1)
    ensures AllTried(g, d, opts, emitted, t + 1)
  {
    hide AllEmitted, Dominates, SurelyTried;
    var frames := t + 1;
    forall path, s | Walk(g, d, path, frames, s) && SurelyTried(g, d, opts, path, frames, s)
      ensures Covers(emitted, s, WalkCost(g, d, path, frames, s))
    {
      EmissionCovered(g, d, opts, current, emitted, t, path, s);
    }
  }

  lemma {:induction false} StartCovers(g: Graph, d: Dense, opts: DecodeOptions, frontier: Frontier, path: seq<Taken>, s: nat)
    requires g.Valid() && d.Valid() && g.start.Some? && Covers(frontier, g.start.value, ZERO)
    requires NearSettled(g, d, opts, frontier, 0) && Walk(g, d, path, 0, s)
    ensures Covers(frontier, s, WalkCost(g, d, path, 0, s))
    decreases |path|
  {
    if |path| > 0 {
      var last := path[|path| - 1];
      StartCovers(g, d, opts, frontier, path[..|path| - 1], last.from);
      EpsilonCosts(g, d, last, 0, WalkCost(g, d, path[..|path| - 1], 0, last.from));
    }
  }

  lemma StartDominates(g: Graph, d: Dense, opts: DecodeOptions, frontier: Frontier)
    requires g.Valid() && d.Valid() && g.start.Some? && Covers(frontier, g.start.value, ZERO)
    requires AllSettled(g, frontier, Infinite)
    ensures Dominates(g, d, opts, frontier, 0)
  {
    SettledIsNear(g, d, opts, frontier, frontier, Infinite, 0);
    forall path, s | Walk(g, d, path, 0, s) ensures Covers(frontier, s, WalkCost(g, d, path, 0, s)) {
      StartCovers(g, d, opts, frontier, path, s);
    }
  }

  /** Settling under a cutoff that no near cost exceeds settles what is near; and a cut no
      near cost exceeds, afterwards, leaves it so. */
  lemma SettledIsNear(g: Graph, d: Dense, opts: DecodeOptions, settled: Frontier, after: Frontier, cutoff: Cost, frames: nat)
    requires g.Valid() && d.Valid() && AllSettled(g, settled, cutoff)
    requires if frames == 0 then cutoff == Infinite && after == settled else NearUnder(g, d, opts, frames, cutoff)
    requires (forall s | s in after :: s in settled && after[s] == settled[s]) && (frames > 0 ==> KeepsNear(g, d, opts, after, settled, frames))
    ensures NearSettled(g, d, opts, after, frames)
  {
    hide Near;
    forall s: nat, k: nat, cost: Cost |
      && s < |g.arcs| && k < |g.arcs[s]| && g.arcs[s][k].ilabel == EPSILON && Covers(after, s, cost)
      && (frames > 0 ==> Near(g, d, opts, frames, cost.Plus(g.arcs[s][k].weight)))
      ensures Covers(after, g.arcs[s][k].nextstate, cost.Plus(g.arcs[s][k].weight))
    {
      var arc := g.arcs[s][k];
      assert Settled(g, settled, s, cutoff);
      assert ArcSettled(settled, settled[s].cost, arc, cutoff);
      PlusMonotone(settled[s].cost, cost, arc.weight);
      assert frames > 0 ==> cost.Plus(arc.weight).AtMost(cutoff);
    }
  }

  lemma PrunedKeepsNear(g: Graph, d: Dense, opts: DecodeOptions, frontier: Frontier, pruned: Frontier, cutoff: Cost, frames: nat)
    requires g.Valid() && d.Valid() && NearUnder(g, d, opts, frames, cutoff)
    requires pruned == if cutoff.Finite? then Kept(frontier, cutoff) else frontier
    ensures KeepsNear(g, d, opts, pruned, frontier, frames)
  {
    hide Near;
  }

  lemma ImprovedKeepsNear(g: Graph, d: Dense, opts: DecodeOptions, last: Frontier, after: Frontier, before: Frontier, first: Frontier, frames: nat)
    requires g.Valid() && d.Valid() && KeepsNear(g, d, opts, before, first, frames) && Improves(after, before)
    requires KeepsNear(g, d, opts, last, after, frames)
    ensures KeepsNear(g, d, opts, last, first, frames)
  {
    hide Near, Covers;
    forall s, cost: Cost | Covers(first, s, cost) && Near(g, d, opts, frames, cost) ensures Covers(last, s, cost) {
      assert Covers(before, s, cost);
      CoversImproved(after, before, s, cost);
    }
  }

  lemma NoWalksThere(g: Graph, d: Dense, opts: DecodeOptions, t: nat, path: seq<Taken>, s: nat)
    requires g.Valid() && d.Valid() && Dominates(g, d, opts, map[], t) && Walk(g, d, path, t, s)
    ensures !StaysNear(g, d, opts, path, t, s)
  {}

  lemma {:induction false} NearPassesThrough(g: Graph, d: Dense, opts: DecodeOptions, path: seq<Taken>, frames: nat, state: nat, earlier: nat)
    returns (prefix: seq<Taken>, at: nat)
    requires g.Valid() && d.Valid() && Walk(g, d, path, frames, state) && StaysNear(g, d, opts, path, frames, state) && earlier <= frames
    ensures Walk(g, d, prefix, earlier, at) && StaysNear(g, d, opts, prefix, earlier, at)
  {
    hide Near;
    if earlier == frames {
      prefix, at := path, state;
    } else {
      var last := path[|path| - 1];
      prefix, at := NearPassesThrough(g, d, opts, path[..|path| - 1], FramesBefore(g, last, frames), last.from, earlier);
    }
  }

  // A frame nothing can be emitted into ends every path that stays near.
  lemma NothingAccepts(g: Graph, d: Dense, opts: DecodeOptions, t: nat)
    requires g.Valid() && d.Valid() && t <= d.NumFrames() && Dominates(g, d, opts, map[], t)
    ensures IsBestNear(g, d, opts, None)
  {
    hide Dominates, StaysNear;
    forall path: seq<Taken>, s: nat | Accepting(g, d, path, s) ensures !StaysNear(g, d, opts, path, d.NumFrames(), s) {
      if StaysNear(g, d, opts, path, d.NumFrames(), s) {
        var prefix, at := NearPassesThrough(g, d, opts, path, d.NumFrames(), s, t);
        NoWalksThere(g, d, opts, t, prefix, at);
      }
    }
  }

  // -- The decoder --------------------------------------------------------------------------------

  /** The answer is a real accepting path's labels and cost. */
  ghost predicate IsPathAnswer(g: Graph, d: Dense, answer: Decoded)
    requires g.Valid() && d.Valid()
  {
    exists path: seq<Taken>, s: nat :: Accepting(g, d, path, s) && SpelledBy(g, d, answer, path, s)
  }

  ghost predicate SpelledBy(g: Graph, d: Dense, answer: Decoded, path: seq<Taken>, s: nat)
    requires g.Valid() && d.Valid() && Accepting(g, d, path, s)
  {
    WalkArcs(g, d, path, d.NumFrames(), s);
    answer.labels == Outputs(g, path) && answer.weight == AcceptingCost(g, d, path, s)
  }

  /** No accepting path costs less. */
  ghost predicate IsBest(g: Graph, d: Dense, answer: Option<Decoded>)
    requires g.Valid() && d.Valid()
  {
    match answer
    case None => forall path: seq<Taken>, s: nat :: !Accepting(g, d, path, s)
    case Some(decoded) => forall path: seq<Taken>, s: nat | Accepting(g, d, path, s) :: decoded.weight.AtMost(AcceptingCost(g, d, path, s))
  }

  /** No accepting path that stays near costs less, and there is an answer if there is one. */
  ghost predicate IsBestNear(g: Graph, d: Dense, opts: DecodeOptions, answer: Option<Decoded>)
    requires g.Valid() && d.Valid()
  {
    forall path: seq<Taken>, s: nat | Accepting(g, d, path, s) && StaysNear(g, d, opts, path, d.NumFrames(), s) ::
      answer.Some? && answer.value.weight.AtMost(AcceptingCost(g, d, path, s))
  }

  /** The answer's path is one the beam drops nowhere. */
  ghost predicate IsInsideAnswer(g: Graph, d: Dense, opts: DecodeOptions, answer: Decoded)
    requires g.Valid() && d.Valid()
  {
    exists path: seq<Taken>, s: nat ::
      Accepting(g, d, path, s) && SpelledBy(g, d, answer, path, s) && IsInside(g, d, opts, path, d.NumFrames(), s)
  }

  // With nothing to cut, what is best near is best.
  lemma BestNearIsBest(g: Graph, d: Dense, opts: DecodeOptions, answer: Option<Decoded>)
    requires g.Valid() && d.Valid() && Exhaustive(opts, g.NumStates()) && IsBestNear(g, d, opts, answer)
    ensures IsBest(g, d, answer)
  {
    hide StaysNear;
    forall path: seq<Taken>, s: nat | Accepting(g, d, path, s)
      ensures answer.Some? && answer.value.weight.AtMost(AcceptingCost(g, d, path, s))
    {
      EverythingStaysNear(g, d, opts, path, d.NumFrames(), s);
    }
  }

  lemma FewStates(g: Graph, frontier: Frontier)
    requires forall s | s in frontier :: s < |g.arcs|
    ensures |frontier| <= |g.arcs|
  {
    FewKeys(frontier.Keys, |g.arcs|);
  }

  lemma SoundStatesExist(g: Graph, d: Dense, links: seq<Link>, frontier: Frontier, paths: map<nat, seq<Taken>>, frames: nat)
    requires g.Valid() && d.Valid() && Sound(g, d, links, frontier, paths, frames)
    ensures forall s | s in frontier :: s < |g.arcs|
  {
    forall s | s in frontier ensures s < |g.arcs| {
      StatesExist(g, d, links, frontier, paths, frames, s);
    }
  }

  lemma SoundIsReal(g: Graph, d: Dense, links: seq<Link>, frontier: Frontier, paths: map<nat, seq<Taken>>, frames: nat)
    requires g.Valid() && d.Valid() && Sound(g, d, links, frontier, paths, frames)
    ensures TokensAreReal(g, d, frontier, frames)
  {
    forall s | s in frontier ensures IsReal(g, d, frames, s, frontier[s].cost) {
      assert TokenIsPath(g, d, links, frontier[s], paths[s], frames, s);
    }
  }

  lemma NothingNearIsCut(g: Graph, d: Dense, opts: DecodeOptions, frontier: Frontier, frames: nat, cutoff: Cost)
    requires g.Valid() && d.Valid() && TokensAreReal(g, d, frontier, frames) && CutoffOf(frontier, opts, cutoff)
    ensures NearUnder(g, d, opts, frames, cutoff)
  {
    hide Near;
    forall cost: Cost | Near(g, d, opts, frames, cost) ensures cost.AtMost(cutoff) {
      NearIsKept(g, d, opts, frontier, frames, cutoff, cost);
    }
  }

  lemma TriedAreInside(g: Graph, d: Dense, opts: DecodeOptions, links: seq<Link>, frontier: Frontier, pruned: Frontier, cutoff: Cost,
                       paths: map<nat, seq<Taken>>, frames: nat)
    requires g.Valid() && d.Valid() && frames > 0 && Sound(g, d, links, frontier, paths, frames)
    requires PathsTried(g, d, opts, frontier, paths, frames) && AllInside(g, d, opts, frames, cutoff)
    requires pruned == if cutoff.Finite? then Kept(frontier, cutoff) else frontier
    ensures PathsInside(g, d, opts, pruned, paths, frames)
  {
    hide IsInside, IsTried, Inside, Walk, WalkCost;
    forall s | s in pruned ensures IsInside(g, d, opts, paths[s], frames, s) {
      assert frontier[s].cost.AtMost(cutoff);
      assert TokenIsPath(g, d, links, frontier[s], paths[s], frames, s);
      TriedIsInside(g, d, opts, paths[s], frames, s);
    }
  }

  /** No more tokens than the cap are strictly cheaper than any one, if there are more
      tokens than the other cap. */
  ghost predicate Capped(frontier: Frontier, opts: DecodeOptions) {
    |frontier| > opts.maxActive ==> forall s | s in frontier :: |Cheaper(frontier, frontier[s].cost)| <= Cap(opts)
  }

  lemma KeptIsCapped(frontier: Frontier, after: Frontier, opts: DecodeOptions, cutoff: Cost)
    requires CutoffOf(frontier, opts, cutoff) && after == if cutoff.Finite? then Kept(frontier, cutoff) else frontier
    ensures Capped(after, opts)
  {
    forall s | s in after ensures |Cheaper(after, after[s].cost)| <= Cap(opts) {
      assert Cheaper(after, after[s].cost).Keys <= Cheaper(frontier, cutoff).Keys;
      FewerMembers(Cheaper(after, after[s].cost).Keys, Cheaper(frontier, cutoff).Keys);
    }
  }

  /** Prunes, relaxes the epsilons under the beam's cutoff, and prunes again if the
      cap is exceeded: what is near stays, and nothing stays that the beam drops. */
  method PruneAndSettle(g: Graph, d: Dense, opts: DecodeOptions, frontier: Frontier, links: seq<Link>,
                        ghost frames: nat, ghost paths: map<nat, seq<Taken>>)
    returns (settled: bool, after: Frontier, grown: seq<Link>, ghost after_paths: map<nat, seq<Taken>>)
    requires g.Valid() && d.Valid() && frames > 0 && Sound(g, d, links, frontier, paths, frames)
    requires PathsTried(g, d, opts, frontier, paths, frames) && AllTried(g, d, opts, frontier, frames)
    ensures Sound(g, d, grown, after, after_paths, frames)
    ensures settled ==> KeepsNear(g, d, opts, after, frontier, frames) && NearSettled(g, d, opts, after, frames)
    ensures settled ==> PathsInside(g, d, opts, after, after_paths, frames) && Capped(after, opts)
    ensures FewEpsilonPaths(g) ==> settled
  {
    hide TokenIsPath, AllSettled, FewEpsilonPaths, PathsTried, AllTried, AllInside, IsInside, Near, TokensAreReal, KeepsNear, NearUnder,
         NearSettled, Capped, CutoffOf;
    SoundIsReal(g, d, links, frontier, paths, frames);
    var pruned, cutoff := Prune(frontier, opts);
    PrunedIsCutoff(frontier, pruned, opts, cutoff);
    NothingNearIsCut(g, d, opts, frontier, frames, cutoff);
    PrunedKeepsNear(g, d, opts, frontier, pruned, cutoff, frames);
    CutoffIsInside(g, d, opts, frontier, frames, cutoff);
    TriedAreInside(g, d, opts, links, frontier, pruned, cutoff, paths, frames);
    settled, after, grown, after_paths := RelaxEpsilons(g, d, pruned, links, cutoff, opts, frames, paths);
    if !settled {
      return;
    }
    ghost var mid := after;
    SoundIsReal(g, d, grown, after, after_paths, frames);
    if |after| > opts.maxActive {
      var tighter;
      after, tighter := Prune(after, opts);
      PrunedIsCutoff(mid, after, opts, tighter);
      NothingNearIsCut(g, d, opts, mid, frames, tighter);
      PrunedKeepsNear(g, d, opts, mid, after, tighter, frames);
      KeptIsCapped(mid, after, opts, tighter);
    } else {
      AllKeepsNear(g, d, opts, after, frames);
      FewAreCapped(after, opts);
    }
    SettledIsNear(g, d, opts, mid, after, cutoff, frames);
    ImprovedKeepsNear(g, d, opts, after, mid, pruned, frontier, frames);
  }

  lemma FewAreCapped(frontier: Frontier, opts: DecodeOptions)
    requires |frontier| <= opts.maxActive
    ensures Capped(frontier, opts)
  {}

  lemma AllKeepsNear(g: Graph, d: Dense, opts: DecodeOptions, frontier: Frontier, frames: nat)
    requires g.Valid() && d.Valid()
    ensures KeepsNear(g, d, opts, frontier, frontier, frames)
  {}

  lemma NothingKeepsNear(g: Graph, d: Dense, opts: DecodeOptions, frames: nat)
    requires g.Valid() && d.Valid()
    ensures KeepsNear(g, d, opts, map[], map[], frames) && NearSettled(g, d, opts, map[], frames)
  {}

  lemma PrunedIsCutoff(frontier: Frontier, pruned: Frontier, opts: DecodeOptions, cutoff: Cost)
    requires pruned == if cutoff.Finite? then Kept(frontier, cutoff) else frontier
    requires forall s | s in frontier :: cutoff.AtMost(frontier[s].cost.Plus(opts.beam))
    requires cutoff.Finite? && (forall s | s in frontier :: cutoff.Less(frontier[s].cost.Plus(opts.beam))) ==> |pruned| > Cap(opts)
    requires |Cheaper(frontier, cutoff)| <= Cap(opts)
    ensures CutoffOf(frontier, opts, cutoff)
  {}

  /** The best path of the graph against the matrix. Under any beam an answer is a real
      accepting path that the beam drops nowhere, and no accepting path that stays near
      costs less; where one stays near there is an answer. With everything kept that is
      the best path, and no answer means there is none. */
  method ViterbiDecode(g: Graph, d: Dense, opts: DecodeOptions) returns (r: Result<Option<Decoded>, Error>)
    requires g.Valid() && d.Valid()
    ensures r.Success? && r.value.Some? ==> IsPathAnswer(g, d, r.value.value) && IsInsideAnswer(g, d, opts, r.value.value)
    ensures r.Success? ==> IsBestNear(g, d, opts, r.value)
    ensures r.Success? && Exhaustive(opts, g.NumStates()) ==> IsBest(g, d, r.value)
    ensures r.Failure? && r.error.BadLabel? ==> NamesNoColumn(g, d, r.error)
    ensures FewEpsilonPaths(g) ==> r != Failure(Unsettled)
  {
    hide Walk, WalkCost, TokenIsPath, Dominates, AllSettled, AllEmitted, IsPathAnswer, IsInsideAnswer, IsBest, IsBestNear, NamesNoColumn, FewEpsilonPaths,
         PathsInside, PathsTried, AllTried, AllInside, KeepsNear, NearSettled, Capped;
    if g.start.None? {
      NoStart(g, d, opts);
      return Success(None);
    }
    var links: seq<Link> := [];
    var current: Frontier := map[g.start.value := Token(ZERO, None)];
    ghost var paths: map<nat, seq<Taken>> := map[g.start.value := []];
    StartIsSound(g, d);
    StartIsInside(g, d, opts);
    var settled;
    settled, current, links, paths := RelaxEpsilons(g, d, current, links, Infinite, opts, 0, paths);
    if !settled {
      return Failure(Unsettled);
    }
    StartStaysCovered(current, g.start.value);
    StartDominates(g, d, opts, current);
    var t := 0;
    while t < d.NumFrames()
      invariant t <= d.NumFrames()
      invariant Sound(g, d, links, current, paths, t) && PathsInside(g, d, opts, current, paths, t)
      invariant Dominates(g, d, opts, current, t)
    {
      var error, next, grown;
      ghost var next_paths;
      error, next, grown, next_paths := EmitFrame(g, d, t, current, links, opts, paths);
      if error.Some? {
        LabelIsBad(g, d, error.value);
        return Failure(error.value);
      }
      if next == map[] {
        NothingKeepsNear(g, d, opts, t + 1);
        NextDominates(g, d, opts, current, map[], map[], t);
        NothingAccepts(g, d, opts, t + 1);
        BestNear(g, d, opts, None);
        return Success(None);
      }
      ghost var emitted := next;
      EmissionsAreTried(g, d, opts, current, next, t);
      settled, next, links, next_paths := PruneAndSettle(g, d, opts, next, grown, t + 1, next_paths);
      if !settled {
        return Failure(Unsettled);
      }
      NextDominates(g, d, opts, current, emitted, next, t);
      current, paths := next, next_paths;
      t := t + 1;
    }
    var answer := Finish(g, d, links, current, opts, paths);
    BestNear(g, d, opts, answer);
    return Success(answer);
  }

  lemma BestNear(g: Graph, d: Dense, opts: DecodeOptions, answer: Option<Decoded>)
    requires g.Valid() && d.Valid() && IsBestNear(g, d, opts, answer)
    ensures Exhaustive(opts, g.NumStates()) ==> IsBest(g, d, answer)
  {
    if Exhaustive(opts, g.NumStates()) {
      BestNearIsBest(g, d, opts, answer);
    }
  }

  lemma LabelIsBad(g: Graph, d: Dense, error: Error)
    requires NamesNoColumn(g, d, error)
    ensures error.BadLabel?
  {}

  lemma NoStart(g: Graph, d: Dense, opts: DecodeOptions)
    requires g.Valid() && d.Valid() && g.start == None
    ensures IsBest(g, d, None) && IsBestNear(g, d, opts, None)
  {
    hide StaysNear;
    forall path: seq<Taken>, s: nat ensures !Accepting(g, d, path, s) {
      if Accepting(g, d, path, s) {
        NeverStarted(g, d, path, d.NumFrames(), s);
      }
    }
  }

  lemma {:induction false} NeverStarted(g: Graph, d: Dense, path: seq<Taken>, frames: nat, s: nat)
    requires g.Valid() && g.start == None
    ensures !Walk(g, d, path, frames, s)
  {
    if |path| > 0 && IsArc(g, path[|path| - 1]) {
      NeverStarted(g, d, path[..|path| - 1], FramesBefore(g, path[|path| - 1], frames), path[|path| - 1].from);
    }
  }

  lemma StartIsSound(g: Graph, d: Dense)
    requires g.Valid() && d.Valid() && g.start.Some?
    ensures Sound(g, d, [], map[g.start.value := Token(ZERO, None)], map[g.start.value := []], 0)
  {}

  lemma StartIsInside(g: Graph, d: Dense, opts: DecodeOptions)
    requires g.Valid() && d.Valid() && g.start.Some?
    ensures PathsInside(g, d, opts, map[g.start.value := Token(ZERO, None)], map[g.start.value := []], 0)
    ensures AllInside(g, d, opts, 0, Infinite)
  {}

  lemma StartStaysCovered(after: Frontier, start: nat)
    requires Improves(after, map[start := Token(ZERO, None)])
    ensures Covers(after, start, ZERO)
  {
    assert start in map[start := Token(ZERO, None)];
  }

  /** The best finished token, read back. */
  method Finish(g: Graph, d: Dense, links: seq<Link>, current: Frontier, ghost opts: DecodeOptions, ghost paths: map<nat, seq<Taken>>) returns (answer: Option<Decoded>)
    requires g.Valid() && d.Valid() && Sound(g, d, links, current, paths, d.NumFrames())
    requires PathsInside(g, d, opts, current, paths, d.NumFrames()) && Dominates(g, d, opts, current, d.NumFrames())
    ensures answer.Some? ==> IsPathAnswer(g, d, answer.value) && IsInsideAnswer(g, d, opts, answer.value)
    ensures IsBestNear(g, d, opts, answer)
  {
    hide Walk, WalkCost, TokenIsPath, Dominates, IsPathAnswer, IsInsideAnswer, IsBestNear, IsInside;
    var best: Option<(Cost, nat)> := None;
    var left := current.Keys;
    SoundStatesExist(g, d, links, current, paths, d.NumFrames());
    while left != {}
      invariant left <= current.Keys
      invariant best.Some? ==> best.value.1 in current && Finished(g, current, best.value.1, best.value.0)
      invariant forall s | s in current && s !in left && s < |g.finals| && g.finals[s].Finite? ::
                  best.Some? && best.value.0.AtMost(current[s].cost.Plus(g.finals[s]))
      decreases |left|
    {
      var s :| s in left;
      left := left - {s};
      if g.finals[s].Finite? {
        var total := current[s].cost.Plus(g.finals[s]);
        if best.None? || total.Less(best.value.0) {
          best := Some((total, s));
        }
      }
    }
    if best.None? {
      NothingFinished(g, d, opts, current);
      return None;
    }
    var (total, s) := best.value;
    assert TokenIsPath(g, d, links, current[s], paths[s], d.NumFrames(), s);
    LinkInArena(g, d, links, current[s], paths[s], d.NumFrames(), s);
    var labels := TraceBack(links, current[s].aux);
    FinishedIsAnswer(g, d, opts, links, current, paths[s], s, Decoded(labels, total));
    FinishedIsBest(g, d, opts, current, Decoded(labels, total));
    return Some(Decoded(labels, total));
  }

  ghost predicate Finished(g: Graph, frontier: Frontier, s: nat, total: Cost) {
    s in frontier && s < |g.finals| && g.finals[s].Finite? && total == frontier[s].cost.Plus(g.finals[s])
  }

  lemma LinkInArena(g: Graph, d: Dense, links: seq<Link>, token: Token, path: seq<Taken>, frames: nat, s: nat)
    requires g.Valid() && d.Valid() && Linked(links) && TokenIsPath(g, d, links, token, path, frames, s)
    ensures InArena(links, token.aux)
  {}

  lemma NothingFinished(g: Graph, d: Dense, opts: DecodeOptions, current: Frontier)
    requires g.Valid() && d.Valid() && Dominates(g, d, opts, current, d.NumFrames())
    requires forall s | s in current && s < |g.finals| :: g.finals[s].Infinite?
    ensures IsBestNear(g, d, opts, None)
  {
    hide StaysNear;
    forall path: seq<Taken>, s: nat | Accepting(g, d, path, s) ensures !StaysNear(g, d, opts, path, d.NumFrames(), s) {
      if StaysNear(g, d, opts, path, d.NumFrames(), s) {
        assert false;
      }
    }
  }

  lemma FinishedIsAnswer(g: Graph, d: Dense, opts: DecodeOptions, links: seq<Link>, current: Frontier, path: seq<Taken>, s: nat, answer: Decoded)
    requires g.Valid() && d.Valid() && Linked(links) && s in current
    requires TokenIsPath(g, d, links, current[s], path, d.NumFrames(), s) && IsInside(g, d, opts, path, d.NumFrames(), s)
    requires Finished(g, current, s, answer.weight)
    requires InArena(links, current[s].aux) && answer.labels == LabelsTo(links, current[s].aux)
    ensures IsPathAnswer(g, d, answer) && IsInsideAnswer(g, d, opts, answer)
  {
    hide IsInside;
    assert Accepting(g, d, path, s) && SpelledBy(g, d, answer, path, s);
  }

  lemma FinishedIsBest(g: Graph, d: Dense, opts: DecodeOptions, current: Frontier, answer: Decoded)
    requires g.Valid() && d.Valid() && Dominates(g, d, opts, current, d.NumFrames())
    requires forall s | s in current && s < |g.finals| && g.finals[s].Finite? ::
               answer.weight.AtMost(current[s].cost.Plus(g.finals[s]))
    ensures IsBestNear(g, d, opts, Some(answer))
  {
    hide StaysNear;
    forall path: seq<Taken>, s: nat | Accepting(g, d, path, s) && StaysNear(g, d, opts, path, d.NumFrames(), s)
      ensures answer.weight.AtMost(AcceptingCost(g, d, path, s)) {
      assert Covers(current, s, WalkCost(g, d, path, d.NumFrames(), s));
      PlusMonotone(current[s].cost, WalkCost(g, d, path, d.NumFrames(), s), g.finals[s]);
    }
  }
}
