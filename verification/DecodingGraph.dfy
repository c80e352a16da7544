/** A decoding graph, the acoustic matrix it is matched against, and the paths of
    their composition: what the frame-synchronous decoders search without ever
    building it. */
module DecodingGraphs {
  import opened Costs

  const EPSILON := 0

  datatype Arc = Arc(ilabel: int, olabel: int, weight: Cost, nextstate: nat)

  /** States are `0 .. |arcs|`; an infinite final cost marks a state that is not
      final. */
  datatype Graph = Graph(start: Option<nat>, finals: seq<Cost>, arcs: seq<seq<Arc>>) {
    ghost predicate Valid() {
      && |finals| == |arcs|
      && (start.Some? ==> start.value < |arcs|)
      && forall s, k | 0 <= s < |arcs| && 0 <= k < |arcs[s]| :: arcs[s][k].nextstate < |arcs|
    }

    function NumStates(): nat {
      |arcs|
    }
  }

  /** One score for each symbol of each frame; column 0 sits at `labelOffset`. */
  datatype Dense = Dense(scores: seq<seq<Cost>>, numSymbols: nat, labelOffset: int) {
    ghost predicate Valid() {
      forall t | 0 <= t < |scores| :: |scores[t]| == numSymbols
    }

    function NumFrames(): nat {
      |scores|
    }

    function ColumnOf(symbol: int): Option<nat> {
      var index := symbol - labelOffset;
      if 0 <= index < numSymbols then Some(index) else None
    }
  }

  /** One arc of a path, by the state it leaves and its place there. */
  datatype Taken = Taken(from: nat, index: nat)

  predicate IsArc(g: Graph, taken: Taken) {
    taken.from < |g.arcs| && taken.index < |g.arcs[taken.from]|
  }

  function ArcOf(g: Graph, taken: Taken): Arc
    requires IsArc(g, taken)
  {
    g.arcs[taken.from][taken.index]
  }

  /** Whether an arc can be taken when `frames` frames will have been consumed: an
      epsilon arc consumes none, any other consumes the last of them and has to
      name a column. */
  predicate Fits(g: Graph, d: Dense, taken: Taken, frames: nat) {
    && IsArc(g, taken)
    && (ArcOf(g, taken).ilabel != EPSILON ==>
          0 < frames <= d.NumFrames() && d.ColumnOf(ArcOf(g, taken).ilabel).Some?)
  }

  function FramesBefore(g: Graph, taken: Taken, frames: nat): nat
    requires IsArc(g, taken)
  {
    if ArcOf(g, taken).ilabel == EPSILON || frames == 0 then frames else frames - 1
  }

  /** Whether `path` runs from the start to `state`, consuming `frames` frames. */
  ghost predicate Walk(g: Graph, d: Dense, path: seq<Taken>, frames: nat, state: nat)
    requires g.Valid()
  {
    if |path| == 0 then frames == 0 && g.start == Some(state)
    else
      var last := path[|path| - 1];
      && Fits(g, d, last, frames) && ArcOf(g, last).nextstate == state
      && Walk(g, d, path[..|path| - 1], FramesBefore(g, last, frames), last.from)
  }

  /** The acoustic cost of taking an arc: nothing for an epsilon, the frame's score
      of the arc's column for any other. */
  function Acoustic(g: Graph, d: Dense, taken: Taken, frames: nat): Cost
    requires d.Valid() && Fits(g, d, taken, frames)
  {
    var arc := ArcOf(g, taken);
    if arc.ilabel == EPSILON then ZERO else d.scores[frames - 1][d.ColumnOf(arc.ilabel).value]
  }

  function ArcCost(g: Graph, d: Dense, taken: Taken, frames: nat): Cost
    requires d.Valid() && Fits(g, d, taken, frames)
  {
    ArcOf(g, taken).weight.Plus(Acoustic(g, d, taken, frames))
  }

  ghost function WalkCost(g: Graph, d: Dense, path: seq<Taken>, frames: nat, state: nat): Cost
    requires g.Valid() && d.Valid() && Walk(g, d, path, frames, state)
  {
    if |path| == 0 then ZERO
    else
      var last := path[|path| - 1];
      WalkCost(g, d, path[..|path| - 1], FramesBefore(g, last, frames), last.from).Plus(ArcCost(g, d, last, frames))
  }

  /** The output labels along a path, epsilons removed. */
  ghost function Outputs(g: Graph, path: seq<Taken>): seq<int>
    requires forall k | 0 <= k < |path| :: IsArc(g, path[k])
  {
    if |path| == 0 then []
    else
      var olabel := ArcOf(g, path[|path| - 1]).olabel;
      Outputs(g, path[..|path| - 1]) + if olabel == EPSILON then [] else [olabel]
  }

  /** A path that ends in a final state after every frame. */
  ghost predicate Accepting(g: Graph, d: Dense, path: seq<Taken>, state: nat)
    requires g.Valid()
  {
    Walk(g, d, path, d.NumFrames(), state) && state < |g.finals| && g.finals[state].Finite?
  }

  ghost function AcceptingCost(g: Graph, d: Dense, path: seq<Taken>, state: nat): Cost
    requires g.Valid() && d.Valid() && Accepting(g, d, path, state)
  {
    WalkCost(g, d, path, d.NumFrames(), state).Plus(g.finals[state])
  }

  lemma {:induction false} WalkArcs(g: Graph, d: Dense, path: seq<Taken>, frames: nat, state: nat)
    requires g.Valid() && Walk(g, d, path, frames, state)
    ensures state < |g.arcs| && frames <= d.NumFrames()
    ensures forall k | 0 <= k < |path| :: IsArc(g, path[k])
  {
    if |path| > 0 {
      var last := path[|path| - 1];
      WalkArcs(g, d, path[..|path| - 1], FramesBefore(g, last, frames), last.from);
      forall k | 0 <= k < |path| ensures IsArc(g, path[k]) {
        if k < |path| - 1 {
          assert path[k] == path[..|path| - 1][k];
        }
      }
    }
  }

  lemma WalkOn(g: Graph, d: Dense, path: seq<Taken>, frames: nat, taken: Taken)
    requires g.Valid() && d.Valid() && Fits(g, d, taken, frames)
    requires Walk(g, d, path, FramesBefore(g, taken, frames), taken.from)
    ensures var longer := path + [taken];
            var to := ArcOf(g, taken).nextstate;
            && Walk(g, d, longer, frames, to)
            && WalkCost(g, d, longer, frames, to)
               == WalkCost(g, d, path, FramesBefore(g, taken, frames), taken.from).Plus(ArcCost(g, d, taken, frames))
  {
    assert (path + [taken])[..|path|] == path;
  }

  lemma OutputsOn(g: Graph, path: seq<Taken>, taken: Taken)
    requires (forall k | 0 <= k < |path| :: IsArc(g, path[k])) && IsArc(g, taken)
    ensures var longer := path + [taken];
            && (forall k | 0 <= k < |longer| :: IsArc(g, longer[k]))
            && Outputs(g, longer) == Outputs(g, path)
               + if ArcOf(g, taken).olabel == EPSILON then [] else [ArcOf(g, taken).olabel]
  {
    assert (path + [taken])[..|path|] == path;
  }

  // -- The order on costs --------------------------------------------------------------

  lemma PlusMonotone(a: Cost, b: Cost, c: Cost)
    requires a.AtMost(b)
    ensures a.Plus(c).AtMost(b.Plus(c))
  {}
}
