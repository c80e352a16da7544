/** What a beam is sure to keep, and what it is sure to drop, told by the paths of the
    composition alone. */
module Beams {
  import opened Costs
  import opened FiniteSets
  import opened DecodingGraphs
  import opened Frontiers

  function Cap(opts: DecodeOptions): nat {
    Max(opts.maxActive, opts.minActive)
  }

  // -- Paths the beam keeps --------------------------------------------------------------------

  ghost predicate ReachedUnder(g: Graph, d: Dense, frames: nat, state: nat, cost: Cost)
    requires g.Valid() && d.Valid()
  {
    exists path :: Walk(g, d, path, frames, state) && WalkCost(g, d, path, frames, state).Less(cost)
  }

  ghost predicate AllReachedUnder(g: Graph, d: Dense, frames: nat, states: set<nat>, cost: Cost)
    requires g.Valid() && d.Valid()
  {
    forall s | s in states :: ReachedUnder(g, d, frames, s, cost)
  }

  /** A cost no beam cuts after `frames` frames: within the beam of every path there is,
      and with no more states than the cap allows that are reached for less. */
  ghost predicate Near(g: Graph, d: Dense, opts: DecodeOptions, frames: nat, cost: Cost)
    requires g.Valid() && d.Valid()
  {
    && (forall path, s | Walk(g, d, path, frames, s) :: cost.AtMost(WalkCost(g, d, path, frames, s).Plus(opts.beam)))
    && (forall states: set<nat> | AllReachedUnder(g, d, frames, states, cost) :: |states| <= Cap(opts))
  }

  /** A path that is near wherever the beam looks: at each of its prefixes that consumes
      a frame. */
  ghost predicate StaysNear(g: Graph, d: Dense, opts: DecodeOptions, path: seq<Taken>, frames: nat, state: nat)
    requires g.Valid() && d.Valid() && Walk(g, d, path, frames, state)
  {
    && (frames > 0 ==> Near(g, d, opts, frames, WalkCost(g, d, path, frames, state)))
    && (|path| > 0 ==>
          var last := path[|path| - 1];
          StaysNear(g, d, opts, path[..|path| - 1], FramesBefore(g, last, frames), last.from))
  }

  // With nothing to cut, every path is near.
  lemma {:induction false} EverythingStaysNear(g: Graph, d: Dense, opts: DecodeOptions, path: seq<Taken>, frames: nat, state: nat)
    requires g.Valid() && d.Valid() && Walk(g, d, path, frames, state) && Exhaustive(opts, g.NumStates())
    ensures StaysNear(g, d, opts, path, frames, state)
  {
    EverythingIsNear(g, d, opts, frames, WalkCost(g, d, path, frames, state));
    if |path| > 0 {
      var last := path[|path| - 1];
      EverythingStaysNear(g, d, opts, path[..|path| - 1], FramesBefore(g, last, frames), last.from);
    }
  }

  lemma EverythingIsNear(g: Graph, d: Dense, opts: DecodeOptions, frames: nat, cost: Cost)
    requires g.Valid() && d.Valid() && Exhaustive(opts, g.NumStates())
    ensures Near(g, d, opts, frames, cost)
  {
    forall states: set<nat> | AllReachedUnder(g, d, frames, states, cost) ensures |states| <= Cap(opts) {
      forall s | s in states ensures s < |g.arcs| {
        assert ReachedUnder(g, d, frames, s, cost);
        var path :| Walk(g, d, path, frames, s);
        WalkArcs(g, d, path, frames, s);
      }
      FewKeys(states, |g.arcs|);
    }
  }

  lemma {:induction false} FewKeys(keys: set<nat>, n: nat)
    requires forall k | k in keys :: k < n
    ensures |keys| <= n
  {
    if n == 0 {
      assert keys == {};
    } else {
      FewKeys(keys - {n - 1}, n - 1);
    }
  }

  // -- Paths the beam drops --------------------------------------------------------------------

  /** A path that is tried whatever happens: near up to the frame it just consumed. */
  ghost predicate SurelyTried(g: Graph, d: Dense, opts: DecodeOptions, path: seq<Taken>, frames: nat, state: nat)
    requires g.Valid() && d.Valid() && Walk(g, d, path, frames, state)
  {
    && |path| > 0 && ArcOf(g, path[|path| - 1]).ilabel != EPSILON
    && StaysNear(g, d, opts, path[..|path| - 1], FramesBefore(g, path[|path| - 1], frames), path[|path| - 1].from)
  }

  ghost predicate TriedUnder(g: Graph, d: Dense, opts: DecodeOptions, frames: nat, state: nat, cost: Cost)
    requires g.Valid() && d.Valid()
  {
    exists path :: Walk(g, d, path, frames, state) && SurelyTried(g, d, opts, path, frames, state)
                   && WalkCost(g, d, path, frames, state).Less(cost)
  }

  ghost predicate AllTriedUnder(g: Graph, d: Dense, opts: DecodeOptions, frames: nat, states: set<nat>, cost: Cost)
    requires g.Valid() && d.Valid()
  {
    forall s | s in states :: TriedUnder(g, d, opts, frames, s, cost)
  }

  /** A cost the beam may keep after `frames` frames: within the beam of every path that is
      surely tried, and with no more states than the cap allows tried for less. */
  ghost predicate Inside(g: Graph, d: Dense, opts: DecodeOptions, frames: nat, cost: Cost)
    requires g.Valid() && d.Valid()
  {
    && (forall path, s | Walk(g, d, path, frames, s) && SurelyTried(g, d, opts, path, frames, s) ::
          cost.AtMost(WalkCost(g, d, path, frames, s).Plus(opts.beam)))
    && (forall states: set<nat> | AllTriedUnder(g, d, opts, frames, states, cost) :: |states| <= Cap(opts))
  }

  /** A path no beam dropped on the first `upTo` frames: at each of its prefixes that
      consumes some of them it costs no more than may be kept. */
  ghost predicate StaysInside(g: Graph, d: Dense, opts: DecodeOptions, path: seq<Taken>, frames: nat, state: nat, upTo: nat)
    requires g.Valid() && d.Valid() && Walk(g, d, path, frames, state)
  {
    && (0 < frames <= upTo ==> Inside(g, d, opts, frames, WalkCost(g, d, path, frames, state)))
    && (|path| > 0 ==>
          var last := path[|path| - 1];
          StaysInside(g, d, opts, path[..|path| - 1], FramesBefore(g, last, frames), last.from, upTo))
  }

  /** Costs at or under a cutoff may be kept. */
  ghost predicate AllInside(g: Graph, d: Dense, opts: DecodeOptions, frames: nat, cutoff: Cost)
    requires g.Valid() && d.Valid()
  {
    forall cost: Cost | cost.AtMost(cutoff) :: frames > 0 ==> Inside(g, d, opts, frames, cost)
  }

  /** A path no beam dropped on any frame it consumes. */
  ghost predicate IsInside(g: Graph, d: Dense, opts: DecodeOptions, path: seq<Taken>, frames: nat, state: nat)
    requires g.Valid() && d.Valid()
  {
    Walk(g, d, path, frames, state) && StaysInside(g, d, opts, path, frames, state, frames)
  }

  /** A path that has just consumed a frame, and that no beam dropped before. */
  ghost predicate IsTried(g: Graph, d: Dense, opts: DecodeOptions, path: seq<Taken>, frames: nat, state: nat)
    requires g.Valid() && d.Valid()
  {
    && Walk(g, d, path, frames, state) && |path| > 0 && ArcOf(g, path[|path| - 1]).ilabel != EPSILON
    && IsInside(g, d, opts, path[..|path| - 1], frames - 1, path[|path| - 1].from)
  }

  lemma TriedIsInside(g: Graph, d: Dense, opts: DecodeOptions, path: seq<Taken>, frames: nat, state: nat)
    requires g.Valid() && d.Valid() && IsTried(g, d, opts, path, frames, state)
    requires Inside(g, d, opts, frames, WalkCost(g, d, path, frames, state))
    ensures IsInside(g, d, opts, path, frames, state)
  {
    hide Inside, WalkCost, Fits;
    InsideOfFewer(g, d, opts, path[..|path| - 1], frames - 1, path[|path| - 1].from, frames - 1, frames);
  }

  lemma TriedOn(g: Graph, d: Dense, opts: DecodeOptions, path: seq<Taken>, frames: nat, taken: Taken)
    requires g.Valid() && d.Valid() && Fits(g, d, taken, frames) && ArcOf(g, taken).ilabel != EPSILON
    requires IsInside(g, d, opts, path, frames - 1, taken.from)
    ensures IsTried(g, d, opts, path + [taken], frames, ArcOf(g, taken).nextstate)
  {
    hide StaysInside;
    WalkOn(g, d, path, frames, taken);
    assert (path + [taken])[..|path|] == path;
  }

  lemma InsideOn(g: Graph, d: Dense, opts: DecodeOptions, path: seq<Taken>, frames: nat, taken: Taken)
    requires g.Valid() && d.Valid() && Fits(g, d, taken, frames) && ArcOf(g, taken).ilabel == EPSILON
    requires IsInside(g, d, opts, path, frames, taken.from)
    requires frames > 0 ==> Inside(g, d, opts, frames, WalkCost(g, d, path, frames, taken.from).Plus(ArcCost(g, d, taken, frames)))
    ensures IsInside(g, d, opts, path + [taken], frames, ArcOf(g, taken).nextstate)
  {
    hide Inside, Fits, ArcCost;
    WalkOn(g, d, path, frames, taken);
    assert (path + [taken])[..|path|] == path;
  }

  // Beyond the frames a path consumes there is nothing to be inside of.
  lemma {:induction false} InsideOfFewer(g: Graph, d: Dense, opts: DecodeOptions, path: seq<Taken>, frames: nat, state: nat, upTo: nat, more: nat)
    requires g.Valid() && d.Valid() && Walk(g, d, path, frames, state) && frames <= upTo <= more
    requires StaysInside(g, d, opts, path, frames, state, upTo)
    ensures StaysInside(g, d, opts, path, frames, state, more)
  {
    if |path| > 0 {
      var last := path[|path| - 1];
      InsideOfFewer(g, d, opts, path[..|path| - 1], FramesBefore(g, last, frames), last.from, upTo, more);
    }
  }

  // -- What a cutoff says ---------------------------------------------------------------------

  /** How a cutoff lies among the tokens it was found from: no lower than some token plus
      the beam, or than more tokens than the cap; no higher than any token plus the beam,
      and with no more tokens than the cap under it. */
  ghost predicate CutoffOf(frontier: Frontier, opts: DecodeOptions, cutoff: Cost) {
    && (cutoff.Finite? ==>
          || (exists s :: s in frontier && frontier[s].cost.Plus(opts.beam).AtMost(cutoff))
          || |Kept(frontier, cutoff)| > Cap(opts))
    && (forall s | s in frontier :: cutoff.AtMost(frontier[s].cost.Plus(opts.beam)))
    && |Cheaper(frontier, cutoff)| <= Cap(opts)
  }

  /** Every token is the cost of a path. */
  ghost predicate TokensAreReal(g: Graph, d: Dense, frontier: Frontier, frames: nat)
    requires g.Valid() && d.Valid()
  {
    forall s | s in frontier :: IsReal(g, d, frames, s, frontier[s].cost)
  }

  ghost predicate IsReal(g: Graph, d: Dense, frames: nat, state: nat, cost: Cost)
    requires g.Valid() && d.Valid()
  {
    exists path :: Walk(g, d, path, frames, state) && WalkCost(g, d, path, frames, state) == cost
  }

  /** The tokens being real, no cutoff falls under a near cost. */
  lemma NearIsKept(g: Graph, d: Dense, opts: DecodeOptions, frontier: Frontier, frames: nat, cutoff: Cost, cost: Cost)
    requires g.Valid() && d.Valid() && TokensAreReal(g, d, frontier, frames) && CutoffOf(frontier, opts, cutoff)
    requires Near(g, d, opts, frames, cost)
    ensures cost.AtMost(cutoff)
  {
    if cutoff.Finite? {
      if s :| s in frontier && frontier[s].cost.Plus(opts.beam).AtMost(cutoff) {
        assert IsReal(g, d, frames, s, frontier[s].cost);
        var path :| Walk(g, d, path, frames, s) && WalkCost(g, d, path, frames, s) == frontier[s].cost;
        assert cost.AtMost(WalkCost(g, d, path, frames, s).Plus(opts.beam));
      } else if cutoff.Less(cost) {
        var states := Kept(frontier, cutoff).Keys;
        forall s | s in states ensures ReachedUnder(g, d, frames, s, cost) {
          assert IsReal(g, d, frames, s, frontier[s].cost);
          var path :| Walk(g, d, path, frames, s) && WalkCost(g, d, path, frames, s) == frontier[s].cost;
        }
        assert AllReachedUnder(g, d, frames, states, cost);
      }
    }
  }

  /** Every path that is surely tried has a token no dearer. */
  ghost predicate AllTried(g: Graph, d: Dense, opts: DecodeOptions, frontier: Frontier, frames: nat)
    requires g.Valid() && d.Valid()
  {
    forall path, s | Walk(g, d, path, frames, s) && SurelyTried(g, d, opts, path, frames, s) ::
      Covers(frontier, s, WalkCost(g, d, path, frames, s))
  }

  ghost predicate Covers(frontier: Frontier, s: nat, cost: Cost) {
    s in frontier && frontier[s].cost.AtMost(cost)
  }

  /** Everything surely tried having its token, no cutoff lets more in than may be kept. */
  lemma CutoffIsInside(g: Graph, d: Dense, opts: DecodeOptions, frontier: Frontier, frames: nat, cutoff: Cost)
    requires g.Valid() && d.Valid() && AllTried(g, d, opts, frontier, frames) && CutoffOf(frontier, opts, cutoff)
    ensures AllInside(g, d, opts, frames, cutoff)
  {
    forall cost: Cost | cost.AtMost(cutoff) && frames > 0 ensures Inside(g, d, opts, frames, cost) {
      forall path, s | Walk(g, d, path, frames, s) && SurelyTried(g, d, opts, path, frames, s)
        ensures cost.AtMost(WalkCost(g, d, path, frames, s).Plus(opts.beam))
      {
        assert Covers(frontier, s, WalkCost(g, d, path, frames, s));
        PlusMonotone(frontier[s].cost, WalkCost(g, d, path, frames, s), opts.beam);
      }
      forall states: set<nat> | AllTriedUnder(g, d, opts, frames, states, cost) ensures |states| <= Cap(opts) {
        forall s | s in states ensures s in Cheaper(frontier, cutoff).Keys {
          assert TriedUnder(g, d, opts, frames, s, cost);
          var path :| Walk(g, d, path, frames, s) && SurelyTried(g, d, opts, path, frames, s)
                      && WalkCost(g, d, path, frames, s).Less(cost);
          assert Covers(frontier, s, WalkCost(g, d, path, frames, s));
        }
        FewerMembers(states, Cheaper(frontier, cutoff).Keys);
      }
    }
  }
}
