/** A path read one frame at a time: where each frame started from, and the path's
    cost as a sum over its frames. */
module PathFrames {
  import opened Costs
  import opened Trellises
  import opened Sums

  /** The transition frame `t` of a path took. */
  ghost function StepAt(tr: Trellis, hops: seq<Hop>, t: nat): Step
    requires tr.Lawful() && t < |hops| <= tr.numFrames && hops[t].position <= tr.numPositions && hops[t].code < tr.degree
  {
    tr.stepsInto(t, hops[t].position)[hops[t].code]
  }

  /** Frame `t` took a transition that is there, from where the path stood. */
  ghost predicate FitsAt(tr: Trellis, hops: seq<Hop>, t: nat)
    requires tr.Lawful() && t < |hops| <= tr.numFrames
  {
    && hops[t].position <= tr.numPositions && hops[t].code < tr.degree
    && StepAt(tr, hops, t).cost.Finite?
    && hops[t].position == PositionAfter(hops, t) + StepAt(tr, hops, t).advance
  }

  ghost predicate AllFit(tr: Trellis, hops: seq<Hop>)
    requires tr.Lawful()
  {
    |hops| <= tr.numFrames && forall t: nat | t < |hops| :: FitsAt(tr, hops, t)
  }

  ghost function FrameCost(tr: Trellis, hops: seq<Hop>): nat -> real
    requires tr.Lawful() && AllFit(tr, hops)
  {
    (t: nat) => if t < |hops| && FitsAt(tr, hops, t) then StepAt(tr, hops, t).cost.value else 0.0
  }

  lemma PrefixFits(tr: Trellis, hops: seq<Hop>, n: nat)
    requires tr.Lawful() && n <= |hops| && AllFit(tr, hops)
    ensures AllFit(tr, hops[..n])
  {
    var front := hops[..n];
    forall t: nat | t < n ensures FitsAt(tr, front, t) {
      assert FitsAt(tr, hops, t) && front[t] == hops[t] && PositionAfter(front, t) == PositionAfter(hops, t);
    }
  }

  /** A path is exactly a list of hops every one of which fits. */
  lemma {:induction false} PathByFrames(tr: Trellis, hops: seq<Hop>, position: nat)
    requires tr.Lawful()
    ensures PathTo(tr, hops, position) <==> AllFit(tr, hops) && position == PositionAfter(hops, |hops|)
  {
    if |hops| > 0 && |hops| <= tr.numFrames {
      var last := |hops| - 1;
      var front := hops[..last];
      if PathTo(tr, hops, position) {
        var step := tr.stepsInto(last, position)[hops[last].code];
        PathByFrames(tr, front, position - step.advance);
        FitsOn(tr, hops, position);
      }
      if AllFit(tr, hops) && position == hops[last].position {
        PrefixFits(tr, hops, last);
        assert FitsAt(tr, hops, last);
        PathByFrames(tr, front, PositionAfter(front, last));
        assert PositionAfter(front, last) == PositionAfter(hops, last);
      }
    }
  }

  lemma FitsOn(tr: Trellis, hops: seq<Hop>, position: nat)
    requires tr.Lawful() && |hops| > 0 && PathTo(tr, hops, position)
    requires var last := |hops| - 1;
             var step := tr.stepsInto(last, position)[hops[last].code];
             AllFit(tr, hops[..last]) && position - step.advance == PositionAfter(hops[..last], last)
    ensures AllFit(tr, hops)
  {
    var last := |hops| - 1;
    var front := hops[..last];
    forall t: nat | t < |hops| ensures FitsAt(tr, hops, t) {
      assert PositionAfter(front, Min(t, last)) == PositionAfter(hops, Min(t, last));
      if t < last {
        assert FitsAt(tr, front, t) && front[t] == hops[t];
      }
    }
  }

  /** A path's cost is the sum of its frames'. */
  lemma {:induction false} CostByFrames(tr: Trellis, hops: seq<Hop>, position: nat)
    requires tr.Lawful() && PathTo(tr, hops, position)
    ensures AllFit(tr, hops) && CostOf(tr, hops, position) == Sum(|hops|, FrameCost(tr, hops))
  {
    PathByFrames(tr, hops, position);
    if |hops| > 0 {
      var last := |hops| - 1;
      var front := hops[..last];
      var step := tr.stepsInto(last, position)[hops[last].code];
      CostByFrames(tr, front, position - step.advance);
      forall t: nat | t < last ensures FrameCost(tr, front)(t) == FrameCost(tr, hops)(t) {
        assert front[t] == hops[t];
      }
      SumSame(last, FrameCost(tr, front), FrameCost(tr, hops));
    }
  }

  /** Positions never go back. */
  lemma {:induction false} PositionsRise(tr: Trellis, hops: seq<Hop>, a: nat, b: nat)
    requires tr.Lawful() && AllFit(tr, hops) && a <= b <= |hops|
    ensures PositionAfter(hops, a) <= PositionAfter(hops, b)
    decreases b - a
  {
    if a < b {
      PositionsRise(tr, hops, a, b - 1);
      assert FitsAt(tr, hops, b - 1);
    }
  }
}
