/** `T` frames against `N + 1` positions, one frame consumed per transition, and
    the paths through them. A path is named by the transition each frame took and
    the position it landed in; nothing here mentions rows, bands or dynamic
    programming except the band itself. */
module Trellises {
  import opened Costs

  /** One transition into a cell: how far it moves and what it costs. */
  datatype Step = Step(advance: nat, cost: Cost)

  const ABSENT := Step(0, Infinite)

  /** `stepsInto(frame, position)` lists the `degree` transitions entering
      `position` when `frame` is consumed, best-first. */
  datatype Trellis = Trellis(
    numFrames: nat,
    numPositions: nat,
    degree: nat,
    declaredReach: nat,
    stepsInto: (nat, nat) -> seq<Step>)
  {
    function Reach(): (r: nat)
      ensures r >= 1
    {
      Max(declaredReach, 1)
    }

    /** The contract the solvers assume of an implementation. An infinite step
        may name any advance the padded row can absorb. */
    ghost predicate Lawful() {
      forall frame: nat, position: nat | frame < numFrames && position <= numPositions ::
        |stepsInto(frame, position)| == degree
        && forall code | 0 <= code < degree :: LawfulStep(stepsInto(frame, position)[code], position)
    }

    predicate LawfulStep(step: Step, position: nat) {
      && step.advance <= Reach() + position
      && (step.cost.Finite? ==> step.advance <= position && step.advance <= Reach())
    }

    /** The first and last cells of the band after `frame` frames. */
    function Lo(frame: nat): nat {
      var left := numFrames - Min(frame, numFrames);
      var span := Reach() * left;
      if numPositions <= span then 0 else numPositions - span
    }

    function Hi(frame: nat): nat {
      Min(Reach() * frame, numPositions)
    }

    predicate InBand(frame: nat, position: nat) {
      Lo(frame) <= position <= Hi(frame)
    }
  }

  /** One frame of a path: which transition it took and where that landed. */
  datatype Hop = Hop(code: nat, position: nat)

  /** Whether `hops` is a path from position 0 that ends at `position` after
      `|hops|` frames, over transitions that are really there. */
  ghost predicate PathTo(tr: Trellis, hops: seq<Hop>, position: nat)
    requires tr.Lawful()
  {
    if |hops| == 0 then position == 0
    else
      var hop := hops[|hops| - 1];
      && |hops| <= tr.numFrames
      && hop.position == position <= tr.numPositions
      && hop.code < tr.degree
      && var step := tr.stepsInto(|hops| - 1, position)[hop.code];
      && step.cost.Finite?
      && PathTo(tr, hops[..|hops| - 1], position - step.advance)
  }

  ghost predicate Complete(tr: Trellis, hops: seq<Hop>)
    requires tr.Lawful()
  {
    |hops| == tr.numFrames && PathTo(tr, hops, tr.numPositions)
  }

  /** The whole cost of a path: its transitions', added up. */
  ghost function CostOf(tr: Trellis, hops: seq<Hop>, position: nat): real
    requires tr.Lawful() && PathTo(tr, hops, position)
  {
    if |hops| == 0 then 0.0
    else
      var step := tr.stepsInto(|hops| - 1, position)[hops[|hops| - 1].code];
      CostOf(tr, hops[..|hops| - 1], position - step.advance) + step.cost.value
  }

  /** Where a path stands after `frame` of its frames. */
  function PositionAfter(hops: seq<Hop>, frame: nat): nat
    requires frame <= |hops|
  {
    if frame == 0 then 0 else hops[frame - 1].position
  }

  // The band moves by at most one reach per frame, at both ends.
  lemma BandMoves(tr: Trellis, frame: nat)
    requires frame < tr.numFrames
    ensures tr.Lo(frame) <= tr.Lo(frame + 1)
    ensures tr.Lo(frame + 1) == 0 || tr.Lo(frame + 1) <= tr.Lo(frame) + tr.Reach()
    ensures tr.Lo(frame + 1) > 0 ==> tr.numPositions - tr.Reach() * (tr.numFrames - frame) == tr.Lo(frame + 1) - tr.Reach()
    ensures tr.Hi(frame) <= tr.Hi(frame + 1) <= tr.Hi(frame) + tr.Reach()
    ensures tr.Hi(frame + 1) <= tr.numPositions
    ensures tr.Hi(frame) < tr.numPositions ==> tr.Hi(frame) == tr.Reach() * frame
  {
    var left := tr.numFrames - frame;
    assert tr.Reach() * left == tr.Reach() * (left - 1) + tr.Reach();
    assert tr.Reach() * (frame + 1) == tr.Reach() * frame + tr.Reach();
  }

  /** Stepping back from a cell at or above the next frame's band stays at or
      above this frame's: no read falls below the previous band. */
  lemma BackwardStaysAbove(tr: Trellis, frame: nat, position: nat, advance: nat)
    requires frame < tr.numFrames
    requires tr.Lo(frame + 1) <= position
    requires advance <= position && advance <= tr.Reach()
    ensures tr.Lo(frame) <= position - advance
  {
    BandMoves(tr, frame);
    var left := tr.numFrames - frame;
    assert tr.Reach() * left == tr.Reach() * (left - 1) + tr.Reach();
  }

  lemma {:induction false} PathStaysBelow(tr: Trellis, hops: seq<Hop>, position: nat)
    requires tr.Lawful() && PathTo(tr, hops, position)
    ensures position <= tr.Reach() * |hops|
  {
    if |hops| > 0 {
      var step := tr.stepsInto(|hops| - 1, position)[hops[|hops| - 1].code];
      PathStaysBelow(tr, hops[..|hops| - 1], position - step.advance);
      assert tr.Reach() * |hops| == tr.Reach() * (|hops| - 1) + tr.Reach();
    }
  }

  lemma {:induction false} PrefixIsPath(tr: Trellis, hops: seq<Hop>, position: nat, frame: nat)
    requires tr.Lawful() && PathTo(tr, hops, position) && frame <= |hops|
    ensures PathTo(tr, hops[..frame], PositionAfter(hops, frame))
    decreases |hops|
  {
    if frame == |hops| {
      assert hops[..frame] == hops;
    } else {
      var step := tr.stepsInto(|hops| - 1, position)[hops[|hops| - 1].code];
      var front := hops[..|hops| - 1];
      PrefixIsPath(tr, front, position - step.advance, frame);
      assert front[..frame] == hops[..frame];
    }
  }

  // Every cell of a path is above the band's lower edge, read from the end.
  lemma {:induction false} CompleteStaysAbove(tr: Trellis, hops: seq<Hop>, frame: nat)
    requires tr.Lawful() && Complete(tr, hops) && frame <= tr.numFrames
    ensures tr.Lo(frame) <= PositionAfter(hops, frame)
    decreases tr.numFrames - frame
  {
    if frame < tr.numFrames {
      CompleteStaysAbove(tr, hops, frame + 1);
      PrefixIsPath(tr, hops, tr.numPositions, frame + 1);
      var prefix := hops[..frame + 1];
      var landing := PositionAfter(hops, frame + 1);
      var step := tr.stepsInto(frame, landing)[hops[frame].code];
      BackwardStaysAbove(tr, frame, landing, step.advance);
      assert prefix[..frame] == hops[..frame];
      EndIsPosition(tr, hops[..frame], landing - step.advance);
    } else if frame == 0 {
      assert tr.Reach() * 0 == 0;
    }
  }

  lemma EndIsPosition(tr: Trellis, hops: seq<Hop>, position: nat)
    requires tr.Lawful() && PathTo(tr, hops, position)
    ensures PositionAfter(hops, |hops|) == position
  {}

  /** No complete path ever stands outside the band, so leaving the rest out
      costs nothing. */
  lemma BandIsSound(tr: Trellis, hops: seq<Hop>, frame: nat)
    requires tr.Lawful() && Complete(tr, hops) && frame <= tr.numFrames
    ensures tr.InBand(frame, PositionAfter(hops, frame))
  {
    CompleteStaysAbove(tr, hops, frame);
    PrefixIsPath(tr, hops, tr.numPositions, frame);
    PathStaysBelow(tr, hops[..frame], PositionAfter(hops, frame));
    PositionsInRange(tr, hops, tr.numPositions, frame);
  }

  lemma {:induction false} PositionsInRange(tr: Trellis, hops: seq<Hop>, position: nat, frame: nat)
    requires tr.Lawful() && PathTo(tr, hops, position) && frame <= |hops|
    ensures PositionAfter(hops, frame) <= tr.numPositions
  {
    PrefixIsPath(tr, hops, position, frame);
  }

  /** Whether a trellis uses every advance its reach allows, everywhere. */
  ghost predicate UsesEveryAdvance(tr: Trellis)
    requires tr.Lawful()
  {
    forall frame: nat, position: nat, advance: nat
      | frame < tr.numFrames && position <= tr.numPositions && advance <= position && advance <= tr.Reach() ::
      CanAdvance(tr, frame, position, advance)
  }

  ghost predicate CanAdvance(tr: Trellis, frame: nat, position: nat, advance: nat)
    requires tr.Lawful() && frame < tr.numFrames && position <= tr.numPositions
  {
    exists code: nat :: HasAdvance(tr, frame, position, advance, code)
  }

  ghost predicate HasAdvance(tr: Trellis, frame: nat, position: nat, advance: nat, code: nat)
    requires tr.Lawful() && frame < tr.numFrames && position <= tr.numPositions
  {
    && code < tr.degree
    && tr.stepsInto(frame, position)[code].cost.Finite?
    && tr.stepsInto(frame, position)[code].advance == advance
  }

  lemma Extend(tr: Trellis, hops: seq<Hop>, from: nat, to: nat, code: nat)
    requires tr.Lawful() && PathTo(tr, hops, from) && |hops| < tr.numFrames
    requires from <= to <= tr.numPositions && HasAdvance(tr, |hops|, to, to - from, code)
    ensures PathTo(tr, hops + [Hop(code, to)], to)
  {
    assert (hops + [Hop(code, to)])[..|hops|] == hops;
  }

  /** Whether `left` frames can cover a gap. */
  predicate Covers(reach: nat, left: nat, gap: nat) {
    gap <= reach * left
  }

  // A gap that `left` frames can cover is covered by one step of the reach and
  // the frames after it.
  lemma OneStepCloser(reach: nat, left: nat, gap: nat)
    requires 0 < left && Covers(reach, left, gap)
    ensures Covers(reach, left - 1, gap - Min(reach, gap))
  {
    assert reach * left == reach * (left - 1) + reach;
    assert 0 <= reach * (left - 1);
  }

  lemma NoneLeft(reach: nat, gap: nat)
    ensures Covers(reach, 0, gap) ==> gap == 0
  {}

  lemma {:induction false} ReachCell(tr: Trellis, frame: nat, position: nat) returns (hops: seq<Hop>)
    requires tr.Lawful() && UsesEveryAdvance(tr)
    requires frame <= tr.numFrames && Covers(tr.Reach(), frame, position) && position <= tr.numPositions
    ensures |hops| == frame && PathTo(tr, hops, position)
  {
    NoneLeft(tr.Reach(), position);
    hide Covers, Trellis.Lawful;
    if frame == 0 {
      hops := [];
    } else {
      var advance := Min(tr.Reach(), position);
      OneStepCloser(tr.Reach(), frame, position);
      hops := ReachCell(tr, frame - 1, position - advance);
      assert CanAdvance(tr, frame - 1, position, advance);
      var code: nat :| HasAdvance(tr, frame - 1, position, advance, code);
      Extend(tr, hops, position - advance, position, code);
      hops := hops + [Hop(code, position)];
    }
  }

  lemma {:induction false} FinishFrom(tr: Trellis, hops: seq<Hop>, position: nat) returns (whole: seq<Hop>)
    requires tr.Lawful() && UsesEveryAdvance(tr)
    requires |hops| <= tr.numFrames && PathTo(tr, hops, position) && position <= tr.numPositions
    requires Covers(tr.Reach(), tr.numFrames - |hops|, tr.numPositions - position)
    ensures Complete(tr, whole) && hops <= whole
    decreases tr.numFrames - |hops|
  {
    NoneLeft(tr.Reach(), tr.numPositions - position);
    hide Covers, Trellis.Lawful, PathTo;
    var left := tr.numFrames - |hops|;
    if left == 0 {
      whole := hops;
    } else {
      var advance := Min(tr.Reach(), tr.numPositions - position);
      OneStepCloser(tr.Reach(), left, tr.numPositions - position);
      assert CanAdvance(tr, |hops|, position + advance, advance);
      var code: nat :| HasAdvance(tr, |hops|, position + advance, advance, code);
      Extend(tr, hops, position, position + advance, code);
      var longer := hops + [Hop(code, position + advance)];
      assert hops <= longer && tr.numFrames - |longer| == left - 1;
      whole := FinishFrom(tr, longer, position + advance);
    }
  }

  /** The band is exact for a trellis that uses every advance: each of its cells
      is on some complete path, and no other cell is. */
  lemma BandIsExact(tr: Trellis, frame: nat, position: nat)
    requires tr.Lawful() && UsesEveryAdvance(tr) && frame <= tr.numFrames
    ensures tr.InBand(frame, position)
       <==> exists hops :: Complete(tr, hops) && PositionAfter(hops, frame) == position
  {
    if tr.InBand(frame, position) {
      var prefix := ReachCell(tr, frame, position);
      var whole := FinishFrom(tr, prefix, position);
      EndIsPosition(tr, prefix, position);
      assert Complete(tr, whole) && PositionAfter(whole, frame) == position;
    }
    forall hops | Complete(tr, hops) && PositionAfter(hops, frame) == position
      ensures tr.InBand(frame, position)
    {
      BandIsSound(tr, hops, frame);
    }
  }
}
