/** Forward-backward over a trellis: the probability of every path at once, and
    the share of it that each transition carries. */
module ForwardBackward {
  import opened Costs
  import opened Trellises
  import opened Sums
  import opened PathMasses
  import opened Reversals
  import opened LogSums
  import Tracebacks

  /** The mass of completing from each cell. */
  ghost function Beta(rv: Reversible, w: Weighing, frame: nat): nat -> real
    requires rv.Lawful() && frame <= rv.forward.numFrames
    decreases rv.forward.numFrames - frame
  {
    if frame == rv.forward.numFrames then (i: nat) => if i == rv.forward.numPositions then 1.0 else 0.0
    else Pull(rv, w, frame, Beta(rv, w, frame + 1))
  }

  /** The probability of every complete path, and of those taking one transition. */
  ghost function Total(tr: Trellis, w: Weighing): real
    requires tr.Lawful()
  {
    MassOf(tr, w, PathsTo(tr, tr.numFrames, tr.numPositions), Everything)
  }

  ghost function Using(tr: Trellis, w: Weighing, frame: nat, hop: Hop): real
    requires tr.Lawful()
  {
    MassOf(tr, w, PathsTo(tr, tr.numFrames, tr.numPositions), Taking(frame, hop))
  }

  /** A table over the positions of a frame, completed from there. */
  ghost function Finished(rv: Reversible, w: Weighing, frame: nat, table: nat -> real): real
    requires rv.Lawful() && frame <= rv.forward.numFrames
  {
    Sum(rv.forward.numPositions + 1, Paired(table, Beta(rv, w, frame)))
  }

  lemma FinishedSame(rv: Reversible, w: Weighing, frame: nat, a: nat -> real, b: nat -> real)
    requires rv.Lawful() && frame <= rv.forward.numFrames
    requires forall i: nat | i <= rv.forward.numPositions :: a(i) == b(i)
    ensures Finished(rv, w, frame, a) == Finished(rv, w, frame, b)
  {
    SumSame(rv.forward.numPositions + 1, Paired(a, Beta(rv, w, frame)), Paired(b, Beta(rv, w, frame)));
  }

  lemma FinishedAtEnd(rv: Reversible, w: Weighing, table: nat -> real)
    requires rv.Lawful()
    ensures Finished(rv, w, rv.forward.numFrames, table) == table(rv.forward.numPositions)
  {
    var n := rv.forward.numPositions;
    var beta := Beta(rv, w, rv.forward.numFrames);
    forall i | 0 <= i < n + 1 && i != n ensures Paired(table, beta)(i) == 0.0 {
      assert beta(i) == 0.0;
    }
    SumSingle(n + 1, Paired(table, beta), n);
  }

  // From a frame the filter has nothing to say about, one frame on, the finished
  // mass is the same.
  lemma FinishedKept(rv: Reversible, w: Weighing, filter: Filter, frame: nat)
    requires rv.Lawful() && w.Lawful() && frame < rv.forward.numFrames
    requires filter.Taking? ==> filter.frame != frame
    ensures Finished(rv, w, frame, Mass(rv.forward, w, filter, frame))
         == Finished(rv, w, frame + 1, Mass(rv.forward, w, filter, frame + 1))
  {
    hide Mass, Push, Pull;
    var now := Mass(rv.forward, w, filter, frame);
    PushIsPull(rv, w, frame, now, Beta(rv, w, frame + 1));
    forall i: nat | i <= rv.forward.numPositions
      ensures Push(rv.forward, w, frame, now)(i) == Mass(rv.forward, w, filter, frame + 1)(i)
    {
      MassIsPushed(rv.forward, w, filter, frame, i);
    }
    FinishedSame(rv, w, frame + 1, Push(rv.forward, w, frame, now), Mass(rv.forward, w, filter, frame + 1));
  }

  lemma {:induction false} FinishedIsFinal(rv: Reversible, w: Weighing, filter: Filter, frame: nat)
    requires rv.Lawful() && w.Lawful() && frame <= rv.forward.numFrames
    requires filter.Taking? ==> filter.frame < frame
    ensures Finished(rv, w, frame, Mass(rv.forward, w, filter, frame))
         == MassOf(rv.forward, w, PathsTo(rv.forward, rv.forward.numFrames, rv.forward.numPositions), filter)
    decreases rv.forward.numFrames - frame
  {
    if frame == rv.forward.numFrames {
      FinishedAtEnd(rv, w, Mass(rv.forward, w, filter, frame));
    } else {
      FinishedKept(rv, w, filter, frame);
      FinishedIsFinal(rv, w, filter, frame + 1);
    }
  }

  /** Forward mass times backward mass, added over any one frame, is the whole. */
  lemma EveryFrameHoldsTotal(rv: Reversible, w: Weighing, frame: nat)
    requires rv.Lawful() && w.Lawful() && frame <= rv.forward.numFrames
    ensures Finished(rv, w, frame, Mass(rv.forward, w, Everything, frame)) == Total(rv.forward, w)
  {
    FinishedIsFinal(rv, w, Everything, frame);
  }

  /** The backward pass ends where the forward one did. */
  lemma BackwardAgrees(rv: Reversible, w: Weighing)
    requires rv.Lawful() && w.Lawful()
    ensures Beta(rv, w, 0)(0) == Total(rv.forward, w)
  {
    EveryFrameHoldsTotal(rv, w, 0);
    var start := Mass(rv.forward, w, Everything, 0);
    StartMass(rv.forward, w);
    SumSingle(rv.forward.numPositions + 1, Paired(start, Beta(rv, w, 0)), 0);
  }

  lemma StartMass(tr: Trellis, w: Weighing)
    requires tr.Lawful() && w.Lawful()
    ensures forall i: nat :: Mass(tr, w, Everything, 0)(i) == if i == 0 then 1.0 else 0.0
  {
    assert PathTo(tr, [], 0);
    assert PathMass(tr, w, []) == w.of(ZERO);
    LastOfMass(tr, w, [[]], Everything);
    NoPathsNoMass(tr, w, Everything);
  }

  /** What the solver computes for a transition is the probability of the complete
      paths that take it. */
  lemma TransitionMass(rv: Reversible, w: Weighing, frame: nat, hop: Hop)
    requires rv.Lawful() && w.Lawful() && frame < rv.forward.numFrames
    requires hop.position <= rv.forward.numPositions && hop.code < rv.forward.degree
    ensures Using(rv.forward, w, frame, hop)
         == Times(Carry(rv.forward, w, frame, Mass(rv.forward, w, Everything, frame), hop.position, hop.code),
                  Beta(rv, w, frame + 1)(hop.position))
  {
    var filter := Taking(frame, hop);
    var tr := rv.forward;
    FinishedIsFinal(rv, w, filter, frame + 1);
    var taken := Mass(tr, w, filter, frame + 1);
    forall i: nat | i <= tr.numPositions
      ensures taken(i) == if i == hop.position
                          then Carry(tr, w, frame, Mass(tr, w, Everything, frame), hop.position, hop.code) else 0.0
    {
      ViaTaken(tr, w, i, tr.degree, filter);
    }
    SumSingle(tr.numPositions + 1, Paired(taken, Beta(rv, w, frame + 1)), hop.position);
  }

  // -- Outside the band nothing carries mass -----------------------------------------

  lemma NoMassBeyondReach(tr: Trellis, w: Weighing, frame: nat, position: nat)
    requires tr.Lawful() && frame <= tr.numFrames && position <= tr.numPositions && tr.Hi(frame) < position
    ensures Mass(tr, w, Everything, frame)(position) == 0.0
  {
    EnumerationIsExact(tr, frame, position);
    var paths := PathsTo(tr, frame, position);
    if paths != [] {
      assert paths[0] in paths;
      PathStaysBelow(tr, paths[0], position);
    }
    NoPathsNoMass(tr, w, Everything);
  }

  lemma {:induction false} NothingCompletesBelowBand(rv: Reversible, w: Weighing, frame: nat, position: nat)
    requires rv.Lawful() && frame <= rv.forward.numFrames && position < rv.forward.Lo(frame)
    ensures Beta(rv, w, frame)(position) == 0.0
    decreases rv.forward.numFrames - frame
  {
    hide Trellis.Lo, Recover;
    var tr := rv.forward;
    if frame < tr.numFrames {
      var table := Beta(rv, w, frame + 1);
      forall to: nat | to < tr.Lo(frame + 1) ensures table(to) == 0.0 {
        NothingCompletesBelowBand(rv, w, frame + 1, to);
      }
      PulledBelowBand(rv, w, frame, table, position);
    } else {
      LastLo(tr);
    }
  }

  lemma LastLo(tr: Trellis)
    ensures tr.Lo(tr.numFrames) == tr.numPositions
  {}

  lemma PulledBelowBand(rv: Reversible, w: Weighing, frame: nat, table: nat -> real, position: nat)
    requires rv.Lawful() && frame < rv.forward.numFrames && position < rv.forward.Lo(frame)
    requires forall to: nat | to < rv.forward.Lo(frame + 1) :: table(to) == 0.0
    ensures Pull(rv, w, frame, table)(position) == 0.0
  {
    var tr := rv.forward;
    var terms := Recovers(rv, w, frame, table, position);
    forall code: nat | code < tr.degree ensures terms(code) == 0.0 {
      RecoveredBelowBand(rv, w, frame, table, position, code);
    }
    SumZero(tr.degree, terms);
  }

  lemma RecoveredBelowBand(rv: Reversible, w: Weighing, frame: nat, table: nat -> real, position: nat, code: nat)
    requires rv.Lawful() && frame < rv.forward.numFrames && position < rv.forward.Lo(frame) && code < rv.forward.degree
    requires forall to: nat | to < rv.forward.Lo(frame + 1) :: table(to) == 0.0
    ensures Recover(rv, w, frame, table, position, code) == 0.0
  {
    var tr := rv.forward;
    if position <= tr.numPositions && rv.stepsOutOf(frame, position)[code].cost.Finite? {
      var step := rv.stepsOutOf(frame, position)[code];
      assert rv.LeavesAsArrives(frame, position, code);
      assert tr.LawfulStep(step, position + step.advance);
      NextBelow(tr, frame, position, step.advance);
      assert table(position + step.advance) == 0.0;
      TimesPlus(0.0, 0.0, w.of(step.cost));
    }
  }

  lemma NextBelow(tr: Trellis, frame: nat, position: nat, advance: nat)
    requires frame < tr.numFrames && position < tr.Lo(frame) && advance <= tr.Reach()
    ensures position + advance < tr.Lo(frame + 1)
  {
    var left := tr.numFrames - frame;
    assert tr.Reach() * left == tr.Reach() * (left - 1) + tr.Reach();
    assert 0 <= tr.Reach() * (left - 1);
  }

  // -- The forward plane ----------------------------------------------------------------

  function Width(tr: Trellis): nat {
    tr.numPositions + 1 + tr.Reach()
  }

  /** One row of a plane laid out flat. */
  ghost function RowOf(plane: seq<real>, width: nat, frame: nat): seq<real>
    requires (frame + 1) * width <= |plane|
  {
    plane[frame * width..(frame + 1) * width]
  }

  lemma RowsFit(width: nat, frame: nat, frames: nat)
    requires frame < frames
    ensures 0 <= frame * width <= (frame + 1) * width <= frames * width
    ensures (frame + 1) * width == frame * width + width
  {
    Tracebacks.MulMonotone(frame + 1, frames, width);
  }

  lemma WriteOne(plane: seq<real>, width: nat, frames: nat, written: nat, k: nat, x: real, frame: nat)
    requires |plane| == frames * width && written < frames && frame < frames && k < width
    ensures (written + 1) * width <= |plane| && (frame + 1) * width <= |plane| && written * width + k < |plane|
    ensures RowOf(plane[written * width + k := x], width, frame)
         == if frame == written then RowOf(plane, width, written)[k := x] else RowOf(plane, width, frame)
  {
    RowsFit(width, frame, frames);
    RowsFit(width, written, frames);
    if frame != written {
      Tracebacks.ProductsApart(frame, written, width);
    }
  }

  /** A row holds the mass of every cell of the band up to `i`, and above that is
      as it was made. */
  ghost predicate RowMass(tr: Trellis, w: Weighing, row: seq<real>, frame: nat, i: nat)
    requires tr.Lawful() && frame <= tr.numFrames
  {
    && |row| == Width(tr)
    && (forall k: nat | tr.Reach() + tr.Lo(frame) <= k < tr.Reach() + i && k < |row| ::
          row[k] == Mass(tr, w, Everything, frame)(k - tr.Reach()))
    && (forall k: nat | tr.Reach() + i <= k < |row| :: row[k] == 0.0)
  }

  ghost predicate RowRight(tr: Trellis, w: Weighing, row: seq<real>, frame: nat)
    requires tr.Lawful() && frame <= tr.numFrames
  {
    && |row| == Width(tr)
    && forall k: nat | tr.Reach() + tr.Lo(frame) <= k < |row| ::
         row[k] == Mass(tr, w, Everything, frame)(k - tr.Reach())
  }

  lemma RowDone(tr: Trellis, w: Weighing, row: seq<real>, frame: nat, i: nat)
    requires tr.Lawful() && frame <= tr.numFrames && i > tr.Hi(frame) && RowMass(tr, w, row, frame, i)
    ensures RowRight(tr, w, row, frame)
  {
    hide Mass, Trellis.Hi;
    forall k: nat | tr.Reach() + tr.Lo(frame) <= k < |row|
      ensures row[k] == Mass(tr, w, Everything, frame)(k - tr.Reach())
    {
      if k >= tr.Reach() + i {
        NoMassBeyondReach(tr, w, frame, k - tr.Reach());
      }
    }
  }

  lemma CarryRead(tr: Trellis, w: Weighing, prev: seq<real>, frame: nat, i: nat, code: nat)
    requires tr.Lawful() && w.Lawful() && frame < tr.numFrames && tr.InBand(frame + 1, i) && i <= tr.numPositions
    requires code < tr.degree && RowRight(tr, w, prev, frame)
    ensures var step := tr.stepsInto(frame, i)[code];
            && 0 <= tr.Reach() + i - step.advance < |prev|
            && Times(prev[tr.Reach() + i - step.advance], w.of(step.cost))
               == Carry(tr, w, frame, Mass(tr, w, Everything, frame), i, code)
  {
    hide Mass;
    var step := tr.stepsInto(frame, i)[code];
    assert tr.LawfulStep(step, i);
    if step.cost.Finite? {
      BackwardStaysAbove(tr, frame, i, step.advance);
    } else {
      TimesSplit(prev[tr.Reach() + i - step.advance], 0.0, 0.0);
    }
  }

  method ForwardCell(tr: Trellis, w: Weighing, alpha: array<real>, frame: nat, i: nat) returns (sum: real)
    requires tr.Lawful() && w.Lawful() && frame < tr.numFrames && tr.InBand(frame + 1, i) && i <= tr.numPositions
    requires alpha.Length == (tr.numFrames + 1) * Width(tr) && (frame + 1) * Width(tr) <= alpha.Length
    requires RowRight(tr, w, RowOf(alpha[..], Width(tr), frame), frame)
    ensures sum == Mass(tr, w, Everything, frame + 1)(i)
  {
    hide Mass, Times, Carry, RowRight, Weighing.Lawful, Trellis.InBand, Width;
    var steps := tr.stepsInto(frame, i);
    ghost var carries := Carries(tr, w, frame, Mass(tr, w, Everything, frame), i);
    RowsFit(Width(tr), frame, tr.numFrames + 1);
    ghost var prev := RowOf(alpha[..], Width(tr), frame);
    var terms := [];
    var c := 0;
    while c < |steps|
      invariant 0 <= c == |terms| <= |steps| == tr.degree
      invariant forall k: nat | k < c :: terms[k] == carries(k) && terms[k] >= 0.0
    {
      CarryRead(tr, w, prev, frame, i, c);
      CarryNonNegative(tr, w, Everything, frame, i, c);
      var at := tr.Reach() + i - steps[c].advance;
      assert prev[at] == alpha[frame * Width(tr) + at];
      terms := terms + [Times(alpha[frame * Width(tr) + at], w.of(steps[c].cost))];
      c := c + 1;
    }
    var pivot, shares;
    sum, pivot, shares := LogSum(terms);
    SumSame(tr.degree, TermAt(terms), carries);
    MassIsPushed(tr, w, Everything, frame, i);
  }

  /** The plane's first rows are right and the rest are as they were made. */
  ghost predicate PlaneUpTo(tr: Trellis, w: Weighing, plane: seq<real>, frames: nat)
    requires tr.Lawful() && frames <= tr.numFrames
  {
    && |plane| == (tr.numFrames + 1) * Width(tr)
    && (forall frame: nat | frame <= frames :: PlaneRow(tr, plane, frame) && RowRight(tr, w, RowOf(plane, Width(tr), frame), frame))
    && (forall frame: nat | frames < frame <= tr.numFrames ::
          PlaneRow(tr, plane, frame) && RowMass(tr, w, RowOf(plane, Width(tr), frame), frame, 0))
  }

  ghost predicate PlaneRow(tr: Trellis, plane: seq<real>, frame: nat) {
    (frame + 1) * Width(tr) <= |plane|
  }

  /** The row being filled, beside the rows already right. */
  ghost predicate Filling(tr: Trellis, w: Weighing, plane: seq<real>, frame: nat, i: nat)
    requires tr.Lawful() && frame < tr.numFrames
  {
    && |plane| == (tr.numFrames + 1) * Width(tr)
    && (forall f: nat | f <= frame :: PlaneRow(tr, plane, f) && RowRight(tr, w, RowOf(plane, Width(tr), f), f))
    && PlaneRow(tr, plane, frame + 1) && RowMass(tr, w, RowOf(plane, Width(tr), frame + 1), frame + 1, i)
    && (forall f: nat | frame + 1 < f <= tr.numFrames ::
          PlaneRow(tr, plane, f) && RowMass(tr, w, RowOf(plane, Width(tr), f), f, 0))
  }

  lemma FillOneMore(tr: Trellis, w: Weighing, plane: seq<real>, frame: nat, i: nat, x: real)
    requires tr.Lawful() && frame < tr.numFrames && tr.InBand(frame + 1, i) && i <= tr.numPositions
    requires Filling(tr, w, plane, frame, i) && x == Mass(tr, w, Everything, frame + 1)(i)
    ensures (frame + 1) * Width(tr) + tr.Reach() + i < |plane|
    ensures Filling(tr, w, plane[(frame + 1) * Width(tr) + tr.Reach() + i := x], frame, i + 1)
  {
    hide RowOf, RowRight, Mass, Trellis.Lo, Trellis.Hi;
    var width := Width(tr);
    WriteOne(plane, width, tr.numFrames + 1, frame + 1, tr.Reach() + i, x, frame + 1);
    var after := plane[(frame + 1) * width + (tr.Reach() + i) := x];
    forall f: nat | f <= tr.numFrames && f != frame + 1
      ensures PlaneRow(tr, after, f) && RowOf(after, width, f) == RowOf(plane, width, f)
    {
      WriteOne(plane, width, tr.numFrames + 1, frame + 1, tr.Reach() + i, x, f);
    }
  }

  method ForwardRow(tr: Trellis, w: Weighing, alpha: array<real>, frame: nat)
    requires tr.Lawful() && w.Lawful() && frame < tr.numFrames
    requires PlaneUpTo(tr, w, alpha[..], frame)
    modifies alpha
    ensures PlaneUpTo(tr, w, alpha[..], frame + 1)
  {
    hide Filling, PlaneUpTo, Mass, RowOf, RowRight, RowMass, Trellis.Lo, Trellis.Hi, Width;
    BandMoves(tr, frame);
    var (lo, hi) := (tr.Lo(frame + 1), tr.Hi(frame + 1));
    var i := lo;
    FillStart(tr, w, alpha[..], frame);
    while i <= hi
      invariant lo <= i && (i <= hi + 1 || i == lo)
      invariant Filling(tr, w, alpha[..], frame, i)
    {
      FillingReads(tr, w, alpha[..], frame, i);
      var sum := ForwardCell(tr, w, alpha, frame, i);
      ghost var plane := alpha[..];
      FillOneMore(tr, w, plane, frame, i, sum);
      alpha[(frame + 1) * Width(tr) + tr.Reach() + i] := sum;
      assert alpha[..] == plane[(frame + 1) * Width(tr) + tr.Reach() + i := sum];
      i := i + 1;
    }
    FillEnd(tr, w, alpha[..], frame, i);
  }

  lemma FillStart(tr: Trellis, w: Weighing, plane: seq<real>, frame: nat)
    requires tr.Lawful() && frame < tr.numFrames && PlaneUpTo(tr, w, plane, frame)
    ensures Filling(tr, w, plane, frame, tr.Lo(frame + 1))
  {
    hide RowOf, RowRight, Trellis.Lo, Width;
  }

  lemma FillingReads(tr: Trellis, w: Weighing, plane: seq<real>, frame: nat, i: nat)
    requires tr.Lawful() && frame < tr.numFrames && Filling(tr, w, plane, frame, i)
    ensures |plane| == (tr.numFrames + 1) * Width(tr) && (frame + 1) * Width(tr) <= |plane|
    ensures RowRight(tr, w, RowOf(plane, Width(tr), frame), frame)
  {}

  lemma FillEnd(tr: Trellis, w: Weighing, plane: seq<real>, frame: nat, i: nat)
    requires tr.Lawful() && frame < tr.numFrames && Filling(tr, w, plane, frame, i) && i > tr.Hi(frame + 1)
    ensures PlaneUpTo(tr, w, plane, frame + 1)
  {
    hide RowOf, RowRight, RowMass, Trellis.Hi, Width;
    RowDone(tr, w, RowOf(plane, Width(tr), frame + 1), frame + 1, i);
  }

  method Forward(tr: Trellis, w: Weighing) returns (alpha: array<real>)
    requires tr.Lawful() && w.Lawful()
    ensures fresh(alpha) && PlaneUpTo(tr, w, alpha[..], tr.numFrames)
  {
    hide PlaneUpTo, Width;
    var cells := (tr.numFrames + 1) * Width(tr);
    alpha := new real[cells](_ => 0.0);
    PlaneStart(tr, w, alpha[..]);
    ghost var blank := alpha[..];
    alpha[tr.Reach()] := 1.0;
    assert alpha[..] == blank[tr.Reach() := 1.0];
    var t := 0;
    while t < tr.numFrames
      invariant t <= tr.numFrames && PlaneUpTo(tr, w, alpha[..], t)
    {
      ForwardRow(tr, w, alpha, t);
      t := t + 1;
    }
  }

  lemma BlankRow(tr: Trellis, plane: seq<real>, frame: nat)
    requires |plane| == (tr.numFrames + 1) * Width(tr) && frame <= tr.numFrames
    requires forall k | 0 <= k < |plane| :: plane[k] == 0.0
    ensures PlaneRow(tr, plane, frame)
    ensures var row := RowOf(plane, Width(tr), frame);
            |row| == Width(tr) && forall k | 0 <= k < |row| :: row[k] == 0.0
  {
    RowsFit(Width(tr), frame, tr.numFrames + 1);
  }

  lemma StartRow(tr: Trellis, w: Weighing, row: seq<real>)
    requires tr.Lawful() && w.Lawful() && |row| == Width(tr) && forall k | 0 <= k < |row| :: row[k] == 0.0
    ensures RowRight(tr, w, row[tr.Reach() := 1.0], 0)
  {
    hide Mass;
    StartMass(tr, w);
  }

  lemma PlaneStart(tr: Trellis, w: Weighing, plane: seq<real>)
    requires tr.Lawful() && w.Lawful() && |plane| == (tr.numFrames + 1) * Width(tr)
    requires forall k | 0 <= k < |plane| :: plane[k] == 0.0
    ensures tr.Reach() < |plane| && PlaneUpTo(tr, w, plane[tr.Reach() := 1.0], 0)
  {
    hide RowOf, RowRight, Trellis.Lo, Mass;
    var width := Width(tr);
    BlankRow(tr, plane, 0);
    RowsFit(width, 0, tr.numFrames + 1);
    StartRow(tr, w, RowOf(plane, width, 0));
    var after := plane[tr.Reach() := 1.0];
    WriteOne(plane, width, tr.numFrames + 1, 0, tr.Reach(), 1.0, 0);
    assert after == plane[0 * width + tr.Reach() := 1.0];
    forall f: nat | 0 < f <= tr.numFrames
      ensures PlaneRow(tr, after, f) && RowMass(tr, w, RowOf(after, width, f), f, 0)
    {
      BlankRow(tr, plane, f);
      WriteOne(plane, width, tr.numFrames + 1, 0, tr.Reach(), 1.0, f);
    }
  }
}
