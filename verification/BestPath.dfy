/** The exact solver: the cheapest complete path, found with two score rows that
    are swapped and never cleared, over the cells of the band only. */
module BestPaths {
  import opened Costs
  import opened Trellises
  import opened Tracebacks

  datatype Error = BadDegree | TooLarge

  /** Which transition each frame took, where it landed, and the total cost. */
  datatype Path = Path(codes: seq<bv8>, positions: seq<nat>, cost: real)

  ghost function HopsOf(path: Path): (hops: seq<Hop>)
    requires |path.codes| == |path.positions|
    ensures |hops| == |path.codes|
  {
    HopsFrom(path.codes, path.positions)
  }

  ghost function HopsFrom(codes: seq<bv8>, positions: seq<nat>): (hops: seq<Hop>)
    requires |codes| == |positions|
    ensures |hops| == |codes|
  {
    seq(|codes|, t requires 0 <= t < |codes| => Hop(Index(codes[t]), positions[t]))
  }

  // -- The recurrence: the best cost of a cell over all of its paths ----------

  /** The cheapest way to stand at `position` after `frame` frames. */
  ghost function Best(tr: Trellis, frame: nat, position: nat): Cost
    requires tr.Lawful() && frame <= tr.numFrames && position <= tr.numPositions
    decreases frame, tr.degree + 1
  {
    if frame == 0 then (if position == 0 then ZERO else Infinite)
    else BestOf(tr, frame, position, tr.degree)
  }

  ghost function BestOf(tr: Trellis, frame: nat, position: nat, candidates: nat): Cost
    requires tr.Lawful() && 0 < frame <= tr.numFrames && position <= tr.numPositions && candidates <= tr.degree
    decreases frame, candidates
  {
    if candidates == 0 then Infinite
    else
      var best := BestOf(tr, frame, position, candidates - 1);
      var total := Through(tr, frame, position, candidates - 1);
      if total.Less(best) then total else best
  }

  ghost function Through(tr: Trellis, frame: nat, position: nat, code: nat): Cost
    requires tr.Lawful() && 0 < frame <= tr.numFrames && position <= tr.numPositions && code < tr.degree
    decreases frame, code
  {
    var step := tr.stepsInto(frame - 1, position)[code];
    if step.cost.Infinite? then Infinite
    else Best(tr, frame - 1, position - step.advance).Plus(step.cost)
  }

  /** The first code that attains the best cost. */
  ghost function CodeOf(tr: Trellis, frame: nat, position: nat, candidates: nat): (code: nat)
    requires tr.Lawful() && 0 < frame <= tr.numFrames && position <= tr.numPositions && candidates <= tr.degree
    ensures code == 0 || code < candidates
  {
    if candidates == 0 then 0
    else if Through(tr, frame, position, candidates - 1).Less(BestOf(tr, frame, position, candidates - 1))
      then candidates - 1
      else CodeOf(tr, frame, position, candidates - 1)
  }

  lemma {:induction false} CodeAttainsBest(tr: Trellis, frame: nat, position: nat, candidates: nat)
    requires tr.Lawful() && 0 < frame <= tr.numFrames && position <= tr.numPositions && candidates <= tr.degree
    ensures var best := BestOf(tr, frame, position, candidates);
            var code := CodeOf(tr, frame, position, candidates);
            && (best.Finite? ==> code < candidates && Through(tr, frame, position, code) == best)
            && (forall c: nat | c < candidates :: best.AtMost(Through(tr, frame, position, c)))
            && (best.Finite? ==> forall c: nat | c < code :: best.Less(Through(tr, frame, position, c)))
  {
    if candidates > 0 {
      CodeAttainsBest(tr, frame, position, candidates - 1);
    }
  }

  // No path is cheaper than the recurrence says.
  lemma {:induction false} BestIsLeast(tr: Trellis, hops: seq<Hop>, position: nat)
    requires tr.Lawful() && PathTo(tr, hops, position) && position <= tr.numPositions && |hops| <= tr.numFrames
    ensures Best(tr, |hops|, position).AtMost(Finite(CostOf(tr, hops, position)))
    decreases |hops|
  {
    if |hops| > 0 {
      var frame := |hops|;
      var code := hops[frame - 1].code;
      var step := tr.stepsInto(frame - 1, position)[code];
      BestIsLeast(tr, hops[..frame - 1], position - step.advance);
      CodeAttainsBest(tr, frame, position, tr.degree);
      assert Best(tr, frame, position).AtMost(Through(tr, frame, position, code));
    }
  }

  /** The path the traceback reads back. */
  ghost function Traced(tr: Trellis, frame: nat, position: nat): (hops: seq<Hop>)
    requires tr.Lawful() && frame <= tr.numFrames && position <= tr.numPositions
    requires Best(tr, frame, position).Finite?
    ensures |hops| == frame
  {
    if frame == 0 then []
    else
      CodeAttainsBest(tr, frame, position, tr.degree);
      var code := CodeOf(tr, frame, position, tr.degree);
      Traced(tr, frame - 1, position - tr.stepsInto(frame - 1, position)[code].advance) + [Hop(code, position)]
  }

  lemma {:induction false} TracedIsBest(tr: Trellis, frame: nat, position: nat)
    requires tr.Lawful() && frame <= tr.numFrames && position <= tr.numPositions
    requires Best(tr, frame, position).Finite?
    ensures PathTo(tr, Traced(tr, frame, position), position)
    ensures CostOf(tr, Traced(tr, frame, position), position) == Best(tr, frame, position).value
  {
    hide BestOf, CodeOf;
    if frame > 0 {
      CodeAttainsBest(tr, frame, position, tr.degree);
      var code := CodeOf(tr, frame, position, tr.degree);
      var from := position - tr.stepsInto(frame - 1, position)[code].advance;
      TracedIsBest(tr, frame - 1, from);
      assert Traced(tr, frame, position)[..frame - 1] == Traced(tr, frame - 1, from);
    }
  }

  // A cell no frame has reached yet is infinitely far.
  lemma BeyondReach(tr: Trellis, frame: nat, position: nat)
    requires tr.Lawful() && frame <= tr.numFrames && position <= tr.numPositions
    requires tr.Hi(frame) < position
    ensures Best(tr, frame, position) == Infinite
  {
    if Best(tr, frame, position).Finite? {
      TracedIsBest(tr, frame, position);
      PathStaysBelow(tr, Traced(tr, frame, position), position);
    }
  }

  // -- The rows ----------------------------------------------------------------

  /** What a score row, padded in front by the reach, has to hold before frame
      `frame` is consumed: the best cost of every cell from the band's lower edge
      up. Below the band the row may hold anything at all. */
  ghost predicate RowHolds(tr: Trellis, row: seq<Cost>, frame: nat)
    requires tr.Lawful() && frame <= tr.numFrames
  {
    && |row| == tr.Reach() + tr.numPositions + 1
    && forall k | tr.Reach() + tr.Lo(frame) <= k < |row| :: row[k] == Best(tr, frame, k - tr.Reach())
  }

  /** Cells the row has never had written, above everything reached so far. */
  ghost predicate Untouched(tr: Trellis, row: seq<Cost>, frame: nat) {
    && |row| == tr.Reach() + tr.numPositions + 1
    && forall k | tr.Reach() + tr.Hi(frame) < k < |row| :: row[k] == Infinite
  }

  /** The band's cells from its lower edge up to `i` are solved, and nothing
      above the band was ever written. */
  ghost predicate SolvedTo(tr: Trellis, row: seq<Cost>, frame: nat, i: nat)
    requires tr.Lawful() && frame <= tr.numFrames
  {
    && Untouched(tr, row, frame)
    && forall k | tr.Reach() + tr.Lo(frame) <= k < tr.Reach() + i && k <= tr.Reach() + tr.Hi(frame) && k < |row| ::
         row[k] == Best(tr, frame, k - tr.Reach())
  }

  lemma StartSolving(tr: Trellis, row: seq<Cost>, frame: nat)
    requires tr.Lawful() && frame < tr.numFrames && Untouched(tr, row, frame)
    ensures SolvedTo(tr, row, frame + 1, tr.Lo(frame + 1))
  {
    BandMoves(tr, frame);
  }

  lemma SolveOne(tr: Trellis, row: seq<Cost>, frame: nat, i: nat)
    requires tr.Lawful() && frame <= tr.numFrames && tr.InBand(frame, i)
    requires SolvedTo(tr, row, frame, i)
    ensures SolvedTo(tr, row[tr.Reach() + i := Best(tr, frame, i)], frame, i + 1)
  {}

  // A row right across the band and never written above it holds every cell.
  lemma RowSolved(tr: Trellis, row: seq<Cost>, frame: nat, i: nat)
    requires tr.Lawful() && frame <= tr.numFrames
    requires SolvedTo(tr, row, frame, i) && i > tr.Hi(frame)
    ensures RowHolds(tr, row, frame) && Untouched(tr, row, frame)
  {
    forall k | tr.Reach() + tr.Lo(frame) <= k < |row| ensures row[k] == Best(tr, frame, k - tr.Reach()) {
      if k > tr.Reach() + tr.Hi(frame) {
        BeyondReach(tr, frame, k - tr.Reach());
      }
    }
  }

  // The one read the inner loop makes: in the band, or never written.
  lemma ReadIsBest(tr: Trellis, row: seq<Cost>, frame: nat, i: nat, code: nat)
    requires tr.Lawful() && frame < tr.numFrames && code < tr.degree
    requires RowHolds(tr, row, frame) && tr.InBand(frame + 1, i)
    ensures var step := tr.stepsInto(frame, i)[code];
            && 0 <= tr.Reach() + i - step.advance < |row|
            && row[tr.Reach() + i - step.advance].Plus(step.cost) == Through(tr, frame + 1, i, code)
  {
    var step := tr.stepsInto(frame, i)[code];
    assert tr.LawfulStep(step, i);
    if step.cost.Finite? {
      BackwardStaysAbove(tr, frame, i, step.advance);
    }
  }

  method FillCell(tr: Trellis, cur: array<Cost>, frame: nat, i: nat) returns (best: Cost, code: bv8)
    requires tr.Lawful() && frame < tr.numFrames && 1 <= tr.degree <= 256
    requires RowHolds(tr, cur[..], frame) && tr.InBand(frame + 1, i)
    ensures best == Best(tr, frame + 1, i)
    ensures Index(code) == CodeOf(tr, frame + 1, i, tr.degree) && code <= Mask(CodeBits(tr.degree))
  {
    var steps := tr.stepsInto(frame, i);
    best, code := Infinite, 0;
    ghost var chosen := 0;
    var candidate := 0;
    while candidate < |steps|
      invariant 0 <= candidate <= |steps| == tr.degree
      invariant best == BestOf(tr, frame + 1, i, candidate)
      invariant chosen == CodeOf(tr, frame + 1, i, candidate)
      invariant Index(code) == chosen && code <= Mask(CodeBits(tr.degree))
    {
      ReadIsBest(tr, cur[..], frame, i, candidate);
      var step := steps[candidate];
      var total := cur[tr.Reach() + i - step.advance].Plus(step.cost);
      if total.Less(best) {
        CodeFits(tr.degree, candidate);
        best, code := total, candidate as bv8;
        chosen := candidate;
      }
      candidate := candidate + 1;
    }
  }

  /** The two score rows and the traceback are three pieces of storage. */
  ghost predicate Apart(cur: array<Cost>, next: array<Cost>, plane: array<bv8>) {
    cur != next && cur as object != plane as object && next as object != plane as object
  }

  // One turn of the loop over a band: solve the cell, store its score, put its
  // code.
  method FillOne(tr: Trellis, cur: array<Cost>, next: array<Cost>, row: RowWriter, frame: nat, i: nat)
    requires tr.Lawful() && frame < tr.numFrames && 1 <= tr.degree <= 256
    requires Apart(cur, next, row.plane) && RowHolds(tr, cur[..], frame) && tr.InBand(frame + 1, i)
    requires next.Length == tr.Reach() + tr.numPositions + 1 && i <= tr.numPositions
    requires row.Valid() && row.bits == CodeBits(tr.degree) && i / row.perByte < row.stride
    requires row.written == [] || i == row.first + |row.written|
    modifies next, row, row.plane
    ensures next[..] == old(next[..])[tr.Reach() + i := Best(tr, frame + 1, i)]
    ensures row.Valid() && row.first == if old(row.written) == [] then i else old(row.first)
    ensures |row.written| == |old(row.written)| + 1 && old(row.written) == row.written[..|old(row.written)|]
    ensures Index(row.written[|old(row.written)|]) == CodeOf(tr, frame + 1, i, tr.degree)
    ensures SameOutside(old(row.plane[..]), row.plane[..], row.base, row.stride)
  {
    hide Index, RowHolds, Best, CodeOf, Packs, CodeBits, Mask, CellsPerByte;
    var best, code := FillCell(tr, cur, frame, i);
    next[tr.Reach() + i] := best;
    assert row.Valid();
    row.Put(i, code);
  }

  ghost function BandWidth(tr: Trellis, frame: nat): nat {
    if tr.Hi(frame) < tr.Lo(frame) then 0 else tr.Hi(frame) + 1 - tr.Lo(frame)
  }

  method FillBand(tr: Trellis, cur: array<Cost>, next: array<Cost>, row: RowWriter, frame: nat)
    requires tr.Lawful() && frame < tr.numFrames && 1 <= tr.degree <= 256
    requires Apart(cur, next, row.plane) && RowHolds(tr, cur[..], frame) && Untouched(tr, next[..], frame)
    requires row.Valid() && row.written == [] && row.bits == CodeBits(tr.degree)
    requires next.Length == tr.Reach() + tr.numPositions + 1
    requires forall i: nat | i <= tr.numPositions :: i / row.perByte < row.stride
    modifies next, row, row.plane
    ensures RowHolds(tr, next[..], frame + 1) && Untouched(tr, next[..], frame + 1)
    ensures row.Valid() && |row.written| == BandWidth(tr, frame + 1)
    ensures row.written != [] ==> row.first == tr.Lo(frame + 1)
    ensures Chosen(tr, row.written, frame, tr.Lo(frame + 1))
    ensures SameOutside(old(row.plane[..]), row.plane[..], row.base, row.stride)
  {
    hide Trellis.Lo, Trellis.Hi, SolvedTo, RowHolds, Untouched, Index, Packs, CellAt, CellWithin, Mask, Best, CodeOf, CellsPerByte, SameOutside, Chosen;
    ghost var before := row.plane[..];
    var (lo, hi) := (tr.Lo(frame + 1), tr.Hi(frame + 1));
    BandMoves(tr, frame);
    StartSolving(tr, next[..], frame);
    SameAsItself(before, row.base, row.stride);
    NoneChosen(tr, row.written, frame, lo);
    var i := lo;
    while i <= hi
      invariant lo <= i && (i <= hi + 1 || i == lo)
      invariant row.Valid() && |row.written| == i - lo && (i > lo ==> row.first == lo)
      invariant RowHolds(tr, cur[..], frame) && SolvedTo(tr, next[..], frame + 1, i)
      invariant Chosen(tr, row.written, frame, lo)
      invariant SameOutside(before, row.plane[..], row.base, row.stride)
    {
      ghost var (was, bytes, codes) := (next[..], row.plane[..], row.written);
      FillOne(tr, cur, next, row, frame, i);
      ChosenMore(tr, codes, row.written, frame, lo);
      SolveOne(tr, was, frame + 1, i);
      SameOutsideTwice(before, bytes, row.plane[..], row.base, row.stride);
      i := i + 1;
    }
    RowSolved(tr, next[..], frame + 1, i);
  }

  /** Solves one frame: every cell of the band gets its best cost and its code,
      and no other row of the traceback changes. */
  method FillRow(tr: Trellis, cur: array<Cost>, next: array<Cost>, trace: Traceback, frame: nat)
    requires tr.Lawful() && frame < tr.numFrames && 1 <= tr.degree <= 256
    requires Apart(cur, next, trace.plane) && RowHolds(tr, cur[..], frame) && Untouched(tr, next[..], frame)
    requires next.Length == tr.Reach() + tr.numPositions + 1 && trace.Valid() && TraceFits(tr, trace)
    modifies next, trace.plane
    ensures RowHolds(tr, next[..], frame + 1) && Untouched(tr, next[..], frame + 1)
    ensures forall i: nat | tr.InBand(frame + 1, i) && i <= tr.numPositions ::
              RowCodes(tr, trace, trace.plane[..], frame, i)
    ensures SameOutside(old(trace.plane[..]), trace.plane[..], frame * trace.stride, trace.stride)
  {
    hide Trellis.Lo, Trellis.Hi, Trellis.InBand, RowHolds, Untouched, Index, Packs, CellAt, Mask, Best, CodeOf, CellsPerByte, SameOutside, Chosen;
    var row := new RowWriter(trace, frame);
    ghost var before := trace.plane[..];
    FillBand(tr, cur, next, row, frame);
    ghost var bytes := trace.plane[..];
    row.Finish();
    SameOutsideTwice(before, bytes, trace.plane[..], row.base, row.stride);
    RowRecorded(tr, trace, row, trace.plane[..], frame);
  }

  ghost predicate Chosen(tr: Trellis, written: seq<bv8>, frame: nat, lo: nat)
    requires tr.Lawful() && frame < tr.numFrames
  {
    forall k | 0 <= k < |written| ::
      lo + k <= tr.numPositions && Index(written[k]) == CodeOf(tr, frame + 1, lo + k, tr.degree)
  }

  lemma NoneChosen(tr: Trellis, written: seq<bv8>, frame: nat, lo: nat)
    requires tr.Lawful() && frame < tr.numFrames && written == []
    ensures Chosen(tr, written, frame, lo)
  {}

  lemma ChosenMore(tr: Trellis, before: seq<bv8>, written: seq<bv8>, frame: nat, lo: nat)
    requires tr.Lawful() && frame < tr.numFrames && Chosen(tr, before, frame, lo)
    requires |written| == |before| + 1 && before == written[..|before|] && lo + |before| <= tr.numPositions
    requires Index(written[|before|]) == CodeOf(tr, frame + 1, lo + |before|, tr.degree)
    ensures Chosen(tr, written, frame, lo)
  {
    hide Index, CodeOf;
    forall k | 0 <= k < |written|
      ensures lo + k <= tr.numPositions && Index(written[k]) == CodeOf(tr, frame + 1, lo + k, tr.degree)
    {
      if k < |before| {
        assert before[k] == written[k];
      }
    }
  }

  // Everything the row's writer put is where the plane is asked for it.
  lemma RowRecorded(tr: Trellis, trace: Traceback, row: RowWriter, plane: seq<bv8>, frame: nat)
    requires tr.Lawful() && frame < tr.numFrames && trace.Valid() && TraceFits(tr, trace)
    requires |plane| == trace.plane.Length && row.plane == trace.plane && row.Shape()
    requires row.base == frame * trace.stride && row.stride == trace.stride && row.perByte == trace.perByte && row.bits == trace.bits
    requires |row.written| == BandWidth(tr, frame + 1)
    requires row.written != [] ==> row.first == tr.Lo(frame + 1)
    requires Chosen(tr, row.written, frame, tr.Lo(frame + 1))
    requires forall k | 0 <= k < |row.written| :: row.Stored(plane, row.first + k, row.written[k])
    ensures forall i: nat | tr.InBand(frame + 1, i) && i <= tr.numPositions :: RowCodes(tr, trace, plane, frame, i)
  {
    hide Trellis.Lo, Trellis.Hi, Index, CellAt, CodeOf;
    forall i: nat | tr.InBand(frame + 1, i) && i <= tr.numPositions
      ensures RowCodes(tr, trace, plane, frame, i)
    {
      var lo := tr.Lo(frame + 1);
      var k := i - lo;
      assert row.Stored(plane, row.first + k, row.written[k]);
      assert Index(row.written[k]) == CodeOf(tr, frame + 1, lo + k, tr.degree);
      trace.RowFits(frame);
    }
  }

  ghost predicate TraceFits(tr: Trellis, trace: Traceback) {
    && trace.frames == tr.numFrames && trace.bits == CodeBits(tr.degree)
    && trace.perByte >= 1 && forall i: nat | i <= tr.numPositions :: i / trace.perByte < trace.stride
  }

  /** The plane names the code the recurrence chooses at this cell. */
  ghost predicate RowCodes(tr: Trellis, trace: Traceback, plane: seq<bv8>, frame: nat, i: nat)
    requires tr.Lawful() && frame < tr.numFrames && i <= tr.numPositions
    requires trace.Valid() && |plane| == trace.plane.Length && TraceFits(tr, trace)
  {
    Index(trace.GetFrom(plane, frame, i)) == CodeOf(tr, frame + 1, i, tr.degree)
  }

  // -- The whole solver -----------------------------------------------------------

  /** Every row written so far names, in every cell of its band, the code the
      recurrence chooses. */
  ghost predicate Recorded(tr: Trellis, trace: Traceback, plane: seq<bv8>, frames: nat)
    requires tr.Lawful() && frames <= tr.numFrames
    requires trace.Valid() && |plane| == trace.plane.Length && TraceFits(tr, trace)
  {
    forall frame: nat, i: nat | frame < frames && tr.InBand(frame + 1, i) && i <= tr.numPositions ::
      RowCodes(tr, trace, plane, frame, i)
  }

  lemma RecordOne(tr: Trellis, trace: Traceback, before: seq<bv8>, after: seq<bv8>, frame: nat)
    requires tr.Lawful() && frame < tr.numFrames && trace.Valid() && TraceFits(tr, trace)
    requires |before| == |after| == trace.plane.Length && Recorded(tr, trace, before, frame)
    requires SameOutside(before, after, frame * trace.stride, trace.stride)
    requires forall i: nat | tr.InBand(frame + 1, i) && i <= tr.numPositions :: RowCodes(tr, trace, after, frame, i)
    ensures Recorded(tr, trace, after, frame + 1)
  {
    hide CodeOf, CellAt, Trellis.InBand;
    forall f: nat, i: nat | f < frame + 1 && tr.InBand(f + 1, i) && i <= tr.numPositions
      ensures RowCodes(tr, trace, after, f, i)
    {
      if f < frame {
        assert RowCodes(tr, trace, before, f, i);
        trace.RowsApart(before, after, frame, f, i);
      }
    }
  }

  lemma ChosenStep(tr: Trellis, frame: nat, at: nat)
    requires tr.Lawful() && frame < tr.numFrames && at <= tr.numPositions && Best(tr, frame + 1, at).Finite?
    ensures CodeOf(tr, frame + 1, at, tr.degree) < tr.degree
    ensures var code := CodeOf(tr, frame + 1, at, tr.degree);
            var step := tr.stepsInto(frame, at)[code];
            && step.advance <= at && step.advance <= tr.Reach()
            && Best(tr, frame, at - step.advance).Finite?
            && Traced(tr, frame + 1, at) == Traced(tr, frame, at - step.advance) + [Hop(code, at)]
  {
    CodeAttainsBest(tr, frame + 1, at, tr.degree);
    hide CodeOf, BestOf, Trellis.Reach;
    var code := CodeOf(tr, frame + 1, at, tr.degree);
    assert tr.LawfulStep(tr.stepsInto(frame, at)[code], at);
  }

  // Stepping back along the chosen code from a cell that some path completes
  // through: the cell before is in its band too, and is reached at finite cost.
  lemma StepBack(tr: Trellis, frame: nat, at: nat)
    requires tr.Lawful() && frame < tr.numFrames && at <= tr.numPositions
    requires Best(tr, frame + 1, at).Finite? && tr.Lo(frame + 1) <= at
    ensures tr.InBand(frame + 1, at)
    ensures CodeOf(tr, frame + 1, at, tr.degree) < tr.degree
    ensures var code := CodeOf(tr, frame + 1, at, tr.degree);
            var step := tr.stepsInto(frame, at)[code];
            && step.advance <= at
            && Best(tr, frame, at - step.advance).Finite? && tr.Lo(frame) <= at - step.advance
            && Traced(tr, frame + 1, at) == Traced(tr, frame, at - step.advance) + [Hop(code, at)]
  {
    ChosenStep(tr, frame, at);
    hide Best, CodeOf, Traced, Trellis.Lo, Trellis.Hi, Trellis.Reach, Trellis.Lawful;
    BackwardStaysAbove(tr, frame, at, tr.stepsInto(frame, at)[CodeOf(tr, frame + 1, at, tr.degree)].advance);
    if tr.Hi(frame + 1) < at {
      BeyondReach(tr, frame + 1, at);
    }
  }

  lemma RecordedReads(tr: Trellis, trace: Traceback, frame: nat, at: nat)
    requires tr.Lawful() && frame < tr.numFrames && at <= tr.numPositions && tr.InBand(frame + 1, at)
    requires trace.Valid() && TraceFits(tr, trace) && Recorded(tr, trace, trace.plane[..], tr.numFrames)
    ensures Index(trace.Get(frame, at)) == CodeOf(tr, frame + 1, at, tr.degree)
  {
    hide Index, CodeOf, CellAt, Trellis.InBand;
    assert RowCodes(tr, trace, trace.plane[..], frame, at);
    trace.RowFits(frame);
  }

  // One turn of the traceback: read the code, step back along it.
  method ReadOne(tr: Trellis, trace: Traceback, frame: nat, at: nat) returns (code: bv8, from: nat)
    requires tr.Lawful() && frame < tr.numFrames && at <= tr.numPositions
    requires Best(tr, frame + 1, at).Finite? && tr.Lo(frame + 1) <= at
    requires trace.Valid() && TraceFits(tr, trace) && Recorded(tr, trace, trace.plane[..], tr.numFrames)
    ensures from <= tr.numPositions && Best(tr, frame, from).Finite? && tr.Lo(frame) <= from
    ensures Traced(tr, frame + 1, at) == Traced(tr, frame, from) + [Hop(Index(code), at)]
  {
    hide Index, Best, CodeOf, Traced, CellAt, Recorded, Traceback.Get, Traceback.GetFrom, Trellis.Lo, Trellis.InBand;
    StepBack(tr, frame, at);
    RecordedReads(tr, trace, frame, at);
    code := trace.Get(frame, at);
    from := at - tr.stepsInto(frame, at)[Index(code)].advance;
  }

  method ReadBack(tr: Trellis, trace: Traceback) returns (codes: seq<bv8>, positions: seq<nat>)
    requires tr.Lawful() && Best(tr, tr.numFrames, tr.numPositions).Finite?
    requires trace.Valid() && TraceFits(tr, trace) && Recorded(tr, trace, trace.plane[..], tr.numFrames)
    ensures |codes| == |positions| == tr.numFrames
    ensures HopsFrom(codes, positions) == Traced(tr, tr.numFrames, tr.numPositions)
  {
    hide Best, CodeOf, Traced, Recorded, Index, Trellis.Lo;
    ghost var whole := Traced(tr, tr.numFrames, tr.numPositions);
    codes, positions := [], [];
    var at: nat, t: nat := tr.numPositions, tr.numFrames;
    LastCell(tr);
    while t > 0
      invariant t <= tr.numFrames && |codes| == |positions| == tr.numFrames - t
      invariant at <= tr.numPositions && Best(tr, t, at).Finite? && tr.Lo(t) <= at
      invariant whole == Traced(tr, t, at) + HopsFrom(codes, positions)
    {
      t := t - 1;
      var code, from := ReadOne(tr, trace, t, at);
      ghost var rest := HopsFrom(codes, positions);
      codes, positions := [code] + codes, [at] + positions;
      assert HopsFrom(codes, positions) == [Hop(Index(code), at)] + rest;
      at := from;
    }
    NothingBefore(tr, at);
  }

  lemma NothingBefore(tr: Trellis, at: nat)
    requires tr.Lawful() && at <= tr.numPositions && Best(tr, 0, at).Finite?
    ensures Traced(tr, 0, at) == []
  {}

  /** What makes a path the answer: it is complete, its cost is its own, no other
      is cheaper, and at every frame no lesser code reaches the same cell as
      cheaply. */
  ghost predicate IsBestPath(tr: Trellis, path: Path)
    requires tr.Lawful()
  {
    && |path.codes| == |path.positions| == tr.numFrames
    && Complete(tr, HopsOf(path))
    && path.cost == CostOf(tr, HopsOf(path), tr.numPositions)
    && (forall other | Complete(tr, other) :: path.cost <= CostOf(tr, other, tr.numPositions))
    && (forall t, other | 0 <= t < tr.numFrames && Rival(tr, path, t, other) ::
          PrefixCost(tr, HopsOf(path), t + 1) < CostOf(tr, other, path.positions[t]))
  }

  /** Another path to the cell frame `t` landed in, arriving by a lesser code. */
  ghost predicate Rival(tr: Trellis, path: Path, t: nat, other: seq<Hop>)
    requires tr.Lawful() && t < |path.codes| == |path.positions|
  {
    && |other| == t + 1 && PathTo(tr, other, path.positions[t])
    && other[t].code < Index(path.codes[t])
  }

  ghost function PrefixCost(tr: Trellis, hops: seq<Hop>, frames: nat): real
    requires tr.Lawful() && Complete(tr, hops) && frames <= tr.numFrames
  {
    PrefixIsPath(tr, hops, tr.numPositions, frames);
    CostOf(tr, hops[..frames], PositionAfter(hops, frames))
  }

  // The traced path's prefixes are the traced paths of its cells.
  lemma {:induction false} TracedPrefix(tr: Trellis, frame: nat, position: nat, t: nat)
    requires tr.Lawful() && frame <= tr.numFrames && position <= tr.numPositions && t < frame
    requires Best(tr, frame, position).Finite?
    ensures var hops := Traced(tr, frame, position);
            var at := hops[t].position;
            && at <= tr.numPositions && Best(tr, t + 1, at).Finite?
            && hops[..t + 1] == Traced(tr, t + 1, at)
            && hops[t].code == CodeOf(tr, t + 1, at, tr.degree)
  {
    hide BestOf, CodeOf;
    var hops := Traced(tr, frame, position);
    CodeAttainsBest(tr, frame, position, tr.degree);
    var code := CodeOf(tr, frame, position, tr.degree);
    var from := position - tr.stepsInto(frame - 1, position)[code].advance;
    if t == frame - 1 {
      assert hops[..t + 1] == hops;
    } else {
      TracedPrefix(tr, frame - 1, from, t);
      assert hops[..t + 1] == Traced(tr, frame - 1, from)[..t + 1];
    }
  }

  lemma RivalCostsMore(tr: Trellis, frame: nat, position: nat, other: seq<Hop>)
    requires tr.Lawful() && 0 < frame <= tr.numFrames && position <= tr.numPositions
    requires Best(tr, frame, position).Finite?
    requires |other| == frame && PathTo(tr, other, position)
    requires other[frame - 1].code < CodeOf(tr, frame, position, tr.degree)
    ensures Best(tr, frame, position).value < CostOf(tr, other, position)
  {
    CodeAttainsBest(tr, frame, position, tr.degree);
    var code := other[frame - 1].code;
    var step := tr.stepsInto(frame - 1, position)[code];
    BestIsLeast(tr, other[..frame - 1], position - step.advance);
    assert Best(tr, frame, position).Less(Through(tr, frame, position, code));
  }

  lemma TracedIsAnswer(tr: Trellis, path: Path)
    requires tr.Lawful() && Best(tr, tr.numFrames, tr.numPositions) == Finite(path.cost)
    requires |path.codes| == |path.positions| == tr.numFrames
    requires HopsOf(path) == Traced(tr, tr.numFrames, tr.numPositions)
    ensures IsBestPath(tr, path)
  {
    hide Best, CodeOf, Traced, Index;
    var hops := HopsOf(path);
    TracedIsBest(tr, tr.numFrames, tr.numPositions);
    forall other | Complete(tr, other) ensures path.cost <= CostOf(tr, other, tr.numPositions) {
      BestIsLeast(tr, other, tr.numPositions);
    }
    forall t, other | 0 <= t < tr.numFrames && Rival(tr, path, t, other)
      ensures PrefixCost(tr, hops, t + 1) < CostOf(tr, other, path.positions[t])
    {
      var at := path.positions[t];
      TracedPrefix(tr, tr.numFrames, tr.numPositions, t);
      TracedIsBest(tr, t + 1, at);
      RivalCostsMore(tr, t + 1, at, other);
    }
  }

  /** The best path through a trellis, exactly: `None` only when no path
      completes, an error only for a degree no code could name or a traceback that
      does not fit. */
  method BestPath(tr: Trellis) returns (r: Result<Option<Path>, Error>)
    requires tr.Lawful()
    ensures r == Failure(BadDegree) <==> (tr.degree == 0 || tr.degree > 256)
    ensures r == Failure(TooLarge) <==>
              && 1 <= tr.degree <= 256 && tr.Lo(0) <= tr.Hi(0)
              && tr.numFrames * StrideFor(tr.numPositions, tr.degree) > USIZE_MAX
    ensures r == Success(None) ==> forall hops :: !Complete(tr, hops)
    ensures r.Success? && r.value.Some? ==> IsBestPath(tr, r.value.value)
  {
    if tr.degree == 0 || tr.degree > 256 {
      return Failure(BadDegree);
    }
    if tr.Lo(0) > tr.Hi(0) {
      forall hops ensures !Complete(tr, hops) {
        if Complete(tr, hops) {
          BandIsSound(tr, hops, 0);
        }
      }
      return Success(None);
    }
    if tr.numFrames * StrideFor(tr.numPositions, tr.degree) > USIZE_MAX {
      return Failure(TooLarge);
    }
    var answer := Solve(tr);
    return Success(answer);
  }

  method Solve(tr: Trellis) returns (answer: Option<Path>)
    requires tr.Lawful() && 1 <= tr.degree <= 256 && tr.Lo(0) <= tr.Hi(0)
    ensures answer == None ==> forall hops :: !Complete(tr, hops)
    ensures answer.Some? ==> IsBestPath(tr, answer.value)
  {
    hide IsBestPath, Traced, CodeOf, BestOf, Untouched, Recorded, CodeBits, CellsPerByte, Trellis.Hi;
    var trace := new Traceback(tr.numFrames, tr.numPositions, tr.degree);
    var reach := tr.Reach();
    var cur := new Cost[tr.numPositions + 1 + reach](_ => Infinite);
    var next := new Cost[tr.numPositions + 1 + reach](_ => Infinite);
    cur[reach] := ZERO;
    FreshRows(tr, cur[..], next[..]);
    assert TraceFits(tr, trace) by {
      forall i: nat | i <= tr.numPositions ensures i / trace.perByte < trace.stride {
        DivisionIsMonotone(i, tr.numPositions, trace.perByte);
      }
    }
    NothingRecorded(tr, trace);
    var t := 0;
    while t < tr.numFrames
      invariant t <= tr.numFrames && Apart(cur, next, trace.plane)
      invariant cur.Length == next.Length == reach + tr.numPositions + 1
      invariant fresh(cur) && fresh(next) && fresh(trace.plane)
      invariant RowHolds(tr, cur[..], t) && Untouched(tr, cur[..], t) && Untouched(tr, next[..], t)
      invariant Recorded(tr, trace, trace.plane[..], t)
    {
      ghost var before := trace.plane[..];
      FillRow(tr, cur, next, trace, t);
      RecordOne(tr, trace, before, trace.plane[..], t);
      UntouchedLater(tr, cur[..], t);
      cur, next := next, cur;
      t := t + 1;
    }
    LastCell(tr);
    var cost := cur[reach + tr.numPositions];
    if cost.Infinite? {
      NoneComplete(tr);
      return None;
    }
    var codes, positions := ReadBack(tr, trace);
    var path := Path(codes, positions, cost.value);
    TracedIsAnswer(tr, path);
    return Some(path);
  }

  lemma LastCell(tr: Trellis)
    ensures tr.Lo(tr.numFrames) <= tr.numPositions
  {}

  lemma NothingRecorded(tr: Trellis, trace: Traceback)
    requires tr.Lawful() && trace.Valid() && TraceFits(tr, trace)
    ensures Recorded(tr, trace, trace.plane[..], 0)
  {}

  lemma NoneComplete(tr: Trellis)
    requires tr.Lawful() && Best(tr, tr.numFrames, tr.numPositions).Infinite?
    ensures forall hops :: !Complete(tr, hops)
  {
    forall hops ensures !Complete(tr, hops) {
      if Complete(tr, hops) {
        BestIsLeast(tr, hops, tr.numPositions);
      }
    }
  }

  lemma UntouchedLater(tr: Trellis, row: seq<Cost>, frame: nat)
    requires frame < tr.numFrames && Untouched(tr, row, frame)
    ensures Untouched(tr, row, frame + 1)
  {
    BandMoves(tr, frame);
  }

  lemma FreshRows(tr: Trellis, cur: seq<Cost>, next: seq<Cost>)
    requires tr.Lawful() && |cur| == |next| == tr.Reach() + tr.numPositions + 1
    requires forall k | 0 <= k < |next| :: next[k] == Infinite
    requires cur == next[tr.Reach() := ZERO]
    ensures RowHolds(tr, cur, 0) && Untouched(tr, cur, 0) && Untouched(tr, next, 0)
  {}
}
