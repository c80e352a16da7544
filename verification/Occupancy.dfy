/** How a reference's probability is spread over the frames: what every alignment says,
    each at its share, rather than what the best one does. */
module Occupancies {
  import opened Costs
  import opened Trellises
  import opened Sums
  import opened PathMasses
  import opened Reversals
  import opened LogSums
  import opened ForwardBackward
  import opened Expectations
  import opened DecodingGraphs
  import opened Aligning
  import opened AlignmentCosts
  import BestPaths
  import Posteriors
  import Tracebacks

  type Visit = Posteriors.Visit

  datatype OccupancyError = BadChain(why: AlignError) | PlaneDoesNotFit | Unsolvable(error: Posteriors.Error)

  /** The posterior of each column in each frame, row by row; the expected number of
      frames sounding each position; the posterior that each was given up; and the
      probability of the reference. */
  datatype Occupancy = Occupancy(posteriors: seq<real>, durations: seq<real>, skips: seq<real>, numFrames: nat, numSymbols: nat, total: real)

  /** The column a transition reads. */
  function ColumnRead(chain: AlignChain, hop: Hop): nat {
    if Sounds(hop.code) && 0 < hop.position <= |chain.phones| then chain.phones[hop.position - 1] else chain.blank
  }

  /** The column a transition reads is the one it is scored from: it costs that column's
      score in the frame, and what it pays for a phone given up. */
  lemma ColumnIsScored(chain: AlignChain, d: Dense, t: nat, hop: Hop)
    requires Ready(chain, d) && t < d.NumFrames() && hop.position <= |chain.phones| && hop.code < 4
    requires StepsInto(chain, d.scores[t], hop.position)[hop.code].cost.Finite?
    ensures ColumnRead(chain, hop) < d.numSymbols
    ensures d.scores[t][ColumnRead(chain, hop)] == Heard(chain, d, t, hop)
    ensures StepsInto(chain, d.scores[t], hop.position)[hop.code].cost == d.scores[t][ColumnRead(chain, hop)].Plus(Paid(chain, hop))
  {
    ColumnIsRead(chain, hop, d.numSymbols);
  }

  // -- What is counted ---------------------------------------------------------------------

  ghost function Reading(chain: AlignChain, t: nat, column: nat): Counter {
    (frame: nat, hop: Hop) => frame == t && ColumnRead(chain, hop) == column
  }

  ghost function Sounding(p: nat): Counter {
    (frame: nat, hop: Hop) => Sounds(hop.code) && hop.position == p + 1
  }

  ghost function SkippingTo(p: nat): Counter {
    (frame: nat, hop: Hop) => hop.code == SKIP && hop.position == p + 1
  }

  ghost function Reads(chain: AlignChain, t: nat, column: nat): Property {
    (hops: seq<Hop>) => t < |hops| && ColumnRead(chain, hops[t]) == column
  }

  ghost function GaveUp(p: nat): Property {
    (hops: seq<Hop>) => SkippedInto(hops, p)
  }

  /** Giving a position no frames at all. */
  ghost function NeverSounds(p: nat): Property {
    (hops: seq<Hop>) => !SoundsAfter(hops, p)
  }

  ghost function GaveUpButSounds(p: nat): Property {
    (hops: seq<Hop>) => SkippedInto(hops, p) && SoundsAfter(hops, p)
  }

  // -- The plane of posteriors ---------------------------------------------------------------

  function Cell(t: nat, column: nat, numSymbols: nat): nat {
    t * numSymbols + column
  }

  lemma CellInPlane(t: nat, column: nat, numFrames: nat, numSymbols: nat)
    requires t < numFrames && column < numSymbols
    ensures Cell(t, column, numSymbols) < numFrames * numSymbols
  {
    assert (t + 1) * numSymbols <= numFrames * numSymbols;
  }

  lemma CellsApart(t: nat, column: nat, u: nat, other: nat, numSymbols: nat)
    requires column < numSymbols && other < numSymbols && (t != u || column != other)
    ensures Cell(t, column, numSymbols) != Cell(u, other, numSymbols)
  {
    if t < u {
      assert (t + 1) * numSymbols <= u * numSymbols;
    } else if u < t {
      assert (u + 1) * numSymbols <= t * numSymbols;
    }
  }

  ghost predicate PlaneIs(chain: AlignChain, plane: seq<real>, visits: seq<Visit>, numFrames: nat, numSymbols: nat) {
    && |plane| == numFrames * numSymbols
    && forall t: nat, column: nat | t < numFrames && column < numSymbols :: CellIs(chain, plane, visits, t, column, numSymbols)
  }

  ghost predicate CellIs(chain: AlignChain, plane: seq<real>, visits: seq<Visit>, t: nat, column: nat, numSymbols: nat) {
    var at := Cell(t, column, numSymbols);
    at < |plane| && plane[at] == Collected(visits, Reading(chain, t, column))
  }

  ghost predicate RowIs(row: seq<real>, visits: seq<Visit>, counters: nat -> Counter) {
    forall p: nat | p < |row| :: row[p] == Collected(visits, counters(p))
  }

  ghost function Durations(): nat -> Counter {
    (p: nat) => Sounding(p)
  }

  ghost function Skips(): nat -> Counter {
    (p: nat) => SkippingTo(p)
  }

  ghost predicate VisitFits(chain: AlignChain, v: Visit, numFrames: nat) {
    && v.frame < numFrames && v.position <= |chain.phones| && v.code < 4
    && (v.code != HOLD_BLANK ==> 0 < v.position)
  }

  lemma CollectedOneMore(visits: seq<Visit>, v: Visit, counts: Counter)
    ensures Collected(visits + [v], counts) == Collected(visits, counts) + if counts(v.frame, HopOf(v)) then v.mass else 0.0
  {
    assert (visits + [v])[..|visits|] == visits;
  }

  lemma PlaneMore(chain: AlignChain, plane: seq<real>, visits: seq<Visit>, v: Visit, numFrames: nat, numSymbols: nat)
    requires PlaneIs(chain, plane, visits, numFrames, numSymbols) && v.frame < numFrames && ColumnRead(chain, HopOf(v)) < numSymbols
    ensures var at := Cell(v.frame, ColumnRead(chain, HopOf(v)), numSymbols);
            at < |plane| && PlaneIs(chain, plane[at := plane[at] + v.mass], visits + [v], numFrames, numSymbols)
  {
    hide Collected, Cell, ColumnRead;
    var column := ColumnRead(chain, HopOf(v));
    var at := Cell(v.frame, column, numSymbols);
    CellInPlane(v.frame, column, numFrames, numSymbols);
    var more := plane[at := plane[at] + v.mass];
    forall t: nat, other: nat | t < numFrames && other < numSymbols ensures CellIs(chain, more, visits + [v], t, other, numSymbols) {
      assert CellIs(chain, plane, visits, t, other, numSymbols);
      CollectedOneMore(visits, v, Reading(chain, t, other));
      if t != v.frame || other != column {
        CellsApart(t, other, v.frame, column, numSymbols);
      }
    }
  }

  lemma RowSame(row: seq<real>, visits: seq<Visit>, v: Visit, counters: nat -> Counter)
    requires RowIs(row, visits, counters)
    requires forall p: nat | p < |row| :: !counters(p)(v.frame, HopOf(v))
    ensures RowIs(row, visits + [v], counters)
  {
    hide Collected;
    forall p: nat | p < |row| ensures row[p] == Collected(visits + [v], counters(p)) {
      CollectedOneMore(visits, v, counters(p));
    }
  }

  lemma RowMore(row: seq<real>, visits: seq<Visit>, v: Visit, counters: nat -> Counter, at: nat)
    requires RowIs(row, visits, counters) && at < |row|
    requires forall p: nat | p < |row| :: counters(p)(v.frame, HopOf(v)) <==> p == at
    ensures RowIs(row[at := row[at] + v.mass], visits + [v], counters)
  {
    hide Collected;
    var more := row[at := row[at] + v.mass];
    forall p: nat | p < |row| ensures more[p] == Collected(visits + [v], counters(p)) {
      CollectedOneMore(visits, v, counters(p));
    }
  }

  /** Adding up the visits, one by one, in place. */
  method Accumulate(chain: AlignChain, visits: seq<Visit>, numFrames: nat, numSymbols: nat) returns (plane: seq<real>, durations: seq<real>, skips: seq<real>)
    requires chain.Reads(numSymbols) && forall v | v in visits :: VisitFits(chain, v, numFrames)
    ensures PlaneIs(chain, plane, visits, numFrames, numSymbols)
    ensures |durations| == |skips| == |chain.phones| && RowIs(durations, visits, Durations()) && RowIs(skips, visits, Skips())
  {
    hide PlaneIs, RowIs, Collected, Cell, ColumnRead;
    var posterior := new real[numFrames * numSymbols](_ => 0.0);
    var duration := new real[|chain.phones|](_ => 0.0);
    var skip := new real[|chain.phones|](_ => 0.0);
    NothingYet(chain, posterior[..], duration[..], skip[..], numFrames, numSymbols);
    for k := 0 to |visits|
      invariant PlaneIs(chain, posterior[..], visits[..k], numFrames, numSymbols)
      invariant RowIs(duration[..], visits[..k], Durations()) && RowIs(skip[..], visits[..k], Skips())
    {
      var v := visits[k];
      assert v in visits && visits[..k + 1] == visits[..k] + [v];
      var column := ColumnRead(chain, HopOf(v));
      ColumnIsRead(chain, HopOf(v), numSymbols);
      PlaneMore(chain, posterior[..], visits[..k], v, numFrames, numSymbols);
      posterior[Cell(v.frame, column, numSymbols)] := posterior[Cell(v.frame, column, numSymbols)] + v.mass;
      if Sounds(v.code) {
        RowMore(duration[..], visits[..k], v, Durations(), v.position - 1);
        RowSame(skip[..], visits[..k], v, Skips());
        duration[v.position - 1] := duration[v.position - 1] + v.mass;
      } else if v.code == SKIP {
        RowSame(duration[..], visits[..k], v, Durations());
        RowMore(skip[..], visits[..k], v, Skips(), v.position - 1);
        skip[v.position - 1] := skip[v.position - 1] + v.mass;
      } else {
        RowSame(duration[..], visits[..k], v, Durations());
        RowSame(skip[..], visits[..k], v, Skips());
      }
    }
    assert visits[..|visits|] == visits;
    return posterior[..], duration[..], skip[..];
  }

  lemma ColumnIsRead(chain: AlignChain, hop: Hop, numSymbols: nat)
    requires chain.Reads(numSymbols)
    ensures ColumnRead(chain, hop) < numSymbols
  {}

  lemma NothingYet(chain: AlignChain, plane: seq<real>, durations: seq<real>, skips: seq<real>, numFrames: nat, numSymbols: nat)
    requires |plane| == numFrames * numSymbols && forall k | 0 <= k < |plane| :: plane[k] == 0.0
    requires (forall k | 0 <= k < |durations| :: durations[k] == 0.0) && forall k | 0 <= k < |skips| :: skips[k] == 0.0
    ensures PlaneIs(chain, plane, [], numFrames, numSymbols) && RowIs(durations, [], Durations()) && RowIs(skips, [], Skips())
  {
    hide Cell, ColumnRead;
    forall t: nat, column: nat | t < numFrames && column < numSymbols ensures CellIs(chain, plane, [], t, column, numSymbols) {
      CellInPlane(t, column, numFrames, numSymbols);
    }
  }

  // -- What the posteriors say -------------------------------------------------------------------

  /** Each posterior is the share of the complete paths that read the column in the frame;
      each duration the number of frames that sound the position, over all of them at their
      shares; each skip the share that skips into it. */
  ghost predicate IsOccupancy(chain: AlignChain, d: Dense, w: Weighing, o: Occupancy)
    requires Ready(chain, d)
  {
    ChainIsLawful(chain, d);
    var tr := ChainTrellis(chain, d);
    && o.numFrames == d.NumFrames() && o.numSymbols == d.numSymbols
    && |o.posteriors| == o.numFrames * o.numSymbols && |o.durations| == |o.skips| == |chain.phones|
    && o.total == ForwardBackward.Total(tr, w) > 0.0
    && (forall t: nat, column: nat | t < o.numFrames && column < o.numSymbols ::
          Posterior(o, t)(column) * o.total == Probability(tr, w, Reads(chain, t, column)))
    && (forall p: nat | p < |chain.phones| :: o.durations[p] * o.total == Expected(tr, w, Sounding(p)))
    && (forall p: nat | p < |chain.phones| :: o.skips[p] * o.total == Probability(tr, w, GaveUp(p)))
  }

  ghost function Posterior(o: Occupancy, t: nat): nat -> real {
    (column: nat) => if Cell(t, column, o.numSymbols) < |o.posteriors| then o.posteriors[Cell(t, column, o.numSymbols)] else 0.0
  }

  ghost function PosteriorOf(o: Occupancy, column: nat): nat -> real {
    (t: nat) => Posterior(o, t)(column)
  }

  ghost function DurationOf(o: Occupancy): nat -> real {
    (p: nat) => if p < |o.durations| then o.durations[p] else 0.0
  }

  /** The durations of the positions whose phone is the blank's column. */
  ghost function BlankDurationOf(chain: AlignChain, o: Occupancy): nat -> real {
    (p: nat) => if p < |o.durations| && p < |chain.phones| && chain.phones[p] == chain.blank then o.durations[p] else 0.0
  }

  /** Every frame is shared out in full between the columns, and all of them between the
      positions and the blank. */
  ghost predicate Balances(chain: AlignChain, o: Occupancy) {
    && SharedOut(o)
    && Sum(|chain.phones|, DurationOf(o)) + Sum(o.numFrames, PosteriorOf(o, chain.blank))
       == o.numFrames as real + Sum(|chain.phones|, BlankDurationOf(chain, o))
  }

  /** The visits a solution reports land where the chain's transitions do. */
  lemma VisitsFit(chain: AlignChain, d: Dense, w: Weighing, spread: Posteriors.Spread)
    requires Ready(chain, d) && ReversibleChain(chain, d).Lawful() && w.Lawful()
    requires Posteriors.IsSpread(ReversibleChain(chain, d), w, spread)
    ensures forall v | v in spread.visits :: VisitFits(chain, v, d.NumFrames())
  {
    hide ForwardBackward.Total, Using, Weighing.Lawful;
    var rv := ReversibleChain(chain, d);
    forall v | v in spread.visits ensures VisitFits(chain, v, d.NumFrames()) {
      assert Posteriors.IsShare(rv.forward, w, v);
      Positive(v.mass, ForwardBackward.Total(rv.forward, w));
      Posteriors.CarryingStep(rv, w, v.frame, v.position, v.code);
      if v.position == 0 {
        assert rv.forward.stepsInto(v.frame, 0) == StepsInto(chain, d.scores[v.frame], 0);
        AtStart(chain, d.scores[v.frame], v.code);
      }
    }
  }

  lemma Positive(a: real, b: real)
    requires a > 0.0 && b > 0.0
    ensures Times(a, b) > 0.0
  {}

  lemma AtStart(chain: AlignChain, frame: seq<Cost>, code: nat)
    requires chain.Valid() && chain.Reads(|frame|) && code < 4 && StepsInto(chain, frame, 0)[code].cost.Finite?
    ensures code == HOLD_BLANK
  {}

  method MeasureOccupancy(chain: AlignChain, d: Dense, w: Weighing) returns (r: Result<Option<Occupancy>, OccupancyError>)
    requires chain.Valid() && d.Valid() && w.Lawful()
    ensures r.Failure? && r.error.BadChain? <==> !chain.Reads(d.numSymbols)
    ensures r == Failure(PlaneDoesNotFit) <==> chain.Reads(d.numSymbols) && d.NumFrames() * d.numSymbols > Tracebacks.USIZE_MAX
    ensures r.Failure? && r.error.Unsolvable? <==>
              && chain.Reads(d.numSymbols) && d.NumFrames() * d.numSymbols <= Tracebacks.USIZE_MAX
              && |chain.phones| <= d.NumFrames() && (d.NumFrames() + 1) * ForwardBackward.Width(ChainTrellis(chain, d)) > Tracebacks.USIZE_MAX
    ensures r.Success? ==> chain.Reads(d.numSymbols)
    ensures r == Success(None) ==> Aligned(chain, d, None)
    ensures r.Success? && r.value.Some? ==> IsOccupancy(chain, d, w, r.value.value) && Balances(chain, r.value.value)
  {
    hide IsOccupancy, Balances, Posteriors.IsSpread, PlaneIs, RowIs, Weighing.Lawful, ForwardBackward.Width;
    var error := CheckColumns(chain, d.numSymbols);
    if error.Some? {
      return Failure(BadChain(error.value));
    }
    if d.NumFrames() * d.numSymbols > Tracebacks.USIZE_MAX {
      return Failure(PlaneDoesNotFit);
    }
    ChainIsLawful(chain, d);
    StartInBand(ChainTrellis(chain, d));
    var solved := Posteriors.Posteriors(ReversibleChain(chain, d), w);
    if solved.Failure? {
      assert solved.error != Posteriors.BadDegree;
      assert solved.error.TooLarge?;
      return Failure(OccupancyError.Unsolvable(solved.error));
    }
    if solved.value.None? {
      return Success(None);
    }
    var spread := solved.value.value;
    VisitsFit(chain, d, w, spread);
    var plane, durations, skips := Accumulate(chain, spread.visits, d.NumFrames(), d.numSymbols);
    var o := Occupancy(plane, durations, skips, d.NumFrames(), d.numSymbols, spread.total);
    CollectedIsOccupancy(chain, d, w, spread, o);
    CollectedBalances(chain, d, w, spread, o);
    return Success(Some(o));
  }

  ghost predicate Collects(chain: AlignChain, d: Dense, visits: seq<Visit>, o: Occupancy) {
    && o.numFrames == d.NumFrames() && o.numSymbols == d.numSymbols
    && PlaneIs(chain, o.posteriors, visits, o.numFrames, o.numSymbols)
    && |o.durations| == |o.skips| == |chain.phones|
    && RowIs(o.durations, visits, Durations()) && RowIs(o.skips, visits, Skips())
  }

  lemma CollectedIsOccupancy(chain: AlignChain, d: Dense, w: Weighing, spread: Posteriors.Spread, o: Occupancy)
    requires Ready(chain, d) && ReversibleChain(chain, d).Lawful() && w.Lawful()
    requires Posteriors.IsSpread(ReversibleChain(chain, d), w, spread) && Collects(chain, d, spread.visits, o) && o.total == spread.total
    ensures IsOccupancy(chain, d, w, o)
  {
    hide Collected, Expected, Probability, ForwardBackward.Total, Cell, Weighing.Lawful, Reads, Sounding, SkippingTo, GaveUp;
    var rv := ReversibleChain(chain, d);
    var tr := rv.forward;
    forall t: nat, column: nat | t < o.numFrames && column < o.numSymbols
      ensures Posterior(o, t)(column) * o.total == Probability(tr, w, Reads(chain, t, column))
    {
      assert CellIs(chain, o.posteriors, spread.visits, t, column, o.numSymbols);
      CollectedIsExpected(rv, w, spread, Reading(chain, t, column));
      ReadingIsProbable(chain, d, w, t, column);
    }
    forall p: nat | p < |chain.phones| ensures o.durations[p] * o.total == Expected(tr, w, Sounding(p)) {
      CollectedIsExpected(rv, w, spread, Sounding(p));
    }
    forall p: nat | p < |chain.phones| ensures o.skips[p] * o.total == Probability(tr, w, GaveUp(p)) {
      CollectedIsExpected(rv, w, spread, SkippingTo(p));
      SkippingIsProbable(chain, d, w, p);
    }
  }

  // A frame reads one column.
  lemma ReadingIsProbable(chain: AlignChain, d: Dense, w: Weighing, t: nat, column: nat)
    requires Ready(chain, d) && ChainTrellis(chain, d).Lawful() && t < d.NumFrames()
    ensures Expected(ChainTrellis(chain, d), w, Reading(chain, t, column)) == Probability(ChainTrellis(chain, d), w, Reads(chain, t, column))
  {
    hide Weighed, MassWhere, ColumnRead;
    var tr := ChainTrellis(chain, d);
    var paths := PathsTo(tr, tr.numFrames, tr.numPositions);
    EnumerationIsExact(tr, tr.numFrames, tr.numPositions);
    var counts, holds := Reading(chain, t, column), Reads(chain, t, column);
    forall hops: seq<Hop> | hops in paths ensures Tally(hops, counts) == if holds(hops) then 1.0 else 0.0 {
      SumSingle(|hops|, CountAt(hops, counts), t);
    }
    CountedOnce(tr, w, paths, counts, holds);
  }

  // A path skips into a position at most once.
  lemma SkippingIsProbable(chain: AlignChain, d: Dense, w: Weighing, p: nat)
    requires Ready(chain, d) && ChainTrellis(chain, d).Lawful()
    ensures Expected(ChainTrellis(chain, d), w, SkippingTo(p)) == Probability(ChainTrellis(chain, d), w, GaveUp(p))
  {
    hide Weighed, MassWhere;
    var tr := ChainTrellis(chain, d);
    var paths := PathsTo(tr, tr.numFrames, tr.numPositions);
    EnumerationIsExact(tr, tr.numFrames, tr.numPositions);
    var counts, holds := SkippingTo(p), GaveUp(p);
    forall hops: seq<Hop> | hops in paths ensures Tally(hops, counts) == if holds(hops) then 1.0 else 0.0 {
      PathCostSplits(chain, d, hops, tr.numPositions);
      ChainClimbs(chain, d, hops);
      SkipsOnce(hops, p);
    }
    CountedOnce(tr, w, paths, counts, holds);
  }

  lemma SkipsOnce(hops: seq<Hop>, p: nat)
    requires Climbs(hops)
    ensures Tally(hops, SkippingTo(p)) == if SkippedInto(hops, p) then 1.0 else 0.0
  {
    var count := CountAt(hops, SkippingTo(p));
    if a: nat :| EntersAt(hops, a, p) && hops[a].code == SKIP {
      forall t: nat | t < |hops| && t != a ensures count(t) == 0.0 {
        if EntersAt(hops, t, p) {
          EntersOnce(hops, a, t, p);
        }
      }
      SumSingle(|hops|, count, a);
    } else {
      forall t: nat | t < |hops| ensures count(t) == 0.0 {
        assert EntersAt(hops, t, p) ==> hops[t].code != SKIP;
      }
      SumZero(|hops|, count);
    }
  }

  // -- Everything is shared out ----------------------------------------------------------------------

  lemma CollectedBalances(chain: AlignChain, d: Dense, w: Weighing, spread: Posteriors.Spread, o: Occupancy)
    requires Ready(chain, d) && ReversibleChain(chain, d).Lawful() && w.Lawful()
    requires Posteriors.IsSpread(ReversibleChain(chain, d), w, spread) && Collects(chain, d, spread.visits, o)
    ensures Balances(chain, o)
  {
    hide Collected, ForwardBackward.Total, Weighing.Lawful, PlaneIs, RowIs, Reversible.Lawful, Sum, Posteriors.IsShare;
    VisitsFit(chain, d, w, spread);
    forall t: nat | t < o.numFrames ensures Sum(o.numSymbols, Posterior(o, t)) == 1.0 {
      FrameAddsUp(chain, d, spread.visits, o, t);
    }
    DurationsAddUp(chain, d, spread.visits, o);
    BlanksAddUp(chain, d, spread.visits, o);
    BlankDurationsAddUp(chain, d, spread.visits, o);
    FramesAddUp(spread.visits, o.numFrames);
    SummedPlus(spread.visits, IfSounds(), IfBlank(chain), (frame: nat, hop: Hop) => IfSounds()(frame, hop) + IfBlank(chain)(frame, hop));
    SummedPlus(spread.visits, Always(), IfBlankSounds(chain), (frame: nat, hop: Hop) => IfSounds()(frame, hop) + IfBlank(chain)(frame, hop));
  }

  ghost function One(b: bool): real {
    if b then 1.0 else 0.0
  }

  ghost function Always(): (nat, Hop) -> real {
    (frame: nat, hop: Hop) => 1.0
  }

  ghost function IfSounds(): (nat, Hop) -> real {
    (frame: nat, hop: Hop) => One(Sounds(hop.code))
  }

  ghost function IfBlank(chain: AlignChain): (nat, Hop) -> real {
    (frame: nat, hop: Hop) => One(ColumnRead(chain, hop) == chain.blank)
  }

  ghost function IfBlankSounds(chain: AlignChain): (nat, Hop) -> real {
    (frame: nat, hop: Hop) => One(Sounds(hop.code) && ColumnRead(chain, hop) == chain.blank)
  }

  ghost function IfIn(t: nat): (nat, Hop) -> real {
    (frame: nat, hop: Hop) => One(frame == t)
  }

  ghost function InFrame(): nat -> Counter {
    (t: nat) => (frame: nat, hop: Hop) => frame == t
  }

  ghost function ReadingIn(chain: AlignChain, t: nat): nat -> Counter {
    (column: nat) => Reading(chain, t, column)
  }

  ghost function ReadingOf(chain: AlignChain, column: nat): nat -> Counter {
    (t: nat) => Reading(chain, t, column)
  }

  ghost function BlankDurations(chain: AlignChain): nat -> Counter {
    (p: nat) => (frame: nat, hop: Hop) => Sounds(hop.code) && hop.position == p + 1 && p < |chain.phones| && chain.phones[p] == chain.blank
  }

  /** Of several counters, at most one counts a transition. */
  lemma OneCounts(n: nat, family: nat -> Counter, frame: nat, hop: Hop, which: Option<nat>)
    requires forall i: nat | i < n :: family(i)(frame, hop) <==> which == Some(i)
    requires which.Some? ==> which.value < n
    ensures CountsOf(n, family, frame, hop) == One(which.Some?)
  {
    if which.Some? {
      SumSingle(n, CountOf(family, frame, hop), which.value);
    } else {
      SumZero(n, CountOf(family, frame, hop));
    }
  }

  lemma {:induction false} FrameMass(visits: seq<Visit>, t: nat)
    ensures Summed(visits, IfIn(t)) == Posteriors.MassIn(visits, t) == Collected(visits, InFrame()(t))
    decreases |visits|
  {
    if |visits| > 0 {
      var last := visits[|visits| - 1];
      FrameMass(visits[..|visits| - 1], t);
      var inFrame := IfIn(t);
      assert inFrame(last.frame, HopOf(last)) == One(last.frame == t);
      assert Times(last.mass, 1.0) == last.mass && Times(last.mass, 0.0) == 0.0;
    }
  }

  lemma FrameAddsUp(chain: AlignChain, d: Dense, visits: seq<Visit>, o: Occupancy, t: nat)
    requires chain.Reads(d.numSymbols) && t < o.numFrames && Collects(chain, d, visits, o)
    requires forall v | v in visits :: VisitFits(chain, v, o.numFrames)
    ensures Sum(o.numSymbols, Posterior(o, t)) == Posteriors.MassIn(visits, t)
  {
    hide Collected, Cell, CountsOf, ColumnRead, RowIs;
    forall column: nat | column < o.numSymbols ensures Posterior(o, t)(column) == CollectedBy(visits, ReadingIn(chain, t))(column) {
      assert CellIs(chain, o.posteriors, visits, t, column, o.numSymbols);
    }
    SumSame(o.numSymbols, Posterior(o, t), CollectedBy(visits, ReadingIn(chain, t)));
    forall v | v in visits
      ensures IfIn(t)(v.frame, HopOf(v)) == CountsOf(o.numSymbols, ReadingIn(chain, t), v.frame, HopOf(v))
    {
      ColumnIsRead(chain, HopOf(v), o.numSymbols);
      OneCounts(o.numSymbols, ReadingIn(chain, t), v.frame, HopOf(v), if v.frame == t then Some(ColumnRead(chain, HopOf(v))) else None);
    }
    CollectedTogether(o.numSymbols, ReadingIn(chain, t), visits, IfIn(t));
    FrameMass(visits, t);
  }

  lemma BlanksAddUp(chain: AlignChain, d: Dense, visits: seq<Visit>, o: Occupancy)
    requires chain.Reads(d.numSymbols) && Collects(chain, d, visits, o)
    requires forall v | v in visits :: VisitFits(chain, v, o.numFrames)
    ensures Sum(o.numFrames, PosteriorOf(o, chain.blank)) == Summed(visits, IfBlank(chain))
  {
    hide Collected, Cell, CountsOf, ColumnRead, RowIs;
    var family := ReadingOf(chain, chain.blank);
    var posterior := PosteriorOf(o, chain.blank);
    forall t: nat | t < o.numFrames ensures posterior(t) == CollectedBy(visits, family)(t) {
      assert CellIs(chain, o.posteriors, visits, t, chain.blank, o.numSymbols);
      assert posterior(t) == Posterior(o, t)(chain.blank);
    }
    SumSame(o.numFrames, posterior, CollectedBy(visits, family));
    forall v | v in visits
      ensures IfBlank(chain)(v.frame, HopOf(v)) == CountsOf(o.numFrames, family, v.frame, HopOf(v))
    {
      OneCounts(o.numFrames, family, v.frame, HopOf(v), if ColumnRead(chain, HopOf(v)) == chain.blank then Some(v.frame) else None);
    }
    CollectedTogether(o.numFrames, family, visits, IfBlank(chain));
  }

  lemma DurationsAddUp(chain: AlignChain, d: Dense, visits: seq<Visit>, o: Occupancy)
    requires Collects(chain, d, visits, o) && forall v | v in visits :: VisitFits(chain, v, o.numFrames)
    ensures Sum(|chain.phones|, DurationOf(o)) == Summed(visits, IfSounds())
  {
    hide Collected, CountsOf, PlaneIs;
    var n := |chain.phones|;
    SumSame(n, DurationOf(o), CollectedBy(visits, Durations()));
    forall v | v in visits ensures IfSounds()(v.frame, HopOf(v)) == CountsOf(n, Durations(), v.frame, HopOf(v)) {
      OneCounts(n, Durations(), v.frame, HopOf(v), if Sounds(v.code) then Some(v.position - 1) else None);
    }
    CollectedTogether(n, Durations(), visits, IfSounds());
  }

  lemma BlankDurationsAddUp(chain: AlignChain, d: Dense, visits: seq<Visit>, o: Occupancy)
    requires Collects(chain, d, visits, o) && forall v | v in visits :: VisitFits(chain, v, o.numFrames)
    ensures Sum(|chain.phones|, BlankDurationOf(chain, o)) == Summed(visits, IfBlankSounds(chain))
  {
    hide Collected, CountsOf, PlaneIs, RowIs, BlankDurationOf, BlankDurations;
    var n := |chain.phones|;
    var family := BlankDurations(chain);
    forall p: nat | p < n ensures BlankDurationOf(chain, o)(p) == CollectedBy(visits, family)(p) {
      BlankDuration(chain, d, visits, o, p);
    }
    SumSame(n, BlankDurationOf(chain, o), CollectedBy(visits, family));
    forall v | v in visits ensures IfBlankSounds(chain)(v.frame, HopOf(v)) == CountsOf(n, family, v.frame, HopOf(v)) {
      BlankSoundsOnce(chain, v, o.numFrames);
    }
    CollectedTogether(n, family, visits, IfBlankSounds(chain));
  }

  lemma BlankDuration(chain: AlignChain, d: Dense, visits: seq<Visit>, o: Occupancy, p: nat)
    requires Collects(chain, d, visits, o) && p < |chain.phones|
    ensures BlankDurationOf(chain, o)(p) == Collected(visits, BlankDurations(chain)(p))
  {
    hide Collected, PlaneIs;
    SameCollected(visits, Sounding(p), BlankDurations(chain)(p), chain.phones[p] == chain.blank);
    assert o.durations[p] == Collected(visits, Durations()(p));
  }

  lemma BlankSoundsOnce(chain: AlignChain, v: Visit, numFrames: nat)
    requires VisitFits(chain, v, numFrames)
    ensures IfBlankSounds(chain)(v.frame, HopOf(v)) == CountsOf(|chain.phones|, BlankDurations(chain), v.frame, HopOf(v))
  {
    hide CountsOf;
    var which := if Sounds(v.code) && ColumnRead(chain, HopOf(v)) == chain.blank then Some(v.position - 1) else None;
    OneCounts(|chain.phones|, BlankDurations(chain), v.frame, HopOf(v), which);
  }

  /** A counter restricted by a condition collects the same where it holds, and nothing
      where it does not. */
  lemma {:induction false} SameCollected(visits: seq<Visit>, counts: Counter, restricted: Counter, holds: bool)
    requires forall frame, hop :: restricted(frame, hop) <==> counts(frame, hop) && holds
    ensures Collected(visits, restricted) == if holds then Collected(visits, counts) else 0.0
    decreases |visits|
  {
    if |visits| > 0 {
      SameCollected(visits[..|visits| - 1], counts, restricted, holds);
    }
  }

  lemma FramesAddUp(visits: seq<Visit>, numFrames: nat)
    requires forall v | v in visits :: v.frame < numFrames
    requires forall t: nat | t < numFrames :: Posteriors.MassIn(visits, t) == 1.0
    ensures Summed(visits, Always()) == numFrames as real
  {
    hide Collected, CountsOf;
    forall t: nat | t < numFrames ensures CollectedBy(visits, InFrame())(t) == 1.0 {
      FrameMass(visits, t);
    }
    SumOnes(numFrames, CollectedBy(visits, InFrame()));
    forall v | v in visits ensures Always()(v.frame, HopOf(v)) == CountsOf(numFrames, InFrame(), v.frame, HopOf(v)) {
      OneCounts(numFrames, InFrame(), v.frame, HopOf(v), Some(v.frame));
    }
    CollectedTogether(numFrames, InFrame(), visits, Always());
  }

  lemma {:induction false} SumOnes(n: nat, f: nat -> real)
    requires forall i: nat | i < n :: f(i) == 1.0
    ensures Sum(n, f) == n as real
  {
    if n > 0 {
      SumOnes(n - 1, f);
    }
  }

  // -- What is made of it ------------------------------------------------------------------------------

  /** How often each column is the right answer, averaged over the frames: where there are
      frames and each is shared out in full, the averages add up to one. */
  method LabelPrior(o: Occupancy) returns (prior: seq<real>)
    requires |o.posteriors| == o.numFrames * o.numSymbols
    ensures |prior| == o.numSymbols
    ensures forall column: nat | column < o.numSymbols ::
              prior[column] * Max(o.numFrames, 1) as real == Sum(o.numFrames, PosteriorOf(o, column))
    ensures SharedOut(o) && o.numFrames > 0 ==> Sum(o.numSymbols, At(prior)) == 1.0
  {
    hide Cell, Posterior, PosteriorOf, SharedOut;
    var totals := new real[o.numSymbols](_ => 0.0);
    for t := 0 to o.numFrames
      invariant TotalsTo(o, totals[..], t, 0)
    {
      for c := 0 to o.numSymbols
        invariant TotalsTo(o, totals[..], t, c)
      {
        CellInPlane(t, c, o.numFrames, o.numSymbols);
        PosteriorAt(o, t, c);
        totals[c] := totals[c] + o.posteriors[Cell(t, c, o.numSymbols)];
      }
    }
    prior := Averaged(totals[..], Max(o.numFrames, 1));
    if o.numFrames > 0 {
      PriorAddsUp(o, prior);
    }
  }

  /** Each frame is shared out in full between the columns. */
  ghost predicate SharedOut(o: Occupancy) {
    forall t: nat | t < o.numFrames :: Sum(o.numSymbols, Posterior(o, t)) == 1.0
  }

  /** The first columns added up over one frame more than the rest. */
  ghost predicate TotalsTo(o: Occupancy, totals: seq<real>, t: nat, columns: nat) {
    && |totals| == o.numSymbols
    && forall c: nat | c < |totals| :: totals[c] == Sum(if c < columns then t + 1 else t, PosteriorOf(o, c))
  }

  method Averaged(totals: seq<real>, count: nat) returns (averages: seq<real>)
    requires count > 0
    ensures |averages| == |totals| && forall k: nat | k < |totals| :: averages[k] * count as real == totals[k]
  {
    averages := [];
    for k := 0 to |totals|
      invariant |averages| == k && forall j: nat | j < k :: averages[j] * count as real == totals[j]
    {
      averages := averages + [totals[k] / count as real];
    }
  }

  lemma PosteriorAt(o: Occupancy, t: nat, column: nat)
    requires Cell(t, column, o.numSymbols) < |o.posteriors|
    ensures PosteriorOf(o, column)(t) == Posterior(o, t)(column) == o.posteriors[Cell(t, column, o.numSymbols)]
  {}

  ghost function At(values: seq<real>): nat -> real {
    (k: nat) => if k < |values| then values[k] else 0.0
  }

  lemma PriorAddsUp(o: Occupancy, prior: seq<real>)
    requires |prior| == o.numSymbols && o.numFrames > 0
    requires forall column: nat | column < o.numSymbols :: prior[column] * o.numFrames as real == Sum(o.numFrames, PosteriorOf(o, column))
    ensures SharedOut(o) ==> Sum(o.numSymbols, At(prior)) == 1.0
  {
    hide Posterior, PosteriorOf, Sum;
    if SharedOut(o) {
      var n, frames := o.numSymbols, o.numFrames as real;
      var table := Table(o);
      forall t: nat | t < o.numFrames ensures Row(n, table)(t) == 1.0 {
        RowAdds(n, table, t, Posterior(o, t));
      }
      SumOnes(o.numFrames, Row(n, table));
      SumSwap(o.numFrames, n, table);
      var values := At(prior);
      var scaled: nat -> real := (column: nat) => frames * values(column);
      forall column: nat | column < n ensures Column(o.numFrames, table)(column) == scaled(column) {
        ColumnIsPosterior(o, column);
        assert values(column) == prior[column];
      }
      SumSame(n, Column(o.numFrames, table), scaled);
      SumScaled(n, values, frames, scaled);
      assert Sum(n, scaled) == frames;
      OneOnly(frames, Sum(n, values), Sum(n, scaled));
    }
  }

  lemma ColumnIsPosterior(o: Occupancy, column: nat)
    ensures Column(o.numFrames, Table(o))(column) == Sum(o.numFrames, PosteriorOf(o, column))
  {
    ColumnAdds(o.numFrames, Table(o), column, PosteriorOf(o, column));
  }

  ghost function Table(o: Occupancy): (nat, nat) -> real {
    (t: nat, column: nat) => Posterior(o, t)(column)
  }

  lemma OneOnly(a: real, b: real, product: real)
    requires a > 0.0 && product == a * b && product == a
    ensures b == 1.0
  {}

  /** The probability of the reference is at least that of its best alignment. */
  lemma AtLeastBest(chain: AlignChain, d: Dense, w: Weighing, o: Occupancy, al: Alignment)
    requires Ready(chain, d) && w.Lawful() && IsOccupancy(chain, d, w, o) && Aligned(chain, d, Some(al))
    ensures o.total >= w.of(al.cost)
  {
    hide Weighing.Lawful, Probability, Expected;
    ChainIsLawful(chain, d);
    var tr := ChainTrellis(chain, d);
    var path :| IsAligned(chain, d, path, al);
    var hops := BestPaths.HopsOf(path);
    EnumerationIsExact(tr, tr.numFrames, tr.numPositions);
    EndIsPosition(tr, hops, tr.numPositions);
    OwnMass(tr, w, PathsTo(tr, tr.numFrames, tr.numPositions), hops, Everything);
  }

  /** A complete path skips into a position, which its skip cost allows, or sounds it. */
  lemma SkipsOrSounds(chain: AlignChain, d: Dense, hops: seq<Hop>, p: nat)
    requires Ready(chain, d) && ChainTrellis(chain, d).Lawful() && Complete(ChainTrellis(chain, d), hops) && p < |chain.phones|
    ensures SkippedInto(hops, p) || SoundsAfter(hops, p)
    ensures SkippedInto(hops, p) ==> chain.skips[p].Finite?
  {
    hide HopAt;
    PathCostSplits(chain, d, hops, |chain.phones|);
    ChainClimbs(chain, d, hops);
    var t := EnteredSomewhere(hops, |hops|, p);
    assert hops[t].code == COMMIT ==> Sounds(hops[t].code);
    if a: nat :| EntersAt(hops, a, p) && hops[a].code == SKIP {
      SkipPays(chain, d, hops, p, a);
    }
  }

  /** A skip's posterior is that of giving the position no frames, and more by exactly the
      probability of skipping into it and then sounding it all the same. */
  lemma SkipBoundsSilence(chain: AlignChain, d: Dense, w: Weighing, o: Occupancy, p: nat)
    requires Ready(chain, d) && ChainTrellis(chain, d).Lawful() && w.Lawful() && IsOccupancy(chain, d, w, o) && p < |chain.phones|
    ensures var tr := ChainTrellis(chain, d);
            && o.skips[p] * o.total == Probability(tr, w, NeverSounds(p)) + Probability(tr, w, GaveUpButSounds(p))
            && Probability(tr, w, GaveUpButSounds(p)) >= 0.0
  {
    hide Weighing.Lawful, Expected, MassWhere, PathsTo, SkippedInto, SoundsAfter, ForwardBackward.Total;
    var tr := ChainTrellis(chain, d);
    var paths := PathsTo(tr, tr.numFrames, tr.numPositions);
    EnumerationIsExact(tr, tr.numFrames, tr.numPositions);
    forall hops: seq<Hop> | hops in paths ensures GaveUp(p)(hops) || !NeverSounds(p)(hops) {
      SkipsOrSounds(chain, d, hops, p);
    }
    PartsAdd(tr, w, paths, GaveUp(p), NeverSounds(p), GaveUpButSounds(p));
    MassWhereNonNegative(tr, w, paths, GaveUpButSounds(p));
  }

  /** Nothing is given up where the chain forbids it. */
  lemma ForbiddenIsNeverSkipped(chain: AlignChain, d: Dense, w: Weighing, o: Occupancy, p: nat)
    requires Ready(chain, d) && w.Lawful() && IsOccupancy(chain, d, w, o) && p < |chain.phones| && chain.skips[p].Infinite?
    ensures o.skips[p] == 0.0
  {
    hide Weighing.Lawful, Expected, MassWhere, PathsTo, SkippedInto, SoundsAfter, ForwardBackward.Total;
    ChainIsLawful(chain, d);
    var tr := ChainTrellis(chain, d);
    var paths := PathsTo(tr, tr.numFrames, tr.numPositions);
    EnumerationIsExact(tr, tr.numFrames, tr.numPositions);
    forall hops: seq<Hop> | hops in paths ensures !GaveUp(p)(hops) {
      SkipsOrSounds(chain, d, hops, p);
    }
    PartsAdd(tr, w, paths, GaveUp(p), GaveUp(p), GaveUp(p));
  }
}
