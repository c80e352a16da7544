/** What an alignment costs: the frames it heard, plus the phones it gave up. A best
    path never pays for a phone it went on to sound, so the phones given up are
    exactly the ones no frame sounds. */
module AlignmentCosts {
  import opened Costs
  import opened Trellises
  import opened Sums
  import opened Tracebacks
  import opened BestPaths
  import opened PathFrames
  import opened DecodingGraphs
  import opened Aligning

  // -- One frame of a chain path ----------------------------------------------------------

  /** The score a frame read: the phone it sounded, or the blank. */
  function Heard(chain: AlignChain, d: Dense, t: nat, hop: Hop): Cost
    requires Ready(chain, d) && t < d.NumFrames() && hop.position <= |chain.phones|
  {
    d.scores[t][if Sounds(hop.code) && hop.position > 0 then chain.phones[hop.position - 1] else chain.blank]
  }

  /** What a frame paid to give a phone up. */
  function Paid(chain: AlignChain, hop: Hop): Cost
    requires hop.position <= |chain.phones| == |chain.skips|
  {
    if hop.code == SKIP && hop.position > 0 then chain.skips[hop.position - 1] else ZERO
  }

  /** Holding stays where it is, committing and skipping move on by one. */
  predicate Moves(from: nat, hop: Hop) {
    && hop.code < 4
    && hop.position == (if hop.code == COMMIT || hop.code == SKIP then from + 1 else from)
    && (hop.code == HOLD_PHONE ==> hop.position > 0)
  }

  /** The chain's own account of one frame: how it moves, and that what it reads and
      pays is there. */
  ghost predicate ChainHop(chain: AlignChain, d: Dense, t: nat, from: nat, hop: Hop)
    requires Ready(chain, d) && t < d.NumFrames()
  {
    && hop.position <= |chain.phones| && Moves(from, hop)
    && Heard(chain, d, t, hop).Finite? && Paid(chain, hop).Finite?
  }

  lemma HopIsStep(chain: AlignChain, d: Dense, hops: seq<Hop>, t: nat)
    requires Ready(chain, d) && ChainTrellis(chain, d).Lawful() && t < |hops| <= d.NumFrames()
    ensures FitsAt(ChainTrellis(chain, d), hops, t) <==> HopAt(chain, d, hops, t)
    ensures FitsAt(ChainTrellis(chain, d), hops, t) ==>
              StepAt(ChainTrellis(chain, d), hops, t).cost == Finite(Heard(chain, d, t, hops[t]).value + Paid(chain, hops[t]).value)
  {
    var tr := ChainTrellis(chain, d);
    if hops[t].position <= |chain.phones| {
      assert tr.stepsInto(t, hops[t].position) == StepsInto(chain, d.scores[t], hops[t].position);
    }
  }

  ghost predicate HopAt(chain: AlignChain, d: Dense, hops: seq<Hop>, t: nat)
    requires Ready(chain, d) && t < |hops| <= d.NumFrames()
  {
    ChainHop(chain, d, t, PositionAfter(hops, t), hops[t])
  }

  /** A path of the chain, one frame at a time. */
  ghost predicate ChainPath(chain: AlignChain, d: Dense, hops: seq<Hop>)
    requires Ready(chain, d)
  {
    |hops| <= d.NumFrames() && forall t: nat | t < |hops| :: HopAt(chain, d, hops, t)
  }

  ghost function HeardBy(chain: AlignChain, d: Dense, hops: seq<Hop>): nat -> real
    requires Ready(chain, d) && ChainPath(chain, d, hops)
  {
    (t: nat) => if t < |hops| && HopAt(chain, d, hops, t) then Heard(chain, d, t, hops[t]).value else 0.0
  }

  ghost function PaidBy(chain: AlignChain, d: Dense, hops: seq<Hop>): nat -> real
    requires Ready(chain, d) && ChainPath(chain, d, hops)
  {
    (t: nat) => if t < |hops| && HopAt(chain, d, hops, t) then Paid(chain, hops[t]).value else 0.0
  }

  /** A chain path's cost is what its frames heard plus what they paid. */
  lemma PathCostSplits(chain: AlignChain, d: Dense, hops: seq<Hop>, position: nat)
    requires Ready(chain, d) && ChainTrellis(chain, d).Lawful()
    ensures PathTo(ChainTrellis(chain, d), hops, position) <==> ChainPath(chain, d, hops) && position == PositionAfter(hops, |hops|)
    ensures PathTo(ChainTrellis(chain, d), hops, position) ==>
              CostOf(ChainTrellis(chain, d), hops, position)
              == Sum(|hops|, HeardBy(chain, d, hops)) + Sum(|hops|, PaidBy(chain, d, hops))
  {
    hide HopAt, FitsAt, StepAt;
    var tr := ChainTrellis(chain, d);
    PathByFrames(tr, hops, position);
    if |hops| <= d.NumFrames() {
      forall t: nat | t < |hops|
        ensures FitsAt(tr, hops, t) <==> HopAt(chain, d, hops, t)
      {
        HopIsStep(chain, d, hops, t);
      }
    }
    if PathTo(tr, hops, position) {
      CostByFrames(tr, hops, position);
      var both: nat -> real := (t: nat) => HeardBy(chain, d, hops)(t) + PaidBy(chain, d, hops)(t);
      forall t: nat | t < |hops| ensures FrameCost(tr, hops)(t) == both(t) {
        FrameSplits(chain, d, hops, t);
      }
      SumSame(|hops|, FrameCost(tr, hops), both);
      SumPlus(|hops|, HeardBy(chain, d, hops), PaidBy(chain, d, hops));
      SumSame(|hops|, both, (t: nat) => HeardBy(chain, d, hops)(t) + PaidBy(chain, d, hops)(t));
    }
  }

  lemma FrameSplits(chain: AlignChain, d: Dense, hops: seq<Hop>, t: nat)
    requires Ready(chain, d) && ChainTrellis(chain, d).Lawful() && t < |hops|
    requires AllFit(ChainTrellis(chain, d), hops) && ChainPath(chain, d, hops)
    ensures FrameCost(ChainTrellis(chain, d), hops)(t) == HeardBy(chain, d, hops)(t) + PaidBy(chain, d, hops)(t)
  {
    hide HopAt, FitsAt, StepAt, Heard, Paid;
    var tr := ChainTrellis(chain, d);
    assert FitsAt(tr, hops, t) && HopAt(chain, d, hops, t);
    HopIsStep(chain, d, hops, t);
  }

  // -- Each phone is entered once --------------------------------------------------------------

  ghost predicate MovesAt(hops: seq<Hop>, t: nat)
    requires t < |hops|
  {
    Moves(PositionAfter(hops, t), hops[t])
  }

  /** Every frame of a path moves as some transition does. */
  ghost predicate Climbs(hops: seq<Hop>) {
    forall t: nat | t < |hops| :: MovesAt(hops, t)
  }

  lemma ChainClimbs(chain: AlignChain, d: Dense, hops: seq<Hop>)
    requires Ready(chain, d) && ChainPath(chain, d, hops)
    ensures Climbs(hops) && forall t: nat | t < |hops| :: hops[t].position <= |chain.phones|
  {
    hide Heard, Paid, Ready, Moves;
    forall t: nat | t < |hops| ensures MovesAt(hops, t) && hops[t].position <= |chain.phones| {
      assert HopAt(chain, d, hops, t);
    }
  }

  /** Whether frame `t` moved into `position + 1`. */
  predicate EntersAt(hops: seq<Hop>, t: nat, position: nat) {
    t < |hops| && hops[t].position == position + 1 && (hops[t].code == COMMIT || hops[t].code == SKIP)
  }

  ghost predicate SkippedInto(hops: seq<Hop>, position: nat) {
    exists t: nat :: EntersAt(hops, t, position) && hops[t].code == SKIP
  }

  lemma {:induction false} Rises(hops: seq<Hop>, a: nat, b: nat)
    requires Climbs(hops) && a <= b <= |hops|
    ensures PositionAfter(hops, a) <= PositionAfter(hops, b)
    decreases b - a
  {
    if a < b {
      Rises(hops, a, b - 1);
      assert MovesAt(hops, b - 1);
    }
  }

  lemma EntersOnce(hops: seq<Hop>, a: nat, b: nat, position: nat)
    requires Climbs(hops) && EntersAt(hops, a, position) && EntersAt(hops, b, position)
    ensures a == b
  {
    var (i, j) := (Min(a, b), Max(a, b));
    assert MovesAt(hops, j);
    if i < j {
      Rises(hops, i + 1, j);
    }
  }

  lemma {:induction false} EnteredSomewhere(hops: seq<Hop>, n: nat, position: nat) returns (t: nat)
    requires Climbs(hops) && n <= |hops| && position < PositionAfter(hops, n)
    ensures t < n && EntersAt(hops, t, position)
  {
    t := n - 1;
    assert MovesAt(hops, t);
    if position < PositionAfter(hops, t) {
      t := EnteredSomewhere(hops, n - 1, position);
    }
  }

  /** What was paid for each position of the chain. */
  ghost function GivenUp(chain: AlignChain, hops: seq<Hop>): nat -> real
    requires |chain.phones| == |chain.skips|
  {
    (p: nat) => if p < |chain.skips| && SkippedInto(hops, p) && chain.skips[p].Finite? then chain.skips[p].value else 0.0
  }

  lemma {:induction false} PaidByPosition(chain: AlignChain, d: Dense, hops: seq<Hop>, n: nat)
    requires Ready(chain, d) && ChainPath(chain, d, hops) && n <= |hops|
    ensures Sum(n, PaidBy(chain, d, hops)) == Sum(PositionAfter(hops, n), GivenUp(chain, hops))
  {
    hide HopAt, ChainPath, Ready, EntersAt, Climbs, PaidBy, GivenUp;
    if n > 0 {
      PaidByPosition(chain, d, hops, n - 1);
      PaidAt(chain, d, hops, n - 1);
    }
  }

  lemma PaidAt(chain: AlignChain, d: Dense, hops: seq<Hop>, t: nat)
    requires Ready(chain, d) && ChainPath(chain, d, hops) && t < |hops|
    ensures var (from, to) := (PositionAfter(hops, t), PositionAfter(hops, t + 1));
            || (to == from && PaidBy(chain, d, hops)(t) == 0.0)
            || (to == from + 1 && PaidBy(chain, d, hops)(t) == GivenUp(chain, hops)(from))
  {
    hide Heard, Dense.Valid, AlignChain.Reads;
    ChainClimbs(chain, d, hops);
    assert HopAt(chain, d, hops, t) && MovesAt(hops, t);
    if hops[t].code == COMMIT || hops[t].code == SKIP {
      var p := hops[t].position - 1;
      assert EntersAt(hops, t, p);
      if SkippedInto(hops, p) {
        var u: nat :| EntersAt(hops, u, p) && hops[u].code == SKIP;
        EntersOnce(hops, u, t, p);
      }
    }
  }

  // -- The exchange ------------------------------------------------------------------------------

  /** Skipped into at frame `a`, then sounded by holding at frame `b`. */
  ghost predicate HeldAfterSkip(hops: seq<Hop>, position: nat, a: nat, b: nat) {
    a < b < |hops| && EntersAt(hops, a, position) && hops[a].code == SKIP
    && hops[b].position == position + 1 && hops[b].code == HOLD_PHONE
    && forall t | a < t < b :: hops[t] == Hop(HOLD_BLANK, position + 1)
  }

  /** Waiting where it stood, and committing a frame later. */
  ghost function Exchanged(hops: seq<Hop>, position: nat, a: nat, b: nat): (r: seq<Hop>)
    ensures |r| == |hops|
  {
    seq(|hops|, t requires 0 <= t < |hops| =>
      if a <= t < b then Hop(HOLD_BLANK, position) else if t == b then Hop(COMMIT, position + 1) else hops[t])
  }

  // One frame of the exchange: what it was, and what it becomes.
  lemma ExchangedHop(chain: AlignChain, d: Dense, hops: seq<Hop>, position: nat, a: nat, b: nat, t: nat)
    requires Ready(chain, d) && ChainPath(chain, d, hops) && HeldAfterSkip(hops, position, a, b) && t < |hops|
    ensures var other := Exchanged(hops, position, a, b);
            && HopAt(chain, d, other, t) && HopAt(chain, d, hops, t)
            && Heard(chain, d, t, other[t]) == Heard(chain, d, t, hops[t])
            && Paid(chain, other[t]) == if t == a then ZERO else Paid(chain, hops[t])
  {
    var other := Exchanged(hops, position, a, b);
    assert HopAt(chain, d, hops, t);
    assert MovesAt(hops, t) && MovesAt(hops, a) by {
      ChainClimbs(chain, d, hops);
    }
    hide ChainPath, Ready;
    if t < a || b < t {
      assert PositionAfter(other, t) == PositionAfter(hops, t);
    } else {
      assert PositionAfter(other, t) == position;
    }
  }

  lemma ExchangedIsPath(chain: AlignChain, d: Dense, hops: seq<Hop>, position: nat, a: nat, b: nat)
    requires Ready(chain, d) && ChainPath(chain, d, hops) && HeldAfterSkip(hops, position, a, b)
    ensures ChainPath(chain, d, Exchanged(hops, position, a, b))
    ensures PositionAfter(Exchanged(hops, position, a, b), |hops|) == PositionAfter(hops, |hops|)
  {
    hide HopAt;
    var other := Exchanged(hops, position, a, b);
    forall t: nat | t < |hops| ensures HopAt(chain, d, other, t) {
      ExchangedHop(chain, d, hops, position, a, b, t);
    }
  }

  lemma ExchangedFrames(chain: AlignChain, d: Dense, hops: seq<Hop>, position: nat, a: nat, b: nat, t: nat)
    requires Ready(chain, d) && ChainPath(chain, d, hops) && HeldAfterSkip(hops, position, a, b) && t < |hops|
    requires ChainPath(chain, d, Exchanged(hops, position, a, b))
    ensures var other := Exchanged(hops, position, a, b);
            && HeardBy(chain, d, other)(t) == HeardBy(chain, d, hops)(t)
            && PaidBy(chain, d, other)(t) == PaidBy(chain, d, hops)(t) - if t == a then PaidBy(chain, d, hops)(a) else 0.0
  {
    hide HopAt, Exchanged, Heard, Paid, Ready, ChainPath, HeldAfterSkip;
    ExchangedHop(chain, d, hops, position, a, b, t);
  }

  /** Skip, wait, hold costs exactly the skip more than wait, wait, commit. */
  lemma ExchangeSaves(chain: AlignChain, d: Dense, hops: seq<Hop>, position: nat, a: nat, b: nat)
    requires Ready(chain, d) && ChainTrellis(chain, d).Lawful() && Complete(ChainTrellis(chain, d), hops) && HeldAfterSkip(hops, position, a, b)
    ensures position < |chain.skips| && chain.skips[position].Finite?
    ensures var (tr, other) := (ChainTrellis(chain, d), Exchanged(hops, position, a, b));
            && Complete(tr, other)
            && CostOf(tr, other, tr.numPositions) == CostOf(tr, hops, tr.numPositions) - chain.skips[position].value
  {
    hide HopAt, Exchanged;
    var other := Exchanged(hops, position, a, b);
    var n := |hops|;
    PathCostSplits(chain, d, hops, |chain.phones|);
    ExchangedIsPath(chain, d, hops, position, a, b);
    PathCostSplits(chain, d, other, |chain.phones|);
    var (heard, paid) := (HeardBy(chain, d, hops), PaidBy(chain, d, hops));
    var less: nat -> real := (t: nat) => if t == a then -paid(a) else 0.0;
    var both: nat -> real := (t: nat) => paid(t) + less(t);
    forall t: nat | t < n ensures HeardBy(chain, d, other)(t) == heard(t) && PaidBy(chain, d, other)(t) == both(t) {
      ExchangedFrames(chain, d, hops, position, a, b, t);
    }
    SumSame(n, HeardBy(chain, d, other), heard);
    SumSame(n, PaidBy(chain, d, other), both);
    SumPlus(n, paid, less);
    SumSame(n, both, (t: nat) => paid(t) + less(t));
    SumSingle(n, less, a);
    SkipPays(chain, d, hops, position, a);
  }

  lemma SkipPays(chain: AlignChain, d: Dense, hops: seq<Hop>, position: nat, a: nat)
    requires Ready(chain, d) && ChainPath(chain, d, hops) && EntersAt(hops, a, position) && hops[a].code == SKIP
    ensures position < |chain.skips| && chain.skips[position].Finite? && PaidBy(chain, d, hops)(a) == chain.skips[position].value
  {
    assert HopAt(chain, d, hops, a);
  }

  ghost predicate SoundsAfter(hops: seq<Hop>, position: nat) {
    exists t: nat :: t < |hops| && Sounds(hops[t].code) && hops[t].position == position + 1
  }

  /** A position both skipped into and sounded was held after the skip. */
  lemma SkippedAndSounded(hops: seq<Hop>, position: nat) returns (a: nat, b: nat)
    requires Climbs(hops) && SkippedInto(hops, position) && SoundsAfter(hops, position)
    ensures HeldAfterSkip(hops, position, a, b)
  {
    a :| EntersAt(hops, a, position) && hops[a].code == SKIP;
    var t: nat :| t < |hops| && Sounds(hops[t].code) && hops[t].position == position + 1;
    HeldLater(hops, position, a, t);
    b := FirstHeld(hops, position, a, t);
  }

  lemma HeldLater(hops: seq<Hop>, position: nat, a: nat, t: nat)
    requires Climbs(hops) && EntersAt(hops, a, position) && hops[a].code == SKIP
    requires t < |hops| && Sounds(hops[t].code) && hops[t].position == position + 1
    ensures a < t && hops[t].code == HOLD_PHONE
  {
    if hops[t].code == COMMIT {
      EntersOnce(hops, a, t, position);
    } else if t < a {
      assert MovesAt(hops, a);
      Rises(hops, t + 1, a);
    }
  }

  lemma {:induction false} FirstHeld(hops: seq<Hop>, position: nat, a: nat, t: nat) returns (b: nat)
    requires Climbs(hops) && EntersAt(hops, a, position) && hops[a].code == SKIP
    requires a < t < |hops| && hops[t] == Hop(HOLD_PHONE, position + 1)
    ensures HeldAfterSkip(hops, position, a, b)
    decreases t
  {
    if u: nat :| a < u < t && hops[u] != Hop(HOLD_BLANK, position + 1) {
      StaysBetween(hops, position, a, u, t);
      b := FirstHeld(hops, position, a, u);
    } else {
      b := t;
    }
  }

  lemma StaysBetween(hops: seq<Hop>, position: nat, a: nat, u: nat, t: nat)
    requires Climbs(hops) && EntersAt(hops, a, position)
    requires a < u < t < |hops| && hops[t] == Hop(HOLD_PHONE, position + 1)
    ensures hops[u] == Hop(HOLD_BLANK, position + 1) || hops[u] == Hop(HOLD_PHONE, position + 1)
  {
    assert MovesAt(hops, t);
    assert MovesAt(hops, u);
    Rises(hops, a + 1, u);
    Rises(hops, u + 1, t);
  }

  /** No best path pays anything for a phone it goes on to sound. */
  lemma NothingPaidForSounded(chain: AlignChain, d: Dense, path: Path, position: nat)
    requires Ready(chain, d) && ChainTrellis(chain, d).Lawful() && IsBestPath(ChainTrellis(chain, d), path)
    requires SkippedInto(HopsOf(path), position) && SoundsAfter(HopsOf(path), position)
    ensures position < |chain.skips| && chain.skips[position] == ZERO
  {
    hide HopAt, EntersAt;
    var (tr, hops) := (ChainTrellis(chain, d), HopsOf(path));
    PathCostSplits(chain, d, hops, tr.numPositions);
    ChainClimbs(chain, d, hops);
    var a, b := SkippedAndSounded(hops, position);
    ExchangeSaves(chain, d, hops, position, a, b);
    assert path.cost <= CostOf(tr, Exchanged(hops, position, a, b), tr.numPositions);
  }

  // -- The alignment's own account ----------------------------------------------------------------

  /** What each frame paid the acoustic model, read off the alignment alone. */
  function AcousticCosts(al: Alignment, chain: AlignChain, d: Dense): (r: seq<Cost>)
    requires Ready(chain, d) && al.Valid() && al.numPhones == |chain.phones| && |al.sounding| == d.NumFrames()
    ensures |r| == |al.sounding|
  {
    seq(|al.sounding|, t requires 0 <= t < |al.sounding| =>
      d.scores[t][chain.Column(if al.sounding[t] == 0 then None else Some(al.sounding[t] - 1))])
  }

  function SkipCosts(chain: AlignChain, positions: seq<nat>): (r: seq<Cost>)
    requires |chain.skips| == |chain.phones| && forall k | 0 <= k < |positions| :: positions[k] < |chain.phones|
    ensures |r| == |positions|
  {
    seq(|positions|, k requires 0 <= k < |positions| => chain.skips[positions[k]])
  }

  function TotalCost(costs: seq<Cost>): Cost {
    if |costs| == 0 then ZERO else TotalCost(costs[..|costs| - 1]).Plus(costs[|costs| - 1])
  }

  lemma {:induction false} TotalIsSum(costs: seq<Cost>, f: nat -> real)
    requires forall k: nat | k < |costs| :: costs[k] == Finite(f(k))
    ensures TotalCost(costs) == Finite(Sum(|costs|, f))
  {
    if |costs| > 0 {
      TotalIsSum(costs[..|costs| - 1], f);
    }
  }

  lemma {:induction false} SkipCostsSum(chain: AlignChain, al: Alignment, n: nat, f: nat -> real)
    requires |chain.skips| == |chain.phones| && n <= |chain.phones|
    requires forall p: nat | p < n :: if al.Sounded(p) then f(p) == 0.0 else chain.skips[p] == Finite(f(p))
    ensures forall k | 0 <= k < |SkippedUpTo(al, n)| :: SkippedUpTo(al, n)[k] < |chain.phones|
    ensures TotalCost(SkipCosts(chain, SkippedUpTo(al, n))) == Finite(Sum(n, f))
  {
    hide Alignment.Sounded, TotalCost;
    if n == 0 {
      NoCosts();
    } else {
      SkipCostsSum(chain, al, n - 1, f);
      var before := SkippedUpTo(al, n - 1);
      if !al.Sounded(n - 1) {
        TotalMore(SkipCosts(chain, before), chain.skips[n - 1]);
        assert SkipCosts(chain, before + [n - 1]) == SkipCosts(chain, before) + [chain.skips[n - 1]];
      } else {
        assert SkippedUpTo(al, n) == before;
      }
    }
  }

  lemma NoCosts()
    ensures TotalCost([]) == ZERO
  {}

  lemma TotalMore(costs: seq<Cost>, cost: Cost)
    ensures TotalCost(costs + [cost]) == TotalCost(costs).Plus(cost)
  {
    assert (costs + [cost])[..|costs|] == costs;
  }

  lemma SoundedByHops(chain: AlignChain, d: Dense, hops: seq<Hop>, al: Alignment, position: nat)
    requires Ready(chain, d) && ChainPath(chain, d, hops) && al.sounding == SoundingOf(hops)
    ensures al.Sounded(position) <==> SoundsAfter(hops, position)
  {
    if al.Sounded(position) {
      var t :| al.SoundsAt(t, position);
      assert Sounds(hops[t].code) && hops[t].position == position + 1;
    }
    forall t: nat | t < |hops| && Sounds(hops[t].code) && hops[t].position == position + 1 ensures al.Sounded(position) {
      assert al.SoundsAt(t, position);
    }
  }

  lemma AlignedIsValid(chain: AlignChain, d: Dense, hops: seq<Hop>, al: Alignment)
    requires Ready(chain, d) && ChainPath(chain, d, hops) && al.sounding == SoundingOf(hops) && al.numPhones == |chain.phones|
    ensures al.Valid()
    ensures |hops| == d.NumFrames() ==>
              forall t: nat | t < |hops| :: AcousticCosts(al, chain, d)[t] == Finite(HeardBy(chain, d, hops)(t))
  {
    ChainClimbs(chain, d, hops);
    forall t: nat | t < |hops| ensures HopAt(chain, d, hops, t) && MovesAt(hops, t) {}
  }

  /** Frames of an alignment sound positions in order. */
  lemma AlignedIsOrdered(chain: AlignChain, d: Dense, hops: seq<Hop>, al: Alignment)
    requires Ready(chain, d) && ChainPath(chain, d, hops) && al.sounding == SoundingOf(hops)
    ensures Ordered(al)
  {
    ChainClimbs(chain, d, hops);
    forall a, b, p: nat, q: nat | a < b && al.SoundsAt(a, p) && al.SoundsAt(b, q) ensures p <= q {
      Rises(hops, a + 1, b + 1);
    }
  }

  /** An alignment's cost is what its frames heard plus the cost of exactly the
      phones no frame sounds. */
  lemma CostIsHeardPlusSkipped(chain: AlignChain, d: Dense, path: Path, al: Alignment)
    requires Ready(chain, d) && IsAligned(chain, d, path, al)
    ensures al.Valid() && al.numPhones == |chain.phones| && |al.sounding| == d.NumFrames() && Ordered(al)
    ensures forall k | 0 <= k < |SkippedUpTo(al, al.numPhones)| :: SkippedUpTo(al, al.numPhones)[k] < |chain.phones|
    ensures al.cost == TotalCost(AcousticCosts(al, chain, d)).Plus(TotalCost(SkipCosts(chain, SkippedUpTo(al, al.numPhones))))
  {
    hide HopAt, IsBestPath, SoundingOf, EntersAt, Alignment.Sounded, SkippedInto, ChainPath, Dense.Valid;
    ChainIsLawful(chain, d);
    var tr := ChainTrellis(chain, d);
    BestIsComplete(tr, path);
    var hops := HopsOf(path);
    PathCostSplits(chain, d, hops, tr.numPositions);
    AlignedIsValid(chain, d, hops, al);
    AlignedIsOrdered(chain, d, hops, al);
    TotalIsSum(AcousticCosts(al, chain, d), HeardBy(chain, d, hops));
    PaidByPosition(chain, d, hops, |hops|);
    EndIsPosition(tr, hops, tr.numPositions);
    forall p: nat | p < |chain.phones|
      ensures if al.Sounded(p) then GivenUp(chain, hops)(p) == 0.0 else chain.skips[p] == Finite(GivenUp(chain, hops)(p))
    {
      PhoneAccounted(chain, d, path, al, p);
    }
    SkipCostsSum(chain, al, |chain.phones|, GivenUp(chain, hops));
  }

  lemma BestIsComplete(tr: Trellis, path: Path)
    requires tr.Lawful() && IsBestPath(tr, path)
    ensures |path.codes| == |path.positions| && Complete(tr, HopsOf(path)) && path.cost == CostOf(tr, HopsOf(path), tr.numPositions)
  {}

  lemma PhoneAccounted(chain: AlignChain, d: Dense, path: Path, al: Alignment, p: nat)
    requires Ready(chain, d) && IsAligned(chain, d, path, al) && p < |chain.phones|
    ensures |path.codes| == |path.positions|
    ensures var given := GivenUp(chain, HopsOf(path))(p);
            if al.Sounded(p) then given == 0.0 else chain.skips[p] == Finite(given)
  {
    hide HopAt, IsBestPath;
    ChainIsLawful(chain, d);
    var tr := ChainTrellis(chain, d);
    BestIsComplete(tr, path);
    var hops := HopsOf(path);
    PathCostSplits(chain, d, hops, tr.numPositions);
    SoundedByHops(chain, d, hops, al, p);
    if al.Sounded(p) {
      if SkippedInto(hops, p) {
        NothingPaidForSounded(chain, d, path, p);
      }
    } else {
      EndIsPosition(tr, hops, tr.numPositions);
      ChainClimbs(chain, d, hops);
      var t := EnteredSomewhere(hops, |hops|, p);
      assert hops[t].code == SKIP;
      assert SkippedInto(hops, p);
      SkipPays(chain, d, hops, p, t);
    }
  }

  // -- When a skipped phone is never sounded -------------------------------------------------------

  ghost predicate HoldsWhatItSkipped(hops: seq<Hop>) {
    exists p: nat :: SkippedInto(hops, p) && SoundsAfter(hops, p)
  }

  ghost predicate BestOfChain(chain: AlignChain, d: Dense, path: Path) {
    Ready(chain, d) && ChainTrellis(chain, d).Lawful() && |path.codes| == |path.positions| && IsBestPath(ChainTrellis(chain, d), path)
  }

  /** No best path over any phones and any scores sounds a phone it skipped, exactly
      when no skip is free. */
  lemma NeverHeldIffNoSkipIsFree(skips: seq<Cost>)
    requires forall p | 0 <= p < |skips| :: !skips[p].Less(ZERO)
    ensures (forall p | 0 <= p < |skips| :: skips[p] != ZERO)
       <==> forall chain: AlignChain, d: Dense, path: Path | chain.skips == skips && BestOfChain(chain, d, path) :: !HoldsWhatItSkipped(HopsOf(path))
  {
    hide IsBestPath, SkippedInto, SoundsAfter;
    if forall p | 0 <= p < |skips| :: skips[p] != ZERO {
      forall chain: AlignChain, d: Dense, path: Path | chain.skips == skips && BestOfChain(chain, d, path) ensures !HoldsWhatItSkipped(HopsOf(path)) {
        BestIsComplete(ChainTrellis(chain, d), path);
        forall p: nat | SkippedInto(HopsOf(path), p) && SoundsAfter(HopsOf(path), p) ensures false {
          NothingPaidForSounded(chain, d, path, p);
        }
      }
    } else {
      var p: nat :| p < |skips| && skips[p] == ZERO;
      FreeSkipIsHeld(skips, p);
    }
  }

  // The example: one column can be heard in each frame, and only silence in frame
  // `p`, which the phone's own frame follows.

  function OnlyColumn(p: nat, t: nat): nat {
    if t < p then t + 1 else if t == p then 0 else t
  }

  function ExampleChain(skips: seq<Cost>): AlignChain {
    AlignChain(seq(|skips|, k requires 0 <= k < |skips| => k + 1), skips, 0)
  }

  function ExampleScores(n: nat, p: nat): Dense {
    Dense(seq(n + 1, t requires 0 <= t < n + 1 =>
            seq(n + 1, c requires 0 <= c < n + 1 => if c == OnlyColumn(p, t) then ZERO else Infinite)), n + 1, 1)
  }

  function ExampleHop(p: nat, t: nat): Hop {
    Hop(if t == p then SKIP else if t == p + 1 then HOLD_PHONE else COMMIT, if t <= p then t + 1 else t)
  }

  function ExamplePath(n: nat, p: nat): Path {
    Path(seq(n + 1, t requires 0 <= t < n + 1 => ExampleHop(p, t).code as bv8),
         seq(n + 1, t requires 0 <= t < n + 1 => ExampleHop(p, t).position), 0.0)
  }

  lemma ExampleHops(n: nat, p: nat)
    ensures |HopsOf(ExamplePath(n, p))| == n + 1
    ensures forall t: nat | t < n + 1 :: HopsOf(ExamplePath(n, p))[t] == ExampleHop(p, t)
  {
    var hops := HopsOf(ExamplePath(n, p));
    forall t: nat | t < n + 1 ensures hops[t] == ExampleHop(p, t) {
      ByteRoundTrip(ExampleHop(p, t).code);
    }
  }

  // What a frame of the example can be, whatever the path: it sounds the one phone
  // whose column it can hear, or is the silent frame.
  lemma OnlyOneHop(skips: seq<Cost>, p: nat, t: nat, from: nat, hop: Hop)
    requires Ready(ExampleChain(skips), ExampleScores(|skips|, p)) && t <= |skips|
    ensures ChainHop(ExampleChain(skips), ExampleScores(|skips|, p), t, from, hop) <==>
              && hop.position <= |skips| && Moves(from, hop) && Paid(ExampleChain(skips), hop).Finite?
              && if t == p then !Sounds(hop.code) else Sounds(hop.code) && hop.position == OnlyColumn(p, t)
    ensures ChainHop(ExampleChain(skips), ExampleScores(|skips|, p), t, from, hop) ==>
              Heard(ExampleChain(skips), ExampleScores(|skips|, p), t, hop) == ZERO
  {
    var (chain, d) := (ExampleChain(skips), ExampleScores(|skips|, p));
    if hop.position <= |skips| {
      var column := if Sounds(hop.code) && hop.position > 0 then hop.position else 0;
      assert Heard(chain, d, t, hop) == d.scores[t][column];
      assert d.scores[t][column] == if column == OnlyColumn(p, t) then ZERO else Infinite;
    }
  }

  lemma NoRival(skips: seq<Cost>, p: nat, t: nat, other: seq<Hop>)
    requires p < |skips| && Ready(ExampleChain(skips), ExampleScores(|skips|, p)) && t <= |skips|
    requires ChainPath(ExampleChain(skips), ExampleScores(|skips|, p), other) && |other| == t + 1
    requires other[t].position == ExampleHop(p, t).position
    ensures other[t].code >= ExampleHop(p, t).code
  {
    hide Ready, ChainHop;
    var (chain, d) := (ExampleChain(skips), ExampleScores(|skips|, p));
    assert HopAt(chain, d, other, t);
    OnlyOneHop(skips, p, t, PositionAfter(other, t), other[t]);
    if t > 0 {
      assert HopAt(chain, d, other, t - 1);
      OnlyOneHop(skips, p, t - 1, PositionAfter(other, t - 1), other[t - 1]);
    }
  }

  lemma ExampleIsReady(skips: seq<Cost>, p: nat)
    requires forall k | 0 <= k < |skips| :: !skips[k].Less(ZERO)
    ensures Ready(ExampleChain(skips), ExampleScores(|skips|, p))
  {}

  lemma ExampleIsPath(skips: seq<Cost>, p: nat, hops: seq<Hop>)
    requires p < |skips| && skips[p] == ZERO && Ready(ExampleChain(skips), ExampleScores(|skips|, p))
    requires |hops| == |skips| + 1 && forall t: nat | t < |skips| + 1 :: hops[t] == ExampleHop(p, t)
    ensures ChainPath(ExampleChain(skips), ExampleScores(|skips|, p), hops) && PositionAfter(hops, |hops|) == |skips|
    ensures forall t: nat | t < |hops| :: HeardBy(ExampleChain(skips), ExampleScores(|skips|, p), hops)(t) == 0.0
                                          && PaidBy(ExampleChain(skips), ExampleScores(|skips|, p), hops)(t) == 0.0
  {
    hide Ready, ChainHop;
    var (chain, d) := (ExampleChain(skips), ExampleScores(|skips|, p));
    forall t: nat | t < |hops| ensures HopAt(chain, d, hops, t) && Heard(chain, d, t, hops[t]) == ZERO && Paid(chain, hops[t]) == ZERO {
      OnlyOneHop(skips, p, t, PositionAfter(hops, t), hops[t]);
    }
  }

  lemma CostsAreNotNegative(skips: seq<Cost>, p: nat, other: seq<Hop>)
    requires Ready(ExampleChain(skips), ExampleScores(|skips|, p)) && ChainPath(ExampleChain(skips), ExampleScores(|skips|, p), other)
    ensures Sum(|other|, HeardBy(ExampleChain(skips), ExampleScores(|skips|, p), other)) >= 0.0
    ensures Sum(|other|, PaidBy(ExampleChain(skips), ExampleScores(|skips|, p), other)) >= 0.0
  {
    var (chain, d) := (ExampleChain(skips), ExampleScores(|skips|, p));
    forall t: nat | t < |other| ensures HeardBy(chain, d, other)(t) >= 0.0 && PaidBy(chain, d, other)(t) >= 0.0 {
      assert HopAt(chain, d, other, t);
      OnlyOneHop(skips, p, t, PositionAfter(other, t), other[t]);
    }
    SumNonNegative(|other|, HeardBy(chain, d, other));
    SumNonNegative(|other|, PaidBy(chain, d, other));
  }

  lemma ExampleIsBest(skips: seq<Cost>, p: nat)
    requires p < |skips| && skips[p] == ZERO && forall k | 0 <= k < |skips| :: !skips[k].Less(ZERO)
    ensures BestOfChain(ExampleChain(skips), ExampleScores(|skips|, p), ExamplePath(|skips|, p))
  {
    hide HopAt, ChainHop, ExampleHop, Ready, ChainPath, ChainTrellis, ExampleChain, ExampleScores;
    var (chain, d, path) := (ExampleChain(skips), ExampleScores(|skips|, p), ExamplePath(|skips|, p));
    ExampleIsReady(skips, p);
    ChainIsLawful(chain, d);
    var (tr, hops) := (ChainTrellis(chain, d), HopsOf(path));
    ExampleSize(skips, p);
    ExampleHops(|skips|, p);
    ExampleIsPath(skips, p, hops);
    PathCostSplits(chain, d, hops, tr.numPositions);
    SumZero(|hops|, HeardBy(chain, d, hops));
    SumZero(|hops|, PaidBy(chain, d, hops));
    forall other | Complete(tr, other) ensures path.cost <= CostOf(tr, other, tr.numPositions) {
      PathCostSplits(chain, d, other, tr.numPositions);
      CostsAreNotNegative(skips, p, other);
    }
    forall t, other | 0 <= t < tr.numFrames ensures !Rival(tr, path, t, other) {
      if Rival(tr, path, t, other) {
        PathCostSplits(chain, d, other, path.positions[t]);
        assert hops[t] == ExampleHop(p, t);
        NoRival(skips, p, t, other);
      }
    }
  }

  lemma ExampleSize(skips: seq<Cost>, p: nat)
    requires Ready(ExampleChain(skips), ExampleScores(|skips|, p))
    ensures var tr := ChainTrellis(ExampleChain(skips), ExampleScores(|skips|, p));
            tr.numFrames == |skips| + 1 && tr.numPositions == |skips|
  {}

  /** A free skip is held in some best path: the phone is given up in a silent
      frame, and then sounds. */
  lemma FreeSkipIsHeld(skips: seq<Cost>, p: nat)
    requires p < |skips| && skips[p] == ZERO && forall k | 0 <= k < |skips| :: !skips[k].Less(ZERO)
    ensures exists chain: AlignChain, d: Dense, path: Path :: chain.skips == skips && BestOfChain(chain, d, path) && HoldsWhatItSkipped(HopsOf(path))
  {
    hide IsBestPath;
    var (chain, d, path) := (ExampleChain(skips), ExampleScores(|skips|, p), ExamplePath(|skips|, p));
    ExampleIsBest(skips, p);
    ExampleHops(|skips|, p);
    var hops := HopsOf(path);
    assert hops[p] == ExampleHop(p, p) && hops[p + 1] == ExampleHop(p, p + 1);
    assert EntersAt(hops, p, p);
    assert SkippedInto(hops, p) && SoundsAfter(hops, p);
    assert chain.skips == skips && BestOfChain(chain, d, path) && HoldsWhatItSkipped(hops);
  }
}
