/** The chain as an ordinary decoding graph. Its accepting paths against the matrix
    are the trellis's complete paths: the same costs, and the same alignment read
    back, so the general decoders and the exact aligner have one answer. */
module ChainGraphs {
  import opened Costs
  import opened Trellises
  import opened BestPaths
  import opened PathFrames
  import opened DecodingGraphs
  import opened Aligning
  import Viterbi
  import opened Frontiers

  /** The arcs out of state `i`, in order: hold blank, hold phone, commit, skip,
      each where there is one. A forbidden skip is no arc at all. */
  function ArcsFrom(chain: AlignChain, offset: int, i: nat): seq<Arc>
    requires i <= |chain.phones| == |chain.skips|
  {
    var n := |chain.phones|;
    [Arc(offset + chain.blank, n + 1, ZERO, i)]
    + (if i > 0 then [Arc(offset + chain.phones[i - 1], i, ZERO, i)] else [])
    + (if i < n then [Arc(offset + chain.phones[i], i + 1, ZERO, i + 1)] else [])
    + (if i < n && chain.skips[i].Finite? then [Arc(offset + chain.blank, n + 1, chain.skips[i], i + 1)] else [])
  }

  function ChainGraph(chain: AlignChain, offset: int): (g: Graph)
    requires |chain.phones| == |chain.skips|
    ensures |g.arcs| == |g.finals| == |chain.phones| + 1
  {
    var n := |chain.phones|;
    Graph(Some(0),
          seq(n + 1, i requires 0 <= i < n + 1 => if i == n then ZERO else Infinite),
          seq(n + 1, i requires 0 <= i < n + 1 => ArcsFrom(chain, offset, i)))
  }

  lemma ChainGraphIsValid(chain: AlignChain, offset: int)
    requires chain.Valid()
    ensures ChainGraph(chain, offset).Valid()
  {
    var g := ChainGraph(chain, offset);
    forall i, k | 0 <= i < |g.arcs| && 0 <= k < |g.arcs[i]| ensures g.arcs[i][k].nextstate < |g.arcs| {
      assert g.arcs[i] == ArcsFrom(chain, offset, i);
    }
  }

  /** Every label of the graph fits the arcs' label type. */
  ghost predicate LabelsFit(chain: AlignChain, offset: int, largest: int) {
    && offset + chain.blank <= largest && |chain.phones| + 1 <= largest
    && forall p | 0 <= p < |chain.phones| :: offset + chain.phones[p] <= largest
  }

  method ToFst(chain: AlignChain, offset: int, largest: int) returns (r: Result<Graph, AlignError>)
    requires chain.Valid()
    ensures r.Success? <==> offset >= 1 && LabelsFit(chain, offset, largest)
    ensures r.Success? ==> r.value == ChainGraph(chain, offset)
    ensures r.Failure? ==> r.error.LabelDoesNotFit?
  {
    if offset < 1 {
      return Failure(LabelDoesNotFit);
    }
    var n := |chain.phones|;
    var finals := seq(n + 1, i requires 0 <= i < n + 1 => if i == n then ZERO else Infinite);
    var arcs: seq<seq<Arc>> := [];
    if offset + chain.blank > largest || n + 1 > largest {
      return Failure(LabelDoesNotFit);
    }
    var i := 0;
    while i <= n
      invariant 0 <= i == |arcs| <= n + 1
      invariant forall k | 0 <= k < i :: arcs[k] == ArcsFrom(chain, offset, k)
      invariant forall p | 0 <= p < i && p < n :: offset + chain.phones[p] <= largest
    {
      var out := [Arc(offset + chain.blank, n + 1, ZERO, i)];
      if i > 0 {
        if offset + chain.phones[i - 1] > largest || i > largest {
          return Failure(LabelDoesNotFit);
        }
        out := out + [Arc(offset + chain.phones[i - 1], i, ZERO, i)];
      }
      if i < n {
        if offset + chain.phones[i] > largest || i + 1 > largest {
          return Failure(LabelDoesNotFit);
        }
        out := out + [Arc(offset + chain.phones[i], i + 1, ZERO, i + 1)];
        if chain.skips[i].Finite? {
          out := out + [Arc(offset + chain.blank, n + 1, chain.skips[i], i + 1)];
        }
      }
      arcs := arcs + [out];
      i := i + 1;
    }
    assert arcs == ChainGraph(chain, offset).arcs;
    return Success(Graph(Some(0), finals, arcs));
  }

  // -- One arc is one transition -------------------------------------------------------------

  /** The transition an arc is, by its place in its state's list. */
  function CodeAt(i: nat, k: nat): nat {
    if k == 0 then HOLD_BLANK
    else if i > 0 && k == 1 then HOLD_PHONE
    else if k == (if i > 0 then 2 else 1) then COMMIT
    else SKIP
  }

  function IndexAt(i: nat, code: nat): nat {
    if code == HOLD_BLANK then 0
    else if code == HOLD_PHONE then 1
    else if code == COMMIT then (if i > 0 then 2 else 1)
    else if i > 0 then 3 else 2
  }

  ghost predicate Matched(chain: AlignChain, d: Dense, offset: int) {
    Ready(chain, d) && offset >= 1 && d.labelOffset == offset
  }

  lemma MatchedMeans(chain: AlignChain, d: Dense, offset: int)
    requires Matched(chain, d, offset)
    ensures Ready(chain, d) && d.Valid() && |chain.phones| == |chain.skips|
  {}

  // Arc `k` of state `i` reads a column the matrix has, and is the transition its
  // place says, at the same cost and into the same position.
  lemma ArcIsStep(chain: AlignChain, d: Dense, offset: int, t: nat, i: nat, k: nat)
    requires Matched(chain, d, offset) && t < d.NumFrames() && i <= |chain.phones| && k < |ArcsFrom(chain, offset, i)|
    ensures var arc := ArcsFrom(chain, offset, i)[k];
            && arc.ilabel != EPSILON && arc.olabel != EPSILON && d.ColumnOf(arc.ilabel).Some? && arc.nextstate <= |chain.phones|
            && IndexAt(i, CodeAt(i, k)) == k && CodeAt(i, k) < 4
            && LabelSounds(|chain.phones|, arc.olabel) == Some(if Sounds(CodeAt(i, k)) then arc.nextstate else 0)
            && var step := StepsInto(chain, d.scores[t], arc.nextstate)[CodeAt(i, k)];
               && step.cost == arc.weight.Plus(d.scores[t][d.ColumnOf(arc.ilabel).value])
               && arc.nextstate == i + step.advance
  {
    hide Dense.Valid;
    var arcs := ArcsFrom(chain, offset, i);
    var n := |chain.phones|;
    var arc := arcs[k];
    assert |d.scores[t]| == d.numSymbols by { FrameWidth(d, t); }
    if CodeAt(i, k) == HOLD_BLANK {
      assert arc == Arc(offset + chain.blank, n + 1, ZERO, i);
    } else if CodeAt(i, k) == HOLD_PHONE {
      assert arc == Arc(offset + chain.phones[i - 1], i, ZERO, i);
    } else if CodeAt(i, k) == COMMIT {
      assert arc == Arc(offset + chain.phones[i], i + 1, ZERO, i + 1);
    } else {
      assert arc == Arc(offset + chain.blank, n + 1, chain.skips[i], i + 1);
    }
  }

  lemma FrameWidth(d: Dense, t: nat)
    requires d.Valid() && t < d.NumFrames()
    ensures |d.scores[t]| == d.numSymbols
  {}

  // Every transition that is there is an arc.
  lemma StepIsArc(chain: AlignChain, d: Dense, offset: int, t: nat, hop: Hop)
    requires Matched(chain, d, offset) && t < d.NumFrames() && hop.position <= |chain.phones| && hop.code < 4
    requires StepsInto(chain, d.scores[t], hop.position)[hop.code].cost.Finite?
    ensures var step := StepsInto(chain, d.scores[t], hop.position)[hop.code];
            && step.advance <= hop.position
            && var i := hop.position - step.advance;
               var k := IndexAt(i, hop.code);
               k < |ArcsFrom(chain, offset, i)| && CodeAt(i, k) == hop.code && ArcsFrom(chain, offset, i)[k].nextstate == hop.position
  {}

  // -- A walk is a path --------------------------------------------------------------------------

  ghost function HopOf(g: Graph, taken: Taken): Hop {
    Hop(CodeAt(taken.from, taken.index), if IsArc(g, taken) then ArcOf(g, taken).nextstate else 0)
  }

  ghost function HopsOfWalk(g: Graph, walk: seq<Taken>): (hops: seq<Hop>)
    ensures |hops| == |walk|
  {
    seq(|walk|, k requires 0 <= k < |walk| => HopOf(g, walk[k]))
  }

  ghost function TakenOf(from: nat, hop: Hop): Taken {
    Taken(from, IndexAt(from, hop.code))
  }

  ghost function WalkOfHops(hops: seq<Hop>): (walk: seq<Taken>)
    ensures |walk| == |hops|
  {
    seq(|hops|, t requires 0 <= t < |hops| => TakenOf(PositionAfter(hops, t), hops[t]))
  }

  lemma HopsOfLast(g: Graph, walk: seq<Taken>)
    requires |walk| > 0
    ensures HopsOfWalk(g, walk) == HopsOfWalk(g, walk[..|walk| - 1]) + [HopOf(g, walk[|walk| - 1])]
  {}

  lemma WalkOfLast(hops: seq<Hop>, t: nat)
    requires |hops| == t + 1
    ensures WalkOfHops(hops) == WalkOfHops(hops[..t]) + [TakenOf(PositionAfter(hops, t), hops[t])]
  {}

  /** The labels of a path read back as what its frames sound. */
  ghost predicate ReadsBack(numPhones: nat, labels: seq<int>, sounding: seq<nat>) {
    |labels| == |sounding| && forall t | 0 <= t < |labels| :: LabelSounds(numPhones, labels[t]) == Some(sounding[t])
  }

  lemma FiniteParts(a: Cost, b: Cost)
    requires a.Plus(b).Finite?
    ensures a.Finite? && b.Finite? && a.Plus(b).value == a.value + b.value
  {}

  lemma StepAtFrame(chain: AlignChain, d: Dense, t: nat, position: nat)
    requires Ready(chain, d) && t < d.NumFrames() && position <= |chain.phones|
    ensures ChainTrellis(chain, d).stepsInto(t, position) == StepsInto(chain, d.scores[t], position)
    ensures |StepsInto(chain, d.scores[t], position)| == 4
  {}

  // The last arc of a walk: a transition of the chain in the walk's last frame.
  lemma LastArc(chain: AlignChain, d: Dense, offset: int, walk: seq<Taken>, frames: nat, s: nat)
    requires Matched(chain, d, offset) && ChainGraph(chain, offset).Valid() && Walk(ChainGraph(chain, offset), d, walk, frames, s) && |walk| > 0
    ensures var (g, last) := (ChainGraph(chain, offset), walk[|walk| - 1]);
            && IsArc(g, last) && last.from <= |chain.phones| && Fits(g, d, last, frames) && 0 < frames <= d.NumFrames()
            && ArcOf(g, last) == ArcsFrom(chain, offset, last.from)[last.index] && ArcOf(g, last).nextstate == s <= |chain.phones|
            && FramesBefore(g, last, frames) == frames - 1
            && Walk(g, d, walk[..|walk| - 1], frames - 1, last.from)
            && HopOf(g, last) == Hop(CodeAt(last.from, last.index), s)
            && CodeAt(last.from, last.index) < 4 && IndexAt(last.from, CodeAt(last.from, last.index)) == last.index
            && ArcOf(g, last).olabel != EPSILON
            && LabelSounds(|chain.phones|, ArcOf(g, last).olabel) == Some(if Sounds(CodeAt(last.from, last.index)) then s else 0)
            && var step := StepsInto(chain, d.scores[frames - 1], s)[CodeAt(last.from, last.index)];
               step.cost == ArcCost(g, d, last, frames) && s == last.from + step.advance
  {
    hide ArcsFrom, StepsInto, Graph.Valid, CodeAt, IndexAt, LabelSounds;
    var last := walk[|walk| - 1];
    ArcEmits(chain, offset, last.from, last.index);
    ArcIsStep(chain, d, offset, frames - 1, last.from, last.index);
  }

  /** A walk of the graph at a finite cost is a path of the trellis, at that cost. */
  lemma {:induction false} WalkIsPath(chain: AlignChain, d: Dense, offset: int, walk: seq<Taken>, frames: nat, s: nat)
    requires Matched(chain, d, offset)
    requires ChainGraph(chain, offset).Valid() && ChainTrellis(chain, d).Lawful() && Walk(ChainGraph(chain, offset), d, walk, frames, s)
    requires WalkCost(ChainGraph(chain, offset), d, walk, frames, s).Finite?
    ensures var (g, tr) := (ChainGraph(chain, offset), ChainTrellis(chain, d));
            && |walk| == frames
            && var hops := HopsOfWalk(g, walk);
               PathTo(tr, hops, s) && WalkCost(g, d, walk, frames, s) == Finite(CostOf(tr, hops, s))
    decreases |walk|
  {
    hide ArcsFrom, StepsInto, Graph.Valid, Dense.Valid, Trellis.Lawful, Ready, Matched, CodeAt, IndexAt, LabelSounds, Fits, ArcCost, ChainTrellis, ChainGraph, HopsOfWalk, HopOf;
    MatchedMeans(chain, d, offset);
    var (g, tr) := (ChainGraph(chain, offset), ChainTrellis(chain, d));
    if |walk| == 0 {
      OneArcLeavesStart(chain, d, offset, walk, frames, s);
    } else {
      var last := walk[|walk| - 1];
      var front := walk[..|walk| - 1];
      LastArc(chain, d, offset, walk, frames, s);
      var cost := WalkCost(g, d, front, frames - 1, last.from);
      FiniteParts(cost, ArcCost(g, d, last, frames));
      WalkIsPath(chain, d, offset, front, frames - 1, last.from);
      PathOn(chain, d, HopsOfWalk(g, front), last.from, HopOf(g, last));
      HopsOfLast(g, walk);
    }
  }

  /** Its labels read back what the path sounds. */
  lemma {:induction false} WalkReadsBack(chain: AlignChain, d: Dense, offset: int, walk: seq<Taken>, frames: nat, s: nat)
    requires Matched(chain, d, offset) && ChainGraph(chain, offset).Valid() && Walk(ChainGraph(chain, offset), d, walk, frames, s)
    ensures forall k | 0 <= k < |walk| :: IsArc(ChainGraph(chain, offset), walk[k])
    ensures ReadsBack(|chain.phones|, Outputs(ChainGraph(chain, offset), walk), SoundingOf(HopsOfWalk(ChainGraph(chain, offset), walk)))
    decreases |walk|
  {
    hide ArcsFrom, StepsInto, Graph.Valid, Dense.Valid, Ready, CodeAt, IndexAt, LabelSounds, Fits, ArcCost, ChainGraph, Matched, SoundingOf, HopsOfWalk, HopOf;
    MatchedMeans(chain, d, offset);
    var g := ChainGraph(chain, offset);
    WalkArcs(g, d, walk, frames, s);
    if |walk| == 0 {
      NothingSounds(g, walk);
    } else {
      var last := walk[|walk| - 1];
      var front := walk[..|walk| - 1];
      LastArc(chain, d, offset, walk, frames, s);
      WalkReadsBack(chain, d, offset, front, frames - 1, last.from);
      ReadsOn(|chain.phones|, Outputs(g, front), HopsOfWalk(g, front), ArcOf(g, last).olabel, HopOf(g, last));
      HopsOfLast(g, walk);
    }
  }

  lemma NothingSounds(g: Graph, walk: seq<Taken>)
    requires |walk| == 0
    ensures SoundingOf(HopsOfWalk(g, walk)) == []
  {}

  // Each arc of a walk leaves where the one before it led.
  lemma {:induction false} WalkLinks(chain: AlignChain, d: Dense, offset: int, walk: seq<Taken>, frames: nat, s: nat, k: nat)
    requires Matched(chain, d, offset) && ChainGraph(chain, offset).Valid() && Walk(ChainGraph(chain, offset), d, walk, frames, s)
    requires k < |walk|
    ensures IndexAt(walk[k].from, CodeAt(walk[k].from, walk[k].index)) == walk[k].index
    ensures walk[k].from == if k == 0 then 0 else HopOf(ChainGraph(chain, offset), walk[k - 1]).position
    decreases |walk|
  {
    hide *;
    MatchedMeans(chain, d, offset);
    LastLink(chain, d, offset, walk, frames, s);
    var front := walk[..|walk| - 1];
    if k < |front| {
      WalkLinks(chain, d, offset, front, frames - 1, walk[|walk| - 1].from, k);
    } else if k > 0 {
      LastLink(chain, d, offset, front, frames - 1, walk[|walk| - 1].from);
    } else {
      OneArcLeavesStart(chain, d, offset, front, frames - 1, walk[0].from);
    }
  }

  lemma LastLink(chain: AlignChain, d: Dense, offset: int, walk: seq<Taken>, frames: nat, s: nat)
    requires Matched(chain, d, offset) && ChainGraph(chain, offset).Valid() && Walk(ChainGraph(chain, offset), d, walk, frames, s) && |walk| > 0
    ensures frames > 0 && Walk(ChainGraph(chain, offset), d, walk[..|walk| - 1], frames - 1, walk[|walk| - 1].from)
    ensures HopOf(ChainGraph(chain, offset), walk[|walk| - 1]).position == s
    ensures IndexAt(walk[|walk| - 1].from, CodeAt(walk[|walk| - 1].from, walk[|walk| - 1].index)) == walk[|walk| - 1].index
  {
    hide ArcsFrom, StepsInto, Graph.Valid, Dense.Valid, Ready, CodeAt, IndexAt, LabelSounds, Fits, ArcCost, Matched, HopOf, Walk;
    MatchedMeans(chain, d, offset);
    LastArc(chain, d, offset, walk, frames, s);
  }

  lemma OneArcLeavesStart(chain: AlignChain, d: Dense, offset: int, walk: seq<Taken>, frames: nat, s: nat)
    requires |chain.phones| == |chain.skips| && ChainGraph(chain, offset).Valid() && Walk(ChainGraph(chain, offset), d, walk, frames, s) && |walk| == 0
    ensures s == 0
  {}

  /** And the path's own walk is the walk. */
  lemma WalkComesBack(chain: AlignChain, d: Dense, offset: int, walk: seq<Taken>, frames: nat, s: nat)
    requires Matched(chain, d, offset) && ChainGraph(chain, offset).Valid() && Walk(ChainGraph(chain, offset), d, walk, frames, s)
    ensures WalkOfHops(HopsOfWalk(ChainGraph(chain, offset), walk)) == walk
  {
    hide ArcsFrom, StepsInto, Graph.Valid, Dense.Valid, Ready, CodeAt, IndexAt, LabelSounds, Fits, ArcCost, Matched, Walk, ChainGraph;
    MatchedMeans(chain, d, offset);
    var hops := HopsOfWalk(ChainGraph(chain, offset), walk);
    forall k: nat | k < |walk| ensures WalkOfHops(hops)[k] == walk[k] {
      WalkLinks(chain, d, offset, walk, frames, s, k);
    }
  }

  lemma ArcEmits(chain: AlignChain, offset: int, i: nat, k: nat)
    requires offset >= 1 && i <= |chain.phones| == |chain.skips| && k < |ArcsFrom(chain, offset, i)|
    ensures ArcsFrom(chain, offset, i)[k].ilabel != EPSILON
  {}

  lemma ReadsOn(numPhones: nat, labels: seq<int>, hops: seq<Hop>, symbol: int, hop: Hop)
    requires ReadsBack(numPhones, labels, SoundingOf(hops))
    requires LabelSounds(numPhones, symbol) == Some(if Sounds(hop.code) then hop.position else 0)
    ensures ReadsBack(numPhones, labels + [symbol], SoundingOf(hops + [hop]))
  {
    assert SoundingOf(hops + [hop]) == SoundingOf(hops) + [if Sounds(hop.code) then hop.position else 0];
  }

  lemma PathOn(chain: AlignChain, d: Dense, hops: seq<Hop>, from: nat, hop: Hop)
    requires Ready(chain, d) && ChainTrellis(chain, d).Lawful() && PathTo(ChainTrellis(chain, d), hops, from)
    requires |hops| < d.NumFrames() && hop.position <= |chain.phones| && hop.code < 4
    requires var step := StepsInto(chain, d.scores[|hops|], hop.position)[hop.code];
             step.cost.Finite? && hop.position == from + step.advance
    ensures var tr := ChainTrellis(chain, d);
            && PathTo(tr, hops + [hop], hop.position)
            && CostOf(tr, hops + [hop], hop.position) == CostOf(tr, hops, from) + StepsInto(chain, d.scores[|hops|], hop.position)[hop.code].cost.value
  {
    hide StepsInto, Ready, Trellis.Lawful;
    StepAtFrame(chain, d, |hops|, hop.position);
    assert (hops + [hop])[..|hops|] == hops;
  }

  // Each hop of a path is an arc of the graph.
  lemma HopIsArc(chain: AlignChain, d: Dense, offset: int, hops: seq<Hop>, t: nat)
    requires Matched(chain, d, offset) && ChainTrellis(chain, d).Lawful() && t < |hops| <= d.NumFrames()
    requires FitsAt(ChainTrellis(chain, d), hops, t)
    ensures var (g, tr) := (ChainGraph(chain, offset), ChainTrellis(chain, d));
            var taken := TakenOf(PositionAfter(hops, t), hops[t]);
            && IsArc(g, taken) && HopOf(g, taken) == hops[t] && Fits(g, d, taken, t + 1) && FramesBefore(g, taken, t + 1) == t
            && ArcCost(g, d, taken, t + 1) == StepAt(tr, hops, t).cost
  {
    hide ArcsFrom, StepsInto, Trellis.Lawful, CodeAt, IndexAt, LabelSounds, Dense.ColumnOf;
    MatchedMeans(chain, d, offset);
    var from := PositionAfter(hops, t);
    StepAtFrame(chain, d, t, hops[t].position);
    StepIsArc(chain, d, offset, t, hops[t]);
    ArcIsStep(chain, d, offset, t, from, IndexAt(from, hops[t].code));
  }

  /** A path of the trellis is a walk of the graph with the same cost. */
  lemma {:induction false} PathIsWalk(chain: AlignChain, d: Dense, offset: int, hops: seq<Hop>, s: nat)
    requires Matched(chain, d, offset)
    requires ChainGraph(chain, offset).Valid() && ChainTrellis(chain, d).Lawful() && PathTo(ChainTrellis(chain, d), hops, s)
    ensures Walk(ChainGraph(chain, offset), d, WalkOfHops(hops), |hops|, s)
    ensures WalkCost(ChainGraph(chain, offset), d, WalkOfHops(hops), |hops|, s) == Finite(CostOf(ChainTrellis(chain, d), hops, s))
    decreases |hops|
  {
    hide *;
    MatchedMeans(chain, d, offset);
    if |hops| == 0 {
      StartsAtZero(chain, d, offset, hops, s);
    } else {
      var t: nat := |hops| - 1;
      var front := hops[..t];
      var from := PositionAfter(hops, t);
      var taken, cost, more := LastHopIsArc(chain, d, offset, hops, s);
      PathIsWalk(chain, d, offset, front, from);
      HopsGrow(ChainGraph(chain, offset), d, hops, t, taken, cost, more);
    }
  }

  lemma LastHopIsArc(chain: AlignChain, d: Dense, offset: int, hops: seq<Hop>, s: nat) returns (taken: Taken, cost: real, more: real)
    requires Matched(chain, d, offset) && |chain.phones| == |chain.skips| && Ready(chain, d)
    requires ChainTrellis(chain, d).Lawful() && PathTo(ChainTrellis(chain, d), hops, s) && |hops| > 0
    ensures taken == TakenOf(PositionAfter(hops, |hops| - 1), hops[|hops| - 1]) && hops[|hops| - 1].position == s
    ensures PathTo(ChainTrellis(chain, d), hops[..|hops| - 1], PositionAfter(hops, |hops| - 1))
    ensures IsArc(ChainGraph(chain, offset), taken) && Fits(ChainGraph(chain, offset), d, taken, |hops|)
    ensures HopOf(ChainGraph(chain, offset), taken) == hops[|hops| - 1] && FramesBefore(ChainGraph(chain, offset), taken, |hops|) == |hops| - 1
    ensures d.Valid() && ArcCost(ChainGraph(chain, offset), d, taken, |hops|) == Finite(more)
    ensures cost == CostOf(ChainTrellis(chain, d), hops[..|hops| - 1], PositionAfter(hops, |hops| - 1))
    ensures CostOf(ChainTrellis(chain, d), hops, s) == cost + more
  {
    assert d.Valid();
    hide *;
    var t: nat := |hops| - 1;
    LastHop(chain, d, hops, s);
    HopIsArc(chain, d, offset, hops, t);
    taken := TakenOf(PositionAfter(hops, t), hops[t]);
    cost := CostOf(ChainTrellis(chain, d), hops[..t], PositionAfter(hops, t));
    more := StepAt(ChainTrellis(chain, d), hops, t).cost.value;
  }

  // The hops so far are a walk, and the next hop's arc fits: then so are the hops.
  lemma HopsGrow(g: Graph, d: Dense, hops: seq<Hop>, t: nat, taken: Taken, cost: real, more: real)
    requires g.Valid() && d.Valid() && |hops| == t + 1 && taken == TakenOf(PositionAfter(hops, t), hops[t])
    requires Fits(g, d, taken, t + 1) && FramesBefore(g, taken, t + 1) == t && HopOf(g, taken) == hops[t]
    requires ArcCost(g, d, taken, t + 1) == Finite(more)
    requires Walk(g, d, WalkOfHops(hops[..t]), t, PositionAfter(hops, t))
    requires WalkCost(g, d, WalkOfHops(hops[..t]), t, PositionAfter(hops, t)) == Finite(cost)
    ensures Walk(g, d, WalkOfHops(hops), t + 1, hops[t].position)
    ensures WalkCost(g, d, WalkOfHops(hops), t + 1, hops[t].position) == Finite(cost + more)
  {
    assert IsArc(g, taken) && ArcOf(g, taken).nextstate == hops[t].position && taken.from == PositionAfter(hops, t);
    FiniteSum(cost, more);
    hide Cost.Plus, HopOf, TakenOf, ArcOf, IsArc, Walk, WalkCost, ArcCost, WalkOfHops, PositionAfter, Graph.Valid, Dense.Valid, Fits, FramesBefore, CodeAt, IndexAt;
    WalkOn(g, d, WalkOfHops(hops[..t]), t + 1, taken);
    WalkOfLast(hops, t);
  }

  lemma LastHop(chain: AlignChain, d: Dense, hops: seq<Hop>, s: nat)
    requires Ready(chain, d) && ChainTrellis(chain, d).Lawful() && PathTo(ChainTrellis(chain, d), hops, s) && |hops| > 0
    ensures var (tr, t) := (ChainTrellis(chain, d), |hops| - 1);
            var from := PositionAfter(hops, t);
            && |hops| <= d.NumFrames() && hops[t].position == s && FitsAt(tr, hops, t) && StepAt(tr, hops, t).cost.Finite? && PathTo(tr, hops[..t], from)
            && CostOf(tr, hops, s) == CostOf(tr, hops[..t], from) + StepAt(tr, hops, t).cost.value
  {
    assert ChainTrellis(chain, d).numFrames == d.NumFrames();
    hide Trellis.Lawful, ChainTrellis, Ready;
    LastOf(ChainTrellis(chain, d), hops, s);
  }

  lemma FiniteSum(a: real, b: real)
    ensures Finite(a).Plus(Finite(b)) == Finite(a + b)
  {}

  lemma LastOf(tr: Trellis, hops: seq<Hop>, s: nat)
    requires tr.Lawful() && PathTo(tr, hops, s) && |hops| > 0
    ensures var t := |hops| - 1;
            var from := PositionAfter(hops, t);
            && |hops| <= tr.numFrames && hops[t].position == s && FitsAt(tr, hops, t) && PathTo(tr, hops[..t], from)
            && CostOf(tr, hops, s) == CostOf(tr, hops[..t], from) + StepAt(tr, hops, t).cost.value
  {
    var t := |hops| - 1;
    PathByFrames(tr, hops, s);
    assert FitsAt(tr, hops, t);
    EndIsPosition(tr, hops[..t], s - tr.stepsInto(t, s)[hops[t].code].advance);
    assert PositionAfter(hops[..t], t) == PositionAfter(hops, t);
  }

  /** And that walk's path is the path. */
  lemma PathComesBack(chain: AlignChain, d: Dense, offset: int, hops: seq<Hop>, s: nat)
    requires Matched(chain, d, offset) && ChainTrellis(chain, d).Lawful() && PathTo(ChainTrellis(chain, d), hops, s)
    ensures HopsOfWalk(ChainGraph(chain, offset), WalkOfHops(hops)) == hops
  {
    hide ArcsFrom, StepsInto, Trellis.Lawful, CodeAt, IndexAt, FitsAt, HopOf, PathTo, Ready, Matched, TakenOf;
    MatchedMeans(chain, d, offset);
    var tr := ChainTrellis(chain, d);
    PathByFrames(tr, hops, s);
    forall t: nat | t < |hops| ensures HopsOfWalk(ChainGraph(chain, offset), WalkOfHops(hops))[t] == hops[t] {
      HopIsArc(chain, d, offset, hops, t);
    }
  }

  lemma StartsAtZero(chain: AlignChain, d: Dense, offset: int, hops: seq<Hop>, s: nat)
    requires Matched(chain, d, offset) && ChainGraph(chain, offset).Valid() && ChainTrellis(chain, d).Lawful()
    requires |hops| == 0 && PathTo(ChainTrellis(chain, d), hops, s)
    ensures Walk(ChainGraph(chain, offset), d, WalkOfHops(hops), 0, s)
    ensures WalkCost(ChainGraph(chain, offset), d, WalkOfHops(hops), 0, s) == Finite(CostOf(ChainTrellis(chain, d), hops, s))
  {}

  // -- The two are one ------------------------------------------------------------------------------

  /** An accepting path of finite cost is a complete path: same cost, same
      alignment. */
  lemma AcceptingIsComplete(chain: AlignChain, d: Dense, offset: int, walk: seq<Taken>, s: nat)
    requires Matched(chain, d, offset) && ChainGraph(chain, offset).Valid() && ChainTrellis(chain, d).Lawful()
    requires Accepting(ChainGraph(chain, offset), d, walk, s) && AcceptingCost(ChainGraph(chain, offset), d, walk, s).Finite?
    ensures s == |chain.phones|
    ensures var (g, tr) := (ChainGraph(chain, offset), ChainTrellis(chain, d));
            && (forall k | 0 <= k < |walk| :: IsArc(g, walk[k]))
            && var hops := HopsOfWalk(g, walk);
               && Complete(tr, hops) && WalkOfHops(hops) == walk
               && AcceptingCost(g, d, walk, s) == Finite(CostOf(tr, hops, tr.numPositions))
               && ReadsBack(|chain.phones|, Outputs(g, walk), SoundingOf(hops))
  {
    hide Graph.Valid, Trellis.Lawful, Walk, WalkCost, PathTo, ReadsBack, Outputs;
    WalkIsPath(chain, d, offset, walk, d.NumFrames(), s);
    WalkReadsBack(chain, d, offset, walk, d.NumFrames(), s);
    WalkComesBack(chain, d, offset, walk, d.NumFrames(), s);
  }

  /** And every complete path is an accepting path, one to one. */
  lemma CompleteIsAccepting(chain: AlignChain, d: Dense, offset: int, hops: seq<Hop>)
    requires Matched(chain, d, offset) && ChainGraph(chain, offset).Valid() && ChainTrellis(chain, d).Lawful()
    requires Complete(ChainTrellis(chain, d), hops)
    ensures var (g, tr, walk) := (ChainGraph(chain, offset), ChainTrellis(chain, d), WalkOfHops(hops));
            && Accepting(g, d, walk, |chain.phones|)
            && AcceptingCost(g, d, walk, |chain.phones|) == Finite(CostOf(tr, hops, tr.numPositions))
            && HopsOfWalk(g, walk) == hops
  {
    hide Graph.Valid, Trellis.Lawful, Walk, WalkCost, PathTo;
    PathIsWalk(chain, d, offset, hops, |chain.phones|);
    PathComesBack(chain, d, offset, hops, |chain.phones|);
  }

  /** Decoding the graph exhaustively and aligning exactly agree: a finite answer to
      one is an answer to the other, at the same cost, and the decoder's labels read
      back as the sounds of a complete path that cheap. */
  lemma DecodingIsAligning(chain: AlignChain, d: Dense, offset: int, decoded: Option<Viterbi.Decoded>, path: Option<Path>)
    requires Matched(chain, d, offset) && ChainGraph(chain, offset).Valid() && ChainTrellis(chain, d).Lawful()
    requires Viterbi.IsBest(ChainGraph(chain, offset), d, decoded)
    requires decoded.Some? ==> Viterbi.IsPathAnswer(ChainGraph(chain, offset), d, decoded.value)
    requires path.None? ==> forall hops :: !Complete(ChainTrellis(chain, d), hops)
    requires path.Some? ==> IsBestPath(ChainTrellis(chain, d), path.value)
    ensures path.Some? <==> decoded.Some? && decoded.value.weight.Finite?
    ensures path.Some? && decoded.Some? ==> decoded.value.weight == Finite(path.value.cost)
    ensures path.Some? && decoded.Some? ==>
              exists hops :: Complete(ChainTrellis(chain, d), hops) && CostOf(ChainTrellis(chain, d), hops, |chain.phones|) == path.value.cost
                             && ReadsBack(|chain.phones|, decoded.value.labels, SoundingOf(hops))
  {
    hide Graph.Valid, Dense.Valid, Trellis.Lawful, Walk, WalkCost, PathTo, ReadsBack, Outputs, WalkOfHops, HopsOfWalk, ChainTrellis, ChainGraph, Matched, CostOf;
    MatchedMeans(chain, d, offset);
    var (g, tr) := (ChainGraph(chain, offset), ChainTrellis(chain, d));
    assert tr.numPositions == |chain.phones| by { ChainSize(chain, d, offset); }
    if path.Some? {
      CompleteIsAccepting(chain, d, offset, HopsOf(path.value));
    }
    if decoded.Some? {
      var walk: seq<Taken>, s: nat :| Accepting(g, d, walk, s) && Viterbi.SpelledBy(g, d, decoded.value, walk, s);
      if decoded.value.weight.Finite? {
        AcceptingIsComplete(chain, d, offset, walk, s);
        var hops := HopsOfWalk(g, walk);
        assert Complete(tr, hops);
      }
    }
  }

  lemma ChainSize(chain: AlignChain, d: Dense, offset: int)
    requires Matched(chain, d, offset)
    ensures ChainTrellis(chain, d).numPositions == |chain.phones|
  {}

  // -- Aligning by decoding ------------------------------------------------------------------------

  /** Every arc of the graph consumes a frame and names a column. */
  lemma NothingToReport(chain: AlignChain, d: Dense, offset: int, error: Viterbi.Error)
    requires Matched(chain, d, offset)
    ensures |chain.phones| == |chain.skips| && Viterbi.FewEpsilonPaths(ChainGraph(chain, offset))
    ensures !Viterbi.NamesNoColumn(ChainGraph(chain, offset), d, error)
  {
    MatchedMeans(chain, d, offset);
    var g := ChainGraph(chain, offset);
    forall i: nat, k: nat | i < |g.arcs| && k < |g.arcs[i]|
      ensures g.arcs[i][k].ilabel != EPSILON && d.ColumnOf(g.arcs[i][k].ilabel).Some?
    {
      ArcNamesColumn(chain, d, offset, i, k);
    }
    hide ChainGraph, Matched, Dense.ColumnOf;
    Viterbi.EpsilonFreeIsFew(g);
  }

  lemma ArcNamesColumn(chain: AlignChain, d: Dense, offset: int, i: nat, k: nat)
    requires Matched(chain, d, offset) && i <= |chain.phones| == |chain.skips| && k < |ArcsFrom(chain, offset, i)|
    ensures ArcsFrom(chain, offset, i)[k].ilabel != EPSILON && d.ColumnOf(ArcsFrom(chain, offset, i)[k].ilabel).Some?
  {}

  /** The alignment is that of a cheapest complete path; or it has no finite cost, and
      there is none. */
  ghost predicate IsCheapest(chain: AlignChain, d: Dense, al: Alignment)
    requires Ready(chain, d) && ChainTrellis(chain, d).Lawful()
  {
    if al.cost.Finite? then exists hops :: IsCheapestPath(chain, d, al, hops)
    else forall hops :: !Complete(ChainTrellis(chain, d), hops)
  }

  ghost predicate IsCheapestPath(chain: AlignChain, d: Dense, al: Alignment, hops: seq<Hop>)
    requires Ready(chain, d) && ChainTrellis(chain, d).Lawful()
  {
    && Complete(ChainTrellis(chain, d), hops) && al.sounding == SoundingOf(hops)
    && al.cost == Finite(CostOf(ChainTrellis(chain, d), hops, ChainTrellis(chain, d).numPositions))
    && forall other | Complete(ChainTrellis(chain, d), other) ::
         al.cost.AtMost(Finite(CostOf(ChainTrellis(chain, d), other, ChainTrellis(chain, d).numPositions)))
  }

  lemma AnswerReadsBack(chain: AlignChain, d: Dense, offset: int, decoded: Viterbi.Decoded)
    requires Matched(chain, d, offset) && ChainGraph(chain, offset).Valid()
    requires Viterbi.IsPathAnswer(ChainGraph(chain, offset), d, decoded)
    ensures forall t | 0 <= t < |decoded.labels| :: LabelSounds(|chain.phones|, decoded.labels[t]).Some?
  {
    hide *;
    MatchedMeans(chain, d, offset);
    var walk, s := AnswerPath(chain, d, offset, decoded);
    WalkReadsBack(chain, d, offset, walk, d.NumFrames(), s);
    BackMeansSome(|chain.phones|, decoded.labels, SoundingOf(HopsOfWalk(ChainGraph(chain, offset), walk)));
  }

  lemma BackMeansSome(numPhones: nat, labels: seq<int>, sounding: seq<nat>)
    requires ReadsBack(numPhones, labels, sounding)
    ensures forall t | 0 <= t < |labels| :: LabelSounds(numPhones, labels[t]).Some?
  {
    hide LabelSounds;
  }

  lemma AnswerPath(chain: AlignChain, d: Dense, offset: int, decoded: Viterbi.Decoded) returns (walk: seq<Taken>, s: nat)
    requires |chain.phones| == |chain.skips| && d.Valid() && ChainGraph(chain, offset).Valid()
    requires Viterbi.IsPathAnswer(ChainGraph(chain, offset), d, decoded)
    ensures Walk(ChainGraph(chain, offset), d, walk, d.NumFrames(), s) && Accepting(ChainGraph(chain, offset), d, walk, s)
    ensures forall k | 0 <= k < |walk| :: IsArc(ChainGraph(chain, offset), walk[k])
    ensures decoded.labels == Outputs(ChainGraph(chain, offset), walk)
    ensures decoded.weight == AcceptingCost(ChainGraph(chain, offset), d, walk, s)
  {
    hide ChainGraph, Graph.Valid, Dense.Valid, Walk, WalkCost, Outputs;
    var g := ChainGraph(chain, offset);
    walk, s :| Accepting(g, d, walk, s) && Viterbi.SpelledBy(g, d, decoded, walk, s);
    WalkArcs(g, d, walk, d.NumFrames(), s);
  }

  // An alignment read off the decoder's answer is a cheapest one.
  lemma AnswerIsCheapest(chain: AlignChain, d: Dense, offset: int, decoded: Viterbi.Decoded, al: Alignment)
    requires Matched(chain, d, offset) && ChainGraph(chain, offset).Valid() && ChainTrellis(chain, d).Lawful()
    requires Viterbi.IsBest(ChainGraph(chain, offset), d, Some(decoded)) && Viterbi.IsPathAnswer(ChainGraph(chain, offset), d, decoded)
    requires |al.sounding| == |decoded.labels| && al.cost == decoded.weight
    requires forall t | 0 <= t < |decoded.labels| :: LabelSounds(|chain.phones|, decoded.labels[t]) == Some(al.sounding[t])
    ensures IsCheapest(chain, d, al)
  {
    hide ChainGraph, ChainTrellis, Graph.Valid, Dense.Valid, Trellis.Lawful, Ready, Matched, PathTo, CostOf, IsCheapest, SoundingOf,
         WalkOfHops, HopsOfWalk, ReadsBack, Viterbi.IsBest, Viterbi.IsPathAnswer, Accepting, AcceptingCost, LabelSounds, Outputs, Walk;
    MatchedMeans(chain, d, offset);
    forall other | Complete(ChainTrellis(chain, d), other)
      ensures decoded.weight.Finite?
      ensures decoded.weight.AtMost(Finite(CostOf(ChainTrellis(chain, d), other, ChainTrellis(chain, d).numPositions)))
    {
      CompleteIsAccepting(chain, d, offset, other);
      NoneIsCheaper(chain, d, offset, decoded, WalkOfHops(other));
    }
    var walk, s := AnswerPath(chain, d, offset, decoded);
    if decoded.weight.Finite? {
      AcceptingIsComplete(chain, d, offset, walk, s);
      var hops := HopsOfWalk(ChainGraph(chain, offset), walk);
      SameReading(|chain.phones|, decoded.labels, al.sounding, SoundingOf(hops));
      CheapestIs(chain, d, al, hops);
    } else {
      NoneIsCheapest(chain, d, al);
    }
  }

  lemma NoneIsCheaper(chain: AlignChain, d: Dense, offset: int, decoded: Viterbi.Decoded, walk: seq<Taken>)
    requires |chain.phones| == |chain.skips| && d.Valid() && ChainGraph(chain, offset).Valid()
    requires Viterbi.IsBest(ChainGraph(chain, offset), d, Some(decoded))
    requires Accepting(ChainGraph(chain, offset), d, walk, |chain.phones|)
    requires AcceptingCost(ChainGraph(chain, offset), d, walk, |chain.phones|).Finite?
    ensures decoded.weight.Finite? && decoded.weight.AtMost(AcceptingCost(ChainGraph(chain, offset), d, walk, |chain.phones|))
  {
    hide ChainGraph, Graph.Valid, Dense.Valid, Accepting, AcceptingCost;
  }

  lemma SameReading(numPhones: nat, labels: seq<int>, a: seq<nat>, b: seq<nat>)
    requires |a| == |labels| && (forall t | 0 <= t < |labels| :: LabelSounds(numPhones, labels[t]) == Some(a[t])) && ReadsBack(numPhones, labels, b)
    ensures a == b
  {
    hide LabelSounds;
    forall t | 0 <= t < |a| ensures a[t] == b[t] {
      assert LabelSounds(numPhones, labels[t]) == Some(a[t]) == Some(b[t]);
    }
  }

  lemma CheapestIs(chain: AlignChain, d: Dense, al: Alignment, hops: seq<Hop>)
    requires Ready(chain, d) && ChainTrellis(chain, d).Lawful() && IsCheapestPath(chain, d, al, hops)
    ensures IsCheapest(chain, d, al)
  {
    hide ChainTrellis, Ready, Trellis.Lawful;
    assert al.cost.Finite? by { hide Complete, CostOf, SoundingOf; }
  }

  lemma NoneIsCheapest(chain: AlignChain, d: Dense, al: Alignment)
    requires Ready(chain, d) && ChainTrellis(chain, d).Lawful() && al.cost.Infinite?
    requires forall hops :: !Complete(ChainTrellis(chain, d), hops)
    ensures IsCheapest(chain, d, al)
  {}

  lemma NoAnswerNoPath(chain: AlignChain, d: Dense, offset: int)
    requires Matched(chain, d, offset) && ChainGraph(chain, offset).Valid() && ChainTrellis(chain, d).Lawful()
    requires Viterbi.IsBest(ChainGraph(chain, offset), d, None)
    ensures forall hops :: !Complete(ChainTrellis(chain, d), hops)
  {
    hide *;
    MatchedMeans(chain, d, offset);
    forall hops ensures !Complete(ChainTrellis(chain, d), hops) {
      if Complete(ChainTrellis(chain, d), hops) {
        CompleteIsAccepting(chain, d, offset, hops);
        NothingAccepting(chain, d, offset, WalkOfHops(hops));
      }
    }
  }

  lemma NothingAccepting(chain: AlignChain, d: Dense, offset: int, walk: seq<Taken>)
    requires |chain.phones| == |chain.skips| && d.Valid() && ChainGraph(chain, offset).Valid()
    requires Viterbi.IsBest(ChainGraph(chain, offset), d, None)
    ensures !Accepting(ChainGraph(chain, offset), d, walk, |chain.phones|)
  {}

  /** Aligns by building the graph, decoding it with everything kept, and reading the
      labels back: it always succeeds, and finds a cheapest complete path, or none
      exactly when none is. */
  method AlignByDecoding(chain: AlignChain, d: Dense, largest: int) returns (al: Option<Alignment>)
    requires Matched(chain, d, d.labelOffset) && LabelsFit(chain, d.labelOffset, largest) && ChainTrellis(chain, d).Lawful()
    ensures al.None? ==> forall hops :: !Complete(ChainTrellis(chain, d), hops)
    ensures al.Some? ==> IsCheapest(chain, d, al.value)
  {
    MatchedMeans(chain, d, d.labelOffset);
    ChainGraphIsValid(chain, d.labelOffset);
    hide Ready, ChainGraph, ChainTrellis, LabelsFit, Graph.Valid, Dense.Valid, Viterbi.IsBest, Viterbi.IsPathAnswer,
         Viterbi.FewEpsilonPaths, Viterbi.NamesNoColumn, Trellis.Lawful, IsCheapest, ArcsFrom;
    var built := ToFst(chain, d.labelOffset, largest);
    var g := built.value;
    var decoded := Viterbi.ViterbiDecode(g, d, DecodeOptions(Infinite, g.NumStates(), 0));
    NothingToReport(chain, d, d.labelOffset, if decoded.Failure? then decoded.error else Viterbi.Unsettled);
    if decoded.value.None? {
      NoAnswerNoPath(chain, d, d.labelOffset);
      return None;
    }
    var answer := decoded.value.value;
    AnswerReadsBack(chain, d, d.labelOffset, answer);
    var read := FromOutputLabels(chain, answer.labels, answer.weight);
    AnswerIsCheapest(chain, d, d.labelOffset, answer, read.value);
    return Some(read.value);
  }
}
