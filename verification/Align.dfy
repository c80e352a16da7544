/** Forced alignment: a chain of phones, each of which may be skipped at a cost, as
    a trellis against the acoustic matrix, and its best path read back into phones. */
module Aligning {
  import opened Costs
  import opened Trellises
  import opened PathMasses
  import opened Reversals
  import opened Tracebacks
  import opened BestPaths
  import opened PathFrames
  import opened DecodingGraphs

  // The transitions, best-first; the order is the tie-break.
  const HOLD_BLANK: nat := 0
  const HOLD_PHONE: nat := 1
  const COMMIT: nat := 2
  const SKIP: nat := 3

  /** Whether a transition sounds the phone of the position it lands in. */
  predicate Sounds(code: nat) {
    code == HOLD_PHONE || code == COMMIT
  }

  datatype AlignError =
    | WrongCount
    | NegativeSkip(at: nat)
    | NoColumn(position: Option<nat>)
    | NoSuchTransition(frame: nat)
    | NoSuchPosition(frame: nat)
    | WrongGroups
    | Unsolvable(error: BestPaths.Error)
    | LabelDoesNotFit

  /** A reference: the column each position sounds, and what giving it up costs. */
  datatype AlignChain = AlignChain(phones: seq<nat>, skips: seq<Cost>, blank: nat) {
    ghost predicate Valid() {
      |skips| == |phones| && forall p | 0 <= p < |skips| :: !skips[p].Less(ZERO)
    }

    /** Every column the chain names is one the matrix has. */
    predicate Reads(numSymbols: nat) {
      blank < numSymbols && forall p | 0 <= p < |phones| :: phones[p] < numSymbols
    }

    function Column(position: Option<nat>): nat
      requires position.Some? ==> position.value < |phones|
    {
      match position
      case Some(p) => phones[p]
      case None => blank
    }
  }

  method NewChain(phones: seq<nat>) returns (chain: AlignChain)
    ensures chain.Valid() && chain.phones == phones && chain.blank == 0
    ensures forall p | 0 <= p < |phones| :: chain.skips[p] == Infinite
  {
    chain := AlignChain(phones, seq(|phones|, _ => Infinite), 0);
  }

  /** The first position whose cost is negative. */
  ghost predicate FirstNegative(costs: seq<Cost>, p: nat) {
    p < |costs| && costs[p].Less(ZERO) && forall k | 0 <= k < p :: !costs[k].Less(ZERO)
  }

  method WithSkipCosts(chain: AlignChain, costs: seq<Cost>) returns (r: Result<AlignChain, AlignError>)
    ensures r == Failure(WrongCount) <==> |costs| != |chain.phones|
    ensures forall p :: r == Failure(NegativeSkip(p)) <==> |costs| == |chain.phones| && FirstNegative(costs, p)
    ensures r.Success? ==> r.value == chain.(skips := costs) && r.value.Valid()
    ensures r.Failure? ==> r.error.WrongCount? || r.error.NegativeSkip?
  {
    if |costs| != |chain.phones| {
      return Failure(WrongCount);
    }
    for p := 0 to |costs|
      invariant forall k | 0 <= k < p :: !costs[k].Less(ZERO)
    {
      if costs[p].Less(ZERO) {
        return Failure(NegativeSkip(p));
      }
    }
    return Success(chain.(skips := costs));
  }

  method CheckColumns(chain: AlignChain, numSymbols: nat) returns (error: Option<AlignError>)
    ensures error == None <==> chain.Reads(numSymbols)
    ensures error == Some(NoColumn(None)) <==> chain.blank >= numSymbols
    ensures error.Some? && error != Some(NoColumn(None)) ==>
              exists p :: 0 <= p < |chain.phones| && error == Some(NoColumn(Some(p))) && chain.phones[p] >= numSymbols
                          && forall k | 0 <= k < p :: chain.phones[k] < numSymbols
  {
    if chain.blank >= numSymbols {
      return Some(NoColumn(None));
    }
    for p := 0 to |chain.phones|
      invariant forall k | 0 <= k < p :: chain.phones[k] < numSymbols
    {
      if chain.phones[p] >= numSymbols {
        return Some(NoColumn(Some(p)));
      }
    }
    return None;
  }

  // -- The chain against a matrix ------------------------------------------------------------

  /** The four transitions into a position, in order of preference. */
  function StepsInto(chain: AlignChain, frame: seq<Cost>, position: nat): seq<Step>
    requires chain.Reads(|frame|) && position <= |chain.phones| == |chain.skips|
  {
    var blank := Step(0, frame[chain.blank]);
    if position == 0 then [blank, ABSENT, ABSENT, ABSENT]
    else
      var phone := frame[chain.phones[position - 1]];
      [blank, Step(0, phone), Step(1, phone), Step(1, chain.skips[position - 1].Plus(blank.cost))]
  }

  /** The same four, by the position they leave. */
  function StepsOutOf(chain: AlignChain, frame: seq<Cost>, position: nat): seq<Step>
    requires chain.Reads(|frame|) && position <= |chain.phones| == |chain.skips|
  {
    var blank := Step(0, frame[chain.blank]);
    var hold := if position > 0 then Step(0, frame[chain.phones[position - 1]]) else ABSENT;
    if position < |chain.phones| then
      [blank, hold, Step(1, frame[chain.phones[position]]), Step(1, chain.skips[position].Plus(blank.cost))]
    else
      [blank, hold, ABSENT, ABSENT]
  }

  ghost predicate Ready(chain: AlignChain, d: Dense) {
    chain.Valid() && d.Valid() && chain.Reads(d.numSymbols)
  }

  function ChainTrellis(chain: AlignChain, d: Dense): Trellis
    requires Ready(chain, d)
  {
    Trellis(d.NumFrames(), |chain.phones|, 4, 1, (frame: nat, position: nat) =>
              if frame < d.NumFrames() && position <= |chain.phones| then StepsInto(chain, d.scores[frame], position) else [])
  }

  function ReversibleChain(chain: AlignChain, d: Dense): Reversible
    requires Ready(chain, d)
  {
    Reversible(ChainTrellis(chain, d), (frame: nat, position: nat) =>
                 if frame < d.NumFrames() && position <= |chain.phones| then StepsOutOf(chain, d.scores[frame], position) else [])
  }

  lemma ForwardIsLawful(chain: AlignChain, d: Dense)
    requires Ready(chain, d)
    ensures ChainTrellis(chain, d).Lawful()
  {
    var tr := ChainTrellis(chain, d);
    forall frame: nat, position: nat | frame < tr.numFrames && position <= tr.numPositions
      ensures |tr.stepsInto(frame, position)| == 4 && forall code | 0 <= code < 4 :: tr.LawfulStep(tr.stepsInto(frame, position)[code], position)
    {
      assert tr.stepsInto(frame, position) == StepsInto(chain, d.scores[frame], position);
    }
  }

  lemma ListsAgree(chain: AlignChain, frame: seq<Cost>, position: nat, code: nat)
    requires chain.Valid() && chain.Reads(|frame|) && position <= |chain.phones| && code < 4
    ensures var step := StepsOutOf(chain, frame, position)[code];
            step.cost.Finite? ==> position + step.advance <= |chain.phones| && StepsInto(chain, frame, position + step.advance)[code] == step
    ensures var step := StepsInto(chain, frame, position)[code];
            step.cost.Finite? ==> step.advance <= position && StepsOutOf(chain, frame, position - step.advance)[code] == step
  {}

  lemma OneOrigin(chain: AlignChain, frame: seq<Cost>, a: nat, b: nat, code: nat)
    requires chain.Valid() && chain.Reads(|frame|) && a <= |chain.phones| && b <= |chain.phones| && code < 4
    ensures var (s, t) := (StepsInto(chain, frame, a)[code], StepsInto(chain, frame, b)[code]);
            s.cost.Finite? && t.cost.Finite? && a - s.advance == b - t.advance ==> a == b
  {}

  /** The chain obeys the solvers' contract, and the transitions it spells out
      backwards are the ones it lists forwards. */
  lemma ChainIsLawful(chain: AlignChain, d: Dense)
    requires Ready(chain, d)
    ensures ChainTrellis(chain, d).Lawful() && ReversibleChain(chain, d).Lawful() && Unambiguous(ChainTrellis(chain, d))
  {
    hide StepsInto, StepsOutOf;
    ForwardIsLawful(chain, d);
    var (tr, rv) := (ChainTrellis(chain, d), ReversibleChain(chain, d));
    forall frame: nat, position: nat | frame < tr.numFrames && position <= tr.numPositions
      ensures |rv.stepsOutOf(frame, position)| == 4
    {
      FourOut(chain, d.scores[frame], position);
    }
    forall frame: nat, position: nat, code: nat | frame < tr.numFrames && position <= tr.numPositions && code < 4
      ensures rv.LeavesAsArrives(frame, position, code) && rv.ArrivesAsLeaves(frame, position, code)
    {
      ListsAgree(chain, d.scores[frame], position, code);
    }
    forall frame: nat, code: nat, a: nat, b: nat | frame < tr.numFrames && code < 4 && a <= tr.numPositions && b <= tr.numPositions
      ensures SameOrigin(tr, frame, code, a, b) ==> a == b
    {
      OneOrigin(chain, d.scores[frame], a, b, code);
    }
  }

  lemma FourOut(chain: AlignChain, frame: seq<Cost>, position: nat)
    requires chain.Valid() && chain.Reads(|frame|) && position <= |chain.phones|
    ensures |StepsInto(chain, frame, position)| == |StepsOutOf(chain, frame, position)| == 4
  {}

  // -- Alignments ------------------------------------------------------------------------------

  /** For each frame, one more than the position sounding in it, or 0 for none. */
  datatype Alignment = Alignment(sounding: seq<nat>, numPhones: nat, cost: Cost) {
    predicate Valid() {
      forall t | 0 <= t < |sounding| :: sounding[t] <= numPhones
    }

    predicate SoundsAt(frame: int, position: nat) {
      0 <= frame < |sounding| && sounding[frame] == position + 1
    }

    ghost predicate Sounded(position: nat) {
      exists t :: SoundsAt(t, position)
    }
  }

  /** What a path's frames sounded. */
  ghost function SoundingOf(hops: seq<Hop>): (s: seq<nat>)
    ensures |s| == |hops|
  {
    seq(|hops|, t requires 0 <= t < |hops| => if Sounds(hops[t].code) then hops[t].position else 0)
  }

  method FromPath(chain: AlignChain, path: Path) returns (r: Result<Alignment, AlignError>)
    requires |path.codes| == |path.positions|
    ensures r.Success? <==> forall t | 0 <= t < |path.codes| :: Index(path.codes[t]) < 4
    ensures r.Success? ==> r.value == Alignment(SoundingOf(HopsOf(path)), |chain.phones|, Finite(path.cost))
    ensures r.Failure? ==> exists t: nat :: r.error == NoSuchTransition(t) && t < |path.codes| && Index(path.codes[t]) >= 4
                             && forall k | 0 <= k < t :: Index(path.codes[k]) < 4
  {
    hide Index;
    var sounding := [];
    var t := 0;
    while t < |path.codes|
      invariant 0 <= t == |sounding| <= |path.codes|
      invariant forall k | 0 <= k < t :: Index(path.codes[k]) < 4 && sounding[k] == SoundingOf(HopsOf(path))[k]
    {
      var code := Index(path.codes[t]);
      if code >= 4 {
        return Failure(NoSuchTransition(t));
      }
      sounding := sounding + [if Sounds(code) then path.positions[t] else 0];
      t := t + 1;
    }
    assert sounding == SoundingOf(HopsOf(path));
    return Success(Alignment(sounding, |chain.phones|, Finite(path.cost)));
  }

  /** Reads output labels back: `p + 1` sounds position `p`, one past the last is
      silence. */
  function LabelSounds(numPhones: nat, symbol: int): Option<nat> {
    if symbol == numPhones + 1 then Some(0)
    else if 1 <= symbol <= numPhones then Some(symbol)
    else None
  }

  method FromOutputLabels(chain: AlignChain, labels: seq<int>, cost: Cost) returns (r: Result<Alignment, AlignError>)
    ensures r.Success? <==> forall t | 0 <= t < |labels| :: 1 <= labels[t] <= |chain.phones| + 1
    ensures r.Success? ==> r.value.Valid() && |r.value.sounding| == |labels| && r.value.numPhones == |chain.phones| && r.value.cost == cost
    ensures r.Success? ==> forall t | 0 <= t < |labels| :: LabelSounds(|chain.phones|, labels[t]) == Some(r.value.sounding[t])
    ensures r.Failure? ==> exists t: nat :: r.error == NoSuchPosition(t) && t < |labels| && LabelSounds(|chain.phones|, labels[t]) == None
                             && forall k | 0 <= k < t :: LabelSounds(|chain.phones|, labels[k]).Some?
  {
    var sounding := [];
    var t := 0;
    while t < |labels|
      invariant 0 <= t == |sounding| <= |labels|
      invariant forall k | 0 <= k < t :: LabelSounds(|chain.phones|, labels[k]) == Some(sounding[k])
    {
      var silent := |chain.phones| + 1;
      if labels[t] == silent {
        sounding := sounding + [0];
      } else if 1 <= labels[t] < silent {
        sounding := sounding + [labels[t]];
      } else {
        return Failure(NoSuchPosition(t));
      }
      t := t + 1;
    }
    return Success(Alignment(sounding, |chain.phones|, cost));
  }

  // -- Spans --------------------------------------------------------------------------------------

  /** `[first frame, last frame + 1)`. */
  datatype Span = Span(start: nat, end: nat)

  /** The frames among the first `frames` that sound `position`: their first and
      last, or none at all. */
  ghost predicate SpanIs(al: Alignment, frames: nat, position: nat, span: Option<Span>) {
    match span
    case None => forall t | 0 <= t < frames :: !al.SoundsAt(t, position)
    case Some(s) =>
      && s.start < s.end <= frames && al.SoundsAt(s.start, position) && al.SoundsAt(s.end - 1, position)
      && forall t | 0 <= t < frames && al.SoundsAt(t, position) :: s.start <= t < s.end
  }

  method Spans(al: Alignment) returns (spans: seq<Option<Span>>)
    requires al.Valid()
    ensures |spans| == al.numPhones
    ensures forall p | 0 <= p < al.numPhones :: SpanIs(al, |al.sounding|, p, spans[p])
  {
    spans := seq(al.numPhones, _ => None);
    var t := 0;
    while t < |al.sounding|
      invariant 0 <= t <= |al.sounding| && |spans| == al.numPhones
      invariant forall p | 0 <= p < al.numPhones :: SpanIs(al, t, p, spans[p])
    {
      if al.sounding[t] > 0 {
        var position := al.sounding[t] - 1;
        var span := if spans[position].None? then Span(t, t + 1) else spans[position].value.(end := t + 1);
        assert SpanIs(al, t, position, spans[position]);
        spans := spans[position := Some(span)];
      }
      t := t + 1;
    }
  }

  function Total(sizes: seq<nat>): nat {
    if |sizes| == 0 then 0 else Total(sizes[..|sizes| - 1]) + sizes[|sizes| - 1]
  }

  lemma {:induction false} TotalPrefix(sizes: seq<nat>, g: nat)
    requires g <= |sizes|
    ensures Total(sizes[..g]) <= Total(sizes)
    ensures g < |sizes| ==> Total(sizes[..g + 1]) == Total(sizes[..g]) + sizes[g]
  {
    if g < |sizes| {
      assert sizes[..g + 1][..g] == sizes[..g];
      var front := sizes[..|sizes| - 1];
      if g < |front| {
        TotalPrefix(front, g + 1);
        assert front[..g + 1] == sizes[..g + 1];
      } else {
        assert sizes[..g + 1] == sizes && front == sizes[..g];
      }
    } else {
      assert sizes[..g] == sizes;
    }
  }

  /** Frames sound positions in order. */
  ghost predicate Ordered(al: Alignment) {
    forall a, b, p: nat, q: nat | a < b && al.SoundsAt(a, p) && al.SoundsAt(b, q) :: p <= q
  }

  /** Whether a frame sounds one of the positions `from .. to`. */
  ghost predicate SoundsIn(al: Alignment, frame: int, from: nat, to: nat) {
    0 <= frame < |al.sounding| && from < al.sounding[frame] <= to
  }

  /** A group's frames run from the first that sounds one of its positions to the
      last, whatever is between them. */
  ghost predicate GroupIs(al: Alignment, from: nat, to: nat, span: Option<Span>) {
    match span
    case None => forall t :: !SoundsIn(al, t, from, to)
    case Some(s) =>
      && s.start < s.end && SoundsIn(al, s.start, from, to) && SoundsIn(al, s.end - 1, from, to)
      && forall t | SoundsIn(al, t, from, to) :: s.start <= t < s.end
  }

  /** From the first frame of the first position sounded to the last frame of the
      last one sounded. */
  ghost predicate FirstToLast(al: Alignment, from: nat, to: nat, span: Option<Span>) {
    match span
    case None => forall p | from <= p < to :: !al.Sounded(p)
    case Some(s) => exists p: nat, q: nat :: from <= p <= q < to && RunsFrom(al, from, to, s, p, q)
  }

  ghost predicate RunsFrom(al: Alignment, from: nat, to: nat, s: Span, p: nat, q: nat) {
    && (forall k | from <= k < p :: !al.Sounded(k)) && (forall k | q < k < to :: !al.Sounded(k))
    && al.SoundsAt(s.start, p) && (forall t | al.SoundsAt(t, p) :: s.start <= t)
    && al.SoundsAt(s.end - 1, q) && (forall t | al.SoundsAt(t, q) :: t < s.end)
  }

  // Joining on the next position's span.
  lemma GroupMore(al: Alignment, from: nat, to: nat, group: Option<Span>, span: Option<Span>)
    requires from <= to && FirstToLast(al, from, to, group) && SpanIs(al, |al.sounding|, to, span)
    ensures FirstToLast(al, from, to + 1, if span.None? then group else if group.None? then span else Some(Span(group.value.start, span.value.end)))
  {
    if span.None? {
      assert !al.Sounded(to);
      if group.Some? {
        var p: nat, q: nat :| from <= p <= q < to && RunsFrom(al, from, to, group.value, p, q);
        assert RunsFrom(al, from, to + 1, group.value, p, q);
      }
    } else if group.None? {
      assert RunsFrom(al, from, to + 1, span.value, to, to);
    } else {
      var p: nat, q: nat :| from <= p <= q < to && RunsFrom(al, from, to, group.value, p, q);
      assert RunsFrom(al, from, to + 1, Span(group.value.start, span.value.end), p, to);
    }
  }

  lemma WithinRun(al: Alignment, from: nat, to: nat, s: Span, p: nat, q: nat, t: nat, k: nat)
    requires Ordered(al) && from <= p <= q < to && from <= k < to && RunsFrom(al, from, to, s, p, q) && al.SoundsAt(t, k)
    ensures s.start <= t < s.end
  {
    assert al.Sounded(k);
    assert p <= k <= q;
    assert al.SoundsAt(s.start, p) && al.SoundsAt(s.end - 1, q);
  }

  /** Where positions sound in order, a group's span is every frame it could be. */
  lemma OrderedGroups(al: Alignment, from: nat, to: nat, span: Option<Span>)
    requires Ordered(al) && from <= to && FirstToLast(al, from, to, span)
    ensures GroupIs(al, from, to, span)
  {
    hide Ordered, RunsFrom;
    match span
    case None =>
      forall t ensures !SoundsIn(al, t, from, to) {
        if SoundsIn(al, t, from, to) {
          SoundsOne(al, t, from, to);
        }
      }
    case Some(s) =>
      var p: nat, q: nat :| from <= p <= q < to && RunsFrom(al, from, to, s, p, q);
      RunEnds(al, from, to, s, p, q);
      forall t | SoundsIn(al, t, from, to) ensures s.start <= t < s.end {
        WithinRun(al, from, to, s, p, q, t, al.sounding[t] - 1);
      }
  }

  lemma SoundsOne(al: Alignment, t: int, from: nat, to: nat)
    requires SoundsIn(al, t, from, to)
    ensures al.SoundsAt(t, al.sounding[t] - 1) && al.Sounded(al.sounding[t] - 1)
  {
    assert al.SoundsAt(t, al.sounding[t] - 1);
  }

  lemma RunEnds(al: Alignment, from: nat, to: nat, s: Span, p: nat, q: nat)
    requires from <= p <= q < to && RunsFrom(al, from, to, s, p, q) && Ordered(al)
    ensures s.start < s.end && SoundsIn(al, s.start, from, to) && SoundsIn(al, s.end - 1, from, to)
  {
    WithinRun(al, from, to, s, p, q, s.start, p);
  }

  /** Word times out of a phone alignment: group `k` holds the next `sizes[k]`
      positions. */
  method GroupSpans(al: Alignment, sizes: seq<nat>) returns (r: Result<seq<Option<Span>>, AlignError>)
    requires al.Valid()
    ensures r == Failure(WrongGroups) <==> Total(sizes) != al.numPhones
    ensures r.Failure? ==> r.error.WrongGroups?
    ensures r.Success? ==> |r.value| == |sizes|
    ensures r.Success? ==> forall g | 0 <= g < |sizes| && g < |r.value| :: FirstToLast(al, Total(sizes[..g]), Total(sizes[..g + 1]), r.value[g])
  {
    if Total(sizes) != al.numPhones {
      return Failure(WrongGroups);
    }
    var spans := Spans(al);
    var grouped: seq<Option<Span>> := [];
    var at := 0;
    var g := 0;
    assert sizes[..0] == [];
    while g < |sizes|
      invariant 0 <= g == |grouped| <= |sizes| && at == Total(sizes[..g])
      invariant forall k | 0 <= k < g :: FirstToLast(al, Total(sizes[..k]), Total(sizes[..k + 1]), grouped[k])
    {
      hide FirstToLast, SpanIs;
      TotalPrefix(sizes, g);
      TotalPrefix(sizes, g + 1);
      var group: Option<Span> := None;
      assert FirstToLast(al, at, at, group) by { GroupStart(al, at); }
      for k := at to at + sizes[g]
        invariant FirstToLast(al, at, k, group)
      {
        GroupMore(al, at, k, group, spans[k]);
        if spans[k].Some? {
          group := if group.None? then spans[k] else Some(Span(group.value.start, spans[k].value.end));
        }
      }
      grouped := grouped + [group];
      at := at + sizes[g];
      g := g + 1;
    }
    return Success(grouped);
  }

  lemma GroupStart(al: Alignment, at: nat)
    ensures FirstToLast(al, at, at, None)
  {}

  /** The positions no frame sounded, in order. */
  method Skipped(al: Alignment) returns (positions: seq<nat>)
    ensures positions == SkippedUpTo(al, al.numPhones)
    ensures forall p: nat :: p in positions <==> p < al.numPhones && !al.Sounded(p)
    ensures forall i, j | 0 <= i < j < |positions| :: positions[i] < positions[j]
  {
    SkippedAreUnsounded(al, al.numPhones);
    var sounded: set<nat> := {};
    var t := 0;
    while t < |al.sounding|
      invariant 0 <= t <= |al.sounding|
      invariant forall p: nat :: p in sounded <==> exists k :: 0 <= k < t && al.SoundsAt(k, p)
    {
      ghost var before := sounded;
      if al.sounding[t] > 0 {
        sounded := sounded + {al.sounding[t] - 1};
      }
      forall p: nat ensures p in sounded <==> exists k :: 0 <= k < t + 1 && al.SoundsAt(k, p) {
        if p in before {
          var k :| 0 <= k < t && al.SoundsAt(k, p);
        } else if p in sounded {
          assert al.SoundsAt(t, p);
        }
      }
      t := t + 1;
    }
    positions := [];
    for p := 0 to al.numPhones
      invariant positions == SkippedUpTo(al, p)
    {
      if p !in sounded {
        positions := positions + [p];
      }
    }
  }

  ghost function SkippedUpTo(al: Alignment, n: nat): seq<nat> {
    if n == 0 then []
    else SkippedUpTo(al, n - 1) + if al.Sounded(n - 1) then [] else [n - 1]
  }

  /** They are exactly the unsounded positions, each once, in order. */
  lemma {:induction false} SkippedAreUnsounded(al: Alignment, n: nat)
    ensures forall p: nat :: p in SkippedUpTo(al, n) <==> p < n && !al.Sounded(p)
    ensures forall i, j | 0 <= i < j < |SkippedUpTo(al, n)| :: SkippedUpTo(al, n)[i] < SkippedUpTo(al, n)[j]
  {
    hide Alignment.Sounded;
    if n > 0 {
      SkippedAreUnsounded(al, n - 1);
      var before := SkippedUpTo(al, n - 1);
      assert forall k | 0 <= k < |before| :: before[k] in before;
    }
  }

  /** Aligns a chain to a matrix: the best path, read back into phones. */
  method Align(chain: AlignChain, d: Dense) returns (r: Result<Option<Alignment>, AlignError>)
    requires chain.Valid() && d.Valid()
    ensures r.Failure? && r.error.NoColumn? <==> !chain.Reads(d.numSymbols)
    ensures r.Failure? ==> r.error.NoColumn? || r.error == Unsolvable(TooLarge)
    ensures r == Failure(Unsolvable(TooLarge)) <==>
              && chain.Reads(d.numSymbols) && |chain.phones| <= d.NumFrames()
              && d.NumFrames() * StrideFor(|chain.phones|, 4) > USIZE_MAX
    ensures r.Success? ==> chain.Reads(d.numSymbols) && Aligned(chain, d, r.value)
  {
    var error := CheckColumns(chain, d.numSymbols);
    if error.Some? {
      return Failure(error.value);
    }
    ChainIsLawful(chain, d);
    var tr := ChainTrellis(chain, d);
    StartInBand(tr);
    hide StrideFor, Trellis.Lo, Trellis.Hi, Trellis.Lawful;
    var solved := BestPath(tr);
    if solved.Failure? {
      assert solved.error != BadDegree;
      assert solved.error.TooLarge?;
      return Failure(Unsolvable(solved.error));
    }
    if solved.value.None? {
      return Success(None);
    }
    var path := solved.value.value;
    CodesInRange(tr, path);
    var al := FromPath(chain, path);
    assert IsAligned(chain, d, path, al.value);
    return Success(Some(al.value));
  }

  lemma StartInBand(tr: Trellis)
    requires tr.declaredReach == 1
    ensures tr.Lo(0) <= tr.Hi(0) <==> tr.numPositions <= tr.numFrames
  {}

  lemma CodesInRange(tr: Trellis, path: Path)
    requires tr.Lawful() && IsBestPath(tr, path)
    ensures forall t | 0 <= t < |path.codes| :: Index(path.codes[t]) < tr.degree
  {
    hide Index;
    PathByFrames(tr, HopsOf(path), tr.numPositions);
    forall t: nat | t < |path.codes| ensures Index(path.codes[t]) < tr.degree {
      assert FitsAt(tr, HopsOf(path), t);
    }
  }

  /** An alignment is the reading of a best path. */
  ghost predicate IsAligned(chain: AlignChain, d: Dense, path: Path, al: Alignment)
    requires Ready(chain, d)
  {
    ChainIsLawful(chain, d);
    IsBestPath(ChainTrellis(chain, d), path) && al == Alignment(SoundingOf(HopsOf(path)), |chain.phones|, Finite(path.cost))
  }

  ghost predicate Aligned(chain: AlignChain, d: Dense, answer: Option<Alignment>)
    requires Ready(chain, d)
  {
    ChainIsLawful(chain, d);
    match answer
    case None => forall hops :: !Complete(ChainTrellis(chain, d), hops)
    case Some(al) => exists path :: IsAligned(chain, d, path, al)
  }
}
