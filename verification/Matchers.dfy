/** Looking arcs up by label. Whatever keeps its place in them, enumerating the matches
    of a label is scanning the state's arcs for it. */
module Matchers {
  import opened Costs
  import opened DecodingGraphs

  const NO_LABEL: int := -1

  /** Which side of the arcs is matched. */
  datatype MatchType = Input | Output

  function LabelOf(side: MatchType, arc: Arc): int {
    if side == Input then arc.ilabel else arc.olabel
  }

  /** The implicit self-loop an epsilon matches. */
  function LoopArc(side: MatchType, state: nat): Arc {
    if side == Input then Arc(NO_LABEL, EPSILON, ZERO, state) else Arc(EPSILON, NO_LABEL, ZERO, state)
  }

  /** Asking for no label is asking for epsilon arcs without the loop. */
  function Wanted(symbol: int): int {
    if symbol == NO_LABEL then EPSILON else symbol
  }

  /** The arcs with a label, in order. */
  function Scan(arcs: seq<Arc>, side: MatchType, symbol: int): seq<Arc> {
    if |arcs| == 0 then []
    else
      var last := arcs[|arcs| - 1];
      Scan(arcs[..|arcs| - 1], side, symbol) + if LabelOf(side, last) == symbol then [last] else []
  }

  /** What a label matches at a state. */
  function Matches(g: Graph, side: MatchType, state: nat, symbol: int): seq<Arc>
    requires state < |g.arcs|
  {
    (if symbol == EPSILON then [LoopArc(side, state)] else []) + Scan(g.arcs[state], side, Wanted(symbol))
  }

  ghost predicate SortedBy(arcs: seq<Arc>, side: MatchType) {
    forall i, j | 0 <= i < j < |arcs| :: LabelOf(side, arcs[i]) <= LabelOf(side, arcs[j])
  }

  lemma {:induction false} ScanOfRun(arcs: seq<Arc>, side: MatchType, symbol: int, start: nat, end: nat)
    requires start <= end <= |arcs|
    requires forall i | 0 <= i < |arcs| :: LabelOf(side, arcs[i]) == symbol <==> start <= i < end
    ensures Scan(arcs, side, symbol) == arcs[start..end]
    decreases |arcs|
  {
    if |arcs| > 0 {
      var front := arcs[..|arcs| - 1];
      if end == |arcs| && start < end {
        ScanOfRun(front, side, symbol, start, end - 1);
        assert arcs[start..end] == arcs[start..end - 1] + [arcs[end - 1]];
        assert front[start..end - 1] == arcs[start..end - 1];
      } else if end == |arcs| {
        ScanOfRun(front, side, symbol, |front|, |front|);
      } else {
        ScanOfRun(front, side, symbol, start, end);
        assert front[start..end] == arcs[start..end];
      }
    }
  }

  /** The first place from `from` on whose label is above the limit, or at it. */
  method PartitionPoint(arcs: seq<Arc>, side: MatchType, from: nat, symbol: int, past: bool) returns (at: nat)
    requires SortedBy(arcs, side) && from <= |arcs|
    ensures from <= at <= |arcs|
    ensures forall i | from <= i < at :: LabelOf(side, arcs[i]) < symbol || (past && LabelOf(side, arcs[i]) == symbol)
    ensures forall i | at <= i < |arcs| :: LabelOf(side, arcs[i]) > symbol || (!past && LabelOf(side, arcs[i]) == symbol)
  {
    var lo, hi := from, |arcs|;
    while lo < hi
      invariant from <= lo <= hi <= |arcs|
      invariant forall i | from <= i < lo :: LabelOf(side, arcs[i]) < symbol || (past && LabelOf(side, arcs[i]) == symbol)
      invariant forall i | hi <= i < |arcs| :: LabelOf(side, arcs[i]) > symbol || (!past && LabelOf(side, arcs[i]) == symbol)
    {
      var mid := (lo + hi) / 2;
      var here := LabelOf(side, arcs[mid]);
      if here < symbol || (past && here == symbol) {
        lo := mid + 1;
      } else {
        hi := mid;
      }
    }
    at := lo;
  }

  // -- On sorted arcs ---------------------------------------------------------------------

  class SortedMatcher {
    const g: Graph
    const side: MatchType
    var state: Option<nat>
    var arcs: seq<Arc>
    var pos: nat
    var end: nat
    var currentLoop: bool
    var matchLabel: int
    var exactMatch: bool

    /** Whether a label has been looked up at this state. */
    ghost var searched: bool

    ghost predicate Valid()
      reads this
    {
      && (state.Some? ==> state.value < |g.arcs| && arcs == g.arcs[state.value])
      && (searched ==> state.Some? && end <= |arcs|)
      && (searched && exactMatch ==> forall i | pos <= i < end :: LabelOf(side, arcs[i]) == matchLabel)
    }

    /** The matches not yet passed. */
    ghost function Remaining(): seq<Arc>
      requires Valid() && searched
      reads this
    {
      (if currentLoop then [LoopArc(side, state.value)] else []) + if pos <= end then arcs[pos..end] else []
    }

    constructor (g: Graph, side: MatchType)
      ensures Valid() && this.g == g && this.side == side && !searched
    {
      this.g, this.side := g, side;
      state, arcs, pos, end := None, [], 0, 0;
      currentLoop, matchLabel, exactMatch, searched := false, NO_LABEL, true, false;
    }

    method SetState(state: nat)
      requires Valid() && state < |g.arcs|
      modifies this
      ensures Valid() && this.state == Some(state)
      ensures old(this.state) == Some(state) ==> searched == old(searched) && (old(searched) ==> Remaining() == old(Remaining()))
    {
      if this.state == Some(state) {
        return;
      }
      this.state, arcs, searched := Some(state), g.arcs[state], false;
    }

    method Search()
      requires Valid() && state.Some? && SortedBy(arcs, side)
      modifies this`pos, this`end, this`searched
      ensures Valid() && searched && pos <= end
      ensures exactMatch ==> arcs[pos..end] == Scan(arcs, side, matchLabel)
      ensures !exactMatch ==> end == |arcs| && (forall i | 0 <= i < pos :: LabelOf(side, arcs[i]) < matchLabel)
                              && forall i | pos <= i < end :: LabelOf(side, arcs[i]) >= matchLabel
    {
      var start := PartitionPoint(arcs, side, 0, matchLabel, false);
      if exactMatch {
        end := PartitionPoint(arcs, side, start, matchLabel, true);
        ScanOfRun(arcs, side, matchLabel, start, end);
      } else {
        end := |arcs|;
      }
      pos, searched := start, true;
    }

    /** Looks a label up: the matches are those of a scan. */
    method Find(symbol: int) returns (found: bool)
      requires Valid() && state.Some? && SortedBy(g.arcs[state.value], side)
      modifies this
      ensures Valid() && searched && state == old(state)
      ensures Remaining() == Matches(g, side, state.value, symbol) && (found <==> Remaining() != [])
    {
      exactMatch := true;
      currentLoop := symbol == EPSILON;
      matchLabel := Wanted(symbol);
      searched := false;
      Search();
      found := pos < end || currentLoop;
    }

    /** Positions on every arc from a label on. */
    method LowerBound(symbol: int)
      requires Valid() && state.Some? && SortedBy(g.arcs[state.value], side)
      modifies this
      ensures Valid() && searched && state == old(state)
      ensures |Remaining()| <= |g.arcs[state.value]| && Remaining() == g.arcs[state.value][|g.arcs[state.value]| - |Remaining()|..]
      ensures forall i | 0 <= i < |g.arcs[state.value]| ::
                LabelOf(side, g.arcs[state.value][i]) >= symbol <==> i >= |g.arcs[state.value]| - |Remaining()|
    {
      exactMatch, currentLoop, matchLabel, searched := false, false, symbol, false;
      Search();
    }

    method Done() returns (done: bool)
      requires Valid() && searched
      ensures done <==> Remaining() == []
    {
      if currentLoop {
        return false;
      }
      if pos >= end {
        return true;
      }
      if !exactMatch {
        return false;
      }
      done := LabelOf(side, arcs[pos]) != matchLabel;
    }

    method Value() returns (arc: Arc)
      requires Valid() && searched && Remaining() != []
      ensures arc == Remaining()[0]
    {
      arc := if currentLoop then LoopArc(side, state.value) else arcs[pos];
    }

    method Next()
      requires Valid() && searched && Remaining() != []
      modifies this
      ensures Valid() && searched && state == old(state) && Remaining() == old(Remaining())[1..]
    {
      if currentLoop {
        currentLoop := false;
      } else {
        pos := pos + 1;
      }
    }
  }

  // -- By a table -------------------------------------------------------------------------

  /** Arcs grouped by label, each group in order. */
  ghost predicate Groups(table: map<int, seq<Arc>>, arcs: seq<Arc>, side: MatchType) {
    forall symbol: int :: (symbol in table <==> Scan(arcs, side, symbol) != []) && (symbol in table ==> table[symbol] == Scan(arcs, side, symbol))
  }

  method GroupByLabel(arcs: seq<Arc>, side: MatchType) returns (table: map<int, seq<Arc>>)
    ensures Groups(table, arcs, side)
  {
    table := map[];
    for k := 0 to |arcs|
      invariant Groups(table, arcs[..k], side)
    {
      var symbol := LabelOf(side, arcs[k]);
      assert arcs[..k + 1][..k] == arcs[..k];
      table := table[symbol := (if symbol in table then table[symbol] else []) + [arcs[k]]];
    }
    assert arcs[..|arcs|] == arcs;
  }

  class HashMatcher {
    const g: Graph
    const side: MatchType
    var state: Option<nat>
    /** The states looked at so far, their arcs grouped. */
    var tables: map<nat, map<int, seq<Arc>>>
    var currentLoop: bool
    var currentMatches: seq<Arc>
    var pos: nat

    ghost predicate Valid()
      reads this
    {
      && (state.Some? ==> state.value < |g.arcs| && state.value in tables)
      && (forall s | s in tables :: s < |g.arcs| && Groups(tables[s], g.arcs[s], side))
    }

    ghost function Remaining(): seq<Arc>
      requires state.Some?
      reads this
    {
      (if currentLoop then [LoopArc(side, state.value)] else []) + if pos <= |currentMatches| then currentMatches[pos..] else []
    }

    constructor (g: Graph, side: MatchType)
      ensures Valid() && this.g == g && this.side == side
    {
      this.g, this.side := g, side;
      state, tables := None, map[];
      currentLoop, currentMatches, pos := false, [], 0;
    }

    method SetState(state: nat)
      requires Valid() && state < |g.arcs|
      modifies this
      ensures Valid() && this.state == Some(state)
    {
      if this.state == Some(state) {
        return;
      }
      this.state := Some(state);
      if state !in tables {
        var table := GroupByLabel(g.arcs[state], side);
        tables := tables[state := table];
      }
    }

    /** Looks a label up: the matches are those of a scan, sorted or not. */
    method Find(symbol: int) returns (found: bool)
      requires Valid() && state.Some?
      modifies this
      ensures Valid() && state == old(state)
      ensures Remaining() == Matches(g, side, state.value, symbol) && (found <==> Remaining() != [])
    {
      currentLoop := symbol == EPSILON;
      var table := tables[state.value];
      if Wanted(symbol) in table {
        currentMatches, pos := table[Wanted(symbol)], 0;
        return true;
      }
      currentMatches, pos := [], 0;
      found := currentLoop;
    }

    method Done() returns (done: bool)
      requires state.Some?
      ensures done <==> Remaining() == []
    {
      done := !currentLoop && pos >= |currentMatches|;
    }

    method Value() returns (arc: Arc)
      requires state.Some? && Remaining() != []
      ensures arc == Remaining()[0]
    {
      arc := if currentLoop then LoopArc(side, state.value) else currentMatches[pos];
    }

    method Next()
      requires Valid() && state.Some? && Remaining() != []
      modifies this
      ensures Valid() && state == old(state) && Remaining() == old(Remaining())[1..]
    {
      if currentLoop {
        currentLoop := false;
      } else {
        pos := pos + 1;
      }
    }
  }

  // -- Rewriting what stands in for a label --------------------------------------------------

  function Rewrite(arc: Arc, implicit: int, matched: int, rewriteBoth: bool, side: MatchType): Arc {
    if rewriteBoth then
      arc.(ilabel := if arc.ilabel == implicit then matched else arc.ilabel, olabel := if arc.olabel == implicit then matched else arc.olabel)
    else if side == Input then arc.(ilabel := matched)
    else arc.(olabel := matched)
  }

  function Rewritten(arcs: seq<Arc>, implicit: int, matched: int, rewriteBoth: bool, side: MatchType): (r: seq<Arc>)
    ensures |r| == |arcs|
  {
    seq(|arcs|, k requires 0 <= k < |arcs| => Rewrite(arcs[k], implicit, matched, rewriteBoth, side))
  }

  /** Whether a label is a real one, that something may stand in for. */
  predicate IsReal(symbol: int) {
    symbol != EPSILON && symbol != NO_LABEL
  }

  /** The arc reported in place of one found under a label that stands for others: it has
      the label asked for where it was matched, and on the other side only if that is to be
      rewritten too and had the standing label; it leads to the same state, at the weight
      given on top of its own. */
  predicate StandsIn(made: Arc, arc: Arc, implicit: int, matched: int, rewriteBoth: bool, side: MatchType, weight: Cost) {
    && made.nextstate == arc.nextstate && made.weight == weight.Plus(arc.weight)
    && match side
       case Input => made.ilabel == matched && made.olabel == (if rewriteBoth && arc.olabel == implicit then matched else arc.olabel)
       case Output => made.olabel == matched && made.ilabel == (if rewriteBoth && arc.ilabel == implicit then matched else arc.ilabel)
  }

  predicate StandIns(made: seq<Arc>, arcs: seq<Arc>, implicit: int, matched: int, rewriteBoth: bool, side: MatchType, weight: Cost) {
    |made| == |arcs| && forall k | 0 <= k < |arcs| :: StandsIn(made[k], arcs[k], implicit, matched, rewriteBoth, side, weight)
  }

  /** Whether an arc answers to a label on the side matched. */
  predicate Answers(arc: Arc, side: MatchType, symbol: int) {
    match side
    case Input => arc.ilabel == symbol
    case Output => arc.olabel == symbol
  }

  lemma {:induction false} ScanAnswers(arcs: seq<Arc>, side: MatchType, symbol: int)
    ensures forall arc :: arc in Scan(arcs, side, symbol) <==> arc in arcs && Answers(arc, side, symbol)
    decreases |arcs|
  {
    if |arcs| > 0 {
      assert arcs == arcs[..|arcs| - 1] + [arcs[|arcs| - 1]];
      ScanAnswers(arcs[..|arcs| - 1], side, symbol);
    }
  }

  /** What a label matches: for epsilon the loop first, that consumes nothing on the side
      matched and is silent on the other; and then arcs that answer to it. */
  lemma MatchesAnswer(g: Graph, side: MatchType, state: nat, symbol: int)
    requires state < |g.arcs|
    ensures var loop := if side == Input then Arc(NO_LABEL, EPSILON, ZERO, state) else Arc(EPSILON, NO_LABEL, ZERO, state);
            var wanted := if symbol == NO_LABEL then EPSILON else symbol;
            forall k | 0 <= k < |Matches(g, side, state, symbol)| ::
              var arc := Matches(g, side, state, symbol)[k];
              if k == 0 && symbol == EPSILON then arc == loop else arc in g.arcs[state] && Answers(arc, side, wanted)
    ensures symbol == EPSILON ==> Matches(g, side, state, symbol) != []
  {
    hide Scan;
    ScanAnswers(g.arcs[state], side, Wanted(symbol));
    var scan := Scan(g.arcs[state], side, Wanted(symbol));
    forall k | 0 <= k < |scan| ensures scan[k] in g.arcs[state] && Answers(scan[k], side, Wanted(symbol)) {
      assert scan[k] in scan;
    }
  }

  lemma RewrittenStandIn(arcs: seq<Arc>, implicit: int, matched: int, rewriteBoth: bool, side: MatchType)
    requires forall arc | arc in arcs :: Answers(arc, side, implicit)
    ensures StandIns(Rewritten(arcs, implicit, matched, rewriteBoth, side), arcs, implicit, matched, rewriteBoth, side, ZERO)
  {
    forall k | 0 <= k < |arcs|
      ensures StandsIn(Rewritten(arcs, implicit, matched, rewriteBoth, side)[k], arcs[k], implicit, matched, rewriteBoth, side, ZERO)
    {
      assert arcs[k] in arcs;
    }
  }
}
