/** The decoding graph of a CTC model, and the rule it encodes: runs of one symbol
    become one, then the blanks go. */
module CtcTopologies {
  import opened Costs
  import opened DecodingGraphs
  import Viterbi

  const BLANK: nat := 0

  datatype CtcError = TooFewSymbols | ColumnZeroIsEpsilon | LabelDoesNotFit

  // -- The collapsing rule ---------------------------------------------------------------

  function MergeRuns(columns: seq<nat>): seq<nat> {
    if |columns| <= 1 then columns
    else if columns[0] == columns[1] then MergeRuns(columns[1..])
    else [columns[0]] + MergeRuns(columns[1..])
  }

  function DeleteBlanks(columns: seq<nat>): seq<nat> {
    if |columns| == 0 then []
    else (if columns[0] == BLANK then [] else [columns[0]]) + DeleteBlanks(columns[1..])
  }

  /** What the last column of a sequence says. */
  function Says(columns: seq<nat>): seq<nat>
    requires |columns| > 0
  {
    var (n, last) := (|columns|, columns[|columns| - 1]);
    if (n >= 2 && columns[n - 2] == last) || last == BLANK then [] else [last]
  }

  /** One pass, remembering the column before. */
  method Collapse(columns: seq<nat>) returns (out: seq<nat>)
    ensures out == DeleteBlanks(MergeRuns(columns))
  {
    out := [];
    var previous: Option<nat> := None;
    for t := 0 to |columns|
      invariant out == DeleteBlanks(MergeRuns(columns[..t]))
      invariant previous == if t == 0 then None else Some(columns[t - 1])
    {
      var column := columns[t];
      assert columns[..t + 1][..t] == columns[..t];
      OneColumnMore(columns[..t + 1]);
      if previous != Some(column) && column != BLANK {
        out := out + [column];
      }
      previous := Some(column);
    }
    assert columns[..|columns|] == columns;
  }

  lemma {:induction false} MergedHead(columns: seq<nat>)
    requires |columns| > 0
    ensures |MergeRuns(columns)| > 0 && MergeRuns(columns)[0] == columns[0]
  {
    if |columns| > 1 && columns[0] == columns[1] {
      MergedHead(columns[1..]);
    }
  }

  // Merging and deleting, read from the end: the last column adds what it says.
  lemma {:induction false} OneColumnMore(columns: seq<nat>)
    requires |columns| > 0
    ensures DeleteBlanks(MergeRuns(columns)) == DeleteBlanks(MergeRuns(columns[..|columns| - 1])) + Says(columns)
  {
    var n := |columns|;
    if n == 1 {
      assert columns[..0] == [] && columns[1..] == [];
    } else if n == 2 {
      assert columns[..1] == [columns[0]] && columns[1..] == [columns[1]] && columns[1..][1..] == [];
      assert columns[..1][1..] == [];
      if columns[0] != columns[1] {
        assert ([columns[0]] + [columns[1]])[1..] == [columns[1]];
      }
    } else {
      var (rest, front) := (columns[1..], columns[..n - 1]);
      OneColumnMore(rest);
      assert rest[..n - 2] == front[1..];
      assert Says(rest) == Says(columns);
      if columns[0] != columns[1] {
        assert ([columns[0]] + MergeRuns(rest))[1..] == MergeRuns(rest);
        assert ([columns[0]] + MergeRuns(front[1..]))[1..] == MergeRuns(front[1..]);
      }
    }
  }

  // -- The topology -----------------------------------------------------------------------

  /** The arcs out of the state that last emitted `last`: one for each column, to the
      state of that column. A blank says nothing, nor does the same symbol again. */
  function ArcsAfter(numSymbols: nat, offset: int, last: nat): (arcs: seq<Arc>)
    ensures |arcs| == numSymbols
  {
    seq(numSymbols, column requires 0 <= column < numSymbols =>
      Arc(offset + column, if column == BLANK || column == last then EPSILON else offset + column, ZERO, column))
  }

  function Topology(numSymbols: nat, offset: int): (g: Graph)
    ensures |g.arcs| == |g.finals| == numSymbols
  {
    Graph(Some(0), seq(numSymbols, _ => ZERO), seq(numSymbols, last requires 0 <= last < numSymbols => ArcsAfter(numSymbols, offset, last)))
  }

  method CtcTopo(numSymbols: nat, offset: int, largest: int) returns (r: Result<Graph, CtcError>)
    ensures r == Failure(TooFewSymbols) <==> numSymbols < 2
    ensures r == Failure(ColumnZeroIsEpsilon) <==> numSymbols >= 2 && offset < 1
    ensures r == Failure(LabelDoesNotFit) <==> numSymbols >= 2 && offset >= 1 && offset + numSymbols - 1 > largest
    ensures r.Success? ==> r.value == Topology(numSymbols, offset) && r.value.Valid()
  {
    if numSymbols < 2 {
      return Failure(TooFewSymbols);
    }
    if offset < 1 {
      return Failure(ColumnZeroIsEpsilon);
    }
    if offset + numSymbols - 1 > largest {
      return Failure(LabelDoesNotFit);
    }
    var arcs: seq<seq<Arc>> := [];
    var finals: seq<Cost> := [];
    for last := 0 to numSymbols
      invariant |arcs| == |finals| == last
      invariant forall s | 0 <= s < last :: arcs[s] == ArcsAfter(numSymbols, offset, s) && finals[s] == ZERO
    {
      var out := [Arc(offset, EPSILON, ZERO, 0)];
      for symbol := 1 to numSymbols
        invariant |out| == symbol && out == ArcsAfter(numSymbols, offset, last)[..symbol]
      {
        var says := if symbol == last then EPSILON else offset + symbol;
        out := out + [Arc(offset + symbol, says, ZERO, symbol)];
      }
      arcs, finals := arcs + [out], finals + [ZERO];
    }
    var g := Graph(Some(0), finals, arcs);
    assert g == Topology(numSymbols, offset);
    return Success(g);
  }

  // -- Its paths ----------------------------------------------------------------------------

  ghost predicate Matched(numSymbols: nat, offset: int, d: Dense) {
    numSymbols >= 2 && offset >= 1 && d.Valid() && d.numSymbols == numSymbols && d.labelOffset == offset
  }

  ghost predicate InAlphabet(columns: seq<nat>, numSymbols: nat) {
    forall t | 0 <= t < |columns| :: columns[t] < numSymbols
  }

  function StateAfter(columns: seq<nat>): nat {
    if |columns| == 0 then 0 else columns[|columns| - 1]
  }

  /** The path that reads a sequence of columns. */
  ghost function PathReading(columns: seq<nat>): (path: seq<Taken>)
    ensures |path| == |columns|
  {
    seq(|columns|, t requires 0 <= t < |columns| => Taken(if t == 0 then 0 else columns[t - 1], columns[t]))
  }

  ghost function ColumnsRead(path: seq<Taken>): (columns: seq<nat>)
    ensures |columns| == |path|
  {
    seq(|path|, t requires 0 <= t < |path| => path[t].index)
  }

  /** What a sequence of columns costs against the matrix. */
  ghost function ColumnCost(d: Dense, columns: seq<nat>): Cost
    requires d.Valid() && |columns| <= d.NumFrames() && InAlphabet(columns, d.numSymbols)
  {
    if |columns| == 0 then ZERO
    else ColumnCost(d, columns[..|columns| - 1]).Plus(d.scores[|columns| - 1][columns[|columns| - 1]])
  }

  function Offset(columns: seq<nat>, offset: int): (labels: seq<int>)
    ensures |labels| == |columns|
  {
    seq(|columns|, t requires 0 <= t < |columns| => offset + columns[t])
  }

  lemma ArcOfColumn(numSymbols: nat, offset: int, d: Dense, last: nat, column: nat, frames: nat)
    requires Matched(numSymbols, offset, d) && last < numSymbols && column < numSymbols && 0 < frames <= d.NumFrames()
    ensures var (g, taken) := (Topology(numSymbols, offset), Taken(last, column));
            && IsArc(g, taken) && ArcOf(g, taken).nextstate == column && Fits(g, d, taken, frames)
            && ArcOf(g, taken).ilabel != EPSILON && FramesBefore(g, taken, frames) == frames - 1
            && ArcCost(g, d, taken, frames) == d.scores[frames - 1][column]
            && ArcOf(g, taken).olabel == (if column == BLANK || column == last then EPSILON else offset + column)
  {
    assert d.scores[frames - 1][column] == ZERO.Plus(d.scores[frames - 1][column]) by { ZeroIsOne(d.scores[frames - 1][column]); }
  }

  lemma ZeroIsOne(cost: Cost)
    ensures ZERO.Plus(cost) == cost
  {}

  lemma ReadingOn(columns: seq<nat>)
    requires |columns| > 0
    ensures var front := columns[..|columns| - 1];
            PathReading(columns) == PathReading(front) + [Taken(StateAfter(front), columns[|columns| - 1])]
  {}

  /** The path of a column sequence is a path of the topology, costs what its columns
      score, and says the sequence collapsed. */
  lemma {:induction false} ReadingIsWalk(numSymbols: nat, offset: int, d: Dense, columns: seq<nat>)
    requires Matched(numSymbols, offset, d) && InAlphabet(columns, numSymbols) && |columns| <= d.NumFrames()
    requires Topology(numSymbols, offset).Valid()
    ensures Walk(Topology(numSymbols, offset), d, PathReading(columns), |columns|, StateAfter(columns))
    ensures WalkCost(Topology(numSymbols, offset), d, PathReading(columns), |columns|, StateAfter(columns)) == ColumnCost(d, columns)
    ensures forall k | 0 <= k < |columns| :: IsArc(Topology(numSymbols, offset), PathReading(columns)[k])
    ensures Outputs(Topology(numSymbols, offset), PathReading(columns)) == Offset(DeleteBlanks(MergeRuns(columns)), offset)
    decreases |columns|
  {
    hide Topology, PathReading, Graph.Valid, Dense.Valid, MergeRuns, DeleteBlanks, Fits, ArcCost, FramesBefore, IsArc;
    var g := Topology(numSymbols, offset);
    if |columns| == 0 {
      NothingRead(numSymbols, offset, d, columns);
    } else {
      hide Walk, WalkCost, Outputs, Offset;
      var n := |columns|;
      var (front, column) := (columns[..n - 1], columns[n - 1]);
      ReadingIsWalk(numSymbols, offset, d, front);
      ReadingOn(columns);
      var taken := Taken(StateAfter(front), column);
      ArcOfColumn(numSymbols, offset, d, StateAfter(front), column, n);
      WalkOn(g, d, PathReading(front), n, taken);
      OutputsOn(g, PathReading(front), taken);
      SaysOffset(columns, offset);
    }
  }

  lemma NothingRead(numSymbols: nat, offset: int, d: Dense, columns: seq<nat>)
    requires Matched(numSymbols, offset, d) && Topology(numSymbols, offset).Valid() && |columns| == 0
    ensures Walk(Topology(numSymbols, offset), d, PathReading(columns), 0, 0)
    ensures WalkCost(Topology(numSymbols, offset), d, PathReading(columns), 0, 0) == ZERO
    ensures Outputs(Topology(numSymbols, offset), PathReading(columns)) == [] == Offset(DeleteBlanks(MergeRuns(columns)), offset)
  {}

  lemma SaysOffset(columns: seq<nat>, offset: int)
    requires |columns| > 0
    ensures var (front, column) := (columns[..|columns| - 1], columns[|columns| - 1]);
            Offset(DeleteBlanks(MergeRuns(columns)), offset)
            == Offset(DeleteBlanks(MergeRuns(front)), offset)
               + if column == BLANK || column == StateAfter(front) then [] else [offset + column]
  {
    hide MergeRuns, DeleteBlanks, Offset;
    OneColumnMore(columns);
    var front := columns[..|columns| - 1];
    OffsetOn(DeleteBlanks(MergeRuns(front)), Says(columns), offset);
    OffsetOfSays(columns, offset);
  }

  lemma OffsetOn(a: seq<nat>, b: seq<nat>, offset: int)
    ensures Offset(a + b, offset) == Offset(a, offset) + Offset(b, offset)
  {}

  lemma OffsetOfSays(columns: seq<nat>, offset: int)
    requires |columns| > 0
    ensures var (front, column) := (columns[..|columns| - 1], columns[|columns| - 1]);
            Offset(Says(columns), offset) == if column == BLANK || column == StateAfter(front) then [] else [offset + column]
  {}

  /** And the only path that reads it: every path is the reading of its columns. */
  lemma {:induction false} WalkIsReading(numSymbols: nat, offset: int, d: Dense, path: seq<Taken>, frames: nat, state: nat)
    requires Matched(numSymbols, offset, d) && Topology(numSymbols, offset).Valid()
    requires Walk(Topology(numSymbols, offset), d, path, frames, state)
    ensures |path| == frames && InAlphabet(ColumnsRead(path), numSymbols)
    ensures PathReading(ColumnsRead(path)) == path && StateAfter(ColumnsRead(path)) == state
    decreases |path|
  {
    hide Graph.Valid, PathReading, ColumnsRead;
    if |path| == 0 {
      ReadingOfNone(path);
    } else {
      var (front, last) := (path[..|path| - 1], path[|path| - 1]);
      WalkIsReading(numSymbols, offset, d, front, frames - 1, last.from);
      ReadBack(front, last);
      assert front + [last] == path;
    }
  }

  lemma ReadingOfNone(path: seq<Taken>)
    requires |path| == 0
    ensures ColumnsRead(path) == [] && PathReading(ColumnsRead(path)) == path
  {}

  lemma ReadBack(front: seq<Taken>, last: Taken)
    requires PathReading(ColumnsRead(front)) == front && StateAfter(ColumnsRead(front)) == last.from
    ensures PathReading(ColumnsRead(front + [last])) == front + [last]
    ensures ColumnsRead(front + [last]) == ColumnsRead(front) + [last.index]
  {
    var columns := ColumnsRead(front + [last]);
    assert columns == ColumnsRead(front) + [last.index];
    ReadingOn(columns);
    assert columns[..|front|] == ColumnsRead(front);
  }

  // -- Decoding it ------------------------------------------------------------------------------

  /** The labels and cost of a column sequence over every frame. */
  ghost predicate Spells(d: Dense, offset: int, decoded: Viterbi.Decoded, columns: seq<nat>) {
    && d.Valid() && |columns| == d.NumFrames() && InAlphabet(columns, d.numSymbols)
    && decoded.labels == Offset(DeleteBlanks(MergeRuns(columns)), offset) && decoded.weight == ColumnCost(d, columns)
  }

  /** Decoding the topology alone is choosing the cheapest column sequence and
      collapsing it. */
  lemma DecodingCollapses(numSymbols: nat, offset: int, d: Dense, decoded: Option<Viterbi.Decoded>)
    requires Matched(numSymbols, offset, d) && Topology(numSymbols, offset).Valid()
    requires Viterbi.IsBest(Topology(numSymbols, offset), d, decoded)
    requires decoded.Some? ==> Viterbi.IsPathAnswer(Topology(numSymbols, offset), d, decoded.value)
    ensures decoded.Some?
    ensures exists columns :: Spells(d, offset, decoded.value, columns)
    ensures forall columns | |columns| == d.NumFrames() && InAlphabet(columns, d.numSymbols) :: decoded.value.weight.AtMost(ColumnCost(d, columns))
  {
    hide Topology, PathReading, Graph.Valid, Dense.Valid, MergeRuns, DeleteBlanks, Walk, WalkCost, Outputs, Offset, ColumnCost, ColumnsRead;
    var g := Topology(numSymbols, offset);
    forall columns | |columns| == d.NumFrames() && InAlphabet(columns, d.numSymbols)
      ensures Accepting(g, d, PathReading(columns), StateAfter(columns))
      ensures AcceptingCost(g, d, PathReading(columns), StateAfter(columns)) == ColumnCost(d, columns)
    {
      ReadingIsWalk(numSymbols, offset, d, columns);
      AllFinal(numSymbols, offset, StateAfter(columns), ColumnCost(d, columns));
    }
    var blanks := seq(d.NumFrames(), _ => BLANK);
    assert InAlphabet(blanks, d.numSymbols);
    assert Accepting(g, d, PathReading(blanks), StateAfter(blanks));
    var path: seq<Taken>, s: nat :| Accepting(g, d, path, s) && Viterbi.SpelledBy(g, d, decoded.value, path, s);
    WalkIsReading(numSymbols, offset, d, path, d.NumFrames(), s);
    ReadingIsWalk(numSymbols, offset, d, ColumnsRead(path));
    assert Spells(d, offset, decoded.value, ColumnsRead(path));
  }

  lemma AllFinal(numSymbols: nat, offset: int, state: nat, cost: Cost)
    requires state < numSymbols
    ensures Topology(numSymbols, offset).finals[state] == ZERO && cost.Plus(ZERO) == cost
  {}
}
