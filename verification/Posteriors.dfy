/** The backward pass, and what it visits: every transition carrying probability,
    once, with the share of all complete paths that take it. */
module Posteriors {
  import opened Costs
  import opened Trellises
  import opened Sums
  import opened PathMasses
  import opened Reversals
  import opened LogSums
  import opened ForwardBackward
  import Tracebacks

  datatype Error = BadDegree | TooLarge

  /** One transition as the caller is told of it: the frame it consumed, the
      position it landed in, which it was, and its posterior. */
  datatype Visit = Visit(frame: nat, position: nat, code: nat, mass: real)

  // -- What a list of visits says ---------------------------------------------------------

  ghost predicate Valid(tr: Trellis, v: Visit) {
    v.frame < tr.numFrames && v.position <= tr.numPositions && v.code < tr.degree
  }

  ghost predicate SameTransition(a: Visit, b: Visit) {
    a.frame == b.frame && a.position == b.position && a.code == b.code
  }

  /** The visit's mass is the share of the complete paths that take it. */
  ghost predicate IsShare(tr: Trellis, w: Weighing, v: Visit)
    requires tr.Lawful()
  {
    && Valid(tr, v) && v.mass > 0.0
    && Times(v.mass, Total(tr, w)) == Using(tr, w, v.frame, Hop(v.code, v.position))
  }

  ghost predicate Mentions(visits: seq<Visit>, frame: nat, position: nat, code: nat) {
    exists v :: v in visits && v.frame == frame && v.position == position && v.code == code
  }

  ghost predicate NoRepeats(visits: seq<Visit>) {
    forall j, k | 0 <= j < k < |visits| :: !SameTransition(visits[j], visits[k])
  }

  /** The probability visited in one frame. */
  ghost function MassIn(visits: seq<Visit>, frame: nat): real {
    if |visits| == 0 then 0.0
    else
      var last := visits[|visits| - 1];
      MassIn(visits[..|visits| - 1], frame) + if last.frame == frame then last.mass else 0.0
  }

  lemma {:induction false} MassInBoth(a: seq<Visit>, b: seq<Visit>, frame: nat)
    ensures MassIn(a + b, frame) == MassIn(a, frame) + MassIn(b, frame)
  {
    if |b| == 0 {
      assert a + b == a;
    } else {
      MassInBoth(a, b[..|b| - 1], frame);
      assert (a + b)[..|a + b| - 1] == a + b[..|b| - 1];
    }
  }

  lemma {:induction false} NoMassElsewhere(visits: seq<Visit>, frame: nat)
    requires forall v | v in visits :: v.frame != frame
    ensures MassIn(visits, frame) == 0.0
  {
    if |visits| > 0 {
      assert visits[|visits| - 1] in visits;
      NoMassElsewhere(visits[..|visits| - 1], frame);
    }
  }

  // -- One cell ---------------------------------------------------------------------------

  /** A reused row: right over its own frame's band, and anything elsewhere. */
  ghost predicate BetaRight(rv: Reversible, w: Weighing, row: seq<real>, frame: nat)
    requires rv.Lawful() && frame <= rv.forward.numFrames
  {
    && |row| == rv.forward.numPositions + 1
    && forall i: nat | i < |row| && rv.forward.InBand(frame, i) :: row[i] == Beta(rv, w, frame)(i)
  }

  lemma {:induction false} BetaNonNegative(rv: Reversible, w: Weighing, frame: nat, i: nat)
    requires rv.Lawful() && w.Lawful() && frame <= rv.forward.numFrames
    ensures Beta(rv, w, frame)(i) >= 0.0
    decreases rv.forward.numFrames - frame
  {
    if frame < rv.forward.numFrames {
      hide Weighing.Lawful, Recover;
      var terms := Recovers(rv, w, frame, Beta(rv, w, frame + 1), i);
      forall code: nat | code < rv.forward.degree ensures terms(code) >= 0.0 {
        RecoverNonNegative(rv, w, frame, i, code);
      }
      SumNonNegative(rv.forward.degree, terms);
    }
  }

  lemma {:induction false} RecoverNonNegative(rv: Reversible, w: Weighing, frame: nat, i: nat, code: nat)
    requires rv.Lawful() && w.Lawful() && frame < rv.forward.numFrames
    ensures Recover(rv, w, frame, Beta(rv, w, frame + 1), i, code) >= 0.0
    decreases rv.forward.numFrames - frame, 0
  {
    hide Weighing.Lawful;
    if i <= rv.forward.numPositions && code < rv.forward.degree && rv.stepsOutOf(frame, i)[code].cost.Finite? {
      var step := rv.stepsOutOf(frame, i)[code];
      BetaNonNegative(rv, w, frame + 1, i + step.advance);
      WeighsNonNegative(w, step.cost);
      TimesNonNegative(Beta(rv, w, frame + 1)(i + step.advance), w.of(step.cost));
    }
  }

  // The one read of the backward recurrence: a target outside the next band
  // carries nothing, so leaving its term at zero is right.
  lemma RecoverRead(rv: Reversible, w: Weighing, next: seq<real>, frame: nat, i: nat, code: nat)
    requires rv.Lawful() && w.Lawful() && frame < rv.forward.numFrames
    requires rv.forward.InBand(frame, i) && i <= rv.forward.numPositions && code < rv.forward.degree
    requires BetaRight(rv, w, next, frame + 1)
    ensures var step := rv.stepsOutOf(frame, i)[code];
            var to := i + step.advance;
            Recover(rv, w, frame, Beta(rv, w, frame + 1), i, code)
            == if rv.forward.InBand(frame + 1, to) && to < |next| then Times(next[to], w.of(step.cost)) else 0.0
  {
    var tr := rv.forward;
    var step := rv.stepsOutOf(frame, i)[code];
    var to := i + step.advance;
    if step.cost.Finite? {
      assert rv.LeavesAsArrives(frame, i, code);
      assert tr.LawfulStep(step, to);
      BandMoves(tr, frame);
      if to < tr.Lo(frame + 1) {
        NothingCompletesBelowBand(rv, w, frame + 1, to);
        TimesPlus(0.0, 0.0, w.of(step.cost));
      } else {
        TargetBelowTop(tr, frame, i, step.advance);
      }
    } else if to < |next| {
      TimesSplit(next[to], 0.0, 0.0);
    }
  }

  lemma TargetBelowTop(tr: Trellis, frame: nat, i: nat, advance: nat)
    requires frame < tr.numFrames && i <= tr.Hi(frame) && advance <= tr.Reach() && i + advance <= tr.numPositions
    ensures i + advance <= tr.Hi(frame + 1)
  {
    assert tr.Reach() * (frame + 1) == tr.Reach() * frame + tr.Reach();
  }

  method BackwardTerms(rv: Reversible, w: Weighing, next: array<real>, frame: nat, i: nat) returns (terms: seq<real>)
    requires rv.Lawful() && w.Lawful() && frame < rv.forward.numFrames
    requires rv.forward.InBand(frame, i) && i <= rv.forward.numPositions
    requires BetaRight(rv, w, next[..], frame + 1)
    ensures |terms| == rv.forward.degree
    ensures forall c: nat | c < |terms| ::
              terms[c] == Recover(rv, w, frame, Beta(rv, w, frame + 1), i, c) && terms[c] >= 0.0
  {
    hide Times, Recover, Weighing.Lawful, Trellis.Lo, Trellis.Hi;
    var steps := rv.stepsOutOf(frame, i);
    terms := [];
    var c := 0;
    while c < |steps|
      invariant 0 <= c == |terms| <= |steps| == rv.forward.degree
      invariant forall k: nat | k < c ::
                  terms[k] == Recover(rv, w, frame, Beta(rv, w, frame + 1), i, k) && terms[k] >= 0.0
    {
      RecoverRead(rv, w, next[..], frame, i, c);
      RecoverNonNegative(rv, w, frame, i, c);
      var to := i + steps[c].advance;
      var term := 0.0;
      if rv.forward.InBand(frame + 1, to) && to < next.Length {
        term := Times(next[to], w.of(steps[c].cost));
      }
      terms := terms + [term];
      c := c + 1;
    }
  }

  lemma TermsAddToBeta(rv: Reversible, w: Weighing, terms: seq<real>, frame: nat, i: nat)
    requires rv.Lawful() && frame < rv.forward.numFrames && |terms| == rv.forward.degree
    requires forall c: nat | c < |terms| :: terms[c] == Recover(rv, w, frame, Beta(rv, w, frame + 1), i, c)
    ensures SumOf(terms) == Beta(rv, w, frame)(i)
  {
    hide Recover;
    SumSame(rv.forward.degree, TermAt(terms), Recovers(rv, w, frame, Beta(rv, w, frame + 1), i));
  }

  /** A transition's posterior mass, as the solver forms it, is what the complete
      paths taking it carry. */
  lemma TermIsUse(rv: Reversible, w: Weighing, frame: nat, i: nat, code: nat)
    requires rv.Lawful() && w.Lawful() && frame < rv.forward.numFrames
    requires i <= rv.forward.numPositions && code < rv.forward.degree && rv.stepsOutOf(frame, i)[code].cost.Finite?
    ensures var to := i + rv.stepsOutOf(frame, i)[code].advance;
            && to <= rv.forward.numPositions
            && Using(rv.forward, w, frame, Hop(code, to))
               == Times(Mass(rv.forward, w, Everything, frame)(i), Recover(rv, w, frame, Beta(rv, w, frame + 1), i, code))
  {
    hide Mass, Times, Weighing.Lawful;
    var step := rv.stepsOutOf(frame, i)[code];
    assert rv.LeavesAsArrives(frame, i, code);
    TransitionMass(rv, w, frame, Hop(code, i + step.advance));
    Regroup(Mass(rv.forward, w, Everything, frame)(i), w.of(step.cost), Beta(rv, w, frame + 1)(i + step.advance));
  }

  /** What a cell's visits have to be: its transitions of nonzero mass, by code. */
  ghost predicate CellVisits(steps: seq<Step>, visits: seq<Visit>, frame: nat, i: nat, codes: nat, alpha: real, total: real, terms: seq<real>)
    requires codes <= |terms| == |steps|
  {
    && (forall k | 0 <= k < |visits| :: CellVisit(steps, visits[k], frame, i, codes, alpha, total, terms))
    && (forall j, k | 0 <= j < k < |visits| :: visits[j].code < visits[k].code)
    && (forall c: nat | c < codes && Times(alpha, terms[c]) > 0.0 :: HasCode(visits, c))
    && Times(MassIn(visits, frame), total) == Times(alpha, SumOf(terms[..codes]))
  }

  ghost predicate CellVisit(steps: seq<Step>, v: Visit, frame: nat, i: nat, codes: nat, alpha: real, total: real, terms: seq<real>)
    requires codes <= |terms| == |steps|
  {
    && v.code < codes && v.frame == frame && v.position == i + steps[v.code].advance
    && v.mass > 0.0 && terms[v.code] > 0.0
    && Times(v.mass, total) == Times(alpha, terms[v.code])
  }

  ghost predicate HasCode(visits: seq<Visit>, code: nat) {
    exists k :: 0 <= k < |visits| && visits[k].code == code
  }

  lemma HasCodeMore(visits: seq<Visit>, v: Visit)
    ensures HasCode(visits + [v], v.code)
    ensures forall c: nat | HasCode(visits, c) :: HasCode(visits + [v], c)
  {
    assert (visits + [v])[|visits|] == v;
    forall c: nat | HasCode(visits, c) ensures HasCode(visits + [v], c) {
      var k :| 0 <= k < |visits| && visits[k].code == c;
      assert (visits + [v])[k].code == c;
    }
  }

  lemma MassInMore(visits: seq<Visit>, v: Visit)
    ensures MassIn(visits + [v], v.frame) == MassIn(visits, v.frame) + v.mass
  {
    assert (visits + [v])[..|visits|] == visits;
  }

  // The sum a cell's visits account for grows by the next code's term.
  lemma TermsMore(terms: seq<real>, c: nat, alpha: real)
    requires c < |terms|
    ensures Times(alpha, SumOf(terms[..c + 1])) == Times(alpha, SumOf(terms[..c])) + Times(alpha, terms[c])
    ensures terms[c] == 0.0 ==> Times(alpha, terms[c]) == 0.0
  {
    assert terms[..c + 1] == terms[..c] + [terms[c]];
    SumOfMore(terms[..c], terms[c]);
    TimesSplit(alpha, SumOf(terms[..c]), terms[c]);
    TimesSplit(alpha, 0.0, 0.0);
  }

  lemma VisitOneMore(steps: seq<Step>, visits: seq<Visit>, frame: nat, i: nat, c: nat, alpha: real, total: real, terms: seq<real>, mass: real)
    requires c < |terms| == |steps| && CellVisits(steps, visits, frame, i, c, alpha, total, terms)
    requires Times(mass, total) == Times(alpha, terms[c]) && terms[c] > 0.0 && mass > 0.0
    ensures CellVisits(steps, visits + [Visit(frame, i + steps[c].advance, c, mass)], frame, i, c + 1, alpha, total, terms)
  {
    hide Times, SumOf, MassIn, HasCode;
    var v := Visit(frame, i + steps[c].advance, c, mass);
    TermsMore(terms, c, alpha);
    TimesPlus(MassIn(visits, frame), mass, total);
    MassInMore(visits, v);
    HasCodeMore(visits, v);
  }

  lemma VisitNothing(steps: seq<Step>, visits: seq<Visit>, frame: nat, i: nat, c: nat, alpha: real, total: real, terms: seq<real>)
    requires c < |terms| == |steps| && CellVisits(steps, visits, frame, i, c, alpha, total, terms)
    requires terms[c] == 0.0
    ensures CellVisits(steps, visits, frame, i, c + 1, alpha, total, terms)
  {
    hide Times, SumOf, MassIn, HasCode;
    TermsMore(terms, c, alpha);
  }

  lemma MassFormed(alpha: real, pivot: real, share: real, total: real, term: real)
    requires total > 0.0 && Times(pivot, share) == term && alpha > 0.0 && pivot > 0.0
    ensures Times(Times(alpha * pivot / total, share), total) == Times(alpha, term)
    ensures share > 0.0 ==> Times(alpha * pivot / total, share) > 0.0
  {
    var cell := alpha * pivot / total;
    assert cell * total == alpha * pivot;
    assert cell * share * total == alpha * pivot * share;
  }

  lemma NoVisits(steps: seq<Step>, frame: nat, i: nat, codes: nat, alpha: real, pivot: real, total: real, terms: seq<real>, shares: seq<real>)
    requires codes <= |terms| == |steps| == |shares| && (codes == 0 || Times(alpha, pivot) == 0.0)
    requires forall c: nat | c < |terms| :: Times(pivot, shares[c]) == terms[c]
    ensures CellVisits(steps, [], frame, i, codes, alpha, total, terms)
  {
    hide SumOf;
    TimesPlus(0.0, 0.0, total);
    if codes == 0 {
      assert terms[..0] == [];
      SumOfNone();
      TimesSplit(alpha, 0.0, 0.0);
    } else {
      NoVisits(steps, frame, i, codes - 1, alpha, pivot, total, terms, shares);
      TermsMore(terms, codes - 1, alpha);
      ZeroProduct(alpha, pivot, shares[codes - 1]);
    }
  }

  lemma SumOfNone()
    ensures SumOf([]) == 0.0
  {}

  lemma ZeroProduct(alpha: real, pivot: real, share: real)
    requires Times(alpha, pivot) == 0.0
    ensures Times(alpha, Times(pivot, share)) == 0.0
  {
    assert alpha * (pivot * share) == alpha * pivot * share;
  }

  /** Solves one cell backward and visits its transitions: the cell's common factor
      is formed once, and nothing is visited when it is nothing. */
  method SolveCell(rv: Reversible, w: Weighing, next: array<real>, frame: nat, i: nat, alpha: real, total: real)
    returns (sum: real, visits: seq<Visit>, ghost terms: seq<real>)
    requires rv.Lawful() && w.Lawful() && frame < rv.forward.numFrames
    requires rv.forward.InBand(frame, i) && i <= rv.forward.numPositions
    requires BetaRight(rv, w, next[..], frame + 1) && alpha >= 0.0 && total > 0.0
    ensures sum == Beta(rv, w, frame)(i)
    ensures |terms| == rv.forward.degree
    ensures forall c: nat | c < |terms| ::
              terms[c] == Recover(rv, w, frame, Beta(rv, w, frame + 1), i, c) && terms[c] >= 0.0
    ensures CellVisits(rv.stepsOutOf(frame, i), visits, frame, i, rv.forward.degree, alpha, total, terms)
  {
    hide Times, SumOf, CellVisits, Weighing.Lawful, Recover, Trellis.InBand, BetaRight;
    var steps := rv.stepsOutOf(frame, i);
    var found := BackwardTerms(rv, w, next, frame, i);
    terms := found;
    var pivot, shares;
    sum, pivot, shares := LogSum(found);
    TermsAddToBeta(rv, w, found, frame, i);
    visits := [];
    var cell := alpha * pivot / total;
    if cell == 0.0 {
      NoFactor(alpha, pivot, total);
      NoVisits(steps, frame, i, |steps|, alpha, pivot, total, found, shares);
      return;
    }
    SomeFactor(alpha, pivot, total);
    NoVisits(steps, frame, i, 0, alpha, pivot, total, found, shares);
    var c := 0;
    while c < |shares|
      invariant 0 <= c <= |shares| == |steps| == |terms|
      invariant CellVisits(steps, visits, frame, i, c, alpha, total, terms)
    {
      if shares[c] != 0.0 {
        MassFormed(alpha, pivot, shares[c], total, terms[c]);
        VisitOneMore(steps, visits, frame, i, c, alpha, total, terms, Times(cell, shares[c]));
        visits := visits + [Visit(frame, i + steps[c].advance, c, Times(cell, shares[c]))];
      } else {
        VisitNothing(steps, visits, frame, i, c, alpha, total, terms);
      }
      c := c + 1;
    }
  }

  lemma NoFactor(alpha: real, pivot: real, total: real)
    requires total > 0.0 && alpha * pivot / total == 0.0
    ensures Times(alpha, pivot) == 0.0
  {
    assert alpha * pivot / total * total == alpha * pivot;
  }

  lemma SomeFactor(alpha: real, pivot: real, total: real)
    requires total > 0.0 && alpha * pivot / total != 0.0 && alpha >= 0.0 && pivot >= 0.0
    ensures alpha > 0.0 && pivot > 0.0
  {
    assert alpha == 0.0 || pivot == 0.0 ==> alpha * pivot == 0.0;
  }

  // -- One row ------------------------------------------------------------------------------

  /** What has been visited once every later frame is done and this one is done up
      to cell `i`. */
  ghost predicate VisitedTo(rv: Reversible, w: Weighing, visits: seq<Visit>, frame: nat, i: nat)
    requires rv.Lawful() && frame < rv.forward.numFrames
  {
    && (forall v | v in visits :: RightVisit(rv, w, v, frame, i))
    && NoRepeats(visits)
    && (forall f: nat | frame < f < rv.forward.numFrames :: MassIn(visits, f) == 1.0)
    && Times(MassIn(visits, frame), Total(rv.forward, w)) == Sum(i, Paired(Mass(rv.forward, w, Everything, frame), Beta(rv, w, frame)))
    && (forall f: nat, position: nat, code: nat | Due(rv, w, f, position, code, frame, i) :: Mentions(visits, f, position, code))
  }

  ghost predicate RightVisit(rv: Reversible, w: Weighing, v: Visit, frame: nat, i: nat)
    requires rv.Lawful() && frame < rv.forward.numFrames
  {
    && IsShare(rv.forward, w, v) && v.frame >= frame
    && (v.frame == frame ==> Origin(rv.forward, frame, v.position, v.code) < i)
  }

  /** A transition that carries probability and whose turn has come. */
  ghost predicate Due(rv: Reversible, w: Weighing, f: nat, position: nat, code: nat, frame: nat, i: nat)
    requires rv.Lawful() && frame < rv.forward.numFrames
  {
    && Carrying(rv.forward, w, f, position, code)
    && (f > frame || (f == frame && Origin(rv.forward, frame, position, code) < i))
  }

  ghost predicate Carrying(tr: Trellis, w: Weighing, f: nat, position: nat, code: nat)
    requires tr.Lawful()
  {
    f < tr.numFrames && position <= tr.numPositions && code < tr.degree && Using(tr, w, f, Hop(code, position)) > 0.0
  }

  // A carrying transition leaves its origin by a step that is really there.
  lemma CarryingStep(rv: Reversible, w: Weighing, frame: nat, position: nat, code: nat)
    requires rv.Lawful() && w.Lawful() && Carrying(rv.forward, w, frame, position, code)
    ensures var step := rv.forward.stepsInto(frame, position)[code];
            var i := Origin(rv.forward, frame, position, code);
            && step.cost.Finite? && i == position - step.advance && i <= rv.forward.numPositions
            && rv.stepsOutOf(frame, i)[code] == step
            && Using(rv.forward, w, frame, Hop(code, position))
               == Times(Mass(rv.forward, w, Everything, frame)(i), Recover(rv, w, frame, Beta(rv, w, frame + 1), i, code))
            && Beta(rv, w, frame + 1)(position) != 0.0 && Mass(rv.forward, w, Everything, frame)(i) != 0.0
  {
    hide Mass, Beta, Recover, Weighing.Lawful;
    TransitionMass(rv, w, frame, Hop(code, position));
    var step := rv.forward.stepsInto(frame, position)[code];
    var table := Mass(rv.forward, w, Everything, frame);
    TimesPlus(0.0, 0.0, Beta(rv, w, frame + 1)(position));
    TimesSplit(Carry(rv.forward, w, frame, table, position, code), 0.0, 0.0);
    if step.cost.Finite? {
      assert rv.ArrivesAsLeaves(frame, position, code);
      TimesPlus(0.0, 0.0, w.of(step.cost));
      TermIsUse(rv, w, frame, position - step.advance, code);
    }
  }

  lemma NothingDueBelow(rv: Reversible, w: Weighing, frame: nat, position: nat, code: nat)
    requires rv.Lawful() && w.Lawful() && frame < rv.forward.numFrames && Carrying(rv.forward, w, frame, position, code)
    ensures Origin(rv.forward, frame, position, code) >= rv.forward.Lo(frame)
    ensures Origin(rv.forward, frame, position, code) <= rv.forward.Hi(frame)
  {
    hide Mass, Beta, Recover, Using, Weighing.Lawful;
    CarryingStep(rv, w, frame, position, code);
    var i := Origin(rv.forward, frame, position, code);
    var step := rv.forward.stepsInto(frame, position)[code];
    assert rv.forward.LawfulStep(step, position);
    if i < rv.forward.Lo(frame) {
      NextBelow(rv.forward, frame, i, step.advance);
      NothingCompletesBelowBand(rv, w, frame + 1, position);
    }
    if i > rv.forward.Hi(frame) {
      NoMassBeyondReach(rv.forward, w, frame, i);
    }
  }

  lemma CellIsRight(rv: Reversible, w: Weighing, v: Visit, frame: nat, i: nat, alpha: real, terms: seq<real>)
    requires rv.Lawful() && w.Lawful() && frame < rv.forward.numFrames && i <= rv.forward.numPositions
    requires |terms| == rv.forward.degree && alpha == Mass(rv.forward, w, Everything, frame)(i)
    requires forall c: nat | c < |terms| :: terms[c] == Recover(rv, w, frame, Beta(rv, w, frame + 1), i, c)
    requires CellVisit(rv.stepsOutOf(frame, i), v, frame, i, |terms|, alpha, Total(rv.forward, w), terms)
    ensures RightVisit(rv, w, v, frame, i + 1) && Origin(rv.forward, frame, v.position, v.code) == i
  {
    hide Mass, Beta, Times, Using, Weighing.Lawful;
    assert terms[v.code] == Recover(rv, w, frame, Beta(rv, w, frame + 1), i, v.code);
    assert rv.LeavesAsArrives(frame, i, v.code);
    TermIsUse(rv, w, frame, i, v.code);
  }

  lemma CellIsCovered(rv: Reversible, w: Weighing, visits: seq<Visit>, frame: nat, i: nat, position: nat, code: nat, alpha: real, terms: seq<real>)
    requires rv.Lawful() && w.Lawful() && frame < rv.forward.numFrames && i <= rv.forward.numPositions
    requires |terms| == rv.forward.degree && alpha == Mass(rv.forward, w, Everything, frame)(i)
    requires forall c: nat | c < |terms| :: terms[c] == Recover(rv, w, frame, Beta(rv, w, frame + 1), i, c)
    requires CellVisits(rv.stepsOutOf(frame, i), visits, frame, i, |terms|, alpha, Total(rv.forward, w), terms)
    requires Carrying(rv.forward, w, frame, position, code) && Origin(rv.forward, frame, position, code) == i
    ensures Mentions(visits, frame, position, code)
  {
    hide Mass, Beta, Times, Using, Recover, Weighing.Lawful;
    CarryingStep(rv, w, frame, position, code);
    assert terms[code] == Recover(rv, w, frame, Beta(rv, w, frame + 1), i, code);
    assert HasCode(visits, code);
    var k :| 0 <= k < |visits| && visits[k].code == code;
    assert CellVisit(rv.stepsOutOf(frame, i), visits[k], frame, i, |terms|, alpha, Total(rv.forward, w), terms);
    assert visits[k] in visits;
  }

  lemma MentionsMore(a: seq<Visit>, b: seq<Visit>, frame: nat, position: nat, code: nat)
    ensures Mentions(a, frame, position, code) || Mentions(b, frame, position, code) ==> Mentions(a + b, frame, position, code)
  {
    if Mentions(a, frame, position, code) {
      var v :| v in a && v.frame == frame && v.position == position && v.code == code;
      assert v in a + b;
    } else if Mentions(b, frame, position, code) {
      var v :| v in b && v.frame == frame && v.position == position && v.code == code;
      assert v in a + b;
    }
  }

  lemma NoRepeatsBoth(a: seq<Visit>, b: seq<Visit>)
    requires NoRepeats(a) && NoRepeats(b)
    requires forall u, v | u in a && v in b :: !SameTransition(u, v)
    ensures NoRepeats(a + b)
  {
    forall j, k | 0 <= j < k < |a + b| ensures !SameTransition((a + b)[j], (a + b)[k]) {
      if j < |a| <= k {
        assert a[j] in a && b[k - |a|] in b;
      }
    }
  }

  // Visiting one more cell of the row.
  lemma VisitCell(rv: Reversible, w: Weighing, visits: seq<Visit>, cell: seq<Visit>, frame: nat, i: nat, alpha: real, terms: seq<real>)
    requires rv.Lawful() && w.Lawful() && frame < rv.forward.numFrames && i <= rv.forward.numPositions
    requires VisitedTo(rv, w, visits, frame, i)
    requires |terms| == rv.forward.degree && alpha == Mass(rv.forward, w, Everything, frame)(i)
    requires forall c: nat | c < |terms| :: terms[c] == Recover(rv, w, frame, Beta(rv, w, frame + 1), i, c)
    requires CellVisits(rv.stepsOutOf(frame, i), cell, frame, i, |terms|, alpha, Total(rv.forward, w), terms)
    ensures VisitedTo(rv, w, visits + cell, frame, i + 1)
  {
    hide Mass, Beta, Times, Total, Recover, MassIn, SumOf, Mentions, NoRepeats, RightVisit, Due, Weighing.Lawful;
    forall v | v in visits + cell ensures RightVisit(rv, w, v, frame, i + 1) {
      if v in visits {
        RightStays(rv, w, v, frame, i);
      } else {
        CellIsRight(rv, w, v, frame, i, alpha, terms);
      }
    }
    CellsApart(rv, w, visits, cell, frame, i, alpha, terms);
    MassInBoth(visits, cell, frame);
    forall f: nat | frame < f < rv.forward.numFrames ensures MassIn(visits + cell, f) == 1.0 {
      MassInBoth(visits, cell, f);
      NoMassElsewhere(cell, f);
    }
    TermsAddToBeta(rv, w, terms, frame, i);
    assert terms[..|terms|] == terms;
    TimesPlus(MassIn(visits, frame), MassIn(cell, frame), Total(rv.forward, w));
    forall f: nat, position: nat, code: nat | Due(rv, w, f, position, code, frame, i + 1)
      ensures Mentions(visits + cell, f, position, code)
    {
      DueSplit(rv, w, f, position, code, frame, i);
      if !Due(rv, w, f, position, code, frame, i) {
        CellIsCovered(rv, w, cell, frame, i, position, code, alpha, terms);
      }
      MentionsMore(visits, cell, f, position, code);
    }
  }

  lemma RightStays(rv: Reversible, w: Weighing, v: Visit, frame: nat, i: nat)
    requires rv.Lawful() && frame < rv.forward.numFrames && RightVisit(rv, w, v, frame, i)
    ensures RightVisit(rv, w, v, frame, i + 1)
  {}

  lemma DueSplit(rv: Reversible, w: Weighing, f: nat, position: nat, code: nat, frame: nat, i: nat)
    requires rv.Lawful() && frame < rv.forward.numFrames && Due(rv, w, f, position, code, frame, i + 1)
    ensures Due(rv, w, f, position, code, frame, i)
         || (f == frame && Carrying(rv.forward, w, frame, position, code) && Origin(rv.forward, frame, position, code) == i)
  {}

  lemma CellsApart(rv: Reversible, w: Weighing, visits: seq<Visit>, cell: seq<Visit>, frame: nat, i: nat, alpha: real, terms: seq<real>)
    requires rv.Lawful() && w.Lawful() && frame < rv.forward.numFrames && i <= rv.forward.numPositions
    requires NoRepeats(visits) && forall v | v in visits :: RightVisit(rv, w, v, frame, i)
    requires |terms| == rv.forward.degree && alpha == Mass(rv.forward, w, Everything, frame)(i)
    requires forall c: nat | c < |terms| :: terms[c] == Recover(rv, w, frame, Beta(rv, w, frame + 1), i, c)
    requires CellVisits(rv.stepsOutOf(frame, i), cell, frame, i, |terms|, alpha, Total(rv.forward, w), terms)
    ensures NoRepeats(visits + cell)
  {
    hide Mass, Beta, Times, Total, Recover, MassIn, SumOf, HasCode, IsShare, Weighing.Lawful;
    forall u, v | u in visits && v in cell ensures !SameTransition(u, v) {
      CellIsRight(rv, w, v, frame, i, alpha, terms);
    }
    NoRepeatsBoth(visits, cell);
  }

  // -- The whole pass -----------------------------------------------------------------------

  /** Every frame from `frame` on has been visited in full. */
  ghost predicate AllVisited(rv: Reversible, w: Weighing, visits: seq<Visit>, frame: nat)
    requires rv.Lawful() && frame <= rv.forward.numFrames
  {
    && (forall v | v in visits :: IsShare(rv.forward, w, v) && v.frame >= frame)
    && NoRepeats(visits)
    && (forall f: nat | frame <= f < rv.forward.numFrames :: MassIn(visits, f) == 1.0)
    && (forall f: nat, position: nat, code: nat | f >= frame && Carrying(rv.forward, w, f, position, code) ::
          Mentions(visits, f, position, code))
  }

  lemma RowStart(rv: Reversible, w: Weighing, visits: seq<Visit>, frame: nat)
    requires rv.Lawful() && w.Lawful() && frame < rv.forward.numFrames && AllVisited(rv, w, visits, frame + 1)
    ensures VisitedTo(rv, w, visits, frame, rv.forward.Lo(frame))
  {
    hide Mass, Beta, Total, Times, Carrying, Mentions, NoRepeats, IsShare, Weighing.Lawful, Trellis.Lo;
    var lo := rv.forward.Lo(frame);
    NoMassElsewhere(visits, frame);
    var pairs := Paired(Mass(rv.forward, w, Everything, frame), Beta(rv, w, frame));
    forall i: nat | i < lo ensures pairs(i) == 0.0 {
      NothingCompletesBelowBand(rv, w, frame, i);
      TimesSplit(Mass(rv.forward, w, Everything, frame)(i), 0.0, 0.0);
    }
    SumZero(lo, pairs);
    TimesPlus(0.0, 0.0, Total(rv.forward, w));
    forall f: nat, position: nat, code: nat | Due(rv, w, f, position, code, frame, lo)
      ensures Mentions(visits, f, position, code)
    {
      if f == frame {
        NothingDueBelow(rv, w, frame, position, code);
      }
    }
  }

  lemma RowEnd(rv: Reversible, w: Weighing, visits: seq<Visit>, frame: nat, i: nat)
    requires rv.Lawful() && w.Lawful() && frame < rv.forward.numFrames && VisitedTo(rv, w, visits, frame, i)
    requires rv.forward.Hi(frame) < i <= rv.forward.numPositions + 1 && Total(rv.forward, w) > 0.0
    ensures AllVisited(rv, w, visits, frame)
  {
    hide Mass, Beta, Total, Times, Carrying, Mentions, NoRepeats, Weighing.Lawful, Trellis.Hi;
    var tr := rv.forward;
    var pairs := Paired(Mass(tr, w, Everything, frame), Beta(rv, w, frame));
    forall k: nat | i <= k < tr.numPositions + 1 ensures pairs(k) == 0.0 {
      NoMassBeyondReach(tr, w, frame, k);
      TimesPlus(0.0, 0.0, Beta(rv, w, frame)(k));
    }
    SumTail(i, tr.numPositions + 1, pairs);
    EveryFrameHoldsTotal(rv, w, frame);
    Unit(MassIn(visits, frame), Total(tr, w));
    forall f: nat, position: nat, code: nat | f >= frame && Carrying(tr, w, f, position, code)
      ensures Mentions(visits, f, position, code)
    {
      if f == frame {
        NothingDueBelow(rv, w, frame, position, code);
      }
      assert Due(rv, w, f, position, code, frame, i);
    }
  }

  lemma Unit(mass: real, total: real)
    requires Times(mass, total) == total && total > 0.0
    ensures mass == 1.0
  {
    assert (mass - 1.0) * total == 0.0;
  }

  method BackwardRow(rv: Reversible, w: Weighing, alpha: array<real>, next: array<real>, cur: array<real>,
                     frame: nat, total: real, before: seq<Visit>) returns (visits: seq<Visit>)
    requires rv.Lawful() && w.Lawful() && frame < rv.forward.numFrames
    requires PlaneUpTo(rv.forward, w, alpha[..], rv.forward.numFrames)
    requires cur != next && cur != alpha && cur.Length == rv.forward.numPositions + 1
    requires BetaRight(rv, w, next[..], frame + 1) && AllVisited(rv, w, before, frame + 1)
    requires total == Total(rv.forward, w) > 0.0
    modifies cur
    ensures BetaRight(rv, w, cur[..], frame) && AllVisited(rv, w, visits, frame)
  {
    hide Mass, Beta, Total, Recover, PlaneUpTo, AllVisited, VisitedTo, CellVisits, BetaRight, Weighing.Lawful, Trellis.Lo, Trellis.Hi;
    BandMoves(rv.forward, frame);
    var (lo, hi) := (rv.forward.Lo(frame), rv.forward.Hi(frame));
    visits := before;
    RowStart(rv, w, visits, frame);
    LoInRange(rv.forward, frame);
    var i := lo;
    while i <= hi
      invariant lo <= i && (i <= hi + 1 || i == lo)
      invariant cur.Length == rv.forward.numPositions + 1 && BetaSoFar(rv, w, cur[..], frame, i)
      invariant VisitedTo(rv, w, visits, frame, i)
    {
      var a := ReadAlpha(rv.forward, w, alpha, frame, i);
      var sum, cell;
      ghost var terms;
      sum, cell, terms := SolveCell(rv, w, next, frame, i, a, total);
      VisitCell(rv, w, visits, cell, frame, i, a, terms);
      visits := visits + cell;
      cur[i] := sum;
      i := i + 1;
    }
    RowEnd(rv, w, visits, frame, i);
    BetaRowDone(rv, w, cur[..], frame, i);
  }

  lemma LoInRange(tr: Trellis, frame: nat)
    ensures tr.Lo(frame) <= tr.numPositions && tr.Hi(frame) <= tr.numPositions
  {}

  ghost predicate BetaSoFar(rv: Reversible, w: Weighing, row: seq<real>, frame: nat, i: nat)
    requires rv.Lawful() && frame <= rv.forward.numFrames
  {
    forall k: nat | k < |row| && rv.forward.Lo(frame) <= k < i :: row[k] == Beta(rv, w, frame)(k)
  }

  lemma BetaRowDone(rv: Reversible, w: Weighing, row: seq<real>, frame: nat, i: nat)
    requires rv.Lawful() && frame <= rv.forward.numFrames && |row| == rv.forward.numPositions + 1
    requires BetaSoFar(rv, w, row, frame, i) && i > rv.forward.Hi(frame)
    ensures BetaRight(rv, w, row, frame)
  {}

  method ReadAlpha(tr: Trellis, w: Weighing, alpha: array<real>, frame: nat, i: nat) returns (a: real)
    requires tr.Lawful() && w.Lawful() && frame <= tr.numFrames && tr.Lo(frame) <= i <= tr.numPositions
    requires PlaneUpTo(tr, w, alpha[..], tr.numFrames)
    ensures a == Mass(tr, w, Everything, frame)(i) && a >= 0.0
  {
    hide Mass, Trellis.Lo, Weighing.Lawful;
    RowsFit(Width(tr), frame, tr.numFrames + 1);
    assert PlaneRow(tr, alpha[..], frame);
    ghost var row := RowOf(alpha[..], Width(tr), frame);
    assert RowRight(tr, w, row, frame);
    a := alpha[frame * Width(tr) + tr.Reach() + i];
    assert a == row[tr.Reach() + i];
    MassAtLeastZero(tr, w, frame, i);
  }

  lemma MassAtLeastZero(tr: Trellis, w: Weighing, frame: nat, i: nat)
    requires tr.Lawful() && w.Lawful() && frame <= tr.numFrames && i <= tr.numPositions
    ensures Mass(tr, w, Everything, frame)(i) >= 0.0
  {
    MassNonNegative(tr, w, PathsTo(tr, frame, i), Everything);
  }

  /** There is probability to spread exactly when some path completes. */
  lemma {:induction false} SomeMass(tr: Trellis, w: Weighing, paths: seq<seq<Hop>>)
    requires tr.Lawful() && w.Lawful()
    requires forall hops: seq<Hop> | hops in paths :: PathTo(tr, hops, PositionAfter(hops, |hops|))
    ensures MassOf(tr, w, paths, Everything) > 0.0 <==> paths != []
  {
    if |paths| > 0 {
      MassNonNegative(tr, w, paths[..|paths| - 1], Everything);
      assert paths[|paths| - 1] in paths;
      assert PathMass(tr, w, paths[|paths| - 1]) > 0.0;
    }
  }

  lemma TotalTellsCompletion(tr: Trellis, w: Weighing)
    requires tr.Lawful() && w.Lawful()
    ensures Total(tr, w) >= 0.0
    ensures Total(tr, w) > 0.0 <==> exists hops :: Complete(tr, hops)
  {
    hide PathMass, Weighing.Lawful;
    var paths := PathsTo(tr, tr.numFrames, tr.numPositions);
    MassNonNegative(tr, w, paths, Everything);
    EnumerationIsExact(tr, tr.numFrames, tr.numPositions);
    forall hops: seq<Hop> | hops in paths ensures PathTo(tr, hops, PositionAfter(hops, |hops|)) {
      EndIsPosition(tr, hops, tr.numPositions);
    }
    SomeMass(tr, w, paths);
    if paths != [] {
      assert paths[0] in paths;
      assert Complete(tr, paths[0]);
    }
    if hops :| Complete(tr, hops) {
      assert hops in paths;
    }
  }

  /** The total probability and every transition's share of it. */
  datatype Spread = Spread(total: real, visits: seq<Visit>)

  ghost predicate IsSpread(rv: Reversible, w: Weighing, s: Spread)
    requires rv.Lawful()
  {
    s.total == Total(rv.forward, w) > 0.0 && AllVisited(rv, w, s.visits, 0)
  }

  /** Forward-backward: `None` only when no path completes; otherwise the total
      over all complete paths, and every transition that carries any of it, once,
      with its share. Each frame's shares add up to one. */
  method Posteriors(rv: Reversible, w: Weighing) returns (r: Result<Option<Spread>, Error>)
    requires rv.Lawful() && w.Lawful()
    ensures r == Failure(BadDegree) <==> (rv.forward.degree == 0 || rv.forward.degree > 256)
    ensures r == Failure(TooLarge) <==>
              && 1 <= rv.forward.degree <= 256 && rv.forward.Lo(0) <= rv.forward.Hi(0)
              && (rv.forward.numFrames + 1) * Width(rv.forward) > Tracebacks.USIZE_MAX
    ensures r == Success(None) ==> forall hops :: !Complete(rv.forward, hops)
    ensures r.Success? && r.value.Some? ==> IsSpread(rv, w, r.value.value)
  {
    hide IsSpread, Width, Weighing.Lawful;
    var tr := rv.forward;
    if tr.degree == 0 || tr.degree > 256 {
      return Failure(BadDegree);
    }
    if tr.Lo(0) > tr.Hi(0) {
      forall hops ensures !Complete(tr, hops) {
        if Complete(tr, hops) {
          BandIsSound(tr, hops, 0);
        }
      }
      return Success(None);
    }
    if (tr.numFrames + 1) * Width(tr) > Tracebacks.USIZE_MAX {
      return Failure(TooLarge);
    }
    var spread := SpreadOut(rv, w);
    return Success(spread);
  }

  method SpreadOut(rv: Reversible, w: Weighing) returns (spread: Option<Spread>)
    requires rv.Lawful() && w.Lawful()
    ensures spread == None ==> forall hops :: !Complete(rv.forward, hops)
    ensures spread.Some? ==> IsSpread(rv, w, spread.value)
  {
    hide Mass, PlaneUpTo, AllVisited, Width, Weighing.Lawful, BetaRight;
    var tr := rv.forward;
    var alpha := Forward(tr, w);
    LastLo(tr);
    var total := ReadAlpha(tr, w, alpha, tr.numFrames, tr.numPositions);
    LastMass(tr, w);
    TotalTellsCompletion(tr, w);
    if total == 0.0 {
      return None;
    }
    var next := new real[tr.numPositions + 1](_ => 0.0);
    var cur := new real[tr.numPositions + 1](_ => 0.0);
    next[tr.numPositions] := 1.0;
    LastBeta(rv, w, next[..]);
    var visits := [];
    NothingVisited(rv, w);
    var t: nat := tr.numFrames;
    while t > 0
      invariant t <= tr.numFrames && cur != next && cur != alpha && next != alpha
      invariant fresh(cur) && fresh(next) && cur.Length == next.Length == tr.numPositions + 1
      invariant PlaneUpTo(tr, w, alpha[..], tr.numFrames)
      invariant BetaRight(rv, w, next[..], t) && AllVisited(rv, w, visits, t)
    {
      t := t - 1;
      visits := BackwardRow(rv, w, alpha, next, cur, t, total, visits);
      cur, next := next, cur;
    }
    return Some(Spread(total, visits));
  }

  lemma LastMass(tr: Trellis, w: Weighing)
    requires tr.Lawful()
    ensures Mass(tr, w, Everything, tr.numFrames)(tr.numPositions) == Total(tr, w)
  {}

  lemma LastBeta(rv: Reversible, w: Weighing, row: seq<real>)
    requires rv.Lawful() && |row| == rv.forward.numPositions + 1
    requires forall i | 0 <= i < |row| :: row[i] == if i == rv.forward.numPositions then 1.0 else 0.0
    ensures BetaRight(rv, w, row, rv.forward.numFrames)
  {}

  lemma NothingVisited(rv: Reversible, w: Weighing)
    requires rv.Lawful()
    ensures AllVisited(rv, w, [], rv.forward.numFrames)
  {}
}
