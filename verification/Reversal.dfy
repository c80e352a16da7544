/** The same transitions read backwards, and the algebra that makes a
    forward-backward exact: one step forward on one table is one step backward on
    the other. */
module Reversals {
  import opened Costs
  import opened Trellises
  import opened Sums
  import opened PathMasses

  /** A trellis with its transitions also listed by the cell they leave. */
  datatype Reversible = Reversible(forward: Trellis, stepsOutOf: (nat, nat) -> seq<Step>) {

    /** The two readings are one graph, and no code names two transitions out of
        one cell. */
    ghost predicate Lawful() {
      && forward.Lawful()
      && (forall frame: nat, position: nat | frame < forward.numFrames && position <= forward.numPositions ::
            |stepsOutOf(frame, position)| == forward.degree)
      && (forall frame: nat, position: nat, code: nat
            | frame < forward.numFrames && position <= forward.numPositions && code < forward.degree ::
            LeavesAsArrives(frame, position, code))
      && (forall frame: nat, position: nat, code: nat
            | frame < forward.numFrames && position <= forward.numPositions && code < forward.degree ::
            ArrivesAsLeaves(frame, position, code))
    }

    ghost predicate LeavesAsArrives(frame: nat, position: nat, code: nat)
      requires forward.Lawful() && frame < forward.numFrames && code < forward.degree
      requires |stepsOutOf(frame, position)| == forward.degree
    {
      var step := stepsOutOf(frame, position)[code];
      step.cost.Finite? ==>
        && position + step.advance <= forward.numPositions
        && forward.stepsInto(frame, position + step.advance)[code] == step
    }

    ghost predicate ArrivesAsLeaves(frame: nat, position: nat, code: nat)
      requires forward.Lawful() && frame < forward.numFrames && position <= forward.numPositions && code < forward.degree
    {
      var step := forward.stepsInto(frame, position)[code];
      step.cost.Finite? ==>
        && |stepsOutOf(frame, position - step.advance)| == forward.degree
        && stepsOutOf(frame, position - step.advance)[code] == step
    }
  }

  /** One code names at most one transition out of a cell. */
  ghost predicate Unambiguous(tr: Trellis)
    requires tr.Lawful()
  {
    forall frame: nat, code: nat, a: nat, b: nat
      | frame < tr.numFrames && code < tr.degree && a <= tr.numPositions && b <= tr.numPositions ::
      SameOrigin(tr, frame, code, a, b) ==> a == b
  }

  ghost predicate SameOrigin(tr: Trellis, frame: nat, code: nat, a: nat, b: nat)
    requires tr.Lawful() && frame < tr.numFrames && code < tr.degree && a <= tr.numPositions && b <= tr.numPositions
  {
    var (s, t) := (tr.stepsInto(frame, a)[code], tr.stepsInto(frame, b)[code]);
    s.cost.Finite? && t.cost.Finite? && a - s.advance == b - t.advance
  }

  /** Whether `step` leaves `position` under `code`, read off the cells it could
      reach. */
  ghost predicate Leaves(tr: Trellis, frame: nat, position: nat, code: nat, step: Step)
    requires tr.Lawful() && frame < tr.numFrames && code < tr.degree
  {
    && step.cost.Finite? && position + step.advance <= tr.numPositions
    && tr.stepsInto(frame, position + step.advance)[code] == step
  }

  /** The transitions leaving `position`, read off the ones entering the cells
      they could reach. */
  method DeriveStepsOutOf(tr: Trellis, frame: nat, position: nat) returns (out: seq<Step>)
    requires tr.Lawful() && Unambiguous(tr) && frame < tr.numFrames && position <= tr.numPositions
    ensures |out| == tr.degree
    ensures forall code | 0 <= code < tr.degree ::
              out[code].cost.Finite? ==> Leaves(tr, frame, position, code, out[code])
    ensures forall code, step | 0 <= code < tr.degree && Leaves(tr, frame, position, code, step) :: out[code] == step
  {
    out := seq(tr.degree, _ => ABSENT);
    var advance := 0;
    while advance <= tr.Reach() && position + advance <= tr.numPositions
      invariant 0 <= advance <= tr.Reach() + 1 && |out| == tr.degree
      invariant forall code | 0 <= code < tr.degree ::
                  out[code].cost.Finite? ==> Leaves(tr, frame, position, code, out[code])
      invariant forall code, step | 0 <= code < tr.degree && Leaves(tr, frame, position, code, step) && step.advance < advance ::
                  out[code] == step
    {
      out := DeriveFrom(tr, frame, position, advance, out);
      advance := advance + 1;
    }
    forall code, step | 0 <= code < tr.degree && Leaves(tr, frame, position, code, step) ensures out[code] == step {
      assert tr.LawfulStep(step, position + step.advance);
    }
  }

  method DeriveFrom(tr: Trellis, frame: nat, position: nat, advance: nat, before: seq<Step>) returns (out: seq<Step>)
    requires tr.Lawful() && Unambiguous(tr) && frame < tr.numFrames && position + advance <= tr.numPositions
    requires |before| == tr.degree
    requires forall code | 0 <= code < tr.degree ::
               before[code].cost.Finite? ==> Leaves(tr, frame, position, code, before[code])
    ensures |out| == tr.degree
    ensures forall code | 0 <= code < tr.degree ::
              out[code].cost.Finite? ==> Leaves(tr, frame, position, code, out[code])
    ensures forall code, step | 0 <= code < tr.degree && Leaves(tr, frame, position, code, step) ::
              (step.advance == advance ==> out[code] == step)
              && (step.advance < advance && before[code] == step ==> out[code] == step)
  {
    out := before;
    var to := position + advance;
    var steps := tr.stepsInto(frame, to);
    var c := 0;
    while c < |steps|
      invariant 0 <= c <= |steps| == tr.degree == |out|
      invariant forall code | 0 <= code < tr.degree ::
                  out[code].cost.Finite? ==> Leaves(tr, frame, position, code, out[code])
      invariant forall code | c <= code < tr.degree :: out[code] == before[code]
      invariant forall code | 0 <= code < c ::
                  out[code] == if steps[code].advance == advance && steps[code].cost.Finite? then steps[code] else before[code]
    {
      if steps[c].advance == advance && steps[c].cost.Finite? {
        out := out[c := steps[c]];
      }
      c := c + 1;
    }
    forall code, step | 0 <= code < tr.degree && Leaves(tr, frame, position, code, step) && step.advance < advance
      && before[code] == step ensures out[code] == step
    {
      if out[code] != before[code] {
        assert SameOrigin(tr, frame, code, position + step.advance, to);
      }
    }
  }

  /** The derived reading is lawful, so it can never disagree with the forward
      one. */
  lemma DerivedIsLawful(rv: Reversible)
    requires rv.forward.Lawful() && Unambiguous(rv.forward)
    requires forall frame: nat, position: nat | frame < rv.forward.numFrames && position <= rv.forward.numPositions ::
               && |rv.stepsOutOf(frame, position)| == rv.forward.degree
               && (forall code | 0 <= code < rv.forward.degree :: rv.stepsOutOf(frame, position)[code].cost.Finite? ==>
                     Leaves(rv.forward, frame, position, code, rv.stepsOutOf(frame, position)[code]))
               && (forall code, step | 0 <= code < rv.forward.degree && Leaves(rv.forward, frame, position, code, step) ::
                     rv.stepsOutOf(frame, position)[code] == step)
    ensures rv.Lawful()
  {
    forall frame: nat, position: nat, code: nat
      | frame < rv.forward.numFrames && position <= rv.forward.numPositions && code < rv.forward.degree
      ensures rv.ArrivesAsLeaves(frame, position, code)
    {
      var step := rv.forward.stepsInto(frame, position)[code];
      assert rv.forward.LawfulStep(step, position);
      if step.cost.Finite? {
        assert Leaves(rv.forward, frame, position - step.advance, code, step);
      }
    }
  }

  // -- One step backward ------------------------------------------------------------

  ghost function Recover(rv: Reversible, w: Weighing, frame: nat, table: nat -> real, position: nat, code: nat): real
    requires rv.Lawful() && frame < rv.forward.numFrames
  {
    if position <= rv.forward.numPositions && code < rv.forward.degree
       && rv.stepsOutOf(frame, position)[code].cost.Finite? then
      var step := rv.stepsOutOf(frame, position)[code];
      Times(table(position + step.advance), w.of(step.cost))
    else 0.0
  }

  ghost function Recovers(rv: Reversible, w: Weighing, frame: nat, table: nat -> real, position: nat): nat -> real
    requires rv.Lawful() && frame < rv.forward.numFrames
  {
    (code: nat) => Recover(rv, w, frame, table, position, code)
  }

  /** Everything that leaves each cell, weighed by what it leads to. */
  ghost function Pull(rv: Reversible, w: Weighing, frame: nat, table: nat -> real): nat -> real
    requires rv.Lawful() && frame < rv.forward.numFrames
  {
    (position: nat) => Sum(rv.forward.degree, Recovers(rv, w, frame, table, position))
  }

  /** Two tables over the positions, multiplied cell by cell and added up. */
  ghost function Paired(a: nat -> real, b: nat -> real): nat -> real {
    (i: nat) => Times(a(i), b(i))
  }

  // The cells a code enters and the cells it leaves are in one-to-one
  // correspondence, so the two sums for one code have the same terms.
  lemma OneCodeAgrees(rv: Reversible, w: Weighing, frame: nat, a: nat -> real, b: nat -> real, code: nat)
    requires rv.Lawful() && frame < rv.forward.numFrames && code < rv.forward.degree
    ensures Sum(rv.forward.numPositions + 1, (q: nat) => Times(Carry(rv.forward, w, frame, a, q, code), b(q)))
         == Sum(rv.forward.numPositions + 1, (i: nat) => Times(a(i), Recover(rv, w, frame, b, i, code)))
  {
    var tr := rv.forward;
    var n := tr.numPositions + 1;
    var f: nat -> real := (q: nat) => Times(Carry(tr, w, frame, a, q, code), b(q));
    var g: nat -> real := (i: nat) => Times(a(i), Recover(rv, w, frame, b, i, code));
    var to: nat -> nat := (q: nat) => Origin(tr, frame, q, code);
    var back: nat -> nat := (i: nat) => Target(rv, frame, i, code);
    forall q: nat | q < n && f(q) != 0.0 ensures to(q) < n && back(to(q)) == q && g(to(q)) == f(q) {
      Arrival(rv, w, frame, a, b, q, code);
    }
    forall i: nat | i < n && g(i) != 0.0 ensures back(i) < n && to(back(i)) == i && f(back(i)) == g(i) {
      Departure(rv, w, frame, a, b, i, code);
    }
    SumReindex(n, f, g, to, back);
    SumSame(n, f, (q: nat) => Times(Carry(tr, w, frame, a, q, code), b(q)));
    SumSame(n, g, (i: nat) => Times(a(i), Recover(rv, w, frame, b, i, code)));
  }

  ghost function Origin(tr: Trellis, frame: nat, position: nat, code: nat): nat
    requires tr.Lawful() && frame < tr.numFrames && code < tr.degree
  {
    if position <= tr.numPositions && tr.stepsInto(frame, position)[code].cost.Finite?
    then position - tr.stepsInto(frame, position)[code].advance else 0
  }

  ghost function Target(rv: Reversible, frame: nat, position: nat, code: nat): nat
    requires rv.Lawful() && frame < rv.forward.numFrames && code < rv.forward.degree
  {
    if position <= rv.forward.numPositions && rv.stepsOutOf(frame, position)[code].cost.Finite?
    then position + rv.stepsOutOf(frame, position)[code].advance else 0
  }

  lemma Arrival(rv: Reversible, w: Weighing, frame: nat, a: nat -> real, b: nat -> real, q: nat, code: nat)
    requires rv.Lawful() && frame < rv.forward.numFrames && code < rv.forward.degree && q <= rv.forward.numPositions
    requires Times(Carry(rv.forward, w, frame, a, q, code), b(q)) != 0.0
    ensures var i := Origin(rv.forward, frame, q, code);
            && i <= rv.forward.numPositions && Target(rv, frame, i, code) == q
            && Times(a(i), Recover(rv, w, frame, b, i, code)) == Times(Carry(rv.forward, w, frame, a, q, code), b(q))
  {
    var step := rv.forward.stepsInto(frame, q)[code];
    if step.cost.Finite? {
      assert rv.ArrivesAsLeaves(frame, q, code);
      Regroup(a(q - step.advance), w.of(step.cost), b(q));
    }
  }

  lemma Departure(rv: Reversible, w: Weighing, frame: nat, a: nat -> real, b: nat -> real, i: nat, code: nat)
    requires rv.Lawful() && frame < rv.forward.numFrames && code < rv.forward.degree && i <= rv.forward.numPositions
    requires Times(a(i), Recover(rv, w, frame, b, i, code)) != 0.0
    ensures var q := Target(rv, frame, i, code);
            && q <= rv.forward.numPositions && Origin(rv.forward, frame, q, code) == i
            && Times(Carry(rv.forward, w, frame, a, q, code), b(q)) == Times(a(i), Recover(rv, w, frame, b, i, code))
  {
    var step := rv.stepsOutOf(frame, i)[code];
    if step.cost.Finite? {
      assert rv.LeavesAsArrives(frame, i, code);
      Regroup(a(i), w.of(step.cost), b(i + step.advance));
    }
  }

  lemma Regroup(a: real, w: real, b: real)
    ensures Times(Times(a, w), b) == Times(a, Times(b, w))
  {}

  lemma {:induction false} TimesSum(n: nat, f: nat -> real, c: real)
    ensures Times(Sum(n, f), c) == Sum(n, (i: nat) => Times(f(i), c))
    ensures Times(c, Sum(n, f)) == Sum(n, (i: nat) => Times(c, f(i)))
  {
    if n > 0 {
      TimesSum(n - 1, f, c);
    }
  }

  ghost function InTable(rv: Reversible, w: Weighing, frame: nat, a: nat -> real, b: nat -> real): (nat, nat) -> real
    requires rv.Lawful() && frame < rv.forward.numFrames
  {
    (q: nat, code: nat) => Times(Carry(rv.forward, w, frame, a, q, code), b(q))
  }

  ghost function OutTable(rv: Reversible, w: Weighing, frame: nat, a: nat -> real, b: nat -> real): (nat, nat) -> real
    requires rv.Lawful() && frame < rv.forward.numFrames
  {
    (i: nat, code: nat) => Times(a(i), Recover(rv, w, frame, b, i, code))
  }

  /** Pushing one table forward and pairing it with another is pairing the first
      with the other pulled backward: the two passes add up the same
      transitions. */
  lemma PushIsPull(rv: Reversible, w: Weighing, frame: nat, a: nat -> real, b: nat -> real)
    requires rv.Lawful() && frame < rv.forward.numFrames
    ensures var n := rv.forward.numPositions + 1;
            Sum(n, Paired(Push(rv.forward, w, frame, a), b)) == Sum(n, Paired(a, Pull(rv, w, frame, b)))
  {
    var tr := rv.forward;
    var (n, m) := (tr.numPositions + 1, tr.degree);
    var (f, g) := (InTable(rv, w, frame, a, b), OutTable(rv, w, frame, a, b));
    forall q: nat | q < n ensures Paired(Push(tr, w, frame, a), b)(q) == Row(m, f)(q) {
      TimesSum(m, Carries(tr, w, frame, a, q), b(q));
      SumSame(m, (i: nat) => Times(Carries(tr, w, frame, a, q)(i), b(q)), (j: nat) => f(q, j));
    }
    forall i: nat | i < n ensures Paired(a, Pull(rv, w, frame, b))(i) == Row(m, g)(i) {
      TimesSum(m, Recovers(rv, w, frame, b, i), a(i));
      SumSame(m, (j: nat) => Times(a(i), Recovers(rv, w, frame, b, i)(j)), (j: nat) => g(i, j));
    }
    forall code: nat | code < m ensures Column(n, f)(code) == Column(n, g)(code) {
      OneCodeAgrees(rv, w, frame, a, b, code);
      SumSame(n, (i: nat) => f(i, code), (q: nat) => Times(Carry(tr, w, frame, a, q, code), b(q)));
      SumSame(n, (i: nat) => g(i, code), (i: nat) => Times(a(i), Recover(rv, w, frame, b, i, code)));
    }
    SumSame(n, Paired(Push(tr, w, frame, a), b), Row(m, f));
    SumSame(n, Paired(a, Pull(rv, w, frame, b)), Row(m, g));
    SumSwap(n, m, f);
    SumSwap(n, m, g);
    SumSame(m, Column(n, f), Column(n, g));
  }
}
