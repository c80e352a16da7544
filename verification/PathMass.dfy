/** The probability carried by paths of a trellis: what a forward-backward is a
    fast way of adding up. Paths are enumerated here, one by one. */
module PathMasses {
  import opened Costs
  import opened Trellises
  import opened Sums

  /** Turns costs into probabilities: any function with the exponential's law,
      such as `e^-cost`. */
  datatype Weighing = Weighing(of: Cost -> real) {
    ghost predicate Lawful() {
      && of(Infinite) == 0.0
      && of(ZERO) == 1.0
      && (forall c: Cost :: c.Finite? ==> of(c) > 0.0)
      && (forall a: Cost, b: Cost :: of(a.Plus(b)) == of(a) * of(b))
    }
  }

  /** The probability of one path. */
  ghost function PathMass(tr: Trellis, w: Weighing, hops: seq<Hop>): real
    requires tr.Lawful()
  {
    var position := PositionAfter(hops, |hops|);
    if PathTo(tr, hops, position) then w.of(Finite(CostOf(tr, hops, position))) else 0.0
  }

  /** Every path, or only those taking a given transition in a given frame. */
  datatype Filter = Everything | Taking(frame: nat, hop: Hop) {
    ghost predicate Keeps(hops: seq<Hop>) {
      Taking? ==> frame < |hops| && hops[frame] == hop
    }
  }

  ghost function MassOf(tr: Trellis, w: Weighing, paths: seq<seq<Hop>>, filter: Filter): real
    requires tr.Lawful()
  {
    if |paths| == 0 then 0.0
    else
      var last := paths[|paths| - 1];
      MassOf(tr, w, paths[..|paths| - 1], filter) + if filter.Keeps(last) then PathMass(tr, w, last) else 0.0
  }

  /** Every path to a cell, each listed once: those arriving by code 0, then by
      code 1, and so on. */
  ghost function PathsTo(tr: Trellis, frame: nat, position: nat): seq<seq<Hop>>
    requires tr.Lawful() && frame <= tr.numFrames && position <= tr.numPositions
    decreases frame, tr.degree + 1
  {
    if frame == 0 then (if position == 0 then [[]] else [])
    else PathsVia(tr, frame, position, tr.degree)
  }

  ghost function PathsVia(tr: Trellis, frame: nat, position: nat, codes: nat): seq<seq<Hop>>
    requires tr.Lawful() && 0 < frame <= tr.numFrames && position <= tr.numPositions && codes <= tr.degree
    decreases frame, codes
  {
    if codes == 0 then []
    else PathsVia(tr, frame, position, codes - 1) + PathsBy(tr, frame, position, codes - 1)
  }

  ghost function PathsBy(tr: Trellis, frame: nat, position: nat, code: nat): seq<seq<Hop>>
    requires tr.Lawful() && 0 < frame <= tr.numFrames && position <= tr.numPositions && code < tr.degree
    decreases frame, code
  {
    var step := tr.stepsInto(frame - 1, position)[code];
    if step.cost.Infinite? then []
    else Extended(PathsTo(tr, frame - 1, position - step.advance), Hop(code, position))
  }

  ghost function Extended(paths: seq<seq<Hop>>, hop: Hop): (longer: seq<seq<Hop>>)
    ensures |longer| == |paths|
    ensures forall i | 0 <= i < |paths| :: longer[i] == paths[i] + [hop]
  {
    seq(|paths|, i requires 0 <= i < |paths| => paths[i] + [hop])
  }

  // -- The enumeration is right ---------------------------------------------------

  ghost predicate Distinct(paths: seq<seq<Hop>>) {
    forall i, j | 0 <= i < j < |paths| :: paths[i] != paths[j]
  }

  lemma ExtendedMembers(paths: seq<seq<Hop>>, hop: Hop, hops: seq<Hop>)
    ensures hops in Extended(paths, hop) <==> |hops| > 0 && hops[|hops| - 1] == hop && hops[..|hops| - 1] in paths
  {
    var longer := Extended(paths, hop);
    if hops in longer {
      var i :| 0 <= i < |longer| && longer[i] == hops;
      assert hops[..|hops| - 1] == paths[i];
    }
    if |hops| > 0 && hops[|hops| - 1] == hop && hops[..|hops| - 1] in paths {
      var i :| 0 <= i < |paths| && paths[i] == hops[..|hops| - 1];
      assert longer[i] == hops;
    }
  }

  lemma ExtendedDistinct(paths: seq<seq<Hop>>, hop: Hop)
    requires Distinct(paths)
    ensures Distinct(Extended(paths, hop))
  {
    var longer := Extended(paths, hop);
    forall i, j | 0 <= i < j < |longer| ensures longer[i] != longer[j] {
      assert longer[i][..|paths[i]|] == paths[i];
      assert longer[j][..|paths[j]|] == paths[j];
    }
  }

  lemma DistinctBoth(a: seq<seq<Hop>>, b: seq<seq<Hop>>)
    requires Distinct(a) && Distinct(b) && forall hops: seq<Hop> | hops in a :: hops !in b
    ensures Distinct(a + b)
  {
    forall i, j | 0 <= i < j < |a + b| ensures (a + b)[i] != (a + b)[j] {
      if i < |a| <= j {
        assert a[i] in a;
        assert b[j - |a|] in b;
      }
    }
  }

  lemma LastHop(tr: Trellis, hops: seq<Hop>, frame: nat, position: nat, code: nat)
    requires tr.Lawful() && |hops| == frame && 0 < frame <= tr.numFrames && position <= tr.numPositions && code < tr.degree
    ensures var step := tr.stepsInto(frame - 1, position)[code];
            PathTo(tr, hops, position) && hops[frame - 1].code == code
            <==> step.cost.Finite? && hops[frame - 1] == Hop(code, position) && PathTo(tr, hops[..frame - 1], position - step.advance)
  {}

  /** The enumeration lists every path to this cell exactly once and nothing
      else. */
  ghost predicate Lists(tr: Trellis, frame: nat, position: nat)
    requires tr.Lawful() && frame <= tr.numFrames && position <= tr.numPositions
  {
    && Distinct(PathsTo(tr, frame, position))
    && forall hops: seq<Hop> :: hops in PathsTo(tr, frame, position) <==> |hops| == frame && PathTo(tr, hops, position)
  }

  ghost predicate ListsAll(tr: Trellis, frame: nat)
    requires tr.Lawful() && frame <= tr.numFrames
  {
    forall position: nat | position <= tr.numPositions :: Lists(tr, frame, position)
  }

  lemma ByIsExact(tr: Trellis, frame: nat, position: nat, code: nat, hops: seq<Hop>)
    requires tr.Lawful() && frame < tr.numFrames && position <= tr.numPositions && code < tr.degree
    requires ListsAll(tr, frame)
    ensures hops in PathsBy(tr, frame + 1, position, code)
       <==> |hops| == frame + 1 && PathTo(tr, hops, position) && hops[frame].code == code
  {
    hide PathTo, PathsTo;
    var step := tr.stepsInto(frame, position)[code];
    if |hops| == frame + 1 {
      LastHop(tr, hops, frame + 1, position, code);
    }
    if step.cost.Finite? {
      var from := position - step.advance;
      assert Lists(tr, frame, from);
      ExtendedMembers(PathsTo(tr, frame, from), Hop(code, position), hops);
      if |hops| > 0 {
        assert hops[..|hops| - 1] in PathsTo(tr, frame, from) <==> |hops| == frame + 1 && PathTo(tr, hops[..|hops| - 1], from);
      }
    }
  }

  lemma {:induction false} ViaIsExact(tr: Trellis, frame: nat, position: nat, codes: nat, hops: seq<Hop>)
    requires tr.Lawful() && frame < tr.numFrames && position <= tr.numPositions && codes <= tr.degree
    requires ListsAll(tr, frame)
    ensures hops in PathsVia(tr, frame + 1, position, codes)
       <==> |hops| == frame + 1 && PathTo(tr, hops, position) && hops[frame].code < codes
    decreases codes
  {
    hide PathTo, PathsBy, ListsAll;
    if codes > 0 {
      ViaIsExact(tr, frame, position, codes - 1, hops);
      ByIsExact(tr, frame, position, codes - 1, hops);
    }
  }

  lemma ByIsDistinct(tr: Trellis, frame: nat, position: nat, code: nat)
    requires tr.Lawful() && frame < tr.numFrames && position <= tr.numPositions && code < tr.degree
    requires ListsAll(tr, frame)
    ensures Distinct(PathsBy(tr, frame + 1, position, code))
  {
    var step := tr.stepsInto(frame, position)[code];
    if step.cost.Finite? {
      assert Lists(tr, frame, position - step.advance);
      ExtendedDistinct(PathsTo(tr, frame, position - step.advance), Hop(code, position));
    }
  }

  lemma {:induction false} ViaIsDistinct(tr: Trellis, frame: nat, position: nat, codes: nat)
    requires tr.Lawful() && frame < tr.numFrames && position <= tr.numPositions && codes <= tr.degree
    requires ListsAll(tr, frame)
    ensures Distinct(PathsVia(tr, frame + 1, position, codes))
    decreases codes
  {
    if codes > 0 {
      hide PathTo, PathsBy, Distinct, ListsAll;
      ViaIsDistinct(tr, frame, position, codes - 1);
      ByIsDistinct(tr, frame, position, codes - 1);
      var (before, added) := (PathsVia(tr, frame + 1, position, codes - 1), PathsBy(tr, frame + 1, position, codes - 1));
      forall hops: seq<Hop> | hops in before ensures hops !in added {
        ViaIsExact(tr, frame, position, codes - 1, hops);
        ByIsExact(tr, frame, position, codes - 1, hops);
      }
      DistinctBoth(before, added);
    }
  }

  lemma {:induction false} EnumerationIsExact(tr: Trellis, frame: nat, position: nat)
    requires tr.Lawful() && frame <= tr.numFrames && position <= tr.numPositions
    ensures Lists(tr, frame, position)
    decreases frame
  {
    if frame > 0 {
      var earlier := frame - 1;
      forall from: nat | from <= tr.numPositions ensures Lists(tr, earlier, from) {
        EnumerationIsExact(tr, earlier, from);
      }
      ViaIsDistinct(tr, frame - 1, position, tr.degree);
      forall hops: seq<Hop>
        ensures hops in PathsTo(tr, frame, position) <==> |hops| == frame && PathTo(tr, hops, position)
      {
        ViaIsExact(tr, frame - 1, position, tr.degree, hops);
      }
    }
  }

  // -- Adding the enumeration up, one frame at a time -----------------------------

  lemma {:induction false} MassOfBoth(tr: Trellis, w: Weighing, a: seq<seq<Hop>>, b: seq<seq<Hop>>, filter: Filter)
    requires tr.Lawful()
    ensures MassOf(tr, w, a + b, filter) == MassOf(tr, w, a, filter) + MassOf(tr, w, b, filter)
    decreases |b|
  {
    if |b| == 0 {
      assert a + b == a;
    } else {
      MassOfBoth(tr, w, a, b[..|b| - 1], filter);
      assert (a + b)[..|a + b| - 1] == a + b[..|b| - 1];
    }
  }

  lemma LongerPathMass(tr: Trellis, w: Weighing, hops: seq<Hop>, from: nat, hop: Hop)
    requires tr.Lawful() && w.Lawful() && PathTo(tr, hops, from) && |hops| < tr.numFrames
    requires hop.position <= tr.numPositions && hop.code < tr.degree
    requires var step := tr.stepsInto(|hops|, hop.position)[hop.code];
             step.cost.Finite? && from == hop.position - step.advance
    ensures PathMass(tr, w, hops + [hop])
         == Times(PathMass(tr, w, hops), w.of(tr.stepsInto(|hops|, hop.position)[hop.code].cost))
  {
    var longer := hops + [hop];
    var step := tr.stepsInto(|hops|, hop.position)[hop.code];
    assert longer[..|hops|] == hops;
    EndIsPosition(tr, hops, from);
    assert PathTo(tr, longer, hop.position);
    var cost := Finite(CostOf(tr, hops, from));
    assert Finite(CostOf(tr, longer, hop.position)) == cost.Plus(step.cost);
    assert w.of(cost.Plus(step.cost)) == w.of(cost) * w.of(step.cost);
  }

  /** What one code carries into a cell from a table of what the cells before it
      hold. */
  ghost function Carry(tr: Trellis, w: Weighing, frame: nat, table: nat -> real, position: nat, code: nat): real
    requires tr.Lawful() && frame < tr.numFrames
  {
    if position <= tr.numPositions && code < tr.degree && tr.stepsInto(frame, position)[code].cost.Finite? then
      var step := tr.stepsInto(frame, position)[code];
      Times(table(position - step.advance), w.of(step.cost))
    else 0.0
  }

  ghost function Carries(tr: Trellis, w: Weighing, frame: nat, table: nat -> real, position: nat): nat -> real
    requires tr.Lawful() && frame < tr.numFrames
  {
    (code: nat) => Carry(tr, w, frame, table, position, code)
  }

  /** One forward step: everything that enters each cell. */
  ghost function Push(tr: Trellis, w: Weighing, frame: nat, table: nat -> real): nat -> real
    requires tr.Lawful() && frame < tr.numFrames
  {
    (position: nat) => Sum(tr.degree, Carries(tr, w, frame, table, position))
  }

  /** The mass of the kept paths to each cell after `frame` frames. */
  ghost function Mass(tr: Trellis, w: Weighing, filter: Filter, frame: nat): nat -> real
    requires tr.Lawful() && frame <= tr.numFrames
  {
    (position: nat) => if position <= tr.numPositions then MassOf(tr, w, PathsTo(tr, frame, position), filter) else 0.0
  }

  // Extending a path by one hop scales its mass by that hop's; whether it is
  // kept changes only in the filtered frame.
  lemma {:induction false} ExtendedMass(tr: Trellis, w: Weighing, paths: seq<seq<Hop>>, frame: nat, from: nat, hop: Hop, filter: Filter)
    requires tr.Lawful() && w.Lawful() && frame < tr.numFrames
    requires hop.position <= tr.numPositions && hop.code < tr.degree
    requires var step := tr.stepsInto(frame, hop.position)[hop.code];
             step.cost.Finite? && from == hop.position - step.advance
    requires forall hops: seq<Hop> | hops in paths :: |hops| == frame && PathTo(tr, hops, from)
    ensures MassOf(tr, w, Extended(paths, hop), filter)
         == Times(MassOf(tr, w, paths, Before(filter, frame, hop)), w.of(tr.stepsInto(frame, hop.position)[hop.code].cost))
    decreases |paths|
  {
    hide Times, PathMass, PathTo, MassOf, Before, Filter.Keeps, Weighing.Lawful;
    if |paths| == 0 {
      NoPathsNoMass(tr, w, filter);
      NoPathsNoMass(tr, w, Before(filter, frame, hop));
      TimesPlus(0.0, 0.0, w.of(tr.stepsInto(frame, hop.position)[hop.code].cost));
    } else {
      var front := paths[..|paths| - 1];
      var last := paths[|paths| - 1];
      ExtendedMass(tr, w, front, frame, from, hop, filter);
      assert last in paths;
      LongerPathMass(tr, w, last, from, hop);
      ExtendedFront(paths, hop);
      LastOfMass(tr, w, paths, Before(filter, frame, hop));
      LastOfMass(tr, w, Extended(paths, hop), filter);
      KeepsExtended(filter, frame, last, hop);
      TimesPlus(MassOf(tr, w, front, Before(filter, frame, hop)), PathMass(tr, w, last),
                 w.of(tr.stepsInto(frame, hop.position)[hop.code].cost));
    }
  }

  lemma NoPathsNoMass(tr: Trellis, w: Weighing, filter: Filter)
    requires tr.Lawful()
    ensures MassOf(tr, w, [], filter) == 0.0
  {}

  /** Multiplication, named so that a proof can leave it alone. */
  function Times(a: real, b: real): real {
    a * b
  }

  lemma TimesPlus(a: real, b: real, c: real)
    ensures Times(a + b, c) == Times(a, c) + Times(b, c)
    ensures Times(0.0, c) == 0.0
  {}

  lemma ExtendedFront(paths: seq<seq<Hop>>, hop: Hop)
    requires |paths| > 0
    ensures var longer := Extended(paths, hop);
            longer[..|longer| - 1] == Extended(paths[..|paths| - 1], hop)
            && longer[|longer| - 1] == paths[|paths| - 1] + [hop]
  {}

  lemma LastOfMass(tr: Trellis, w: Weighing, paths: seq<seq<Hop>>, filter: Filter)
    requires tr.Lawful() && |paths| > 0
    ensures var last := paths[|paths| - 1];
            MassOf(tr, w, paths, filter)
            == MassOf(tr, w, paths[..|paths| - 1], filter) + if filter.Keeps(last) then PathMass(tr, w, last) else 0.0
  {}

  /** What a filter asks of a path before `hop` is taken in `frame`. */
  ghost function Before(filter: Filter, frame: nat, hop: Hop): Filter {
    if filter.Taking? && filter.frame == frame && filter.hop == hop then Everything else filter
  }

  lemma KeepsExtended(filter: Filter, frame: nat, hops: seq<Hop>, hop: Hop)
    requires |hops| == frame
    ensures filter.Keeps(hops + [hop]) <==> Before(filter, frame, hop).Keeps(hops)
  {}

  // What the paths arriving by one code carry.
  lemma ByMass(tr: Trellis, w: Weighing, frame: nat, position: nat, code: nat, filter: Filter)
    requires tr.Lawful() && w.Lawful() && frame < tr.numFrames && position <= tr.numPositions && code < tr.degree
    ensures MassOf(tr, w, PathsBy(tr, frame + 1, position, code), filter)
         == Carry(tr, w, frame, Mass(tr, w, Before(filter, frame, Hop(code, position)), frame), position, code)
  {
    hide Times, PathTo, PathsTo, PathMass, MassOf, Before, Weighing.Lawful;
    var step := tr.stepsInto(frame, position)[code];
    if step.cost.Finite? {
      var from := position - step.advance;
      EnumerationIsExact(tr, frame, from);
      ExtendedMass(tr, w, PathsTo(tr, frame, from), frame, from, Hop(code, position), filter);
    } else {
      NoPathsNoMass(tr, w, filter);
    }
  }

  // The paths arriving by the first `codes` codes, when the filter has nothing to
  // say about this frame.
  lemma {:induction false} ViaMass(tr: Trellis, w: Weighing, frame: nat, position: nat, codes: nat, filter: Filter)
    requires tr.Lawful() && w.Lawful() && frame < tr.numFrames && position <= tr.numPositions && codes <= tr.degree
    requires filter.Taking? ==> filter.frame != frame
    ensures MassOf(tr, w, PathsVia(tr, frame + 1, position, codes), filter)
         == Sum(codes, Carries(tr, w, frame, Mass(tr, w, filter, frame), position))
    decreases codes
  {
    hide Times, PathsTo, PathsBy, Carry, Mass, MassOf, Weighing.Lawful;
    if codes == 0 {
      NoPathsNoMass(tr, w, filter);
    } else {
      ViaMass(tr, w, frame, position, codes - 1, filter);
      ByMass(tr, w, frame, position, codes - 1, filter);
      MassOfBoth(tr, w, PathsVia(tr, frame + 1, position, codes - 1), PathsBy(tr, frame + 1, position, codes - 1), filter);
    }
  }

  /** Path masses obey the forward recurrence. */
  lemma MassIsPushed(tr: Trellis, w: Weighing, filter: Filter, frame: nat, position: nat)
    requires tr.Lawful() && w.Lawful() && frame < tr.numFrames && position <= tr.numPositions
    requires filter.Taking? ==> filter.frame != frame
    ensures Mass(tr, w, filter, frame + 1)(position) == Push(tr, w, frame, Mass(tr, w, filter, frame))(position)
  {
    hide PathsVia, MassOf, Weighing.Lawful;
    ViaMass(tr, w, frame, position, tr.degree, filter);
  }

  // No path has taken a hop in a frame it has not come to.
  lemma {:induction false} NotTakenYet(tr: Trellis, w: Weighing, paths: seq<seq<Hop>>, filter: Filter)
    requires tr.Lawful() && filter.Taking?
    requires forall hops: seq<Hop> | hops in paths :: |hops| <= filter.frame
    ensures MassOf(tr, w, paths, filter) == 0.0
  {
    if |paths| > 0 {
      assert paths[|paths| - 1] in paths;
      NotTakenYet(tr, w, paths[..|paths| - 1], filter);
    }
  }

  lemma NothingCarried(tr: Trellis, w: Weighing, filter: Filter, position: nat, code: nat)
    requires tr.Lawful() && filter.Taking? && filter.frame < tr.numFrames
    requires position <= tr.numPositions && code < tr.degree
    ensures Carry(tr, w, filter.frame, Mass(tr, w, filter, filter.frame), position, code) == 0.0
  {
    hide PathsTo;
    var step := tr.stepsInto(filter.frame, position)[code];
    if step.cost.Finite? {
      var from := position - step.advance;
      EnumerationIsExact(tr, filter.frame, from);
      NotTakenYet(tr, w, PathsTo(tr, filter.frame, from), filter);
    }
  }

  // In the filtered frame itself only the filtered hop's paths remain.
  lemma {:induction false} ViaTaken(tr: Trellis, w: Weighing, position: nat, codes: nat, filter: Filter)
    requires tr.Lawful() && w.Lawful() && filter.Taking? && filter.frame < tr.numFrames
    requires position <= tr.numPositions && codes <= tr.degree
    ensures MassOf(tr, w, PathsVia(tr, filter.frame + 1, position, codes), filter)
         == if filter.hop.position == position && filter.hop.code < codes
            then Carry(tr, w, filter.frame, Mass(tr, w, Everything, filter.frame), position, filter.hop.code)
            else 0.0
    decreases codes
  {
    hide Times, PathsTo, PathsBy, Carry, Mass, MassOf, Weighing.Lawful;
    if codes == 0 {
      NoPathsNoMass(tr, w, filter);
    } else {
      var frame := filter.frame;
      ViaTaken(tr, w, position, codes - 1, filter);
      ByMass(tr, w, frame, position, codes - 1, filter);
      MassOfBoth(tr, w, PathsVia(tr, frame + 1, position, codes - 1), PathsBy(tr, frame + 1, position, codes - 1), filter);
      if filter.hop != Hop(codes - 1, position) {
        NothingCarried(tr, w, filter, position, codes - 1);
      }
    }
  }

  lemma {:induction false} MassNonNegative(tr: Trellis, w: Weighing, paths: seq<seq<Hop>>, filter: Filter)
    requires tr.Lawful() && w.Lawful()
    ensures MassOf(tr, w, paths, filter) >= 0.0
  {
    if |paths| > 0 {
      MassNonNegative(tr, w, paths[..|paths| - 1], filter);
      var last := paths[|paths| - 1];
      assert PathMass(tr, w, last) >= 0.0;
    }
  }

  lemma CarryNonNegative(tr: Trellis, w: Weighing, filter: Filter, frame: nat, position: nat, code: nat)
    requires tr.Lawful() && w.Lawful() && frame < tr.numFrames
    ensures Carry(tr, w, frame, Mass(tr, w, filter, frame), position, code) >= 0.0
  {
    hide Weighing.Lawful;
    if position <= tr.numPositions && code < tr.degree && tr.stepsInto(frame, position)[code].cost.Finite? {
      var step := tr.stepsInto(frame, position)[code];
      MassNonNegative(tr, w, PathsTo(tr, frame, position - step.advance), filter);
      WeighsNonNegative(w, step.cost);
      TimesNonNegative(Mass(tr, w, filter, frame)(position - step.advance), w.of(step.cost));
    }
  }

  lemma WeighsNonNegative(w: Weighing, cost: Cost)
    requires w.Lawful()
    ensures w.of(cost) >= 0.0
  {}

  lemma TimesNonNegative(a: real, b: real)
    requires a >= 0.0 && b >= 0.0
    ensures Times(a, b) >= 0.0
  {}
}
