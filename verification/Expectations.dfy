/** What a caller of the forward-backward adds up: the shares of the transitions it
    counts come to what the complete paths would count, each path at its share of the
    probability. */
module Expectations {
  import opened Costs
  import opened Trellises
  import opened Sums
  import opened PathMasses
  import opened Reversals
  import opened LogSums
  import opened ForwardBackward
  import opened Posteriors

  /** Whether a transition taken in a frame counts. */
  type Counter = (nat, Hop) -> bool

  function HopOf(v: Visit): Hop {
    Hop(v.code, v.position)
  }

  /** The mass visited of what counts. */
  ghost function Collected(visits: seq<Visit>, counts: Counter): real {
    if |visits| == 0 then 0.0
    else
      var last := visits[|visits| - 1];
      Collected(visits[..|visits| - 1], counts) + if counts(last.frame, HopOf(last)) then last.mass else 0.0
  }

  ghost function CountAt(hops: seq<Hop>, counts: Counter): nat -> real {
    (t: nat) => if t < |hops| && counts(t, hops[t]) then 1.0 else 0.0
  }

  /** How many frames of a path count. */
  ghost function Tally(hops: seq<Hop>, counts: Counter): real {
    Sum(|hops|, CountAt(hops, counts))
  }

  /** The frames that count, over some paths, each at its path's probability. */
  ghost function Weighed(tr: Trellis, w: Weighing, paths: seq<seq<Hop>>, counts: Counter): real
    requires tr.Lawful()
  {
    if |paths| == 0 then 0.0
    else
      var last := paths[|paths| - 1];
      Weighed(tr, w, paths[..|paths| - 1], counts) + Times(PathMass(tr, w, last), Tally(last, counts))
  }

  /** The same over all complete paths, each of which the enumeration lists once. */
  ghost function Expected(tr: Trellis, w: Weighing, counts: Counter): real
    requires tr.Lawful()
  {
    Weighed(tr, w, PathsTo(tr, tr.numFrames, tr.numPositions), counts)
  }

  // -- Visits against paths ------------------------------------------------------------------

  ghost function UsedBy(tr: Trellis, w: Weighing, paths: seq<seq<Hop>>, visits: seq<Visit>, counts: Counter): real
    requires tr.Lawful()
  {
    if |visits| == 0 then 0.0
    else
      var last := visits[|visits| - 1];
      UsedBy(tr, w, paths, visits[..|visits| - 1], counts)
      + if counts(last.frame, HopOf(last)) then MassOf(tr, w, paths, Taking(last.frame, HopOf(last))) else 0.0
  }

  ghost predicate Hit(v: Visit, hops: seq<Hop>, counts: Counter) {
    counts(v.frame, HopOf(v)) && v.frame < |hops| && hops[v.frame] == HopOf(v)
  }

  ghost function HitAt(visits: seq<Visit>, hops: seq<Hop>, counts: Counter): nat -> real {
    (k: nat) => if k < |visits| && Hit(visits[k], hops, counts) then 1.0 else 0.0
  }

  ghost function Hits(visits: seq<Visit>, hops: seq<Hop>, counts: Counter): real {
    Sum(|visits|, HitAt(visits, hops, counts))
  }

  lemma HitsMore(visits: seq<Visit>, hops: seq<Hop>, counts: Counter)
    requires |visits| > 0
    ensures var last := |visits| - 1;
            Hits(visits, hops, counts) == Hits(visits[..last], hops, counts) + if Hit(visits[last], hops, counts) then 1.0 else 0.0
  {
    SumSame(|visits| - 1, HitAt(visits, hops, counts), HitAt(visits[..|visits| - 1], hops, counts));
  }

  lemma {:induction false} NothingUsed(tr: Trellis, w: Weighing, visits: seq<Visit>, counts: Counter)
    requires tr.Lawful()
    ensures UsedBy(tr, w, [], visits, counts) == 0.0
    decreases |visits|
  {
    if |visits| > 0 {
      NothingUsed(tr, w, visits[..|visits| - 1], counts);
    }
  }

  // One more path is used by every visit on it.
  lemma {:induction false} UsedMore(tr: Trellis, w: Weighing, paths: seq<seq<Hop>>, visits: seq<Visit>, counts: Counter)
    requires tr.Lawful() && |paths| > 0
    ensures var last := paths[|paths| - 1];
            UsedBy(tr, w, paths, visits, counts)
            == UsedBy(tr, w, paths[..|paths| - 1], visits, counts) + Times(PathMass(tr, w, last), Hits(visits, last, counts))
    decreases |visits|
  {
    hide PathMass, Hits, MassOf, Times;
    var hops := paths[|paths| - 1];
    if |visits| == 0 {
      NoHits(hops, counts);
      TimesNothing(PathMass(tr, w, hops));
    } else {
      var last := visits[|visits| - 1];
      UsedMore(tr, w, paths, visits[..|visits| - 1], counts);
      HitsMore(visits, hops, counts);
      LastOfMass(tr, w, paths, Taking(last.frame, HopOf(last)));
      TimesOneMore(PathMass(tr, w, hops), Hits(visits[..|visits| - 1], hops, counts));
    }
  }

  lemma NoHits(hops: seq<Hop>, counts: Counter)
    ensures Hits([], hops, counts) == 0.0
  {}

  lemma TimesNothing(a: real)
    ensures Times(a, 0.0) == 0.0
  {}

  lemma TimesOneMore(a: real, b: real)
    ensures Times(a, b + 1.0) == Times(a, b) + a
  {}

  lemma {:induction false} UsedIsWeighed(tr: Trellis, w: Weighing, paths: seq<seq<Hop>>, visits: seq<Visit>, counts: Counter)
    requires tr.Lawful()
    requires forall hops: seq<Hop> | hops in paths :: Hits(visits, hops, counts) == Tally(hops, counts)
    ensures UsedBy(tr, w, paths, visits, counts) == Weighed(tr, w, paths, counts)
    decreases |paths|
  {
    hide PathMass, Hits, Tally, UsedBy, Times;
    if |paths| == 0 {
      NothingUsed(tr, w, visits, counts);
    } else {
      assert paths[|paths| - 1] in paths;
      UsedMore(tr, w, paths, visits, counts);
      UsedIsWeighed(tr, w, paths[..|paths| - 1], visits, counts);
    }
  }

  lemma {:induction false} CollectedIsUsed(tr: Trellis, w: Weighing, visits: seq<Visit>, counts: Counter)
    requires tr.Lawful() && forall v | v in visits :: IsShare(tr, w, v)
    ensures Times(Collected(visits, counts), Total(tr, w)) == UsedBy(tr, w, PathsTo(tr, tr.numFrames, tr.numPositions), visits, counts)
    decreases |visits|
  {
    hide Total, PathsTo, Times, MassOf;
    if |visits| == 0 {
      TimesPlus(0.0, 0.0, Total(tr, w));
    } else {
      var front, last := visits[..|visits| - 1], visits[|visits| - 1];
      assert last in visits;
      CollectedIsUsed(tr, w, front, counts);
      TimesPlus(Collected(front, counts), if counts(last.frame, HopOf(last)) then last.mass else 0.0, Total(tr, w));
    }
  }

  // -- A path is hit once a frame --------------------------------------------------------------

  /** A path's mass is part of what its every transition carries. */
  lemma {:induction false} OwnMass(tr: Trellis, w: Weighing, paths: seq<seq<Hop>>, hops: seq<Hop>, filter: Filter)
    requires tr.Lawful() && w.Lawful() && hops in paths && filter.Keeps(hops)
    ensures MassOf(tr, w, paths, filter) >= PathMass(tr, w, hops)
    decreases |paths|
  {
    hide PathMass, Weighing.Lawful, Filter.Keeps;
    var front := paths[..|paths| - 1];
    MassNonNegative(tr, w, front, filter);
    PathMassNonNegative(tr, w, paths[|paths| - 1]);
    if hops != paths[|paths| - 1] {
      OwnMass(tr, w, front, hops, filter);
    }
  }

  lemma PathMassNonNegative(tr: Trellis, w: Weighing, hops: seq<Hop>)
    requires tr.Lawful() && w.Lawful()
    ensures PathMass(tr, w, hops) >= 0.0
    ensures PathTo(tr, hops, PositionAfter(hops, |hops|)) ==> PathMass(tr, w, hops) > 0.0
  {}

  lemma CompleteCarries(tr: Trellis, w: Weighing, hops: seq<Hop>, t: nat)
    requires tr.Lawful() && w.Lawful() && Complete(tr, hops) && t < tr.numFrames
    ensures Carrying(tr, w, t, hops[t].position, hops[t].code)
    ensures Total(tr, w) >= PathMass(tr, w, hops) > 0.0
  {
    hide PathMass, Weighing.Lawful, MassOf;
    var paths := PathsTo(tr, tr.numFrames, tr.numPositions);
    EnumerationIsExact(tr, tr.numFrames, tr.numPositions);
    assert hops in paths;
    EndIsPosition(tr, hops, tr.numPositions);
    PathMassNonNegative(tr, w, hops);
    OwnMass(tr, w, paths, hops, Everything);
    assert hops[t] == Hop(hops[t].code, hops[t].position);
    OwnMass(tr, w, paths, hops, Taking(t, hops[t]));
    PrefixIsPath(tr, hops, tr.numPositions, t + 1);
    assert hops[..t + 1][t] == hops[t];
  }

  ghost predicate VisitedAt(visits: seq<Visit>, k: nat, t: nat, hop: Hop) {
    k < |visits| && visits[k].frame == t && HopOf(visits[k]) == hop
  }

  /** Where a transition was visited, if it was. */
  ghost function VisitOf(visits: seq<Visit>, t: nat, hop: Hop): nat {
    if k: nat :| VisitedAt(visits, k, t, hop) then k else 0
  }

  lemma MentionedIsVisited(visits: seq<Visit>, t: nat, hop: Hop)
    requires Mentions(visits, t, hop.position, hop.code)
    ensures VisitedAt(visits, VisitOf(visits, t, hop), t, hop)
  {
    var v :| v in visits && v.frame == t && v.position == hop.position && v.code == hop.code;
    var k: nat :| k < |visits| && visits[k] == v;
    assert VisitedAt(visits, k, t, hop);
  }

  lemma HitsAreTally(visits: seq<Visit>, hops: seq<Hop>, counts: Counter)
    requires NoRepeats(visits)
    requires forall t: nat | t < |hops| :: Mentions(visits, t, hops[t].position, hops[t].code)
    ensures Hits(visits, hops, counts) == Tally(hops, counts)
  {
    hide Mentions, VisitOf;
    var n := |visits| + |hops|;
    var hit, count := HitAt(visits, hops, counts), CountAt(hops, counts);
    var to: nat -> nat := (k: nat) => if k < |visits| then visits[k].frame else 0;
    var back: nat -> nat := (t: nat) => if t < |hops| then VisitOf(visits, t, hops[t]) else 0;
    forall t: nat | t < |hops| ensures VisitedAt(visits, VisitOf(visits, t, hops[t]), t, hops[t]) {
      assert Mentions(visits, t, hops[t].position, hops[t].code);
      MentionedIsVisited(visits, t, hops[t]);
    }
    forall k: nat | k < n && hit(k) != 0.0
      ensures to(k) < n && back(to(k)) == k && count(to(k)) == hit(k)
    {
      var other := VisitOf(visits, visits[k].frame, hops[visits[k].frame]);
      assert SameTransition(visits[Min(other, k)], visits[Max(other, k)]);
    }
    SumReindex(n, hit, count, to, back);
    SumTail(|visits|, n, hit);
    SumTail(|hops|, n, count);
  }

  /** The shares a caller collects, times the whole, are the frames that count over all
      complete paths, each at its path's probability. */
  lemma CollectedIsExpected(rv: Reversible, w: Weighing, spread: Spread, counts: Counter)
    requires rv.Lawful() && w.Lawful() && IsSpread(rv, w, spread)
    ensures Times(Collected(spread.visits, counts), spread.total) == Expected(rv.forward, w, counts)
  {
    hide Total, Weighing.Lawful, IsShare, Hits, Tally, Carrying;
    var tr := rv.forward;
    var paths := PathsTo(tr, tr.numFrames, tr.numPositions);
    EnumerationIsExact(tr, tr.numFrames, tr.numPositions);
    CollectedIsUsed(tr, w, spread.visits, counts);
    forall hops: seq<Hop> | hops in paths ensures Hits(spread.visits, hops, counts) == Tally(hops, counts) {
      forall t: nat | t < |hops| ensures Mentions(spread.visits, t, hops[t].position, hops[t].code) {
        CompleteCarries(tr, w, hops, t);
      }
      HitsAreTally(spread.visits, hops, counts);
    }
    UsedIsWeighed(tr, w, paths, spread.visits, counts);
  }

  // -- From counts to probabilities --------------------------------------------------------------

  type Property = seq<Hop> -> bool

  /** The probability of the paths that have a property. */
  ghost function MassWhere(tr: Trellis, w: Weighing, paths: seq<seq<Hop>>, holds: Property): real
    requires tr.Lawful()
  {
    if |paths| == 0 then 0.0
    else
      var last := paths[|paths| - 1];
      MassWhere(tr, w, paths[..|paths| - 1], holds) + if holds(last) then PathMass(tr, w, last) else 0.0
  }

  /** The probability of the complete paths that have a property. */
  ghost function Probability(tr: Trellis, w: Weighing, holds: Property): real
    requires tr.Lawful()
  {
    MassWhere(tr, w, PathsTo(tr, tr.numFrames, tr.numPositions), holds)
  }

  /** What no path counts twice is expected as often as it is probable. */
  lemma {:induction false} CountedOnce(tr: Trellis, w: Weighing, paths: seq<seq<Hop>>, counts: Counter, holds: Property)
    requires tr.Lawful()
    requires forall hops: seq<Hop> | hops in paths :: Tally(hops, counts) == if holds(hops) then 1.0 else 0.0
    ensures Weighed(tr, w, paths, counts) == MassWhere(tr, w, paths, holds)
    decreases |paths|
  {
    hide PathMass, Tally, Times;
    if |paths| > 0 {
      var last := paths[|paths| - 1];
      assert last in paths;
      TimesNothing(PathMass(tr, w, last));
      TimesOneMore(PathMass(tr, w, last), 0.0);
      CountedOnce(tr, w, paths[..|paths| - 1], counts, holds);
    }
  }

  /** Properties that part a third between them part its probability. */
  lemma {:induction false} PartsAdd(tr: Trellis, w: Weighing, paths: seq<seq<Hop>>, whole: Property, a: Property, b: Property)
    requires tr.Lawful()
    requires forall hops: seq<Hop> | hops in paths :: (whole(hops) <==> a(hops) || b(hops)) && !(a(hops) && b(hops))
    ensures MassWhere(tr, w, paths, whole) == MassWhere(tr, w, paths, a) + MassWhere(tr, w, paths, b)
    decreases |paths|
  {
    hide PathMass;
    if |paths| > 0 {
      assert paths[|paths| - 1] in paths;
      PartsAdd(tr, w, paths[..|paths| - 1], whole, a, b);
    }
  }

  lemma {:induction false} MassWhereNonNegative(tr: Trellis, w: Weighing, paths: seq<seq<Hop>>, holds: Property)
    requires tr.Lawful() && w.Lawful()
    ensures MassWhere(tr, w, paths, holds) >= 0.0
    decreases |paths|
  {
    hide PathMass, Weighing.Lawful;
    if |paths| > 0 {
      PathMassNonNegative(tr, w, paths[|paths| - 1]);
      MassWhereNonNegative(tr, w, paths[..|paths| - 1], holds);
    }
  }

  // -- Adding counts up ---------------------------------------------------------------------------

  /** How often a visit counts, times its mass, over all visits. */
  ghost function Summed(visits: seq<Visit>, times: (nat, Hop) -> real): real {
    if |visits| == 0 then 0.0
    else
      var last := visits[|visits| - 1];
      Summed(visits[..|visits| - 1], times) + Times(last.mass, times(last.frame, HopOf(last)))
  }

  ghost function CountOf(family: nat -> Counter, frame: nat, hop: Hop): nat -> real {
    (i: nat) => if family(i)(frame, hop) then 1.0 else 0.0
  }

  /** How many of several counters count a transition. */
  ghost function CountsOf(n: nat, family: nat -> Counter, frame: nat, hop: Hop): real {
    Sum(n, CountOf(family, frame, hop))
  }

  ghost function CollectedBy(visits: seq<Visit>, family: nat -> Counter): nat -> real {
    (i: nat) => Collected(visits, family(i))
  }

  /** Adding up what several counters collect is counting each visit for each of them. */
  lemma {:induction false} CollectedTogether(n: nat, family: nat -> Counter, visits: seq<Visit>, times: (nat, Hop) -> real)
    requires forall v | v in visits :: times(v.frame, HopOf(v)) == CountsOf(n, family, v.frame, HopOf(v))
    ensures Sum(n, CollectedBy(visits, family)) == Summed(visits, times)
    decreases |visits|
  {
    hide Collected, CountsOf, Sum, Times;
    if |visits| == 0 {
      forall i: nat | i < n ensures CollectedBy(visits, family)(i) == 0.0 {
        NothingCollected(visits, family(i));
      }
      SumZero(n, CollectedBy(visits, family));
    } else {
      assert visits[|visits| - 1] in visits;
      CollectedTogether(n, family, visits[..|visits| - 1], times);
      OneVisitMore(n, family, visits);
    }
  }

  lemma {:induction false} OneVisitMore(n: nat, family: nat -> Counter, visits: seq<Visit>)
    requires |visits| > 0
    ensures var last := visits[|visits| - 1];
            Sum(n, CollectedBy(visits, family))
            == Sum(n, CollectedBy(visits[..|visits| - 1], family)) + Times(last.mass, CountsOf(n, family, last.frame, HopOf(last)))
    decreases n
  {
    hide Collected, Times;
    var last := visits[|visits| - 1];
    TimesNothing(last.mass);
    if n > 0 {
      OneVisitMore(n - 1, family, visits);
      CollectedMore(visits, family(n - 1));
      TimesSplit(last.mass, CountsOf(n - 1, family, last.frame, HopOf(last)), CountOf(family, last.frame, HopOf(last))(n - 1));
    }
  }

  lemma NothingCollected(visits: seq<Visit>, counts: Counter)
    requires |visits| == 0
    ensures Collected(visits, counts) == 0.0
  {}

  lemma CollectedMore(visits: seq<Visit>, counts: Counter)
    requires |visits| > 0
    ensures var last := visits[|visits| - 1];
            Collected(visits, counts) == Collected(visits[..|visits| - 1], counts) + Times(last.mass, if counts(last.frame, HopOf(last)) then 1.0 else 0.0)
  {}

  lemma {:induction false} SummedPlus(visits: seq<Visit>, a: (nat, Hop) -> real, b: (nat, Hop) -> real, both: (nat, Hop) -> real)
    requires forall v | v in visits :: both(v.frame, HopOf(v)) == a(v.frame, HopOf(v)) + b(v.frame, HopOf(v))
    ensures Summed(visits, both) == Summed(visits, a) + Summed(visits, b)
    decreases |visits|
  {
    hide Times;
    if |visits| > 0 {
      var last := visits[|visits| - 1];
      assert last in visits;
      SummedPlus(visits[..|visits| - 1], a, b, both);
      TimesSplit(last.mass, a(last.frame, HopOf(last)), b(last.frame, HopOf(last)));
    }
  }
}
