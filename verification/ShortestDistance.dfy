/** The generic shortest-distance loop, driven by any queue that loses no state given
    to it and invents none. It ends with the true distances, so the discipline never
    changes the answer. */
module ShortestDistances {
  import opened Costs

  /** A distance, or none yet. */
  datatype Distance = Fin(value: nat) | Far {
    function Plus(weight: Distance): Distance {
      if Fin? && weight.Fin? then Fin(value + weight.value) else Far
    }

    predicate AtMost(other: Distance) {
      other.Far? || (Fin? && value <= other.value)
    }
  }

  function Least(a: Distance, b: Distance): Distance {
    if a.AtMost(b) then a else b
  }

  datatype Edge = Edge(to: nat, weight: Distance)

  datatype Machine = Machine(start: Option<nat>, arcs: seq<seq<Edge>>) {
    ghost predicate Valid() {
      (start.Some? ==> start.value < |arcs|) && forall s, k | 0 <= s < |arcs| && 0 <= k < |arcs[s]| :: arcs[s][k].to < |arcs|
    }
  }

  // -- The distances themselves --------------------------------------------------------------

  /** A path from the start, by the arcs it takes: from which state, and which. */
  datatype Leg = Leg(from: nat, index: nat)

  ghost predicate PathTo(m: Machine, path: seq<Leg>, s: nat) {
    if |path| == 0 then m.start == Some(s)
    else
      var last := path[|path| - 1];
      && last.from < |m.arcs| && last.index < |m.arcs[last.from]| && m.arcs[last.from][last.index].to == s
      && PathTo(m, path[..|path| - 1], last.from)
  }

  ghost function Length(m: Machine, path: seq<Leg>, s: nat): Distance
    requires PathTo(m, path, s)
  {
    if |path| == 0 then Fin(0)
    else
      var last := path[|path| - 1];
      Length(m, path[..|path| - 1], last.from).Plus(m.arcs[last.from][last.index].weight)
  }

  ghost predicate IsLength(m: Machine, path: seq<Leg>, s: nat, d: Distance) {
    PathTo(m, path, s) && Length(m, path, s) == d
  }

  ghost predicate Attained(m: Machine, s: nat, d: Distance) {
    d.Fin? ==> exists path :: IsLength(m, path, s, d)
  }

  /** The least length of any path from the start, or far if there is none. */
  ghost predicate IsDistance(m: Machine, s: nat, d: Distance) {
    Attained(m, s, d) && forall path | PathTo(m, path, s) :: d.AtMost(Length(m, path, s))
  }

  /** There is one such distance, so two disciplines that find it agree. */
  lemma DistanceIsUnique(m: Machine, s: nat, a: Distance, b: Distance)
    requires IsDistance(m, s, a) && IsDistance(m, s, b)
    ensures a == b
  {
    if a.Fin? {
      var path :| IsLength(m, path, s, a);
    }
    if b.Fin? {
      var path :| IsLength(m, path, s, b);
    }
  }

  lemma AttainedOn(m: Machine, s: nat, k: nat, d: Distance)
    requires s < |m.arcs| && k < |m.arcs[s]| && Attained(m, s, d)
    ensures Attained(m, m.arcs[s][k].to, d.Plus(m.arcs[s][k].weight))
  {
    var arc := m.arcs[s][k];
    if d.Fin? && arc.weight.Fin? {
      var path :| IsLength(m, path, s, d);
      var longer := path + [Leg(s, k)];
      assert longer[..|path|] == path;
      assert IsLength(m, longer, arc.to, d.Plus(arc.weight));
    }
  }

  // -- What the loop keeps ------------------------------------------------------------------------

  /** Arc `k` of `s` has nothing left to improve. */
  ghost predicate Settled(m: Machine, distance: seq<Distance>, s: nat, k: nat, from: Distance)
    requires m.Valid() && |distance| == |m.arcs| && s < |m.arcs| && k < |m.arcs[s]|
  {
    distance[m.arcs[s][k].to].AtMost(from.Plus(m.arcs[s][k].weight))
  }

  ghost predicate SettledUpTo(m: Machine, distance: seq<Distance>, s: nat, n: nat, from: Distance)
    requires m.Valid() && |distance| == |m.arcs| && s < |m.arcs| && n <= |m.arcs[s]|
  {
    forall k: nat | k < n :: Settled(m, distance, s, k, from)
  }

  /** A state waits with what it has not passed on, which is all it has; a state that
      does not wait has passed everything on. */
  ghost predicate Kept(m: Machine, distance: seq<Distance>, residual: seq<Distance>, pending: set<nat>, s: nat)
    requires m.Valid() && |distance| == |residual| == |m.arcs| && s < |m.arcs|
  {
    && Attained(m, s, distance[s])
    && (s in pending ==> residual[s] == distance[s] && distance[s].Fin?)
    && (s !in pending ==> residual[s] == Far && SettledUpTo(m, distance, s, |m.arcs[s]|, distance[s]))
  }

  ghost predicate AllKept(m: Machine, distance: seq<Distance>, residual: seq<Distance>, pending: set<nat>, but: Option<nat>)
    requires m.Valid()
  {
    && |distance| == |residual| == |m.arcs| && m.start.Some? && distance[m.start.value] == Fin(0)
    && (forall s | s in pending :: s < |m.arcs|)
    && forall s: nat | s < |m.arcs| && but != Some(s) :: Kept(m, distance, residual, pending, s)
  }

  lemma StaysSettled(m: Machine, after: seq<Distance>, before: seq<Distance>, s: nat, n: nat, from: Distance)
    requires m.Valid() && |after| == |before| == |m.arcs| && s < |m.arcs| && n <= |m.arcs[s]|
    requires SettledUpTo(m, before, s, n, from) && forall i | 0 <= i < |before| :: after[i].AtMost(before[i])
    ensures SettledUpTo(m, after, s, n, from)
  {
    forall k: nat | k < n ensures Settled(m, after, s, k, from) {
      assert Settled(m, before, s, k, from);
    }
  }

  // Improving one state, and making it wait.
  lemma Improve(m: Machine, distance: seq<Distance>, residual: seq<Distance>, pending: set<nat>, but: Option<nat>, s: nat, d: Distance)
    requires m.Valid() && AllKept(m, distance, residual, pending, but) && s < |m.arcs|
    requires !distance[s].AtMost(d) && Attained(m, s, d) && but != Some(s)
    ensures Least(residual[s], d) == d
    ensures AllKept(m, distance[s := d], residual[s := d], pending + {s}, but)
  {
    hide PathTo, Attained, SettledUpTo;
    var (after, left) := (distance[s := d], residual[s := d]);
    assert Kept(m, distance, residual, pending, s);
    forall i: nat | i < |m.arcs| && but != Some(i) ensures Kept(m, after, left, pending + {s}, i) {
      assert Kept(m, distance, residual, pending, i);
      if i != s && i !in pending {
        StaysSettled(m, after, distance, i, |m.arcs[i]|, distance[i]);
      }
    }
  }

  /** Nothing waits, so every arc has been passed on: these are the distances. */
  lemma {:induction false} NothingShorter(m: Machine, distance: seq<Distance>, residual: seq<Distance>, path: seq<Leg>, s: nat)
    requires m.Valid() && AllKept(m, distance, residual, {}, None) && PathTo(m, path, s)
    ensures s < |m.arcs| && distance[s].AtMost(Length(m, path, s))
  {
    if |path| > 0 {
      var last := path[|path| - 1];
      NothingShorter(m, distance, residual, path[..|path| - 1], last.from);
      assert Kept(m, distance, residual, {}, last.from);
      assert Settled(m, distance, last.from, last.index, distance[last.from]);
    }
  }

  // -- Why it ends ------------------------------------------------------------------------------------

  function FarStates(distance: seq<Distance>): nat {
    if |distance| == 0 then 0 else FarStates(distance[..|distance| - 1]) + if distance[|distance| - 1].Far? then 1 else 0
  }

  function Sum(distance: seq<Distance>): nat {
    if |distance| == 0 then 0 else Sum(distance[..|distance| - 1]) + if distance[|distance| - 1].Fin? then distance[|distance| - 1].value else 0
  }

  /** An improvement makes fewer states far, or else the distances smaller. */
  lemma {:induction false} ImproveShrinks(distance: seq<Distance>, s: nat, d: Distance)
    requires s < |distance| && !distance[s].AtMost(d)
    ensures FarStates(distance[s := d]) <= FarStates(distance)
    ensures FarStates(distance[s := d]) == FarStates(distance) ==> Sum(distance[s := d]) < Sum(distance)
  {
    var last := |distance| - 1;
    if s == last {
      assert distance[s := d][..last] == distance[..last];
    } else {
      ImproveShrinks(distance[..last], s, d);
      assert distance[s := d][..last] == distance[..last][s := d];
    }
  }

  ghost predicate Smaller(after: seq<Distance>, before: seq<Distance>) {
    FarStates(after) < FarStates(before) || (FarStates(after) == FarStates(before) && Sum(after) < Sum(before))
  }

  // -- The loop -----------------------------------------------------------------------------------------

  /** The queue gives up any state it holds, whatever its discipline. */
  method AnyOf(pending: set<nat>) returns (state: nat)
    requires pending != {}
    ensures state in pending
  {
    state :| state in pending;
  }

  /** Passes what a state has along one of its arcs. */
  method PassOn(m: Machine, distance: array<Distance>, residual: array<Distance>, enqueued: array<bool>, queue: set<nat>, state: nat, r: Distance, k: nat)
    returns (after: set<nat>)
    requires m.Valid() && state < |m.arcs| && k < |m.arcs[state]| && distance != residual
    requires distance.Length == residual.Length == enqueued.Length == |m.arcs|
    requires AllKept(m, distance[..], residual[..], queue, Some(state)) && state !in queue
    requires distance[state] == r && residual[state] == Far && r.Fin? && Attained(m, state, r) && SettledUpTo(m, distance[..], state, k, r)
    requires forall s | 0 <= s < |m.arcs| :: enqueued[s] <==> s in queue
    modifies distance, residual, enqueued
    ensures AllKept(m, distance[..], residual[..], after, Some(state)) && state !in after
    ensures distance[state] == r && residual[state] == Far && SettledUpTo(m, distance[..], state, k + 1, r)
    ensures forall s | 0 <= s < |m.arcs| :: enqueued[s] <==> s in after
    ensures Smaller(distance[..], old(distance[..])) || (distance[..] == old(distance[..]) && after == queue)
  {
    hide PathTo, Length, Kept, AllKept, Smaller, Attained, SettledUpTo, FarStates, Sum;
    after := queue;
    var arc := m.arcs[state][k];
    var contribution := r.Plus(arc.weight);
    var old' := distance[arc.to];
    var new' := Least(old', contribution);
    ghost var (d, left) := (distance[..], residual[..]);
    AttainedOn(m, state, k, r);
    NotItself(m, d, state, k, r);
    if old' != new' {
      Improve(m, d, left, queue, Some(state), arc.to, contribution);
      distance[arc.to] := new';
      residual[arc.to] := Least(residual[arc.to], contribution);
      assert distance[..] == d[arc.to := contribution] && residual[..] == left[arc.to := contribution];
      if !enqueued[arc.to] {
        enqueued[arc.to] := true;
        after := queue + {arc.to};
      }
      assert after == queue + {arc.to};
      ImproveIsSmaller(d, arc.to, contribution);
    }
    SettleOne(m, distance[..], d, state, k, r);
  }

  method ShortestDistance(m: Machine) returns (distance: array<Distance>)
    requires m.Valid()
    ensures fresh(distance) && distance.Length == |m.arcs|
    ensures forall s: nat | s < |m.arcs| :: IsDistance(m, s, distance[s])
  {
    hide PathTo, Length, Kept, AllKept, Smaller, SettledUpTo, Attained, FarStates, Sum;
    distance := new Distance[|m.arcs|](_ => Far);
    if m.start.None? {
      forall s: nat | s < |m.arcs| ensures IsDistance(m, s, distance[s]) {
        NoPaths(m, s, distance[s]);
      }
      return;
    }
    var start := m.start.value;
    var residual := new Distance[|m.arcs|](_ => Far);
    var enqueued := new bool[|m.arcs|](_ => false);
    distance[start], residual[start], enqueued[start] := Fin(0), Fin(0), true;
    var queue: set<nat> := {start};
    StartKept(m, distance[..], residual[..]);
    while queue != {}
      invariant fresh(distance) && fresh(residual) && fresh(enqueued)
      invariant distance != residual && distance.Length == residual.Length == enqueued.Length == |m.arcs|
      invariant AllKept(m, distance[..], residual[..], queue, None)
      invariant forall s | 0 <= s < |m.arcs| :: enqueued[s] <==> s in queue
      decreases FarStates(distance[..]), Sum(distance[..]), |queue|
    {
      ghost var (first, was) := (distance[..], queue);
      var state := AnyOf(queue);
      WaitingInRange(m, distance[..], residual[..], queue, state);
      queue := queue - {state};
      enqueued[state] := false;
      var r := residual[state];
      ghost var (d0, r0) := (distance[..], residual[..]);
      residual[state] := Far;
      assert residual[..] == r0[state := Far];
      Dequeued(m, d0, r0, was, state);
      NothingSettled(m, distance[..], state, r);
      var k := 0;
      while k < |m.arcs[state]|
        invariant 0 <= k <= |m.arcs[state]| && distance.Length == residual.Length == enqueued.Length == |m.arcs|
        invariant AllKept(m, distance[..], residual[..], queue, Some(state)) && state !in queue
        invariant distance[state] == r && residual[state] == Far && r.Fin? && Attained(m, state, r)
        invariant SettledUpTo(m, distance[..], state, k, r)
        invariant forall s | 0 <= s < |m.arcs| :: enqueued[s] <==> s in queue
        invariant Smaller(distance[..], first) || (distance[..] == first && queue == was - {state})
      {
        ghost var d := distance[..];
        queue := PassOn(m, distance, residual, enqueued, queue, state, r, k);
        StillSmaller(distance[..], d, first);
        k := k + 1;
      }
      PassedOn(m, distance[..], residual[..], queue, state);
      Decreased(distance[..], first, queue, was, state);
    }
    forall s: nat | s < |m.arcs| ensures IsDistance(m, s, distance[s]) {
      Finished(m, distance[..], residual[..], s);
    }
  }

  lemma StartKept(m: Machine, distance: seq<Distance>, residual: seq<Distance>)
    requires m.Valid() && m.start.Some? && |distance| == |residual| == |m.arcs|
    requires forall s | 0 <= s < |m.arcs| :: distance[s] == residual[s] == if s == m.start.value then Fin(0) else Far
    ensures AllKept(m, distance, residual, {m.start.value}, None)
  {
    assert IsLength(m, [], m.start.value, Fin(0));
  }

  lemma NoPaths(m: Machine, s: nat, d: Distance)
    requires m.start.None? && d.Far?
    ensures IsDistance(m, s, d)
  {
    forall path ensures !PathTo(m, path, s) {
      NoPath(m, path, s);
    }
  }

  lemma {:induction false} NoPath(m: Machine, path: seq<Leg>, s: nat)
    requires m.start.None?
    ensures !PathTo(m, path, s)
  {
    if |path| > 0 {
      NoPath(m, path[..|path| - 1], path[|path| - 1].from);
    }
  }

  lemma WaitingInRange(m: Machine, distance: seq<Distance>, residual: seq<Distance>, pending: set<nat>, s: nat)
    requires m.Valid() && AllKept(m, distance, residual, pending, None) && s in pending
    ensures s < |m.arcs| == |residual| == |distance|
    ensures residual[s] == distance[s] && distance[s].Fin? && Attained(m, s, distance[s])
  {
    assert Kept(m, distance, residual, pending, s);
  }

  lemma Dequeued(m: Machine, distance: seq<Distance>, residual: seq<Distance>, pending: set<nat>, s: nat)
    requires m.Valid() && AllKept(m, distance, residual, pending, None) && s in pending && s < |m.arcs| == |residual|
    ensures AllKept(m, distance, residual[s := Far], pending - {s}, Some(s))
  {
    var (left, rest) := (residual[s := Far], pending - {s});
    forall i: nat | i < |m.arcs| && i != s ensures Kept(m, distance, left, rest, i) {
      assert Kept(m, distance, residual, pending, i);
    }
  }

  // An arc back to the state being passed on never improves it: weights are not
  // negative.
  lemma NotItself(m: Machine, distance: seq<Distance>, s: nat, k: nat, r: Distance)
    requires m.Valid() && |distance| == |m.arcs| && s < |m.arcs| && k < |m.arcs[s]| && distance[s] == r
    ensures m.arcs[s][k].to == s ==> Least(r, r.Plus(m.arcs[s][k].weight)) == r
    ensures var (old', contribution) := (distance[m.arcs[s][k].to], r.Plus(m.arcs[s][k].weight));
            Least(old', contribution) != old' ==> !old'.AtMost(contribution) && Least(old', contribution) == contribution
  {}

  lemma NothingSettled(m: Machine, distance: seq<Distance>, s: nat, from: Distance)
    requires m.Valid() && |distance| == |m.arcs| && s < |m.arcs|
    ensures SettledUpTo(m, distance, s, 0, from)
  {}

  lemma SettleOne(m: Machine, after: seq<Distance>, before: seq<Distance>, s: nat, k: nat, r: Distance)
    requires m.Valid() && |after| == |before| == |m.arcs| && s < |m.arcs| && k < |m.arcs[s]|
    requires SettledUpTo(m, before, s, k, r)
    requires var (to, contribution) := (m.arcs[s][k].to, r.Plus(m.arcs[s][k].weight));
             || (after == before && before[to].AtMost(contribution))
             || (after == before[to := contribution] && !before[to].AtMost(contribution))
    ensures SettledUpTo(m, after, s, k + 1, r)
  {
    StaysSettled(m, after, before, s, k, r);
    assert Settled(m, after, s, k, r);
  }

  lemma ImproveIsSmaller(before: seq<Distance>, s: nat, d: Distance)
    requires s < |before| && !before[s].AtMost(d)
    ensures Smaller(before[s := d], before)
  {
    ImproveShrinks(before, s, d);
  }

  lemma StillSmaller(after: seq<Distance>, before: seq<Distance>, first: seq<Distance>)
    requires (Smaller(after, before) || after == before) && (Smaller(before, first) || before == first)
    ensures Smaller(after, first) || (after == first && before == first)
  {}

  lemma PassedOn(m: Machine, distance: seq<Distance>, residual: seq<Distance>, pending: set<nat>, s: nat)
    requires m.Valid() && AllKept(m, distance, residual, pending, Some(s)) && s < |m.arcs| && s !in pending
    requires residual[s] == Far && Attained(m, s, distance[s]) && SettledUpTo(m, distance, s, |m.arcs[s]|, distance[s])
    ensures AllKept(m, distance, residual, pending, None)
  {}

  lemma Decreased(after: seq<Distance>, first: seq<Distance>, pending: set<nat>, was: set<nat>, s: nat)
    requires s in was && (Smaller(after, first) || (after == first && pending == was - {s}))
    ensures FarStates(after) < FarStates(first)
         || (FarStates(after) == FarStates(first) && (Sum(after) < Sum(first) || (Sum(after) == Sum(first) && |pending| < |was|)))
  {}

  lemma Finished(m: Machine, distance: seq<Distance>, residual: seq<Distance>, s: nat)
    requires m.Valid() && AllKept(m, distance, residual, {}, None) && s < |m.arcs|
    ensures |distance| == |m.arcs| && IsDistance(m, s, distance[s])
  {
    assert Kept(m, distance, residual, {}, s);
    forall path | PathTo(m, path, s) ensures distance[s].AtMost(Length(m, path, s)) {
      NothingShorter(m, distance, residual, path, s);
    }
  }
}
