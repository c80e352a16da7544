/** A lattice's paths are the composition's: the same walks, the same labels, and the
    graph and acoustic costs summed apart. */
module LatticePaths {
  import opened Costs
  import opened DecodingGraphs
  import opened Frontiers
  import opened Beams
  import opened Viterbi
  import opened Lattices

  // -- The two costs of a walk ---------------------------------------------------------------

  ghost function WalkGraph(g: Graph, path: seq<Taken>): Cost
    requires forall k | 0 <= k < |path| :: IsArc(g, path[k])
  {
    if |path| == 0 then ZERO
    else WalkGraph(g, path[..|path| - 1]).Plus(ArcOf(g, path[|path| - 1]).weight)
  }

  ghost function WalkAcoustic(g: Graph, d: Dense, path: seq<Taken>, frames: nat, state: nat): Cost
    requires g.Valid() && d.Valid() && Walk(g, d, path, frames, state)
  {
    if |path| == 0 then ZERO
    else
      var last := path[|path| - 1];
      WalkAcoustic(g, d, path[..|path| - 1], FramesBefore(g, last, frames), last.from).Plus(Acoustic(g, d, last, frames))
  }

  lemma {:induction false} CostsApart(g: Graph, d: Dense, path: seq<Taken>, frames: nat, state: nat)
    requires g.Valid() && d.Valid() && Walk(g, d, path, frames, state)
    ensures forall k | 0 <= k < |path| :: IsArc(g, path[k])
    ensures WalkCost(g, d, path, frames, state) == WalkGraph(g, path).Plus(WalkAcoustic(g, d, path, frames, state))
  {
    hide Acoustic, Cost.Plus;
    WalkArcs(g, d, path, frames, state);
    if |path| == 0 {
      ZeroPlusZero();
    } else {
      var last := path[|path| - 1];
      var front, before := path[..|path| - 1], FramesBefore(g, last, frames);
      CostsApart(g, d, front, before, last.from);
      Regroup(WalkGraph(g, front), WalkAcoustic(g, d, front, before, last.from), ArcOf(g, last).weight, Acoustic(g, d, last, frames));
    }
  }

  lemma ZeroPlusZero()
    ensures ZERO.Plus(ZERO) == ZERO
  {}

  lemma Regroup(a: Cost, b: Cost, c: Cost, e: Cost)
    ensures a.Plus(b).Plus(c.Plus(e)) == a.Plus(c).Plus(b.Plus(e))
  {}

  // -- The paths of a lattice ------------------------------------------------------------------

  ghost predicate IsLatticeArc(lattice: Lattice, taken: Taken) {
    taken.from < |lattice.arcs| && taken.index < |lattice.arcs[taken.from]|
  }

  /** Whether `path` runs from the lattice's start to state `q`. */
  ghost predicate LatticePath(lattice: Lattice, path: seq<Taken>, q: nat) {
    if |path| == 0 then lattice.start == Some(q)
    else
      var last := path[|path| - 1];
      && IsLatticeArc(lattice, last) && lattice.arcs[last.from][last.index].nextstate == q
      && LatticePath(lattice, path[..|path| - 1], last.from)
  }

  ghost function GraphSum(lattice: Lattice, path: seq<Taken>, q: nat): Cost
    requires LatticePath(lattice, path, q)
  {
    if |path| == 0 then ZERO
    else
      var last := path[|path| - 1];
      GraphSum(lattice, path[..|path| - 1], last.from).Plus(lattice.arcs[last.from][last.index].graph)
  }

  ghost function AcousticSum(lattice: Lattice, path: seq<Taken>, q: nat): Cost
    requires LatticePath(lattice, path, q)
  {
    if |path| == 0 then ZERO
    else
      var last := path[|path| - 1];
      AcousticSum(lattice, path[..|path| - 1], last.from).Plus(lattice.arcs[last.from][last.index].acoustic)
  }

  ghost function Words(lattice: Lattice, path: seq<Taken>, q: nat): seq<int>
    requires LatticePath(lattice, path, q)
  {
    if |path| == 0 then []
    else
      var last := path[|path| - 1];
      var olabel := lattice.arcs[last.from][last.index].olabel;
      Words(lattice, path[..|path| - 1], last.from) + if olabel == EPSILON then [] else [olabel]
  }

  /** The composition arcs a lattice path stands for. */
  ghost function WalkOf(lattice: Lattice, ledger: Ledger, path: seq<Taken>, q: nat): seq<Taken>
    requires Shape(lattice, ledger) && LatticePath(lattice, path, q)
  {
    if |path| == 0 then []
    else
      var last := path[|path| - 1];
      WalkOf(lattice, ledger, path[..|path| - 1], last.from) + [ledger.origins[last.from][last.index].taken]
  }

  lemma ArcAt(g: Graph, d: Dense, lattice: Lattice, ledger: Ledger, frames: nat, taken: Taken)
    requires d.Valid() && Faithful(g, d, lattice, ledger, frames) && IsLatticeArc(lattice, taken)
    ensures Shape(lattice, ledger) && NoDuplicates(ledger.names)
    ensures ArcIs(g, d, ledger.names, taken.from, lattice.arcs[taken.from][taken.index], ledger.origins[taken.from][taken.index])
  {
    hide ArcIs;
  }

  /** Every lattice path is a walk of the composition with the same labels and the
      same two sums. */
  lemma {:induction false} LatticePathIsWalk(g: Graph, d: Dense, lattice: Lattice, ledger: Ledger, path: seq<Taken>, q: nat)
    requires g.Valid() && d.Valid() && Faithful(g, d, lattice, ledger, d.NumFrames()) && Starts(g, lattice, ledger)
    requires LatticePath(lattice, path, q)
    ensures q < |ledger.names|
    ensures var walk := WalkOf(lattice, ledger, path, q);
            var to := ledger.names[q];
            && Walk(g, d, walk, to.frames, to.state)
            && (forall k | 0 <= k < |walk| :: IsArc(g, walk[k]))
            && GraphSum(lattice, path, q) == WalkGraph(g, walk)
            && AcousticSum(lattice, path, q) == WalkAcoustic(g, d, walk, to.frames, to.state)
            && Words(lattice, path, q) == Outputs(g, walk)
  {
    hide Faithful, Acoustic;
    if |path| > 0 {
      var last := path[|path| - 1];
      var front := path[..|path| - 1];
      ArcAt(g, d, lattice, ledger, d.NumFrames(), last);
      LatticePathIsWalk(g, d, lattice, ledger, front, last.from);
      var o := ledger.origins[last.from][last.index];
      var walk := WalkOf(lattice, ledger, front, last.from);
      assert (walk + [o.taken])[..|walk|] == walk;
      WalkOn(g, d, walk, o.frames, o.taken);
      WalkArcs(g, d, walk + [o.taken], o.frames, Target(g, o).state);
    }
  }

  /** Every walk of the composition that stays near is a lattice path. */
  lemma {:induction false} WalkIsLatticePath(g: Graph, d: Dense, opts: DecodeOptions, lattice: Lattice, ledger: Ledger, walk: seq<Taken>, frames: nat, state: nat)
    returns (path: seq<Taken>, q: nat)
    requires g.Valid() && d.Valid() && Faithful(g, d, lattice, ledger, d.NumFrames()) && Full(g, d, ledger) && Starts(g, lattice, ledger)
    requires NamesNear(g, d, opts, ledger, d.NumFrames())
    requires Walk(g, d, walk, frames, state) && StaysNear(g, d, opts, walk, frames, state)
    ensures q < |ledger.names| && ledger.names[q] == Pair(frames, state)
    ensures Shape(lattice, ledger) && LatticePath(lattice, path, q) && WalkOf(lattice, ledger, path, q) == walk
    decreases |walk|
  {
    hide Acoustic, Faithful, Full, ArcIs, NamesNear, Near, NoDuplicates;
    ShapeOf(g, d, lattice, ledger, d.NumFrames());
    if |walk| == 0 {
      path, q := [], lattice.start.value;
    } else {
      var last := walk[|walk| - 1];
      var front, from := WalkIsLatticePath(g, d, opts, lattice, ledger, walk[..|walk| - 1], FramesBefore(g, last, frames), last.from);
      var o := Origin(frames, last);
      IsNamed(g, d, opts, ledger, walk, frames, state);
      var j := ArcFor(g, d, lattice, ledger, o, from);
      path, q := front + [Taken(from, j)], lattice.arcs[from][j].nextstate;
      assert path[..|path| - 1] == front;
      assert walk[..|walk| - 1] + [last] == walk;
    }
  }

  lemma IsNamed(g: Graph, d: Dense, opts: DecodeOptions, ledger: Ledger, walk: seq<Taken>, frames: nat, state: nat)
    requires g.Valid() && d.Valid() && NamesNear(g, d, opts, ledger, d.NumFrames())
    requires Walk(g, d, walk, frames, state) && StaysNear(g, d, opts, walk, frames, state)
    ensures Pair(frames, state) in ledger.names
  {
    hide StaysNear;
    WalkArcs(g, d, walk, frames, state);
  }

  /** The lattice arc of a composition arc whose ends are both states. */
  lemma ArcFor(g: Graph, d: Dense, lattice: Lattice, ledger: Ledger, o: Origin, from: nat) returns (j: nat)
    requires g.Valid() && d.Valid() && Faithful(g, d, lattice, ledger, d.NumFrames()) && Full(g, d, ledger)
    requires Fits(g, d, o.taken, o.frames) && from < |ledger.names| && ledger.names[from] == Source(g, o) && Target(g, o) in ledger.names
    ensures IsLatticeArc(lattice, Taken(from, j)) && |ledger.origins| == |lattice.arcs|
    ensures j < |ledger.origins[from]| && ledger.origins[from][j] == o
    ensures lattice.arcs[from][j].nextstate < |ledger.names| && ledger.names[lattice.arcs[from][j].nextstate] == Target(g, o)
  {
    hide Acoustic, Fits;
    assert Between(g, d, ledger.names, o);
    var p: nat :| p < |ledger.origins| && o in ledger.origins[p];
    j :| j < |ledger.origins[p]| && ledger.origins[p][j] == o;
    ArcAt(g, d, lattice, ledger, d.NumFrames(), Taken(p, j));
    assert ledger.names[p] == ledger.names[from];
    assert p == from;
  }

  // Two arcs into one state that are one composition arc are one lattice arc.
  lemma SameArc(g: Graph, d: Dense, lattice: Lattice, ledger: Ledger, x: Taken, y: Taken)
    requires d.Valid() && Faithful(g, d, lattice, ledger, d.NumFrames()) && IsLatticeArc(lattice, x) && IsLatticeArc(lattice, y)
    requires lattice.arcs[x.from][x.index].nextstate == lattice.arcs[y.from][y.index].nextstate
    requires Shape(lattice, ledger) && ledger.origins[x.from][x.index].taken == ledger.origins[y.from][y.index].taken
    ensures x == y
  {
    ArcAt(g, d, lattice, ledger, d.NumFrames(), x);
    ArcAt(g, d, lattice, ledger, d.NumFrames(), y);
    NoOriginTwice(g, d, lattice, ledger, d.NumFrames(), x.from);
    hide Faithful, Acoustic, Fits;
    assert ledger.origins[x.from][x.index] == ledger.origins[y.from][y.index];
    assert ledger.names[x.from] == ledger.names[y.from];
    SameIndex(ledger.names, x.from, y.from);
    SameIndex(ledger.origins[x.from], x.index, y.index);
  }

  lemma NoOriginTwice(g: Graph, d: Dense, lattice: Lattice, ledger: Ledger, frames: nat, q: nat)
    requires d.Valid() && Faithful(g, d, lattice, ledger, frames) && q < |lattice.arcs|
    ensures Shape(lattice, ledger) && NoDuplicates(ledger.origins[q])
  {
    hide ArcIs;
  }

  lemma SameIndex<T>(s: seq<T>, i: nat, j: nat)
    requires NoDuplicates(s) && i < |s| && j < |s| && s[i] == s[j]
    ensures i == j
  {}

  lemma WalkOfLast(lattice: Lattice, ledger: Ledger, path: seq<Taken>, q: nat)
    requires Shape(lattice, ledger) && LatticePath(lattice, path, q) && |path| > 0
    ensures var (last, walk) := (path[|path| - 1], WalkOf(lattice, ledger, path, q));
            && IsLatticeArc(lattice, last) && lattice.arcs[last.from][last.index].nextstate == q
            && LatticePath(lattice, path[..|path| - 1], last.from)
            && |walk| > 0 && walk[|walk| - 1] == ledger.origins[last.from][last.index].taken
            && walk[..|walk| - 1] == WalkOf(lattice, ledger, path[..|path| - 1], last.from)
  {}

  /** No two lattice paths to the same state stand for the same walk. */
  lemma {:induction false} WalksTellPathsApart(g: Graph, d: Dense, lattice: Lattice, ledger: Ledger, a: seq<Taken>, b: seq<Taken>, q: nat)
    requires d.Valid() && Faithful(g, d, lattice, ledger, d.NumFrames())
    requires LatticePath(lattice, a, q) && LatticePath(lattice, b, q)
    requires Shape(lattice, ledger) && WalkOf(lattice, ledger, a, q) == WalkOf(lattice, ledger, b, q)
    ensures a == b
    decreases |a|
  {
    hide *;
    WalkLength(lattice, ledger, a, q);
    WalkLength(lattice, ledger, b, q);
    if |a| > 0 {
      var (x, y) := (a[|a| - 1], b[|b| - 1]);
      WalkOfLast(lattice, ledger, a, q);
      WalkOfLast(lattice, ledger, b, q);
      SameArc(g, d, lattice, ledger, x, y);
      WalksTellPathsApart(g, d, lattice, ledger, a[..|a| - 1], b[..|b| - 1], x.from);
      assert a == a[..|a| - 1] + [x] && b == b[..|b| - 1] + [y];
    }
  }

  lemma {:induction false} WalkLength(lattice: Lattice, ledger: Ledger, path: seq<Taken>, q: nat)
    requires Shape(lattice, ledger) && LatticePath(lattice, path, q)
    ensures |WalkOf(lattice, ledger, path, q)| == |path|
  {
    if |path| > 0 {
      WalkLength(lattice, ledger, path[..|path| - 1], path[|path| - 1].from);
    }
  }

  // -- What a lattice says ------------------------------------------------------------------------

  ghost predicate FinalPath(lattice: Lattice, path: seq<Taken>, q: nat) {
    LatticePath(lattice, path, q) && q < |lattice.finals| && lattice.finals[q].Finite?
  }

  /** Under any beam, a lattice's accepting paths accept in the composition. */
  lemma FinalPathAccepts(g: Graph, d: Dense, opts: DecodeOptions, lattice: Lattice, ledger: Ledger, path: seq<Taken>, q: nat)
    requires g.Valid() && d.Valid() && IsLattice(g, d, opts, lattice, ledger) && FinalPath(lattice, path, q)
    ensures q < |ledger.names| && Shape(lattice, ledger)
    ensures var walk := WalkOf(lattice, ledger, path, q);
            var s := ledger.names[q].state;
            && Accepting(g, d, walk, s)
            && AcceptingCost(g, d, walk, s)
               == GraphSum(lattice, path, q).Plus(AcousticSum(lattice, path, q)).Plus(lattice.finals[q])
            && (forall k | 0 <= k < |walk| :: IsArc(g, walk[k])) && Words(lattice, path, q) == Outputs(g, walk)
  {
    hide Faithful, Full, AllNamesReached;
    ShapeOf(g, d, lattice, ledger, d.NumFrames());
    LatticePathIsWalk(g, d, lattice, ledger, path, q);
    var to := ledger.names[q];
    CostsApart(g, d, WalkOf(lattice, ledger, path, q), to.frames, to.state);
  }

  /** Every accepting path of the composition that stays near is in the lattice, once. */
  lemma AcceptingIsFinalPath(g: Graph, d: Dense, opts: DecodeOptions, lattice: Lattice, ledger: Ledger, walk: seq<Taken>, s: nat)
    returns (path: seq<Taken>, q: nat)
    requires g.Valid() && d.Valid() && IsLattice(g, d, opts, lattice, ledger) && NamesNear(g, d, opts, ledger, d.NumFrames())
    requires Accepting(g, d, walk, s) && StaysNear(g, d, opts, walk, d.NumFrames(), s)
    ensures Shape(lattice, ledger) && FinalPath(lattice, path, q) && WalkOf(lattice, ledger, path, q) == walk
    ensures forall other: seq<Taken>, r: nat | FinalPath(lattice, other, r) && ledger.names[r] == Pair(d.NumFrames(), s) && WalkOf(lattice, ledger, other, r) == walk ::
              other == path && r == q
  {
    hide Faithful, Full, AllNamesReached, Accepting, StaysNear;
    AcceptingWalks(g, d, walk, s);
    path, q := WalkIsLatticePath(g, d, opts, lattice, ledger, walk, d.NumFrames(), s);
    NamesApart(g, d, lattice, ledger, d.NumFrames());
    forall other: seq<Taken>, r: nat | FinalPath(lattice, other, r) && ledger.names[r] == Pair(d.NumFrames(), s) && WalkOf(lattice, ledger, other, r) == walk
      ensures other == path && r == q
    {
      assert ledger.names[r] == ledger.names[q];
      WalksTellPathsApart(g, d, lattice, ledger, other, path, q);
    }
  }

  lemma AcceptingWalks(g: Graph, d: Dense, walk: seq<Taken>, s: nat)
    requires g.Valid() && Accepting(g, d, walk, s)
    ensures Walk(g, d, walk, d.NumFrames(), s) && s < |g.finals| && g.finals[s].Finite?
  {}
}
