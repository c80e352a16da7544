/** Which states of a graph lead to which. */
module Routes {
  import opened Costs
  import opened DecodingGraphs

  predicate HasArc(g: Graph, s: nat, t: nat) {
    s < |g.arcs| && exists k :: 0 <= k < |g.arcs[s]| && g.arcs[s][k].nextstate == t
  }

  ghost predicate Route(g: Graph, path: seq<nat>, s: nat, t: nat) {
    |path| > 0 && path[0] == s && path[|path| - 1] == t && forall i | 0 <= i < |path| - 1 :: HasArc(g, path[i], path[i + 1])
  }

  ghost predicate Reaches(g: Graph, s: nat, t: nat) {
    exists path :: Route(g, path, s, t)
  }

  lemma ReachesOn(g: Graph, s: nat, t: nat, u: nat)
    requires Reaches(g, s, t) && Reaches(g, t, u)
    ensures Reaches(g, s, u)
  {
    hide HasArc;
    var a :| Route(g, a, s, t);
    var b :| Route(g, b, t, u);
    var path := a + b[1..];
    forall i | 0 <= i < |path| - 1 ensures HasArc(g, path[i], path[i + 1]) {
      if i >= |a| - 1 {
        assert path[i] == b[i - (|a| - 1)] && path[i + 1] == b[i + 1 - (|a| - 1)];
      }
    }
    assert Route(g, path, s, u);
  }

  /** A graph that has every arc of another reaches whatever the other does. */
  ghost predicate HasArcsOf(more: Graph, fewer: Graph) {
    forall s: nat, t: nat | HasArc(fewer, s, t) :: HasArc(more, s, t)
  }

  lemma MoreReaches(more: Graph, fewer: Graph, s: nat, t: nat)
    requires HasArcsOf(more, fewer) && Reaches(fewer, s, t)
    ensures Reaches(more, s, t)
  {
    hide HasArc;
    var path :| Route(fewer, path, s, t);
    assert Route(more, path, s, t);
  }

  /** Where every arc goes up, so does every route. */
  lemma RoutesGoUp(g: Graph, s: nat, t: nat)
    requires (forall i: nat, j: nat | HasArc(g, i, j) :: i < j) && Reaches(g, s, t)
    ensures s <= t
  {
    hide HasArc;
    var path :| Route(g, path, s, t);
    GoesUp(g, path, |path| - 1);
  }

  lemma {:induction false} GoesUp(g: Graph, path: seq<nat>, n: nat)
    requires (forall i: nat, j: nat | HasArc(g, i, j) :: i < j) && n < |path|
    requires forall i | 0 <= i < |path| - 1 :: HasArc(g, path[i], path[i + 1])
    ensures path[0] <= path[n]
  {
    if n > 0 {
      GoesUp(g, path, n - 1);
      assert HasArc(g, path[n - 1], path[n - 1 + 1]);
    }
  }
}
