/** What both decoders keep: the graph states alive at one frame, and the beam. */
module Frontiers {
  import opened Costs
  import opened FiniteSets

  /** The cost of reaching a state, and one word of the decoder's own. */
  datatype Token = Token(cost: Cost, aux: Option<nat>)

  type Frontier = map<nat, Token>

  /** How wide to search: a beam in cost, and a cap on the tokens kept that the
      beam never tightens below `minActive`. */
  datatype DecodeOptions = DecodeOptions(beam: Cost, maxActive: nat, minActive: nat)

  /** No beam, and a cap no frontier over `states` states can reach. */
  predicate Exhaustive(opts: DecodeOptions, states: nat) {
    opts.beam == Infinite && Max(opts.maxActive, opts.minActive) >= states
  }

  method RelaxCost(frontier: Frontier, state: nat, cost: Cost, aux: Option<nat>) returns (after: Frontier, improved: bool)
    ensures improved <==> !(state in frontier && frontier[state].cost.AtMost(cost))
    ensures after == if improved then frontier[state := Token(cost, aux)] else frontier
  {
    if state in frontier && frontier[state].cost.AtMost(cost) {
      after, improved := frontier, false;
    } else {
      after, improved := frontier[state := Token(cost, aux)], true;
    }
  }

  // -- Selecting by rank -------------------------------------------------------------------

  function Less(cost: Cost, than: Cost): nat {
    if cost.Less(than) then 1 else 0
  }

  function AtMost(cost: Cost, than: Cost): nat {
    if cost.AtMost(than) then 1 else 0
  }

  /** How many of `costs` are below `x`, and how many are at or below it. */
  function CountLess(costs: seq<Cost>, x: Cost): nat {
    if |costs| == 0 then 0 else CountLess(costs[..|costs| - 1], x) + Less(costs[|costs| - 1], x)
  }

  function CountAtMost(costs: seq<Cost>, x: Cost): nat {
    if |costs| == 0 then 0 else CountAtMost(costs[..|costs| - 1], x) + AtMost(costs[|costs| - 1], x)
  }

  function Inserted(costs: seq<Cost>, x: Cost): (r: seq<Cost>) {
    if |costs| == 0 then [x]
    else if costs[|costs| - 1].AtMost(x) then costs + [x]
    else Inserted(costs[..|costs| - 1], x) + [costs[|costs| - 1]]
  }

  ghost predicate Sorted(costs: seq<Cost>) {
    forall i, j | 0 <= i <= j < |costs| :: costs[i].AtMost(costs[j])
  }

  lemma {:induction false} InsertedIsSorted(costs: seq<Cost>, x: Cost)
    requires Sorted(costs)
    ensures Sorted(Inserted(costs, x)) && |Inserted(costs, x)| == |costs| + 1
    ensures forall c | c in Inserted(costs, x) :: c == x || c in costs
  {
    if |costs| > 0 && !costs[|costs| - 1].AtMost(x) {
      var front := costs[..|costs| - 1];
      InsertedIsSorted(front, x);
      var r := Inserted(costs, x);
      assert r[..|r| - 1] == Inserted(front, x);
      forall i | 0 <= i < |r| - 1 ensures r[i].AtMost(r[|r| - 1]) {
        assert r[i] in Inserted(front, x);
      }
    }
  }

  lemma {:induction false} InsertedCounts(costs: seq<Cost>, x: Cost, y: Cost)
    ensures CountLess(Inserted(costs, x), y) == CountLess(costs, y) + Less(x, y)
    ensures CountAtMost(Inserted(costs, x), y) == CountAtMost(costs, y) + AtMost(x, y)
  {
    var r := Inserted(costs, x);
    if |costs| == 0 {
      assert r[..0] == [];
    } else if costs[|costs| - 1].AtMost(x) {
      assert r[..|costs|] == costs;
    } else {
      InsertedCounts(costs[..|costs| - 1], x, y);
      assert r[..|r| - 1] == Inserted(costs[..|costs| - 1], x);
    }
  }

  lemma {:induction false} CountsInOrder(costs: seq<Cost>, rank: nat)
    requires Sorted(costs) && rank < |costs|
    ensures CountLess(costs, costs[rank]) <= rank < CountAtMost(costs, costs[rank])
  {
    var front := costs[..|costs| - 1];
    if rank < |costs| - 1 {
      CountsInOrder(front, rank);
      assert front[rank] == costs[rank];
    } else {
      AllCounted(front, costs[rank]);
      FewerCounted(front, costs[rank]);
    }
  }

  lemma {:induction false} AllCounted(costs: seq<Cost>, x: Cost)
    requires forall i | 0 <= i < |costs| :: costs[i].AtMost(x)
    ensures CountAtMost(costs, x) == |costs|
  {
    if |costs| > 0 {
      AllCounted(costs[..|costs| - 1], x);
    }
  }

  lemma {:induction false} FewerCounted(costs: seq<Cost>, x: Cost)
    ensures CountLess(costs, x) <= |costs|
  {
    if |costs| > 0 {
      FewerCounted(costs[..|costs| - 1], x);
    }
  }

  /** The cost at a rank: no more than `rank` are below it, more than `rank` are at
      or below it. */
  method SelectNth(costs: seq<Cost>, rank: nat) returns (nth: Cost)
    requires rank < |costs|
    ensures CountLess(costs, nth) <= rank < CountAtMost(costs, nth)
  {
    var sorted: seq<Cost> := [];
    var i := 0;
    while i < |costs|
      invariant 0 <= i == |sorted| <= |costs| && Sorted(sorted)
      invariant forall y :: CountLess(sorted, y) == CountLess(costs[..i], y)
      invariant forall y :: CountAtMost(sorted, y) == CountAtMost(costs[..i], y)
    {
      forall y
        ensures CountLess(Inserted(sorted, costs[i]), y) == CountLess(costs[..i + 1], y)
        ensures CountAtMost(Inserted(sorted, costs[i]), y) == CountAtMost(costs[..i + 1], y)
      {
        InsertedCounts(sorted, costs[i], y);
        assert costs[..i + 1][..i] == costs[..i];
      }
      InsertedIsSorted(sorted, costs[i]);
      sorted := Inserted(sorted, costs[i]);
      i := i + 1;
    }
    nth := sorted[rank];
    CountsInOrder(sorted, rank);
    assert costs[..|costs|] == costs;
  }

  // -- Pruning -----------------------------------------------------------------------------

  /** The tokens at or under a cutoff. */
  function Kept(frontier: Frontier, cutoff: Cost): Frontier {
    map s | s in frontier && frontier[s].cost.AtMost(cutoff) :: frontier[s]
  }

  /** The tokens strictly under it. */
  function Cheaper(frontier: Frontier, cutoff: Cost): Frontier {
    map s | s in frontier && frontier[s].cost.Less(cutoff) :: frontier[s]
  }

  /** The tokens' costs in some order, and the least of them. */
  method Values(frontier: Frontier) returns (costs: seq<Cost>, best: Cost)
    ensures |costs| == |frontier|
    ensures forall x :: CountAtMost(costs, x) == |Kept(frontier, x)| && CountLess(costs, x) == |Cheaper(frontier, x)|
    ensures forall s | s in frontier :: best.AtMost(frontier[s].cost)
    ensures frontier != map[] ==> exists s :: s in frontier && frontier[s].cost == best
    ensures frontier == map[] ==> best == Infinite
  {
    costs, best := [], Infinite;
    var left := frontier.Keys;
    var seen: Frontier := map[];
    while left != {}
      invariant left <= frontier.Keys && seen == map s | s in frontier && s !in left :: frontier[s]
      invariant |costs| == |seen|
      invariant forall x :: CountAtMost(costs, x) == |Kept(seen, x)| && CountLess(costs, x) == |Cheaper(seen, x)|
      invariant forall s | s in seen :: best.AtMost(seen[s].cost)
      invariant seen != map[] ==> exists s :: s in seen && seen[s].cost == best
      invariant seen == map[] ==> best == Infinite
      decreases |left|
    {
      var s :| s in left;
      var token := frontier[s];
      CountMore(costs, seen, s, token);
      if token.cost.Less(best) || best == Infinite {
        best := token.cost;
      }
      var wider := seen[s := token];
      assert s in wider && (best == token.cost || exists s' :: s' in seen && wider[s'] == seen[s'] && seen[s'].cost == best);
      costs, seen, left := costs + [token.cost], wider, left - {s};
    }
    assert seen == frontier;
  }

  lemma CountMore(costs: seq<Cost>, seen: Frontier, s: nat, token: Token)
    requires s !in seen && forall x :: CountAtMost(costs, x) == |Kept(seen, x)| && CountLess(costs, x) == |Cheaper(seen, x)|
    ensures forall x :: CountAtMost(costs + [token.cost], x) == |Kept(seen[s := token], x)|
                        && CountLess(costs + [token.cost], x) == |Cheaper(seen[s := token], x)|
  {
    forall x
      ensures CountAtMost(costs + [token.cost], x) == |Kept(seen[s := token], x)|
      ensures CountLess(costs + [token.cost], x) == |Cheaper(seen[s := token], x)|
    {
      assert (costs + [token.cost])[..|costs|] == costs;
      if token.cost.Less(x) {
        assert Cheaper(seen[s := token], x) == Cheaper(seen, x)[s := token];
      } else {
        assert Cheaper(seen[s := token], x) == Cheaper(seen, x);
      }
      if token.cost.AtMost(x) {
        assert Kept(seen[s := token], x) == Kept(seen, x)[s := token];
      } else {
        assert Kept(seen[s := token], x) == Kept(seen, x);
      }
    }
  }

  /** Drops what is worse than the beam or than the cost at the cap's rank. What is
      left is exactly the tokens at or under the cutoff; when it is the cap that
      cut, more than `cap` of them are left and at most `cap` are strictly
      cheaper than the cutoff. */
  method Prune(frontier: Frontier, opts: DecodeOptions) returns (pruned: Frontier, cutoff: Cost)
    ensures pruned == if cutoff.Finite? then Kept(frontier, cutoff) else frontier
    ensures forall s | s in frontier :: cutoff.AtMost(frontier[s].cost.Plus(opts.beam))
    ensures cutoff.Finite? && (forall s | s in frontier :: cutoff.Less(frontier[s].cost.Plus(opts.beam))) ==>
              |pruned| > Max(opts.maxActive, opts.minActive)
    ensures |Cheaper(frontier, cutoff)| <= Max(opts.maxActive, opts.minActive)
    ensures |frontier| <= Max(opts.maxActive, opts.minActive) && frontier != map[] ==>
              exists s :: s in frontier && cutoff == frontier[s].cost.Plus(opts.beam)
    ensures Exhaustive(opts, |frontier|) ==> pruned == frontier && cutoff == Infinite
  {
    var costs, best := Values(frontier);
    cutoff := best.Plus(opts.beam);
    forall s | s in frontier ensures cutoff.AtMost(frontier[s].cost.Plus(opts.beam)) {}
    var cap := Max(opts.maxActive, opts.minActive);
    if |frontier| > cap {
      var nth := SelectNth(costs, Min(cap, |costs| - 1));
      if nth.Less(cutoff) {
        cutoff := nth;
      }
      FewerCheaper(frontier, cutoff, nth);
    } else {
      FewerMembers(Cheaper(frontier, cutoff).Keys, frontier.Keys);
    }
    pruned := if cutoff.Finite? then Kept(frontier, cutoff) else frontier;
  }

  lemma FewerCheaper(frontier: Frontier, cutoff: Cost, higher: Cost)
    requires cutoff.AtMost(higher)
    ensures |Cheaper(frontier, cutoff)| <= |Cheaper(frontier, higher)|
  {
    assert Cheaper(frontier, cutoff).Keys <= Cheaper(frontier, higher).Keys;
    FewerMembers(Cheaper(frontier, cutoff).Keys, Cheaper(frontier, higher).Keys);
  }
}
