/** Matchers that read some labels specially: a label for what nothing else matches,
    one for anything at all, one that fails over to another state, and a set of labels
    that consume nothing. */
module ImplicitMatchers {
  import opened Costs
  import opened DecodingGraphs
  import opened Matchers

  ghost predicate AllSorted(g: Graph, side: MatchType) {
    forall s: nat | s < |g.arcs| :: SortedBy(g.arcs[s], side)
  }

  /** A matcher ready to look up: over sorted arcs, at a state. */
  ghost predicate Ready(inner: SortedMatcher, state: nat)
    reads inner
  {
    inner.Valid() && AllSorted(inner.g, inner.side) && inner.state == Some(state)
  }

  method LookUp(matcher: SortedMatcher, symbol: int) returns (found: bool)
    requires matcher.Valid() && AllSorted(matcher.g, matcher.side) && matcher.state.Some?
    modifies matcher
    ensures matcher.Valid() && matcher.searched && matcher.state == old(matcher.state)
    ensures matcher.Remaining() == Matches(matcher.g, matcher.side, matcher.state.value, symbol)
    ensures found <==> matcher.Remaining() != []
  {
    hide SortedBy, Matches, Scan;
    found := matcher.Find(symbol);
  }

  // -- The rest: what stands in where nothing else matches -------------------------------------

  /** A state's own matches, or where there are none and the label is a real one, its
      rest arcs rewritten to the label asked for. */
  function RestMatches(g: Graph, side: MatchType, rho: int, rewriteBoth: bool, state: nat, symbol: int): seq<Arc>
    requires state < |g.arcs|
  {
    var own := Matches(g, side, state, symbol);
    if symbol == rho && rho != NO_LABEL then []
    else if own != [] || rho == NO_LABEL || !IsReal(symbol) then own
    else Rewritten(Matches(g, side, state, rho), rho, symbol, rewriteBoth, side)
  }

  class RhoMatcher {
    const matcher: SortedMatcher
    const rho: int
    const rewriteBoth: bool
    var rhoMatch: int
    var hasRho: bool
    var state: Option<nat>
    var error: bool

    ghost predicate Valid()
      reads this, matcher
    {
      && rho != EPSILON && matcher.Valid() && AllSorted(matcher.g, matcher.side)
      && (state.Some? ==> matcher.state == state)
      && (state.Some? && !hasRho && rho != NO_LABEL ==> Matches(matcher.g, matcher.side, state.value, rho) == [])
      && (hasRho ==> rho != NO_LABEL)
    }

    /** The matches not yet passed, as they will be reported. */
    ghost function Remaining(): seq<Arc>
      requires matcher.Valid() && matcher.searched
      reads this, matcher
    {
      if rhoMatch == NO_LABEL then matcher.Remaining()
      else Rewritten(matcher.Remaining(), rho, rhoMatch, rewriteBoth, matcher.side)
    }

    constructor (matcher: SortedMatcher, rho: int, rewriteBoth: bool)
      requires matcher.Valid() && AllSorted(matcher.g, matcher.side) && rho != EPSILON
      ensures Valid() && this.matcher == matcher && this.rho == rho && this.rewriteBoth == rewriteBoth && !error
    {
      this.matcher, this.rho, this.rewriteBoth := matcher, rho, rewriteBoth;
      rhoMatch, hasRho, state, error := NO_LABEL, false, None, false;
    }

    method SetState(state: nat)
      requires Valid() && state < |matcher.g.arcs|
      modifies this, matcher
      ensures Valid() && this.state == Some(state) && error == old(error)
    {
      if this.state == Some(state) {
        return;
      }
      this.state := Some(state);
      matcher.SetState(state);
      hasRho := rho != NO_LABEL;
    }

    method Find(symbol: int) returns (found: bool)
      requires Valid() && state.Some?
      modifies this, matcher
      ensures Valid() && state == old(state)
      ensures error <==> old(error) || (symbol == rho && rho != NO_LABEL)
      ensures found <==> RestMatches(matcher.g, matcher.side, rho, rewriteBoth, state.value, symbol) != []
      ensures found ==> matcher.searched && Remaining() == RestMatches(matcher.g, matcher.side, rho, rewriteBoth, state.value, symbol)
    {
      hide Matches, Scan;
      if symbol == rho && rho != NO_LABEL {
        error := true;
        return false;
      }
      found := matcher.Find(symbol);
      if found {
        rhoMatch := NO_LABEL;
        return;
      }
      if hasRho && IsReal(symbol) {
        hasRho := matcher.Find(rho);
        if hasRho {
          rhoMatch := symbol;
          found := true;
        }
      }
    }

    method Done() returns (done: bool)
      requires Valid() && matcher.searched
      ensures done <==> Remaining() == []
    {
      done := matcher.Done();
    }

    method Value() returns (arc: Arc)
      requires Valid() && matcher.searched && Remaining() != []
      ensures arc == Remaining()[0]
    {
      arc := matcher.Value();
      if rhoMatch != NO_LABEL {
        arc := Rewrite(arc, rho, rhoMatch, rewriteBoth, matcher.side);
      }
    }

    method Next()
      requires Valid() && matcher.searched && Remaining() != []
      modifies matcher
      ensures Valid() && matcher.searched && Remaining() == old(Remaining())[1..]
    {
      matcher.Next();
    }
  }

  /** Where a state has no arc for a real label, each of its rest arcs stands in for one;
      where it has, those are all; and either way every arc listed answers to the label. */
  lemma RestMatchesAnswer(g: Graph, side: MatchType, rho: int, rewriteBoth: bool, state: nat, symbol: int)
    requires state < |g.arcs| && symbol != EPSILON && symbol != NO_LABEL && rho != EPSILON && symbol != rho
    ensures var listed, own := RestMatches(g, side, rho, rewriteBoth, state, symbol), Scan(g.arcs[state], side, symbol);
            && (forall arc | arc in listed :: Answers(arc, side, symbol))
            && if own != [] || rho == NO_LABEL then listed == own
               else StandIns(listed, Scan(g.arcs[state], side, rho), rho, symbol, rewriteBoth, side, ZERO)
  {
    hide Scan, Rewritten;
    ScanAnswers(g.arcs[state], side, symbol);
    ScanAnswers(g.arcs[state], side, rho);
    assert Matches(g, side, state, symbol) == Scan(g.arcs[state], side, symbol);
    RewrittenStandIn(Scan(g.arcs[state], side, rho), rho, symbol, rewriteBoth, side);
    if rho != NO_LABEL {
      assert Matches(g, side, state, rho) == Scan(g.arcs[state], side, rho);
    }
  }

  // -- Anything: what matches on top of the rest ------------------------------------------------

  /** A state's own matches, and after them, for a real label, its any-arcs rewritten. */
  function AnyMatches(g: Graph, side: MatchType, sigma: int, rewriteBoth: bool, state: nat, symbol: int): seq<Arc>
    requires state < |g.arcs|
  {
    if symbol == sigma && sigma != NO_LABEL then []
    else
      Matches(g, side, state, symbol)
      + if sigma == NO_LABEL || !IsReal(symbol) then []
        else Rewritten(Matches(g, side, state, sigma), sigma, symbol, rewriteBoth, side)
  }

  class SigmaMatcher {
    const matcher: SortedMatcher
    const sigma: int
    const rewriteBoth: bool
    var sigmaMatch: int
    var matchLabel: int
    var hasSigma: bool
    var state: Option<nat>
    var error: bool

    ghost predicate Valid()
      reads this, matcher
    {
      && sigma != EPSILON && matcher.Valid() && AllSorted(matcher.g, matcher.side)
      && (state.Some? ==> matcher.state == state && state.value < |matcher.g.arcs|
                          && (hasSigma <==> sigma != NO_LABEL && Matches(matcher.g, matcher.side, state.value, sigma) != []))
    }

    /** What the any-arcs still have to add. */
    ghost function ToCome(): seq<Arc>
      requires state.Some? && state.value < |matcher.g.arcs|
      reads this
    {
      if hasSigma && sigmaMatch == NO_LABEL && IsReal(matchLabel)
      then Rewritten(Matches(matcher.g, matcher.side, state.value, sigma), sigma, matchLabel, rewriteBoth, matcher.side)
      else []
    }

    ghost function Remaining(): seq<Arc>
      requires matcher.Valid() && matcher.searched && state.Some? && state.value < |matcher.g.arcs|
      reads this, matcher
    {
      (if sigmaMatch == NO_LABEL then matcher.Remaining()
       else Rewritten(matcher.Remaining(), sigma, sigmaMatch, rewriteBoth, matcher.side)) + ToCome()
    }

    constructor (matcher: SortedMatcher, sigma: int, rewriteBoth: bool)
      requires matcher.Valid() && AllSorted(matcher.g, matcher.side) && sigma != EPSILON
      ensures Valid() && this.matcher == matcher && this.sigma == sigma && this.rewriteBoth == rewriteBoth && !error
    {
      this.matcher, this.sigma, this.rewriteBoth := matcher, sigma, rewriteBoth;
      sigmaMatch, matchLabel, hasSigma, state, error := NO_LABEL, NO_LABEL, false, None, false;
    }

    method SetState(state: nat)
      requires Valid() && state < |matcher.g.arcs|
      modifies this, matcher
      ensures Valid() && this.state == Some(state) && error == old(error)
    {
      hide Matches, Scan;
      if this.state == Some(state) {
        return;
      }
      this.state := Some(state);
      matcher.SetState(state);
      hasSigma := false;
      if sigma != NO_LABEL {
        hasSigma := matcher.Find(sigma);
      }
    }

    method Find(symbol: int) returns (found: bool)
      requires Valid() && state.Some?
      modifies this, matcher
      ensures Valid() && state == old(state)
      ensures error <==> old(error) || (symbol == sigma && sigma != NO_LABEL)
      ensures found <==> AnyMatches(matcher.g, matcher.side, sigma, rewriteBoth, state.value, symbol) != []
      ensures found ==> matcher.searched && (matcher.Remaining() != [] || ToCome() == [])
                        && Remaining() == AnyMatches(matcher.g, matcher.side, sigma, rewriteBoth, state.value, symbol)
    {
      hide Matches, Scan;
      matchLabel := symbol;
      if symbol == sigma && sigma != NO_LABEL {
        error := true;
        return false;
      }
      found := matcher.Find(symbol);
      if found {
        sigmaMatch := NO_LABEL;
        return;
      }
      if hasSigma && IsReal(symbol) {
        found := matcher.Find(sigma);
        if found {
          sigmaMatch := symbol;
        }
      }
    }

    method Done() returns (done: bool)
      requires Valid() && state.Some? && matcher.searched && (matcher.Remaining() != [] || ToCome() == [])
      ensures done <==> Remaining() == []
    {
      done := matcher.Done();
    }

    method Value() returns (arc: Arc)
      requires Valid() && state.Some? && matcher.searched && (matcher.Remaining() != [] || ToCome() == []) && Remaining() != []
      ensures arc == Remaining()[0]
    {
      arc := matcher.Value();
      if sigmaMatch != NO_LABEL {
        arc := Rewrite(arc, sigma, sigmaMatch, rewriteBoth, matcher.side);
      }
    }

    /** Passes a match; when the state's own run out, carries on with the any-arcs. */
    method Next()
      requires Valid() && state.Some? && matcher.searched && (matcher.Remaining() != [] || ToCome() == []) && Remaining() != []
      modifies this, matcher
      ensures Valid() && state == old(state) && matcher.searched && (matcher.Remaining() != [] || ToCome() == [])
      ensures Remaining() == old(Remaining())[1..]
    {
      hide Matches, Scan;
      hide AllSorted, Rewritten, AnyMatches, SortedMatcher.Valid, SortedMatcher.Remaining;
      DroppingFirst(matcher.Remaining(), ToCome(), sigma, sigmaMatch, rewriteBoth, matcher.side);
      matcher.Next();
      var done := matcher.Done();
      if done && hasSigma && sigmaMatch == NO_LABEL && IsReal(matchLabel) {
        GoOn();
      }
    }

    /** Goes on from the state's own matches to its any-arcs. */
    method GoOn()
      requires Valid() && state.Some? && hasSigma && sigmaMatch == NO_LABEL && IsReal(matchLabel)
      requires matcher.searched && matcher.Remaining() == []
      modifies this`sigmaMatch, matcher
      ensures Valid() && matcher.searched && matcher.Remaining() != [] && ToCome() == [] && Remaining() == old(Remaining())
    {
      hide Matches, Scan, Rewritten, AnyMatches;
      var _ := matcher.Find(sigma);
      sigmaMatch := matchLabel;
    }
  }

  lemma DroppingFirst(own: seq<Arc>, coming: seq<Arc>, implicit: int, matched: int, rewriteBoth: bool, side: MatchType)
    requires own != []
    ensures (own + coming)[1..] == own[1..] + coming
    ensures (Rewritten(own, implicit, matched, rewriteBoth, side) + coming)[1..]
         == Rewritten(own[1..], implicit, matched, rewriteBoth, side) + coming
  {
    assert Rewritten(own, implicit, matched, rewriteBoth, side)[1..] == Rewritten(own[1..], implicit, matched, rewriteBoth, side);
  }

  /** For a real label, the state's arcs for it and then a stand-in for each of its
      any-arcs: every arc listed answers to the label. */
  lemma AnyMatchesAnswer(g: Graph, side: MatchType, sigma: int, rewriteBoth: bool, state: nat, symbol: int)
    requires state < |g.arcs| && symbol != EPSILON && symbol != NO_LABEL && sigma != EPSILON && symbol != sigma
    ensures var listed, own := AnyMatches(g, side, sigma, rewriteBoth, state, symbol), Scan(g.arcs[state], side, symbol);
            && (forall arc | arc in listed :: Answers(arc, side, symbol)) && own <= listed
            && if sigma == NO_LABEL then listed == own
               else StandIns(listed[|own|..], Scan(g.arcs[state], side, sigma), sigma, symbol, rewriteBoth, side, ZERO)
  {
    hide Scan, Rewritten;
    ScanAnswers(g.arcs[state], side, symbol);
    ScanAnswers(g.arcs[state], side, sigma);
    assert Matches(g, side, state, symbol) == Scan(g.arcs[state], side, symbol);
    RewrittenStandIn(Scan(g.arcs[state], side, sigma), sigma, symbol, rewriteBoth, side);
    if sigma != NO_LABEL {
      assert Matches(g, side, state, sigma) == Scan(g.arcs[state], side, sigma);
    }
  }

  // -- Failing over: what another state matches instead ------------------------------------------

  /** The label the failure arcs are looked up by. */
  function Searched(phi: int): int {
    if phi == EPSILON then NO_LABEL else phi
  }

  ghost predicate FailsOver(g: Graph, side: MatchType, phi: int, phiLoop: bool, state: nat)
    requires state < |g.arcs|
  {
    var failing := Matches(g, side, state, Searched(phi));
    failing != [] && !(phiLoop && failing[0].nextstate == state)
  }

  /** No chain of failure arcs goes on forever: each lowers a rank. */
  ghost predicate Acyclic(g: Graph, side: MatchType, phi: int, phiLoop: bool, rank: nat -> nat) {
    forall s: nat | s < |g.arcs| && FailsOver(g, side, phi, phiLoop, s) ::
      && Matches(g, side, s, Searched(phi))[0].nextstate < |g.arcs|
      && rank(Matches(g, side, s, Searched(phi))[0].nextstate) < rank(s)
  }

  function Loops(count: nat, side: MatchType, state: nat): (r: seq<Arc>)
    ensures |r| == count
  {
    seq(count, _ => LoopArc(side, state))
  }

  function Weighted(arcs: seq<Arc>, weight: Cost): (r: seq<Arc>)
    ensures |r| == |arcs|
  {
    seq(|arcs|, k requires 0 <= k < |arcs| => arcs[k].(weight := weight.Plus(arcs[k].weight)))
  }

  /** The matches of the first state along the failure chain that has any, at the
      weight of the arcs failed over; or where the chain loops, the looping arcs
      rewritten; or none where it ends. */
  ghost function FirstMatches(g: Graph, side: MatchType, phi: int, phiLoop: bool, rewriteBoth: bool, rank: nat -> nat,
                              state: nat, symbol: int, weight: Cost): seq<Arc>
    requires Acyclic(g, side, phi, phiLoop, rank) && state < |g.arcs|
    decreases rank(state)
  {
    var own := Matches(g, side, state, symbol);
    var failing := Matches(g, side, state, Searched(phi));
    if own != [] then Weighted(own, weight)
    else if failing == [] then []
    else if phiLoop && failing[0].nextstate == state then Weighted(Rewritten(failing, phi, symbol, rewriteBoth, side), weight)
    else FirstMatches(g, side, phi, phiLoop, rewriteBoth, rank, failing[0].nextstate, symbol, weight.Plus(failing[0].weight))
  }

  /** Whether a state failed over along the chain has several failure arcs. */
  ghost predicate PassesSeveral(g: Graph, side: MatchType, phi: int, phiLoop: bool, rank: nat -> nat, state: nat, symbol: int)
    requires Acyclic(g, side, phi, phiLoop, rank) && state < |g.arcs|
    decreases rank(state)
  {
    var failing := Matches(g, side, state, Searched(phi));
    && Matches(g, side, state, symbol) == [] && FailsOver(g, side, phi, phiLoop, state)
    && (|failing| > 1 || PassesSeveral(g, side, phi, phiLoop, rank, failing[0].nextstate, symbol))
  }

  /** What a label matches at a state: nothing, and an error, for a real failure label
      itself; where epsilon is the failure label, nothing for no label, and for epsilon
      the self-loop, once for each failure arc if there are any; the state's own matches
      for what nothing stands in for; and otherwise the first along the chain. */
  ghost function PhiMatches(g: Graph, side: MatchType, phi: int, phiLoop: bool, rewriteBoth: bool, rank: nat -> nat, state: nat, symbol: int): seq<Arc>
    requires (phi != NO_LABEL ==> Acyclic(g, side, phi, phiLoop, rank)) && state < |g.arcs|
  {
    if symbol == phi && IsReal(phi) then []
    else if phi == EPSILON && symbol == NO_LABEL then []
    else if phi == EPSILON && symbol == EPSILON && Matches(g, side, state, NO_LABEL) != [] then
      Loops(|Matches(g, side, state, NO_LABEL)|, side, state)
    else if phi == NO_LABEL || !IsReal(symbol) then Matches(g, side, state, symbol)
    else FirstMatches(g, side, phi, phiLoop, rewriteBoth, rank, state, symbol, ZERO)
  }

  class PhiMatcher {
    const matcher: SortedMatcher
    const phi: int
    const phiLoop: bool
    const rewriteBoth: bool
    var phiMatch: int
    var phiWeight: Cost
    var hasPhi: bool
    var state: Option<nat>
    var error: bool

    ghost predicate Valid()
      reads this, matcher
    {
      && matcher.Valid() && AllSorted(matcher.g, matcher.side)
      && (state.Some? ==> state.value < |matcher.g.arcs| && (hasPhi <==> phi != NO_LABEL))
    }

    ghost function Remaining(): seq<Arc>
      requires matcher.Valid() && matcher.searched && state.Some?
      reads this, matcher
    {
      var arcs := matcher.Remaining();
      if phiMatch == EPSILON then Loops(|arcs|, matcher.side, state.value)
      else if phiMatch == NO_LABEL then Weighted(arcs, phiWeight)
      else Weighted(Rewritten(arcs, phi, phiMatch, rewriteBoth, matcher.side), phiWeight)
    }

    constructor (matcher: SortedMatcher, phi: int, phiLoop: bool, rewriteBoth: bool)
      requires matcher.Valid() && AllSorted(matcher.g, matcher.side)
      ensures Valid() && this.matcher == matcher && this.phi == phi && this.phiLoop == phiLoop && this.rewriteBoth == rewriteBoth && !error
    {
      this.matcher, this.phi, this.phiLoop, this.rewriteBoth := matcher, phi, phiLoop, rewriteBoth;
      phiMatch, phiWeight, hasPhi, state, error := NO_LABEL, ZERO, false, None, false;
    }

    method SetState(state: nat)
      requires Valid() && state < |matcher.g.arcs|
      modifies this, matcher
      ensures Valid() && this.state == Some(state) && error == old(error)
    {
      if this.state == Some(state) {
        return;
      }
      matcher.SetState(state);
      this.state := Some(state);
      hasPhi := phi != NO_LABEL;
    }

    /** Looks a label up, along the chain of failure arcs if it is a real one. */
    method Find(symbol: int, ghost rank: nat -> nat) returns (found: bool)
      requires Valid() && state.Some? && (phi != NO_LABEL ==> Acyclic(matcher.g, matcher.side, phi, phiLoop, rank))
      modifies this, matcher
      ensures Valid() && state == old(state)
      ensures error <==> old(error) || (symbol == phi && IsReal(phi))
                         || (phi != NO_LABEL && IsReal(symbol)
                             && PassesSeveral(matcher.g, matcher.side, phi, phiLoop, rank, state.value, symbol))
      ensures found <==> PhiMatches(matcher.g, matcher.side, phi, phiLoop, rewriteBoth, rank, state.value, symbol) != []
      ensures found ==> matcher.searched
                        && Remaining() == PhiMatches(matcher.g, matcher.side, phi, phiLoop, rewriteBoth, rank, state.value, symbol)
    {
      hide Matches, Scan, Weighted, Rewritten, FirstMatches, PassesSeveral;
      if symbol == phi && IsReal(phi) {
        error := true;
        return false;
      }
      matcher.SetState(state.value);
      phiMatch, phiWeight := NO_LABEL, ZERO;
      if phi == EPSILON {
        if symbol == NO_LABEL {
          return false;
        }
        if symbol == EPSILON {
          var failing := matcher.Find(NO_LABEL);
          if !failing {
            found := matcher.Find(EPSILON);
            WeightedByNothing(matcher.Remaining());
          } else {
            phiMatch := EPSILON;
            found := true;
          }
          return;
        }
      }
      if !hasPhi || !IsReal(symbol) {
        found := matcher.Find(symbol);
        WeightedByNothing(matcher.Remaining());
        return;
      }
      found := FollowChain(symbol, rank);
    }

    /** Passes a failure arc: it is an error if there is another. */
    method CheckForOthers()
      requires matcher.Valid() && matcher.searched && matcher.Remaining() != []
      modifies this`error, matcher
      ensures matcher.Valid() && matcher.state == old(matcher.state)
      ensures error <==> old(error) || |old(matcher.Remaining())| > 1
    {
      matcher.Next();
      var done := matcher.Done();
      if !done {
        error := true;
      }
    }

    method FindAt(s: nat, symbol: int) returns (found: bool)
      requires matcher.Valid() && AllSorted(matcher.g, matcher.side) && s < |matcher.g.arcs|
      modifies matcher
      ensures matcher.Valid() && matcher.searched && matcher.state == Some(s)
      ensures matcher.Remaining() == Matches(matcher.g, matcher.side, s, symbol) && (found <==> matcher.Remaining() != [])
    {
      hide Matches, SortedBy;
      matcher.SetState(s);
      found := matcher.Find(symbol);
    }

    method FollowChain(symbol: int, ghost rank: nat -> nat) returns (found: bool)
      requires Valid() && state.Some? && hasPhi && IsReal(symbol) && phiMatch == NO_LABEL && phiWeight == ZERO
      requires Acyclic(matcher.g, matcher.side, phi, phiLoop, rank)
      modifies this`phiMatch, this`phiWeight, this`error, matcher
      ensures Valid()
      ensures error <==> old(error) || PassesSeveral(matcher.g, matcher.side, phi, phiLoop, rank, state.value, symbol)
      ensures found <==> FirstMatches(matcher.g, matcher.side, phi, phiLoop, rewriteBoth, rank, state.value, symbol, ZERO) != []
      ensures found ==> matcher.searched
                        && Remaining() == FirstMatches(matcher.g, matcher.side, phi, phiLoop, rewriteBoth, rank, state.value, symbol, ZERO)
    {
      hide Matches, Scan, Weighted, Rewritten, FirstMatches, PassesSeveral, Acyclic, SortedBy, AllSorted, Searched, SortedMatcher.Valid, SortedMatcher.Remaining;
      ghost var g, side, answer := matcher.g, matcher.side, FirstMatches(matcher.g, matcher.side, phi, phiLoop, rewriteBoth, rank, state.value, symbol, ZERO);
      ghost var several := error || PassesSeveral(g, side, phi, phiLoop, rank, state.value, symbol);
      var s := state.value;
      found := FindAt(s, symbol);
      while !found
        invariant matcher.Valid() && s < |g.arcs| && matcher.state == Some(s) && matcher.searched
        invariant phiMatch == NO_LABEL && matcher.Remaining() == Matches(g, side, s, symbol)
        invariant found <==> matcher.Remaining() != []
        invariant error || PassesSeveral(g, side, phi, phiLoop, rank, s, symbol) <==> several
        invariant FirstMatches(g, side, phi, phiLoop, rewriteBoth, rank, s, symbol, phiWeight) == answer
        decreases rank(s)
      {
        var failing := FindAt(s, Searched(phi));
        if !failing {
          ChainEnd(g, side, phi, phiLoop, rewriteBoth, rank, s, symbol, phiWeight);
          return false;
        }
        var arc := matcher.Value();
        if phiLoop && arc.nextstate == s {
          ChainEnd(g, side, phi, phiLoop, rewriteBoth, rank, s, symbol, phiWeight);
          phiMatch := symbol;
          return true;
        }
        ChainStep(g, side, phi, phiLoop, rewriteBoth, rank, s, symbol, phiWeight);
        phiWeight := phiWeight.Plus(arc.weight);
        s := arc.nextstate;
        CheckForOthers();
        found := FindAt(s, symbol);
      }
      ChainEnd(g, side, phi, phiLoop, rewriteBoth, rank, s, symbol, phiWeight);
    }

    method Done() returns (done: bool)
      requires Valid() && state.Some? && matcher.searched
      ensures done <==> Remaining() == []
    {
      done := matcher.Done();
    }

    method Value() returns (arc: Arc)
      requires Valid() && state.Some? && matcher.searched && Remaining() != []
      ensures arc == Remaining()[0]
    {
      arc := matcher.Value();
      if phiMatch == NO_LABEL && phiWeight == ZERO {
        ZeroPlus(arc.weight);
      } else if phiMatch == EPSILON {
        arc := LoopArc(matcher.side, state.value);
      } else {
        var weight := phiWeight.Plus(arc.weight);
        if phiMatch != NO_LABEL {
          arc := Rewrite(arc, phi, phiMatch, rewriteBoth, matcher.side);
        }
        arc := arc.(weight := weight);
      }
    }

    method Next()
      requires Valid() && state.Some? && matcher.searched && Remaining() != []
      modifies matcher
      ensures Valid() && matcher.searched && Remaining() == old(Remaining())[1..]
    {
      hide Matches, Scan, Weighted, Rewritten, Loops;
      WeightedDroppingFirst(matcher.Remaining(), phi, phiMatch, rewriteBoth, matcher.side, phiWeight);
      matcher.Next();
    }
  }

  lemma WeightedDroppingFirst(arcs: seq<Arc>, implicit: int, matched: int, rewriteBoth: bool, side: MatchType, weight: Cost)
    requires arcs != []
    ensures Weighted(arcs, weight)[1..] == Weighted(arcs[1..], weight)
    ensures Weighted(Rewritten(arcs, implicit, matched, rewriteBoth, side), weight)[1..]
         == Weighted(Rewritten(arcs[1..], implicit, matched, rewriteBoth, side), weight)
    ensures forall state :: Loops(|arcs|, side, state)[1..] == Loops(|arcs[1..]|, side, state)
  {}

  /** Where the state fails over, its matches are those of the next state at more weight. */
  lemma ChainStep(g: Graph, side: MatchType, phi: int, phiLoop: bool, rewriteBoth: bool, rank: nat -> nat, state: nat, symbol: int, weight: Cost)
    requires Acyclic(g, side, phi, phiLoop, rank) && state < |g.arcs| && Matches(g, side, state, symbol) == []
    requires FailsOver(g, side, phi, phiLoop, state)
    ensures var failing := Matches(g, side, state, Searched(phi));
            var arc := failing[0];
            && arc.nextstate < |g.arcs| && rank(arc.nextstate) < rank(state)
            && FirstMatches(g, side, phi, phiLoop, rewriteBoth, rank, state, symbol, weight)
               == FirstMatches(g, side, phi, phiLoop, rewriteBoth, rank, arc.nextstate, symbol, weight.Plus(arc.weight))
            && (PassesSeveral(g, side, phi, phiLoop, rank, state, symbol)
                <==> |failing| > 1 || PassesSeveral(g, side, phi, phiLoop, rank, arc.nextstate, symbol))
  {
    hide Matches, Scan;
  }

  /** Where the state does not fail over, its matches are there. */
  lemma ChainEnd(g: Graph, side: MatchType, phi: int, phiLoop: bool, rewriteBoth: bool, rank: nat -> nat, state: nat, symbol: int, weight: Cost)
    requires Acyclic(g, side, phi, phiLoop, rank) && state < |g.arcs|
    requires Matches(g, side, state, symbol) != [] || !FailsOver(g, side, phi, phiLoop, state)
    ensures !PassesSeveral(g, side, phi, phiLoop, rank, state, symbol)
    ensures FirstMatches(g, side, phi, phiLoop, rewriteBoth, rank, state, symbol, weight)
         == if Matches(g, side, state, symbol) != [] then Weighted(Matches(g, side, state, symbol), weight)
            else Weighted(Rewritten(Matches(g, side, state, Searched(phi)), phi, symbol, rewriteBoth, side), weight)
  {
    hide Matches, Scan;
  }

  lemma WeightedByNothing(arcs: seq<Arc>)
    ensures Weighted(arcs, ZERO) == arcs
  {}

  lemma ZeroPlus(weight: Cost)
    ensures ZERO.Plus(weight) == weight
  {}

  /** States failed over one after the other, and the last one arrived at. */
  ghost predicate FailureChain(g: Graph, side: MatchType, phi: int, phiLoop: bool, symbol: int, chain: seq<nat>) {
    && |chain| > 0 && chain[0] < |g.arcs|
    && (|chain| > 1 ==>
          && Scan(g.arcs[chain[0]], side, symbol) == [] && FailsOver(g, side, phi, phiLoop, chain[0])
          && chain[1] == Matches(g, side, chain[0], Searched(phi))[0].nextstate
          && FailureChain(g, side, phi, phiLoop, symbol, chain[1..]))
  }

  /** The weight of the arcs failed over. */
  ghost function ChainWeight(g: Graph, side: MatchType, phi: int, phiLoop: bool, symbol: int, chain: seq<nat>): Cost
    requires FailureChain(g, side, phi, phiLoop, symbol, chain)
  {
    if |chain| == 1 then ZERO
    else Matches(g, side, chain[0], Searched(phi))[0].weight.Plus(ChainWeight(g, side, phi, phiLoop, symbol, chain[1..]))
  }

  lemma {:induction false} EndInGraph(g: Graph, side: MatchType, phi: int, phiLoop: bool, symbol: int, chain: seq<nat>)
    requires FailureChain(g, side, phi, phiLoop, symbol, chain)
    ensures chain[|chain| - 1] < |g.arcs|
  {
    if |chain| > 1 {
      EndInGraph(g, side, phi, phiLoop, symbol, chain[1..]);
    }
  }

  /** What the failure chain comes to: at its end either the state's own arcs for the label
      or stand-ins for its looping failure arcs, at the weight of the arcs failed over on
      top of their own, or nothing where nothing is left to fail over to. */
  ghost predicate EndsIn(g: Graph, side: MatchType, phi: int, phiLoop: bool, rewriteBoth: bool, symbol: int, chain: seq<nat>, listed: seq<Arc>, weight: Cost)
    requires FailureChain(g, side, phi, phiLoop, symbol, chain)
  {
    EndInGraph(g, side, phi, phiLoop, symbol, chain);
    var at := chain[|chain| - 1];
    var own := Scan(g.arcs[at], side, symbol);
    var failing := Matches(g, side, at, Searched(phi));
    var total := weight.Plus(ChainWeight(g, side, phi, phiLoop, symbol, chain));
    if own != [] then |listed| == |own| && forall k | 0 <= k < |own| :: listed[k] == own[k].(weight := total.Plus(own[k].weight))
    else !FailsOver(g, side, phi, phiLoop, at) && StandIns(listed, failing, phi, symbol, rewriteBoth, side, total)
  }

  /** The matches along the failure chain are what some chain of failures from the state
      comes to. */
  lemma {:induction false} FirstMatchesMean(g: Graph, side: MatchType, phi: int, phiLoop: bool, rewriteBoth: bool, rank: nat -> nat,
                                            state: nat, symbol: int, weight: Cost) returns (chain: seq<nat>)
    requires Acyclic(g, side, phi, phiLoop, rank) && state < |g.arcs|
    requires phi != NO_LABEL && symbol != EPSILON && symbol != NO_LABEL
    ensures FailureChain(g, side, phi, phiLoop, symbol, chain) && chain[0] == state
    ensures EndsIn(g, side, phi, phiLoop, rewriteBoth, symbol, chain, FirstMatches(g, side, phi, phiLoop, rewriteBoth, rank, state, symbol, weight), weight)
    decreases rank(state)
  {
    hide Scan, Rewritten, Weighted, StandIns, Acyclic;
    assert Matches(g, side, state, symbol) == Scan(g.arcs[state], side, symbol);
    if Matches(g, side, state, symbol) == [] && FailsOver(g, side, phi, phiLoop, state) {
      ChainStep(g, side, phi, phiLoop, rewriteBoth, rank, state, symbol, weight);
      var arc := Matches(g, side, state, Searched(phi))[0];
      var rest := FirstMatchesMean(g, side, phi, phiLoop, rewriteBoth, rank, arc.nextstate, symbol, weight.Plus(arc.weight));
      chain := [state] + rest;
      LongerChain(g, side, phi, phiLoop, rewriteBoth, symbol, state, rest,
                  FirstMatches(g, side, phi, phiLoop, rewriteBoth, rank, state, symbol, weight), weight);
    } else {
      chain := [state];
      ChainEnd(g, side, phi, phiLoop, rewriteBoth, rank, state, symbol, weight);
      ChainStops(g, side, phi, phiLoop, rewriteBoth, symbol, state, weight);
    }
  }

  lemma LongerChain(g: Graph, side: MatchType, phi: int, phiLoop: bool, rewriteBoth: bool, symbol: int, state: nat, rest: seq<nat>, listed: seq<Arc>, weight: Cost)
    requires state < |g.arcs| && FailureChain(g, side, phi, phiLoop, symbol, rest)
    requires Scan(g.arcs[state], side, symbol) == [] && FailsOver(g, side, phi, phiLoop, state)
    requires rest[0] == Matches(g, side, state, Searched(phi))[0].nextstate
    requires EndsIn(g, side, phi, phiLoop, rewriteBoth, symbol, rest, listed, weight.Plus(Matches(g, side, state, Searched(phi))[0].weight))
    ensures FailureChain(g, side, phi, phiLoop, symbol, [state] + rest)
    ensures EndsIn(g, side, phi, phiLoop, rewriteBoth, symbol, [state] + rest, listed, weight)
  {
    hide Matches, Scan, StandIns;
    var chain := [state] + rest;
    assert chain[1..] == rest;
    PlusAssociates(weight, Matches(g, side, state, Searched(phi))[0].weight, ChainWeight(g, side, phi, phiLoop, symbol, rest));
  }

  lemma PlusAssociates(a: Cost, b: Cost, c: Cost)
    ensures a.Plus(b).Plus(c) == a.Plus(b.Plus(c))
    ensures a.Plus(ZERO) == a
  {}

  lemma ChainStops(g: Graph, side: MatchType, phi: int, phiLoop: bool, rewriteBoth: bool, symbol: int, state: nat, weight: Cost)
    requires state < |g.arcs| && phi != NO_LABEL && symbol != EPSILON && symbol != NO_LABEL
    requires Matches(g, side, state, symbol) != [] || !FailsOver(g, side, phi, phiLoop, state)
    ensures FailureChain(g, side, phi, phiLoop, symbol, [state])
    ensures EndsIn(g, side, phi, phiLoop, rewriteBoth, symbol, [state],
                   if Matches(g, side, state, symbol) != [] then Weighted(Matches(g, side, state, symbol), weight)
                   else Weighted(Rewritten(Matches(g, side, state, Searched(phi)), phi, symbol, rewriteBoth, side), weight), weight)
  {
    hide Scan, Rewritten;
    PlusAssociates(weight, ZERO, ZERO);
    var failing := Matches(g, side, state, Searched(phi));
    MatchesAnswer(g, side, state, Searched(phi));
    forall arc | arc in failing ensures Answers(arc, side, phi) {}
    RewrittenStandIn(failing, phi, symbol, rewriteBoth, side);
    WeightedStandIn(Rewritten(failing, phi, symbol, rewriteBoth, side), failing, phi, symbol, rewriteBoth, side, weight);
  }

  lemma WeightedStandIn(made: seq<Arc>, arcs: seq<Arc>, implicit: int, matched: int, rewriteBoth: bool, side: MatchType, weight: Cost)
    requires StandIns(made, arcs, implicit, matched, rewriteBoth, side, ZERO)
    ensures StandIns(Weighted(made, weight), arcs, implicit, matched, rewriteBoth, side, weight)
  {
    forall k | 0 <= k < |arcs| ensures StandsIn(Weighted(made, weight)[k], arcs[k], implicit, matched, rewriteBoth, side, weight) {
      assert StandsIn(made[k], arcs[k], implicit, matched, rewriteBoth, side, ZERO);
    }
  }

  // -- Several labels that consume nothing -----------------------------------------------------

  ghost predicate Increasing(labels: seq<int>) {
    forall i, j | 0 <= i < j < |labels| :: labels[i] < labels[j]
  }

  /** Where a label is among sorted ones, or would go. */
  method Place(labels: seq<int>, symbol: int) returns (found: bool, at: nat)
    requires Increasing(labels)
    ensures at <= |labels|
    ensures forall i | 0 <= i < at :: labels[i] < symbol
    ensures found ==> at < |labels| && labels[at] == symbol
    ensures !found ==> forall i | at <= i < |labels| :: labels[i] > symbol
    ensures found <==> symbol in labels
  {
    var lo, hi := 0, |labels|;
    while lo < hi
      invariant 0 <= lo <= hi <= |labels|
      invariant forall i | 0 <= i < lo :: labels[i] < symbol
      invariant forall i | hi <= i < |labels| :: labels[i] > symbol
    {
      var mid := (lo + hi) / 2;
      if labels[mid] == symbol {
        return true, mid;
      } else if labels[mid] < symbol {
        lo := mid + 1;
      } else {
        hi := mid;
      }
    }
    return false, lo;
  }

  /** The matches of the labels from a place on, one label after the other. */
  function Listed(g: Graph, side: MatchType, labels: seq<int>, from: nat, state: nat): seq<Arc>
    requires from <= |labels| && state < |g.arcs|
    decreases |labels| - from
  {
    if from == |labels| then [] else Matches(g, side, state, labels[from]) + Listed(g, side, labels, from + 1, state)
  }

  /** Every arc that consumes nothing, as it is listed. */
  function AllListed(g: Graph, side: MatchType, labels: seq<int>, state: nat): seq<Arc>
    requires state < |g.arcs|
  {
    Listed(g, side, labels, 0, state) + Matches(g, side, state, NO_LABEL)
  }

  function StayingLoop(state: nat): Arc {
    Arc(NO_LABEL, NO_LABEL, ZERO, state)
  }

  /** What a label matches: asked for no label, everything that consumes nothing, if that
      is to be listed; asked for one of the labels, staying put, if that is what they
      stand for; and the state's own matches otherwise. */
  function MultiEpsMatches(g: Graph, side: MatchType, labels: seq<int>, list: bool, loop: bool, state: nat, symbol: int): seq<Arc>
    requires state < |g.arcs|
  {
    if symbol == NO_LABEL && list then AllListed(g, side, labels, state)
    else if IsReal(symbol) && loop && symbol in labels then [StayingLoop(state)]
    else Matches(g, side, state, symbol)
  }

  class MultiEpsMatcher {
    const matcher: SortedMatcher
    const list: bool
    const loop: bool
    var labels: seq<int>
    var multiEpsIndex: Option<nat>
    var currentLoop: bool
    var loopState: Option<nat>
    var done: bool

    /** Whether a label has been looked up at this state, with these labels. */
    ghost var searched: bool

    ghost predicate Valid()
      reads this, matcher
    {
      && matcher.Valid() && AllSorted(matcher.g, matcher.side)
      && Increasing(labels) && EPSILON !in labels
      && (loopState.Some? ==> matcher.state == loopState && loopState.value < |matcher.g.arcs|)
      && (searched ==>
            && loopState.Some? && (!currentLoop ==> matcher.searched)
            && (done <==> Remaining() == [])
            && (!currentLoop && matcher.Remaining() == [] ==> ToCome() == []))
    }

    /** What the labels after this one still have to list. */
    ghost function ToCome(): seq<Arc>
      requires loopState.Some? && loopState.value < |matcher.g.arcs|
      reads this
    {
      if multiEpsIndex.Some? && multiEpsIndex.value < |labels|
      then Listed(matcher.g, matcher.side, labels, multiEpsIndex.value + 1, loopState.value)
           + Matches(matcher.g, matcher.side, loopState.value, NO_LABEL)
      else []
    }

    ghost function Remaining(): seq<Arc>
      requires matcher.Valid() && loopState.Some? && loopState.value < |matcher.g.arcs| && (!currentLoop ==> matcher.searched)
      reads this, matcher
    {
      if currentLoop then if done then [] else [StayingLoop(loopState.value)]
      else matcher.Remaining() + ToCome()
    }

    constructor (matcher: SortedMatcher, list: bool, loop: bool)
      requires matcher.Valid() && AllSorted(matcher.g, matcher.side)
      ensures Valid() && this.matcher == matcher && this.list == list && this.loop == loop && labels == []
    {
      this.matcher, this.list, this.loop := matcher, list, loop;
      labels, multiEpsIndex, currentLoop, loopState, done, searched := [], None, false, None, true, false;
    }

    /** Adds a label, unless it is epsilon, which is one already. */
    method AddMultiEpsLabel(symbol: int) returns (ok: bool)
      requires Valid()
      modifies this
      ensures Valid() && loopState == old(loopState) && (ok <==> symbol != EPSILON)
      ensures forall other :: other in labels <==> other in old(labels) || (other == symbol && ok)
    {
      if symbol == EPSILON {
        return false;
      }
      var found, at := Place(labels, symbol);
      if !found {
        labels, searched := labels[..at] + [symbol] + labels[at..], false;
      }
      return true;
    }

    method RemoveMultiEpsLabel(symbol: int)
      requires Valid()
      modifies this
      ensures Valid() && loopState == old(loopState)
      ensures forall other :: other in labels <==> other in old(labels) && other != symbol
    {
      var found, at := Place(labels, symbol);
      if found {
        ghost var was := labels;
        labels, searched := labels[..at] + labels[at + 1..], false;
        assert was == was[..at] + [symbol] + was[at + 1..];
      }
    }

    method ClearMultiEpsLabels()
      requires Valid()
      modifies this
      ensures Valid() && loopState == old(loopState) && labels == []
    {
      labels, multiEpsIndex, searched := [], None, false;
    }

    method SetState(state: nat)
      requires Valid() && state < |matcher.g.arcs|
      modifies this, matcher
      ensures Valid() && loopState == Some(state) && labels == old(labels)
    {
      searched := false;
      matcher.SetState(state);
      loopState := Some(state);
    }

    /** Goes on to the next label the state has arcs for. */
    method SeekMultiEps(from: nat) returns (found: bool)
      requires matcher.Valid() && AllSorted(matcher.g, matcher.side) && from <= |labels|
      requires loopState.Some? && matcher.state == loopState && loopState.value < |matcher.g.arcs|
      modifies this`multiEpsIndex, matcher
      ensures matcher.Valid() && matcher.state == loopState && multiEpsIndex.Some?
      ensures found ==> matcher.searched && matcher.Remaining() != []
                        && matcher.Remaining() + ToCome()
                           == Listed(matcher.g, matcher.side, labels, from, loopState.value)
                              + Matches(matcher.g, matcher.side, loopState.value, NO_LABEL)
      ensures !found ==> ToCome() == [] && Listed(matcher.g, matcher.side, labels, from, loopState.value) == []
    {
      hide Matches, Increasing, AllSorted, SortedMatcher.Valid, SortedMatcher.Remaining;
      var index := from;
      while index < |labels|
        invariant from <= index <= |labels|
        invariant matcher.Valid() && matcher.state == loopState
        invariant Listed(matcher.g, matcher.side, labels, from, loopState.value)
               == Listed(matcher.g, matcher.side, labels, index, loopState.value)
      {
        found := LookUp(matcher, labels[index]);
        if found {
          multiEpsIndex := Some(index);
          return;
        }
        index := index + 1;
      }
      multiEpsIndex := Some(|labels|);
      return false;
    }

    method Find(symbol: int) returns (found: bool)
      requires Valid() && loopState.Some?
      modifies this, matcher
      ensures Valid() && searched && loopState == old(loopState) && labels == old(labels)
      ensures Remaining() == MultiEpsMatches(matcher.g, matcher.side, labels, list, loop, loopState.value, symbol)
      ensures found <==> Remaining() != []
    {
      hide Matches, Listed, Increasing, AllSorted, SortedMatcher.Valid, SortedMatcher.Remaining;
      multiEpsIndex, currentLoop, searched := Some(|labels|), false, false;
      if symbol == EPSILON {
        found := LookUp(matcher, EPSILON);
      } else if symbol == NO_LABEL {
        found := false;
        if list {
          found := SeekMultiEps(0);
        }
        if !found {
          found := LookUp(matcher, NO_LABEL);
        }
      } else {
        var listed, _ := Place(labels, symbol);
        if loop && listed {
          currentLoop, found := true, true;
        } else {
          found := LookUp(matcher, symbol);
        }
      }
      done, searched := !found, true;
    }

    method Done() returns (done: bool)
      requires Valid() && searched
      ensures done <==> Remaining() == []
    {
      done := this.done;
    }

    method Value() returns (arc: Arc)
      requires Valid() && searched && Remaining() != []
      ensures arc == Remaining()[0]
    {
      if currentLoop {
        arc := Arc(NO_LABEL, NO_LABEL, ZERO, loopState.value);
      } else {
        arc := matcher.Value();
      }
    }

    /** Passes a match; when a label's run out, carries on with the next that has any. */
    method Next()
      requires Valid() && searched && Remaining() != []
      modifies this, matcher
      ensures Valid() && searched && loopState == old(loopState) && labels == old(labels)
      ensures Remaining() == old(Remaining())[1..]
    {
      hide Matches, Scan, Listed, Increasing, AllSorted, SortedMatcher.Valid, SortedMatcher.Remaining;
      if currentLoop {
        done := true;
        return;
      }
      DropFirst(matcher.Remaining(), ToCome());
      matcher.Next();
      done := matcher.Done();
      if done && multiEpsIndex.Some? && multiEpsIndex.value < |labels| {
        CarryOn();
      }
    }

    /** Moves on from a label whose arcs ran out: to the next that has any, and after the
        last to the arcs that consume nothing by themselves. */
    method CarryOn()
      requires matcher.Valid() && AllSorted(matcher.g, matcher.side) && !currentLoop
      requires loopState.Some? && matcher.state == loopState && loopState.value < |matcher.g.arcs|
      requires multiEpsIndex.Some? && multiEpsIndex.value < |labels|
      modifies this`multiEpsIndex, this`done, matcher
      ensures matcher.Valid() && matcher.state == loopState && matcher.searched
      ensures Remaining() == old(ToCome()) && (done <==> Remaining() == [])
      ensures matcher.Remaining() == [] ==> ToCome() == []
    {
      hide Matches, Listed, Increasing, AllSorted, SortedMatcher.Valid, SortedMatcher.Remaining;
      var found := SeekMultiEps(multiEpsIndex.value + 1);
      if !found {
        found := LookUp(matcher, NO_LABEL);
      }
      done := !found;
    }
  }

  lemma DropFirst(own: seq<Arc>, coming: seq<Arc>)
    requires own != []
    ensures (own + coming)[1..] == own[1..] + coming
  {}

  /** Whether an arc consumes nothing. */
  predicate Stays(side: MatchType, labels: seq<int>, arc: Arc) {
    LabelOf(side, arc) == EPSILON || LabelOf(side, arc) in labels
  }

  function Staying(arcs: seq<Arc>, side: MatchType, labels: seq<int>): seq<Arc> {
    if |arcs| == 0 then []
    else
      var last := arcs[|arcs| - 1];
      Staying(arcs[..|arcs| - 1], side, labels) + if Stays(side, labels, last) then [last] else []
  }

  lemma {:induction false} StayingCount(arcs: seq<Arc>, side: MatchType, labels: seq<int>, arc: Arc)
    ensures multiset(Staying(arcs, side, labels))[arc] == if Stays(side, labels, arc) then multiset(arcs)[arc] else 0
    decreases |arcs|
  {
    if |arcs| > 0 {
      assert arcs == arcs[..|arcs| - 1] + [arcs[|arcs| - 1]];
      StayingCount(arcs[..|arcs| - 1], side, labels, arc);
    }
  }

  lemma {:induction false} ScanCount(arcs: seq<Arc>, side: MatchType, symbol: int, arc: Arc)
    ensures multiset(Scan(arcs, side, symbol))[arc] == if LabelOf(side, arc) == symbol then multiset(arcs)[arc] else 0
    decreases |arcs|
  {
    if |arcs| > 0 {
      assert arcs == arcs[..|arcs| - 1] + [arcs[|arcs| - 1]];
      ScanCount(arcs[..|arcs| - 1], side, symbol, arc);
    }
  }

  /** Whether some label from a place on looks this one up. */
  ghost predicate LooksUp(labels: seq<int>, from: nat, symbol: int) {
    exists i | from <= i < |labels| :: Wanted(labels[i]) == symbol
  }

  lemma {:induction false} LooksUpOnce(labels: seq<int>, from: nat, symbol: int)
    requires from < |labels| && Increasing(labels) && EPSILON !in labels
    ensures LooksUp(labels, from, symbol) <==> Wanted(labels[from]) == symbol || LooksUp(labels, from + 1, symbol)
    ensures Wanted(labels[from]) == symbol ==> !LooksUp(labels, from + 1, symbol)
  {
    if LooksUp(labels, from, symbol) {
      var i :| from <= i < |labels| && Wanted(labels[i]) == symbol;
      assert i == from || from + 1 <= i;
    }
    forall i | from + 1 <= i < |labels|
      ensures Wanted(labels[i]) != Wanted(labels[from])
    {
      assert labels[from] < labels[i] && labels[from] in labels && labels[i] in labels;
    }
  }

  lemma MatchCount(g: Graph, side: MatchType, state: nat, symbol: int, arc: Arc)
    requires state < |g.arcs| && symbol != EPSILON
    ensures multiset(Matches(g, side, state, symbol))[arc] == if LabelOf(side, arc) == Wanted(symbol) then multiset(g.arcs[state])[arc] else 0
  {
    hide Scan;
    ScanCount(g.arcs[state], side, Wanted(symbol), arc);
    assert Matches(g, side, state, symbol) == Scan(g.arcs[state], side, Wanted(symbol));
  }

  /** Each arc is listed once if one of the labels looks it up, and otherwise not at all. */
  lemma {:induction false} ListedCount(g: Graph, side: MatchType, labels: seq<int>, from: nat, state: nat, arc: Arc)
    requires from <= |labels| && state < |g.arcs| && Increasing(labels) && EPSILON !in labels
    ensures multiset(Listed(g, side, labels, from, state))[arc]
         == if LooksUp(labels, from, LabelOf(side, arc)) then multiset(g.arcs[state])[arc] else 0
    decreases |labels| - from
  {
    hide Scan, Matches, Increasing;
    if from < |labels| {
      ListedCount(g, side, labels, from + 1, state, arc);
      MatchCount(g, side, state, labels[from], arc);
      LooksUpOnce(labels, from, LabelOf(side, arc));
    }
  }

  lemma {:induction false} LookingUp(labels: seq<int>, symbol: int)
    requires EPSILON !in labels
    ensures LooksUp(labels, 0, symbol) <==> if symbol == EPSILON then NO_LABEL in labels else symbol != NO_LABEL && symbol in labels
  {
    if symbol in labels {
      var i :| 0 <= i < |labels| && labels[i] == symbol;
      assert labels[i] != EPSILON;
    }
    if NO_LABEL in labels {
      var i :| 0 <= i < |labels| && labels[i] == NO_LABEL;
      assert Wanted(labels[i]) == EPSILON;
    }
    if LooksUp(labels, 0, symbol) {
      var i :| 0 <= i < |labels| && Wanted(labels[i]) == symbol;
      assert labels[i] in labels;
    }
  }

  /** How often an arc is listed, and how often it should be. */
  lemma Multiplicities(g: Graph, side: MatchType, labels: seq<int>, state: nat, arc: Arc)
    requires state < |g.arcs| && Increasing(labels) && EPSILON !in labels
    ensures var here, symbol := multiset(g.arcs[state])[arc], LabelOf(side, arc);
            && multiset(AllListed(g, side, labels, state))[arc]
               == (if symbol == EPSILON then if NO_LABEL in labels then 2 * here else here
                   else if symbol != NO_LABEL && symbol in labels then here else 0)
            && multiset(Staying(g.arcs[state], side, labels))[arc]
               == if symbol == EPSILON || symbol in labels then here else 0
  {
    hide Scan, Staying, Listed, Increasing;
    ListedCount(g, side, labels, 0, state, arc);
    ScanCount(g.arcs[state], side, EPSILON, arc);
    StayingCount(g.arcs[state], side, labels, arc);
    LookingUp(labels, LabelOf(side, arc));
  }

  /** Listing gives every arc that consumes nothing exactly once, if and only if either
      no label is not one of the labels, or the state has no arcs under it or epsilon:
      looking no label up finds the epsilon arcs, so that these are listed twice, and not
      the arcs under it. */
  lemma ListsOnce(g: Graph, side: MatchType, labels: seq<int>, state: nat)
    requires state < |g.arcs| && Increasing(labels) && EPSILON !in labels
    ensures multiset(AllListed(g, side, labels, state)) == multiset(Staying(g.arcs[state], side, labels))
       <==> (NO_LABEL in labels ==> forall arc | arc in g.arcs[state] :: LabelOf(side, arc) != EPSILON && LabelOf(side, arc) != NO_LABEL)
  {
    hide AllListed, Staying, Increasing;
    var arcs := g.arcs[state];
    var listed, staying := multiset(AllListed(g, side, labels, state)), multiset(Staying(arcs, side, labels));
    if NO_LABEL in labels && exists arc :: arc in arcs && (LabelOf(side, arc) == EPSILON || LabelOf(side, arc) == NO_LABEL) {
      var arc :| arc in arcs && (LabelOf(side, arc) == EPSILON || LabelOf(side, arc) == NO_LABEL);
      Multiplicities(g, side, labels, state, arc);
      assert multiset(arcs)[arc] > 0;
      assert listed[arc] != staying[arc];
    } else {
      forall arc
        ensures listed[arc] == staying[arc]
      {
        Multiplicities(g, side, labels, state, arc);
        assert multiset(arcs)[arc] > 0 <==> arc in arcs;
      }
    }
  }
}
