/** The property bits of an FST, and the rules that carry them across an operation.
    Each property has two bits, one that says it holds and one that says it does
    not; with neither set nothing is claimed. */
module Properties {
  import opened Costs
  import opened DecodingGraphs

  const K_EXPANDED: bv64 := 0x0000000000000001
  const K_MUTABLE: bv64 := 0x0000000000000002
  const K_ERROR: bv64 := 0x0000000000000004

  const K_ACCEPTOR: bv64 := 0x0000000000010000
  const K_NOT_ACCEPTOR: bv64 := 0x0000000000020000
  const K_I_DETERMINISTIC: bv64 := 0x0000000000040000
  const K_NON_I_DETERMINISTIC: bv64 := 0x0000000000080000
  const K_O_DETERMINISTIC: bv64 := 0x0000000000100000
  const K_NON_O_DETERMINISTIC: bv64 := 0x0000000000200000
  const K_EPSILONS: bv64 := 0x0000000000400000
  const K_NO_EPSILONS: bv64 := 0x0000000000800000
  const K_I_EPSILONS: bv64 := 0x0000000001000000
  const K_NO_I_EPSILONS: bv64 := 0x0000000002000000
  const K_O_EPSILONS: bv64 := 0x0000000004000000
  const K_NO_O_EPSILONS: bv64 := 0x0000000008000000
  const K_I_LABEL_SORTED: bv64 := 0x0000000010000000
  const K_NOT_I_LABEL_SORTED: bv64 := 0x0000000020000000
  const K_O_LABEL_SORTED: bv64 := 0x0000000040000000
  const K_NOT_O_LABEL_SORTED: bv64 := 0x0000000080000000
  const K_WEIGHTED: bv64 := 0x0000000100000000
  const K_UNWEIGHTED: bv64 := 0x0000000200000000
  const K_CYCLIC: bv64 := 0x0000000400000000
  const K_ACYCLIC: bv64 := 0x0000000800000000
  const K_INITIAL_CYCLIC: bv64 := 0x0000001000000000
  const K_INITIAL_ACYCLIC: bv64 := 0x0000002000000000
  const K_TOP_SORTED: bv64 := 0x0000004000000000
  const K_NOT_TOP_SORTED: bv64 := 0x0000008000000000
  const K_ACCESSIBLE: bv64 := 0x0000010000000000
  const K_NOT_ACCESSIBLE: bv64 := 0x0000020000000000
  const K_CO_ACCESSIBLE: bv64 := 0x0000040000000000
  const K_NOT_CO_ACCESSIBLE: bv64 := 0x0000080000000000
  const K_STRING: bv64 := 0x0000100000000000
  const K_NOT_STRING: bv64 := 0x0000200000000000
  const K_WEIGHTED_CYCLES: bv64 := 0x0000400000000000
  const K_UNWEIGHTED_CYCLES: bv64 := 0x0000800000000000

  const K_NULL_PROPERTIES: bv64 :=
    K_ACCEPTOR | K_I_DETERMINISTIC | K_O_DETERMINISTIC | K_NO_EPSILONS | K_NO_I_EPSILONS | K_NO_O_EPSILONS | K_I_LABEL_SORTED
    | K_O_LABEL_SORTED | K_UNWEIGHTED | K_ACYCLIC | K_INITIAL_ACYCLIC | K_TOP_SORTED | K_ACCESSIBLE | K_CO_ACCESSIBLE | K_STRING
    | K_UNWEIGHTED_CYCLES

  const K_SET_START_PROPERTIES: bv64 :=
    K_EXPANDED | K_MUTABLE | K_ERROR | K_ACCEPTOR | K_NOT_ACCEPTOR | K_I_DETERMINISTIC | K_NON_I_DETERMINISTIC | K_O_DETERMINISTIC
    | K_NON_O_DETERMINISTIC | K_EPSILONS | K_NO_EPSILONS | K_I_EPSILONS | K_NO_I_EPSILONS | K_O_EPSILONS | K_NO_O_EPSILONS
    | K_I_LABEL_SORTED | K_NOT_I_LABEL_SORTED | K_O_LABEL_SORTED | K_NOT_O_LABEL_SORTED | K_WEIGHTED | K_UNWEIGHTED | K_CYCLIC
    | K_ACYCLIC | K_TOP_SORTED | K_NOT_TOP_SORTED | K_CO_ACCESSIBLE | K_NOT_CO_ACCESSIBLE | K_WEIGHTED_CYCLES
    | K_UNWEIGHTED_CYCLES

  const K_SET_FINAL_PROPERTIES: bv64 :=
    K_EXPANDED | K_MUTABLE | K_ERROR | K_ACCEPTOR | K_NOT_ACCEPTOR | K_I_DETERMINISTIC | K_NON_I_DETERMINISTIC | K_O_DETERMINISTIC
    | K_NON_O_DETERMINISTIC | K_EPSILONS | K_NO_EPSILONS | K_I_EPSILONS | K_NO_I_EPSILONS | K_O_EPSILONS | K_NO_O_EPSILONS
    | K_I_LABEL_SORTED | K_NOT_I_LABEL_SORTED | K_O_LABEL_SORTED | K_NOT_O_LABEL_SORTED | K_CYCLIC | K_ACYCLIC | K_INITIAL_CYCLIC
    | K_INITIAL_ACYCLIC | K_TOP_SORTED | K_NOT_TOP_SORTED | K_ACCESSIBLE | K_NOT_ACCESSIBLE | K_WEIGHTED_CYCLES
    | K_UNWEIGHTED_CYCLES

  const K_ADD_STATE_PROPERTIES: bv64 :=
    K_EXPANDED | K_MUTABLE | K_ERROR | K_ACCEPTOR | K_NOT_ACCEPTOR | K_I_DETERMINISTIC | K_NON_I_DETERMINISTIC | K_O_DETERMINISTIC
    | K_NON_O_DETERMINISTIC | K_EPSILONS | K_NO_EPSILONS | K_I_EPSILONS | K_NO_I_EPSILONS | K_O_EPSILONS | K_NO_O_EPSILONS
    | K_I_LABEL_SORTED | K_NOT_I_LABEL_SORTED | K_O_LABEL_SORTED | K_NOT_O_LABEL_SORTED | K_WEIGHTED | K_UNWEIGHTED | K_CYCLIC
    | K_ACYCLIC | K_INITIAL_CYCLIC | K_INITIAL_ACYCLIC | K_TOP_SORTED | K_NOT_TOP_SORTED | K_NOT_ACCESSIBLE | K_NOT_CO_ACCESSIBLE
    | K_NOT_STRING | K_WEIGHTED_CYCLES | K_UNWEIGHTED_CYCLES

  const K_ADD_ARC_PROPERTIES: bv64 :=
    K_EXPANDED | K_MUTABLE | K_ERROR | K_NOT_ACCEPTOR | K_NON_I_DETERMINISTIC | K_NON_O_DETERMINISTIC | K_EPSILONS | K_I_EPSILONS
    | K_O_EPSILONS | K_NOT_I_LABEL_SORTED | K_NOT_O_LABEL_SORTED | K_WEIGHTED | K_CYCLIC | K_INITIAL_CYCLIC | K_NOT_TOP_SORTED
    | K_ACCESSIBLE | K_CO_ACCESSIBLE | K_WEIGHTED_CYCLES

  const K_SET_ARC_PROPERTIES: bv64 :=
    K_EXPANDED | K_MUTABLE | K_ERROR

  const K_DELETE_STATES_PROPERTIES: bv64 :=
    K_EXPANDED | K_MUTABLE | K_ERROR | K_ACCEPTOR | K_I_DETERMINISTIC | K_O_DETERMINISTIC | K_NO_EPSILONS | K_NO_I_EPSILONS
    | K_NO_O_EPSILONS | K_I_LABEL_SORTED | K_O_LABEL_SORTED | K_UNWEIGHTED | K_ACYCLIC | K_INITIAL_ACYCLIC | K_TOP_SORTED
    | K_UNWEIGHTED_CYCLES

  const K_DELETE_ARCS_PROPERTIES: bv64 :=
    K_EXPANDED | K_MUTABLE | K_ERROR | K_ACCEPTOR | K_I_DETERMINISTIC | K_O_DETERMINISTIC | K_NO_EPSILONS | K_NO_I_EPSILONS
    | K_NO_O_EPSILONS | K_I_LABEL_SORTED | K_O_LABEL_SORTED | K_UNWEIGHTED | K_ACYCLIC | K_INITIAL_ACYCLIC | K_TOP_SORTED
    | K_NOT_ACCESSIBLE | K_NOT_CO_ACCESSIBLE | K_UNWEIGHTED_CYCLES

  const K_BINARY_PROPERTIES: bv64 := 0x0000000000000007
  const K_TRINARY_PROPERTIES: bv64 := 0x0000ffffffff0000
  const K_POS_TRINARY_PROPERTIES: bv64 := K_TRINARY_PROPERTIES & 0x5555555555555555
  const K_NEG_TRINARY_PROPERTIES: bv64 := K_TRINARY_PROPERTIES & 0xaaaaaaaaaaaaaaaa

  // -- The rules -------------------------------------------------------------------------

  predicate IsTrivialWeight(weight: Cost) {
    weight == Infinite || weight == ZERO
  }

  /** Sets some bits and clears others, where `b` holds. */
  function When(b: bool, props: bv64, set': bv64, clear: bv64): bv64 {
    if b then (props | set') & !clear else props
  }

  function SetStartProperties(inprops: bv64): bv64 {
    (inprops & K_SET_START_PROPERTIES) | if inprops & K_ACYCLIC != 0 then K_INITIAL_ACYCLIC else 0
  }

  function SetFinalProperties(inprops: bv64, oldWeight: Cost, newWeight: Cost): bv64 {
    var p := When(!IsTrivialWeight(oldWeight), inprops, 0, K_WEIGHTED);
    When(!IsTrivialWeight(newWeight), p, K_WEIGHTED, K_UNWEIGHTED) & (K_SET_FINAL_PROPERTIES | K_WEIGHTED | K_UNWEIGHTED)
  }

  function AddStateProperties(inprops: bv64): bv64 {
    inprops & K_ADD_STATE_PROPERTIES
  }

  /** What an arc's labels, weight and place say, marked in turn. */
  function MarkArc(props: bv64, differs: bool, iEps: bool, oEps: bool, weighted: bool): bv64 {
    var p1 := When(differs, props, K_NOT_ACCEPTOR, K_ACCEPTOR);
    var p2 := When(iEps, p1, K_I_EPSILONS, K_NO_I_EPSILONS);
    var p3 := When(iEps && oEps, p2, K_EPSILONS, K_NO_EPSILONS);
    var p4 := When(oEps, p3, K_O_EPSILONS, K_NO_O_EPSILONS);
    When(weighted, p4, K_WEIGHTED, K_UNWEIGHTED)
  }

  function MarkPlace(props: bv64, iDown: bool, oDown: bool, back: bool): bv64 {
    var p1 := When(iDown, props, K_NOT_I_LABEL_SORTED, K_I_LABEL_SORTED);
    var p2 := When(oDown, p1, K_NOT_O_LABEL_SORTED, K_O_LABEL_SORTED);
    When(back, p2, K_NOT_TOP_SORTED, K_TOP_SORTED)
  }

  function UnmarkArc(props: bv64, differs: bool, iEps: bool, oEps: bool, weighted: bool): bv64 {
    var p1 := When(differs, props, 0, K_NOT_ACCEPTOR);
    var p2 := When(iEps, p1, 0, K_I_EPSILONS);
    var p3 := When(iEps && oEps, p2, 0, K_EPSILONS);
    var p4 := When(oEps, p3, 0, K_O_EPSILONS);
    When(weighted, p4, 0, K_WEIGHTED)
  }

  function KeepAfterAddArc(props: bv64): bv64 {
    var p := props & (K_ADD_ARC_PROPERTIES | K_ACCEPTOR | K_NO_EPSILONS | K_NO_I_EPSILONS | K_NO_O_EPSILONS
                      | K_I_LABEL_SORTED | K_O_LABEL_SORTED | K_UNWEIGHTED | K_TOP_SORTED);
    WithAcyclic(p)
  }

  function WithAcyclic(p: bv64): bv64 {
    if p & K_TOP_SORTED != 0 then p | (K_ACYCLIC | K_INITIAL_ACYCLIC) else p
  }

  function KeepAfterSetArc(props: bv64): bv64 {
    props & (K_SET_ARC_PROPERTIES | K_ACCEPTOR | K_NOT_ACCEPTOR | K_EPSILONS | K_NO_EPSILONS | K_I_EPSILONS | K_NO_I_EPSILONS
             | K_O_EPSILONS | K_NO_O_EPSILONS | K_WEIGHTED | K_UNWEIGHTED)
  }

  function AddArcProperties(inprops: bv64, s: nat, arc: Arc, prev: Option<Arc>): bv64 {
    var p := MarkArc(inprops, arc.ilabel != arc.olabel, arc.ilabel == EPSILON, arc.olabel == EPSILON, !IsTrivialWeight(arc.weight));
    KeepAfterAddArc(MarkPlace(p, prev.Some? && prev.value.ilabel > arc.ilabel, prev.Some? && prev.value.olabel > arc.olabel, arc.nextstate <= s))
  }

  function SetArcProperties(inprops: bv64, was: Arc, arc: Arc): bv64 {
    var p := UnmarkArc(inprops, was.ilabel != was.olabel, was.ilabel == EPSILON, was.olabel == EPSILON, !IsTrivialWeight(was.weight));
    KeepAfterSetArc(MarkArc(p, arc.ilabel != arc.olabel, arc.ilabel == EPSILON, arc.olabel == EPSILON, !IsTrivialWeight(arc.weight)))
  }

  function DeleteStatesProperties(inprops: bv64): bv64 {
    inprops & K_DELETE_STATES_PROPERTIES
  }

  function DeleteAllStatesProperties(inprops: bv64, staticProps: bv64): bv64 {
    (inprops & K_ERROR) | K_NULL_PROPERTIES | staticProps
  }

  function DeleteArcsProperties(inprops: bv64): bv64 {
    inprops & K_DELETE_ARCS_PROPERTIES
  }

  function Implies(inprops: bv64, bit: bv64, implied: bv64): bv64 {
    if inprops & bit != 0 then implied else 0
  }

  const K_LABELLESS: bv64 :=
    K_WEIGHTED | K_UNWEIGHTED | K_WEIGHTED_CYCLES | K_UNWEIGHTED_CYCLES | K_CYCLIC | K_ACYCLIC | K_INITIAL_CYCLIC | K_INITIAL_ACYCLIC
    | K_TOP_SORTED | K_NOT_TOP_SORTED | K_ACCESSIBLE | K_NOT_ACCESSIBLE | K_CO_ACCESSIBLE | K_NOT_CO_ACCESSIBLE | K_STRING | K_NOT_STRING

  function InvertProperties(inprops: bv64): bv64 {
    ((K_EXPANDED | K_MUTABLE | K_ERROR | K_ACCEPTOR | K_NOT_ACCEPTOR | K_EPSILONS | K_NO_EPSILONS | K_LABELLESS) & inprops)
    | Implies(inprops, K_I_DETERMINISTIC, K_O_DETERMINISTIC) | Implies(inprops, K_NON_I_DETERMINISTIC, K_NON_O_DETERMINISTIC)
    | Implies(inprops, K_O_DETERMINISTIC, K_I_DETERMINISTIC) | Implies(inprops, K_NON_O_DETERMINISTIC, K_NON_I_DETERMINISTIC)
    | Implies(inprops, K_I_EPSILONS, K_O_EPSILONS) | Implies(inprops, K_NO_I_EPSILONS, K_NO_O_EPSILONS)
    | Implies(inprops, K_O_EPSILONS, K_I_EPSILONS) | Implies(inprops, K_NO_O_EPSILONS, K_NO_I_EPSILONS)
    | Implies(inprops, K_I_LABEL_SORTED, K_O_LABEL_SORTED) | Implies(inprops, K_NOT_I_LABEL_SORTED, K_NOT_O_LABEL_SORTED)
    | Implies(inprops, K_O_LABEL_SORTED, K_I_LABEL_SORTED) | Implies(inprops, K_NOT_O_LABEL_SORTED, K_NOT_I_LABEL_SORTED)
  }

  function ProjectProperties(inprops: bv64, input: bool): bv64 {
    K_ACCEPTOR | ((K_EXPANDED | K_MUTABLE | K_ERROR | K_LABELLESS) & inprops)
    | if input then
        ((K_I_DETERMINISTIC | K_NON_I_DETERMINISTIC | K_I_EPSILONS | K_NO_I_EPSILONS | K_I_LABEL_SORTED | K_NOT_I_LABEL_SORTED) & inprops)
        | Implies(inprops, K_I_DETERMINISTIC, K_O_DETERMINISTIC) | Implies(inprops, K_NON_I_DETERMINISTIC, K_NON_O_DETERMINISTIC)
        | Implies(inprops, K_I_EPSILONS, K_O_EPSILONS | K_EPSILONS) | Implies(inprops, K_NO_I_EPSILONS, K_NO_O_EPSILONS | K_NO_EPSILONS)
        | Implies(inprops, K_I_LABEL_SORTED, K_O_LABEL_SORTED) | Implies(inprops, K_NOT_I_LABEL_SORTED, K_NOT_O_LABEL_SORTED)
      else
        ((K_O_DETERMINISTIC | K_NON_O_DETERMINISTIC | K_O_EPSILONS | K_NO_O_EPSILONS | K_O_LABEL_SORTED | K_NOT_O_LABEL_SORTED) & inprops)
        | Implies(inprops, K_O_DETERMINISTIC, K_I_DETERMINISTIC) | Implies(inprops, K_NON_O_DETERMINISTIC, K_NON_I_DETERMINISTIC)
        | Implies(inprops, K_O_EPSILONS, K_I_EPSILONS | K_EPSILONS) | Implies(inprops, K_NO_O_EPSILONS, K_NO_I_EPSILONS | K_NO_EPSILONS)
        | Implies(inprops, K_O_LABEL_SORTED, K_I_LABEL_SORTED) | Implies(inprops, K_NOT_O_LABEL_SORTED, K_NOT_I_LABEL_SORTED)
  }

  // -- What the bits claim ----------------------------------------------------------------

  /** Which properties an FST really has. */
  datatype Truth = Truth(
    acceptor: bool, iDeterministic: bool, oDeterministic: bool, epsilons: bool, iEpsilons: bool, oEpsilons: bool,
    iSorted: bool, oSorted: bool, weighted: bool, cyclic: bool, initialCyclic: bool, topSorted: bool,
    accessible: bool, coAccessible: bool, stringLike: bool, weightedCycles: bool)

  predicate Claims(props: bv64, yes: bv64, no: bv64, fact: bool) {
    (props & yes != 0 ==> fact) && (props & no != 0 ==> !fact)
  }

  predicate LabelsSound(props: bv64, t: Truth) {
    && Claims(props, K_ACCEPTOR, K_NOT_ACCEPTOR, t.acceptor)
    && Claims(props, K_EPSILONS, K_NO_EPSILONS, t.epsilons)
    && Claims(props, K_I_EPSILONS, K_NO_I_EPSILONS, t.iEpsilons)
    && Claims(props, K_O_EPSILONS, K_NO_O_EPSILONS, t.oEpsilons)
  }

  predicate OrderSound(props: bv64, t: Truth) {
    && Claims(props, K_I_DETERMINISTIC, K_NON_I_DETERMINISTIC, t.iDeterministic)
    && Claims(props, K_O_DETERMINISTIC, K_NON_O_DETERMINISTIC, t.oDeterministic)
    && Claims(props, K_I_LABEL_SORTED, K_NOT_I_LABEL_SORTED, t.iSorted)
    && Claims(props, K_O_LABEL_SORTED, K_NOT_O_LABEL_SORTED, t.oSorted)
  }

  predicate CyclesSound(props: bv64, t: Truth) {
    && Claims(props, K_WEIGHTED, K_UNWEIGHTED, t.weighted)
    && Claims(props, K_CYCLIC, K_ACYCLIC, t.cyclic)
    && Claims(props, K_INITIAL_CYCLIC, K_INITIAL_ACYCLIC, t.initialCyclic)
    && Claims(props, K_WEIGHTED_CYCLES, K_UNWEIGHTED_CYCLES, t.weightedCycles)
  }

  predicate ReachSound(props: bv64, t: Truth) {
    && Claims(props, K_TOP_SORTED, K_NOT_TOP_SORTED, t.topSorted)
    && Claims(props, K_ACCESSIBLE, K_NOT_ACCESSIBLE, t.accessible)
    && Claims(props, K_CO_ACCESSIBLE, K_NOT_CO_ACCESSIBLE, t.coAccessible)
    && Claims(props, K_STRING, K_NOT_STRING, t.stringLike)
  }

  /** Every bit set is true. */
  predicate Sound(props: bv64, t: Truth) {
    LabelsSound(props, t) && OrderSound(props, t) && CyclesSound(props, t) && ReachSound(props, t)
  }

  // -- The rules against the facts -----------------------------------------------------------

  function ArcMarked(t: Truth, differs: bool, iEps: bool, oEps: bool, weighted: bool): Truth {
    t.(acceptor := t.acceptor && !differs, iEpsilons := t.iEpsilons || iEps, oEpsilons := t.oEpsilons || oEps,
       epsilons := t.epsilons || (iEps && oEps), weighted := t.weighted || weighted)
  }

  function PlaceMarked(t: Truth, iDown: bool, oDown: bool, back: bool): Truth {
    t.(iSorted := t.iSorted && !iDown, oSorted := t.oSorted && !oDown, topSorted := t.topSorted && !back)
  }

  lemma MarkArcLabels(props: bv64, t: Truth, differs: bool, iEps: bool, oEps: bool, weighted: bool)
    requires Sound(props, t)
    ensures LabelsSound(MarkArc(props, differs, iEps, oEps, weighted), ArcMarked(t, differs, iEps, oEps, weighted))
  {}

  lemma MarkArcOrder(props: bv64, t: Truth, differs: bool, iEps: bool, oEps: bool, weighted: bool)
    requires Sound(props, t)
    ensures OrderSound(MarkArc(props, differs, iEps, oEps, weighted), ArcMarked(t, differs, iEps, oEps, weighted))
  {}

  lemma MarkArcCycles(props: bv64, t: Truth, differs: bool, iEps: bool, oEps: bool, weighted: bool)
    requires Sound(props, t)
    ensures CyclesSound(MarkArc(props, differs, iEps, oEps, weighted), ArcMarked(t, differs, iEps, oEps, weighted))
  {}

  lemma MarkArcReach(props: bv64, t: Truth, differs: bool, iEps: bool, oEps: bool, weighted: bool)
    requires Sound(props, t)
    ensures ReachSound(MarkArc(props, differs, iEps, oEps, weighted), ArcMarked(t, differs, iEps, oEps, weighted))
  {}

  lemma MarkArcIsSound(props: bv64, t: Truth, differs: bool, iEps: bool, oEps: bool, weighted: bool)
    requires Sound(props, t)
    ensures Sound(MarkArc(props, differs, iEps, oEps, weighted), ArcMarked(t, differs, iEps, oEps, weighted))
  {
    MarkArcLabels(props, t, differs, iEps, oEps, weighted);
    MarkArcOrder(props, t, differs, iEps, oEps, weighted);
    MarkArcCycles(props, t, differs, iEps, oEps, weighted);
    MarkArcReach(props, t, differs, iEps, oEps, weighted);
  }

  lemma MarkPlaceIsSound(props: bv64, t: Truth, iDown: bool, oDown: bool, back: bool)
    requires Sound(props, t)
    ensures Sound(MarkPlace(props, iDown, oDown, back), PlaceMarked(t, iDown, oDown, back))
  {}

  /** What unmarking leaves: what may have been true of the old arc alone is no longer
      claimed. */
  ghost predicate ArcUnmarked(before: Truth, after: Truth, differs: bool, iEps: bool, oEps: bool, weighted: bool) {
    && after == before.(acceptor := after.acceptor, epsilons := after.epsilons, iEpsilons := after.iEpsilons,
                        oEpsilons := after.oEpsilons, weighted := after.weighted)
    && (before.acceptor ==> after.acceptor) && (!differs ==> after.acceptor == before.acceptor)
    && (after.epsilons ==> before.epsilons) && (!(iEps && oEps) ==> after.epsilons == before.epsilons)
    && (after.iEpsilons ==> before.iEpsilons) && (!iEps ==> after.iEpsilons == before.iEpsilons)
    && (after.oEpsilons ==> before.oEpsilons) && (!oEps ==> after.oEpsilons == before.oEpsilons)
    && (after.weighted ==> before.weighted) && (!weighted ==> after.weighted == before.weighted)
  }

  lemma UnmarkArcLabels(props: bv64, before: Truth, after: Truth, differs: bool, iEps: bool, oEps: bool, weighted: bool)
    requires Sound(props, before) && ArcUnmarked(before, after, differs, iEps, oEps, weighted)
    ensures LabelsSound(UnmarkArc(props, differs, iEps, oEps, weighted), after)
  {}

  lemma UnmarkArcOrder(props: bv64, before: Truth, after: Truth, differs: bool, iEps: bool, oEps: bool, weighted: bool)
    requires Sound(props, before) && ArcUnmarked(before, after, differs, iEps, oEps, weighted)
    ensures OrderSound(UnmarkArc(props, differs, iEps, oEps, weighted), after)
  {}

  lemma UnmarkArcCycles(props: bv64, before: Truth, after: Truth, differs: bool, iEps: bool, oEps: bool, weighted: bool)
    requires Sound(props, before) && ArcUnmarked(before, after, differs, iEps, oEps, weighted)
    ensures CyclesSound(UnmarkArc(props, differs, iEps, oEps, weighted), after)
  {}

  lemma UnmarkArcReach(props: bv64, before: Truth, after: Truth, differs: bool, iEps: bool, oEps: bool, weighted: bool)
    requires Sound(props, before) && ArcUnmarked(before, after, differs, iEps, oEps, weighted)
    ensures ReachSound(UnmarkArc(props, differs, iEps, oEps, weighted), after)
  {}

  lemma UnmarkArcIsSound(props: bv64, before: Truth, after: Truth, differs: bool, iEps: bool, oEps: bool, weighted: bool)
    requires Sound(props, before) && ArcUnmarked(before, after, differs, iEps, oEps, weighted)
    ensures Sound(UnmarkArc(props, differs, iEps, oEps, weighted), after)
  {
    UnmarkArcLabels(props, before, after, differs, iEps, oEps, weighted);
    UnmarkArcOrder(props, before, after, differs, iEps, oEps, weighted);
    UnmarkArcCycles(props, before, after, differs, iEps, oEps, weighted);
    UnmarkArcReach(props, before, after, differs, iEps, oEps, weighted);
  }

  /** What must be true for the bits kept after an arc is appended to stay true. */
  ghost predicate ArcAppended(marked: Truth, after: Truth) {
    && (after.acceptor <==> marked.acceptor) && (after.epsilons <==> marked.epsilons)
    && (after.iEpsilons <==> marked.iEpsilons) && (after.oEpsilons <==> marked.oEpsilons)
    && (after.iSorted <==> marked.iSorted) && (after.oSorted <==> marked.oSorted)
    && (after.weighted <==> marked.weighted) && (after.topSorted <==> marked.topSorted)
    && (after.iDeterministic ==> marked.iDeterministic) && (after.oDeterministic ==> marked.oDeterministic)
    && (marked.cyclic ==> after.cyclic) && (marked.initialCyclic ==> after.initialCyclic)
    && (after.topSorted ==> !after.cyclic && !after.initialCyclic)
    && (marked.accessible ==> after.accessible) && (marked.coAccessible ==> after.coAccessible)
    && (marked.weightedCycles ==> after.weightedCycles)
  }

  lemma KeepAfterAddArcLabels(props: bv64, marked: Truth, after: Truth)
    requires Sound(props, marked) && ArcAppended(marked, after)
    ensures LabelsSound(KeepAfterAddArc(props), after)
  {}

  lemma KeepAfterAddArcOrder(props: bv64, marked: Truth, after: Truth)
    requires Sound(props, marked) && ArcAppended(marked, after)
    ensures OrderSound(KeepAfterAddArc(props), after)
  {}

  lemma KeepAfterAddArcCycles(props: bv64, marked: Truth, after: Truth)
    requires Sound(props, marked) && ArcAppended(marked, after)
    ensures CyclesSound(KeepAfterAddArc(props), after)
  {}

  lemma KeepAfterAddArcReach(props: bv64, marked: Truth, after: Truth)
    requires Sound(props, marked) && ArcAppended(marked, after)
    ensures ReachSound(KeepAfterAddArc(props), after)
  {}

  lemma KeepAfterAddArcIsSound(props: bv64, marked: Truth, after: Truth)
    requires Sound(props, marked) && ArcAppended(marked, after)
    ensures Sound(KeepAfterAddArc(props), after)
  {
    KeepAfterAddArcLabels(props, marked, after);
    KeepAfterAddArcOrder(props, marked, after);
    KeepAfterAddArcCycles(props, marked, after);
    KeepAfterAddArcReach(props, marked, after);
  }

  ghost predicate ArcReplaced(marked: Truth, after: Truth) {
    && after.acceptor == marked.acceptor && after.epsilons == marked.epsilons && after.iEpsilons == marked.iEpsilons
    && after.oEpsilons == marked.oEpsilons && after.weighted == marked.weighted
  }

  lemma KeepAfterSetArcLabels(props: bv64, marked: Truth, after: Truth)
    requires Sound(props, marked) && ArcReplaced(marked, after)
    ensures LabelsSound(KeepAfterSetArc(props), after)
  {}

  lemma KeepAfterSetArcOrder(props: bv64, marked: Truth, after: Truth)
    requires Sound(props, marked) && ArcReplaced(marked, after)
    ensures OrderSound(KeepAfterSetArc(props), after)
  {}

  lemma KeepAfterSetArcCycles(props: bv64, marked: Truth, after: Truth)
    requires Sound(props, marked) && ArcReplaced(marked, after)
    ensures CyclesSound(KeepAfterSetArc(props), after)
  {}

  lemma KeepAfterSetArcReach(props: bv64, marked: Truth, after: Truth)
    requires Sound(props, marked) && ArcReplaced(marked, after)
    ensures ReachSound(KeepAfterSetArc(props), after)
  {}

  lemma KeepAfterSetArcIsSound(props: bv64, marked: Truth, after: Truth)
    requires Sound(props, marked) && ArcReplaced(marked, after)
    ensures Sound(KeepAfterSetArc(props), after)
  {
    KeepAfterSetArcLabels(props, marked, after);
    KeepAfterSetArcOrder(props, marked, after);
    KeepAfterSetArcCycles(props, marked, after);
    KeepAfterSetArcReach(props, marked, after);
  }

  ghost predicate StartSet(before: Truth, after: Truth) {
    && after == before.(initialCyclic := after.initialCyclic, accessible := after.accessible, stringLike := after.stringLike)
    && (after.initialCyclic ==> after.cyclic)
  }

  lemma SetStartLabels(props: bv64, before: Truth, after: Truth)
    requires Sound(props, before) && StartSet(before, after)
    ensures LabelsSound(SetStartProperties(props), after)
  {}

  lemma SetStartOrder(props: bv64, before: Truth, after: Truth)
    requires Sound(props, before) && StartSet(before, after)
    ensures OrderSound(SetStartProperties(props), after)
  {}

  lemma SetStartCycles(props: bv64, before: Truth, after: Truth)
    requires Sound(props, before) && StartSet(before, after)
    ensures CyclesSound(SetStartProperties(props), after)
  {}

  lemma SetStartReach(props: bv64, before: Truth, after: Truth)
    requires Sound(props, before) && StartSet(before, after)
    ensures ReachSound(SetStartProperties(props), after)
  {}

  lemma SetStartIsSound(props: bv64, before: Truth, after: Truth)
    requires Sound(props, before) && StartSet(before, after)
    ensures Sound(SetStartProperties(props), after)
  {
    SetStartLabels(props, before, after);
    SetStartOrder(props, before, after);
    SetStartCycles(props, before, after);
    SetStartReach(props, before, after);
  }

  ghost predicate FinalSet(before: Truth, after: Truth, oldWeight: Cost, newWeight: Cost) {
    && after == before.(weighted := after.weighted, coAccessible := after.coAccessible, stringLike := after.stringLike)
    && (IsTrivialWeight(oldWeight) && before.weighted ==> after.weighted)
    && (!IsTrivialWeight(newWeight) ==> after.weighted)
    && (IsTrivialWeight(newWeight) && !before.weighted ==> !after.weighted)
  }

  lemma SetFinalLabels(props: bv64, before: Truth, after: Truth, oldWeight: Cost, newWeight: Cost)
    requires Sound(props, before) && FinalSet(before, after, oldWeight, newWeight)
    ensures LabelsSound(SetFinalProperties(props, oldWeight, newWeight), after)
  {}

  lemma SetFinalOrder(props: bv64, before: Truth, after: Truth, oldWeight: Cost, newWeight: Cost)
    requires Sound(props, before) && FinalSet(before, after, oldWeight, newWeight)
    ensures OrderSound(SetFinalProperties(props, oldWeight, newWeight), after)
  {}

  lemma SetFinalCycles(props: bv64, before: Truth, after: Truth, oldWeight: Cost, newWeight: Cost)
    requires Sound(props, before) && FinalSet(before, after, oldWeight, newWeight)
    ensures CyclesSound(SetFinalProperties(props, oldWeight, newWeight), after)
  {}

  lemma SetFinalReach(props: bv64, before: Truth, after: Truth, oldWeight: Cost, newWeight: Cost)
    requires Sound(props, before) && FinalSet(before, after, oldWeight, newWeight)
    ensures ReachSound(SetFinalProperties(props, oldWeight, newWeight), after)
  {}

  lemma SetFinalIsSound(props: bv64, before: Truth, after: Truth, oldWeight: Cost, newWeight: Cost)
    requires Sound(props, before) && FinalSet(before, after, oldWeight, newWeight)
    ensures Sound(SetFinalProperties(props, oldWeight, newWeight), after)
  {
    SetFinalLabels(props, before, after, oldWeight, newWeight);
    SetFinalOrder(props, before, after, oldWeight, newWeight);
    SetFinalCycles(props, before, after, oldWeight, newWeight);
    SetFinalReach(props, before, after, oldWeight, newWeight);
  }

  ghost predicate StateAdded(before: Truth, after: Truth) {
    && after == before.(accessible := after.accessible, coAccessible := after.coAccessible, stringLike := after.stringLike)
    && (after.accessible ==> before.accessible) && (after.coAccessible ==> before.coAccessible)
    && (after.stringLike ==> before.stringLike)
  }

  lemma AddStateLabels(props: bv64, before: Truth, after: Truth)
    requires Sound(props, before) && StateAdded(before, after)
    ensures LabelsSound(AddStateProperties(props), after)
  {}

  lemma AddStateOrder(props: bv64, before: Truth, after: Truth)
    requires Sound(props, before) && StateAdded(before, after)
    ensures OrderSound(AddStateProperties(props), after)
  {}

  lemma AddStateCycles(props: bv64, before: Truth, after: Truth)
    requires Sound(props, before) && StateAdded(before, after)
    ensures CyclesSound(AddStateProperties(props), after)
  {}

  lemma AddStateReach(props: bv64, before: Truth, after: Truth)
    requires Sound(props, before) && StateAdded(before, after)
    ensures ReachSound(AddStateProperties(props), after)
  {}

  lemma AddStateIsSound(props: bv64, before: Truth, after: Truth)
    requires Sound(props, before) && StateAdded(before, after)
    ensures Sound(AddStateProperties(props), after)
  {
    AddStateLabels(props, before, after);
    AddStateOrder(props, before, after);
    AddStateCycles(props, before, after);
    AddStateReach(props, before, after);
  }

  ghost predicate ArcsRemoved(before: Truth, after: Truth) {
    && (before.acceptor ==> after.acceptor) && (before.iDeterministic ==> after.iDeterministic)
    && (before.oDeterministic ==> after.oDeterministic) && (after.epsilons ==> before.epsilons)
    && (after.iEpsilons ==> before.iEpsilons) && (after.oEpsilons ==> before.oEpsilons)
    && (before.iSorted ==> after.iSorted) && (before.oSorted ==> after.oSorted) && (after.weighted ==> before.weighted)
    && (after.cyclic ==> before.cyclic) && (after.initialCyclic ==> before.initialCyclic)
    && (before.topSorted ==> after.topSorted) && (after.weightedCycles ==> before.weightedCycles)
  }

  lemma DeleteArcsLabels(props: bv64, before: Truth, after: Truth)
    requires Sound(props, before) && ArcsRemoved(before, after) && (after.accessible ==> before.accessible) && (after.coAccessible ==> before.coAccessible)
    ensures LabelsSound(DeleteArcsProperties(props), after)
  {}

  lemma DeleteArcsOrder(props: bv64, before: Truth, after: Truth)
    requires Sound(props, before) && ArcsRemoved(before, after) && (after.accessible ==> before.accessible) && (after.coAccessible ==> before.coAccessible)
    ensures OrderSound(DeleteArcsProperties(props), after)
  {}

  lemma DeleteArcsCycles(props: bv64, before: Truth, after: Truth)
    requires Sound(props, before) && ArcsRemoved(before, after) && (after.accessible ==> before.accessible) && (after.coAccessible ==> before.coAccessible)
    ensures CyclesSound(DeleteArcsProperties(props), after)
  {}

  lemma DeleteArcsReach(props: bv64, before: Truth, after: Truth)
    requires Sound(props, before) && ArcsRemoved(before, after) && (after.accessible ==> before.accessible) && (after.coAccessible ==> before.coAccessible)
    ensures ReachSound(DeleteArcsProperties(props), after)
  {}

  lemma DeleteArcsIsSound(props: bv64, before: Truth, after: Truth)
    requires Sound(props, before) && ArcsRemoved(before, after) && (after.accessible ==> before.accessible) && (after.coAccessible ==> before.coAccessible)
    ensures Sound(DeleteArcsProperties(props), after)
  {
    DeleteArcsLabels(props, before, after);
    DeleteArcsOrder(props, before, after);
    DeleteArcsCycles(props, before, after);
    DeleteArcsReach(props, before, after);
  }

  lemma DeleteStatesLabels(props: bv64, before: Truth, after: Truth)
    requires Sound(props, before) && ArcsRemoved(before, after)
    ensures LabelsSound(DeleteStatesProperties(props), after)
  {}

  lemma DeleteStatesOrder(props: bv64, before: Truth, after: Truth)
    requires Sound(props, before) && ArcsRemoved(before, after)
    ensures OrderSound(DeleteStatesProperties(props), after)
  {}

  lemma DeleteStatesCycles(props: bv64, before: Truth, after: Truth)
    requires Sound(props, before) && ArcsRemoved(before, after)
    ensures CyclesSound(DeleteStatesProperties(props), after)
  {}

  lemma DeleteStatesReach(props: bv64, before: Truth, after: Truth)
    requires Sound(props, before) && ArcsRemoved(before, after)
    ensures ReachSound(DeleteStatesProperties(props), after)
  {}

  lemma DeleteStatesIsSound(props: bv64, before: Truth, after: Truth)
    requires Sound(props, before) && ArcsRemoved(before, after)
    ensures Sound(DeleteStatesProperties(props), after)
  {
    DeleteStatesLabels(props, before, after);
    DeleteStatesOrder(props, before, after);
    DeleteStatesCycles(props, before, after);
    DeleteStatesReach(props, before, after);
  }

  const NOTHING := Truth(true, true, true, false, false, false, true, true, false, false, false, true, true, true, true, false)

  lemma DeleteAllStatesIsSound(props: bv64, staticProps: bv64)
    requires staticProps & !K_BINARY_PROPERTIES == 0
    ensures Sound(DeleteAllStatesProperties(props, staticProps), NOTHING)
  {}

  /** The facts with the two sides swapped. */
  function Inverted(t: Truth): Truth {
    t.(iDeterministic := t.oDeterministic, oDeterministic := t.iDeterministic, iEpsilons := t.oEpsilons, oEpsilons := t.iEpsilons,
       iSorted := t.oSorted, oSorted := t.iSorted)
  }

  lemma InvertLabels(props: bv64, t: Truth)
    requires Sound(props, t)
    ensures LabelsSound(InvertProperties(props), Inverted(t))
  {}

  lemma InvertOrder(props: bv64, t: Truth)
    requires Sound(props, t)
    ensures OrderSound(InvertProperties(props), Inverted(t))
  {}

  lemma InvertCycles(props: bv64, t: Truth)
    requires Sound(props, t)
    ensures CyclesSound(InvertProperties(props), Inverted(t))
  {}

  lemma InvertReach(props: bv64, t: Truth)
    requires Sound(props, t)
    ensures ReachSound(InvertProperties(props), Inverted(t))
  {}

  lemma InvertIsSound(props: bv64, t: Truth)
    requires Sound(props, t)
    ensures Sound(InvertProperties(props), Inverted(t))
  {
    InvertLabels(props, t);
    InvertOrder(props, t);
    InvertCycles(props, t);
    InvertReach(props, t);
  }

  /** The facts with one side copied over the other. */
  function Projected(t: Truth, input: bool): Truth {
    if input then t.(acceptor := true, oDeterministic := t.iDeterministic, epsilons := t.iEpsilons, oEpsilons := t.iEpsilons, oSorted := t.iSorted)
    else t.(acceptor := true, iDeterministic := t.oDeterministic, epsilons := t.oEpsilons, iEpsilons := t.oEpsilons, iSorted := t.oSorted)
  }

  lemma ProjectLabels(props: bv64, t: Truth, input: bool)
    requires Sound(props, t)
    ensures LabelsSound(ProjectProperties(props, input), Projected(t, input))
  {}

  lemma ProjectOrder(props: bv64, t: Truth, input: bool)
    requires Sound(props, t)
    ensures OrderSound(ProjectProperties(props, input), Projected(t, input))
  {}

  lemma ProjectCycles(props: bv64, t: Truth, input: bool)
    requires Sound(props, t)
    ensures CyclesSound(ProjectProperties(props, input), Projected(t, input))
  {}

  lemma ProjectReach(props: bv64, t: Truth, input: bool)
    requires Sound(props, t)
    ensures ReachSound(ProjectProperties(props, input), Projected(t, input))
  {}

  lemma ProjectIsSound(props: bv64, t: Truth, input: bool)
    requires Sound(props, t)
    ensures Sound(ProjectProperties(props, input), Projected(t, input))
  {
    ProjectLabels(props, t, input);
    ProjectOrder(props, t, input);
    ProjectCycles(props, t, input);
    ProjectReach(props, t, input);
  }

  // -- What the rules do not give up --------------------------------------------------------

  function Among(props: bv64, bits: bv64): bv64 {
    props & bits
  }

  predicate Has(props: bv64, bit: bv64) {
    props & bit != 0
  }

  // After an append the bits say of labels and weights what they said before, and what the
  // arc shows; and what no arc can change stays as it was.

  lemma AppendTellsAcceptor(props: bv64, differs: bool, iEps: bool, oEps: bool, weighted: bool, iDown: bool, oDown: bool, back: bool)
    ensures var q := KeepAfterAddArc(MarkPlace(MarkArc(props, differs, iEps, oEps, weighted), iDown, oDown, back));
            (Has(q, K_NOT_ACCEPTOR) <==> Has(props, K_NOT_ACCEPTOR) || differs) && (Has(q, K_ACCEPTOR) <==> Has(props, K_ACCEPTOR) && !differs)
  {}

  lemma AppendTellsWeights(props: bv64, differs: bool, iEps: bool, oEps: bool, weighted: bool, iDown: bool, oDown: bool, back: bool)
    ensures var q := KeepAfterAddArc(MarkPlace(MarkArc(props, differs, iEps, oEps, weighted), iDown, oDown, back));
            (Has(q, K_WEIGHTED) <==> Has(props, K_WEIGHTED) || weighted) && (Has(q, K_UNWEIGHTED) <==> Has(props, K_UNWEIGHTED) && !weighted)
  {}

  lemma AppendTellsIEpsilons(props: bv64, differs: bool, iEps: bool, oEps: bool, weighted: bool, iDown: bool, oDown: bool, back: bool)
    ensures var q := KeepAfterAddArc(MarkPlace(MarkArc(props, differs, iEps, oEps, weighted), iDown, oDown, back));
            (Has(q, K_I_EPSILONS) <==> Has(props, K_I_EPSILONS) || iEps) && (Has(q, K_NO_I_EPSILONS) <==> Has(props, K_NO_I_EPSILONS) && !iEps)
  {}

  lemma AppendTellsOEpsilons(props: bv64, differs: bool, iEps: bool, oEps: bool, weighted: bool, iDown: bool, oDown: bool, back: bool)
    ensures var q := KeepAfterAddArc(MarkPlace(MarkArc(props, differs, iEps, oEps, weighted), iDown, oDown, back));
            (Has(q, K_O_EPSILONS) <==> Has(props, K_O_EPSILONS) || oEps) && (Has(q, K_NO_O_EPSILONS) <==> Has(props, K_NO_O_EPSILONS) && !oEps)
  {}

  lemma AppendTellsEpsilons(props: bv64, differs: bool, iEps: bool, oEps: bool, weighted: bool, iDown: bool, oDown: bool, back: bool)
    ensures var q := KeepAfterAddArc(MarkPlace(MarkArc(props, differs, iEps, oEps, weighted), iDown, oDown, back));
            (Has(q, K_EPSILONS) <==> Has(props, K_EPSILONS) || (iEps && oEps)) && (Has(q, K_NO_EPSILONS) <==> Has(props, K_NO_EPSILONS) && !(iEps && oEps))
  {}

  lemma AppendTellsTopOrder(props: bv64, differs: bool, iEps: bool, oEps: bool, weighted: bool, iDown: bool, oDown: bool, back: bool)
    ensures var q := KeepAfterAddArc(MarkPlace(MarkArc(props, differs, iEps, oEps, weighted), iDown, oDown, back));
            (Has(q, K_NOT_TOP_SORTED) <==> Has(props, K_NOT_TOP_SORTED) || back) && (Has(q, K_TOP_SORTED) <==> Has(props, K_TOP_SORTED) && !back)
  {}

  lemma AppendTellsIOrder(props: bv64, differs: bool, iEps: bool, oEps: bool, weighted: bool, iDown: bool, oDown: bool, back: bool)
    ensures var q := KeepAfterAddArc(MarkPlace(MarkArc(props, differs, iEps, oEps, weighted), iDown, oDown, back));
            (Has(q, K_NOT_I_LABEL_SORTED) <==> Has(props, K_NOT_I_LABEL_SORTED) || iDown) && (Has(q, K_I_LABEL_SORTED) <==> Has(props, K_I_LABEL_SORTED) && !iDown)
  {}

  lemma AppendTellsOOrder(props: bv64, differs: bool, iEps: bool, oEps: bool, weighted: bool, iDown: bool, oDown: bool, back: bool)
    ensures var q := KeepAfterAddArc(MarkPlace(MarkArc(props, differs, iEps, oEps, weighted), iDown, oDown, back));
            (Has(q, K_NOT_O_LABEL_SORTED) <==> Has(props, K_NOT_O_LABEL_SORTED) || oDown) && (Has(q, K_O_LABEL_SORTED) <==> Has(props, K_O_LABEL_SORTED) && !oDown)
  {}

  lemma AppendTellsCycles(props: bv64, differs: bool, iEps: bool, oEps: bool, weighted: bool, iDown: bool, oDown: bool, back: bool)
    ensures var q := KeepAfterAddArc(MarkPlace(MarkArc(props, differs, iEps, oEps, weighted), iDown, oDown, back));
            && (Has(q, K_ACYCLIC) <==> Has(props, K_TOP_SORTED) && !back) && (Has(q, K_INITIAL_ACYCLIC) <==> Has(props, K_TOP_SORTED) && !back)
  {}

  lemma AddArcIs(props: bv64, s: nat, arc: Arc, prev: Option<Arc>)
    ensures AddArcProperties(props, s, arc, prev)
         == KeepAfterAddArc(MarkPlace(MarkArc(props, arc.ilabel != arc.olabel, arc.ilabel == EPSILON, arc.olabel == EPSILON, !IsTrivialWeight(arc.weight)),
                                      prev.Some? && prev.value.ilabel > arc.ilabel, prev.Some? && prev.value.olabel > arc.olabel, arc.nextstate <= s))
    ensures IsTrivialWeight(arc.weight) <==> arc.weight == Infinite || arc.weight == ZERO
  {
    hide KeepAfterAddArc, MarkPlace, MarkArc;
  }

  const K_ONLY_GAINED: bv64 :=
    K_NON_I_DETERMINISTIC | K_NON_O_DETERMINISTIC | K_CYCLIC | K_INITIAL_CYCLIC | K_ACCESSIBLE | K_CO_ACCESSIBLE | K_WEIGHTED_CYCLES

  lemma MarkArcKeeps(props: bv64, differs: bool, iEps: bool, oEps: bool, weighted: bool)
    ensures Among(MarkArc(props, differs, iEps, oEps, weighted), K_ONLY_GAINED) == Among(props, K_ONLY_GAINED)
  {}

  lemma MarkPlaceKeeps(props: bv64, iDown: bool, oDown: bool, back: bool)
    ensures Among(MarkPlace(props, iDown, oDown, back), K_ONLY_GAINED) == Among(props, K_ONLY_GAINED)
  {}

  lemma AppendKeeps(props: bv64)
    ensures Among(KeepAfterAddArc(props), K_ONLY_GAINED) == Among(props, K_ONLY_GAINED)
  {}

  lemma AppendedKeeps(props: bv64, differs: bool, iEps: bool, oEps: bool, weighted: bool, iDown: bool, oDown: bool, back: bool)
    ensures Among(KeepAfterAddArc(MarkPlace(MarkArc(props, differs, iEps, oEps, weighted), iDown, oDown, back)), K_ONLY_GAINED) == Among(props, K_ONLY_GAINED)
  {
    hide *;
    MarkArcKeeps(props, differs, iEps, oEps, weighted);
    MarkPlaceKeeps(MarkArc(props, differs, iEps, oEps, weighted), iDown, oDown, back);
    AppendKeeps(MarkPlace(MarkArc(props, differs, iEps, oEps, weighted), iDown, oDown, back));
  }

  /** What an arc more cannot undo stays claimed. */
  lemma AddArcKeeps(props: bv64, s: nat, arc: Arc, prev: Option<Arc>)
    ensures Among(AddArcProperties(props, s, arc, prev), K_ONLY_GAINED) == Among(props, K_ONLY_GAINED)
  {
    hide *;
    AddArcIs(props, s, arc, prev);
    AppendedKeeps(props, arc.ilabel != arc.olabel, arc.ilabel == EPSILON, arc.olabel == EPSILON, !IsTrivialWeight(arc.weight),
                  prev.Some? && prev.value.ilabel > arc.ilabel, prev.Some? && prev.value.olabel > arc.olabel, arc.nextstate <= s);
  }

  // So the rule for an arc more gives up nothing it need not: each claim survives exactly when
  // the arc agrees with it, and its opposite is made exactly when it was made before or the
  // arc shows it.

  lemma AddArcTellsAcceptor(props: bv64, s: nat, arc: Arc, prev: Option<Arc>)
    ensures Has(AddArcProperties(props, s, arc, prev), K_NOT_ACCEPTOR) <==> Has(props, K_NOT_ACCEPTOR) || arc.ilabel != arc.olabel
    ensures Has(AddArcProperties(props, s, arc, prev), K_ACCEPTOR) <==> Has(props, K_ACCEPTOR) && !(arc.ilabel != arc.olabel)
  {
    hide *;
    AddArcIs(props, s, arc, prev);
    var differs, iEps, oEps, weighted := arc.ilabel != arc.olabel, arc.ilabel == EPSILON, arc.olabel == EPSILON, !IsTrivialWeight(arc.weight);
    var iDown, oDown, back := prev.Some? && prev.value.ilabel > arc.ilabel, prev.Some? && prev.value.olabel > arc.olabel, arc.nextstate <= s;
    AppendTellsAcceptor(props, differs, iEps, oEps, weighted, iDown, oDown, back);
  }

  lemma AddArcTellsWeights(props: bv64, s: nat, arc: Arc, prev: Option<Arc>)
    ensures Has(AddArcProperties(props, s, arc, prev), K_WEIGHTED) <==> Has(props, K_WEIGHTED) || (arc.weight != Infinite && arc.weight != ZERO)
    ensures Has(AddArcProperties(props, s, arc, prev), K_UNWEIGHTED) <==> Has(props, K_UNWEIGHTED) && !(arc.weight != Infinite && arc.weight != ZERO)
  {
    hide *;
    AddArcIs(props, s, arc, prev);
    var differs, iEps, oEps, weighted := arc.ilabel != arc.olabel, arc.ilabel == EPSILON, arc.olabel == EPSILON, !IsTrivialWeight(arc.weight);
    var iDown, oDown, back := prev.Some? && prev.value.ilabel > arc.ilabel, prev.Some? && prev.value.olabel > arc.olabel, arc.nextstate <= s;
    AppendTellsWeights(props, differs, iEps, oEps, weighted, iDown, oDown, back);
  }

  lemma AddArcTellsIEpsilons(props: bv64, s: nat, arc: Arc, prev: Option<Arc>)
    ensures Has(AddArcProperties(props, s, arc, prev), K_I_EPSILONS) <==> Has(props, K_I_EPSILONS) || arc.ilabel == EPSILON
    ensures Has(AddArcProperties(props, s, arc, prev), K_NO_I_EPSILONS) <==> Has(props, K_NO_I_EPSILONS) && !(arc.ilabel == EPSILON)
  {
    hide *;
    AddArcIs(props, s, arc, prev);
    var differs, iEps, oEps, weighted := arc.ilabel != arc.olabel, arc.ilabel == EPSILON, arc.olabel == EPSILON, !IsTrivialWeight(arc.weight);
    var iDown, oDown, back := prev.Some? && prev.value.ilabel > arc.ilabel, prev.Some? && prev.value.olabel > arc.olabel, arc.nextstate <= s;
    AppendTellsIEpsilons(props, differs, iEps, oEps, weighted, iDown, oDown, back);
  }

  lemma AddArcTellsOEpsilons(props: bv64, s: nat, arc: Arc, prev: Option<Arc>)
    ensures Has(AddArcProperties(props, s, arc, prev), K_O_EPSILONS) <==> Has(props, K_O_EPSILONS) || arc.olabel == EPSILON
    ensures Has(AddArcProperties(props, s, arc, prev), K_NO_O_EPSILONS) <==> Has(props, K_NO_O_EPSILONS) && !(arc.olabel == EPSILON)
  {
    hide *;
    AddArcIs(props, s, arc, prev);
    var differs, iEps, oEps, weighted := arc.ilabel != arc.olabel, arc.ilabel == EPSILON, arc.olabel == EPSILON, !IsTrivialWeight(arc.weight);
    var iDown, oDown, back := prev.Some? && prev.value.ilabel > arc.ilabel, prev.Some? && prev.value.olabel > arc.olabel, arc.nextstate <= s;
    AppendTellsOEpsilons(props, differs, iEps, oEps, weighted, iDown, oDown, back);
  }

  lemma AddArcTellsEpsilons(props: bv64, s: nat, arc: Arc, prev: Option<Arc>)
    ensures Has(AddArcProperties(props, s, arc, prev), K_EPSILONS) <==> Has(props, K_EPSILONS) || (arc.ilabel == EPSILON && arc.olabel == EPSILON)
    ensures Has(AddArcProperties(props, s, arc, prev), K_NO_EPSILONS) <==> Has(props, K_NO_EPSILONS) && !(arc.ilabel == EPSILON && arc.olabel == EPSILON)
  {
    hide *;
    AddArcIs(props, s, arc, prev);
    var differs, iEps, oEps, weighted := arc.ilabel != arc.olabel, arc.ilabel == EPSILON, arc.olabel == EPSILON, !IsTrivialWeight(arc.weight);
    var iDown, oDown, back := prev.Some? && prev.value.ilabel > arc.ilabel, prev.Some? && prev.value.olabel > arc.olabel, arc.nextstate <= s;
    AppendTellsEpsilons(props, differs, iEps, oEps, weighted, iDown, oDown, back);
  }

  lemma AddArcTellsTopOrder(props: bv64, s: nat, arc: Arc, prev: Option<Arc>)
    ensures Has(AddArcProperties(props, s, arc, prev), K_NOT_TOP_SORTED) <==> Has(props, K_NOT_TOP_SORTED) || arc.nextstate <= s
    ensures Has(AddArcProperties(props, s, arc, prev), K_TOP_SORTED) <==> Has(props, K_TOP_SORTED) && !(arc.nextstate <= s)
  {
    hide *;
    AddArcIs(props, s, arc, prev);
    var differs, iEps, oEps, weighted := arc.ilabel != arc.olabel, arc.ilabel == EPSILON, arc.olabel == EPSILON, !IsTrivialWeight(arc.weight);
    var iDown, oDown, back := prev.Some? && prev.value.ilabel > arc.ilabel, prev.Some? && prev.value.olabel > arc.olabel, arc.nextstate <= s;
    AppendTellsTopOrder(props, differs, iEps, oEps, weighted, iDown, oDown, back);
  }

  lemma AddArcTellsIOrder(props: bv64, s: nat, arc: Arc, prev: Option<Arc>)
    ensures Has(AddArcProperties(props, s, arc, prev), K_NOT_I_LABEL_SORTED) <==> Has(props, K_NOT_I_LABEL_SORTED) || (prev.Some? && prev.value.ilabel > arc.ilabel)
    ensures Has(AddArcProperties(props, s, arc, prev), K_I_LABEL_SORTED) <==> Has(props, K_I_LABEL_SORTED) && !(prev.Some? && prev.value.ilabel > arc.ilabel)
  {
    hide *;
    AddArcIs(props, s, arc, prev);
    var differs, iEps, oEps, weighted := arc.ilabel != arc.olabel, arc.ilabel == EPSILON, arc.olabel == EPSILON, !IsTrivialWeight(arc.weight);
    var iDown, oDown, back := prev.Some? && prev.value.ilabel > arc.ilabel, prev.Some? && prev.value.olabel > arc.olabel, arc.nextstate <= s;
    AppendTellsIOrder(props, differs, iEps, oEps, weighted, iDown, oDown, back);
  }

  lemma AddArcTellsOOrder(props: bv64, s: nat, arc: Arc, prev: Option<Arc>)
    ensures Has(AddArcProperties(props, s, arc, prev), K_NOT_O_LABEL_SORTED) <==> Has(props, K_NOT_O_LABEL_SORTED) || (prev.Some? && prev.value.olabel > arc.olabel)
    ensures Has(AddArcProperties(props, s, arc, prev), K_O_LABEL_SORTED) <==> Has(props, K_O_LABEL_SORTED) && !(prev.Some? && prev.value.olabel > arc.olabel)
  {
    hide *;
    AddArcIs(props, s, arc, prev);
    var differs, iEps, oEps, weighted := arc.ilabel != arc.olabel, arc.ilabel == EPSILON, arc.olabel == EPSILON, !IsTrivialWeight(arc.weight);
    var iDown, oDown, back := prev.Some? && prev.value.ilabel > arc.ilabel, prev.Some? && prev.value.olabel > arc.olabel, arc.nextstate <= s;
    AppendTellsOOrder(props, differs, iEps, oEps, weighted, iDown, oDown, back);
  }

  // After a replacement: what the new arc shows is claimed, what it contradicts is not, and
  // what only the old arc may have justified is not either.

  lemma ReplacementTellsAcceptor(props: bv64, differed: bool, wasI: bool, wasO: bool, weighed: bool, differs: bool, iEps: bool, oEps: bool, weighted: bool)
    ensures var q := KeepAfterSetArc(MarkArc(UnmarkArc(props, differed, wasI, wasO, weighed), differs, iEps, oEps, weighted));
            (Has(q, K_NOT_ACCEPTOR) <==> differs || (Has(props, K_NOT_ACCEPTOR) && !differed)) && (Has(q, K_ACCEPTOR) <==> Has(props, K_ACCEPTOR) && !differs)
  {}

  lemma ReplacementTellsWeights(props: bv64, differed: bool, wasI: bool, wasO: bool, weighed: bool, differs: bool, iEps: bool, oEps: bool, weighted: bool)
    ensures var q := KeepAfterSetArc(MarkArc(UnmarkArc(props, differed, wasI, wasO, weighed), differs, iEps, oEps, weighted));
            (Has(q, K_WEIGHTED) <==> weighted || (Has(props, K_WEIGHTED) && !weighed)) && (Has(q, K_UNWEIGHTED) <==> Has(props, K_UNWEIGHTED) && !weighted)
  {}

  lemma ReplacementTellsIEpsilons(props: bv64, differed: bool, wasI: bool, wasO: bool, weighed: bool, differs: bool, iEps: bool, oEps: bool, weighted: bool)
    ensures var q := KeepAfterSetArc(MarkArc(UnmarkArc(props, differed, wasI, wasO, weighed), differs, iEps, oEps, weighted));
            (Has(q, K_I_EPSILONS) <==> iEps || (Has(props, K_I_EPSILONS) && !wasI)) && (Has(q, K_NO_I_EPSILONS) <==> Has(props, K_NO_I_EPSILONS) && !iEps)
  {}

  lemma ReplacementTellsOEpsilons(props: bv64, differed: bool, wasI: bool, wasO: bool, weighed: bool, differs: bool, iEps: bool, oEps: bool, weighted: bool)
    ensures var q := KeepAfterSetArc(MarkArc(UnmarkArc(props, differed, wasI, wasO, weighed), differs, iEps, oEps, weighted));
            (Has(q, K_O_EPSILONS) <==> oEps || (Has(props, K_O_EPSILONS) && !wasO)) && (Has(q, K_NO_O_EPSILONS) <==> Has(props, K_NO_O_EPSILONS) && !oEps)
  {}

  lemma ReplacementTellsEpsilons(props: bv64, differed: bool, wasI: bool, wasO: bool, weighed: bool, differs: bool, iEps: bool, oEps: bool, weighted: bool)
    ensures var q := KeepAfterSetArc(MarkArc(UnmarkArc(props, differed, wasI, wasO, weighed), differs, iEps, oEps, weighted));
            (Has(q, K_EPSILONS) <==> (iEps && oEps) || (Has(props, K_EPSILONS) && !(wasI && wasO))) && (Has(q, K_NO_EPSILONS) <==> Has(props, K_NO_EPSILONS) && !(iEps && oEps))
  {}

  lemma ReplacementKeeps(props: bv64, differed: bool, wasI: bool, wasO: bool, weighed: bool, differs: bool, iEps: bool, oEps: bool, weighted: bool)
    ensures var q := KeepAfterSetArc(MarkArc(UnmarkArc(props, differed, wasI, wasO, weighed), differs, iEps, oEps, weighted));
            Among(q, K_BINARY_PROPERTIES) == Among(props, K_BINARY_PROPERTIES)
  {}

  // So the rule for a replaced arc gives up no claim about labels, epsilons or weights but those
  // the new arc contradicts or only the old arc may have justified.

  lemma SetArcIs(props: bv64, was: Arc, arc: Arc)
    ensures SetArcProperties(props, was, arc)
         == KeepAfterSetArc(MarkArc(UnmarkArc(props, was.ilabel != was.olabel, was.ilabel == EPSILON, was.olabel == EPSILON, !IsTrivialWeight(was.weight)),
                                    arc.ilabel != arc.olabel, arc.ilabel == EPSILON, arc.olabel == EPSILON, !IsTrivialWeight(arc.weight)))
    ensures IsTrivialWeight(arc.weight) <==> arc.weight == Infinite || arc.weight == ZERO
    ensures IsTrivialWeight(was.weight) <==> was.weight == Infinite || was.weight == ZERO
  {
    hide KeepAfterSetArc, UnmarkArc, MarkArc;
  }

  lemma SetArcTellsAcceptor(props: bv64, was: Arc, arc: Arc)
    ensures Has(SetArcProperties(props, was, arc), K_NOT_ACCEPTOR) <==> arc.ilabel != arc.olabel || (Has(props, K_NOT_ACCEPTOR) && was.ilabel == was.olabel)
    ensures Has(SetArcProperties(props, was, arc), K_ACCEPTOR) <==> Has(props, K_ACCEPTOR) && !(arc.ilabel != arc.olabel)
  {
    hide *;
    SetArcIs(props, was, arc);
    ReplacementTellsAcceptor(props, was.ilabel != was.olabel, was.ilabel == EPSILON, was.olabel == EPSILON, !IsTrivialWeight(was.weight),
                       arc.ilabel != arc.olabel, arc.ilabel == EPSILON, arc.olabel == EPSILON, !IsTrivialWeight(arc.weight));
  }

  lemma SetArcTellsWeights(props: bv64, was: Arc, arc: Arc)
    ensures Has(SetArcProperties(props, was, arc), K_WEIGHTED) <==> (arc.weight != Infinite && arc.weight != ZERO) || (Has(props, K_WEIGHTED) && (was.weight == Infinite || was.weight == ZERO))
    ensures Has(SetArcProperties(props, was, arc), K_UNWEIGHTED) <==> Has(props, K_UNWEIGHTED) && !(arc.weight != Infinite && arc.weight != ZERO)
  {
    hide *;
    SetArcIs(props, was, arc);
    ReplacementTellsWeights(props, was.ilabel != was.olabel, was.ilabel == EPSILON, was.olabel == EPSILON, !IsTrivialWeight(was.weight),
                       arc.ilabel != arc.olabel, arc.ilabel == EPSILON, arc.olabel == EPSILON, !IsTrivialWeight(arc.weight));
  }

  lemma SetArcTellsIEpsilons(props: bv64, was: Arc, arc: Arc)
    ensures Has(SetArcProperties(props, was, arc), K_I_EPSILONS) <==> arc.ilabel == EPSILON || (Has(props, K_I_EPSILONS) && was.ilabel != EPSILON)
    ensures Has(SetArcProperties(props, was, arc), K_NO_I_EPSILONS) <==> Has(props, K_NO_I_EPSILONS) && !(arc.ilabel == EPSILON)
  {
    hide *;
    SetArcIs(props, was, arc);
    ReplacementTellsIEpsilons(props, was.ilabel != was.olabel, was.ilabel == EPSILON, was.olabel == EPSILON, !IsTrivialWeight(was.weight),
                       arc.ilabel != arc.olabel, arc.ilabel == EPSILON, arc.olabel == EPSILON, !IsTrivialWeight(arc.weight));
  }

  lemma SetArcTellsOEpsilons(props: bv64, was: Arc, arc: Arc)
    ensures Has(SetArcProperties(props, was, arc), K_O_EPSILONS) <==> arc.olabel == EPSILON || (Has(props, K_O_EPSILONS) && was.olabel != EPSILON)
    ensures Has(SetArcProperties(props, was, arc), K_NO_O_EPSILONS) <==> Has(props, K_NO_O_EPSILONS) && !(arc.olabel == EPSILON)
  {
    hide *;
    SetArcIs(props, was, arc);
    ReplacementTellsOEpsilons(props, was.ilabel != was.olabel, was.ilabel == EPSILON, was.olabel == EPSILON, !IsTrivialWeight(was.weight),
                       arc.ilabel != arc.olabel, arc.ilabel == EPSILON, arc.olabel == EPSILON, !IsTrivialWeight(arc.weight));
  }

  lemma SetArcTellsEpsilons(props: bv64, was: Arc, arc: Arc)
    ensures Has(SetArcProperties(props, was, arc), K_EPSILONS) <==> (arc.ilabel == EPSILON && arc.olabel == EPSILON) || (Has(props, K_EPSILONS) && (was.ilabel != EPSILON || was.olabel != EPSILON))
    ensures Has(SetArcProperties(props, was, arc), K_NO_EPSILONS) <==> Has(props, K_NO_EPSILONS) && !(arc.ilabel == EPSILON && arc.olabel == EPSILON)
  {
    hide *;
    SetArcIs(props, was, arc);
    ReplacementTellsEpsilons(props, was.ilabel != was.olabel, was.ilabel == EPSILON, was.olabel == EPSILON, !IsTrivialWeight(was.weight),
                       arc.ilabel != arc.olabel, arc.ilabel == EPSILON, arc.olabel == EPSILON, !IsTrivialWeight(arc.weight));
  }

  lemma SetArcKeeps(props: bv64, was: Arc, arc: Arc)
    ensures Among(SetArcProperties(props, was, arc), K_BINARY_PROPERTIES) == Among(props, K_BINARY_PROPERTIES)
  {
    hide *;
    SetArcIs(props, was, arc);
    ReplacementKeeps(props, was.ilabel != was.olabel, was.ilabel == EPSILON, was.olabel == EPSILON, !IsTrivialWeight(was.weight),
                       arc.ilabel != arc.olabel, arc.ilabel == EPSILON, arc.olabel == EPSILON, !IsTrivialWeight(arc.weight));
  }

  const K_OF_LABELS: bv64 :=
    K_ACCEPTOR | K_NOT_ACCEPTOR | K_EPSILONS | K_NO_EPSILONS | K_I_EPSILONS | K_NO_I_EPSILONS | K_O_EPSILONS | K_NO_O_EPSILONS

  const K_OF_ORDER: bv64 :=
    K_I_DETERMINISTIC | K_NON_I_DETERMINISTIC | K_O_DETERMINISTIC | K_NON_O_DETERMINISTIC | K_I_LABEL_SORTED | K_NOT_I_LABEL_SORTED
    | K_O_LABEL_SORTED | K_NOT_O_LABEL_SORTED | K_TOP_SORTED | K_NOT_TOP_SORTED

  const K_OF_CYCLES: bv64 :=
    K_CYCLIC | K_ACYCLIC | K_WEIGHTED_CYCLES | K_UNWEIGHTED_CYCLES

  // Setting the start gives up only what is told from the start.

  lemma SetStartKeepsLabels(props: bv64)
    ensures SetStartProperties(props) & K_OF_LABELS == props & K_OF_LABELS
  {}

  lemma SetStartKeepsOrder(props: bv64)
    ensures SetStartProperties(props) & K_OF_ORDER == props & K_OF_ORDER
  {}

  lemma SetStartKeepsCycles(props: bv64)
    ensures SetStartProperties(props) & K_OF_CYCLES == props & K_OF_CYCLES
  {}

  lemma SetStartTells(props: bv64)
    ensures Has(SetStartProperties(props), K_INITIAL_ACYCLIC) <==> Has(props, K_ACYCLIC)
  {}

  // Setting a final weight gives up only what is told of final states.

  lemma SetFinalKeepsLabels(props: bv64, oldWeight: Cost, newWeight: Cost)
    ensures SetFinalProperties(props, oldWeight, newWeight) & K_OF_LABELS == props & K_OF_LABELS
  {}

  lemma SetFinalKeepsOrder(props: bv64, oldWeight: Cost, newWeight: Cost)
    ensures SetFinalProperties(props, oldWeight, newWeight) & K_OF_ORDER == props & K_OF_ORDER
  {}

  lemma SetFinalKeepsCycles(props: bv64, oldWeight: Cost, newWeight: Cost)
    ensures SetFinalProperties(props, oldWeight, newWeight) & K_OF_CYCLES == props & K_OF_CYCLES
  {}

  lemma SetFinalTells(props: bv64, oldWeight: Cost, newWeight: Cost)
    ensures var q := SetFinalProperties(props, oldWeight, newWeight);
            && (Has(q, K_WEIGHTED) <==> !IsTrivialWeight(newWeight) || (Has(props, K_WEIGHTED) && IsTrivialWeight(oldWeight)))
            && (Has(q, K_UNWEIGHTED) <==> Has(props, K_UNWEIGHTED) && IsTrivialWeight(newWeight))
  {}

  /** Adding a state gives up only that all states are reached and finish. */
  lemma AddStateKeeps(props: bv64)
    ensures var ofAll := K_ACCESSIBLE | K_CO_ACCESSIBLE | K_STRING;
            AddStateProperties(props) & K_TRINARY_PROPERTIES & !ofAll == props & K_TRINARY_PROPERTIES & !ofAll
  {}

  /** Deleting gives up nothing that only having more could break. */
  lemma DeletionsKeep(props: bv64)
    ensures var ofNone := K_EXPANDED | K_MUTABLE | K_ERROR | K_ACCEPTOR | K_I_DETERMINISTIC | K_O_DETERMINISTIC | K_NO_EPSILONS | K_NO_I_EPSILONS
                          | K_NO_O_EPSILONS | K_I_LABEL_SORTED | K_O_LABEL_SORTED | K_UNWEIGHTED | K_ACYCLIC | K_INITIAL_ACYCLIC | K_TOP_SORTED
                          | K_UNWEIGHTED_CYCLES;
            && DeleteStatesProperties(props) & ofNone == props & ofNone
            && DeleteArcsProperties(props) & (ofNone | K_NOT_ACCESSIBLE | K_NOT_CO_ACCESSIBLE) == props & (ofNone | K_NOT_ACCESSIBLE | K_NOT_CO_ACCESSIBLE)
  {}

  /** Deleting everything forgets no error and claims everything true of nothing. */
  lemma DeleteAllStatesKeeps(props: bv64, staticProps: bv64)
    ensures var q := DeleteAllStatesProperties(props, staticProps);
            && (Has(q, K_ERROR) <==> Has(props, K_ERROR) || Has(staticProps, K_ERROR))
            && q & K_NULL_PROPERTIES == K_NULL_PROPERTIES && q & staticProps == staticProps
  {}

  /** Inverting keeps what labels do not decide or both sides share, and swaps the rest. */
  lemma InvertKeeps(props: bv64)
    ensures InvertProperties(props) & K_LABELLESS == props & K_LABELLESS
  {}

  lemma InvertShares(props: bv64)
    ensures var shared := K_ACCEPTOR | K_NOT_ACCEPTOR | K_EPSILONS | K_NO_EPSILONS;
            InvertProperties(props) & shared == props & shared
  {}

  lemma InvertSwaps(props: bv64)
    ensures var q := InvertProperties(props);
            && (Has(q, K_I_EPSILONS) <==> Has(props, K_O_EPSILONS)) && (Has(q, K_NO_I_EPSILONS) <==> Has(props, K_NO_O_EPSILONS))
            && (Has(q, K_O_EPSILONS) <==> Has(props, K_I_EPSILONS)) && (Has(q, K_NO_O_EPSILONS) <==> Has(props, K_NO_I_EPSILONS))
  {}

  lemma InvertSwapsOrder(props: bv64)
    ensures var q := InvertProperties(props);
            && (Has(q, K_I_LABEL_SORTED) <==> Has(props, K_O_LABEL_SORTED)) && (Has(q, K_NOT_I_LABEL_SORTED) <==> Has(props, K_NOT_O_LABEL_SORTED))
            && (Has(q, K_O_LABEL_SORTED) <==> Has(props, K_I_LABEL_SORTED)) && (Has(q, K_NOT_O_LABEL_SORTED) <==> Has(props, K_NOT_I_LABEL_SORTED))
  {}

  lemma InvertSwapsDeterminism(props: bv64)
    ensures var q := InvertProperties(props);
            && (Has(q, K_I_DETERMINISTIC) <==> Has(props, K_O_DETERMINISTIC)) && (Has(q, K_NON_I_DETERMINISTIC) <==> Has(props, K_NON_O_DETERMINISTIC))
            && (Has(q, K_O_DETERMINISTIC) <==> Has(props, K_I_DETERMINISTIC)) && (Has(q, K_NON_O_DETERMINISTIC) <==> Has(props, K_NON_I_DETERMINISTIC))
  {}

  /** Projecting keeps what labels do not decide, and says of both sides what was said of the
      one kept. */
  lemma ProjectKeeps(props: bv64, input: bool)
    ensures var (q, shared) := (ProjectProperties(props, input), K_EXPANDED | K_MUTABLE | K_ERROR | K_LABELLESS);
            q & shared == props & shared && Has(q, K_ACCEPTOR)
  {}

  lemma ProjectCopies(props: bv64, input: bool)
    ensures var q := ProjectProperties(props, input);
            var (eps, noEps) := if input then (K_I_EPSILONS, K_NO_I_EPSILONS) else (K_O_EPSILONS, K_NO_O_EPSILONS);
            && (Has(q, K_I_EPSILONS) <==> Has(props, eps)) && (Has(q, K_NO_I_EPSILONS) <==> Has(props, noEps))
            && (Has(q, K_O_EPSILONS) <==> Has(props, eps)) && (Has(q, K_NO_O_EPSILONS) <==> Has(props, noEps))
            && (Has(q, K_EPSILONS) <==> Has(props, eps)) && (Has(q, K_NO_EPSILONS) <==> Has(props, noEps))
  {}

  lemma ProjectCopiesOrder(props: bv64, input: bool)
    ensures var q := ProjectProperties(props, input);
            var (sorted, notSorted) := if input then (K_I_LABEL_SORTED, K_NOT_I_LABEL_SORTED) else (K_O_LABEL_SORTED, K_NOT_O_LABEL_SORTED);
            && (Has(q, K_I_LABEL_SORTED) <==> Has(props, sorted)) && (Has(q, K_NOT_I_LABEL_SORTED) <==> Has(props, notSorted))
            && (Has(q, K_O_LABEL_SORTED) <==> Has(props, sorted)) && (Has(q, K_NOT_O_LABEL_SORTED) <==> Has(props, notSorted))
  {}

  /** No rule forgets an error. */
  lemma ErrorStays(props: bv64, oldWeight: Cost, newWeight: Cost, input: bool)
    requires Has(props, K_ERROR)
    ensures Has(SetStartProperties(props), K_ERROR) && Has(SetFinalProperties(props, oldWeight, newWeight), K_ERROR)
    ensures Has(AddStateProperties(props), K_ERROR) && Has(DeleteStatesProperties(props), K_ERROR) && Has(DeleteArcsProperties(props), K_ERROR)
    ensures Has(InvertProperties(props), K_ERROR) && Has(ProjectProperties(props, input), K_ERROR)
  {}

  lemma AppendKeepsErrors(props: bv64, differs: bool, iEps: bool, oEps: bool, weighted: bool, iDown: bool, oDown: bool, back: bool)
    ensures Has(KeepAfterAddArc(MarkPlace(MarkArc(props, differs, iEps, oEps, weighted), iDown, oDown, back)), K_ERROR) <==> Has(props, K_ERROR)
  {}
}
