/** Where the rules meet a scan: the bits an FST holds, and how newly settled ones are
    taken in without ever holding a property and its opposite. */
module PropertyCaches {
  import opened Properties

  /** The bits settled by `props`: those set, and the opposites of those set. */
  function KnownProperties(props: bv64): bv64 {
    K_BINARY_PROPERTIES | (props & K_TRINARY_PROPERTIES)
    | ((props & K_POS_TRINARY_PROPERTIES) << 1) | ((props & K_NEG_TRINARY_PROPERTIES) >> 1)
  }

  function Discovered(held: bv64, props: bv64, mask: bv64): bv64 {
    held | (props & mask & !KnownProperties(held & mask))
  }

  /** No property is claimed both ways. */
  predicate Consistent(props: bv64) {
    (props & K_POS_TRINARY_PROPERTIES) & ((props & K_NEG_TRINARY_PROPERTIES) >> 1) == 0
  }

  /** The mask asks for both halves of a property or for neither. */
  predicate PairClosed(mask: bv64) {
    mask & K_POS_TRINARY_PROPERTIES == (mask & K_NEG_TRINARY_PROPERTIES) >> 1
  }

  lemma DiscoverStaysConsistent(held: bv64, props: bv64, mask: bv64)
    requires Consistent(held) && Consistent(props) && PairClosed(mask)
    ensures Consistent(Discovered(held, props, mask))
  {}

  /** The half a mask asks for alone, of each property it splits. */
  function SplitPositive(mask: bv64): bv64 {
    (mask & K_POS_TRINARY_PROPERTIES) & !((mask & K_NEG_TRINARY_PROPERTIES) >> 1)
  }

  function SplitNegative(mask: bv64): bv64 {
    (mask & K_NEG_TRINARY_PROPERTIES) & !((mask & K_POS_TRINARY_PROPERTIES) << 1)
  }

  lemma SplitMaskClashes(mask: bv64)
    requires !PairClosed(mask)
    ensures SplitPositive(mask) != 0 || SplitNegative(mask) != 0
  {}

  lemma PositiveClashes(mask: bv64)
    requires SplitPositive(mask) != 0
    ensures var x := SplitPositive(mask);
            Consistent(x << 1) && Consistent(x) && !Consistent(Discovered(x << 1, x, mask))
  {}

  lemma NegativeClashes(mask: bv64)
    requires SplitNegative(mask) != 0
    ensures var x := SplitNegative(mask);
            Consistent(x >> 1) && Consistent(x) && !Consistent(Discovered(x >> 1, x, mask))
  {}

  /** Taking in a scan keeps the bits consistent, whatever was held and whatever the
      scan found, exactly when the mask splits no property. */
  lemma ConsistentIffPairClosed(mask: bv64)
    ensures PairClosed(mask)
       <==> forall held: bv64, props: bv64 | Consistent(held) && Consistent(props) :: Consistent(Discovered(held, props, mask))
  {
    hide Consistent, PairClosed, Discovered, SplitPositive, SplitNegative;
    if PairClosed(mask) {
      forall held: bv64, props: bv64 | Consistent(held) && Consistent(props) ensures Consistent(Discovered(held, props, mask)) {
        DiscoverStaysConsistent(held, props, mask);
      }
    } else {
      SplitMaskClashes(mask);
      if SplitPositive(mask) != 0 {
        PositiveClashes(mask);
      } else {
        NegativeClashes(mask);
      }
    }
  }

  class PropertyCache {
    var bits: bv64

    constructor (props: bv64)
      ensures bits == props
    {
      bits := props;
    }

    method Set(props: bv64)
      modifies this
      ensures bits == props
    {
      bits := props;
    }

    method Modify(f: bv64 -> bv64)
      modifies this
      ensures bits == f(old(bits))
    {
      bits := f(bits);
    }

    /** Marks the FST as being in error; nothing else changes. */
    method MarkError()
      modifies this
      ensures bits & K_ERROR != 0 && bits & !K_ERROR == old(bits) & !K_ERROR
    {
      bits := bits | K_ERROR;
    }

    /** Takes in what a scan settled, for what was not settled before. */
    method Discover(props: bv64, mask: bv64)
      modifies this
      ensures bits == Discovered(old(bits), props, mask)
    {
      hide KnownProperties, Discovered;
      var known := KnownProperties(bits & mask);
      var discovered := Unsettled(props, mask, known);
      TakenIn(bits, props, mask);
      hide Unsettled;
      if discovered != 0 {
        bits := Both(bits, discovered);
      }
    }
  }

  function Unsettled(props: bv64, mask: bv64, known: bv64): bv64 {
    props & mask & !known
  }

  function Both(held: bv64, more: bv64): bv64 {
    held | more
  }

  lemma TakenIn(held: bv64, props: bv64, mask: bv64)
    ensures var more := Unsettled(props, mask, KnownProperties(held & mask));
            Discovered(held, props, mask) == if more != 0 then Both(held, more) else held
  {
    hide KnownProperties;
  }

  /** Of the properties the mask asks for, exactly those are taken of which neither half was
      held: `both` is any choice of properties, by their positive halves. */
  lemma TakesExactlyTheUnsettled(held: bv64, props: bv64, mask: bv64, both: bv64)
    requires both & K_POS_TRINARY_PROPERTIES == both
    ensures held & mask & (both | (both << 1)) == 0 ==>
              Discovered(held, props, mask) & (both | (both << 1)) == (held | (props & mask)) & (both | (both << 1))
    ensures ((held & mask) | ((held & mask) >> 1)) & both == both ==>
              Discovered(held, props, mask) & (both | (both << 1)) == held & (both | (both << 1))
  {}

  /** Every bit held stays held. */
  lemma HeldStays(held: bv64, props: bv64, mask: bv64)
    ensures Discovered(held, props, mask) & held == held
  {
    hide KnownProperties;
    OrKeeps(held, props & mask & !KnownProperties(held & mask));
  }

  lemma OrKeeps(held: bv64, more: bv64)
    ensures (held | more) & held == held
  {}

  lemma DiscoverLabelsSound(held: bv64, props: bv64, mask: bv64, t: Truth)
    requires Sound(held, t) && Sound(props, t)
    ensures LabelsSound(Discovered(held, props, mask), t)
  {}

  lemma DiscoverOrderSound(held: bv64, props: bv64, mask: bv64, t: Truth)
    requires Sound(held, t) && Sound(props, t)
    ensures OrderSound(Discovered(held, props, mask), t)
  {}

  lemma DiscoverCyclesSound(held: bv64, props: bv64, mask: bv64, t: Truth)
    requires Sound(held, t) && Sound(props, t)
    ensures CyclesSound(Discovered(held, props, mask), t)
  {}

  lemma DiscoverReachSound(held: bv64, props: bv64, mask: bv64, t: Truth)
    requires Sound(held, t) && Sound(props, t)
    ensures ReachSound(Discovered(held, props, mask), t)
  {}

  /** A correct scan keeps every claim true. */
  lemma DiscoverIsSound(held: bv64, props: bv64, mask: bv64, t: Truth)
    requires Sound(held, t) && Sound(props, t)
    ensures Sound(Discovered(held, props, mask), t)
  {
    DiscoverLabelsSound(held, props, mask, t);
    DiscoverOrderSound(held, props, mask, t);
    DiscoverCyclesSound(held, props, mask, t);
    DiscoverReachSound(held, props, mask, t);
  }
}
