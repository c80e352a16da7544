/** A map from state IDs to slots in two tiers: a vector for the IDs that come
    densely from zero, a hash map for the rest. */
module HybridIndexMaps {
  import opened Costs

  const DENSE_LIMIT: nat := 1_000_000

  /** What the two tiers hold for an ID. */
  function Entry(dense: seq<Option<nat>>, sparse: map<nat, nat>, id: nat): Option<nat> {
    if id < DENSE_LIMIT then
      if id < |dense| then dense[id] else None
    else if id in sparse then Some(sparse[id]) else None
  }

  class HybridIndexMap {
    var dense: seq<Option<nat>>
    var sparse: map<nat, nat>

    constructor ()
      ensures forall id :: Entry(dense, sparse, id) == None
    {
      dense, sparse := [], map[];
    }

    function Get(id: nat): Option<nat>
      reads this
    {
      Entry(dense, sparse, id)
    }

    method Insert(id: nat, slot: nat)
      modifies this
      ensures forall k: nat :: Entry(dense, sparse, k) == if k == id then Some(slot) else Entry(old(dense), old(sparse), k)
    {
      if id < DENSE_LIMIT {
        if id >= |dense| {
          dense := dense + seq(id + 1 - |dense|, _ => None);
        }
        dense := dense[id := Some(slot)];
      } else {
        sparse := sparse[id := slot];
      }
    }

    method Remove(id: nat)
      modifies this
      ensures forall k: nat :: Entry(dense, sparse, k) == if k == id then None else Entry(old(dense), old(sparse), k)
    {
      if id < DENSE_LIMIT {
        if id < |dense| {
          dense := dense[id := None];
        }
      } else {
        sparse := sparse - {id};
      }
    }

    method Clear()
      modifies this
      ensures forall id :: Entry(dense, sparse, id) == None
    {
      dense, sparse := [], map[];
    }
  }
}
