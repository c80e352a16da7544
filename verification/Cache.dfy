/** A cache over states computed on demand. Whatever it has forgotten, and however its
    expander consults it while expanding, it answers as the expander would. */
module Caches {
  import opened Costs
  import opened DecodingGraphs
  import opened CacheStores
  import LinkedSlots

  datatype Query = AskFinal(state: nat) | AskArcs(state: nat)

  /** A deterministic expander: what each state is, and what it asks the cache on the
      way to finding out. Questions lead to lesser ones, so none leads back to
      itself. */
  datatype Expander = Expander(
    final: nat -> Option<Cost>,
    arcs: nat -> seq<Arc>,
    needs: Query -> seq<Query>,
    rank: Query -> nat)
  {
    ghost predicate Settles() {
      forall q: Query, k: nat | k < |needs(q)| :: rank(needs(q)[k]) < rank(q)
    }

    function FinalWeight(s: nat): Cost {
      if final(s).Some? then final(s).value else Infinite
    }
  }

  function InputEpsilons(arcs: seq<Arc>): nat {
    if |arcs| == 0 then 0 else InputEpsilons(arcs[..|arcs| - 1]) + if arcs[|arcs| - 1].ilabel == EPSILON then 1 else 0
  }

  function OutputEpsilons(arcs: seq<Arc>): nat {
    if |arcs| == 0 then 0 else OutputEpsilons(arcs[..|arcs| - 1]) + if arcs[|arcs| - 1].olabel == EPSILON then 1 else 0
  }

  // -- What a cached state may say ------------------------------------------------------

  /** All that is remembered of a state is what the expander would say. */
  ghost predicate Remembers(e: Expander, state: State) {
    && (state.hasFinal ==> state.finalWeight == e.final(state.stateId))
    && (state.hasArcs <==> state.arcs.Some?)
    && (state.hasArcs ==>
          && state.arcs.value.arcs == e.arcs(state.stateId)
          && state.niepsilons == InputEpsilons(e.arcs(state.stateId))
          && state.noepsilons == OutputEpsilons(e.arcs(state.stateId)))
  }

  ghost predicate Faithful(e: Expander, pool: Pool) {
    forall slot | slot in pool :: Remembers(e, pool[slot].data)
  }

  /** Nothing being expanded is a simpler question than this. */
  ghost predicate Idle(e: Expander, pool: Pool, rank: nat) {
    forall slot | slot in pool ::
      && (pool[slot].data.expandingFinal ==> e.rank(AskFinal(pool[slot].data.stateId)) >= rank)
      && (pool[slot].data.expandingArcs ==> e.rank(AskArcs(pool[slot].data.stateId)) >= rank)
  }

  /** What a query does to the states it was not asked about: what is held stays, with
      the arcs it had, and the same states are being expanded. */
  ghost predicate Carried(after: Pool, before: Pool, handles: multiset<nat>) {
    && (forall slot | slot in before && IsHeld(handles, None, slot, before[slot].data) :: slot in after && Kept(after[slot].data, before[slot].data))
    && (forall slot | slot in after ::
          && after[slot].data.expandingFinal == (slot in before && before[slot].data.expandingFinal)
          && after[slot].data.expandingArcs == (slot in before && before[slot].data.expandingArcs))
  }

  ghost predicate Kept(after: State, before: State) {
    && after.stateId == before.stateId
    && (before.arcs.Some? ==> after.arcs == before.arcs && after.hasArcs == before.hasArcs)
    && (before.expandingArcs ==> after.arcs == before.arcs && after.hasArcs == before.hasArcs)
  }

  lemma CarriedOn(a: Pool, b: Pool, c: Pool, handles: multiset<nat>)
    requires Carried(a, b, handles) && Carried(b, c, handles)
    ensures Carried(a, c, handles)
  {}

  lemma SelfCarried(pool: Pool, handles: multiset<nat>)
    ensures Carried(pool, pool, handles)
  {}

  lemma StillIdle(e: Expander, after: Pool, before: Pool, handles: multiset<nat>, rank: nat)
    requires Carried(after, before, handles) && Idle(e, before, rank)
    ensures Idle(e, after, rank)
  {}

  // A slot allocated: nothing is remembered of it unless it was there.
  lemma AllocatedCarries(e: Expander, after: Pool, before: Pool, handles: multiset<nat>, slot: nat, id: nat)
    requires Faithful(e, before) && slot in after && after[slot].data.stateId == id
    requires HeldStay(after, before, handles, None)
    requires slot in before && before[slot].data.stateId == id ==> after == before
    requires !(slot in before && before[slot].data.stateId == id) ==> after[slot].data == NewState(id)
    requires forall s | s in after && s != slot :: s in before && after[s].data == before[s].data.(visited := after[s].data.visited)
    requires slot in before && before[slot].data.stateId != id ==> !IsHeld(handles, None, slot, before[slot].data)
    ensures Faithful(e, after) && Carried(after, before, handles)
  {}

  // Marking what is being expanded, and taking the mark away when it is done.
  lemma RoundTrip(e: Expander, before: Pool, marked: Pool, nested: Pool, done: Pool, handles: multiset<nat>, slot: nat, state: State)
    requires slot in before && marked == before[slot := before[slot].(data := state)]
    requires Carried(nested, marked, handles) && slot in nested
    requires done.Keys == nested.Keys && forall s | s in nested && s != slot :: done[s].data == nested[s].data
    requires state.stateId == before[slot].data.stateId && state.arcs == before[slot].data.arcs && state.hasArcs == before[slot].data.hasArcs
    requires before[slot].data.expandingFinal ==> state.expandingFinal
    requires before[slot].data.expandingArcs ==> state.expandingArcs
    requires done[slot].data.expandingFinal == before[slot].data.expandingFinal && done[slot].data.expandingArcs == before[slot].data.expandingArcs
    requires Kept(done[slot].data, before[slot].data)
    ensures Carried(done, before, handles)
  {}

  datatype Operation =
    | GetFinal(state: nat) | GetNumArcs(state: nat) | GetInputEpsilons(state: nat) | GetOutputEpsilons(state: nat)
    | GetArcs(state: nat) | Drop(handle: Shared) | ClearAll

  datatype Answer = Weight(weight: Cost) | Count(count: nat) | Arcs(arcs: seq<Arc>) | Done

  /** What the expander alone would answer. */
  function Direct(e: Expander, op: Operation): Answer {
    match op
    case GetFinal(s) => Weight(e.FinalWeight(s))
    case GetNumArcs(s) => Count(|e.arcs(s)|)
    case GetInputEpsilons(s) => Count(InputEpsilons(e.arcs(s)))
    case GetOutputEpsilons(s) => Count(OutputEpsilons(e.arcs(s)))
    case GetArcs(s) => Arcs(e.arcs(s))
    case Drop(_) => Done
    case ClearAll => Done
  }

  class CacheImpl {
    const store: CacheStore

    constructor (store: CacheStore)
      ensures this.store == store
    {
      this.store := store;
    }

    ghost predicate Ready(e: Expander)
      reads store, store.index
    {
      store.Valid() && Faithful(e, store.pool)
    }

    /** Slots a state, computing nothing. */
    method Slot(s: nat, e: Expander, ghost rank: nat) returns (slot: nat)
      requires Ready(e) && Idle(e, store.pool, rank)
      modifies store, store.index
      ensures Ready(e) && Idle(e, store.pool, rank) && store.handles == old(store.handles)
      ensures slot in store.pool && store.pool[slot].data.stateId == s
      ensures Carried(store.pool, old(store.pool), store.handles)
    {
      hide CacheStore.Valid, IsHeld, Carried, Idle, HeldStay, Remembers;
      ghost var before := store.pool;
      slot := store.AllocateSlot(s);
      AllocatedCarries(e, store.pool, before, store.handles, slot, s);
      StillIdle(e, store.pool, before, store.handles, rank);
    }

    /** Changes a slot's marks and memory, but not its arcs. */
    method Set(slot: nat, state: State, ghost e: Expander)
      requires Ready(e) && slot in store.pool && state.stateId == store.pool[slot].data.stateId
      requires state.arcs == store.pool[slot].data.arcs && Remembers(e, state)
      modifies store
      ensures Ready(e) && store.handles == old(store.handles) && store.nextBox == old(store.nextBox)
      ensures store.pool == old(store.pool)[slot := old(store.pool)[slot].(data := state)]
    {
      hide CacheStore.Valid, Remembers;
      store.Update(slot, state, 0);
    }

    /** Asks everything a question leads to. */
    method Consult(q: Query, e: Expander)
      requires Ready(e) && e.Settles() && Idle(e, store.pool, e.rank(q))
      modifies store, store.index
      ensures Ready(e) && store.handles == old(store.handles)
      ensures Carried(store.pool, old(store.pool), store.handles)
      decreases e.rank(q), 0
    {
      hide CacheStore.Valid, Carried, Idle, Faithful;
      var asked := e.needs(q);
      ghost var before := store.pool;
      SelfCarried(before, store.handles);
      for k := 0 to |asked|
        invariant Ready(e) && store.handles == old(store.handles)
        invariant Carried(store.pool, before, store.handles)
      {
        ghost var mid := store.pool;
        StillIdle(e, mid, before, store.handles, e.rank(q));
        LessIdle(e, mid, e.rank(q), e.rank(asked[k]) + 1);
        match asked[k] {
          case AskFinal(s) =>
            var _ := FinalWeight(s, e);
          case AskArcs(s) =>
            var _ := EnsureArcs(s, e);
        }
        CarriedOn(store.pool, mid, before, store.handles);
      }
    }

    /** A state's final weight, remembered or computed. */
    method FinalWeight(s: nat, e: Expander) returns (w: Cost)
      requires Ready(e) && e.Settles() && Idle(e, store.pool, e.rank(AskFinal(s)) + 1)
      modifies store, store.index
      ensures Ready(e) && store.handles == old(store.handles)
      ensures w == e.FinalWeight(s)
      ensures Carried(store.pool, old(store.pool), store.handles)
      decreases e.rank(AskFinal(s)), 1
    {
      hide CacheStore.Valid, Carried, Idle, Faithful, IsHeld;
      ghost var (p0, handles) := (store.pool, store.handles);
      var slot := Slot(s, e, e.rank(AskFinal(s)) + 1);
      ghost var p1 := store.pool;
      RememberedAt(e, p1, slot);
      NotExpanding(e, p1, slot, e.rank(AskFinal(s)) + 1);
      var state := store.pool[slot].data;
      if state.hasFinal {
        Set(slot, state.(visited := true), e);
        VisitCarries(p1, slot, handles);
        CarriedOn(store.pool, p1, p0, handles);
        return if state.finalWeight.Some? then state.finalWeight.value else Infinite;
      }
      assert !state.expandingFinal;
      Set(slot, state.(expandingFinal := true), e);
      ghost var p2 := store.pool;
      MarkedIsIdle(e, p1, p2, slot, e.rank(AskFinal(s)));
      Consult(AskFinal(s), e);
      ghost var p3 := store.pool;
      MarkedStays(p3, p2, handles, slot);
      RememberedAt(e, p3, slot);
      var fw := e.final(s);
      state := store.pool[slot].data;
      Set(slot, state.(expandingFinal := false, finalWeight := fw, hasFinal := true, visited := true), e);
      RoundTrip(e, p1, p2, p3, store.pool, handles, slot, p2[slot].data);
      CarriedOn(store.pool, p1, p0, handles);
      w := if fw.Some? then fw.value else Infinite;
    }

    /** The slot of a state whose arcs are there, remembered or computed. */
    method EnsureArcs(s: nat, e: Expander) returns (slot: nat)
      requires Ready(e) && e.Settles() && Idle(e, store.pool, e.rank(AskArcs(s)) + 1)
      modifies store, store.index
      ensures Ready(e) && store.handles == old(store.handles)
      ensures slot in store.pool && store.pool[slot].data.stateId == s && store.pool[slot].data.hasArcs
      ensures Carried(store.pool, old(store.pool), store.handles)
      decreases e.rank(AskArcs(s)), 1
    {
      hide CacheStore.Valid, Carried, Idle, Faithful, IsHeld, SameButVisited, HeldStay;
      ghost var (p0, handles) := (store.pool, store.handles);
      slot := Slot(s, e, e.rank(AskArcs(s)) + 1);
      ghost var p1 := store.pool;
      RememberedAt(e, p1, slot);
      NotExpanding(e, p1, slot, e.rank(AskArcs(s)) + 1);
      var state := store.pool[slot].data;
      if state.hasArcs {
        Set(slot, state.(visited := true), e);
        VisitCarries(p1, slot, handles);
        CarriedOn(store.pool, p1, p0, handles);
        return;
      }
      assert !state.expandingArcs;
      Set(slot, state.(expandingArcs := true), e);
      ghost var p2 := store.pool;
      MarkedIsIdle(e, p1, p2, slot, e.rank(AskArcs(s)));
      Consult(AskArcs(s), e);
      ghost var p3 := store.pool;
      MarkedStays(p3, p2, handles, slot);
      RememberedAt(e, p3, slot);
      var arcs := e.arcs(s);
      state := store.pool[slot].data;
      var nieps, noeps := CountEpsilons(arcs);
      state := state.(expandingArcs := false, arcs := Some(Shared(store.nextBox, arcs)), niepsilons := nieps, noepsilons := noeps, hasArcs := true, visited := true);
      AddArcs(slot, state, e);
      ghost var p4 := store.pool;
      RoundTrip(e, p1, p2, p3, p4, handles, slot, p2[slot].data);
      store.Gc(Some(slot));
      CollectedCarries(e, store.pool, p4, handles, slot);
      CarriedOn(store.pool, p4, p1, handles);
      CarriedOn(store.pool, p1, p0, handles);
    }

    method AddArcs(slot: nat, state: State, ghost e: Expander)
      requires Ready(e) && slot in store.pool && state.stateId == store.pool[slot].data.stateId
      requires store.pool[slot].data.arcs == None && state.arcs.Some? && state.arcs.value.id == store.nextBox && Remembers(e, state)
      modifies store
      ensures Ready(e) && store.handles == old(store.handles)
      ensures store.pool == old(store.pool)[slot := old(store.pool)[slot].(data := state)]
    {
      hide CacheStore.Valid, Remembers;
      store.Update(slot, state, |state.arcs.value.arcs| * store.arcBytes);
    }

    ghost predicate AtRest(e: Expander)
      reads store, store.index
    {
      Ready(e) && Quiet(store.pool) && e.Settles()
    }

    method ArcsSlot(s: nat, e: Expander) returns (slot: nat)
      requires AtRest(e)
      modifies store, store.index
      ensures AtRest(e) && store.handles == old(store.handles)
      ensures slot in store.pool && store.pool[slot].data.stateId == s
      ensures Remembers(e, store.pool[slot].data) && store.pool[slot].data.hasArcs
      ensures Carried(store.pool, old(store.pool), store.handles)
    {
      hide CacheStore.Valid, Carried, Idle, Faithful, Remembers, Quiet;
      QuietIsIdle(e, store.pool, e.rank(AskArcs(s)) + 1);
      slot := EnsureArcs(s, e);
      StaysQuiet(store.pool, old(store.pool), store.handles);
      RememberedAt(e, store.pool, slot);
    }

    method AskFinalWeight(s: nat, e: Expander) returns (w: Cost)
      requires AtRest(e)
      modifies store, store.index
      ensures AtRest(e) && store.handles == old(store.handles) && w == e.FinalWeight(s)
      ensures Carried(store.pool, old(store.pool), store.handles)
    {
      hide CacheStore.Valid, Carried, Idle, Faithful, Quiet;
      QuietIsIdle(e, store.pool, e.rank(AskFinal(s)) + 1);
      w := FinalWeight(s, e);
      StaysQuiet(store.pool, old(store.pool), store.handles);
    }

    method NumArcs(s: nat, e: Expander) returns (n: nat)
      requires AtRest(e)
      modifies store, store.index
      ensures AtRest(e) && store.handles == old(store.handles) && n == |e.arcs(s)|
    {
      hide CacheStore.Valid, Faithful, Quiet;
      var slot := ArcsSlot(s, e);
      n := |store.pool[slot].data.arcs.value.arcs|;
    }

    method NumInputEpsilons(s: nat, e: Expander) returns (n: nat)
      requires AtRest(e)
      modifies store, store.index
      ensures AtRest(e) && store.handles == old(store.handles) && n == InputEpsilons(e.arcs(s))
    {
      hide CacheStore.Valid, Faithful, Quiet;
      var slot := ArcsSlot(s, e);
      n := store.pool[slot].data.niepsilons;
    }

    method NumOutputEpsilons(s: nat, e: Expander) returns (n: nat)
      requires AtRest(e)
      modifies store, store.index
      ensures AtRest(e) && store.handles == old(store.handles) && n == OutputEpsilons(e.arcs(s))
    {
      hide CacheStore.Valid, Faithful, Quiet;
      var slot := ArcsSlot(s, e);
      n := store.pool[slot].data.noepsilons;
    }

    /** The arcs themselves, shared: until the handle is dropped, the slot they came
        from stays, with them, whatever else is asked. */
    method ArcsSlice(s: nat, e: Expander) returns (handle: Shared, ghost slot: nat)
      requires AtRest(e)
      modifies store, store.index
      ensures AtRest(e) && store.handles == old(store.handles) + multiset{handle.id} && handle.arcs == e.arcs(s)
      ensures slot in store.pool && store.pool[slot].data.stateId == s && store.pool[slot].data.arcs == Some(handle)
      ensures IsPinned(store.handles, store.pool[slot].data)
    {
      hide Faithful, Quiet, Inverse, LinkedSlots.Threaded, LinkedSlots.Total;
      var at := ArcsSlot(s, e);
      handle, slot := store.pool[at].data.arcs.value, at;
      store.handles := store.handles + multiset{handle.id};
    }

    method DropSlice(handle: Shared, ghost e: Expander)
      requires AtRest(e)
      modifies store
      ensures AtRest(e) && store.handles == old(store.handles) - multiset{handle.id} && store.pool == old(store.pool)
    {
      hide Faithful, Quiet, Inverse, LinkedSlots.Threaded, LinkedSlots.Total;
      store.handles := store.handles - multiset{handle.id};
    }

    /** Whether the arcs are remembered; asking computes nothing. */
    method HasArcs(s: nat, ghost e: Expander) returns (has: bool)
      requires AtRest(e)
      ensures has <==> exists slot :: slot in store.pool && store.pool[slot].data.stateId == s && store.pool[slot].data.hasArcs
    {
      var slot := store.index.Get(s);
      InverseFinds(store.index.dense, store.index.sparse, store.pool, s);
      if slot.None? {
        return false;
      }
      assert Indexed(store.pool, s, slot.value);
      forall other | other in store.pool && store.pool[other].data.stateId == s ensures other == slot.value {
        assert Indexed(store.pool, s, other);
      }
      has := store.pool[slot.value].data.hasArcs;
    }

    method Clear(ghost e: Expander)
      requires AtRest(e)
      modifies store, store.index
      ensures AtRest(e) && store.pool == map[] && store.handles == old(store.handles)
    {
      hide CacheStore.Valid;
      store.Clear();
    }

    /** Runs any sequence of operations. Each query is answered as the expander alone
        would answer it. */
    method Run(ops: seq<Operation>, e: Expander) returns (answers: seq<Answer>)
      requires AtRest(e)
      modifies store, store.index
      ensures AtRest(e) && |answers| == |ops|
      ensures forall k | 0 <= k < |ops| :: answers[k] == Direct(e, ops[k])
    {
      hide CacheStore.Valid, Faithful, Quiet, Remembers;
      answers := [];
      for k := 0 to |ops|
        invariant AtRest(e) && |answers| == k
        invariant forall j | 0 <= j < k :: answers[j] == Direct(e, ops[j])
      {
        var answer := Done;
        match ops[k] {
          case GetFinal(s) =>
            var w := AskFinalWeight(s, e);
            answer := Weight(w);
          case GetNumArcs(s) =>
            var n := NumArcs(s, e);
            answer := Count(n);
          case GetInputEpsilons(s) =>
            var n := NumInputEpsilons(s, e);
            answer := Count(n);
          case GetOutputEpsilons(s) =>
            var n := NumOutputEpsilons(s, e);
            answer := Count(n);
          case GetArcs(s) =>
            var handle, _ := ArcsSlice(s, e);
            answer := Arcs(handle.arcs);
          case Drop(handle) =>
            DropSlice(handle, e);
          case ClearAll =>
            Clear(e);
        }
        answers := answers + [answer];
      }
    }

    method CountEpsilons(arcs: seq<Arc>) returns (nieps: nat, noeps: nat)
      ensures nieps == InputEpsilons(arcs) && noeps == OutputEpsilons(arcs)
    {
      nieps, noeps := 0, 0;
      for k := 0 to |arcs|
        invariant nieps == InputEpsilons(arcs[..k]) && noeps == OutputEpsilons(arcs[..k])
      {
        assert arcs[..k + 1][..k] == arcs[..k];
        if arcs[k].ilabel == EPSILON {
          nieps := nieps + 1;
        }
        if arcs[k].olabel == EPSILON {
          noeps := noeps + 1;
        }
      }
      assert arcs[..|arcs|] == arcs;
    }
  }

  // -- Queries from outside ------------------------------------------------------------------

  /** Nothing is being expanded. */
  ghost predicate Quiet(pool: Pool) {
    forall slot | slot in pool :: !pool[slot].data.expandingFinal && !pool[slot].data.expandingArcs
  }

  lemma QuietIsIdle(e: Expander, pool: Pool, rank: nat)
    requires Quiet(pool)
    ensures Idle(e, pool, rank)
  {}

  lemma StaysQuiet(after: Pool, before: Pool, handles: multiset<nat>)
    requires Carried(after, before, handles) && Quiet(before)
    ensures Quiet(after)
  {}

  lemma LessIdle(e: Expander, pool: Pool, rank: nat, less: nat)
    requires Idle(e, pool, rank) && less <= rank
    ensures Idle(e, pool, less)
  {}

  lemma RememberedAt(e: Expander, pool: Pool, slot: nat)
    requires Faithful(e, pool) && slot in pool
    ensures Remembers(e, pool[slot].data)
  {}

  lemma NotExpanding(e: Expander, pool: Pool, slot: nat, rank: nat)
    requires Idle(e, pool, rank) && slot in pool
    ensures pool[slot].data.expandingFinal ==> e.rank(AskFinal(pool[slot].data.stateId)) >= rank
    ensures pool[slot].data.expandingArcs ==> e.rank(AskArcs(pool[slot].data.stateId)) >= rank
  {}

  lemma VisitCarries(pool: Pool, slot: nat, handles: multiset<nat>)
    requires slot in pool
    ensures Carried(pool[slot := pool[slot].(data := pool[slot].data.(visited := true))], pool, handles)
  {}

  // Marking a question as being expanded leaves only simpler ones to ask.
  lemma MarkedIsIdle(e: Expander, before: Pool, marked: Pool, slot: nat, rank: nat)
    requires Idle(e, before, rank + 1) && slot in before
    requires var state := before[slot].data;
             || (marked == before[slot := before[slot].(data := state.(expandingFinal := true))] && rank == e.rank(AskFinal(state.stateId)))
             || (marked == before[slot := before[slot].(data := state.(expandingArcs := true))] && rank == e.rank(AskArcs(state.stateId)))
    ensures Idle(e, marked, rank)
  {}

  lemma MarkedStays(after: Pool, marked: Pool, handles: multiset<nat>, slot: nat)
    requires Carried(after, marked, handles) && slot in marked && (marked[slot].data.expandingFinal || marked[slot].data.expandingArcs)
    ensures slot in after && Kept(after[slot].data, marked[slot].data)
    ensures after[slot].data.expandingFinal == marked[slot].data.expandingFinal
    ensures after[slot].data.expandingArcs == marked[slot].data.expandingArcs
  {}

  lemma CollectedCarries(e: Expander, after: Pool, before: Pool, handles: multiset<nat>, slot: nat)
    requires SameButVisited(after, before) && HeldStay(after, before, handles, Some(slot)) && Faithful(e, before) && slot in before
    ensures Carried(after, before, handles) && Faithful(e, after) && slot in after
    ensures after[slot].data == before[slot].data.(visited := after[slot].data.visited)
  {}
}
