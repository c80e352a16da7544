/** The store behind a cached FST: states in a slab, an index from state IDs to
    slots, a list in order of arrival, and a sweeping hand that evicts what has not
    been visited since it last passed. */
module CacheStores {
  import opened Costs
  import opened FiniteSets
  import opened DecodingGraphs
  import opened HybridIndexMaps
  import opened LinkedSlots

  /** A state's arcs, in a box that handles outside the cache may share. */
  datatype Shared = Shared(id: nat, arcs: seq<Arc>)

  /** One cached state: what has been computed, whether it was visited since the hand
      last passed, and what is being computed right now. */
  datatype State = State(
    stateId: nat,
    hasFinal: bool, hasArcs: bool, visited: bool, expandingFinal: bool, expandingArcs: bool,
    finalWeight: Option<Cost>, arcs: Option<Shared>, niepsilons: nat, noepsilons: nat)

  function NewState(id: nat): State {
    State(id, false, false, false, false, false, None, None, 0, 0)
  }

  function Estimate(stateBytes: nat, arcBytes: nat, state: State): nat {
    stateBytes + if state.arcs.Some? then |state.arcs.value.arcs| * arcBytes else 0
  }

  /** Something outside the store holds the state's arcs. */
  predicate IsPinned(handles: multiset<nat>, state: State) {
    state.arcs.Some? && state.arcs.value.id in handles
  }

  /** What the sweep must leave alone. */
  predicate IsHeld(handles: multiset<nat>, protect: Option<nat>, slot: nat, state: State) {
    protect == Some(slot) || IsPinned(handles, state) || state.expandingFinal || state.expandingArcs
  }

  function SaturatingSub(a: nat, b: nat): nat {
    if a >= b then a - b else 0
  }

  type Pool = map<nat, Node<State>>

  ghost predicate Indexed(pool: Pool, id: nat, slot: nat) {
    slot in pool && pool[slot].data.stateId == id
  }

  /** Nothing is pinned, and nothing is being computed. */
  ghost predicate AtEase(pool: Pool, handles: multiset<nat>) {
    && (forall slot | slot in pool && pool[slot].data.arcs.Some? :: pool[slot].data.arcs.value.id !in handles)
    && forall slot | slot in pool :: !pool[slot].data.expandingFinal && !pool[slot].data.expandingArcs
  }

  /** The same states, but for whether they were visited. */
  ghost predicate SameButVisited(after: Pool, before: Pool) {
    forall slot | slot in after :: slot in before
                                   && after[slot].data == before[slot].data.(visited := after[slot].data.visited)
                                   && (after[slot].data.visited ==> before[slot].data.visited)
  }

  ghost predicate HeldStay(after: Pool, before: Pool, handles: multiset<nat>, protect: Option<nat>) {
    forall slot | slot in before && IsHeld(handles, protect, slot, before[slot].data) :: slot in after
  }

  ghost predicate OnlyHeldLeft(pool: Pool, handles: multiset<nat>, protect: Option<nat>) {
    forall slot | slot in pool :: IsHeld(handles, protect, slot, pool[slot].data)
  }

  /** Nothing that could have gone and had not been visited is left. */
  ghost predicate UnvisitedGone(after: Pool, before: Pool, handles: multiset<nat>, protect: Option<nat>) {
    forall slot | slot in after :: slot in before && (before[slot].data.visited || IsHeld(handles, protect, slot, before[slot].data))
  }

  ghost predicate VisitedStay(after: Pool, before: Pool) {
    forall slot | slot in before && before[slot].data.visited :: slot in after
  }

  /** Nothing was freed that did not have to go: before the last of what was freed went,
      there was more than the target. */
  ghost predicate EndedInTime(after: Pool, before: Pool, bytes: nat, target: int, size: State -> nat) {
    after.Keys == before.Keys || exists slot :: slot in before && slot !in after && size(before[slot].data) + bytes > target
  }

  // The parts of what a store keeps, of the values its fields hold.

  ghost predicate Ends(order: seq<nat>, head: Option<nat>, tail: Option<nat>) {
    head == First(order) && tail == Last(order)
  }

  ghost predicate Inverse(dense: seq<Option<nat>>, sparse: map<nat, nat>, pool: Pool) {
    forall id: nat, slot: nat :: Entry(dense, sparse, id) == Some(slot) <==> Indexed(pool, id, slot)
  }

  ghost predicate HandLives(pool: Pool, order: seq<nat>, hand: Option<nat>) {
    order != [] ==> hand.Some? && hand.value in pool
  }

  ghost predicate BoxesApart(pool: Pool, nextBox: nat) {
    && (forall slot | slot in pool && pool[slot].data.arcs.Some? :: pool[slot].data.arcs.value.id < nextBox)
    && forall a, b | a in pool && b in pool && a != b && pool[a].data.arcs.Some? && pool[b].data.arcs.Some? ::
         pool[a].data.arcs.value.id != pool[b].data.arcs.value.id
  }

  ghost predicate Older(handles: multiset<nat>, nextBox: nat) {
    forall box | box in handles :: box < nextBox
  }

  class CacheStore {
    var pool: Pool
    const index: HybridIndexMap
    const gc: bool
    const gcLimit: nat
    const fraction: real
    const stateBytes: nat
    const arcBytes: nat

    var bytes: nat
    var limit: nat
    var head: Option<nat>
    var tail: Option<nat>
    var hand: Option<nat>

    /** The boxes of arcs handed out and not yet dropped, and the next new one. */
    var handles: multiset<nat>
    var nextBox: nat

    /** The slots from head to tail. */
    ghost var order: seq<nat>

    function SizeOf(): State -> nat {
      (state: State) => Estimate(stateBytes, arcBytes, state)
    }

    /** The list threads exactly the live slots, the index is its inverse, the byte
        count is the states' sizes, and the hand is live unless there is nothing to
        point at. */
    ghost predicate Valid()
      reads this, index
    {
      && Threaded(pool, order) && Ends(order, head, tail)
      && Inverse(index.dense, index.sparse, pool)
      && bytes == Total(pool, order, SizeOf())
      && HandLives(pool, order, hand)
      && 0.0 <= fraction <= 1.0
      && BoxesApart(pool, nextBox) && Older(handles, nextBox)
    }

    constructor (gc: bool, gcLimit: nat, fraction: real, stateBytes: nat, arcBytes: nat)
      ensures Valid() && fresh(index) && pool == map[] && handles == multiset{} && limit == gcLimit
    {
      this.gc, this.gcLimit, this.stateBytes, this.arcBytes := gc, gcLimit, stateBytes, arcBytes;
      this.fraction := if fraction < 0.0 then 0.0 else if fraction > 1.0 then 1.0 else fraction;
      pool, bytes, limit, order := map[], 0, gcLimit, [];
      head, tail, hand := None, None, None;
      handles, nextBox := multiset{}, 0;
      index := new HybridIndexMap();
    }

    // The measure, and so the total, looks at nothing but sizes.
    lemma TotalKept(after: Pool, before: Pool, slots: seq<nat>)
      requires forall slot | slot in slots :: slot in after && slot in before
                                              && Estimate(stateBytes, arcBytes, after[slot].data) == Estimate(stateBytes, arcBytes, before[slot].data)
      ensures Total(after, slots, SizeOf()) == Total(before, slots, SizeOf())
    {
      TotalSame(after, before, slots, SizeOf());
    }

    lemma TotalUnlinked(k: nat)
      requires Threaded(pool, order) && k < |order|
      ensures order[k] in pool && Threaded(Unlink(pool, order[k]), Without(order, k))
      ensures Total(pool, order, SizeOf())
           == Total(Unlink(pool, order[k]), Without(order, k), SizeOf()) + Estimate(stateBytes, arcBytes, pool[order[k]].data)
    {
      hide Unlink, Threaded, Without, Estimate;
      UnlinkKeepsList(pool, order, k);
      TotalWithout(pool, order, k, SizeOf());
      AllMembers(Unlink(pool, order[k]), Without(order, k));
      TotalKept(Unlink(pool, order[k]), pool, Without(order, k));
    }

    /** Takes a node out of the list, the index and the slab. */
    method RemoveNode(slot: nat, ghost k: nat)
      requires Valid() && k < |order| && slot == order[k]
      modifies this, index
      ensures Valid() && order == Without(old(order), k) && slot in old(pool) && pool == Unlink(old(pool), slot)
      ensures bytes + Estimate(stateBytes, arcBytes, old(pool)[slot].data) == old(bytes)
      ensures Steady(old(handles), old(nextBox), old(limit))
    {
      hide Threaded, Total, Estimate, BoxesApart, Inverse, HandLives, Older, Ends, Unlink, Without, Entry, PrevOf, NextOf;
      TotalUnlinked(k);
      KeyOf(pool, order, k);
      UnlinkKeepsList(pool, order, k);
      EndsUnlinked(pool, order, k, head, tail);
      HandUnlinked(pool, order, k, head, tail, hand);
      BoxesUnlinked(pool, order, k, nextBox);
      UnlinkDone(pool, slot);
      ghost var before := pool;
      var state := pool[slot].data;
      var size := Estimate(stateBytes, arcBytes, state);
      bytes := SaturatingSub(bytes, size);
      var (prev, next) := (pool[slot].prev, pool[slot].next);
      if prev.Some? {
        pool := pool[prev.value := pool[prev.value].(next := next)];
      } else {
        head := next;
      }
      if next.Some? {
        pool := pool[next.value := pool[next.value].(prev := prev)];
      } else {
        tail := prev;
      }
      if hand == Some(slot) {
        hand := if prev.Some? then prev else tail;
      }
      index.Remove(state.stateId);
      pool := pool - {slot};
      order := Without(order, k);
      InverseUnlinked(old(index.dense), old(index.sparse), index.dense, index.sparse, before, slot);
    }

    lemma BoxesUnlinked(pool: Pool, order: seq<nat>, k: nat, nextBox: nat)
      requires Threaded(pool, order) && k < |order| && BoxesApart(pool, nextBox)
      ensures order[k] in pool && BoxesApart(Unlink(pool, order[k]), nextBox)
    {
      hide Unlink;
      UnlinkKeepsList(pool, order, k);
    }

    /** Puts a new node at the front. */
    method PushHead(slot: nat, state: State)
      requires Valid() && slot !in pool && index.Get(state.stateId) == None && state.arcs == None
      modifies this, index
      ensures Valid() && order == [slot] + old(order) && pool == Push(old(pool), old(head), slot, state)
      ensures Steady(old(handles), old(nextBox), old(limit)) && bytes == old(bytes) + stateBytes
    {
      hide Threaded, Total, Estimate, BoxesApart, Inverse, HandLives, Older, Ends, Push, Entry;
      ghost var before := pool;
      PushKeepsList(pool, order, slot, state);
      TotalPushed(pool, order, slot, state);
      BoxesPushed(pool, order, slot, state, nextBox);
      EndsPushed(pool, order, head, tail, hand, slot, state);
      PushDone(pool, head, slot, state);
      bytes := bytes + stateBytes;
      index.Insert(state.stateId, slot);
      if head.Some? {
        pool := pool[slot := Node(state, None, head)];
        pool := pool[head.value := pool[head.value].(prev := Some(slot))];
        head := Some(slot);
      } else {
        pool := pool[slot := Node(state, None, None)];
        head, tail, hand := Some(slot), Some(slot), Some(slot);
      }
      order := [slot] + order;
      InversePushed(old(index.dense), old(index.sparse), index.dense, index.sparse, before, old(head), slot, state);
    }

    lemma BoxesPushed(pool: Pool, order: seq<nat>, slot: nat, state: State, nextBox: nat)
      requires Threaded(pool, order) && slot !in pool && BoxesApart(pool, nextBox) && state.arcs == None
      ensures BoxesApart(Push(pool, First(order), slot, state), nextBox)
    {
      hide Push;
      PushKeepsList(pool, order, slot, state);
    }

    lemma TotalPushed(pool: Pool, order: seq<nat>, slot: nat, state: State)
      requires Threaded(pool, order) && slot !in pool && state.arcs == None
      ensures Total(Push(pool, First(order), slot, state), [slot] + order, SizeOf()) == Total(pool, order, SizeOf()) + stateBytes
    {
      hide Push, Threaded;
      PushKeepsList(pool, order, slot, state);
      var after := Push(pool, First(order), slot, state);
      TotalAppend(after, [slot], order, SizeOf());
      TotalOne(after, slot, SizeOf());
      AllMembers(pool, order);
      TotalKept(after, pool, order);
    }

    /** Replaces what a slot holds, which may grow it. */
    method Update(slot: nat, state: State, grown: nat)
      requires Valid() && slot in pool && state.stateId == pool[slot].data.stateId
      requires Estimate(stateBytes, arcBytes, state) == Estimate(stateBytes, arcBytes, pool[slot].data) + grown
      requires state.arcs.Some? && state.arcs != pool[slot].data.arcs ==> state.arcs.value.id == nextBox
      modifies this
      ensures Valid() && order == old(order) && pool == old(pool)[slot := old(pool)[slot].(data := state)]
      ensures bytes == old(bytes) + grown && limit == old(limit) && handles == old(handles)
      ensures nextBox == old(nextBox) + if state.arcs.Some? && state.arcs != old(pool)[slot].data.arcs then 1 else 0
    {
      hide Total, Estimate, Threaded, BoxesApart, Inverse, HandLives, Older, Ends;
      TotalUpdated(pool, order, slot, state, grown);
      UpdateThreaded(pool, order, slot, state);
      UpdateKeeps(pool, order, index.dense, index.sparse, hand, handles, nextBox, slot, state);
      if state.arcs.Some? && state.arcs != pool[slot].data.arcs {
        nextBox := nextBox + 1;
      }
      pool := pool[slot := pool[slot].(data := state)];
      bytes := bytes + grown;
    }

    lemma TotalUpdated(pool: Pool, order: seq<nat>, slot: nat, state: State, grown: nat)
      requires Threaded(pool, order) && slot in pool
      requires Estimate(stateBytes, arcBytes, state) == Estimate(stateBytes, arcBytes, pool[slot].data) + grown
      ensures Total(pool[slot := pool[slot].(data := state)], order, SizeOf()) == Total(pool, order, SizeOf()) + grown
    {
      hide Total, Estimate;
      var after := pool[slot := pool[slot].(data := state)];
      var k := Place(pool, order, slot);
      TotalWithout(pool, order, k, SizeOf());
      TotalWithout(after, order, k, SizeOf());
      WithoutMembers(order, k);
      TotalKept(after, pool, Without(order, k));
    }

    /** Where the hand goes from a node: to the one before it, or round to the tail. */
    function StepBack(slot: nat): Option<nat>
      requires slot in pool
      reads this
    {
      if pool[slot].prev.Some? then pool[slot].prev else tail
    }

    /** The sweep's place: the slot it stands on, and the list read round to it, which
        is what it has done followed by what it has still to do. */
    ghost predicate At(current: Option<nat>, k: nat, done: seq<nat>, todo: seq<nat>)
      reads this
    {
      if order == [] then done == [] && todo == []
      else k < |order| && current == Some(order[k]) && Rotated(order, k) == done + todo
    }

    ghost predicate Steady(handles: multiset<nat>, nextBox: nat, limit: nat)
      reads this
    {
      this.handles == handles && this.nextBox == nextBox && this.limit == limit
    }

    /** Frees the slot the sweep stands on, and says where the sweep is then. */
    method Evict(slot: nat, next: Option<nat>, ghost k: nat, ghost done: seq<nat>, ghost todo: seq<nat>)
      returns (ghost newK: nat)
      requires Valid() && order != [] && At(Some(slot), k, done, todo) && todo != [] && next == StepBack(slot)
      modifies this, index
      ensures Valid() && Steady(old(handles), old(nextBox), old(limit)) && slot in old(pool)
      ensures bytes + Estimate(stateBytes, arcBytes, old(pool)[slot].data) == old(bytes)
      ensures order == [] <==> |old(order)| == 1
      ensures pool == Unlink(old(pool), slot) && At(next, newK, if order == [] then [] else done, todo[..|todo| - 1])
    {
      hide Threaded, Total, Estimate, BoxesApart, Unlink, Without, Rotated, Inverse, HandLives, Older;
      StepRotates(order, k);
      KeyOf(pool, order, k);
      LastOf(done, todo);
      newK := 0;
      if |order| > 1 {
        UnlinkRotates(order, k);
        newK := Back(k, |order| - if k == 0 then 1 else 0);
        BackIsPrev(pool, order, k);
        assert (done + todo)[..|done + todo| - 1] == done + todo[..|todo| - 1];
      } else {
        OnlyOne(order, k, done, todo);
      }
      WithoutSize(order, k);
      RemoveNode(slot, k);
    }

    lemma WithoutSize(order: seq<nat>, k: nat)
      requires k < |order|
      ensures |Without(order, k)| == |order| - 1
    {}

    lemma OnlyOne(order: seq<nat>, k: nat, done: seq<nat>, todo: seq<nat>)
      requires |order| == 1 && k < |order| && Rotated(order, k) == done + todo && todo != []
      ensures done == [] && todo == order && Without(order, k) == []
    {
      assert k == 0 && Rotated(order, k) == order;
      assert |done + todo| == 1;
    }

    ghost method SweepStart(current: Option<nat>) returns (k: nat, todo: seq<nat>)
      requires Valid() && current == if hand.Some? then hand else tail
      ensures At(current, k, [], todo) && |todo| == |pool| && forall slot | slot in todo :: slot in pool
    {
      k, todo := 0, [];
      CountSlots(pool, order);
      if order != [] {
        k := Place(pool, order, current.value);
        todo := Rotated(order, k);
        assert [] + todo == todo;
        SameMembers(order, k);
        AllMembers(pool, order);
      }
    }

    /** The first sweep: clears what was visited, and evicts what was not. */
    method SweepUnvisited(protect: Option<nat>, target: nat)
      requires Valid()
      modifies this, index
      ensures Valid() && Steady(old(handles), old(nextBox), old(limit))
      ensures SameButVisited(pool, old(pool)) && HeldStay(pool, old(pool), handles, protect)
      ensures VisitedStay(pool, old(pool))
      ensures bytes <= target || UnvisitedGone(pool, old(pool), handles, protect)
      ensures EndedInTime(pool, old(pool), bytes, target, SizeOf())
    {
      hide EndedInTime, Threaded, Total, Estimate, BoxesApart, Unlink, Rotated, IsHeld, Inverse, HandLives, Older, Swept, SameButVisited, HeldStay, VisitedStay, UnvisitedGone, PrevOf, NextOf;
      var maxSteps := |pool|;
      var steps := 0;
      var current := if hand.Some? then hand else tail;
      ghost var before := pool;
      ghost var done: seq<nat> := [];
      ghost var k, todo := SweepStart(current);
      NothingSwept(pool, handles, protect, todo, true);
      NothingFreed(pool, pool, bytes, target);
      while bytes > target && steps < maxSteps
        invariant Valid() && Steady(old(handles), old(nextBox), old(limit))
        invariant steps + |todo| == maxSteps && At(current, k, done, todo)
        invariant Swept(pool, before, handles, protect, done, todo, true) && EndedInTime(pool, before, bytes, target, SizeOf())
        decreases maxSteps - steps
      {
        steps := steps + 1;
        TotalOfNone(pool, order, SizeOf());
        if current.None? {
          break;
        }
        var slot := current.value;
        BackIsPrev(pool, order, k);
        var state := pool[slot].data;
        var next := StepBack(slot);
        ghost var was := pool;
        if IsHeld(handles, protect, slot, state) {
          PassFirst(was, pool, order, before, handles, protect, done, todo, k);
          done, todo, k := [slot] + done, todo[..|todo| - 1], Back(k, |order|);
          current := next;
        } else if state.visited {
          SameSize(stateBytes, arcBytes, state);
          Update(slot, state.(visited := false), 0);
          SameKeysInTime(pool, was, before, bytes, target);
          PassFirst(was, pool, order, before, handles, protect, done, todo, k);
          done, todo, k := [slot] + done, todo[..|todo| - 1], Back(k, |order|);
          current := next;
          hand := current;
          HandAt(pool, order, k, hand);
        } else {
          SweptAway(pool, order, before, handles, protect, done, todo, k, true);
          SweptSizes(pool, before, handles, protect, done, todo, true);
          ghost var held := bytes;
          k := Evict(slot, next, k, done, todo);
          FreedInTime(was, pool, before, bytes, held, target, slot);
          done, todo := if order == [] then [] else done, todo[..|todo| - 1];
          current := next;
          hand := current;
          HandAt(pool, order, k, hand);
        }
      }
      SweepKeeps(pool, before, handles, protect, done, todo, true);
      if bytes > target {
        TotalOfNone(pool, order, SizeOf());
        assert todo == [] && done + todo == done;
        SweepEnds(pool, order, before, handles, protect, done, k);
      }
    }

    /** The second sweep: evicts what was visited too. */
    method SweepAll(protect: Option<nat>, target: nat, maxSteps: nat)
      requires Valid() && |pool| <= maxSteps
      modifies this, index
      ensures Valid() && Steady(old(handles), old(nextBox), old(limit))
      ensures SameButVisited(pool, old(pool)) && HeldStay(pool, old(pool), handles, protect)
      ensures bytes <= target || OnlyHeldLeft(pool, handles, protect)
      ensures old(bytes) <= target ==> pool == old(pool)
      ensures EndedInTime(pool, old(pool), bytes, target, SizeOf()) && (pool.Keys == old(pool).Keys ==> bytes == old(bytes))
    {
      hide EndedInTime, Threaded, Total, Estimate, BoxesApart, Unlink, Rotated, IsHeld, Inverse, HandLives, Older, Swept, SameButVisited, HeldStay, OnlyHeldLeft, PrevOf, NextOf;
      var steps := 0;
      var current := if hand.Some? then hand else tail;
      ghost var before := pool;
      ghost var done: seq<nat> := [];
      ghost var k, todo := SweepStart(current);
      NothingSwept(pool, handles, protect, todo, false);
      NothingFreed(pool, pool, bytes, target);
      while bytes > target && steps < maxSteps
        invariant Valid() && Steady(old(handles), old(nextBox), old(limit))
        invariant steps <= maxSteps && (todo != [] ==> steps + |todo| <= maxSteps) && At(current, k, done, todo)
        invariant Swept(pool, before, handles, protect, done, todo, false)
        invariant old(bytes) <= target ==> pool == before && bytes == old(bytes)
        invariant EndedInTime(pool, before, bytes, target, SizeOf()) && (pool.Keys == before.Keys ==> bytes == old(bytes))
        decreases maxSteps - steps
      {
        steps := steps + 1;
        TotalOfNone(pool, order, SizeOf());
        if current.None? {
          break;
        }
        var slot := current.value;
        BackIsPrev(pool, order, k);
        var state := pool[slot].data;
        var next := StepBack(slot);
        if IsHeld(handles, protect, slot, state) {
          done, todo := PassOver(pool, order, before, handles, protect, done, todo, k);
          k := Back(k, |order|);
          current := next;
        } else {
          DoneIsHeld(pool, order, before, handles, protect, done, todo, k);
          SweptAway(pool, order, before, handles, protect, done, todo, k, false);
          SweptSizes(pool, before, handles, protect, done, todo, false);
          ghost var (was, held) := (pool, bytes);
          k := Evict(slot, next, k, done, todo);
          FreedInTime(was, pool, before, bytes, held, target, slot);
          done, todo := if order == [] then [] else done, todo[..|todo| - 1];
          current := next;
          hand := current;
          HandAt(pool, order, k, hand);
        }
      }
      SweepKeeps(pool, before, handles, protect, done, todo, false);
      if bytes > target {
        TotalOfNone(pool, order, SizeOf());
        assert todo == [] && done + todo == done;
        HeldLeft(pool, order, before, handles, protect, done, k);
      }
    }

    lemma NothingFreed(after: Pool, before: Pool, bytes: nat, target: int)
      requires after.Keys == before.Keys
      ensures EndedInTime(after, before, bytes, target, SizeOf())
    {}

    lemma SameKeysInTime(after: Pool, was: Pool, before: Pool, bytes: nat, target: nat)
      requires after.Keys == was.Keys && EndedInTime(was, before, bytes, target, SizeOf())
      ensures EndedInTime(after, before, bytes, target, SizeOf())
    {}

    lemma SweptSizes(pool: Pool, before: Pool, handles: multiset<nat>, protect: Option<nat>, done: seq<nat>, todo: seq<nat>, sparing: bool)
      requires Swept(pool, before, handles, protect, done, todo, sparing)
      ensures SameSizes(pool, before)
    {
      hide IsHeld;
    }

    ghost predicate SameSizes(pool: Pool, before: Pool) {
      forall slot | slot in pool ::
        slot in before && Estimate(stateBytes, arcBytes, pool[slot].data) == Estimate(stateBytes, arcBytes, before[slot].data)
    }

    // Freeing a slot while there is more than the target.
    lemma FreedInTime(was: Pool, after: Pool, before: Pool, bytes: nat, held: nat, target: nat, slot: nat)
      requires slot in was && after == Unlink(was, slot) && SameSizes(was, before)
      requires bytes + Estimate(stateBytes, arcBytes, was[slot].data) == held > target
      ensures EndedInTime(after, before, bytes, target, SizeOf()) && after.Keys != before.Keys
    {
      hide Estimate;
      assert slot in before && slot !in after && SizeOf()(before[slot].data) + bytes > target;
    }

    lemma InTimeTwice(first: Pool, second: Pool, third: Pool, between: nat, bytes: nat, target: nat)
      requires SameButVisited(second, first)
      requires EndedInTime(second, first, between, target, SizeOf()) && EndedInTime(third, second, bytes, target, SizeOf())
      requires third.Keys == second.Keys ==> bytes == between
      requires third.Keys <= second.Keys
      ensures EndedInTime(third, first, bytes, target, SizeOf())
    {
      if third.Keys != second.Keys {
        var slot :| slot in second && slot !in third && SizeOf()(second[slot].data) + bytes > target;
        assert slot in first && slot !in third && SizeOf()(first[slot].data) + bytes > target;
      }
    }

    lemma FewerKeys(after: Pool, before: Pool)
      requires SameButVisited(after, before)
      ensures after.Keys <= before.Keys
    {}

    /** The two sweeps, one after the other. */
    method SweepTwice(protect: Option<nat>, target: nat)
      requires Valid()
      modifies this, index
      ensures Valid() && Steady(old(handles), old(nextBox), old(limit))
      ensures SameButVisited(pool, old(pool)) && HeldStay(pool, old(pool), handles, protect)
      ensures VisitedStay(pool, old(pool)) || UnvisitedGone(pool, old(pool), handles, protect)
      ensures bytes <= target || OnlyHeldLeft(pool, handles, protect)
      ensures EndedInTime(pool, old(pool), bytes, target, SizeOf())
    {
      hide Threaded, Total, Estimate, BoxesApart, Inverse, HandLives, Older, Ends, IsHeld, HeldStay, VisitedStay, UnvisitedGone, SameButVisited, OnlyHeldLeft,
           EndedInTime;
      var maxSteps := |pool|;
      ghost var first := pool;
      SweepUnvisited(protect, target);
      ghost var (second, between) := (pool, bytes);
      FewerSlots(first, second);
      SweepAll(protect, target, maxSteps);
      SweepsCompose(first, second, pool, handles, protect);
      FewerKeys(pool, second);
      InTimeTwice(first, second, pool, between, bytes, target);
    }

    /** Collects garbage down to a share of the limit. Nothing held is ever freed,
        nothing unvisited outlives something visited that was freed, nothing is freed
        once the share is met, and if it could not be met then all that is left is held.
        With nothing pinned, protected or being computed it always is. The limit grows only
        when what is left does not fit. */
    method Gc(protect: Option<nat>)
      requires Valid()
      modifies this, index
      ensures Valid() && handles == old(handles) && nextBox == old(nextBox)
      ensures SameButVisited(pool, old(pool)) && HeldStay(pool, old(pool), handles, protect)
      ensures VisitedStay(pool, old(pool)) || UnvisitedGone(pool, old(pool), handles, protect)
      ensures !gc || old(bytes) <= old(limit) ==> pool == old(pool) && bytes == old(bytes) && limit == old(limit)
      ensures gc && old(bytes) > old(limit) ==> bytes <= (old(limit) as real * fraction).Floor || OnlyHeldLeft(pool, handles, protect)
      ensures EndedInTime(pool, old(pool), bytes, (old(limit) as real * fraction).Floor, SizeOf())
      ensures gc && old(bytes) > old(limit) && AtEase(old(pool), old(handles)) && protect == None ==> bytes <= (old(limit) as real * fraction).Floor
      ensures gc ==> bytes <= limit
      ensures limit == if gc then GrownLimit(old(limit), bytes) else old(limit)
    {
      hide Threaded, Total, Estimate, BoxesApart, Inverse, HandLives, Older, Ends, IsHeld, HeldStay, VisitedStay, UnvisitedGone, SameButVisited, OnlyHeldLeft,
           EndedInTime, Target, AtEase;
      SameAsItself(pool, handles, protect);
      TargetIsShare(limit);
      if !gc || bytes <= limit {
        NothingFreed(pool, pool, bytes, Target(limit));
        assert EndedInTime(pool, old(pool), bytes, Target(limit), SizeOf());
        return;
      }
      SweepTwice(protect, Target(limit));
      IdleIsEmptied(old(pool), protect);
      ghost var third := pool;
      ghost var size := bytes;
      while bytes > limit
        invariant Valid() && handles == old(handles) && nextBox == old(nextBox) && pool == third && bytes == size
        invariant GrownLimit(limit, bytes) == GrownLimit(old(limit), bytes)
        decreases SaturatingSub(bytes, limit)
      {
        limit := Max(2 * limit, 1024);
      }
    }

    /** What a collection aims for. */
    function Target(limit: nat): (target: nat)
      requires 0.0 <= fraction <= 1.0
      ensures target <= limit && target as real <= limit as real * fraction < target as real + 1.0
    {
      assert 0.0 <= limit as real * fraction <= limit as real;
      (limit as real * fraction).Floor
    }

    // What an idle store could not bring down to the share is nothing at all.
    lemma IdleIsEmptied(before: Pool, protect: Option<nat>)
      requires Valid() && SameButVisited(pool, before)
      ensures OnlyHeldLeft(pool, handles, protect) && AtEase(before, handles) && protect == None ==> bytes == 0
    {
      hide Threaded, Total, Estimate, BoxesApart, Inverse, HandLives, Older;
      if OnlyHeldLeft(pool, handles, protect) && AtEase(before, handles) && protect == None {
        assert pool == map[];
        if order != [] {
          KeyOf(pool, order, 0);
        }
        TotalOfNone(pool, order, SizeOf());
      }
    }

    lemma TargetIsShare(limit: nat)
      requires 0.0 <= fraction <= 1.0
      ensures Target(limit) == (limit as real * fraction).Floor
    {}

    /** A slot for a state: the one it has, or a new one after collecting. */
    method AllocateSlot(id: nat) returns (slot: nat)
      requires Valid()
      modifies this, index
      ensures Valid() && handles == old(handles) && nextBox == old(nextBox)
      ensures slot in pool && pool[slot].data.stateId == id
      ensures HeldStay(pool, old(pool), handles, None)
      ensures slot in old(pool) && old(pool)[slot].data.stateId == id ==> pool == old(pool)
      ensures !(slot in old(pool) && old(pool)[slot].data.stateId == id) ==> pool[slot].data == NewState(id)
      ensures slot in old(pool) && old(pool)[slot].data.stateId != id ==> !IsHeld(handles, None, slot, old(pool)[slot].data)
      ensures forall s | s in pool && s != slot ::
                s in old(pool) && pool[s].data == old(pool)[s].data.(visited := pool[s].data.visited)
    {
      hide Threaded, Total, Estimate, BoxesApart, HandLives, Older, Inverse, IsHeld, Push, Entry;
      var found := index.Get(id);
      InverseFinds(index.dense, index.sparse, pool, id);
      if found.Some? {
        return found.value;
      }
      ghost var before := pool;
      Gc(None);
      InverseMisses(index.dense, index.sparse, pool, id);
      SomeSlotIsFree(pool.Keys);
      slot :| slot !in pool.Keys;
      ghost var (kept, first) := (pool, order);
      PushHead(slot, NewState(id));
      PushedKeeps(kept, first, slot, NewState(id));
    }

    /** Forgets everything. */
    method Clear()
      requires Valid()
      modifies this, index
      ensures Valid() && pool == map[] && handles == old(handles) && nextBox == old(nextBox) && limit == gcLimit && bytes == 0
    {
      index.Clear();
      pool, order := map[], [];
      head, tail, hand := None, None, None;
      bytes, limit := 0, gcLimit;
    }
  }

  // -- One sweep ----------------------------------------------------------------------------

  /** Where a sweep stands: what is still to do is as it was, what it has done and left
      is held, or was visited and so spared, and what is gone was neither. */
  ghost predicate Swept(pool: Pool, before: Pool, handles: multiset<nat>, protect: Option<nat>, done: seq<nat>, todo: seq<nat>, sparing: bool) {
    && SameButVisited(pool, before)
    && (forall slot | slot in todo :: slot in pool && slot in before && pool[slot].data == before[slot].data)
    && (forall slot | slot in done :: slot in pool && slot in before && Spared(before, handles, protect, slot, sparing))
    && (forall slot | slot in before && slot !in pool :: !Spared(before, handles, protect, slot, sparing))
  }

  ghost predicate Spared(before: Pool, handles: multiset<nat>, protect: Option<nat>, slot: nat, sparing: bool)
    requires slot in before
  {
    IsHeld(handles, protect, slot, before[slot].data) || (sparing && before[slot].data.visited)
  }

  // -- What one change does to what a store keeps -----------------------------------------

  lemma EndsUnlinked(pool: Pool, order: seq<nat>, k: nat, head: Option<nat>, tail: Option<nat>)
    requires Threaded(pool, order) && k < |order| && Ends(order, head, tail) && order[k] in pool
    ensures var node := pool[order[k]];
            Ends(Without(order, k), if node.prev.Some? then head else node.next, if node.next.Some? then tail else node.prev)
  {
    KeyOf(pool, order, k);
    EndsAfter(pool, order, k);
  }

  lemma HandUnlinked(pool: Pool, order: seq<nat>, k: nat, head: Option<nat>, tail: Option<nat>, hand: Option<nat>)
    requires Threaded(pool, order) && k < |order| && HandLives(pool, order, hand) && order[k] in pool && Ends(order, head, tail)
    ensures var node := pool[order[k]];
            HandLives(Unlink(pool, order[k]), Without(order, k),
                      if hand != Some(order[k]) then hand else if node.prev.Some? then node.prev else if node.next.Some? then tail else node.prev)
  {
    hide Unlink;
    KeyOf(pool, order, k);
    EndsAfter(pool, order, k);
    UnlinkKeepsList(pool, order, k);
  }

  lemma UnlinkDone(pool: Pool, slot: nat)
    requires slot in pool
    requires pool[slot].prev.Some? ==> pool[slot].prev.value in pool
    requires pool[slot].next.Some? ==> pool[slot].next.value in pool
    ensures var (prev, next) := (pool[slot].prev, pool[slot].next);
            var mended := if prev.Some? then pool[prev.value := pool[prev.value].(next := next)] else pool;
            && (next.Some? ==> next.value in mended)
            && Unlink(pool, slot) == (if next.Some? then mended[next.value := mended[next.value].(prev := prev)] else mended) - {slot}
  {}

  lemma InverseUnlinked(dense: seq<Option<nat>>, sparse: map<nat, nat>, dense': seq<Option<nat>>, sparse': map<nat, nat>, pool: Pool, slot: nat)
    requires Inverse(dense, sparse, pool) && slot in pool
    requires forall id: nat :: Entry(dense', sparse', id) == if id == pool[slot].data.stateId then None else Entry(dense, sparse, id)
    requires (forall s :: s in Unlink(pool, slot) <==> s in pool && s != slot) && SameData(Unlink(pool, slot), pool)
    ensures Inverse(dense', sparse', Unlink(pool, slot))
  {
    hide Unlink, Entry;
    forall id: nat, at: nat ensures Entry(dense', sparse', id) == Some(at) <==> Indexed(Unlink(pool, slot), id, at) {
      assert Entry(dense, sparse, id) == Some(at) <==> Indexed(pool, id, at);
      assert Entry(dense, sparse, id) == Some(slot) <==> Indexed(pool, id, slot);
    }
  }

  lemma InversePushed(dense: seq<Option<nat>>, sparse: map<nat, nat>, dense': seq<Option<nat>>, sparse': map<nat, nat>,
                      pool: Pool, head: Option<nat>, slot: nat, state: State)
    requires Inverse(dense, sparse, pool) && slot !in pool && Entry(dense, sparse, state.stateId) == None
    requires forall id: nat :: Entry(dense', sparse', id) == if id == state.stateId then Some(slot) else Entry(dense, sparse, id)
    requires var after := Push(pool, head, slot, state);
             && after.Keys == pool.Keys + {slot} && after[slot].data == state
             && forall s | s in pool :: after[s].data == pool[s].data
    ensures Inverse(dense', sparse', Push(pool, head, slot, state))
  {
    hide Push, Entry;
    forall id: nat, at: nat ensures Entry(dense', sparse', id) == Some(at) <==> Indexed(Push(pool, head, slot, state), id, at) {
      assert Entry(dense, sparse, id) == Some(at) <==> Indexed(pool, id, at);
      assert at in Push(pool, head, slot, state) <==> at in pool || at == slot;
    }
  }

  lemma EndsPushed(pool: Pool, order: seq<nat>, head: Option<nat>, tail: Option<nat>, hand: Option<nat>, slot: nat, state: State)
    requires Threaded(pool, order) && Ends(order, head, tail) && HandLives(pool, order, hand) && slot !in pool
    ensures head == First(order) && (head.Some? ==> head.value in pool)
    ensures Ends([slot] + order, Some(slot), if head.Some? then tail else Some(slot))
    ensures HandLives(Push(pool, head, slot, state), [slot] + order, if head.Some? then hand else Some(slot))
  {
    HeadLives(pool, order);
    PushKeepsList(pool, order, slot, state);
  }

  lemma PushDone(pool: Pool, head: Option<nat>, slot: nat, state: State)
    requires head.Some? ==> head.value in pool
    ensures var added := pool[slot := Node(state, None, head)];
            Push(pool, head, slot, state) == if head.Some? then added[head.value := added[head.value].(prev := Some(slot))] else added
  {}

  lemma UpdateKeeps(pool: Pool, order: seq<nat>, dense: seq<Option<nat>>, sparse: map<nat, nat>, hand: Option<nat>,
                    handles: multiset<nat>, nextBox: nat, slot: nat, state: State)
    requires Inverse(dense, sparse, pool) && HandLives(pool, order, hand) && BoxesApart(pool, nextBox) && Older(handles, nextBox)
    requires slot in pool && state.stateId == pool[slot].data.stateId
    requires state.arcs.Some? && state.arcs != pool[slot].data.arcs ==> state.arcs.value.id == nextBox
    ensures var after := pool[slot := pool[slot].(data := state)];
            var next := nextBox + if state.arcs.Some? && state.arcs != pool[slot].data.arcs then 1 else 0;
            Inverse(dense, sparse, after) && HandLives(after, order, hand) && BoxesApart(after, next) && Older(handles, next)
  {
    hide Entry;
    var after := pool[slot := pool[slot].(data := state)];
    forall id: nat, at: nat ensures Entry(dense, sparse, id) == Some(at) <==> Indexed(after, id, at) {
      assert Entry(dense, sparse, id) == Some(at) <==> Indexed(pool, id, at);
    }
  }

  // -- What the list says about its slots -------------------------------------------------

  lemma AllMembers<D>(pool: map<nat, Node<D>>, order: seq<nat>)
    requires Threaded(pool, order)
    ensures forall slot :: slot in order <==> slot in pool
  {}

  lemma KeyOf<D>(pool: map<nat, Node<D>>, order: seq<nat>, k: nat)
    requires Threaded(pool, order) && k < |order|
    ensures order[k] in pool && pool[order[k]].prev == PrevOf(order, k) && pool[order[k]].next == NextOf(order, k)
    ensures pool[order[k]].prev.Some? ==> pool[order[k]].prev.value in pool && pool[order[k]].prev.value != order[k]
    ensures pool[order[k]].next.Some? ==> pool[order[k]].next.value in pool && pool[order[k]].next.value != order[k]
  {
    assert LinkedAt(pool, order, k);
    if k > 0 {
      assert order[k - 1] in pool;
    }
    if k + 1 < |order| {
      assert order[k + 1] in pool;
    }
  }

  lemma Place<D>(pool: map<nat, Node<D>>, order: seq<nat>, slot: nat) returns (k: nat)
    requires Threaded(pool, order) && slot in pool
    ensures k < |order| && order[k] == slot
  {
    k :| k < |order| && order[k] == slot;
  }

  // The ends of the list once its `k`-th is gone.
  lemma EndsAfter<D>(pool: map<nat, Node<D>>, order: seq<nat>, k: nat)
    requires Threaded(pool, order) && k < |order|
    ensures First(Without(order, k)) == if k == 0 then NextOf(order, k) else First(order)
    ensures Last(Without(order, k)) == if k + 1 == |order| then PrevOf(order, k) else Last(order)
    ensures Without(order, k) != [] ==> Last(Without(order, k)).Some? && Last(Without(order, k)).value in pool
                                        && Last(Without(order, k)).value != order[k]
  {
    var rest := Without(order, k);
    WithoutMembers(order, k);
    if rest != [] {
      assert rest[|rest| - 1] in rest;
    }
  }

  lemma HeadLives<D>(pool: map<nat, Node<D>>, order: seq<nat>)
    requires Threaded(pool, order)
    ensures First(order).Some? ==> First(order).value in pool
    ensures First(order).None? <==> order == []
  {
    if order != [] {
      assert order[0] in pool;
    }
  }

  lemma UpdateThreaded(pool: Pool, order: seq<nat>, slot: nat, state: State)
    requires Threaded(pool, order) && slot in pool
    ensures Threaded(pool[slot := pool[slot].(data := state)], order)
  {
    var after := pool[slot := pool[slot].(data := state)];
    forall k: nat | k < |order| ensures LinkedAt(after, order, k) {
      assert LinkedAt(pool, order, k);
    }
  }

  lemma LastOf(done: seq<nat>, todo: seq<nat>)
    requires todo != []
    ensures var w := done + todo;
            && w[|w| - 1] == todo[|todo| - 1]
            && [w[|w| - 1]] + w[..|w| - 1] == ([todo[|todo| - 1]] + done) + todo[..|todo| - 1]
  {}

  lemma CountSlots<D>(pool: map<nat, Node<D>>, order: seq<nat>)
    requires Threaded(pool, order)
    ensures |pool| == |order|
  {
    AllMembers(pool, order);
    CountDistinct(order, pool.Keys);
  }

  lemma {:induction false} CountDistinct(order: seq<nat>, members: set<nat>)
    requires Distinct(order) && forall slot :: slot in order <==> slot in members
    ensures |members| == |order|
  {
    if |order| == 0 {
      assert members == {};
    } else {
      var last := order[|order| - 1];
      var front := order[..|order| - 1];
      assert order == front + [last];
      CountDistinct(front, members - {last});
    }
  }

  lemma TotalOfNone<D>(pool: map<nat, Node<D>>, order: seq<nat>, size: D -> nat)
    ensures order == [] ==> Total(pool, order, size) == 0
  {}

  lemma BackIsPrev<D>(pool: map<nat, Node<D>>, order: seq<nat>, k: nat)
    requires Threaded(pool, order) && k < |order|
    ensures order[k] in pool
    ensures Some(order[Back(k, |order|)]) == if pool[order[k]].prev.Some? then pool[order[k]].prev else Last(order)
  {
    assert LinkedAt(pool, order, k);
  }

  lemma HandAt(pool: Pool, order: seq<nat>, k: nat, hand: Option<nat>)
    requires Threaded(pool, order) && (order != [] ==> k < |order| && hand == Some(order[k]))
    ensures HandLives(pool, order, hand)
  {}

  // What a sweep keeps, wherever it stops.
  lemma SweepKeeps(pool: Pool, before: Pool, handles: multiset<nat>, protect: Option<nat>, done: seq<nat>, todo: seq<nat>, sparing: bool)
    requires Swept(pool, before, handles, protect, done, todo, sparing)
    ensures SameButVisited(pool, before) && HeldStay(pool, before, handles, protect) && (sparing ==> VisitedStay(pool, before))
  {
    hide IsHeld;
  }

  // The slots of a rotation are the pool's, each once.
  lemma RotatedApart<D>(pool: map<nat, Node<D>>, order: seq<nat>, k: nat, done: seq<nat>, todo: seq<nat>)
    requires Threaded(pool, order) && k < |order| && Rotated(order, k) == done + todo && todo != []
    ensures forall slot :: slot in pool <==> slot in done || slot in todo
    ensures var slot := todo[|todo| - 1];
            slot == order[k] && slot !in done && slot !in todo[..|todo| - 1]
    ensures forall slot :: slot in todo <==> slot == order[k] || slot in todo[..|todo| - 1]
  {
    SameMembers(order, k);
    var w := Rotated(order, k);
    forall slot ensures slot in pool <==> slot in done || slot in todo {
      assert slot in w <==> slot in done || slot in todo;
    }
    var last := todo[|todo| - 1];
    assert w[|w| - 1] == last == order[k];
    forall i | 0 <= i < |w| - 1 ensures w[i] != last {
      assert w[i] == if i < |order| - k - 1 then order[k + 1 + i] else order[i - (|order| - k - 1)];
    }
    forall i | 0 <= i < |done| ensures done[i] != last {
      assert w[i] == done[i];
    }
    forall i | 0 <= i < |todo| - 1 ensures todo[i] != last {
      assert w[|done| + i] == todo[i];
    }
    assert todo == todo[..|todo| - 1] + [last];
  }

  lemma NothingSwept(pool: Pool, handles: multiset<nat>, protect: Option<nat>, todo: seq<nat>, sparing: bool)
    requires forall slot | slot in todo :: slot in pool
    ensures Swept(pool, pool, handles, protect, [], todo, sparing)
  {}

  // Leaving the slot the sweep stands on, whether held or only now cleared.
  lemma SweptOver(was: Pool, pool: Pool, before: Pool, handles: multiset<nat>, protect: Option<nat>, done: seq<nat>, todo: seq<nat>, slot: nat, sparing: bool)
    requires Swept(was, before, handles, protect, done, todo, sparing)
    requires todo != [] && slot == todo[|todo| - 1] && slot !in todo[..|todo| - 1] && slot in was
    requires IsHeld(handles, protect, slot, was[slot].data) || (sparing && was[slot].data.visited)
    requires pool == was || pool == was[slot := was[slot].(data := was[slot].data.(visited := false))]
    ensures Swept(pool, before, handles, protect, [slot] + done, todo[..|todo| - 1], sparing)
  {
    hide IsHeld;
    assert slot in todo;
    assert Spared(before, handles, protect, slot, sparing);
    hide Spared;
    forall s | s in todo[..|todo| - 1] ensures s in todo {}
    forall s | s in [slot] + done ensures s == slot || s in done {}
  }

  // One step of the first sweep past a slot it does not evict.
  lemma PassFirst(was: Pool, pool: Pool, order: seq<nat>, before: Pool, handles: multiset<nat>, protect: Option<nat>, done: seq<nat>, todo: seq<nat>, k: nat)
    requires Threaded(was, order) && k < |order| && Rotated(order, k) == done + todo && Swept(was, before, handles, protect, done, todo, true)
    requires todo != [] && order[k] in was && (IsHeld(handles, protect, order[k], was[order[k]].data) || was[order[k]].data.visited)
    requires pool == was || pool == was[order[k] := was[order[k]].(data := was[order[k]].data.(visited := false))]
    ensures Swept(pool, before, handles, protect, [order[k]] + done, todo[..|todo| - 1], true)
    ensures Rotated(order, Back(k, |order|)) == ([order[k]] + done) + todo[..|todo| - 1]
  {
    hide IsHeld, Threaded, Rotated, Swept;
    StepRotates(order, k);
    LastOf(done, todo);
    RotatedApart(was, order, k, done, todo);
    SweptOver(was, pool, before, handles, protect, done, todo, order[k], true);
  }

  // Freeing it.
  lemma SweptAway(pool: Pool, order: seq<nat>, before: Pool, handles: multiset<nat>, protect: Option<nat>, done: seq<nat>, todo: seq<nat>, k: nat, sparing: bool)
    requires Threaded(pool, order) && k < |order| && Rotated(order, k) == done + todo && Swept(pool, before, handles, protect, done, todo, sparing)
    requires order[k] in pool && todo != []
    requires !IsHeld(handles, protect, order[k], pool[order[k]].data) && !(sparing && pool[order[k]].data.visited)
    ensures Swept(Unlink(pool, order[k]), before, handles, protect, done, todo[..|todo| - 1], sparing)
    ensures Swept(Unlink(pool, order[k]), before, handles, protect, [], todo[..|todo| - 1], sparing)
  {
    RotatedApart(pool, order, k, done, todo);
    UnlinkKeepsList(pool, order, k);
    assert order[k] in todo;
    assert !Spared(before, handles, protect, order[k], sparing);
    hide IsHeld, Spared;
    SweptWithout(pool, Unlink(pool, order[k]), before, handles, protect, done, todo, order[k], sparing);
    SweptWithout(pool, Unlink(pool, order[k]), before, handles, protect, [], todo, order[k], sparing);
  }

  lemma SweptWithout(pool: Pool, after: Pool, before: Pool, handles: multiset<nat>, protect: Option<nat>, done: seq<nat>, todo: seq<nat>, slot: nat, sparing: bool)
    requires Swept(pool, before, handles, protect, done, todo, sparing) && todo != [] && slot in todo
    requires SameData(after, pool) && (forall s :: s in after <==> s in pool && s != slot)
    requires slot !in done && slot !in todo[..|todo| - 1] && slot in before && !Spared(before, handles, protect, slot, sparing)
    ensures Swept(after, before, handles, protect, done, todo[..|todo| - 1], sparing)
  {
    hide IsHeld, Spared;
    forall s | s in todo[..|todo| - 1] ensures s in todo {}
  }

  lemma SameSize(stateBytes: nat, arcBytes: nat, state: State)
    ensures forall visited: bool :: Estimate(stateBytes, arcBytes, state.(visited := visited)) == Estimate(stateBytes, arcBytes, state)
  {}

  // A sweep with nothing left to do has spared all that is left.
  lemma SweepEnds(pool: Pool, order: seq<nat>, before: Pool, handles: multiset<nat>, protect: Option<nat>, done: seq<nat>, k: nat)
    requires Threaded(pool, order) && order != [] && k < |order| && Rotated(order, k) == done && Swept(pool, before, handles, protect, done, [], true)
    ensures UnvisitedGone(pool, before, handles, protect)
  {
    SameMembers(order, k);
    AllMembers(pool, order);
  }

  // Passing a held slot, for the first time or once more.
  lemma PassOver(pool: Pool, order: seq<nat>, before: Pool, handles: multiset<nat>, protect: Option<nat>, done: seq<nat>, todo: seq<nat>, k: nat)
    returns (done': seq<nat>, todo': seq<nat>)
    requires Threaded(pool, order) && k < |order| && Rotated(order, k) == done + todo && Swept(pool, before, handles, protect, done, todo, false)
    requires order[k] in pool && IsHeld(handles, protect, order[k], pool[order[k]].data)
    ensures Swept(pool, before, handles, protect, done', todo', false) && Rotated(order, Back(k, |order|)) == done' + todo'
    ensures |todo'| == SaturatingSub(|todo|, 1)
  {
    hide IsHeld, Threaded, Rotated;
    StepRotates(order, k);
    if todo == [] {
      assert done + todo == done;
      done', todo' := [order[k]] + done[..|done| - 1], [];
      assert done' + todo' == done';
      forall slot | slot in done' ensures slot in done {}
    } else {
      LastOf(done, todo);
      RotatedApart(pool, order, k, done, todo);
      SweptOver(pool, pool, before, handles, protect, done, todo, order[k], false);
      done', todo' := [order[k]] + done, todo[..|todo| - 1];
    }
  }

  // A slot the second sweep has passed is held, so one that is not is still to do.
  lemma DoneIsHeld(pool: Pool, order: seq<nat>, before: Pool, handles: multiset<nat>, protect: Option<nat>, done: seq<nat>, todo: seq<nat>, k: nat)
    requires Swept(pool, before, handles, protect, done, todo, false) && k < |order| && Rotated(order, k) == done + todo
    requires order[k] in pool && !IsHeld(handles, protect, order[k], pool[order[k]].data)
    ensures todo != []
  {
    hide Rotated;
    StepRotates(order, k);
    var w := done + todo;
    assert order[k] == w[|w| - 1];
    assert order[k] !in done;
  }

  lemma HeldLeft(pool: Pool, order: seq<nat>, before: Pool, handles: multiset<nat>, protect: Option<nat>, done: seq<nat>, k: nat)
    requires Threaded(pool, order) && order != [] && k < |order| && Rotated(order, k) == done && Swept(pool, before, handles, protect, done, [], false)
    ensures OnlyHeldLeft(pool, handles, protect)
  {
    SameMembers(order, k);
    AllMembers(pool, order);
  }

  // -- Two sweeps ----------------------------------------------------------------------------

  function GrownLimit(limit: nat, bytes: nat): nat
    decreases SaturatingSub(bytes, limit)
  {
    if bytes <= limit then limit else GrownLimit(Max(2 * limit, 1024), bytes)
  }

  lemma SameAsItself(pool: Pool, handles: multiset<nat>, protect: Option<nat>)
    ensures SameButVisited(pool, pool) && HeldStay(pool, pool, handles, protect) && VisitedStay(pool, pool)
  {
    hide IsHeld;
  }

  lemma FewerSlots(before: Pool, after: Pool)
    requires SameButVisited(after, before)
    ensures |after| <= |before|
  {
    assert after.Keys <= before.Keys;
    FewerMembers(after.Keys, before.Keys);
  }

  lemma SweepsCompose(first: Pool, second: Pool, third: Pool, handles: multiset<nat>, protect: Option<nat>)
    requires SameButVisited(second, first) && SameButVisited(third, second)
    requires HeldStay(second, first, handles, protect) && HeldStay(third, second, handles, protect)
    ensures SameButVisited(third, first) && HeldStay(third, first, handles, protect)
    ensures UnvisitedGone(second, first, handles, protect) ==> UnvisitedGone(third, first, handles, protect)
    ensures third == second && VisitedStay(second, first) ==> VisitedStay(third, first)
  {}

  lemma SomeSlotIsFree(slots: set<nat>)
    ensures exists slot: nat :: slot !in slots
  {
    var top := Above(slots);
    assert top !in slots;
  }

  lemma {:induction false} Above(slots: set<nat>) returns (top: nat)
    ensures forall slot | slot in slots :: slot < top
  {
    if slots == {} {
      top := 0;
    } else {
      var one :| one in slots;
      var rest := Above(slots - {one});
      top := Max(rest, one + 1);
      forall slot | slot in slots ensures slot < top {
        if slot != one {
          assert slot in slots - {one};
        }
      }
    }
  }

  lemma InverseFinds(dense: seq<Option<nat>>, sparse: map<nat, nat>, pool: Pool, id: nat)
    requires Inverse(dense, sparse, pool)
    ensures Entry(dense, sparse, id).Some? ==> Indexed(pool, id, Entry(dense, sparse, id).value)
    ensures Entry(dense, sparse, id).None? ==> forall slot | slot in pool :: pool[slot].data.stateId != id
  {
    hide Entry;
    forall slot | slot in pool && pool[slot].data.stateId == id ensures Entry(dense, sparse, id) == Some(slot) {
      assert Indexed(pool, id, slot);
    }
  }

  lemma InverseMisses(dense: seq<Option<nat>>, sparse: map<nat, nat>, pool: Pool, id: nat)
    requires Inverse(dense, sparse, pool) && forall slot | slot in pool :: pool[slot].data.stateId != id
    ensures Entry(dense, sparse, id) == None
  {
    hide Entry;
    if Entry(dense, sparse, id).Some? {
      InverseFinds(dense, sparse, pool, id);
    }
  }

  lemma PushedKeeps(pool: Pool, order: seq<nat>, slot: nat, state: State)
    requires Threaded(pool, order) && slot !in pool
    ensures var after := Push(pool, First(order), slot, state);
            && after.Keys == pool.Keys + {slot} && after[slot].data == state
            && forall s | s in pool :: after[s].data == pool[s].data
  {
    PushKeepsList(pool, order, slot, state);
  }
}
