/** Queues that visit states by number: a window `front .. back` over the states'
    positions, with what is queued marked inside it. Whatever the sequence of calls,
    each is a set that gives up its least member. */
module OrderQueues {
  import opened Costs

  /** Visits states in order of their IDs. */
  class StateOrderQueue {
    var queued: set<nat>
    var front: nat
    var back: nat

    /** Everything queued is in the window, and the window starts at something. */
    ghost predicate Valid()
      reads this
    {
      && front <= back
      && (forall s | s in queued :: front <= s < back)
      && (front < back ==> front in queued)
    }

    constructor ()
      ensures Valid() && queued == {}
    {
      queued, front, back := {}, 0, 0;
    }

    method Head() returns (head: Option<nat>)
      requires Valid()
      ensures head.None? <==> queued == {}
      ensures head.Some? ==> head.value in queued && forall s | s in queued :: head.value <= s
    {
      head := if front < back then Some(front) else None;
    }

    method Enqueue(state: nat)
      requires Valid()
      modifies this
      ensures Valid() && queued == old(queued) + {state}
    {
      if front >= back {
        front, back := state, state + 1;
      } else {
        front, back := Min(front, state), Max(back, state + 1);
      }
      queued := queued + {state};
    }

    method Dequeue() returns (state: Option<nat>)
      requires Valid()
      modifies this
      ensures Valid()
      ensures state.None? <==> old(queued) == {}
      ensures state.None? ==> queued == {}
      ensures state.Some? ==> state.value in old(queued) && (forall s | s in old(queued) :: state.value <= s) && queued == old(queued) - {state.value}
    {
      state := Head();
      if state.None? {
        return;
      }
      queued := queued - {front};
      while front < back && front !in queued
        invariant front <= back && queued == old(queued) - {state.value}
        invariant forall s | s in queued :: front <= s < back
        decreases back - front
      {
        front := front + 1;
      }
    }

    method IsEmpty() returns (empty: bool)
      requires Valid()
      ensures empty <==> queued == {}
    {
      empty := front >= back;
    }

    method Clear()
      requires Valid()
      modifies this
      ensures Valid() && queued == {}
    {
      ghost var was := queued;
      for index := front to back
        invariant front == old(front) && back == old(back)
        invariant queued == set s | s in was && !(front <= s < index)
      {
        queued := queued - {index};
      }
      front, back := 0, 0;
    }
  }

  /** Visits states in a given order: `order[s]` is the position state `s` takes. */
  class TopOrderQueue {
    const order: seq<nat>
    var at: seq<Option<nat>>
    var front: nat
    var back: nat

    /** Each marked position holds a state that takes it, all of them in the window,
        and the window starts at one. */
    ghost predicate Valid()
      reads this
    {
      && |at| == |order| && back <= |at|
      && (forall s | 0 <= s < |order| :: order[s] < |order|)
      && (forall p | 0 <= p < |at| && at[p].Some? :: front <= p < back && at[p].value < |order| && order[at[p].value] == p)
      && (front < back ==> at[front].Some?)
    }

    /** The states queued. */
    ghost function Queued(): (r: set<nat>)
      requires Valid()
      reads this
    {
      set s: nat | s < |order| && at[order[s]] == Some(s)
    }

    constructor (order: seq<nat>)
      requires forall s | 0 <= s < |order| :: order[s] < |order|
      ensures Valid() && this.order == order && Queued() == {}
    {
      this.order, at, front, back := order, seq(|order|, _ => None), 0, 0;
    }

    method Head() returns (head: Option<nat>)
      requires Valid()
      ensures head.None? <==> Queued() == {}
      ensures head.Some? ==> head.value in Queued() && forall s | s in Queued() :: order[head.value] <= order[s]
    {
      if front < back {
        head := at[front];
        assert head.value in Queued();
      } else {
        head := None;
      }
    }

    /** Queues a state, in place of whatever had its position. */
    method Enqueue(state: nat)
      requires Valid() && state < |order|
      modifies this
      ensures Valid() && Queued() == After(order, old(Queued()), state)
    {
      var position := order[state];
      if front >= back {
        front, back := position, position + 1;
      } else {
        front, back := Min(front, position), Max(back, position + 1);
      }
      at := at[position := Some(state)];
    }

    method Dequeue() returns (state: Option<nat>)
      requires Valid()
      modifies this
      ensures Valid()
      ensures state.None? <==> old(Queued()) == {}
      ensures state.None? ==> Queued() == {}
      ensures state.Some? ==> state.value in old(Queued()) && forall s | s in old(Queued()) :: order[state.value] <= order[s]
      ensures state.Some? ==> Queued() == old(Queued()) - {state.value}
    {
      state := Head();
      if state.None? {
        return;
      }
      at := at[front := None];
      while front < back && at[front].None?
        invariant |at| == |order| && back == old(back) && at == old(at)[old(front) := None]
        invariant forall p | 0 <= p < |at| && at[p].Some? :: front <= p < back
        decreases back - front
      {
        front := front + 1;
      }
    }

    method Clear()
      requires Valid()
      modifies this
      ensures Valid() && Queued() == {}
    {
      var last := Min(back, |at|);
      var first := Min(front, last);
      ghost var was := at;
      for p := first to last
        invariant |at| == |order| && front == old(front) && back == old(back)
        invariant forall q | 0 <= q < |at| :: at[q] == if first <= q < p then None else was[q]
      {
        at := at[p := None];
      }
      front, back := 0, 0;
    }
  }

  ghost predicate Injective(order: seq<nat>) {
    forall s, t | 0 <= s < t < |order| :: order[s] != order[t]
  }

  /** What `Enqueue` leaves queued. */
  function After(order: seq<nat>, queued: set<nat>, state: nat): set<nat>
    requires state < |order| && forall s | s in queued :: s < |order|
  {
    (set s | s in queued && order[s] != order[state]) + {state}
  }

  /** Queueing a state keeps every other, for every queue, exactly when no two states
      share a position. */
  lemma NothingDisplacedIffInjective(order: seq<nat>)
    ensures Injective(order)
       <==> forall queued: set<nat>, state: nat | state < |order| && (forall s | s in queued :: s < |order|) ::
              After(order, queued, state) == queued + {state}
  {
    if Injective(order) {
      forall queued: set<nat>, state: nat | state < |order| && (forall s | s in queued :: s < |order|)
        ensures After(order, queued, state) == queued + {state}
      {
        forall s | s in queued && s != state ensures order[s] != order[state] {}
      }
    } else {
      var s: nat, t: nat :| s < t < |order| && order[s] == order[t];
      var one: set<nat> := {s};
      assert s !in After(order, one, t) && s in one + {t};
    }
  }
}
