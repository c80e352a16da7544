/** The meta-queue: a queue for each strongly connected component, and the discipline
    each component gets. A state queued is never lost, even through the queue of one
    slot that a component without a cycle is given. */
module SccQueues {
  import opened Costs
  import opened DecodingGraphs
  import opened Routes

  datatype QueueType = Trivial | Fifo | Lifo | ShortestFirst

  // -- One component's queue ------------------------------------------------------------

  /** The queue of a component. What sorts the lightest-first one is read from
      distances that change while it is used, so any of its members may be on top. */
  datatype Inner =
    | OneSlot(front: Option<nat>)
    | FirstIn(waiting: seq<nat>)
    | LastIn(stack: seq<nat>)
    | Lightest(heap: multiset<nat>)
  {
    function Contents(): multiset<nat> {
      match this
      case OneSlot(front) => if front.Some? then multiset{front.value} else multiset{}
      case FirstIn(waiting) => multiset(waiting)
      case LastIn(stack) => multiset(stack)
      case Lightest(heap) => heap
    }

    function Type(): QueueType {
      match this
      case OneSlot(_) => Trivial
      case FirstIn(_) => Fifo
      case LastIn(_) => Lifo
      case Lightest(_) => ShortestFirst
    }
  }

  method InnerEnqueue(q: Inner, state: nat) returns (after: Inner)
    ensures after.Type() == q.Type()
    ensures after.Contents() == if q.OneSlot? then multiset{state} else q.Contents() + multiset{state}
  {
    match q {
      case OneSlot(_) => after := OneSlot(Some(state));
      case FirstIn(waiting) => after := FirstIn(waiting + [state]);
      case LastIn(stack) => after := LastIn(stack + [state]);
      case Lightest(heap) => after := Lightest(heap + multiset{state});
    }
  }

  lemma FirstOfMany(s: seq<nat>)
    requires s != []
    ensures s[0] in multiset(s) && multiset(s[1..]) == multiset(s) - multiset{s[0]}
  {
    assert s == [s[0]] + s[1..];
  }

  lemma LastOfMany(s: seq<nat>)
    requires s != []
    ensures s[|s| - 1] in multiset(s) && multiset(s[..|s| - 1]) == multiset(s) - multiset{s[|s| - 1]}
  {
    assert s == s[..|s| - 1] + [s[|s| - 1]];
  }

  method InnerDequeue(q: Inner) returns (state: Option<nat>, after: Inner)
    ensures after.Type() == q.Type()
    ensures state.None? <==> q.Contents() == multiset{}
    ensures state.None? ==> after == q
    ensures state.Some? ==> state.value in q.Contents() && after.Contents() == q.Contents() - multiset{state.value}
    ensures q.FirstIn? && q.waiting != [] ==> state == Some(q.waiting[0]) && after == FirstIn(q.waiting[1..])
    ensures q.LastIn? && q.stack != [] ==> state == Some(q.stack[|q.stack| - 1]) && after == LastIn(q.stack[..|q.stack| - 1])
  {
    after, state := q, None;
    match q {
      case OneSlot(front) =>
        state, after := front, OneSlot(None);
        assert front == None ==> after == q;
      case FirstIn(waiting) =>
        if waiting != [] {
          FirstOfMany(waiting);
          state, after := Some(waiting[0]), FirstIn(waiting[1..]);
        }
      case LastIn(stack) =>
        if stack != [] {
          LastOfMany(stack);
          state, after := Some(stack[|stack| - 1]), LastIn(stack[..|stack| - 1]);
        }
      case Lightest(heap) =>
        if heap != multiset{} {
          var top :| top in heap;
          state, after := Some(top), Lightest(heap - multiset{top});
        }
    }
  }

  function Emptied(q: Inner): (r: Inner)
    ensures r.Type() == q.Type() && r.Contents() == multiset{}
  {
    match q
    case OneSlot(_) => OneSlot(None)
    case FirstIn(_) => FirstIn([])
    case LastIn(_) => LastIn([])
    case Lightest(_) => Lightest(multiset{})
  }

  // -- The meta-queue ---------------------------------------------------------------------

  /** Every state queued waits in its component's queue, inside the window. */
  ghost predicate Placed(scc: seq<nat>, queues: seq<Inner>, front: nat, back: nat) {
    && back <= |queues| && (forall s | 0 <= s < |scc| :: scc[s] < |queues|)
    && forall c | 0 <= c < |queues| :: PlacedIn(scc, queues[c], c, front, back)
  }

  ghost predicate PlacedIn(scc: seq<nat>, q: Inner, c: nat, front: nat, back: nat) {
    forall s | s in q.Contents() :: s < |scc| && scc[s] == c && front <= c < back
  }

  /** How many times a state is queued. */
  ghost function Queued(scc: seq<nat>, queues: seq<Inner>, s: nat): nat {
    if s < |scc| && scc[s] < |queues| then queues[scc[s]].Contents()[s] else 0
  }

  /** A one-slot queue serves a single state. */
  ghost predicate SlotsSuffice(scc: seq<nat>, queues: seq<Inner>) {
    forall s, t | 0 <= s < t < |scc| && scc[s] == scc[t] && scc[s] < |queues| :: !queues[scc[s]].OneSlot?
  }

  ghost predicate SameTypes(after: seq<Inner>, before: seq<Inner>) {
    |after| == |before| && forall c | 0 <= c < |after| :: after[c].Type() == before[c].Type()
  }

  ghost predicate AllEmpty(queues: seq<Inner>) {
    forall c | 0 <= c < |queues| :: queues[c].Contents() == multiset{}
  }

  class SccQueue {
    /** The component of each state, and each component's queue. */
    const scc: seq<nat>
    var queues: seq<Inner>
    var front: nat
    var back: nat

    ghost predicate Valid()
      reads this
    {
      Placed(scc, queues, front, back)
    }

    constructor (scc: seq<nat>, queues: seq<Inner>)
      requires (forall s | 0 <= s < |scc| :: scc[s] < |queues|) && AllEmpty(queues)
      ensures Valid() && this.scc == scc && this.queues == queues
    {
      this.scc, this.queues, front, back := scc, queues, 0, 0;
    }

    /** Advances past the components that have been drained. */
    method SkipEmpty() returns (component: Option<nat>)
      requires Valid()
      modifies this`front
      ensures Valid()
      ensures component.None? ==> AllEmpty(queues)
      ensures component.Some? ==> component.value < |queues| && queues[component.value].Contents() != multiset{}
                                  && component.value == front
    {
      hide Placed;
      WindowInRange(scc, queues, front, back);
      while front < back && queues[front].Contents() == multiset{}
        invariant Valid()
        decreases back - front
      {
        SkipOne(scc, queues, front, back);
        front := front + 1;
      }
      if front < back {
        return Some(front);
      }
      NothingWaits(scc, queues, front, back);
      return None;
    }

    method Enqueue(state: nat)
      requires Valid() && state < |scc|
      modifies this
      ensures Valid() && SameTypes(queues, old(queues)) && scc[state] < |queues|
      ensures Queued(scc, queues, state) == if queues[scc[state]].OneSlot? then 1 else Queued(scc, old(queues), state) + 1
      ensures SlotsSuffice(scc, old(queues)) ==> forall s: nat | s != state :: Queued(scc, queues, s) == Queued(scc, old(queues), s)
    {
      hide Placed, Queued, SlotsSuffice, SameTypes, Inner.Contents;
      WindowInRange(scc, queues, front, back);
      var component := scc[state];
      ghost var was := queues;
      var grown := InnerEnqueue(queues[component], state);
      Joined(scc, was, front, back, state, grown);
      if front >= back {
        front, back := component, component + 1;
      } else {
        front, back := Min(front, component), Max(back, component + 1);
      }
      queues := queues[component := grown];
    }

    /** Gives up a state of the least component that holds one. */
    method Dequeue() returns (state: Option<nat>)
      requires Valid()
      modifies this
      ensures Valid() && SameTypes(queues, old(queues))
      ensures state.None? <==> forall s: nat :: Queued(scc, old(queues), s) == 0
      ensures state.None? ==> queues == old(queues)
      ensures state.Some? ==> state.value < |scc| && Queued(scc, old(queues), state.value) > 0
      ensures state.Some? ==> forall s: nat | Queued(scc, old(queues), s) > 0 :: s < |scc| && scc[state.value] <= scc[s]
      ensures state.Some? ==> forall s: nat :: Queued(scc, queues, s) == Queued(scc, old(queues), s) - if s == state.value then 1 else 0
    {
      hide Placed, Queued;
      var component := SkipEmpty();
      if component.None? {
        EmptyIsNone(scc, queues);
        return None;
      }
      var after;
      state, after := InnerDequeue(queues[component.value]);
      Left(scc, queues, front, back, state.value, after);
      queues := queues[component.value := after];
    }

    method IsEmpty() returns (empty: bool)
      requires Valid()
      modifies this`front
      ensures Valid() && (empty <==> forall s: nat :: Queued(scc, queues, s) == 0)
    {
      var component := SkipEmpty();
      empty := component.None?;
      if empty {
        EmptyIsNone(scc, queues);
      } else {
        var s :| s in queues[component.value].Contents();
        assert PlacedIn(scc, queues[component.value], component.value, front, back);
        assert Queued(scc, queues, s) > 0;
      }
    }

    method Clear()
      requires Valid()
      modifies this
      ensures Valid() && SameTypes(queues, old(queues)) && AllEmpty(queues)
    {
      hide Placed;
      ghost var was := queues;
      WindowInRange(scc, queues, front, back);
      for c := Min(front, back) to back
        invariant |queues| == |was| && front == old(front) && back == old(back)
        invariant forall k | 0 <= k < |queues| :: queues[k] == if Min(front, back) <= k < c then Emptied(was[k]) else was[k]
      {
        queues := queues[c := Emptied(queues[c])];
      }
      OutsideIsEmpty(scc, was, front, back);
      Restart(scc, was, queues, front, back);
      front, back := 0, 0;
    }
  }

  lemma WindowInRange(scc: seq<nat>, queues: seq<Inner>, front: nat, back: nat)
    requires Placed(scc, queues, front, back)
    ensures back <= |queues| && forall s | 0 <= s < |scc| :: scc[s] < |queues|
  {}

  lemma SkipOne(scc: seq<nat>, queues: seq<Inner>, front: nat, back: nat)
    requires Placed(scc, queues, front, back) && front < back && front < |queues| && queues[front].Contents() == multiset{}
    ensures Placed(scc, queues, front + 1, back)
  {
    forall c | 0 <= c < |queues| ensures PlacedIn(scc, queues[c], c, front + 1, back) {
      assert PlacedIn(scc, queues[c], c, front, back);
    }
  }

  lemma NothingWaits(scc: seq<nat>, queues: seq<Inner>, front: nat, back: nat)
    requires Placed(scc, queues, front, back) && front >= back
    ensures AllEmpty(queues)
  {
    forall c: nat | c < |queues| ensures queues[c].Contents() == multiset{} {
      assert PlacedIn(scc, queues[c], c, front, back);
    }
  }

  lemma OutsideIsEmpty(scc: seq<nat>, queues: seq<Inner>, front: nat, back: nat)
    requires Placed(scc, queues, front, back)
    ensures forall c: nat | c < |queues| && !(front <= c < back) :: queues[c].Contents() == multiset{}
  {
    forall c: nat | c < |queues| && !(front <= c < back) ensures queues[c].Contents() == multiset{} {
      assert PlacedIn(scc, queues[c], c, front, back);
    }
  }

  lemma Restart(scc: seq<nat>, was: seq<Inner>, queues: seq<Inner>, front: nat, back: nat)
    requires Placed(scc, was, front, back) && |queues| == |was|
    requires forall c: nat | c < |queues| && !(front <= c < back) :: was[c].Contents() == multiset{}
    requires forall k | 0 <= k < |queues| :: queues[k] == if Min(front, back) <= k < back then Emptied(was[k]) else was[k]
    ensures Placed(scc, queues, 0, 0) && AllEmpty(queues) && SameTypes(queues, was)
  {
    forall c: nat | c < |queues| ensures queues[c].Contents() == multiset{} {}
  }

  lemma EmptyIsNone(scc: seq<nat>, queues: seq<Inner>)
    requires AllEmpty(queues)
    ensures forall s: nat :: Queued(scc, queues, s) == 0
  {}

  // A state joins its component's queue.
  lemma Joined(scc: seq<nat>, queues: seq<Inner>, front: nat, back: nat, state: nat, grown: Inner)
    requires Placed(scc, queues, front, back) && state < |scc| && scc[state] < |queues|
    requires var q := queues[scc[state]];
             grown.Type() == q.Type() && grown.Contents() == if q.OneSlot? then multiset{state} else q.Contents() + multiset{state}
    ensures var (c, after) := (scc[state], queues[scc[state] := grown]);
            && Placed(scc, after, if front >= back then c else Min(front, c), if front >= back then c + 1 else Max(back, c + 1))
            && SameTypes(after, queues)
            && Queued(scc, after, state) == (if queues[c].OneSlot? then 1 else Queued(scc, queues, state) + 1)
            && (grown.OneSlot? <==> queues[c].OneSlot?)
            && (SlotsSuffice(scc, queues) ==> forall s: nat | s != state :: Queued(scc, after, s) == Queued(scc, queues, s))
  {
    hide Placed, PlacedIn, Inner.Contents, Inner.Type, Queued, SlotsSuffice;
    JoinedContents(queues[scc[state]], grown, state);
    JoinedPlaced(scc, queues, front, back, state, grown);
    JoinedCounts(scc, queues, state, grown);
  }

  lemma JoinedPlaced(scc: seq<nat>, queues: seq<Inner>, front: nat, back: nat, state: nat, grown: Inner)
    requires Placed(scc, queues, front, back) && state < |scc| && scc[state] < |queues|
    requires var q := queues[scc[state]];
             grown.Contents() == if q.OneSlot? then multiset{state} else q.Contents() + multiset{state}
    ensures var (c, after) := (scc[state], queues[scc[state] := grown]);
            Placed(scc, after, if front >= back then c else Min(front, c), if front >= back then c + 1 else Max(back, c + 1))
  {
    var c := scc[state];
    var q := queues[c];
    assert PlacedIn(scc, q, c, front, back);
    forall s | s in grown.Contents() ensures s < |scc| && scc[s] == c {
      if s != state {
        assert s in q.Contents();
      }
    }
    hide PlacedIn, Inner.Contents;
    WindowInRange(scc, queues, front, back);
    PlacedAfter(scc, queues, front, back, c, grown, if front >= back then c else Min(front, c), if front >= back then c + 1 else Max(back, c + 1));
  }

  lemma JoinedCounts(scc: seq<nat>, queues: seq<Inner>, state: nat, grown: Inner)
    requires state < |scc| && scc[state] < |queues|
    requires var q := queues[scc[state]];
             && grown.Contents()[state] == (if q.OneSlot? then 1 else q.Contents()[state] + 1)
             && (!q.OneSlot? ==> forall s: nat | s != state :: grown.Contents()[s] == q.Contents()[s])
    ensures var after := queues[scc[state] := grown];
            && Queued(scc, after, state) == (if queues[scc[state]].OneSlot? then 1 else Queued(scc, queues, state) + 1)
            && (SlotsSuffice(scc, queues) ==> forall s: nat | s != state :: Queued(scc, after, s) == Queued(scc, queues, s))
  {
    hide Inner.Contents;
    var (c, after) := (scc[state], queues[scc[state] := grown]);
    if SlotsSuffice(scc, queues) {
      forall s: nat | s != state ensures Queued(scc, after, s) == Queued(scc, queues, s) {
        if s < |scc| && scc[s] == c {
          var (x, y) := (Min(s, state), Max(s, state));
          assert scc[x] == scc[y] && x < y;
        }
      }
    }
  }

  lemma JoinedContents(q: Inner, grown: Inner, state: nat)
    requires grown.Type() == q.Type() && grown.Contents() == if q.OneSlot? then multiset{state} else q.Contents() + multiset{state}
    ensures grown.OneSlot? <==> q.OneSlot?
    ensures grown.Contents()[state] == if q.OneSlot? then 1 else q.Contents()[state] + 1
    ensures !q.OneSlot? ==> forall s: nat | s != state :: grown.Contents()[s] == q.Contents()[s]
  {}

  lemma PlacedAfter(scc: seq<nat>, queues: seq<Inner>, front: nat, back: nat, c: nat, after: Inner, first: nat, last: nat)
    requires Placed(scc, queues, front, back) && c < |queues|
    requires forall s | s in after.Contents() :: s < |scc| && scc[s] == c
    requires last <= |queues| && first <= c < last && (front < back ==> first <= front && back <= last)
    ensures Placed(scc, queues[c := after], first, last)
  {
    var all := queues[c := after];
    forall k | 0 <= k < |all| ensures PlacedIn(scc, all[k], k, first, last) {
      assert PlacedIn(scc, queues[k], k, front, back);
    }
  }

  // And leaves it.
  lemma Left(scc: seq<nat>, queues: seq<Inner>, front: nat, back: nat, state: nat, after: Inner)
    requires Placed(scc, queues, front, back) && front < |queues| && state in queues[front].Contents()
    requires after.Type() == queues[front].Type() && after.Contents() == queues[front].Contents() - multiset{state}
    ensures Placed(scc, queues[front := after], front, back) && SameTypes(queues[front := after], queues)
    ensures state < |scc| && scc[state] == front && Queued(scc, queues, state) > 0
    ensures forall s: nat | Queued(scc, queues, s) > 0 :: s < |scc| && front <= scc[s]
    ensures forall s: nat :: Queued(scc, queues[front := after], s) == Queued(scc, queues, s) - if s == state then 1 else 0
  {
    assert PlacedIn(scc, queues[front], front, front, back);
    var all := queues[front := after];
    forall k | 0 <= k < |all| ensures PlacedIn(scc, all[k], k, front, back) {
      assert PlacedIn(scc, queues[k], k, front, back);
    }
    forall s: nat | Queued(scc, queues, s) > 0 ensures s < |scc| && front <= scc[s] {
      assert PlacedIn(scc, queues[scc[s]], scc[s], front, back);
      assert s in queues[scc[s]].Contents();
    }
  }

  // -- The discipline of each component -------------------------------------------------------

  /** What the disciplines depend on: an order on weights if there is one, and whether
      the semiring is idempotent. */
  datatype WeightOrder = WeightOrder(less: Option<(Cost, Cost) -> bool>, idempotent: bool)

  predicate IsPlain(w: WeightOrder, weight: Cost) {
    w.idempotent && (weight == Infinite || weight == ZERO)
  }

  predicate ForcesFifo(w: WeightOrder, weight: Cost) {
    w.less.None? || w.less.value(weight, ZERO)
  }

  /** Arc `k` of state `s` stays inside component `c`. */
  predicate Internal(g: Graph, scc: seq<nat>, c: nat, s: nat, k: nat) {
    && s < |g.arcs| && s < |scc| && k < |g.arcs[s]| && scc[s] == c
    && g.arcs[s][k].nextstate < |scc| && scc[g.arcs[s][k].nextstate] == c
  }

  /** The arcs before arc `n` of state `i`. */
  predicate Seen(i: nat, n: nat, s: nat, k: nat) {
    s < i || (s == i && k < n)
  }

  /** The discipline fits the internal arcs seen. */
  ghost predicate FitsArcs(g: Graph, scc: seq<nat>, w: WeightOrder, c: nat, ty: QueueType, i: nat, n: nat) {
    match ty
    case Trivial => forall s: nat, k: nat :: Seen(i, n, s, k) ==> !Internal(g, scc, c, s, k)
    case Fifo => exists s: nat, k: nat :: Seen(i, n, s, k) && Internal(g, scc, c, s, k) && ForcesFifo(w, g.arcs[s][k].weight)
    case Lifo =>
      && (exists s: nat, k: nat :: Seen(i, n, s, k) && Internal(g, scc, c, s, k))
      && (forall s: nat, k: nat :: Seen(i, n, s, k) && Internal(g, scc, c, s, k) ==>
            !ForcesFifo(w, g.arcs[s][k].weight) && IsPlain(w, g.arcs[s][k].weight))
    case ShortestFirst =>
      && (exists s: nat, k: nat :: Seen(i, n, s, k) && Internal(g, scc, c, s, k) && !IsPlain(w, g.arcs[s][k].weight))
      && (forall s: nat, k: nat :: Seen(i, n, s, k) && Internal(g, scc, c, s, k) ==> !ForcesFifo(w, g.arcs[s][k].weight))
  }

  datatype SccAnalysis = SccAnalysis(queueTypes: seq<QueueType>, allTrivial: bool, unweighted: bool)

  ghost predicate AllPlain(g: Graph, scc: seq<nat>, w: WeightOrder, i: nat, n: nat) {
    w.idempotent && forall s: nat, k: nat ::
      Seen(i, n, s, k) && s < |g.arcs| && s < |scc| && k < |g.arcs[s]| ==> IsPlain(w, g.arcs[s][k].weight)
  }

  function NextType(w: WeightOrder, ty: QueueType, weight: Cost): QueueType {
    if w.less.None? then Fifo
    else if w.less.value(weight, ZERO) then Fifo
    else if ty == Trivial || ty == Lifo then (if w.idempotent && (weight == Infinite || weight == ZERO) then Lifo else ShortestFirst)
    else ty
  }

  lemma Plainly(w: WeightOrder, weight: Cost)
    ensures IsPlain(w, weight) <==> w.idempotent && (weight == Infinite || weight == ZERO)
    ensures ForcesFifo(w, weight) <==> w.less.None? || w.less.value(weight, ZERO)
  {}

  lemma OneArcMore(g: Graph, scc: seq<nat>, w: WeightOrder, c: nat, ty: QueueType, i: nat, n: nat)
    requires i < |g.arcs| && i < |scc| && n < |g.arcs[i]| && FitsArcs(g, scc, w, c, ty, i, n)
    ensures FitsArcs(g, scc, w, c, if Internal(g, scc, c, i, n) then NextType(w, ty, g.arcs[i][n].weight) else ty, i, n + 1)
  {
    hide ForcesFifo, IsPlain, Internal;
    Plainly(w, g.arcs[i][n].weight);
    forall s: nat, k: nat | Seen(i, n + 1, s, k) ensures Seen(i, n, s, k) || (s == i && k == n) {}
    forall s: nat, k: nat | Seen(i, n, s, k) ensures Seen(i, n + 1, s, k) {}
    assert Seen(i, n + 1, i, n);
  }

  lemma NextState(g: Graph, scc: seq<nat>, w: WeightOrder, c: nat, ty: QueueType, i: nat)
    requires i < |g.arcs| && (i < |scc| ==> FitsArcs(g, scc, w, c, ty, i, |g.arcs[i]|))
    requires i >= |scc| ==> FitsArcs(g, scc, w, c, ty, i, 0)
    ensures FitsArcs(g, scc, w, c, ty, i + 1, 0)
  {
    hide ForcesFifo, IsPlain;
    var n := if i < |scc| then |g.arcs[i]| else 0;
    forall s: nat, k: nat | Seen(i + 1, 0, s, k) && Internal(g, scc, c, s, k) ensures Seen(i, n, s, k) {}
    forall s: nat, k: nat | Seen(i, n, s, k) ensures Seen(i + 1, 0, s, k) || s == i {}
    forall s: nat, k: nat | Seen(i, n, s, k) ensures Seen(i + 1, 0, s, k) {}
  }

  /** Decides each component's discipline from the arcs that stay inside it. */
  method SccQueueTypes(g: Graph, scc: seq<nat>, nscc: nat, w: WeightOrder) returns (r: SccAnalysis)
    requires forall s | 0 <= s < |scc| :: scc[s] < nscc
    ensures |r.queueTypes| == nscc
    ensures forall c | 0 <= c < nscc :: FitsArcs(g, scc, w, c, r.queueTypes[c], |g.arcs|, 0)
    ensures r.allTrivial <==> forall c | 0 <= c < nscc :: r.queueTypes[c] == Trivial
    ensures r.unweighted <==> AllPlain(g, scc, w, |g.arcs|, 0)
  {
    hide ForcesFifo, IsPlain, Internal, FitsArcs;
    var types := seq(nscc, _ => Trivial);
    var allTrivial := true;
    var unweighted := w.idempotent;
    forall c: nat | c < nscc ensures FitsArcs(g, scc, w, c, types[c], 0, 0) {
      NothingSeen(g, scc, w, c);
    }
    for i := 0 to |g.arcs|
      invariant |types| == nscc
      invariant forall c | 0 <= c < nscc :: FitsArcs(g, scc, w, c, types[c], i, 0)
      invariant allTrivial <==> forall c | 0 <= c < nscc :: types[c] == Trivial
      invariant unweighted <==> AllPlain(g, scc, w, i, 0)
    {
      if i < |scc| {
        var from := scc[i];
        for n := 0 to |g.arcs[i]|
          invariant |types| == nscc
          invariant forall c | 0 <= c < nscc :: FitsArcs(g, scc, w, c, types[c], i, n)
          invariant allTrivial <==> forall c | 0 <= c < nscc :: types[c] == Trivial
          invariant unweighted <==> AllPlain(g, scc, w, i, n)
        {
          var arc := g.arcs[i][n];
          forall c: nat | c < nscc
            ensures FitsArcs(g, scc, w, c, if Internal(g, scc, c, i, n) then NextType(w, types[c], arc.weight) else types[c], i, n + 1)
          {
            OneArcMore(g, scc, w, c, types[c], i, n);
          }
          WhichComponent(g, scc, i, n);
          PlainMore(g, scc, w, i, n);
          if arc.nextstate < |scc| && scc[arc.nextstate] == from {
            var ty := NextType(w, types[from], arc.weight);
            types := types[from := ty];
            assert types[from] == ty && ty != Trivial;
            if ty != Trivial {
              allTrivial := false;
            }
          }
          Plainly(w, arc.weight);
          if !(w.idempotent && (arc.weight == Infinite || arc.weight == ZERO)) {
            unweighted := false;
          }
        }
      }
      forall c: nat | c < nscc ensures FitsArcs(g, scc, w, c, types[c], i + 1, 0) {
        NextState(g, scc, w, c, types[c], i);
      }
      PlainNext(g, scc, w, i);
    }
    r := SccAnalysis(types, allTrivial, unweighted);
  }

  lemma NothingSeen(g: Graph, scc: seq<nat>, w: WeightOrder, c: nat)
    ensures FitsArcs(g, scc, w, c, Trivial, 0, 0)
  {}

  lemma WhichComponent(g: Graph, scc: seq<nat>, i: nat, n: nat)
    requires i < |g.arcs| && i < |scc| && n < |g.arcs[i]|
    ensures var to := g.arcs[i][n].nextstate;
            forall c: nat :: Internal(g, scc, c, i, n) <==> c == scc[i] && to < |scc| && scc[to] == scc[i]
  {}

  lemma PlainMore(g: Graph, scc: seq<nat>, w: WeightOrder, i: nat, n: nat)
    requires i < |g.arcs| && i < |scc| && n < |g.arcs[i]|
    ensures AllPlain(g, scc, w, i, n + 1) <==> AllPlain(g, scc, w, i, n) && IsPlain(w, g.arcs[i][n].weight)
  {
    hide IsPlain;
    assert Seen(i, n + 1, i, n);
    forall s: nat, k: nat | Seen(i, n + 1, s, k) ensures Seen(i, n, s, k) || (s == i && k == n) {}
    forall s: nat, k: nat | Seen(i, n, s, k) ensures Seen(i, n + 1, s, k) {}
  }

  lemma PlainNext(g: Graph, scc: seq<nat>, w: WeightOrder, i: nat)
    requires i < |g.arcs|
    ensures AllPlain(g, scc, w, i + 1, 0) <==> AllPlain(g, scc, w, i, if i < |scc| then |g.arcs[i]| else 0)
  {
    hide IsPlain;
    var n := if i < |scc| then |g.arcs[i]| else 0;
    forall s: nat, k: nat | Seen(i, n, s, k) ensures Seen(i + 1, 0, s, k) {}
    forall s: nat, k: nat | Seen(i + 1, 0, s, k) && s < |scc| && s < |g.arcs| && k < |g.arcs[s]| ensures Seen(i, n, s, k) {}
  }

  // -- Why one slot is enough -------------------------------------------------------------------

  /** The numbering puts two states together exactly when each reaches the other. */
  ghost predicate TrueNumbering(g: Graph, scc: seq<nat>) {
    |scc| == |g.arcs| && forall s: nat, t: nat | s < |scc| && t < |scc| ::
      scc[s] == scc[t] <==> Reaches(g, s, t) && Reaches(g, t, s)
  }

  /** A component given one slot has one state. */
  lemma OneSlotIsEnough(g: Graph, scc: seq<nat>, w: WeightOrder, c: nat, s: nat, t: nat)
    requires g.Valid() && TrueNumbering(g, scc) && FitsArcs(g, scc, w, c, Trivial, |g.arcs|, 0)
    requires s < |scc| && t < |scc| && scc[s] == scc[t] == c
    ensures s == t
  {
    if s != t {
      var path :| Route(g, path, s, t);
      assert HasArc(g, path[0], path[1]);
      var k: nat :| k < |g.arcs[s]| && g.arcs[s][k].nextstate == path[1];
      var u := path[1];
      assert Route(g, [s, u], s, u);
      assert Route(g, path[1..], u, t) by {
        forall i | 0 <= i < |path[1..]| - 1 ensures HasArc(g, path[1..][i], path[1..][i + 1]) {
          assert HasArc(g, path[i + 1], path[i + 2]);
        }
      }
      ReachesOn(g, u, t, s);
      assert scc[u] == scc[s];
      assert Seen(|g.arcs|, 0, s, k) && Internal(g, scc, c, s, k);
    }
  }

  /** With the components' true numbering and the disciplines chosen for them, the
      meta-queue's slots suffice: nothing queued is ever displaced. */
  lemma ChosenSlotsSuffice(g: Graph, scc: seq<nat>, w: WeightOrder, types: seq<QueueType>, queues: seq<Inner>)
    requires g.Valid() && TrueNumbering(g, scc) && |types| == |queues|
    requires forall c | 0 <= c < |types| :: FitsArcs(g, scc, w, c, types[c], |g.arcs|, 0) && queues[c].Type() == types[c]
    ensures SlotsSuffice(scc, queues)
  {
    hide FitsArcs;
    forall s, t | 0 <= s < t < |scc| && scc[s] == scc[t] && scc[s] < |queues| ensures !queues[scc[s]].OneSlot? {
      if queues[scc[s]].OneSlot? {
        OneSlotIsEnough(g, scc, w, scc[s], s, t);
      }
    }
  }
}
