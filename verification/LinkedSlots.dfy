/** A doubly linked list threaded through the slots of a slab: what it means for the
    links to read as one sequence, and that unlinking and pushing keep it so. */
module LinkedSlots {
  import opened Costs

  /** A slot's contents, and its neighbours in the list. */
  datatype Node<D> = Node(data: D, prev: Option<nat>, next: Option<nat>)

  ghost predicate Distinct(order: seq<nat>) {
    forall i, j | 0 <= i < j < |order| :: order[i] != order[j]
  }

  function PrevOf(order: seq<nat>, k: nat): Option<nat>
    requires k < |order|
  {
    if k == 0 then None else Some(order[k - 1])
  }

  function NextOf(order: seq<nat>, k: nat): Option<nat>
    requires k < |order|
  {
    if k + 1 == |order| then None else Some(order[k + 1])
  }

  /** The slots, read from the head by their `next` links and from the tail by their
      `prev` links, are `order`, and there are no others. */
  ghost predicate Threaded<D>(pool: map<nat, Node<D>>, order: seq<nat>) {
    && Distinct(order)
    && (forall slot :: slot in pool <==> slot in order)
    && forall k: nat | k < |order| :: LinkedAt(pool, order, k)
  }

  ghost predicate LinkedAt<D>(pool: map<nat, Node<D>>, order: seq<nat>, k: nat)
    requires k < |order|
  {
    order[k] in pool && pool[order[k]].prev == PrevOf(order, k) && pool[order[k]].next == NextOf(order, k)
  }

  function First(order: seq<nat>): Option<nat> {
    if |order| == 0 then None else Some(order[0])
  }

  function Last(order: seq<nat>): Option<nat> {
    if |order| == 0 then None else Some(order[|order| - 1])
  }

  function Without(order: seq<nat>, k: nat): seq<nat>
    requires k < |order|
  {
    order[..k] + order[k + 1..]
  }

  /** Only the slots' links differ. */
  ghost predicate SameData<D>(after: map<nat, Node<D>>, before: map<nat, Node<D>>) {
    forall slot | slot in after :: slot in before && after[slot].data == before[slot].data
  }

  /** The slots once the `k`-th of the list is unlinked and freed. */
  function Unlink<D>(pool: map<nat, Node<D>>, slot: nat): map<nat, Node<D>>
    requires slot in pool
  {
    var (prev, next) := (pool[slot].prev, pool[slot].next);
    var mended := if prev.Some? && prev.value in pool then pool[prev.value := pool[prev.value].(next := next)] else pool;
    var both := if next.Some? && next.value in mended then mended[next.value := mended[next.value].(prev := prev)] else mended;
    both - {slot}
  }

  // What unlinking does to one slot that stays.
  lemma UnlinkAt<D>(pool: map<nat, Node<D>>, slot: nat, s: nat)
    requires slot in pool && s in pool && s != slot && pool[slot].prev != Some(slot) && pool[slot].next != Some(slot)
    requires pool[slot].prev.Some? && pool[slot].next.Some? ==> pool[slot].prev != pool[slot].next
    ensures s in Unlink(pool, slot)
    ensures Unlink(pool, slot)[s]
         == Node(pool[s].data,
                 if pool[slot].next == Some(s) then pool[slot].prev else pool[s].prev,
                 if pool[slot].prev == Some(s) then pool[slot].next else pool[s].next)
  {}

  lemma UnlinkSlots<D>(pool: map<nat, Node<D>>, slot: nat)
    requires slot in pool
    ensures forall s :: s in Unlink(pool, slot) <==> s in pool && s != slot
  {}

  lemma WithoutMembers(order: seq<nat>, k: nat)
    requires Distinct(order) && k < |order|
    ensures Distinct(Without(order, k))
    ensures forall s :: s in Without(order, k) <==> s in order && s != order[k]
  {
    var rest := Without(order, k);
    forall s ensures s in rest <==> s in order && s != order[k] {
      if s in order && s != order[k] {
        var j :| 0 <= j < |order| && order[j] == s;
        assert rest[if j < k then j else j - 1] == s;
      }
    }
  }

  lemma EndsApart<D>(pool: map<nat, Node<D>>, order: seq<nat>, k: nat)
    requires Threaded(pool, order) && k < |order|
    ensures var slot := order[k];
            && slot in pool && pool[slot].prev != Some(slot) && pool[slot].next != Some(slot)
            && (pool[slot].prev.Some? && pool[slot].next.Some? ==> pool[slot].prev != pool[slot].next)
  {
    assert LinkedAt(pool, order, k);
  }

  lemma UnlinkLinks<D>(pool: map<nat, Node<D>>, order: seq<nat>, k: nat, j: nat)
    requires Threaded(pool, order) && k < |order| && j < |order| - 1 && order[k] in pool
    ensures LinkedAt(Unlink(pool, order[k]), Without(order, k), j)
  {
    hide Unlink;
    var at := if j < k then j else j + 1;
    var rest := Without(order, k);
    EndsApart(pool, order, k);
    assert LinkedAt(pool, order, k) && LinkedAt(pool, order, at);
    UnlinkAt(pool, order[k], order[at]);
    assert rest[j] == order[at];
    assert j > 0 ==> rest[j - 1] == order[if j - 1 < k then j - 1 else j];
    assert j + 1 < |rest| ==> rest[j + 1] == order[if j + 1 < k then j + 1 else j + 2];
  }

  lemma UnlinkKeepsList<D>(pool: map<nat, Node<D>>, order: seq<nat>, k: nat)
    requires Threaded(pool, order) && k < |order|
    ensures order[k] in pool
    ensures Threaded(Unlink(pool, order[k]), Without(order, k)) && SameData(Unlink(pool, order[k]), pool)
    ensures forall s :: s in Unlink(pool, order[k]) <==> s in pool && s != order[k]
  {
    hide Unlink, LinkedAt;
    EndsApart(pool, order, k);
    UnlinkSlots(pool, order[k]);
    WithoutMembers(order, k);
    forall s | s in Unlink(pool, order[k]) ensures Unlink(pool, order[k])[s].data == pool[s].data {
      UnlinkAt(pool, order[k], s);
    }
    forall j: nat | j < |Without(order, k)| ensures LinkedAt(Unlink(pool, order[k]), Without(order, k), j) {
      UnlinkLinks(pool, order, k, j);
    }
  }

  /** The slots once `slot`, new, is pushed on the front. */
  function Push<D>(pool: map<nat, Node<D>>, head: Option<nat>, slot: nat, data: D): map<nat, Node<D>> {
    var added := pool[slot := Node(data, None, head)];
    if head.Some? && head.value in added then added[head.value := added[head.value].(prev := Some(slot))] else added
  }

  lemma PushAt<D>(pool: map<nat, Node<D>>, head: Option<nat>, slot: nat, data: D, s: nat)
    requires slot !in pool && s in pool && (head.Some? ==> head.value in pool)
    ensures var after := Push(pool, head, slot, data);
            && after.Keys == pool.Keys + {slot} && after[slot] == Node(data, None, head)
            && after[s] == pool[s].(prev := if head == Some(s) then Some(slot) else pool[s].prev)
  {}

  lemma PushFirst<D>(pool: map<nat, Node<D>>, head: Option<nat>, slot: nat, data: D)
    requires slot !in pool && (head.Some? ==> head.value in pool)
    ensures Push(pool, head, slot, data).Keys == pool.Keys + {slot} && Push(pool, head, slot, data)[slot] == Node(data, None, head)
  {}

  lemma PushKeepsList<D>(pool: map<nat, Node<D>>, order: seq<nat>, slot: nat, data: D)
    requires Threaded(pool, order) && slot !in pool
    ensures var after := Push(pool, First(order), slot, data);
            && Threaded(after, [slot] + order)
            && after.Keys == pool.Keys + {slot} && after[slot].data == data
            && forall s | s in pool :: after[s].data == pool[s].data
  {
    hide Push;
    var after := Push(pool, First(order), slot, data);
    var longer := [slot] + order;
    if |order| > 0 {
      assert order[0] in pool;
    }
    PushFirst(pool, First(order), slot, data);
    forall s | s in pool ensures after[s].data == pool[s].data {
      PushAt(pool, First(order), slot, data, s);
    }
    forall j: nat | j < |longer| ensures LinkedAt(after, longer, j) {
      if j > 0 {
        assert LinkedAt(pool, order, j - 1);
        PushAt(pool, First(order), slot, data, order[j - 1]);
        assert longer[j] == order[j - 1];
      }
    }
  }

  // -- Adding up over the list -----------------------------------------------------------

  /** A measure of each slot, added up over the list. */
  ghost function Total<D>(pool: map<nat, Node<D>>, order: seq<nat>, size: D -> nat): nat {
    if |order| == 0 then 0
    else Total(pool, order[..|order| - 1], size) + SizeAt(pool, order[|order| - 1], size)
  }

  ghost function SizeAt<D>(pool: map<nat, Node<D>>, slot: nat, size: D -> nat): nat {
    if slot in pool then size(pool[slot].data) else 0
  }

  lemma {:induction false} TotalSame<D>(a: map<nat, Node<D>>, b: map<nat, Node<D>>, order: seq<nat>, size: D -> nat)
    requires forall slot | slot in order :: SizeAt(a, slot, size) == SizeAt(b, slot, size)
    ensures Total(a, order, size) == Total(b, order, size)
  {
    if |order| > 0 {
      TotalSame(a, b, order[..|order| - 1], size);
    }
  }

  lemma {:induction false} TotalAppend<D>(pool: map<nat, Node<D>>, x: seq<nat>, y: seq<nat>, size: D -> nat)
    ensures Total(pool, x + y, size) == Total(pool, x, size) + Total(pool, y, size)
  {
    if |y| == 0 {
      assert x + y == x;
    } else {
      assert (x + y)[..|x + y| - 1] == x + y[..|y| - 1];
      TotalAppend(pool, x, y[..|y| - 1], size);
    }
  }

  lemma TotalOne<D>(pool: map<nat, Node<D>>, slot: nat, size: D -> nat)
    ensures Total(pool, [slot], size) == SizeAt(pool, slot, size)
  {
    assert [slot][..0] == [];
  }

  /** Taking one slot out of the list takes its size out of the total. */
  lemma TotalWithout<D>(pool: map<nat, Node<D>>, order: seq<nat>, k: nat, size: D -> nat)
    requires k < |order|
    ensures Total(pool, order, size) == Total(pool, Without(order, k), size) + SizeAt(pool, order[k], size)
  {
    assert order == (order[..k] + [order[k]]) + order[k + 1..];
    TotalAppend(pool, order[..k] + [order[k]], order[k + 1..], size);
    TotalAppend(pool, order[..k], [order[k]], size);
    TotalOne(pool, order[k], size);
    TotalAppend(pool, order[..k], order[k + 1..], size);
  }

  // -- Going round -----------------------------------------------------------------------

  /** The list read from just after `k` round to `k` itself. */
  function Rotated(order: seq<nat>, k: nat): seq<nat>
    requires k < |order|
  {
    order[k + 1..] + order[..k + 1]
  }

  /** Where a step backwards from `k` goes: to the one before, or round to the
      tail. */
  function Back(k: nat, length: nat): nat
    requires k < length
  {
    if k > 0 then k - 1 else length - 1
  }

  // A step back brings the last of the rotation to its front.
  lemma StepRotates(order: seq<nat>, k: nat)
    requires k < |order|
    ensures var w := Rotated(order, k);
            && |w| == |order| && w[|w| - 1] == order[k]
            && Rotated(order, Back(k, |order|)) == [w[|w| - 1]] + w[..|w| - 1]
  {}

  // Unlinking where one stands drops the last of the rotation.
  lemma UnlinkRotates(order: seq<nat>, k: nat)
    requires k < |order| && |order| > 1
    ensures var w := Rotated(order, k);
            && |Without(order, k)| == |order| - 1
            && Rotated(Without(order, k), Back(k, |order| - if k == 0 then 1 else 0)) == w[..|w| - 1]
            && Without(order, k)[Back(k, |order| - if k == 0 then 1 else 0)] == order[Back(k, |order|)]
  {}

  lemma SameMembers(order: seq<nat>, k: nat)
    requires k < |order|
    ensures forall slot :: slot in Rotated(order, k) <==> slot in order
  {
    assert order == order[..k + 1] + order[k + 1..];
  }
}
