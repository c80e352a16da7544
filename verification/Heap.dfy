/** A binary heap that can be updated in place: each value keeps the key it was given,
    through every swap, until it is popped. */
module Heaps {

  datatype Node<T> = Node(value: T, key: nat)

  function Left(i: nat): nat {
    2 * (i + 1) - 1
  }

  function Right(i: nat): nat {
    2 * (i + 1)
  }

  function Parent(i: nat): nat {
    if i == 0 then 0 else (i - 1) / 2
  }

  lemma ParentOfChildren(i: nat)
    ensures Parent(Left(i)) == i && Parent(Right(i)) == i
    ensures forall c: nat | c > 0 && Parent(c) == i :: c == Left(i) || c == Right(i)
    ensures forall c: nat | c > 0 :: Parent(c) < c
  {}

  // -- The order ----------------------------------------------------------------------------

  /** A strict weak order: nothing precedes itself, and both preceding and not
      preceding are transitive. */
  ghost predicate StrictWeakOrder<T(!new)>(less: (T, T) -> bool) {
    && (forall a :: !less(a, a))
    && (forall a, b, c :: less(a, b) && less(b, c) ==> less(a, c))
    && (forall a, b, c :: !less(a, b) && !less(b, c) ==> !less(a, c))
  }

  ghost predicate InOrder<T>(less: (T, T) -> bool, v: seq<Node<T>>, i: nat, j: nat)
    requires i < |v| && j < |v|
  {
    !less(v[j].value, v[i].value)
  }

  /** No value of the first `n` precedes its parent's. */
  ghost predicate HeapOrdered<T>(less: (T, T) -> bool, v: seq<Node<T>>, n: nat)
    requires n <= |v|
  {
    forall i: nat | 0 < i < n :: InOrder(less, v, Parent(i), i)
  }

  /** A heap but for `k` and its parent; `k`'s children are in order with both. */
  ghost predicate HeapButUp<T>(less: (T, T) -> bool, v: seq<Node<T>>, n: nat, k: nat)
    requires k < n <= |v|
  {
    && (forall i: nat | 0 < i < n && i != k :: InOrder(less, v, Parent(i), i))
    && (forall i: nat | 0 < i < n && Parent(i) == k && i != k && k > 0 :: InOrder(less, v, Parent(k), i))
  }

  /** A heap but for `k` and its children; they are in order with its parent. */
  ghost predicate HeapButDown<T>(less: (T, T) -> bool, v: seq<Node<T>>, n: nat, k: nat)
    requires n <= |v|
  {
    && (forall i: nat | 0 < i < n && Parent(i) != k :: InOrder(less, v, Parent(i), i))
    && (forall i: nat | 0 < i < n && Parent(i) == k && 0 < k < n :: InOrder(less, v, Parent(k), i))
  }

  /** The first of a heap is the least. */
  lemma {:induction false} TopIsLeast<T(!new)>(less: (T, T) -> bool, v: seq<Node<T>>, n: nat, i: nat)
    requires StrictWeakOrder(less) && i < n <= |v| && HeapOrdered(less, v, n)
    ensures InOrder(less, v, 0, i)
  {
    if i > 0 {
      ParentOfChildren(i);
      TopIsLeast(less, v, n, Parent(i));
      assert InOrder(less, v, Parent(i), i);
    }
  }

  // -- Keys -----------------------------------------------------------------------------------

  /** The positions and the keys are inverse permutations, recycled slots included. */
  ghost predicate KeysMatch<T>(v: seq<Node<T>>, pos: seq<nat>) {
    && |pos| == |v|
    && (forall key: nat | key < |pos| :: KeyAt(v, pos, key))
    && (forall i: nat | i < |v| :: PlaceAt(v, pos, i))
  }

  ghost predicate KeyAt<T>(v: seq<Node<T>>, pos: seq<nat>, key: nat)
    requires key < |pos|
  {
    pos[key] < |v| && v[pos[key]].key == key
  }

  ghost predicate PlaceAt<T>(v: seq<Node<T>>, pos: seq<nat>, i: nat)
    requires i < |v|
  {
    v[i].key < |pos| && pos[v[i].key] == i
  }

  function Swapped<T>(v: seq<Node<T>>, j: nat, k: nat): seq<Node<T>>
    requires j < |v| && k < |v|
  {
    v[j := v[k]][k := v[j]]
  }

  /** The value each live key has. */
  ghost function LiveOf<T>(v: seq<Node<T>>, pos: seq<nat>, n: nat): map<nat, T> {
    map key: nat | key < |pos| && pos[key] < n && pos[key] < |v| :: v[pos[key]].value
  }

  lemma SwapKeeps<T>(v: seq<Node<T>>, pos: seq<nat>, n: nat, j: nat, k: nat)
    requires KeysMatch(v, pos) && j < n <= |v| && k < n
    ensures v[j].key < |pos| && v[k].key < |pos|
    ensures var (w, p) := (Swapped(v, j, k), pos[v[j].key := k][v[k].key := j]);
            KeysMatch(w, p) && LiveOf(w, p, n) == LiveOf(v, pos, n)
  {
    assert PlaceAt(v, pos, j) && PlaceAt(v, pos, k);
    var (w, p) := (Swapped(v, j, k), pos[v[j].key := k][v[k].key := j]);
    forall key: nat | key < |p| ensures KeyAt(w, p, key) {
      assert KeyAt(v, pos, key);
    }
    forall i: nat | i < |w| ensures PlaceAt(w, p, i) {
      assert PlaceAt(v, pos, i);
    }
    forall key: nat | key < |pos|
      ensures pos[key] < |v| && p[key] < |w| && (p[key] < n <==> pos[key] < n) && w[p[key]].value == v[pos[key]].value
    {
      assert KeyAt(v, pos, key) && KeyAt(w, p, key);
    }
  }

  // -- Moving one value into place -------------------------------------------------------------

  lemma SiftUpStep<T(!new)>(less: (T, T) -> bool, v: seq<Node<T>>, n: nat, k: nat)
    requires StrictWeakOrder(less) && 0 < k < n <= |v| && HeapButUp(less, v, n, k) && !less(v[Parent(k)].value, v[k].value)
    ensures HeapButUp(less, Swapped(v, k, Parent(k)), n, Parent(k))
  {
    ParentOfChildren(k);
    var p := Parent(k);
    var w := Swapped(v, k, p);
    forall i: nat | 0 < i < n && i != p ensures InOrder(less, w, Parent(i), i) {
      ParentOfChildren(i);
      if i == k {
      } else if Parent(i) == k {
        assert InOrder(less, v, Parent(k), i);
      } else {
        assert InOrder(less, v, Parent(i), i);
      }
    }
    forall i: nat | 0 < i < n && Parent(i) == p && i != p && p > 0 ensures InOrder(less, w, Parent(p), i) {
      ParentOfChildren(p);
      assert InOrder(less, v, Parent(p), p);
      if i != k {
        assert InOrder(less, v, Parent(i), i);
      }
    }
  }

  lemma SiftUpDone<T(!new)>(less: (T, T) -> bool, v: seq<Node<T>>, n: nat, k: nat)
    requires StrictWeakOrder(less) && k < n <= |v| && HeapButUp(less, v, n, k) && (k > 0 ==> less(v[Parent(k)].value, v[k].value))
    ensures HeapOrdered(less, v, n)
  {
    forall i: nat | 0 < i < n ensures InOrder(less, v, Parent(i), i) {
      if i == k {
        assert !less(v[k].value, v[Parent(k)].value);
      }
    }
  }

  /** The child of `k`, or `k`, that precedes the others. */
  ghost predicate IsLeastOf<T>(less: (T, T) -> bool, v: seq<Node<T>>, n: nat, k: nat, best: nat)
    requires k < n <= |v|
  {
    && (best == k || best == Left(k) || best == Right(k)) && best < n
    && InOrder(less, v, best, k)
    && (Left(k) < n ==> InOrder(less, v, best, Left(k))) && (Right(k) < n ==> InOrder(less, v, best, Right(k)))
  }

  lemma SiftDownStep<T(!new)>(less: (T, T) -> bool, v: seq<Node<T>>, n: nat, k: nat, best: nat)
    requires StrictWeakOrder(less) && k < n <= |v| && HeapButDown(less, v, n, k) && IsLeastOf(less, v, n, k, best) && best != k
    ensures HeapButDown(less, Swapped(v, k, best), n, best)
  {
    ParentOfChildren(k);
    var w := Swapped(v, k, best);
    forall i: nat | 0 < i < n && Parent(i) != best ensures InOrder(less, w, Parent(i), i) {
      ParentOfChildren(i);
      if i == k {
        assert InOrder(less, v, Parent(k), best);
      } else if Parent(i) != k {
        assert InOrder(less, v, Parent(i), i);
      }
    }
    forall i: nat | 0 < i < n && Parent(i) == best ensures InOrder(less, w, Parent(best), i) {
      ParentOfChildren(i);
      assert InOrder(less, v, Parent(i), i);
    }
  }

  lemma SiftDownDone<T(!new)>(less: (T, T) -> bool, v: seq<Node<T>>, n: nat, k: nat)
    requires n <= |v| && HeapButDown(less, v, n, k) && (k < n ==> IsLeastOf(less, v, n, k, k))
    ensures HeapOrdered(less, v, n)
  {
    forall i: nat | 0 < i < n ensures InOrder(less, v, Parent(i), i) {
      ParentOfChildren(i);
      ParentOfChildren(k);
    }
  }

  class Heap<T(!new)> {
    const less: (T, T) -> bool
    var pos: seq<nat>
    var elements: seq<Node<T>>
    var size: nat

    ghost predicate Keyed()
      reads this
    {
      StrictWeakOrder(less) && size <= |elements| && KeysMatch(elements, pos)
    }

    ghost predicate Valid()
      reads this
    {
      Keyed() && HeapOrdered(less, elements, size)
    }

    /** The values in the heap, by the keys they were given. */
    ghost function Live(): map<nat, T>
      reads this
    {
      LiveOf(elements, pos, size)
    }

    constructor (less: (T, T) -> bool)
      requires StrictWeakOrder(less)
      ensures Valid() && Live() == map[] && this.less == less
    {
      this.less := less;
      pos, elements, size := [], [], 0;
    }

    method Swap(j: nat, k: nat)
      requires Keyed() && j < size && k < size
      modifies this
      ensures Keyed() && size == old(size) && elements == Swapped(old(elements), j, k) && Live() == old(Live())
    {
      hide StrictWeakOrder, KeysMatch;
      SwapKeeps(elements, pos, size, j, k);
      if j == k {
        SwapSame(elements, j);
        return;
      }
      ghost var v := elements;
      pos := pos[elements[j].key := k];
      pos := pos[elements[k].key := j];
      elements := Swapped(elements, j, k);
    }

    /** Moves a value up until its parent precedes it. */
    method SiftUp(start: nat) returns (key: nat)
      requires Keyed() && start < size && HeapButUp(less, elements, size, start)
      modifies this
      ensures Valid() && size == old(size) && Live() == old(Live()) && key == old(elements[start].key)
    {
      hide StrictWeakOrder, KeysMatch, HeapButUp, LiveOf;
      var i: nat := start;
      while i > 0 && !less(elements[Parent(i)].value, elements[i].value)
        invariant Keyed() && i < size == old(size) && HeapButUp(less, elements, size, i)
        invariant Live() == old(Live()) && elements[i].key == old(elements[start].key)
        decreases i
      {
        var p := Parent(i);
        ParentOfChildren(i);
        SiftUpStep(less, elements, size, i);
        Swap(i, p);
        i := p;
      }
      SiftUpDone(less, elements, size, i);
      key := elements[i].key;
    }

    /** Moves a value down until it precedes both its children. */
    method Heapify(start: nat)
      requires Keyed() && HeapButDown(less, elements, size, start)
      modifies this
      ensures Valid() && size == old(size) && Live() == old(Live())
    {
      hide StrictWeakOrder, KeysMatch, HeapButDown, LiveOf;
      var i: nat := start;
      if i >= size {
        SiftDownDone(less, elements, size, i);
        return;
      }
      while true
        invariant Keyed() && i < size == old(size) && HeapButDown(less, elements, size, i)
        invariant Live() == old(Live())
        decreases size - i
      {
        var (l, r) := (Left(i), Right(i));
        var best := if l < size && less(elements[l].value, elements[i].value) then l else i;
        if r < size && less(elements[r].value, elements[best].value) {
          best := r;
        }
        BestIsLeast(less, elements, size, i, best);
        if best == i {
          SiftDownDone(less, elements, size, i);
          return;
        }
        SiftDownStep(less, elements, size, i, best);
        Swap(i, best);
        i := best;
      }
    }

    /** Adds a value, under a key that was not in use. */
    method Insert(value: T) returns (key: nat)
      requires Valid()
      modifies this
      ensures Valid() && key !in old(Live()) && Live() == old(Live())[key := value]
    {
      hide StrictWeakOrder, HeapOrdered, HeapButUp, KeysMatch, LiveOf;
      AddedAtEnd(less, elements, pos, size, value);
      if size < |elements| {
        elements := elements[size := elements[size].(value := value)];
        pos := pos[elements[size].key := size];
      } else {
        elements := elements + [Node(value, size)];
        pos := pos + [size];
      }
      size := size + 1;
      key := SiftUp(size - 1);
    }

    /** Gives a live key another value. */
    method Update(key: nat, value: T)
      requires Valid() && key in Live()
      modifies this
      ensures Valid() && Live() == old(Live())[key := value]
    {
      hide StrictWeakOrder, HeapOrdered, HeapButUp, HeapButDown;
      var i := pos[key];
      ghost var was := elements;
      Replaced(less, elements, pos, size, key, value);
      var isBetter := less(value, elements[Parent(i)].value);
      elements := elements[i := elements[i].(value := value)];
      if isBetter {
        var _ := SiftUp(i);
      } else {
        Heapify(i);
      }
    }

    /** Takes out a least value. */
    method Pop() returns (top: T, ghost key: nat)
      requires Valid() && Live() != map[]
      modifies this
      ensures Valid() && key in old(Live()) && old(Live())[key] == top
      ensures forall k | k in old(Live()) :: !less(old(Live())[k], top)
      ensures Live() == old(Live()) - {key}
    {
      hide StrictWeakOrder, HeapOrdered, HeapButDown;
      SomeoneLives(elements, pos, size);
      key := elements[0].key;
      TopPrecedesAll(less, elements, pos, size);
      top := elements[0].value;
      ghost var v := elements;
      LastGone(less, elements, size);
      Swap(0, size - 1);
      LastKeyGone(elements, pos, size);
      size := size - 1;
      Heapify(0);
    }

    method Top() returns (top: T)
      requires Valid() && Live() != map[]
      ensures exists key :: key in Live() && Live()[key] == top
      ensures forall k | k in Live() :: !less(Live()[k], top)
    {
      hide StrictWeakOrder, HeapOrdered;
      SomeoneLives(elements, pos, size);
      TopPrecedesAll(less, elements, pos, size);
      top := elements[0].value;
      assert elements[0].key in Live();
    }

    method Get(key: nat) returns (value: T)
      requires Valid() && key in Live()
      ensures value == Live()[key]
    {
      value := elements[pos[key]].value;
    }

    method Clear()
      requires Valid()
      modifies this
      ensures Valid() && Live() == map[]
    {
      size := 0;
    }
  }

  lemma SwapSame<T>(v: seq<Node<T>>, j: nat)
    requires j < |v|
    ensures Swapped(v, j, j) == v
  {}

  lemma BestIsLeast<T(!new)>(less: (T, T) -> bool, v: seq<Node<T>>, n: nat, i: nat, best: nat)
    requires StrictWeakOrder(less) && i < n <= |v|
    requires var (l, r) := (Left(i), Right(i));
             var one := if l < n && less(v[l].value, v[i].value) then l else i;
             best == if r < n && less(v[r].value, v[one].value) then r else one
    ensures IsLeastOf(less, v, n, i, best)
  {}

  // A value put just past the heap is out of order with its parent at most.
  lemma AddedAtEnd<T(!new)>(less: (T, T) -> bool, v: seq<Node<T>>, pos: seq<nat>, n: nat, value: T)
    requires n <= |v| && KeysMatch(v, pos) && HeapOrdered(less, v, n)
    ensures n < |v| ==> v[n].key < |pos|
    ensures var w := if n < |v| then v[n := v[n].(value := value)] else v + [Node(value, n)];
            var p := if n < |v| then pos[w[n].key := n] else pos + [n];
            && KeysMatch(w, p) && HeapButUp(less, w, n + 1, n)
            && w[n].key !in LiveOf(v, pos, n) && LiveOf(w, p, n + 1) == LiveOf(v, pos, n)[w[n].key := value]
  {
    if n < |v| {
      assert PlaceAt(v, pos, n);
    }
    var w := if n < |v| then v[n := v[n].(value := value)] else v + [Node(value, n)];
    var p := if n < |v| then pos[w[n].key := n] else pos + [n];
    forall key: nat | key < |p| ensures KeyAt(w, p, key) {
      if key < |pos| {
        assert KeyAt(v, pos, key);
      }
    }
    forall i: nat | i < |w| ensures PlaceAt(w, p, i) {
      if i < |v| {
        assert PlaceAt(v, pos, i);
      }
    }
    ParentOfChildren(n);
    forall i: nat | 0 < i < n + 1 && i != n ensures InOrder(less, w, Parent(i), i) {
      ParentOfChildren(i);
      assert InOrder(less, v, Parent(i), i);
    }
    forall key: nat | key < |p| ensures (p[key] < n + 1 <==> (key == w[n].key || (key < |pos| && pos[key] < n))) {
      assert KeyAt(w, p, key) && PlaceAt(w, p, n);
    }
  }

  // A value replaced is out of order with its parent, or with its children.
  lemma Replaced<T(!new)>(less: (T, T) -> bool, v: seq<Node<T>>, pos: seq<nat>, n: nat, key: nat, value: T)
    requires StrictWeakOrder(less) && n <= |v| && KeysMatch(v, pos) && HeapOrdered(less, v, n) && key in LiveOf(v, pos, n)
    ensures var i := pos[key];
            var w := v[i := v[i].(value := value)];
            && KeysMatch(w, pos) && LiveOf(w, pos, n) == LiveOf(v, pos, n)[key := value]
            && (less(value, v[Parent(i)].value) ==> HeapButUp(less, w, n, i))
            && (!less(value, v[Parent(i)].value) ==> HeapButDown(less, w, n, i))
  {
    var i := pos[key];
    var w := v[i := v[i].(value := value)];
    assert KeyAt(v, pos, key);
    forall k: nat | k < |pos| ensures KeyAt(w, pos, k) {
      assert KeyAt(v, pos, k);
    }
    forall j: nat | j < |w| ensures PlaceAt(w, pos, j) {
      assert PlaceAt(v, pos, j);
    }
    ReplacedOrder(less, v, n, i, value);
    forall k: nat | k < |pos| && k != key ensures pos[k] != i {
      assert KeyAt(v, pos, k);
    }
    assert LiveOf(w, pos, n) == LiveOf(v, pos, n)[key := value];
  }

  lemma ReplacedOrder<T(!new)>(less: (T, T) -> bool, v: seq<Node<T>>, n: nat, i: nat, value: T)
    requires StrictWeakOrder(less) && i < n <= |v| && HeapOrdered(less, v, n)
    ensures var w := v[i := v[i].(value := value)];
            && (less(value, v[Parent(i)].value) ==> HeapButUp(less, w, n, i))
            && (!less(value, v[Parent(i)].value) ==> HeapButDown(less, w, n, i))
  {
    var w := v[i := v[i].(value := value)];
    ParentOfChildren(i);
    forall j: nat | 0 < j < n ensures InOrder(less, v, Parent(j), j) {}
    if less(value, v[Parent(i)].value) {
      forall j: nat | 0 < j < n && j != i ensures InOrder(less, w, Parent(j), j) {
        ParentOfChildren(j);
        if Parent(j) == i {
          assert InOrder(less, v, i, j);
          if i > 0 {
            assert InOrder(less, v, Parent(i), i);
          }
        }
      }
      forall j: nat | 0 < j < n && Parent(j) == i && j != i && i > 0 ensures InOrder(less, w, Parent(i), j) {
        assert InOrder(less, v, Parent(i), i) && InOrder(less, v, i, j);
      }
    } else {
      forall j: nat | 0 < j < n && Parent(j) != i ensures InOrder(less, w, Parent(j), j) {
        ParentOfChildren(j);
        assert InOrder(less, v, Parent(j), j);
      }
      forall j: nat | 0 < j < n && Parent(j) == i && 0 < i < n ensures InOrder(less, w, Parent(i), j) {
        ParentOfChildren(j);
        assert InOrder(less, v, Parent(i), i) && InOrder(less, v, i, j);
      }
    }
  }

  lemma SomeoneLives<T>(v: seq<Node<T>>, pos: seq<nat>, n: nat)
    requires n <= |v| && KeysMatch(v, pos) && LiveOf(v, pos, n) != map[]
    ensures n > 0 && v[0].key in LiveOf(v, pos, n) && LiveOf(v, pos, n)[v[0].key] == v[0].value
  {
    var key :| key in LiveOf(v, pos, n);
    assert pos[key] < n;
    assert PlaceAt(v, pos, 0);
  }

  lemma TopPrecedesAll<T(!new)>(less: (T, T) -> bool, v: seq<Node<T>>, pos: seq<nat>, n: nat)
    requires StrictWeakOrder(less) && 0 < n <= |v| && KeysMatch(v, pos) && HeapOrdered(less, v, n)
    ensures forall k | k in LiveOf(v, pos, n) :: !less(LiveOf(v, pos, n)[k], v[0].value)
  {
    forall k | k in LiveOf(v, pos, n) ensures !less(LiveOf(v, pos, n)[k], v[0].value) {
      TopIsLeast(less, v, n, pos[k]);
    }
  }

  // The top swapped with the last, and the heap shortened by it.

  lemma LastGone<T(!new)>(less: (T, T) -> bool, v: seq<Node<T>>, n: nat)
    requires 0 < n <= |v| && HeapOrdered(less, v, n)
    ensures HeapButDown(less, Swapped(v, 0, n - 1), n - 1, 0)
  {
    var w := Swapped(v, 0, n - 1);
    forall i: nat | 0 < i < n - 1 && Parent(i) != 0 ensures InOrder(less, w, Parent(i), i) {
      ParentOfChildren(i);
      assert InOrder(less, v, Parent(i), i);
    }
  }

  lemma LastKeyGone<T>(v: seq<Node<T>>, pos: seq<nat>, n: nat)
    requires 0 < n <= |v| && KeysMatch(v, pos)
    ensures LiveOf(v, pos, n - 1) == LiveOf(v, pos, n) - {v[n - 1].key}
  {
    assert PlaceAt(v, pos, n - 1);
    forall key: nat | key < |pos| ensures pos[key] < n - 1 <==> pos[key] < n && key != v[n - 1].key {
      assert KeyAt(v, pos, key);
    }
  }
}
