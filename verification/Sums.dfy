/** Finite sums of reals, and the few laws the forward-backward proof rests on. */
module Sums {

  /** `f(0) + ... + f(n - 1)`. */
  ghost function Sum(n: nat, f: nat -> real): real {
    if n == 0 then 0.0 else Sum(n - 1, f) + f(n - 1)
  }

  lemma {:induction false} SumSame(n: nat, f: nat -> real, g: nat -> real)
    requires forall i | 0 <= i < n :: f(i) == g(i)
    ensures Sum(n, f) == Sum(n, g)
  {
    if n > 0 {
      SumSame(n - 1, f, g);
    }
  }

  lemma {:induction false} SumZero(n: nat, f: nat -> real)
    requires forall i | 0 <= i < n :: f(i) == 0.0
    ensures Sum(n, f) == 0.0
  {
    if n > 0 {
      SumZero(n - 1, f);
    }
  }

  lemma {:induction false} SumSingle(n: nat, f: nat -> real, k: nat)
    requires k < n && forall i | 0 <= i < n && i != k :: f(i) == 0.0
    ensures Sum(n, f) == f(k)
  {
    if k == n - 1 {
      SumZero(n - 1, f);
    } else {
      SumSingle(n - 1, f, k);
    }
  }

  lemma {:induction false} SumScaled(n: nat, f: nat -> real, c: real, scaled: nat -> real)
    requires forall i: nat | i < n :: scaled(i) == c * f(i)
    ensures Sum(n, scaled) == c * Sum(n, f)
  {
    if n > 0 {
      SumScaled(n - 1, f, c, scaled);
    }
  }

  lemma {:induction false} SumPlus(n: nat, f: nat -> real, g: nat -> real)
    ensures Sum(n, (i: nat) => f(i) + g(i)) == Sum(n, f) + Sum(n, g)
  {
    if n > 0 {
      SumPlus(n - 1, f, g);
    }
  }

  ghost function Row(m: nat, f: (nat, nat) -> real): nat -> real {
    (i: nat) => Sum(m, (j: nat) => f(i, j))
  }

  ghost function Column(n: nat, f: (nat, nat) -> real): nat -> real {
    (j: nat) => Sum(n, (i: nat) => f(i, j))
  }

  lemma RowAdds(m: nat, f: (nat, nat) -> real, i: nat, line: nat -> real)
    requires forall j: nat | j < m :: f(i, j) == line(j)
    ensures Row(m, f)(i) == Sum(m, line)
  {
    SumSame(m, (j: nat) => f(i, j), line);
  }

  lemma ColumnAdds(n: nat, f: (nat, nat) -> real, j: nat, line: nat -> real)
    requires forall i: nat | i < n :: f(i, j) == line(i)
    ensures Column(n, f)(j) == Sum(n, line)
  {
    SumSame(n, (i: nat) => f(i, j), line);
  }

  /** A finite table adds up the same by rows and by columns. */
  lemma {:induction false} SumSwap(n: nat, m: nat, f: (nat, nat) -> real)
    ensures Sum(n, Row(m, f)) == Sum(m, Column(n, f))
  {
    if n == 0 {
      SumZero(m, Column(0, f));
    } else {
      SumSwap(n - 1, m, f);
      var last: nat -> real := (j: nat) => f(n - 1, j);
      SumPlus(m, Column(n - 1, f), last);
      SumSame(m, Column(n, f), (j: nat) => Column(n - 1, f)(j) + last(j));
      SumSame(m, last, (j: nat) => f(n - 1, j));
    }
  }

  lemma {:induction false} SumNonNegative(n: nat, f: nat -> real)
    requires forall i | 0 <= i < n :: f(i) >= 0.0
    ensures Sum(n, f) >= 0.0
  {
    if n > 0 {
      SumNonNegative(n - 1, f);
    }
  }

  lemma {:induction false} SumTail(n: nat, m: nat, f: nat -> real)
    requires n <= m && forall i | n <= i < m :: f(i) == 0.0
    ensures Sum(m, f) == Sum(n, f)
  {
    if n < m {
      SumTail(n, m - 1, f);
    }
  }

  /** Two tables hold the same nonzero entries at paired indices: entry `i` of
      one is entry `to(i)` of the other, and back. */
  lemma SumReindex(n: nat, f: nat -> real, g: nat -> real, to: nat -> nat, back: nat -> nat)
    requires forall i: nat | i < n && f(i) != 0.0 :: to(i) < n && back(to(i)) == i && g(to(i)) == f(i)
    requires forall k: nat | k < n && g(k) != 0.0 :: back(k) < n && to(back(k)) == k && f(back(k)) == g(k)
    ensures Sum(n, f) == Sum(n, g)
  {
    var table: (nat, nat) -> real := (i: nat, k: nat) => if to(i) == k && back(k) == i then f(i) else 0.0;
    forall i: nat | i < n ensures Row(n, table)(i) == f(i) {
      var line: nat -> real := (k: nat) => table(i, k);
      if f(i) == 0.0 {
        SumZero(n, line);
      } else {
        SumSingle(n, line, to(i));
      }
      SumSame(n, line, (k: nat) => table(i, k));
    }
    forall k: nat | k < n ensures Column(n, table)(k) == g(k) {
      var line: nat -> real := (i: nat) => table(i, k);
      if g(k) == 0.0 {
        forall i | 0 <= i < n ensures line(i) == 0.0 {}
        SumZero(n, line);
      } else {
        SumSingle(n, line, back(k));
      }
      SumSame(n, line, (i: nat) => table(i, k));
    }
    SumSame(n, Row(n, table), f);
    SumSwap(n, n, table);
    SumSame(n, Column(n, table), g);
  }
}
