/** The log semiring's sum over the transitions of one cell, folded on its largest
    term, with the share each transition takes of it. */
module LogSums {
  import opened Sums
  import opened PathMasses

  ghost function TermAt(terms: seq<real>): nat -> real {
    (i: nat) => if i < |terms| then terms[i] else 0.0
  }

  /** All of the terms, added up. */
  ghost function SumOf(terms: seq<real>): real {
    Sum(|terms|, TermAt(terms))
  }

  method Pivot(terms: seq<real>) returns (pivot: real)
    requires forall i | 0 <= i < |terms| :: terms[i] >= 0.0
    ensures pivot >= 0.0 && (forall i | 0 <= i < |terms| :: terms[i] <= pivot)
    ensures pivot > 0.0 ==> pivot in terms
  {
    pivot := 0.0;
    var i := 0;
    while i < |terms|
      invariant 0 <= i <= |terms| && pivot >= 0.0
      invariant forall k | 0 <= k < i :: terms[k] <= pivot
      invariant pivot > 0.0 ==> pivot in terms[..i]
    {
      if terms[i] > pivot {
        pivot := terms[i];
      }
      i := i + 1;
    }
  }

  lemma {:induction false} SumOfPrefix(terms: seq<real>, n: nat)
    requires n <= |terms|
    ensures SumOf(terms[..n]) == Sum(n, TermAt(terms))
  {
    SumSame(n, TermAt(terms[..n]), TermAt(terms));
  }

  lemma SumOfMore(terms: seq<real>, x: real)
    ensures SumOf(terms + [x]) == SumOf(terms) + x
  {
    SumOfPrefix(terms + [x], |terms|);
    assert (terms + [x])[..|terms|] == terms;
  }

  lemma {:induction false} SharesScale(terms: seq<real>, shares: seq<real>, pivot: real)
    requires |shares| == |terms| && forall i | 0 <= i < |terms| :: Times(pivot, shares[i]) == terms[i]
    ensures SumOf(terms) == Times(pivot, SumOf(shares))
  {
    if |terms| > 0 {
      var n := |terms| - 1;
      SharesScale(terms[..n], shares[..n], pivot);
      SumOfMore(terms[..n], terms[n]);
      SumOfMore(shares[..n], shares[n]);
      assert terms[..n] + [terms[n]] == terms;
      assert shares[..n] + [shares[n]] == shares;
      TimesSplit(pivot, SumOf(shares[..n]), shares[n]);
    }
  }

  lemma TimesSplit(a: real, b: real, c: real)
    ensures Times(a, b + c) == Times(a, b) + Times(a, c)
  {}

  lemma ShareOf(term: real, pivot: real)
    requires pivot > 0.0 && 0.0 <= term <= pivot
    ensures Times(pivot, term / pivot) == term && term / pivot >= 0.0
    ensures term == pivot ==> term / pivot == 1.0
    ensures term > 0.0 <==> term / pivot > 0.0
  {
    var share := term / pivot;
    assert share * pivot == term;
    assert (share - 1.0) * pivot == term - pivot;
  }

  /** The sum of the terms, the largest of them, and each one's share of it. Only
      one term may claim the share of exactly one that the sum adds back. */
  method LogSum(terms: seq<real>) returns (sum: real, pivot: real, shares: seq<real>)
    requires forall i | 0 <= i < |terms| :: terms[i] >= 0.0
    ensures sum == SumOf(terms) && pivot >= 0.0 && |shares| == |terms|
    ensures forall i | 0 <= i < |terms| :: Times(pivot, shares[i]) == terms[i] && shares[i] >= 0.0
    ensures forall i | 0 <= i < |terms| :: shares[i] > 0.0 <==> terms[i] > 0.0
  {
    pivot := Pivot(terms);
    if pivot == 0.0 {
      shares := seq(|terms|, _ => 0.0);
      sum := 0.0;
      SumZero(|terms|, TermAt(terms));
      TimesPlus(0.0, 0.0, 0.0);
      return;
    }
    var at :| 0 <= at < |terms| && terms[at] == pivot;
    shares := [];
    var rest, claimed := 0.0, false;
    var i := 0;
    while i < |terms|
      invariant 0 <= i == |shares| <= |terms|
      invariant forall k | 0 <= k < i :: Times(pivot, shares[k]) == terms[k] && shares[k] >= 0.0
      invariant forall k | 0 <= k < i :: shares[k] > 0.0 <==> terms[k] > 0.0
      invariant i > at ==> claimed
      invariant SumOf(shares) == rest + if claimed then 1.0 else 0.0
    {
      var share := terms[i] / pivot;
      ShareOf(terms[i], pivot);
      SumOfMore(shares, share);
      if terms[i] == pivot && !claimed {
        claimed := true;
      } else {
        rest := rest + share;
      }
      shares := shares + [share];
      i := i + 1;
    }
    sum := pivot * (1.0 + rest);
    SharesScale(terms, shares, pivot);
  }
}
