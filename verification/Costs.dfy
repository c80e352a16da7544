/** Path costs: negative log probabilities held exactly, plus the infinity that
    marks a transition or a path that is not there. Smaller is better. */
module Costs {

  datatype Option<+T> = None | Some(value: T)

  datatype Result<+T, +E> = Success(value: T) | Failure(error: E)

  datatype Cost = Finite(value: real) | Infinite {

    function Plus(other: Cost): Cost {
      if Finite? && other.Finite? then Finite(value + other.value) else Infinite
    }

    /** Strictly cheaper, which is the only comparison the solvers make. */
    predicate Less(other: Cost) {
      Finite? && (other.Finite? ==> value < other.value)
    }

    predicate AtMost(other: Cost) {
      !other.Less(this)
    }
  }

  const ZERO := Finite(0.0)

  function Min(a: nat, b: nat): nat {
    if a <= b then a else b
  }

  function Max(a: nat, b: nat): nat {
    if a <= b then b else a
  }
}
