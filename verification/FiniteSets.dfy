/** A fact about finite sets that is not built in. */
module FiniteSets {

  lemma {:induction false} FewerMembers(a: set<nat>, b: set<nat>)
    requires a <= b
    ensures |a| <= |b|
  {
    if a != {} {
      var x :| x in a;
      FewerMembers(a - {x}, b - {x});
    }
  }
}
