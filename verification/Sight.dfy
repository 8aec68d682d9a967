// Keeping a definition out of the verifier's sight until it is asked for.

module Sight {
  // A definition written forall x {:trigger Look(x)} :: Look(x) ==> D means D, but is unfolded only
  // where Look is asserted of something.
  ghost predicate Look(x: int) {
    true
  }
}
