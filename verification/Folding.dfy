/** A marker for quantified definitions that should stay folded: the verifier looks inside
    them only where a proof mentions the marker. */
module Folding {

  ghost predicate Unfold(u: nat) {
    true
  }
}
