/** Facts about sequences in general, shared by the modules that scan them. */
module Sequences {

  /** Taking one more element of a sequence. */
  lemma TakeSnoc<T>(xs: seq<T>, n: nat)
    requires n < |xs|
    ensures xs[..n + 1] == xs[..n] + [xs[n]]
  {
  }
}
