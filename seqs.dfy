/** Facts about sequences that several modules of this model rely on. */
module Seqs {

  /** Concatenation regroups freely; the solver does not always regroup a long chain unaided. */
  lemma AppendAssociative<X>(a: seq<X>, b: seq<X>, c: seq<X>)
    ensures a + b + c == a + (b + c)
  {
  }
}
