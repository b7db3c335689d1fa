/** The Some/None datatype, used where the source has a null node or a null term. */
module Wrappers {
  datatype Option<+T> = None | Some(value: T)
}

/**
  The opaque entities of the solver that the enumeration engine only passes
  around: terms, types and quantified formulas. Terms and types are handles
  compared for identity; a quantifier carries what the engine reads from it,
  the types of its bound variables (`q[0]`) and whether its body is the
  constant `true` (`q[1]`).
 */
module Terms {
  type Term = nat
  type TypeNode = nat

  datatype Quantifier = Quantifier(id: nat, varTypes: seq<TypeNode>, bodyIsTrue: bool)

  /**
    A table of first sightings maps each recorded term to its age. It is
    dense when the ages are pairwise distinct and below k, k being the
    number of recorded terms; they are then exactly 0 .. k-1.
   */
  ghost predicate DenseAges(ages: map<Term, nat>) {
    && (forall t | t in ages :: ages[t] < |ages|)
    && forall t1, t2 | t1 in ages && t2 in ages && t1 != t2 :: ages[t1] != ages[t2]
  }

  lemma EmptyIsDense()
    ensures DenseAges(map[])
  {
  }

  /** Recording a new term whose age is the current table size keeps the table dense. */
  lemma DenseAgesExtend(ages: map<Term, nat>, t: Term, a: nat)
    requires DenseAges(ages) && t !in ages && a == |ages|
    ensures |ages[t := a]| == |ages| + 1
    ensures DenseAges(ages[t := a])
  {
    assert ages[t := a].Keys == ages.Keys + {t};
  }
}
