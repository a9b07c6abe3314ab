/** Sequences without repetition, and sums. */
module Sequences {

  ghost predicate Distinct<T>(q: seq<T>)
  {
    forall i, j :: 0 <= i < j < |q| ==> q[i] != q[j]
  }

  lemma DistinctTail<T>(q: seq<T>)
    requires Distinct(q) && q != []
    ensures Distinct(q[1..]) && q[0] !in q[1..]
  {
  }

  function Sum(xs: seq<nat>): nat
  {
    if xs == [] then 0 else Sum(xs[..|xs| - 1]) + xs[|xs| - 1]
  }
}
