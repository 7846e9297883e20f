/** Iteration over a Java HashMap visits every key once, in an order the code
    does not control; the model takes that order as a sequence. */
module Enumeration {

  predicate Distinct<T(==)>(order: seq<T>)
  {
    forall i, j :: 0 <= i < j < |order| ==> order[i] != order[j]
  }

  /** `order` visits every element of `s` exactly once. */
  predicate Enumerates<T(==)>(order: seq<T>, s: set<T>)
  {
    (forall i :: 0 <= i < |order| ==> order[i] in s) && (forall x <- s :: x in order) && Distinct(order)
  }

  /** Picks some visiting order of a finite set. */
  method Enumerate<T(==)>(s: set<T>) returns (order: seq<T>)
    ensures Enumerates(order, s)
  {
    order := [];
    var rest := s;
    while rest != {}
      invariant forall i :: 0 <= i < |order| ==> order[i] in s && order[i] !in rest
      invariant forall x <- s :: x in rest || x in order
      invariant rest <= s
      invariant Distinct(order)
      decreases rest
    {
      var x :| x in rest;
      order := order + [x];
      rest := rest - {x};
    }
  }
}
