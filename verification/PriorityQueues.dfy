/** A priority queue as its specification: a multiset that hands out a least element. */
module PriorityQueues {
  ghost predicate IsTotalOrder<T(!new)>(leq: (T, T) -> bool) {
    && (forall a, b :: leq(a, b) || leq(b, a))
    && (forall a, b, c :: leq(a, b) && leq(b, c) ==> leq(a, c))
  }

  lemma {:induction false} LeastExists<T(!new)>(pq: multiset<T>, leq: (T, T) -> bool) returns (t: T)
    requires |pq| > 0 && IsTotalOrder(leq)
    ensures t in pq && forall s :: s in pq ==> leq(t, s)
    decreases |pq|
  {
    t :| t in pq;
    var rest := pq - multiset{t};
    if |rest| > 0 {
      var u := LeastExists(rest, leq);
      if leq(u, t) {
        t := u;
      }
    }
    assert forall s :: s in pq ==> s in rest || s in pq - rest;
  }

  method PopLeast<T(==, !new)>(pq: multiset<T>, leq: (T, T) -> bool) returns (t: T, rest: multiset<T>)
    requires |pq| > 0 && IsTotalOrder(leq)
    ensures t in pq && (forall s :: s in pq ==> leq(t, s)) && rest == pq - multiset{t}
  {
    ghost var least := LeastExists(pq, leq);
    t :| t in pq && forall s :: s in pq ==> leq(t, s);
    rest := pq - multiset{t};
  }
}
