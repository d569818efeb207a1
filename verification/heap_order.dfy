/** The ordering a heap is built over: a comparator in the style of
    `java.util.Comparator`, negative for "less", zero for "equal",
    positive for "greater". */
module HeapOrder {

  /** Swapping the arguments flips the sign of the comparison. */
  ghost predicate SignFlips<P>(cmp: (P, P) -> int, a: P, b: P) {
    cmp(a, b) < 0 <==> cmp(b, a) > 0
  }

  /** "Compares at most" is transitive through `b`. */
  ghost predicate AtMostChains<P>(cmp: (P, P) -> int, a: P, b: P, c: P) {
    cmp(a, b) <= 0 && cmp(b, c) <= 0 ==> cmp(a, c) <= 0
  }

  /** The part of the comparator contract the heap relies on. Together the
      two halves make `cmp(a, b) <= 0` a total preorder. */
  ghost predicate Comparator<P(!new)>(cmp: (P, P) -> int) {
    && (forall a, b :: SignFlips(cmp, a, b))
    && (forall a, b, c :: AtMostChains(cmp, a, b, c))
  }

  /** An element that does not compare below another compares at most it
      the other way round. */
  lemma NotBelow<P(!new)>(cmp: (P, P) -> int, a: P, b: P)
    requires Comparator(cmp)
    requires !(cmp(a, b) < 0)
    ensures cmp(b, a) <= 0
  {
    assert SignFlips(cmp, a, b);
  }

  lemma Reflexive<P(!new)>(cmp: (P, P) -> int, a: P)
    requires Comparator(cmp)
    ensures cmp(a, a) == 0
  {
    assert SignFlips(cmp, a, a);
  }

  lemma Transitive<P(!new)>(cmp: (P, P) -> int, a: P, b: P, c: P)
    requires Comparator(cmp)
    requires cmp(a, b) <= 0 && cmp(b, c) <= 0
    ensures cmp(a, c) <= 0
  {
    assert AtMostChains(cmp, a, b, c);
  }

  /** The natural ascending order on integers, as `Integer.compare` gives it. */
  function IntCompare(a: int, b: int): (r: int)
    ensures r < 0 <==> a < b
    ensures r == 0 <==> a == b
  {
    if a < b then -1 else if a == b then 0 else 1
  }

  lemma IntCompareIsComparator()
    ensures Comparator(IntCompare)
  {
  }
}
