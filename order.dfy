/** The three-way comparator of an element type (the btree comparison
    procedure found in the type cache): negative, zero or positive as the
    first argument is less than, equal to or greater than the second. */
module Order {

  /** What the engine relies on from a comparator: swapping the arguments
      swaps "less" and "greater", and "not greater" is transitive. */
  ghost predicate ValidComparator<T(!new)>(cmp: (T, T) -> int)
  {
    && (forall a, b :: cmp(a, b) < 0 <==> cmp(b, a) > 0)
    && (forall a, b, c :: cmp(a, b) <= 0 && cmp(b, c) <= 0 ==> cmp(a, c) <= 0)
  }

  /** Strictly less, then not greater, is strictly less. */
  lemma LessThenNotGreater<T(!new)>(cmp: (T, T) -> int, a: T, b: T, c: T)
    requires ValidComparator(cmp)
    requires cmp(a, b) < 0 && cmp(b, c) <= 0
    ensures cmp(a, c) < 0
  {
  }

  /** Not greater, then strictly less, is strictly less. */
  lemma NotGreaterThenLess<T(!new)>(cmp: (T, T) -> int, a: T, b: T, c: T)
    requires ValidComparator(cmp)
    requires cmp(a, b) <= 0 && cmp(b, c) < 0
    ensures cmp(a, c) < 0
  {
  }
}
