/** The engine instantiated at int4: the comparator, "+", the zero value
    and a stored array [3, NULL, 1, 2], with the results the engine gives
    for them. */
module IntInstances {
  import opened Values
  import opened Storage
  import opened Order
  import opened Broadcast
  import opened Reduce
  import opened Sort

  /** btint4cmp. */
  function IntCmp(a: int, b: int): (r: int)
    ensures r < 0 <==> a < b
    ensures r > 0 <==> a > b
  {
    if a < b then -1 else if a > b then 1 else 0
  }

  /** An int4 datum is zero exactly for the value 0. */
  predicate IntIsZero(v: int)
  {
    v == 0
  }

  lemma IntCmpValid()
    ensures ValidComparator(IntCmp)
    ensures forall a, b :: IntCmp(a, b) == 0 ==> a == b
  {
  }

  /** [3, NULL, 1, 2]: bits 0, 2 and 3 of the bitmap are set. */
  function Sample(): Stored<int>
  {
    Stored(1, 4, [3, 1, 2], Some([0x0D]))
  }

  lemma SampleItems()
    ensures WellFormed(Sample())
    ensures Items(Sample()) == [Some(3), None, Some(1), Some(2)]
  {
    var st := Sample();
    assert Present(st, 0) && !Present(st, 1) && Present(st, 2) && Present(st, 3);
    assert NonNullBefore(st, 4) == 3;
    assert WellFormed(st);
    assert ItemAt(st, 3) == Some(2);
  }

  /** sum of [3, NULL, 1, 2] is 6: the null is skipped. */
  lemma SampleSum()
    ensures WellFormed(Sample())
    ensures ArraySum(Sample(), Int4, 0, Add) == Success(Some(6))
  {
    SampleItems();
    ArraySumOfIntegers(Sample(), Int4);
  }

  /** avg of [3, NULL, 1, 2] divides 6 by 4, not by 3. */
  lemma SampleAverageOperands()
    ensures WellFormed(Sample())
    ensures AvgOperands(Sample(), Int4, 0, Add) == Success(Some((6, 4)))
  {
    SampleItems();
    SumFoldIsIntSum(Items(Sample()), 0);
  }

  /** In [3, NULL, 1, 2] the scan for the minimum stops at 1 and the scan
      for the maximum at 3. */
  lemma SampleExtremes()
    ensures ExtremeAt([Some(3), None, Some(1), Some(2)], IntCmp, -1, 2)
    ensures ExtremeAt([Some(3), None, Some(1), Some(2)], IntCmp, 1, 0)
  {
  }

  /** min of [3, NULL, 1, 2] is 1, whichever result the scan returns that
      meets its contract. */
  lemma SampleMin(r: Result<Option<int>, Error>)
    requires WellFormed(Sample())
    requires MinMaxOutcome(Sample(), IntCmp, -1, r)
    ensures r == Success(Some(1))
  {
    SampleItems();
    SampleExtremes();
    var xs := Items(Sample());
    var k :| ExtremeAt(xs, IntCmp, -1, k) && xs[k] == r.value;
    ExtremeAtUnique(xs, IntCmp, -1, k, 2);
  }

  /** max of [3, NULL, 1, 2] is 3. */
  lemma SampleMax(r: Result<Option<int>, Error>)
    requires WellFormed(Sample())
    requires MinMaxOutcome(Sample(), IntCmp, 1, r)
    ensures r == Success(Some(3))
  {
    SampleItems();
    SampleExtremes();
    var xs := Items(Sample());
    var k :| ExtremeAt(xs, IntCmp, 1, k) && xs[k] == r.value;
    ExtremeAtUnique(xs, IntCmp, 1, k, 0);
  }

  lemma SampleDatums()
    ensures WellFormed(Sample())
    ensures Datums(Items(Sample()), IntIsZero) == [Some(3), None, Some(1), Some(2)]
  {
    SampleItems();
  }

  lemma AscendingSampleSorted()
    ensures SortedBy([None, Some(1), Some(2), Some(3)], IntCmp, false)
    ensures multiset([None, Some(1), Some(2), Some(3)]) == multiset([Some(3), None, Some(1), Some(2)])
  {
  }

  lemma DescendingSampleSorted()
    ensures SortedBy([Some(3), Some(2), Some(1), None], IntCmp, true)
    ensures multiset([Some(3), Some(2), Some(1), None]) == multiset([Some(3), None, Some(1), Some(2)])
  {
  }

  /** Ascending sort of [3, NULL, 1, 2] is [NULL, 1, 2, 3]. */
  lemma SampleSortAscending(out: ArrayValue<int>)
    requires WellFormed(Sample())
    requires SortOutcome(Items(Sample()), out, IntCmp, IntIsZero, false)
    ensures out.items == [None, Some(1), Some(2), Some(3)]
  {
    SampleDatums();
    IntCmpValid();
    AscendingSampleSorted();
    var expected := [None, Some(1), Some(2), Some(3)];
    SortedPermutationUnique(out.items, expected, IntCmp, false);
  }

  /** Reverse sort of [3, NULL, 1, 2] is [3, 2, 1, NULL]: the null comes
      last, not first. */
  lemma SampleSortReverse(out: ArrayValue<int>)
    requires WellFormed(Sample())
    requires SortOutcome(Items(Sample()), out, IntCmp, IntIsZero, true)
    ensures out.items == [Some(3), Some(2), Some(1), None]
  {
    SampleDatums();
    IntCmpValid();
    DescendingSampleSorted();
    var expected := [Some(3), Some(2), Some(1), None];
    SortedPermutationUnique(out.items, expected, IntCmp, true);
  }

  /** Sorting [2, 0] gives [NULL, 2]: the value 0 comes back as a null. */
  lemma ZeroSortsToNull(out: ArrayValue<int>)
    requires SortOutcome([Some(2), Some(0)], out, IntCmp, IntIsZero, false)
    ensures out.items == [None, Some(2)]
  {
    IntCmpValid();
    var expected: seq<Option<int>> := [None, Some(2)];
    assert Datums([Some(2), Some(0)], IntIsZero) == [Some(2), None];
    assert multiset(expected) == multiset([Some(2), None]);
    SortedPermutationUnique(out.items, expected, IntCmp, false);
  }

  /** [1, 2, 3] + [10, 20] broadcasts the shorter array: [11, 22, 13]. */
  lemma BroadcastSample()
    ensures OperArray(Stored(1, 3, [1, 2, 3], None), Some(Add), Stored(1, 2, [10, 20], None))
      == Success(Produced(ArrayValue(1, [Some(11), Some(22), Some(13)])))
  {
    var a := Stored(1, 3, [1, 2, 3], None);
    var b := Stored(1, 2, [10, 20], None);
    assert NonNullBefore(a, 3) == 3 && NonNullBefore(b, 2) == 2;
    assert Items(a) == [Some(1), Some(2), Some(3)];
    assert Items(b) == [Some(10), Some(20)];
    var r := BroadcastItems(Items(a), Items(b), Add);
    assert r[0] == Some(11) && r[1] == Some(22) && r[2] == Some(13);
    assert r == [Some(11), Some(22), Some(13)];
  }

  /** [1, 2, NULL, 4] + 10 keeps the null and adds the scalar elsewhere:
      [11, 12, NULL, 14]. */
  lemma ScalarSample()
    ensures OperElem(Stored(1, 4, [1, 2, 4], Some([0x0B])), Some(Add), 10)
      == Success(ArrayValue(1, [Some(11), Some(12), None, Some(14)]))
  {
    var a := Stored(1, 4, [1, 2, 4], Some([0x0B]));
    assert Present(a, 0) && Present(a, 1) && !Present(a, 2) && Present(a, 3);
    assert NonNullBefore(a, 4) == 3;
    assert ItemAt(a, 3) == Some(4);
    var xs: seq<Option<int>> := [Some(1), Some(2), None, Some(4)];
    assert Items(a) == xs;
    var r := MapScalar(xs, 10, Add);
    assert r[0] == Some(Add(1, 10)) && r[1] == Some(Add(2, 10)) && r[3] == Some(Add(4, 10));
    assert r == [Some(11), Some(12), None, Some(14)];
  }

  /** The median of [1, 2, 3] reads the middle element 2; that of
      [1, 2, 3, 4] reads 3 and 2. */
  lemma MedianSample()
    ensures MedianOf([Some(1), Some(2), Some(3)]) == Middle(Some(2))
    ensures MedianOf([Some(1), Some(2), Some(3), Some(4)]) == Pair(Some(3), Some(2))
  {
  }
}
