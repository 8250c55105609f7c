/** array_sort and the position pick of array_median.

    array_sort deconstructs the array into datums, sorts them with qsort
    under arraySortCmp (or arrayRSortCmp for reverse order), and recomputes
    every null flag as "the datum is zero". A null element's datum is zero,
    and so is the datum of any pass-by-value element whose value is encoded
    as the datum 0 (integer 0, float 0.0, boolean false, the date
    2000-01-01, ...): both are `None` here. Which values encode as zero is a
    parameter, `isZero`. */
module Sort {
  import opened Values
  import opened Storage
  import opened Order

  /** arraySortCmp: a zero datum sorts before everything, checked on the
      left argument first; two non-zero datums are compared by `cmp`. */
  function ArraySortCmp<T>(cmp: (T, T) -> int, da: Option<T>, db: Option<T>): (r: int)
    ensures da.None? ==> r == -1
    ensures da.Some? && db.None? ==> r == 1
    ensures da.Some? && db.Some? ==> r == cmp(da.value, db.value)
  {
    if da.None? then -1
    else if db.None? then 1
    else cmp(da.value, db.value)
  }

  /** arrayRSortCmp: arraySortCmp with its arguments swapped. */
  function ArrayRSortCmp<T>(cmp: (T, T) -> int, da: Option<T>, db: Option<T>): (r: int)
    ensures db.None? ==> r == -1
    ensures db.Some? && da.None? ==> r == 1
    ensures da.Some? && db.Some? ==> r == cmp(db.value, da.value)
  {
    ArraySortCmp(cmp, db, da)
  }

  /** The comparator array_sort hands to qsort. */
  function DatumCmp<T>(cmp: (T, T) -> int, reverse: bool, da: Option<T>, db: Option<T>): int
  {
    if reverse then ArrayRSortCmp(cmp, da, db) else ArraySortCmp(cmp, da, db)
  }

  /** `da` may stand before `db` in qsort's output. */
  predicate InOrder<T>(cmp: (T, T) -> int, reverse: bool, da: Option<T>, db: Option<T>)
  {
    DatumCmp(cmp, reverse, da, db) <= 0
  }

  predicate SortedBy<T>(s: seq<Option<T>>, cmp: (T, T) -> int, reverse: bool)
  {
    forall i, j :: 0 <= i < j < |s| ==> InOrder(cmp, reverse, s[i], s[j])
  }

  /** For a valid element comparator, the datum order in either direction is
      total and transitive, though it is not antisymmetric on two zero
      datums (each compares below the other). */
  lemma DatumOrderTotal<T(!new)>(cmp: (T, T) -> int, reverse: bool, da: Option<T>, db: Option<T>)
    requires ValidComparator(cmp)
    ensures InOrder(cmp, reverse, da, db) || InOrder(cmp, reverse, db, da)
  {
  }

  lemma DatumOrderTransitive<T(!new)>(cmp: (T, T) -> int, reverse: bool, da: Option<T>, db: Option<T>, dc: Option<T>)
    requires ValidComparator(cmp)
    requires InOrder(cmp, reverse, da, db) && InOrder(cmp, reverse, db, dc)
    ensures InOrder(cmp, reverse, da, dc)
  {
  }

  /** Two zero datums each compare below the other, in either direction,
      so a zero datum compares below itself: the comparator handed to qsort
      is not a consistent ordering once two elements are null or zero. */
  lemma ZeroDatumBelowItself<T>(cmp: (T, T) -> int, reverse: bool)
    ensures DatumCmp(cmp, reverse, None, None) == -1
    ensures DatumCmp(cmp, !reverse, None, None) == -1
  {
  }

  /** Exchanges two slots of qsort's buffer. */
  method Swap<T>(a: array<Option<T>>, i: int, j: int)
    requires 0 <= i < a.Length && 0 <= j < a.Length
    modifies a
    ensures a[..] == old(a[..])[i := old(a[j])][j := old(a[i])]
    ensures multiset(a[..]) == multiset(old(a[..]))
  {
    a[i], a[j] := a[j], a[i];
  }

  /** Sinks a[i] into the sorted prefix a[..i]. */
  method InsertInto<T(!new)>(a: array<Option<T>>, i: int, cmp: (T, T) -> int, reverse: bool)
    requires ValidComparator(cmp)
    requires 0 <= i < a.Length && SortedBy(a[..i], cmp, reverse)
    modifies a
    ensures SortedBy(a[..i + 1], cmp, reverse)
    ensures multiset(a[..]) == multiset(old(a[..]))
    ensures a[i + 1..] == old(a[i + 1..])
  {
    var j := i;
    while j > 0 && DatumCmp(cmp, reverse, a[j - 1], a[j]) > 0
      invariant 0 <= j <= i
      invariant multiset(a[..]) == multiset(old(a[..]))
      invariant a[i + 1..] == old(a[i + 1..])
      invariant forall p, q :: 0 <= p < q <= i && p != j && q != j ==> InOrder(cmp, reverse, a[p], a[q])
      invariant forall q :: j < q <= i ==> InOrder(cmp, reverse, a[j], a[q])
    {
      DatumOrderTotal(cmp, reverse, a[j - 1], a[j]);
      Swap(a, j - 1, j);
      j := j - 1;
    }
    forall p, q | 0 <= p < q <= i
      ensures InOrder(cmp, reverse, a[p], a[q])
    {
      if q == j && p < j - 1 {
        DatumOrderTransitive(cmp, reverse, a[p], a[j - 1], a[j]);
      }
    }
  }

  /** The qsort call of array_sort, as an insertion sort: afterwards the
      buffer is ordered by the datum comparator and holds the same datums. */
  method QSort<T(!new)>(a: array<Option<T>>, cmp: (T, T) -> int, reverse: bool)
    requires ValidComparator(cmp)
    modifies a
    ensures SortedBy(a[..], cmp, reverse)
    ensures multiset(a[..]) == multiset(old(a[..]))
  {
    var i := 0;
    while i < a.Length
      invariant 0 <= i <= a.Length
      invariant SortedBy(a[..i], cmp, reverse)
      invariant multiset(a[..]) == multiset(old(a[..]))
    {
      InsertInto(a, i, cmp, reverse);
      i := i + 1;
    }
    assert a[..a.Length] == a[..];
  }

  /** The datum deconstruct_array yields for an element. */
  function ToDatum<T>(e: Option<T>, isZero: T -> bool): (d: Option<T>)
    ensures d.Some? <==> e.Some? && !isZero(e.value)
    ensures d.Some? ==> d == e
  {
    if e.Some? && !isZero(e.value) then e else None
  }

  function Datums<T>(items: seq<Option<T>>, isZero: T -> bool): (r: seq<Option<T>>)
    ensures |r| == |items| && forall i :: 0 <= i < |r| ==> r[i] == ToDatum(items[i], isZero)
  {
    seq(|items|, i requires 0 <= i < |items| => ToDatum(items[i], isZero))
  }

  /** What array_sort promises of a one-dimensional, non-empty array: a
      one-dimensional result holding the array's datums, rearranged into the
      comparator's order. */
  ghost predicate SortOutcome<T>(items: seq<Option<T>>, out: ArrayValue<T>, cmp: (T, T) -> int, isZero: T -> bool, reverse: bool)
  {
    && out.ndim == 1
    && |out.items| == |items|
    && multiset(out.items) == multiset(Datums(items, isZero))
    && SortedBy(out.items, cmp, reverse)
  }

  /** array_sort: a zero-dimensional or empty array is returned as it is; a
      one-dimensional one is sorted. */
  method ArraySort<T(!new)>(arr: Stored<T>, cmp: (T, T) -> int, isZero: T -> bool, reverse: bool)
    returns (r: Result<ArrayValue<T>, Error>)
    requires WellFormed(arr) && ValidComparator(cmp)
    ensures arr.ndim == 0 || (arr.ndim == 1 && arr.nitems == 0) ==> r == Success(Logical(arr))
    ensures arr.ndim > 1 ==> r == Failure(OnlyOneDimensional)
    ensures arr.ndim == 1 && arr.nitems > 0 ==> r.Success? && SortOutcome(Items(arr), r.value, cmp, isZero, reverse)
  {
    if arr.ndim == 0 {
      return Success(Logical(arr));
    }
    if arr.ndim > 1 {
      return Failure(OnlyOneDimensional);
    }
    if arr.nitems == 0 {
      return Success(Logical(arr));
    }
    var datums := Datums(Items(arr), isZero);
    var elems := new Option<T>[|datums|];
    var k := 0;
    while k < elems.Length
      invariant 0 <= k <= elems.Length
      invariant forall m :: 0 <= m < k ==> elems[m] == datums[m]
    {
      elems[k] := datums[k];
      k := k + 1;
    }
    assert elems[..] == datums;
    QSort(elems, cmp, reverse);
    ghost var sorted := elems[..];
    assert multiset(sorted) == multiset(datums);
    var nulls := new bool[elems.Length];
    var i := 0;
    while i < elems.Length
      modifies nulls
      invariant 0 <= i <= elems.Length
      invariant forall m :: 0 <= m < i ==> nulls[m] == elems[m].None?
    {
      nulls[i] := elems[i].None?;
      i := i + 1;
    }
    var items := Assemble(elems[..], nulls[..]);
    assert elems[..] == sorted;
    assert items == elems[..];
    return Success(ArrayValue(1, items));
  }

  /** construct_md_array: a position flagged null holds no value. */
  function Assemble<T>(elems: seq<Option<T>>, nulls: seq<bool>): (r: seq<Option<T>>)
    requires |nulls| == |elems|
    ensures |r| == |elems|
    ensures forall i :: 0 <= i < |r| ==> (nulls[i] ==> r[i].None?) && (!nulls[i] ==> r[i] == elems[i])
  {
    seq(|elems|, i requires 0 <= i < |elems| => if nulls[i] then None else elems[i])
  }

  lemma CountHead<X>(s: seq<X>, x: X)
    requires |s| > 0
    ensures multiset(s)[x] == (if s[0] == x then 1 else 0) + multiset(s[1..])[x]
  {
    assert s == [s[0]] + s[1..];
  }

  lemma DatumsTail<T>(items: seq<Option<T>>, isZero: T -> bool)
    requires |items| > 0
    ensures Datums(items, isZero)[1..] == Datums(items[1..], isZero)
  {
  }

  /** Deconstruction keeps every non-zero value with its multiplicity and
      drops the values whose datum is zero (they become zero datums). */
  lemma {:induction false} DatumsKeepNonZero<T>(items: seq<Option<T>>, isZero: T -> bool, v: T)
    ensures multiset(Datums(items, isZero))[Some(v)] == if isZero(v) then 0 else multiset(items)[Some(v)]
  {
    if items != [] {
      DatumsKeepNonZero(items[1..], isZero, v);
      DatumsTail(items, isZero);
      CountHead(Datums(items, isZero), Some(v));
      CountHead(items, Some(v));
    }
  }

  /** array_sort's output holds each value that is not encoded as zero as
      often as the input does, and no value encoded as zero: such a value is
      emitted as null, and its position is kept, since the length is kept. */
  lemma SortKeepsNonZeroValues<T>(items: seq<Option<T>>, out: ArrayValue<T>, cmp: (T, T) -> int, isZero: T -> bool, reverse: bool, v: T)
    requires SortOutcome(items, out, cmp, isZero, reverse)
    ensures |out.items| == |items|
    ensures multiset(out.items)[Some(v)] == if isZero(v) then 0 else multiset(items)[Some(v)]
  {
    DatumsKeepNonZero(items, isZero, v);
  }

  /** In ascending order every null precedes every value. */
  lemma NullsFirstAscending<T>(s: seq<Option<T>>, cmp: (T, T) -> int, i: int, j: int)
    requires SortedBy(s, cmp, false) && 0 <= i < j < |s| && s[j].None?
    ensures s[i].None?
  {
    assert InOrder(cmp, false, s[i], s[j]);
  }

  /** In reverse order, arrayRSortCmp swaps the arguments of arraySortCmp,
      whose null test is on its left argument: every value precedes every
      null, so nulls come last. */
  lemma NullsLastReverse<T>(s: seq<Option<T>>, cmp: (T, T) -> int, i: int, j: int)
    requires SortedBy(s, cmp, true) && 0 <= i < j < |s| && s[i].None?
    ensures s[j].None?
  {
    assert InOrder(cmp, true, s[i], s[j]);
  }

  /** Values are ordered by cmp(a, b), or by cmp(b, a) in reverse order. */
  lemma ValuesOrdered<T>(s: seq<Option<T>>, cmp: (T, T) -> int, reverse: bool, i: int, j: int)
    requires SortedBy(s, cmp, reverse) && 0 <= i < j < |s| && s[i].Some? && s[j].Some?
    ensures if reverse then cmp(s[j].value, s[i].value) <= 0 else cmp(s[i].value, s[j].value) <= 0
  {
    assert InOrder(cmp, reverse, s[i], s[j]);
  }

  /** Two datums each in order before the other are the same datum when the
      comparator only ties on equal values. */
  lemma MutualOrderEqual<T(!new)>(cmp: (T, T) -> int, reverse: bool, da: Option<T>, db: Option<T>)
    requires ValidComparator(cmp) && (forall a, b :: cmp(a, b) == 0 ==> a == b)
    requires InOrder(cmp, reverse, da, db) && InOrder(cmp, reverse, db, da)
    ensures da == db
  {
  }

  /** Two ordered arrangements of one non-empty multiset start with the same
      datum when the comparator only ties on equal values. */
  lemma HeadsEqual<T(!new)>(s: seq<Option<T>>, t: seq<Option<T>>, cmp: (T, T) -> int, reverse: bool)
    requires ValidComparator(cmp) && (forall a, b :: cmp(a, b) == 0 ==> a == b)
    requires SortedBy(s, cmp, reverse) && SortedBy(t, cmp, reverse)
    requires multiset(s) == multiset(t) && |s| > 0
    ensures |t| > 0 && s[0] == t[0]
  {
    assert s[0] in multiset(t);
    var k :| 0 <= k < |t| && t[k] == s[0];
    assert t[0] in multiset(s);
    var m :| 0 <= m < |s| && s[m] == t[0];
    if k != 0 {
      assert InOrder(cmp, reverse, t[0], t[k]);
    }
    if m != 0 {
      assert InOrder(cmp, reverse, s[0], s[m]);
    }
    MutualOrderEqual(cmp, reverse, s[0], t[0]);
  }

  lemma SortedTail<T>(s: seq<Option<T>>, cmp: (T, T) -> int, reverse: bool)
    requires SortedBy(s, cmp, reverse) && |s| > 0
    ensures SortedBy(s[1..], cmp, reverse)
  {
  }

  /** When the comparator only ties on equal values, the ordered arrangement
      of a multiset is unique. */
  lemma {:induction false} SortedPermutationUnique<T(!new)>(s: seq<Option<T>>, t: seq<Option<T>>, cmp: (T, T) -> int, reverse: bool)
    requires ValidComparator(cmp) && (forall a, b :: cmp(a, b) == 0 ==> a == b)
    requires SortedBy(s, cmp, reverse) && SortedBy(t, cmp, reverse)
    requires multiset(s) == multiset(t)
    ensures s == t
    decreases |s|
  {
    if s == [] {
      assert |t| == |multiset(t)| == 0;
    } else {
      HeadsEqual(s, t, cmp, reverse);
      assert s == [s[0]] + s[1..] && t == [t[0]] + t[1..];
      assert multiset(s[1..]) == multiset(t[1..]) by {
        assert multiset(s[1..]) == multiset(s) - multiset{s[0]};
        assert multiset(t[1..]) == multiset(t) - multiset{t[0]};
      }
      SortedTail(s, cmp, reverse);
      SortedTail(t, cmp, reverse);
      SortedPermutationUnique(s[1..], t[1..], cmp, reverse);
    }
  }

  /** Sorting an array whose elements are already in order, none of them
      encoded as zero, gives back the same elements. */
  lemma SortIdempotent<T(!new)>(items: seq<Option<T>>, out: ArrayValue<T>, cmp: (T, T) -> int, isZero: T -> bool, reverse: bool)
    requires ValidComparator(cmp) && (forall a, b :: cmp(a, b) == 0 ==> a == b)
    requires SortedBy(items, cmp, reverse)
    requires forall i :: 0 <= i < |items| && items[i].Some? ==> !isZero(items[i].value)
    requires SortOutcome(items, out, cmp, isZero, reverse)
    ensures out.items == items
  {
    assert Datums(items, isZero) == items;
    SortedPermutationUnique(out.items, items, cmp, reverse);
  }

  /** The value array_median reads: one element for an odd count, two for an
      even count. */
  datatype MedianPick<T> = Middle(middle: Option<T>) | Pair(upper: Option<T>, lower: Option<T>)

  /** array_median's pick from the ascending sort: 1-based position (n+1)/2
      for an odd count n, positions n/2+1 and n/2 for an even count. */
  function MedianOf<T>(s: seq<Option<T>>): (r: MedianPick<T>)
    requires |s| > 0
    ensures r.Middle? <==> |s| % 2 == 1
    ensures r.Middle? ==> r.middle == s[|s| / 2]
    ensures r.Pair? ==> r.upper == s[|s| / 2] && r.lower == s[|s| / 2 - 1]
  {
    var n := |s|;
    if n % 2 == 1 then Middle(s[(n + 1) / 2 - 1])
    else Pair(s[n / 2 + 1 - 1], s[n / 2 - 1])
  }

  /** The pick splits the sorted array evenly: as many elements stand before
      the middle (or the lower of the pair) as after the middle (or the upper
      of the pair); the ones before are in order before it and the ones after
      in order after it. */
  lemma MedianBalanced<T>(s: seq<Option<T>>, cmp: (T, T) -> int, k: int)
    requires |s| > 0 && SortedBy(s, cmp, false)
    requires k == (|s| - 1) / 2
    ensures |s| % 2 == 1 ==> k == |s| - 1 - k && MedianOf(s) == Middle(s[k])
    ensures |s| % 2 == 0 ==> k + 1 < |s| && k == |s| - 1 - (k + 1) && MedianOf(s) == Pair(s[k + 1], s[k])
    ensures forall i :: 0 <= i < k ==> InOrder(cmp, false, s[i], s[k])
    ensures forall i :: k < i < |s| ==> InOrder(cmp, false, s[k], s[i])
  {
  }

  /** array_median up to the float cast: sort ascending, then pick.
      `sorted` is the ascending sort the pick is read from. */
  method ArrayMedian<T(!new)>(arr: Stored<T>, cmp: (T, T) -> int, isZero: T -> bool)
    returns (r: Result<Option<MedianPick<T>>, Error>, ghost sorted: seq<Option<T>>)
    requires WellFormed(arr) && ValidComparator(cmp)
    ensures arr.ndim == 0 || (arr.ndim == 1 && arr.nitems == 0) ==> r == Success(None)
    ensures arr.ndim > 1 ==> r == Failure(OnlyOneDimensional)
    ensures arr.ndim == 1 && arr.nitems > 0 ==>
      && SortOutcome(Items(arr), ArrayValue(1, sorted), cmp, isZero, false)
      && |sorted| == arr.nitems
      && r == Success(Some(MedianOf(sorted)))
  {
    var res := ArraySort(arr, cmp, isZero, false);
    if res.Failure? {
      return Failure(res.error), [];
    }
    var a := res.value;
    sorted := a.items;
    if a.ndim == 0 {
      return Success(None), sorted;
    }
    var n := |a.items|;
    if n == 0 {
      return Success(None), sorted;
    }
    if n % 2 == 1 {
      var idx := (n + 1) / 2;
      r := Success(Some(Middle(a.items[idx - 1])));
    } else {
      var idx0 := n / 2 + 1;
      var idx1 := n / 2;
      r := Success(Some(Pair(a.items[idx0 - 1], a.items[idx1 - 1])));
    }
  }
}
