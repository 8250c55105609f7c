/** Reductions of a one-dimensional array: sum (arraymath_sum, array_sum),
    the operands of the average (array_avg), and minimum / maximum
    (arraymath_minmax, array_min, array_max). */
module Reduce {
  import opened Values
  import opened Storage
  import opened Order

  /** The element types the engine tells apart when summing. */
  datatype ElemType = Int2 | Int4 | Int8 | Float4 | Float8 | Numeric | OtherType(oid: nat)

  /** arraymath_zero: the fold seed. Integers and floats store zero in the
      datum itself and numeric builds a zero value; `typeZero` stands for
      that value. Any other type is refused. */
  function ArraymathZero<T>(ty: ElemType, typeZero: T): (r: Result<T, Error>)
    ensures r.Success? <==> !ty.OtherType?
    ensures r.Failure? ==> r.error == UnsupportedSumType
    ensures r.Success? ==> r.value == typeZero
  {
    if ty.OtherType? then Failure(UnsupportedSumType) else Success(typeZero)
  }

  /** The fold of arraymath_sum: v := plus(elem, v) for each non-null
      element in order, the element as the left operand; nulls are skipped. */
  function SumFold<T>(xs: seq<Option<T>>, v: T, plus: (T, T) -> T): (r: T)
    ensures (forall i :: 0 <= i < |xs| ==> xs[i].None?) ==> r == v
  {
    if xs == [] then v
    else SumFold(xs[1..], if xs[0].Some? then plus(xs[0].value, v) else v, plus)
  }

  /** arraymath_sum: look up the seed, then fold over the elements as the
      array iterator yields them. */
  method ArraymathSum<T>(vals: Stored<T>, ty: ElemType, typeZero: T, plus: (T, T) -> T)
    returns (r: Result<T, Error>)
    requires WellFormed(vals)
    ensures r.Failure? <==> ty.OtherType?
    ensures r.Failure? ==> r.error == UnsupportedSumType
    ensures r.Success? ==> r.value == SumFold(Items(vals), typeZero, plus)
  {
    var zero := ArraymathZero(ty, typeZero);
    if zero.Failure? {
      return Failure(zero.error);
    }
    var items := Items(vals);
    var v := zero.value;
    var i := 0;
    while i < |items|
      invariant 0 <= i <= |items|
      invariant SumFold(items[i..], v, plus) == SumFold(items, typeZero, plus)
    {
      assert items[i..][1..] == items[i + 1..];
      if items[i].Some? {
        v := plus(items[i].value, v);
      }
      i := i + 1;
    }
    assert items[i..] == [];
    return Success(v);
  }

  /** array_sum. The seed is looked up before the dimensions are examined,
      so an unsupported type is an error even for a zero-dimensional array.
      A zero-dimensional array sums to null, a one-dimensional empty one to
      the seed. */
  function ArraySum<T>(vals: Stored<T>, ty: ElemType, typeZero: T, plus: (T, T) -> T)
    : (r: Result<Option<T>, Error>)
    requires WellFormed(vals)
    ensures ty.OtherType? ==> r == Failure(UnsupportedSumType)
    ensures !ty.OtherType? && vals.ndim == 0 ==> r == Success(None)
    ensures !ty.OtherType? && vals.ndim > 1 ==> r == Failure(OnlyOneDimensional)
    ensures !ty.OtherType? && vals.ndim == 1 ==> r == Success(Some(SumFold(Items(vals), typeZero, plus)))
  {
    var zero := ArraymathZero(ty, typeZero);
    if zero.Failure? then Failure(zero.error)
    else if vals.ndim == 0 then Success(None)
    else if vals.ndim > 1 then Failure(OnlyOneDimensional)
    else if vals.nitems > 0 then Success(Some(SumFold(Items(vals), zero.value, plus)))
    else Success(Some(zero.value))
  }

  /** What array_avg divides: the sum of the non-null elements and the
      number of elements, nulls included (the float8 cast and the division
      are not modelled). None is a null result. */
  function AvgOperands<T>(vals: Stored<T>, ty: ElemType, typeZero: T, plus: (T, T) -> T)
    : (r: Result<Option<(T, nat)>, Error>)
    requires WellFormed(vals)
    ensures vals.ndim == 0 || (vals.ndim == 1 && vals.nitems == 0) ==> r == Success(None)
    ensures vals.ndim > 1 ==> r == Failure(OnlyOneDimensional)
    ensures vals.ndim == 1 && vals.nitems > 0 && ty.OtherType? ==> r == Failure(UnsupportedSumType)
    ensures vals.ndim == 1 && vals.nitems > 0 && !ty.OtherType? ==>
      r == Success(Some((SumFold(Items(vals), typeZero, plus), vals.nitems)))
  {
    if vals.ndim == 0 then Success(None)
    else if vals.ndim > 1 then Failure(OnlyOneDimensional)
    else if vals.nitems == 0 then Success(None)
    else
      var zero := ArraymathZero(ty, typeZero);
      if zero.Failure? then Failure(zero.error)
      else Success(Some((SumFold(Items(vals), zero.value, plus), vals.nitems)))
  }

  /** The replacement test of arraymath_minmax: mode < 0 keeps a strictly
      smaller element, mode > 0 a strictly greater one. */
  predicate Better<T>(cmp: (T, T) -> int, mode: int, x: T, y: T): (b: bool)
    ensures b <==> mode != 0 && cmp(x, y) != 0 && (cmp(x, y) < 0 <==> mode < 0)
  {
    (mode < 0 && cmp(x, y) < 0) || (mode > 0 && cmp(x, y) > 0)
  }

  /** Element k is the result of a scan: it is not null, no non-null
      element is better than it, and it is better than every non-null
      element before it (ties keep the earliest occurrence). */
  ghost predicate ExtremeAt<T>(xs: seq<Option<T>>, cmp: (T, T) -> int, mode: int, k: int)
  {
    && 0 <= k < |xs| && xs[k].Some?
    && (forall j :: 0 <= j < |xs| && xs[j].Some? ==> !Better(cmp, mode, xs[j].value, xs[k].value))
    && (forall j :: 0 <= j < k && xs[j].Some? ==> Better(cmp, mode, xs[k].value, xs[j].value))
  }

  /** arraymath_minmax: a left-to-right scan over the non-null elements; the
      first one seeds the result, a later one replaces it only when it is
      strictly better. An array without a non-null element gives None. */
  method ArraymathMinMax<T(!new)>(xs: seq<Option<T>>, cmp: (T, T) -> int, mode: int) returns (r: Option<T>)
    requires ValidComparator(cmp)
    ensures r.None? <==> forall i :: 0 <= i < |xs| ==> xs[i].None?
    ensures r.Some? ==> exists k :: ExtremeAt(xs, cmp, mode, k) && xs[k] == r
  {
    var first := true;
    ghost var best := -1;
    r := None;
    var i := 0;
    while i < |xs|
      invariant 0 <= i <= |xs|
      invariant first <==> r.None?
      invariant first <==> forall j :: 0 <= j < i ==> xs[j].None?
      invariant !first ==> 0 <= best < i && xs[best] == r
      invariant !first ==> forall j :: 0 <= j < i && xs[j].Some? ==> !Better(cmp, mode, xs[j].value, r.value)
      invariant !first ==> forall j :: 0 <= j < best && xs[j].Some? ==> Better(cmp, mode, r.value, xs[j].value)
      invariant first ==> best == -1
    {
      var elem := xs[i];
      if elem.None? {
        i := i + 1;
        continue;
      }
      if first {
        r := elem;
        best := i;
        first := false;
        i := i + 1;
        continue;
      }
      if Better(cmp, mode, elem.value, r.value) {
        BetterReplaces(xs[..i], cmp, mode, r.value, elem.value);
        r := elem;
        best := i;
      }
      i := i + 1;
    }
    assert !first ==> ExtremeAt(xs, cmp, mode, best);
  }

  /** When x is better than the current result y, no element that was not
      better than y is better than x, and x is better than all of them. */
  lemma BetterReplaces<T(!new)>(seen: seq<Option<T>>, cmp: (T, T) -> int, mode: int, y: T, x: T)
    requires ValidComparator(cmp)
    requires Better(cmp, mode, x, y)
    requires forall j :: 0 <= j < |seen| && seen[j].Some? ==> !Better(cmp, mode, seen[j].value, y)
    ensures forall j :: 0 <= j < |seen| && seen[j].Some? ==> !Better(cmp, mode, seen[j].value, x)
    ensures forall j :: 0 <= j < |seen| && seen[j].Some? ==> Better(cmp, mode, x, seen[j].value)
  {
    forall j | 0 <= j < |seen| && seen[j].Some?
      ensures !Better(cmp, mode, seen[j].value, x) && Better(cmp, mode, x, seen[j].value)
    {
      var z := seen[j].value;
      if mode < 0 {
        LessThenNotGreater(cmp, x, y, z);
      } else {
        NotGreaterThenLess(cmp, z, y, x);
      }
    }
  }

  /** The outcome of array_min (mode -1) and array_max (mode 1): null for a
      zero-dimensional or empty array, an error above one dimension,
      otherwise the result of the scan. */
  ghost predicate MinMaxOutcome<T>(arr: Stored<T>, cmp: (T, T) -> int, mode: int, r: Result<Option<T>, Error>)
    requires WellFormed(arr)
  {
    if arr.ndim == 0 || (arr.ndim == 1 && arr.nitems == 0) then r == Success(None)
    else if arr.ndim > 1 then r == Failure(OnlyOneDimensional)
    else
      && r.Success?
      && (r.value.None? <==> forall i :: 0 <= i < arr.nitems ==> Items(arr)[i].None?)
      && (r.value.Some? ==> exists k :: ExtremeAt(Items(arr), cmp, mode, k) && Items(arr)[k] == r.value)
  }

  /** array_min. */
  method ArrayMin<T(!new)>(arr: Stored<T>, cmp: (T, T) -> int) returns (r: Result<Option<T>, Error>)
    requires WellFormed(arr) && ValidComparator(cmp)
    ensures MinMaxOutcome(arr, cmp, -1, r)
  {
    if arr.ndim == 0 {
      return Success(None);
    }
    if arr.ndim > 1 {
      return Failure(OnlyOneDimensional);
    }
    if arr.nitems == 0 {
      return Success(None);
    }
    var m := ArraymathMinMax(Items(arr), cmp, -1);
    return Success(m);
  }

  /** array_max. */
  method ArrayMax<T(!new)>(arr: Stored<T>, cmp: (T, T) -> int) returns (r: Result<Option<T>, Error>)
    requires WellFormed(arr) && ValidComparator(cmp)
    ensures MinMaxOutcome(arr, cmp, 1, r)
  {
    if arr.ndim == 0 {
      return Success(None);
    }
    if arr.ndim > 1 {
      return Failure(OnlyOneDimensional);
    }
    if arr.nitems == 0 {
      return Success(None);
    }
    var m := ArraymathMinMax(Items(arr), cmp, 1);
    return Success(m);
  }

  /** The scan's result is determined: two positions that both satisfy
      ExtremeAt are the same position. */
  lemma ExtremeAtUnique<T>(xs: seq<Option<T>>, cmp: (T, T) -> int, mode: int, k: int, k': int)
    requires ExtremeAt(xs, cmp, mode, k) && ExtremeAt(xs, cmp, mode, k')
    ensures k == k'
  {
  }

  /** The minimum is not greater than the maximum. */
  lemma MinNotAboveMax<T(!new)>(xs: seq<Option<T>>, cmp: (T, T) -> int, kmin: int, kmax: int)
    requires ValidComparator(cmp)
    requires ExtremeAt(xs, cmp, -1, kmin) && ExtremeAt(xs, cmp, 1, kmax)
    ensures cmp(xs[kmin].value, xs[kmax].value) <= 0
  {
    assert !Better(cmp, -1, xs[kmax].value, xs[kmin].value);
  }

  /** Folding a concatenation folds the second part from the first part's
      result. */
  lemma {:induction false} SumFoldAppend<T>(xs: seq<Option<T>>, ys: seq<Option<T>>, v: T, plus: (T, T) -> T)
    ensures SumFold(xs + ys, v, plus) == SumFold(ys, SumFold(xs, v, plus), plus)
  {
    if xs == [] {
      assert xs + ys == ys;
    } else {
      assert (xs + ys)[1..] == xs[1..] + ys;
      SumFoldAppend(xs[1..], ys, if xs[0].Some? then plus(xs[0].value, v) else v, plus);
    }
  }

  /** A null anywhere in the array leaves the sum unchanged: nulls are
      skipped, not propagated. */
  lemma NullDoesNotChangeSum<T>(xs: seq<Option<T>>, i: nat, v: T, plus: (T, T) -> T)
    requires i <= |xs|
    ensures SumFold(xs[..i] + [None] + xs[i..], v, plus) == SumFold(xs, v, plus)
  {
    SumFoldAppend(xs[..i] + [None], xs[i..], v, plus);
    SumFoldAppend(xs[..i], [None], v, plus);
    SumFoldAppend(xs[..i], xs[i..], v, plus);
    assert xs[..i] + xs[i..] == xs;
  }

  function Add(a: int, b: int): int
  {
    a + b
  }

  /** The sum of a sequence of integers. */
  function IntSum(ts: seq<int>): int
  {
    if ts == [] then 0 else ts[0] + IntSum(ts[1..])
  }

  /** For integers under +, the fold is the arithmetic sum of the non-null
      elements, added to the seed. */
  lemma {:induction false} SumFoldIsIntSum(xs: seq<Option<int>>, v: int)
    ensures SumFold(xs, v, Add) == v + IntSum(NonNulls(xs))
  {
    if xs != [] {
      SumFoldIsIntSum(xs[1..], if xs[0].Some? then Add(xs[0].value, v) else v);
      if xs[0].Some? {
        assert NonNulls(xs) == [xs[0].value] + NonNulls(xs[1..]);
      }
    }
  }

  /** array_sum over integers: the arithmetic sum of the non-null
      elements, 0 for an empty array. */
  lemma ArraySumOfIntegers(vals: Stored<int>, ty: ElemType)
    requires WellFormed(vals) && vals.ndim == 1 && !ty.OtherType?
    ensures ArraySum(vals, ty, 0, Add) == Success(Some(IntSum(NonNulls(Items(vals)))))
  {
    SumFoldIsIntSum(Items(vals), 0);
  }

  /** An unsupported element type is refused whatever the array's shape. */
  lemma ArraySumRefusesUnsupportedType<T>(vals: Stored<T>, oid: nat, typeZero: T, plus: (T, T) -> T)
    requires WellFormed(vals)
    ensures ArraySum(vals, OtherType(oid), typeZero, plus) == Failure(UnsupportedSumType)
  {
  }

  /** The average divides by the number of elements, nulls included: the
      denominator exceeds the number of summed values exactly when the
      array holds a null. */
  lemma AvgDividesByLength<T>(vals: Stored<T>, ty: ElemType, typeZero: T, plus: (T, T) -> T)
    requires WellFormed(vals)
    requires AvgOperands(vals, ty, typeZero, plus).Success?
    requires AvgOperands(vals, ty, typeZero, plus).value.Some?
    ensures var (sum, count) := AvgOperands(vals, ty, typeZero, plus).value.value;
      && count == |Items(vals)| > 0
      && count >= |NonNulls(Items(vals))|
      && (count > |NonNulls(Items(vals))| <==> exists i :: 0 <= i < count && Items(vals)[i].None?)
  {
  }
}
