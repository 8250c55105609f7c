/** Element-wise application of a binary operator: array against array
    (arraymath_array_oper_array, with the shorter array repeated) and array
    against a scalar (arraymath_array_oper_elem). The operator comes from
    the catalog lookup of its symbol for the two element types; None stands
    for "operator does not exist". */
module Broadcast {
  import opened Values
  import opened Storage

  function Max(a: nat, b: nat): nat
  {
    if a < b then b else a
  }

  /** One output position: null if either operand is null (the operator is
      then not called), else the operator on the left and the right value. */
  function Combine<A, B, R>(x: Option<A>, y: Option<B>, f: (A, B) -> R): Option<R>
  {
    if x.Some? && y.Some? then Some(f(x.value, y.value)) else None
  }

  /** Position n combines element n mod |xs| with element n mod |ys|. */
  function BroadcastItems<A, B, R>(xs: seq<Option<A>>, ys: seq<Option<B>>, f: (A, B) -> R): seq<Option<R>>
    requires |xs| > 0 && |ys| > 0
  {
    seq(Max(|xs|, |ys|), n requires 0 <= n < Max(|xs|, |ys|) => Combine(xs[n % |xs|], ys[n % |ys|], f))
  }

  /** Every element against the scalar, the scalar as the right operand. */
  function MapScalar<A, B, R>(xs: seq<Option<A>>, y: B, f: (A, B) -> R): seq<Option<R>>
  {
    seq(|xs|, i requires 0 <= i < |xs| => if xs[i].Some? then Some(f(xs[i].value, y)) else None)
  }

  /** The result of the array-array operation: arr1 or arr2 handed back
      as it is, an empty array of arr1's element type, or an array of the
      operator's result type. */
  datatype OperOut<L, Rt, R> =
    | Left(left: ArrayValue<L>)
    | Right(right: ArrayValue<Rt>)
    | Produced(produced: ArrayValue<R>)

  /** arraymath_array_oper_array on logical arrays. */
  function OperArray<L, Rt, R>(arr1: Stored<L>, op: Option<((L, Rt) -> R)>, arr2: Stored<Rt>)
    : Result<OperOut<L, Rt, R>, Error>
    requires WellFormed(arr1) && WellFormed(arr2)
  {
    if arr1.ndim == 0 && arr2.ndim == 1 then Success(Right(Logical(arr2)))
    else if arr1.ndim == 1 && arr2.ndim == 0 then Success(Left(Logical(arr1)))
    else if arr1.ndim == 0 && arr2.ndim == 0 then Success(Left(EmptyArray()))
    else if arr1.ndim != 1 || arr2.ndim != 1 then Failure(OnlyOneDimensional)
    else if op.None? then Failure(OperatorDoesNotExist)
    else if arr1.nitems == 0 || arr2.nitems == 0 then Success(Produced(EmptyArray()))
    else Success(Produced(ArrayValue(1, BroadcastItems(Items(arr1), Items(arr2), op.value))))
  }

  /** arraymath_array_oper_elem on logical arrays. */
  function OperElem<T, S, R>(arr1: Stored<T>, op: Option<((T, S) -> R)>, element2: S)
    : Result<ArrayValue<R>, Error>
    requires WellFormed(arr1)
  {
    if arr1.ndim != 1 then Failure(OnlyOneDimensional)
    else if op.None? then Failure(OperatorDoesNotExist)
    else if arr1.nitems == 0 then Success(EmptyArray())
    else Success(ArrayValue(1, MapScalar(Items(arr1), element2, op.value)))
  }

  lemma MulAtLeastFactor(a: int, m: int)
    requires a >= 1 && m > 0
    ensures a * m >= m
  {
  }

  /** n mod m is the only remainder r of a division n = q * m + r. */
  lemma ModUnique(n: int, m: int, q: int, r: int)
    requires m > 0 && 0 <= r < m && n == q * m + r
    ensures n % m == r
  {
    var q', r' := n / m, n % m;
    assert n == q' * m + r';
    assert (q' - q) * m == r - r';
    if q' - q >= 1 {
      MulAtLeastFactor(q' - q, m);
    } else if q - q' >= 1 {
      MulAtLeastFactor(q - q', m);
    }
  }

  /** Stepping an index by one steps its remainder by one, wrapping to 0. */
  lemma ModStep(n: nat, m: nat)
    requires m > 0
    ensures (n + 1) % m == if n % m + 1 == m then 0 else n % m + 1
  {
    var q, r := n / m, n % m;
    assert n == q * m + r;
    if r + 1 == m {
      ModUnique(n + 1, m, q + 1, 0);
    } else {
      ModUnique(n + 1, m, q, r + 1);
    }
  }

  /** arraymath_array_oper_array: the dimension cases, then the operator
      lookup, then the empty case, then the broadcasting loop. */
  method ArrayOperArray<L, Rt, R>(arr1: Stored<L>, op: Option<((L, Rt) -> R)>, arr2: Stored<Rt>)
    returns (r: Result<OperOut<L, Rt, R>, Error>)
    requires WellFormed(arr1) && WellFormed(arr2)
    ensures r == OperArray(arr1, op, arr2)
  {
    if arr1.ndim == 0 && arr2.ndim == 1 {
      return Success(Right(Logical(arr2)));
    } else if arr1.ndim == 1 && arr2.ndim == 0 {
      return Success(Left(Logical(arr1)));
    } else if arr1.ndim == 0 && arr2.ndim == 0 {
      return Success(Left(EmptyArray()));
    }
    if arr1.ndim != 1 || arr2.ndim != 1 {
      return Failure(OnlyOneDimensional);
    }
    if op.None? {
      return Failure(OperatorDoesNotExist);
    }
    if arr1.nitems == 0 || arr2.nitems == 0 {
      return Success(Produced(EmptyArray()));
    }
    var items := BroadcastLoop(arr1, op.value, arr2);
    return Success(Produced(ArrayValue(1, items)));
  }

  /** A cursor ready for output position n: restarted, or at element
      n mod nitems, or just past the last element when n wraps to 0. */
  ghost predicate CursorAt<T>(c: Cursor<T>, n: nat)
    reads c
  {
    && c.Valid() && !c.fetched && c.store.nitems > 0
    && (c.pos == n % c.store.nitems || (n % c.store.nitems == 0 && c.pos == c.store.nitems))
  }

  /** The loop of arraymath_array_oper_array: two cursors read one element
      each per output position, and the output buffer is filled position
      by position. */
  method BroadcastLoop<L, Rt, R>(arr1: Stored<L>, oper: (L, Rt) -> R, arr2: Stored<Rt>)
    returns (items: seq<Option<R>>)
    requires WellFormed(arr1) && WellFormed(arr2) && arr1.nitems > 0 && arr2.nitems > 0
    ensures items == BroadcastItems(Items(arr1), Items(arr2), oper)
  {
    var nelems := Max(arr1.nitems, arr2.nitems);
    var out := new Option<R>[nelems];
    var c1 := StartCursor(arr1);
    var c2 := StartCursor(arr2);
    FillAll(out, c1, oper, c2);
    items := out[..];
  }

  /** A cursor at the first element of a non-empty array. */
  method StartCursor<T>(st: Stored<T>) returns (c: Cursor<T>)
    requires WellFormed(st) && st.nitems > 0
    ensures fresh(c) && c.store == st && CursorAt(c, 0)
  {
    c := new Cursor(st);
    ModUnique(0, st.nitems, 0, 0);
  }

  /** The output positions in order, from two cursors at position 0. */
  method FillAll<L, Rt, R>(out: array<Option<R>>, c1: Cursor<L>, oper: (L, Rt) -> R, c2: Cursor<Rt>)
    requires c1 as object != c2 as object
    requires CursorAt(c1, 0) && CursorAt(c2, 0)
    requires out.Length == Max(c1.store.nitems, c2.store.nitems)
    modifies out, c1, c2
    ensures out[..] == BroadcastItems(Items(c1.store), Items(c2.store), oper)
  {
    ghost var target := BroadcastItems(Items(c1.store), Items(c2.store), oper);
    var n := 0;
    while n < out.Length
      invariant 0 <= n <= out.Length
      invariant CursorAt(c1, n) && CursorAt(c2, n)
      invariant forall k :: 0 <= k < n ==> out[k] == target[k]
    {
      FillPosition(out, n, c1, oper, c2, target);
      n := n + 1;
    }
  }

  lemma BroadcastAt<A, B, R>(arr1: Stored<A>, arr2: Stored<B>, f: (A, B) -> R, n: nat)
    requires WellFormed(arr1) && WellFormed(arr2) && arr1.nitems > 0 && arr2.nitems > 0
    requires n < Max(arr1.nitems, arr2.nitems)
    ensures BroadcastItems(Items(arr1), Items(arr2), f)[n]
         == Combine(ItemAt(arr1, n % arr1.nitems), ItemAt(arr2, n % arr2.nitems), f)
  {
    var xs, ys := Items(arr1), Items(arr2);
    var i1, i2 := n % |xs|, n % |ys|;
    assert xs[i1] == ItemAt(arr1, i1) && ys[i2] == ItemAt(arr2, i2);
    assert BroadcastItems(xs, ys, f)[n] == Combine(xs[i1], ys[i2], f);
  }

  /** The body of the loop for output position n: restart a cursor whose
      index wraps to 0, read both current elements (a null one moves no
      data pointer), store their combination, step both bitmap masks.
      Afterwards one more position agrees with the broadcast `target`. */
  method FillPosition<L, Rt, R>(out: array<Option<R>>, n: nat, c1: Cursor<L>, oper: (L, Rt) -> R, c2: Cursor<Rt>,
                                ghost target: seq<Option<R>>)
    requires c1 as object != c2 as object
    requires CursorAt(c1, n) && CursorAt(c2, n)
    requires target == BroadcastItems(Items(c1.store), Items(c2.store), oper)
    requires n < out.Length == |target|
    requires forall k :: 0 <= k < n ==> out[k] == target[k]
    modifies out, c1, c2
    ensures CursorAt(c1, n + 1)
    ensures CursorAt(c2, n + 1)
    ensures forall k :: 0 <= k < n + 1 ==> out[k] == target[k]
  {
    var i1, i2 := n % c1.store.nitems, n % c2.store.nitems;
    if i1 == 0 {
      c1.Restart();
    }
    if i2 == 0 {
      c2.Restart();
    }
    out[n] := CombineNext(c1, oper, c2);
    BroadcastAt(c1.store, c2.store, oper, n);
    ModStep(n, c1.store.nitems);
    ModStep(n, c2.store.nitems);
  }

  /** Read both current elements, combine them, step both cursors. */
  method CombineNext<L, Rt, R>(c1: Cursor<L>, oper: (L, Rt) -> R, c2: Cursor<Rt>) returns (e: Option<R>)
    requires c1 as object != c2 as object
    requires c1.Valid() && !c1.fetched && c1.pos < c1.store.nitems
    requires c2.Valid() && !c2.fetched && c2.pos < c2.store.nitems
    modifies c1, c2
    ensures c1.Valid() && !c1.fetched && c1.pos == old(c1.pos) + 1
    ensures c2.Valid() && !c2.fetched && c2.pos == old(c2.pos) + 1
    ensures e == Combine(ItemAt(c1.store, old(c1.pos)), ItemAt(c2.store, old(c2.pos)), oper)
  {
    var elt1 := c1.Read();
    var elt2 := c2.Read();
    if elt1.None? || elt2.None? {
      e := None;
    } else {
      e := Some(oper(elt1.value, elt2.value));
    }
    c1.Increment();
    c2.Increment();
  }

  /** The array-scalar loop: iterate over the elements, writing one output
      element (null for a null input) per input element. */
  method ArrayOperElem<T, S, R>(arr1: Stored<T>, op: Option<((T, S) -> R)>, element2: S)
    returns (r: Result<ArrayValue<R>, Error>)
    requires WellFormed(arr1)
    ensures r == OperElem(arr1, op, element2)
  {
    if arr1.ndim != 1 {
      return Failure(OnlyOneDimensional);
    }
    if op.None? {
      return Failure(OperatorDoesNotExist);
    }
    var oper := op.value;
    var nelems := arr1.nitems;
    if nelems == 0 {
      return Success(EmptyArray());
    }
    var items := Items(arr1);
    var out := new Option<R>[nelems];
    var n := 0;
    while n < nelems
      invariant 0 <= n <= nelems
      invariant forall k :: 0 <= k < n ==>
        out[k] == if items[k].Some? then Some(oper(items[k].value, element2)) else None
    {
      var element1 := items[n];
      if element1.None? {
        out[n] := None;
      } else {
        out[n] := Some(oper(element1.value, element2));
      }
      n := n + 1;
    }
    assert out[..] == MapScalar(items, element2, oper);
    return Success(ArrayValue(1, out[..]));
  }

  /** What the array-array operation produces from two non-empty
      one-dimensional arrays: as many elements as the longer one has, the
      shorter one repeated from its start; a position is null exactly when
      one of its two operands is, otherwise it holds the operator applied
      to the two values. */
  lemma OperArrayProduces<L, Rt, R>(arr1: Stored<L>, f: (L, Rt) -> R, arr2: Stored<Rt>, n: nat)
    requires WellFormed(arr1) && WellFormed(arr2)
    requires arr1.ndim == 1 && arr2.ndim == 1 && arr1.nitems > 0 && arr2.nitems > 0
    requires n < Max(arr1.nitems, arr2.nitems)
    ensures OperArray(arr1, Some(f), arr2).Success?
    ensures OperArray(arr1, Some(f), arr2).value.Produced?
    ensures var out := OperArray(arr1, Some(f), arr2).value.produced;
      && out.ndim == 1
      && |out.items| == Max(arr1.nitems, arr2.nitems) >= arr1.nitems
      && |out.items| >= arr2.nitems
      && var x, y := ItemAt(arr1, n % arr1.nitems), ItemAt(arr2, n % arr2.nitems);
      && (out.items[n].None? <==> x.None? || y.None?)
      && (out.items[n].Some? ==> out.items[n].value == f(x.value, y.value))
  {
    BroadcastAt(arr1, arr2, f, n);
  }

  /** On arrays of equal length nothing repeats: position n pairs element n
      with element n. */
  lemma BroadcastEqualLengths<A, B, R>(xs: seq<Option<A>>, ys: seq<Option<B>>, f: (A, B) -> R, n: nat)
    requires 0 < |xs| == |ys| && n < |xs|
    ensures |BroadcastItems(xs, ys, f)| == |xs|
    ensures BroadcastItems(xs, ys, f)[n] == Combine(xs[n], ys[n], f)
  {
    ModUnique(n, |xs|, 0, n);
  }

  /** Against a one-element array holding v the array-array operation gives
      what the array-scalar operation gives with v as the scalar. */
  lemma SingletonIsScalar<L, Rt, R>(arr1: Stored<L>, op: Option<((L, Rt) -> R)>, arr2: Stored<Rt>, v: Rt)
    requires WellFormed(arr1) && WellFormed(arr2)
    requires arr1.ndim == 1
    requires arr2.ndim == 1 && Items(arr2) == [Some(v)]
    ensures OperElem(arr1, op, v).Failure? ==> OperArray(arr1, op, arr2) == Failure(OperElem(arr1, op, v).error)
    ensures OperElem(arr1, op, v).Success? ==> OperArray(arr1, op, arr2) == Success(Produced(OperElem(arr1, op, v).value))
  {
    if op.Some? && arr1.nitems > 0 {
      var b := BroadcastItems(Items(arr1), Items(arr2), op.value);
      var m := MapScalar(Items(arr1), v, op.value);
      assert |b| == |m|;
      forall n | 0 <= n < |b|
        ensures b[n] == m[n]
      {
        ModUnique(n, arr1.nitems, 0, n);
        ModUnique(n, 1, n, 0);
      }
      assert b == m;
    }
  }
}
