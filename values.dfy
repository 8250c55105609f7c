/** Values shared by every part of the array engine: optional values, the
    outcome of an operation that can fail, the errors the engine raises, and
    the logical view of a PostgreSQL array (its dimensionality and its
    elements, a null being None). */
module Values {

  datatype Option<+T> = None | Some(value: T)

  datatype Result<+R, +E> = Success(value: R) | Failure(error: E)

  /** The errors arraymath.c raises with elog/ereport. */
  datatype Error =
    | OnlyOneDimensional    // "only one-dimensional arrays are supported"
    | OperatorDoesNotExist  // the operator symbol has no implementation for the type pair
    | UnsupportedSumType    // sum over a type outside the allow-list

  /** A PostgreSQL array as a caller sees it. A zero-dimensional array has no
      elements; an array of more than one dimension is kept flattened (the
      engine only ever rejects it). */
  datatype ArrayValue<+T> = ArrayValue(ndim: nat, items: seq<Option<T>>)

  /** What construct_empty_array builds: a zero-dimensional array. */
  function EmptyArray<T>(): (r: ArrayValue<T>)
    ensures r.ndim == 0 && |r.items| == 0
  {
    ArrayValue(0, [])
  }

  /** The values of the non-null elements, in order. */
  function NonNulls<T>(xs: seq<Option<T>>): (r: seq<T>)
    ensures |r| <= |xs|
    ensures |r| == |xs| <==> forall i :: 0 <= i < |xs| ==> xs[i].Some?
  {
    if xs == [] then []
    else if xs[0].Some? then [xs[0].value] + NonNulls(xs[1..])
    else NonNulls(xs[1..])
  }
}
