# arraymath: a verified model of the array engine

arraymath is a PostgreSQL extension that adds element-wise arithmetic and
comparison operators and reductions over one-dimensional arrays of any
numeric-like element type. This project models its engine in `arraymath.c`:

- applying an operator array against array, with the shorter array repeated
  (`arraymath_array_oper_array`), and array against scalar
  (`arraymath_array_oper_elem`);
- the null-bitmap cursor that the array-array loop walks over each array
  (`BITMAP_ISNULL`, `BITMAP_INCREMENT`);
- sum (`arraymath_zero`, `arraymath_sum`, `array_sum`), the operands of the
  average (`array_avg`), and minimum and maximum (`arraymath_minmax`,
  `array_min`, `array_max`);
- sorting (`arraySortCmp`, `arrayRSortCmp`, `array_sort`) and the positions
  that `array_median` reads.

The element type is a type parameter. The catalog supplies the operator,
the comparator and the `+` operator at run time; the model takes them as
parameters. `typeZero` stands for the per-type zero value that
`arraymath_zero` builds itself (the datum 0 for the integer and float
types, a numeric 0 for numeric). An operator that does not exist is `None`.

Files:

- `values.dfy` (module `Values`): `Option`, `Result`, the engine's errors,
  and the logical view of an array (its dimensionality and its elements, a
  null element being `None`).
- `storage.dfy` (module `Storage`): how a one-dimensional array is stored.
  The data area holds the payloads of the non-null elements only. The
  optional null bitmap holds one bit per element, and a set bit means the
  element is present. `Cursor` is a class holding the
  `(ptr, bitmap, bitmask)` triple that the array-array loop updates in
  place.
- `broadcast.dfy` (module `Broadcast`): both element-wise operations. Each
  is a loop over an output buffer (an `array`), proved against a
  specification function.
- `order.dfy` (module `Order`): what the engine relies on from a three-way
  comparator.
- `reduce.dfy` (module `Reduce`): the sum loop, the average operands, the
  min/max scan and its entry points.
- `sort.dfy` (module `Sort`): the datum comparators, an in-place sort of the
  datum buffer, `array_sort` and the median pick.
- `instances.dfy` (module `IntInstances`): the engine at `int4` on the
  stored array `[3, NULL, 1, 2]`, with the results it gives.

Where the code and the extension's documented behaviour differ, the model
follows the code:

- In reverse order nulls come **last**. The documented behaviour puts nulls
  first in both directions. `arrayRSortCmp` swaps the arguments of
  `arraySortCmp`, and `arraySortCmp` tests its left argument for null
  first, so a null compares as greater than every value. See
  `Sort.NullsLastReverse` and `IntInstances.SampleSortReverse`.
- `array_sort` recomputes every null flag as "the datum is zero". For a
  pass-by-value value whose datum is 0 (integer 0, float 0.0, boolean
  false, the date 2000-01-01, ...) the element therefore comes back as NULL. The model keeps this
  behaviour through the `isZero` parameter. See `Sort.SortKeepsNonZeroValues`
  and `IntInstances.ZeroSortsToNull`.
- `array_sum` looks up the zero value before it checks the dimensions. An
  unsupported element type is therefore an error even for a
  zero-dimensional array. See `Reduce.ArraySumRefusesUnsupportedType`.

## Model

| member | source | states |
|---|---|---|
| Storage.Cursor.constructor | arraymath.c:363-377 | a cursor starts at element 0: data pointer at the start of the data area, bitmap pointer at byte 0 (no pointer when there is no bitmap), mask 1 |
| Storage.Cursor.Restart | arraymath.c:363-377 | the restart on wrap-around puts the cursor back at element 0 and keeps the cursor invariant |
| Storage.Cursor.IsNull | arraymath.c:95 | the mask test on the current bitmap byte reports null exactly when the element's bit is clear; there is no null without a bitmap |
| Storage.Cursor.Read | arraymath.c:379-404 | reading yields exactly the logical element at the cursor; the data pointer moves only past a non-null payload, so it stays at the number of non-null elements read |
| Storage.Cursor.Increment | arraymath.c:88-93 | after the shift (and the wrap to bit 0 of the next byte at 0x100) the bitmap pointer and mask select the next element's bit |
| Storage.MaskStep | arraymath.c:88-93 | shifting the mask of bit pos%8 gives 0x100 exactly after bit 7; otherwise it is the mask of the next position in the same byte |
| Broadcast.ArrayOperArray | arraymath.c:286-439 | the method computes the array-array result function: the zero-dimensional pass-throughs, the dimension error, the missing-operator error, the empty result, then the broadcast |
| Broadcast.BroadcastLoop | arraymath.c:346-420 | with an output buffer of the longer length, the cursor loop yields position n as the combination of element n mod nitems1 and element n mod nitems2 |
| Broadcast.StartCursor | arraymath.c:363-377 | a fresh cursor over a non-empty array is ready for output position 0 |
| Broadcast.FillAll | arraymath.c:354-420 | the loop over output positions, started with both cursors at position 0, leaves the buffer equal to the broadcast of the two arrays; it keeps both cursors at position n mod nitems and the filled prefix equal to the broadcast |
| Broadcast.FillPosition | arraymath.c:356-419 | one iteration restarts a cursor whose index wraps to 0 and writes position n, so the broadcast-agreeing prefix grows by one and both cursors move to position n+1 mod nitems |
| Broadcast.CombineNext | arraymath.c:376-419 | reading both cursors and stepping them gives null if either element is null, otherwise the operator on the two values |
| Broadcast.ModStep | arraymath.c:359-360 | the element index n mod m steps by one and wraps to 0 at m, which is when the loop restarts a cursor |
| Broadcast.OperArrayProduces | arraymath.c:336-420 | on two non-empty 1-D arrays the result has the longer length; a position is null iff one of its operands is null, otherwise it holds the operator's result |
| Broadcast.BroadcastEqualLengths | arraymath.c:354-358 | for arrays of equal length nothing repeats: position n pairs element n with element n |
| Broadcast.ArrayOperElem | arraymath.c:199-279 | the method gives the dimension error, the missing-operator error, an empty array for an empty input, otherwise each element against the scalar (scalar on the right), null staying null |
| Broadcast.SingletonIsScalar | arraymath.c:246-258 | for every one-dimensional left array, empty included, against a one-element array holding v the array-array operation gives what the array-scalar operation gives with scalar v, errors included |
| Reduce.ArraymathZero | arraymath.c:529-551 | a zero value exists exactly for int2, int4, int8, float4, float8 and numeric; any other type is the unsupported-sum error |
| Reduce.ArraymathSum | arraymath.c:554-578 | the loop computes the left fold v := plus(elem, v) from the zero value over the non-null elements, and fails exactly for an unsupported type, with the unsupported-sum error |
| Reduce.SumFold | arraymath.c:568-576 | the fold over the elements skips nulls, so over an array without a non-null element it gives back the seed |
| Reduce.SumFoldAppend | arraymath.c:568-575 | folding a concatenation continues the fold of the first part over the second |
| Reduce.NullDoesNotChangeSum | arraymath.c:570-574 | inserting a null anywhere leaves the sum unchanged: nulls are skipped, not propagated |
| Reduce.SumFoldIsIntSum | arraymath.c:568-575 | over integers the fold is the seed plus the arithmetic sum of the non-null elements |
| Reduce.ArraySumOfIntegers | arraymath.c:598-620 | array_sum of a 1-D integer array is the sum of its non-null elements, and 0 for an empty array |
| Reduce.ArraySumRefusesUnsupportedType | arraymath.c:600-605 | an unsupported element type is an error whatever the dimensionality, because the zero value is looked up first |
| Reduce.ArraySum | arraymath.c:597-617 | an unsupported type is refused before anything else; otherwise null for a zero-dimensional array, the dimension error above one dimension, and for a 1-D array the fold from the zero value, which is the zero value itself when the array is empty |
| Reduce.AvgOperands | arraymath.c:625-652 | null for a zero-dimensional or empty array, the dimension error above one dimension, the unsupported-sum error for another type, otherwise the fold of the elements and the full element count |
| Reduce.AvgDividesByLength | arraymath.c:640-650 | the average divides by the element count, nulls included; the count exceeds the number of summed values exactly when the array holds a null |
| Reduce.ArraymathMinMax | arraymath.c:655-687 | the scan returns a non-null element that no element beats and that beats every earlier non-null element (the first extreme wins ties); None exactly when all elements are null |
| Reduce.Better | arraymath.c:680-681 | an element replaces the current result exactly when the comparison is non-zero and its sign agrees with the mode; mode 0 replaces nothing |
| Reduce.BetterReplaces | arraymath.c:679-684 | when an element beats the current result, nothing seen so far beats it and it beats everything seen so far |
| Reduce.ArrayMin | arraymath.c:695-713 | null for a zero-dimensional or empty array, an error above one dimension, otherwise the minimum scan (mode -1) |
| Reduce.ArrayMax | arraymath.c:718-735 | null for a zero-dimensional or empty array, an error above one dimension, otherwise the maximum scan (mode 1) |
| Reduce.ExtremeAtUnique | arraymath.c:655-687 | the scan's result is determined: only one position meets its contract |
| Reduce.MinNotAboveMax | arraymath.c:679-684 | the minimum compares not greater than the maximum |
| Sort.DatumOrderTotal | arraymath.c:739-761 | under either comparator any two datums are ordered one way or the other |
| Sort.DatumOrderTransitive | arraymath.c:739-761 | under either comparator "in order" is transitive |
| Sort.ZeroDatumBelowItself | arraymath.c:748-761 | in either direction a zero datum compares below another zero datum, itself included: the comparator is not antisymmetric or irreflexive on nulls and zeros |
| Sort.ArraySortCmp | arraymath.c:739-755 | a zero datum on the left compares as -1 whatever the right, a zero datum on the right only as 1, and two non-zero datums as the element comparator says |
| Sort.ArrayRSortCmp | arraymath.c:757-761 | with the arguments swapped a zero datum on the right compares as -1, one on the left only as 1, and two values as cmp(right, left) |
| Sort.InsertInto | arraymath.c:800-803 | one insertion step extends the sorted prefix by one element and permutes the buffer |
| Sort.QSort | arraymath.c:800-803 | the in-place sort leaves the datum buffer ordered by the datum comparator and a permutation of its former contents |
| Sort.ArraySort | arraymath.c:764-815 | a zero-dimensional or empty array comes back unchanged, above one dimension an error; otherwise a 1-D array holding the input's datums, ordered by arraySortCmp (arrayRSortCmp in reverse) |
| Sort.DatumsKeepNonZero | arraymath.c:792-794 | deconstruction keeps every value not stored as a zero datum with its multiplicity and keeps no value stored as a zero datum |
| Sort.SortKeepsNonZeroValues | arraymath.c:805-808 | the sorted output has the input's length; each value not stored as zero occurs as often as in the input, and a value stored as zero does not occur, because it comes back as null |
| Sort.NullsFirstAscending | arraymath.c:749-751 | in ascending order every null precedes every value |
| Sort.NullsLastReverse | arraymath.c:757-761 | in reverse order every value precedes every null |
| Sort.ValuesOrdered | arraymath.c:752-760 | values are ordered by cmp(a, b), and by cmp(b, a) in reverse order |
| Sort.SortedPermutationUnique | arraymath.c:800-803 | when the comparator ties only on equal values, the ordered arrangement of the datums is unique |
| Sort.SortIdempotent | arraymath.c:764-815 | sorting elements that are already in order, none stored as zero, gives them back unchanged |
| Sort.MedianBalanced | arraymath.c:852-869 | the 1-based pick (n+1)/2, or n/2 and n/2+1, leaves as many sorted elements below the pick as above it |
| Sort.MedianOf | arraymath.c:852-869 | an odd count reads the 0-based element n/2; an even count reads elements n/2 and n/2 - 1 |
| Sort.ArrayMedian | arraymath.c:824-876 | null for a zero-dimensional or empty array, an error above one dimension, otherwise the pick from the ascending sort |
| IntInstances.SampleItems | arraymath.c:95 | the bitmap 0x0D over payloads [3, 1, 2] reads as [3, NULL, 1, 2] |
| IntInstances.SampleSum | arraymath.c:598-620 | sum of [3, NULL, 1, 2] is 6 |
| IntInstances.SampleAverageOperands | arraymath.c:626-651 | avg of [3, NULL, 1, 2] divides 6 by 4 |
| IntInstances.SampleExtremes | arraymath.c:655-687 | in [3, NULL, 1, 2] the minimum scan settles on position 2 and the maximum scan on position 0 |
| IntInstances.SampleMin | arraymath.c:695-713 | min of [3, NULL, 1, 2] is 1 |
| IntInstances.SampleMax | arraymath.c:718-735 | max of [3, NULL, 1, 2] is 3 |
| IntInstances.SampleSortAscending | arraymath.c:764-815 | ascending sort of [3, NULL, 1, 2] is [NULL, 1, 2, 3] |
| IntInstances.SampleSortReverse | arraymath.c:757-761 | reverse sort of [3, NULL, 1, 2] is [3, 2, 1, NULL] |
| IntInstances.ZeroSortsToNull | arraymath.c:805-808 | sorting the int4 array [2, 0] gives [NULL, 2] |
| IntInstances.BroadcastSample | arraymath.c:354-420 | [1, 2, 3] + [10, 20] is [11, 22, 13] |
| IntInstances.ScalarSample | arraymath.c:240-258 | the int4 array [1, 2, NULL, 4] + 10 is [11, 12, NULL, 14]: the null stays null and the scalar is the right operand |
| IntInstances.MedianSample | arraymath.c:852-869 | the median of [1, 2, 3] reads the element 2, that of [1, 2, 3, 4] reads 3 and 2 |

## Left out

- Catalog and type-cache lookups (`arraymath_fmgrinfo_from_optype`, `arraymath_fmgrinfo_from_cast`, `arraymath_typentry_from_type`): these are PostgreSQL calls. The operator, comparator, `+` and zero value are parameters. A missing operator is `None`, and the result element type is not tracked.
- Byte layout: payload widths, alignment and varlena lengths (`fetch_att`, `att_addlength_pointer`, `att_align_nominal`). The data area is a sequence of payloads, and the data pointer is an index into it.
- Array construction and memory (`construct_md_array`, `construct_empty_array`, `deconstruct_array`, `array_get_element`, `palloc`/`pfree`). Results are logical arrays. An empty result is `ArrayValue(0, [])`. The "unable to construct output array" check cannot fail in the model.
- Float8 casts and arithmetic in `array_avg` and `array_median`: this is floating point. The model states what is summed, the denominator, and which elements the median reads.
- Sort.QSort: the sort is an insertion sort, not the C library's `qsort`. The model assumes that `qsort` returns a permutation ordered by the datum comparator. The C standard promises that only for a comparator that orders its elements consistently, and this one does not: two zero datums each compare below the other, and a zero datum compares below itself (`Sort.ZeroDatumBelowItself`). So for an array with two or more null or zero elements the source's result is not specified by the C library, and the model's promise is an assumption about `qsort` there. The order among elements the comparator ties is not modelled.
- Element operators, `+` and comparators are total functions in the model. In the source the call made through `FunctionCall2` (arraymath.c:256, :415, :574, :679, :753) may raise a PostgreSQL error, for example a division by zero or an overflow. Such an error aborts the whole call and returns no result. The model has no such outcome: `Broadcast.OperArray`, `Broadcast.OperElem`, `Reduce.ArraySum`, `Reduce.ArraymathMinMax` and `Sort.ArraySort` always produce a value once their own checks pass.
- Sort.ArraySort: the global `arraySortFmgrinfo` becomes a parameter. The `return 0` branch for an unset global cannot be reached, because the global is set before every `qsort`.
- Reduce.ArraymathMinMax: an array whose elements are all null gives None. The source returns an unassigned datum in that case.
- Sort.ArrayMedian: returns the picked elements, not a float8. The source ignores the null flag of the element it reads and casts the zero datum. The model gives None for such an element.
- Integer widths: element counts and loop indices are C `int` in the source. PostgreSQL's array size limit keeps them from overflowing, so the model uses unbounded integers. Overflow inside an element operator belongs to that operator, which is a parameter.
- Element types are identified by the `ElemType` enumeration rather than by OID.
- The fmgr entry points (`array_compare_array`, `array_math_array`, `array_compare_value`, `array_math_value`) are calling-convention wrappers, and so is argument fetching in general. `_PG_init`/`_PG_fini` only print notices. The `BITMAP_GET` macro is never used.
- Lower bounds of results (always 1) and result element type OIDs are not modelled.
