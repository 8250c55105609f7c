/** The storage of a one-dimensional PostgreSQL array, and the cursor that
    arraymath_array_oper_array walks over it.

    The data area holds the payloads of the non-null elements only, one after
    another; the optional null bitmap has one bit per element, bit i%8 of
    byte i/8, and a SET bit means the element is present (not null). With no
    bitmap no element is null. Payload widths and alignment are abstracted:
    the data area is a sequence of payloads and the data pointer an index
    into it. */
module Storage {
  import opened Values

  datatype Stored<T> = Stored(ndim: nat, nitems: nat, data: seq<T>, nullBitmap: Option<seq<bv8>>)

  /** Bit k of a bitmap byte. */
  predicate BitSet(b: bv8, k: nat)
    requires k < 8
  {
    b & ((1 as bv8) << k) != 0
  }

  /** The bitmap (if any) covers every element. */
  predicate BitmapCovers<T>(st: Stored<T>)
  {
    st.nullBitmap.Some? ==> st.nitems <= 8 * |st.nullBitmap.value|
  }

  /** Element i is not null. */
  predicate Present<T>(st: Stored<T>, i: nat)
    requires BitmapCovers(st) && i < st.nitems
  {
    st.nullBitmap.None? || BitSet(st.nullBitmap.value[i / 8], i % 8)
  }

  /** How many of the first i elements are not null: the index, in the data
      area, of the payload of element i when that element is present. */
  function NonNullBefore<T>(st: Stored<T>, i: nat): (r: nat)
    requires BitmapCovers(st) && i <= st.nitems
    ensures r <= i
  {
    if i == 0 then 0
    else NonNullBefore(st, i - 1) + (if Present(st, i - 1) then 1 else 0)
  }

  lemma {:induction false} NonNullBeforeMonotone<T>(st: Stored<T>, i: nat, j: nat)
    requires BitmapCovers(st) && i <= j <= st.nitems
    ensures NonNullBefore(st, i) <= NonNullBefore(st, j)
    decreases j - i
  {
    if i < j {
      NonNullBeforeMonotone(st, i, j - 1);
    }
  }

  /** A well-formed array: a zero-dimensional array has no elements, the
      bitmap covers every element, and the data area holds exactly one
      payload per non-null element. */
  predicate WellFormed<T>(st: Stored<T>)
  {
    && (st.ndim == 0 ==> st.nitems == 0)
    && BitmapCovers(st)
    && |st.data| == NonNullBefore(st, st.nitems)
  }

  /** Element i as the array's reader sees it. */
  function ItemAt<T>(st: Stored<T>, i: nat): (r: Option<T>)
    requires WellFormed(st) && i < st.nitems
    ensures r.Some? <==> Present(st, i)
  {
    if Present(st, i) then
      NonNullBeforeMonotone(st, i + 1, st.nitems);
      Some(st.data[NonNullBefore(st, i)])
    else None
  }

  /** The logical elements of the array. */
  function Items<T>(st: Stored<T>): (r: seq<Option<T>>)
    requires WellFormed(st)
    ensures |r| == st.nitems
    ensures forall i :: 0 <= i < |r| ==> r[i] == ItemAt(st, i)
  {
    seq(st.nitems, i requires 0 <= i < st.nitems => ItemAt(st, i))
  }

  /** The array as a caller sees it. */
  function Logical<T>(st: Stored<T>): (r: ArrayValue<T>)
    requires WellFormed(st)
    ensures r.ndim == st.ndim && r.items == Items(st)
  {
    ArrayValue(st.ndim, Items(st))
  }

  /** Shifting the mask of bit pos%8 left once gives the mask of the next
      position's bit, except after bit 7, where it reaches 0x100 and the next
      position is bit 0 of the next byte. */
  lemma MaskStep(pos: nat, mask: bv16)
    requires mask == (1 as bv16) << (pos % 8)
    ensures (mask << 1 == 0x100) <==> pos % 8 == 7
    ensures pos % 8 != 7 ==> mask << 1 == (1 as bv16) << ((pos + 1) % 8) && (pos + 1) / 8 == pos / 8
    ensures pos % 8 == 7 ==> (1 as bv16) == (1 as bv16) << ((pos + 1) % 8) && (pos + 1) / 8 == pos / 8 + 1
  {
    var k := pos % 8;
    assert pos == 8 * (pos / 8) + k;
    if k == 7 {
      assert pos + 1 == 8 * (pos / 8 + 1);
    } else {
      assert pos + 1 == 8 * (pos / 8) + (k + 1);
    }
  }

  /** A (ptr, bitmap, bitmask) triple walking one array, as in the loop of
      arraymath_array_oper_array. `ptr` indexes the data area; `bitmap` is
      the byte offset of the bitmap pointer, None when the array has no
      bitmap (a NULL pointer); `bitmask` is a C int that selects the bit of
      the current element and briefly reaches 0x100 before it wraps.
      `pos` is the logical index of the current element and `fetched` says
      whether its payload has been read (and the data pointer moved past it). */
  class Cursor<T> {
    const store: Stored<T>
    var ptr: nat
    var bitmap: Option<nat>
    var bitmask: bv16
    ghost var pos: nat
    ghost var fetched: bool

    ghost predicate Valid()
      reads this
    {
      && WellFormed(store)
      && pos <= store.nitems
      && (fetched ==> pos < store.nitems)
      && (bitmap.Some? <==> store.nullBitmap.Some?)
      && (bitmap.Some? ==> bitmap.value == pos / 8 && bitmask == (1 as bv16) << (pos % 8))
      && (bitmap.None? ==> bitmask == 1)
      && ptr == NonNullBefore(store, pos) + (if fetched && Present(store, pos) then 1 else 0)
    }

    /** A cursor at the start of the array (ARR_DATA_PTR, ARR_NULLBITMAP, 1). */
    constructor (st: Stored<T>)
      requires WellFormed(st)
      ensures Valid() && store == st && pos == 0 && !fetched
    {
      store := st;
      ptr := 0;
      bitmap := if st.nullBitmap.Some? then Some(0) else None;
      bitmask := 1;
      pos := 0;
      fetched := false;
    }

    /** The restart done when the element index wraps to 0. */
    method Restart()
      requires Valid()
      modifies this
      ensures Valid() && pos == 0 && !fetched
    {
      ptr := 0;
      bitmap := if store.nullBitmap.Some? then Some(0) else None;
      bitmask := 1;
      pos := 0;
      fetched := false;
    }

    /** BITMAP_ISNULL(bitmap, bitmask). */
    function IsNull(): (b: bool)
      requires Valid() && pos < store.nitems
      reads this
      ensures b <==> !Present(store, pos)
    {
      bitmap.Some? && (store.nullBitmap.value[bitmap.value] as bv16) & bitmask == 0
    }

    /** Reads the current element: null when its bit is clear, otherwise the
        payload under the data pointer, which then moves past it. */
    method Read() returns (e: Option<T>)
      requires Valid() && !fetched && pos < store.nitems
      modifies this
      ensures Valid() && pos == old(pos) && fetched
      ensures e == ItemAt(store, pos)
    {
      if IsNull() {
        e := None;
      } else {
        NonNullBeforeMonotone(store, pos + 1, store.nitems);
        e := Some(store.data[ptr]);
        ptr := ptr + 1;
      }
      fetched := true;
    }

    /** BITMAP_INCREMENT(bitmap, bitmask): move the mask to the next bit,
        and to bit 0 of the next byte after bit 7. */
    method Increment()
      requires Valid() && fetched
      modifies this
      ensures Valid() && pos == old(pos) + 1 && !fetched
    {
      if bitmap.Some? {
        MaskStep(pos, bitmask);
        bitmask := bitmask << 1;
        if bitmask == 0x100 {
          bitmap := Some(bitmap.value + 1);
          bitmask := 1;
        }
      }
      pos := pos + 1;
      fetched := false;
    }
  }
}
