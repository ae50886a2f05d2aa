/**
 * `Array<T, N>`: a fixed-size array held by value, with slice views.
 *
 * An array is its base address and its `N` elements; `N` is the length of
 * `data` and never changes.
 */
module Arrays {
  import opened Types
  import opened Slices

  datatype Array<T> = Array(base: nat, data: seq<T>)

  /** The default constructor value-initialises all `n` elements to `zero`. */
  function New<T>(base: nat, n: nat, zero: T): (r: Array<T>)
    ensures r.base == base && |r.data| == n
    ensures forall i :: 0 <= i < n ==> r.data[i] == zero
  {
    Array(base, seq(n, _ => zero))
  }

  /**
   * The initializer-list constructor: value-initialise, then store the
   * items in order. More than `n` items throws, modelled as `None`.
   */
  method FromList<T>(base: nat, n: nat, items: seq<T>, zero: T) returns (r: Option<Array<T>>)
    ensures r.None? <==> |items| > n
    ensures r.Some? ==> r.value.base == base && |r.value.data| == n
    ensures r.Some? ==> forall i :: 0 <= i < |items| ==> r.value.data[i] == items[i]
    ensures r.Some? ==> forall i :: |items| <= i < n ==> r.value.data[i] == zero
  {
    if |items| > n {
      return None;
    }
    var data := New(base, n, zero).data;
    var index := 0;
    var k := 0;
    while k < |items|
      invariant k <= |items| && index == k && |data| == n
      invariant forall i :: 0 <= i < k ==> data[i] == items[i]
      invariant forall i :: k <= i < n ==> data[i] == zero
    {
      if index < n {
        data := data[index := items[k]];
        index := index + 1;
      }
      k := k + 1;
    }
    r := Some(Array(base, data));
  }

  /** The copy constructor: a new array at `base` holding the other's elements one by one. */
  method CopyOf<T>(base: nat, other: Array<T>, zero: T) returns (r: Array<T>)
    ensures r.base == base && r.data == other.data
  {
    var data := New(base, |other.data|, zero).data;
    var i := 0;
    while i < |other.data|
      invariant i <= |other.data| && |data| == |other.data|
      invariant data[..i] == other.data[..i]
    {
      data := data[i := other.data[i]];
      i := i + 1;
    }
    r := Array(base, data);
  }

  /** `operator[]` for reading; the index must be in range. It reads what the slice view shows at `i`. */
  function At<T>(a: Array<T>, i: nat): (r: T)
    requires i < |a.data|
    ensures r in a.data
    ensures |a.data| < U32_LIMIT ==> r == AsSlice(a).elems[i]
  {
    a.data[i]
  }

  /** `operator[]` for writing: only element `i` changes. */
  function Set<T>(a: Array<T>, i: nat, v: T): (r: Array<T>)
    requires i < |a.data|
    ensures r.base == a.base && |r.data| == |a.data|
    ensures At(r, i) == v
    ensures forall j :: 0 <= j < |a.data| && j != i ==> At(r, j) == At(a, j)
  {
    Array(a.base, a.data[i := v])
  }

  /**
   * `asSlice` and the two `Slice` conversions: a view of all `N` elements at
   * the array's address; `N` must fit the `u32` length.
   */
  function AsSlice<T>(a: Array<T>): (r: Slice<T>)
    requires |a.data| < U32_LIMIT
    ensures r.Valid() && r.data == Addr(a.base) && r.elems == a.data
  {
    Slice(Addr(a.base), a.data)
  }

  /**
   * `subarray(idxStart, idxEnd)`: the free `subarray` on the whole-array
   * view. The `size_t` indices are narrowed to `u32` on the way in.
   */
  function Subarray<T>(a: Array<T>, start: u64, end: u64): (r: Slice<T>)
    requires |a.data| < U32_LIMIT
    ensures var s, e := start % U32_LIMIT, end % U32_LIMIT;
      && (r.Empty() <==> e <= s || |a.data| <= s)
      && (!r.Empty() ==> r.data == Addr(a.base + s) && r.elems == a.data[s..if e < |a.data| then e else |a.data|])
  {
    var s, e := start % U32_LIMIT, end % U32_LIMIT;
    var r := Slices.Subarray(AsSlice(a), s, e);
    assert !r.Empty() ==> r.elems == a.data[s..if e < |a.data| then e else |a.data|];
    r
  }

  /** `begin()`: the address of element 0, where the slice view starts. */
  function Begin<T>(a: Array<T>): (p: Ptr)
    ensures p == Addr(a.base)
    ensures |a.data| < U32_LIMIT ==> p == AsSlice(a).data
  {
    Addr(a.base)
  }

  /** `end()`: one past the last element. */
  function End<T>(a: Array<T>): (p: Ptr)
    ensures p.Addr? && p.addr - Begin(a).addr == |a.data|
  {
    Advance(Begin(a), |a.data|)
  }

  /** A write through `operator[]` is seen by the slice view at the same index. */
  lemma SliceSeesWrites<T>(a: Array<T>, i: nat, v: T)
    requires i < |a.data| < U32_LIMIT
    ensures AsSlice(Set(a, i, v)).elems[i] == v
    ensures AsSlice(Set(a, i, v)).data == AsSlice(a).data
  {
  }

  /** A list of exactly `n` items fills the array, so the view shows exactly the list. */
  method FullListIsView<T>(base: nat, items: seq<T>, zero: T) returns (r: Array<T>)
    requires |items| < U32_LIMIT
    ensures |r.data| == |items| && AsSlice(r).elems == items
  {
    var o := FromList(base, |items|, items, zero);
    r := o.value;
    assert r.data == items;
  }
}
