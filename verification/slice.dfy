/**
 * Slices: a data pointer plus the elements it currently views.
 *
 * A `Slice<T>` is the pair the library passes around by value. The model keeps
 * the pointer (so that "a view on the same data" can be stated as pointer
 * arithmetic) and the contents (so that searches and comparisons can be
 * stated over sequences). Operations that write through a slice return the
 * slice with its new contents; aliasing between overlapping views is not
 * modelled.
 */
module Slices {
  import opened Types
  import Seqs

  datatype Slice<T> = Slice(data: Ptr, elems: seq<T>)
  {
    function Length(): nat { |elems| }

    /** The length field is a `u32`. */
    predicate Valid() { |elems| < U32_LIMIT }

    predicate Empty() { |elems| == 0 }
  }

  /** The `{nullptr, 0}` slice. */
  function NullSlice<T>(): Slice<T>
  {
    Slice(Null, [])
  }

  /** A `[start, start + count)` span of indices. */
  datatype Span = Span(start: u32, count: u32)

  /** A half-open `[start, end)` range of indices. */
  datatype Range = Range(start: u32, end: u32)

  /** `spanFrom`: the count is `end - start` in 32-bit arithmetic. */
  function SpanFrom(r: Range): (s: Span)
    ensures s.start == r.start
    ensures (s.start + s.count) % U32_LIMIT == r.end
    ensures r.start <= r.end ==> s.count == r.end - r.start
  {
    Span(r.start, (r.end - r.start) % U32_LIMIT)
  }

  /** `rangeFrom`: the end is `start + count` in 32-bit arithmetic. */
  function RangeFrom(s: Span): (r: Range)
    ensures r.start == s.start
    ensures (r.end - r.start) % U32_LIMIT == s.count
    ensures s.start + s.count < U32_LIMIT ==> r.end == s.start + s.count
  {
    Range(s.start, (s.start + s.count) % U32_LIMIT)
  }

  /** Converting a range to a span and back is the identity, even across the 32-bit wrap. */
  lemma RangeSpanRoundTrip(r: Range)
    ensures RangeFrom(SpanFrom(r)) == r
  {
  }

  /** Converting a span to a range and back is the identity. */
  lemma SpanRangeRoundTrip(s: Span)
    ensures SpanFrom(RangeFrom(s)) == s
  {
  }

  /**
   * `subarray(idxStart, idxEnd)`: the range is clamped to the slice; an empty
   * or out-of-range request yields the null slice.
   */
  function Subarray<T>(s: Slice<T>, start: u32, end: u32): (r: Slice<T>)
    ensures r.Empty() <==> end <= start || |s.elems| <= start
    ensures r.Empty() ==> r == NullSlice()
    ensures !r.Empty() ==>
      && r.data == Advance(s.data, start)
      && |r.elems| == (if end < |s.elems| then end else |s.elems|) - start
      && start + |r.elems| <= |s.elems|
      && forall i :: 0 <= i < |r.elems| ==> r.elems[i] == s.elems[start + i]
  {
    if end <= start || |s.elems| <= start then NullSlice()
    else
      var e := if |s.elems| < end then |s.elems| else end;
      Slice(Advance(s.data, start), s.elems[start..e])
  }

  /** `subarray(Range)` views the same elements as `subarray(start, end)`. */
  function SubarrayRange<T>(s: Slice<T>, range: Range): (r: Slice<T>)
    ensures range.start < range.end && range.start < |s.elems| ==>
      r.elems == s.elems[range.start..if range.end < |s.elems| then range.end else |s.elems|]
    ensures range.end <= range.start || |s.elems| <= range.start ==> r == NullSlice()
  {
    Subarray(s, range.start, range.end)
  }

  /**
   * `subarray(Span)`: when `start + count` does not wrap, it views the
   * elements `[start, min(start + count, length))`.
   */
  function SubarraySpan<T>(s: Slice<T>, span: Span): (r: Slice<T>)
    ensures span.start + span.count < U32_LIMIT && span.count > 0 && span.start < |s.elems| ==>
      var e := span.start + span.count;
      r.elems == s.elems[span.start..if e < |s.elems| then e else |s.elems|]
    ensures span.count == 0 ==> r == NullSlice()
  {
    SubarrayRange(s, RangeFrom(span))
  }

  /** `subarray(idxStart)`: everything from `start` on, or the null slice. */
  function SubarrayFrom<T>(s: Slice<T>, start: u32): (r: Slice<T>)
    requires s.Valid()
    ensures start < |s.elems| ==> r.elems == s.elems[start..] && r.data == Advance(s.data, start)
    ensures |s.elems| <= start ==> r == NullSlice()
  {
    Subarray(s, start, |s.elems|)
  }

  /** Taking the whole of a non-empty slice gives the slice back. */
  lemma SubarrayWhole<T>(s: Slice<T>)
    requires s.Valid() && !s.Empty() && s.data.Addr?
    ensures Subarray(s, 0, |s.elems|) == s
  {
  }

  /** A sub-view of a sub-view is a sub-view of the original at the summed offset. */
  lemma SubarrayOfSubarray<T>(s: Slice<T>, a: u32, b: u32, c: u32, d: u32)
    requires s.data.Addr?
    requires a < b && a < |s.elems|
    requires var m := Subarray(s, a, b); c < d && c < |m.elems|
    requires a + c < U32_LIMIT && a + d < U32_LIMIT
    ensures Subarray(Subarray(s, a, b), c, d).elems == Subarray(s, a + c, if b < a + d then b else a + d).elems
    ensures Subarray(Subarray(s, a, b), c, d).data == Subarray(s, a + c, a + d).data
  {
  }

  /**
   * `shrinkFromLeftByCount`: the view advances by `n` elements; the slice
   * must be non-null and hold at least `n` elements.
   */
  function ShrinkFromLeftByCount<T>(s: Slice<T>, n: nat): (r: Slice<T>)
    requires s.data.Addr?
    requires n <= |s.elems|
    ensures r.data.Addr? && r.data.addr == s.data.addr + n
    ensures s.elems == s.elems[..n] + r.elems
  {
    Slice(Advance(s.data, n), s.elems[n..])
  }

  /** Shrinking by `n` and then by `m` is shrinking by `n + m`. */
  lemma ShrinkTwice<T>(s: Slice<T>, n: nat, m: nat)
    requires s.data.Addr? && n + m <= |s.elems|
    ensures ShrinkFromLeftByCount(ShrinkFromLeftByCount(s, n), m) == ShrinkFromLeftByCount(s, n + m)
  {
    assert s.elems[n..][m..] == s.elems[n + m..];
  }

  /**
   * `indexOf`: finds the first element equal to `needle`. The out-parameter
   * is written only on success; `prior` is its value before the call.
   */
  method IndexOf<T(==)>(s: Slice<T>, needle: T, prior: u32) returns (found: bool, idx: u32)
    requires s.Valid()
    ensures found <==> needle in s.elems
    ensures found ==> idx < |s.elems| && s.elems[idx] == needle
    ensures found ==> forall j :: 0 <= j < idx ==> s.elems[j] != needle
    ensures !found ==> idx == prior
  {
    idx := prior;
    if |s.elems| == 0 {
      return false, idx;
    }
    var i: nat := 0;
    while i < |s.elems|
      invariant i <= |s.elems|
      invariant forall j :: 0 <= j < i ==> s.elems[j] != needle
    {
      if s.elems[i] == needle {
        return true, i;
      }
      i := i + 1;
    }
    return false, idx;
  }

  /**
   * `lastIndexOf`: scans down from the last index with a `u32` counter;
   * the loop ends when the counter wraps below zero.
   */
  method LastIndexOf<T(==)>(s: Slice<T>, needle: T, prior: u32) returns (found: bool, idx: u32)
    requires s.Valid()
    ensures found <==> needle in s.elems
    ensures found ==> idx < |s.elems| && s.elems[idx] == needle
    ensures found ==> forall j :: idx < j < |s.elems| ==> s.elems[j] != needle
    ensures !found ==> idx == prior
  {
    idx := prior;
    if |s.elems| == 0 {
      return false, idx;
    }
    var i: u32 := |s.elems| - 1;
    while i < |s.elems|
      invariant i < |s.elems| || i == U32_LIMIT - 1
      invariant forall j :: (if i < |s.elems| then i else -1) < j < |s.elems| ==> s.elems[j] != needle
      decreases if i < |s.elems| then i + 1 else 0
    {
      if s.elems[i] == needle {
        return true, i;
      }
      i := (i + U32_LIMIT - 1) % U32_LIMIT;
    }
    return false, idx;
  }

  /** `contains` is the success flag of `indexOf`. */
  method Contains<T(==)>(s: Slice<T>, needle: T) returns (r: bool)
    requires s.Valid()
    ensures r <==> needle in s.elems
  {
    var discard;
    r, discard := IndexOf(s, needle, 0);
  }

  /** `operator==`: equal lengths and elementwise equal; the pointers are not compared. */
  method Equals<T(==)>(a: Slice<T>, b: Slice<T>) returns (r: bool)
    ensures r <==> |a.elems| == |b.elems| && forall i :: 0 <= i < |a.elems| ==> a.elems[i] == b.elems[i]
    ensures r <==> a.elems == b.elems
  {
    if |a.elems| != |b.elems| {
      return false;
    }
    var i: nat := 0;
    while i < |a.elems|
      invariant i <= |a.elems|
      invariant a.elems[..i] == b.elems[..i]
    {
      if a.elems[i] != b.elems[i] {
        return false;
      }
      i := i + 1;
    }
    assert a.elems == a.elems[..i];
    return true;
  }

  /** `operator!=`: its own loop, which answers the negation of `operator==`. */
  method NotEquals<T(==)>(a: Slice<T>, b: Slice<T>) returns (r: bool)
    ensures r <==> a.elems != b.elems
  {
    if |a.elems| != |b.elems| {
      return true;
    }
    var i: nat := 0;
    while i < |a.elems|
      invariant i <= |a.elems|
      invariant a.elems[..i] == b.elems[..i]
    {
      if a.elems[i] != b.elems[i] {
        return true;
      }
      i := i + 1;
    }
    assert a.elems == a.elems[..i];
    return false;
  }

  /** Reversing twice gives the sequence back. */
  lemma ReversedTwice<T>(x: seq<T>)
    ensures Seqs.Reversed(Seqs.Reversed(x)) == x
  {
    forall i | 0 <= i < |x|
      ensures Seqs.Reversed(Seqs.Reversed(x))[i] == x[i]
    {
      Seqs.ReversedIndex(Seqs.Reversed(x), i);
      Seqs.ReversedIndex(x, |x| - 1 - i);
    }
  }

  /** `reverse`: swaps mirrored elements up to the middle, in place. */
  method Reverse<T>(s: Slice<T>) returns (r: Slice<T>)
    requires s.Empty() || s.data.Addr?
    ensures r.data == s.data
    ensures r.elems == Seqs.Reversed(s.elems)
  {
    var e := s.elems;
    var n := |e|;
    var mid := n / 2;
    var cur := 0;
    while cur < mid
      invariant cur <= mid && |e| == n
      invariant forall j :: 0 <= j < cur ==> e[j] == s.elems[n - 1 - j] && e[n - 1 - j] == s.elems[j]
      invariant forall j :: cur <= j < n - cur ==> e[j] == s.elems[j]
    {
      var mirror := n - 1 - cur;
      var t := e[cur];
      e := e[cur := e[mirror]][mirror := t];
      cur := cur + 1;
    }
    forall i | 0 <= i < n
      ensures e[i] == Seqs.Reversed(s.elems)[i]
    {
      Seqs.ReversedIndex(s.elems, i);
    }
    r := Slice(s.data, e);
  }

  /** Reversing a slice twice restores its contents. */
  method ReverseTwice<T>(s: Slice<T>) returns (r: Slice<T>)
    requires s.Empty() || s.data.Addr?
    ensures r == s
  {
    var once := Reverse(s);
    r := Reverse(once);
    ReversedTwice(s.elems);
  }

  /**
   * `startsWith`: an empty prefix always matches, a longer one never does,
   * otherwise the leading window is compared.
   */
  method StartsWith<T(==)>(s: Slice<T>, prefix: Slice<T>) returns (r: bool)
    requires s.Valid()
    ensures r <==> |prefix.elems| <= |s.elems| && s.elems[..|prefix.elems|] == prefix.elems
  {
    if prefix.Empty() {
      return true;
    }
    if |s.elems| < |prefix.elems| {
      return false;
    }
    r := Equals(Subarray(s, 0, |prefix.elems|), prefix);
  }

  /** `endsWith`: the mirror image of `startsWith` on the trailing window. */
  method EndsWith<T(==)>(s: Slice<T>, suffix: Slice<T>) returns (r: bool)
    requires s.Valid()
    ensures r <==> |suffix.elems| <= |s.elems| && s.elems[|s.elems| - |suffix.elems|..] == suffix.elems
  {
    if suffix.Empty() {
      return true;
    }
    if |s.elems| < |suffix.elems| {
      return false;
    }
    r := Equals(SubarrayFrom(s, |s.elems| - |suffix.elems|), suffix);
  }

  /**
   * `copy(source)`: overwrites the first `|source|` elements. An empty source
   * is a no-op; otherwise the source must fit.
   */
  method Copy<T>(dst: Slice<T>, src: Slice<T>) returns (r: Slice<T>)
    requires src.Empty() || (|src.elems| <= |dst.elems| && dst.data.Addr? && src.data.Addr?)
    ensures r.data == dst.data && |r.elems| == |dst.elems|
    ensures r.elems[..|src.elems|] == src.elems
    ensures r.elems[|src.elems|..] == dst.elems[|src.elems|..]
  {
    if src.Empty() {
      return dst;
    }
    var e := dst.elems;
    var i: nat := 0;
    while i < |src.elems|
      invariant i <= |src.elems| && |e| == |dst.elems|
      invariant e[..i] == src.elems[..i]
      invariant e[|src.elems|..] == dst.elems[|src.elems|..]
    {
      e := e[i := src.elems[i]];
      i := i + 1;
    }
    r := Slice(dst.data, e);
  }

  /** `fill`: every element becomes `value`. */
  method Fill<T>(s: Slice<T>, value: T) returns (r: Slice<T>)
    requires s.Empty() || s.data.Addr?
    ensures r.data == s.data && |r.elems| == |s.elems|
    ensures forall i :: 0 <= i < |r.elems| ==> r.elems[i] == value
  {
    var e := s.elems;
    var i: nat := 0;
    while i < |e|
      invariant i <= |e| && |e| == |s.elems|
      invariant forall j :: 0 <= j < i ==> e[j] == value
    {
      e := e[i := value];
      i := i + 1;
    }
    r := Slice(s.data, e);
  }

  /** `copyWithConversionTo`: `dst[i] := D(src[i])`; the lengths must agree. */
  method CopyWithConversionTo<S, D>(src: Slice<S>, dst: Slice<D>, conv: S -> D) returns (r: Slice<D>)
    requires |dst.elems| == |src.elems|
    requires dst.Empty() || (dst.data.Addr? && src.data.Addr?)
    ensures r.data == dst.data && |r.elems| == |src.elems|
    ensures forall i :: 0 <= i < |r.elems| ==> r.elems[i] == conv(src.elems[i])
  {
    var e := dst.elems;
    var i: nat := 0;
    while i < |e|
      invariant i <= |e| && |e| == |src.elems|
      invariant forall j :: 0 <= j < i ==> e[j] == conv(src.elems[j])
    {
      e := e[i := conv(src.elems[i])];
      i := i + 1;
    }
    r := Slice(dst.data, e);
  }

  /** `all`: every element satisfies the condition. */
  method All<T>(s: Slice<T>, cond: T -> bool) returns (r: bool)
    ensures r <==> forall i :: 0 <= i < |s.elems| ==> cond(s.elems[i])
  {
    var i: nat := 0;
    while i < |s.elems|
      invariant i <= |s.elems|
      invariant forall j :: 0 <= j < i ==> cond(s.elems[j])
    {
      if !cond(s.elems[i]) {
        return false;
      }
      i := i + 1;
    }
    return true;
  }

  /** `any`: the index of the first element satisfying the condition, if any. */
  method Any<T>(s: Slice<T>, cond: T -> bool, prior: u32) returns (r: bool, idx: u32)
    requires s.Valid()
    ensures r <==> exists i :: 0 <= i < |s.elems| && cond(s.elems[i])
    ensures r ==> idx < |s.elems| && cond(s.elems[idx]) && forall j :: 0 <= j < idx ==> !cond(s.elems[j])
    ensures !r ==> idx == prior
  {
    var i: nat := 0;
    while i < |s.elems|
      invariant i <= |s.elems|
      invariant forall j :: 0 <= j < i ==> !cond(s.elems[j])
    {
      if cond(s.elems[i]) {
        return true, i;
      }
      i := i + 1;
    }
    return false, prior;
  }
}
