/**
 * Free slice helpers: concatenation and duplication into an arena, bulk
 * copy, cursor-style append, and the byte-comparing `startsWith`.
 *
 * A new slice is carved from an arena with `allocImpl`; a carve that runs out
 * of memory yields `None`. Writes through a sub-view are folded back into
 * the slice they view with `WriteThrough`, since the model keeps no aliasing.
 */
module SliceUtils {
  import opened Types
  import opened Arenas
  import opened Slices
  import Bits

  /** A slice whose elements can be read: empty, or with a non-null pointer. */
  predicate Readable<T>(s: Slice<T>)
  {
    s.Empty() || s.data.Addr?
  }

  /**
   * The effect on `s` of writing `view`, a sub-view starting at element
   * `at`: the covered elements take the view's contents. An empty view (the
   * null slice a clamped `subarray` returns) covers nothing.
   */
  function WriteThrough<T>(s: Slice<T>, at: nat, view: Slice<T>): (r: Slice<T>)
    requires view.Empty() || at + |view.elems| <= |s.elems|
    ensures r.data == s.data && |r.elems| == |s.elems|
    ensures forall i :: 0 <= i < |s.elems| ==>
      r.elems[i] == if at <= i < at + |view.elems| then view.elems[i - at] else s.elems[i]
  {
    if view.Empty() then s
    else Slice(s.data, s.elems[..at] + view.elems + s.elems[at + |view.elems|..])
  }

  /** The block `allocNZ<T>(arena, count)` hands out, or `None` when out of memory. */
  function CarveFor(arena: Arena, t: Layout, count: u32): (r: Carve)
    requires arena.Valid() && t.alignLog < 32 && t.size > 0
    ensures r.Carved? ==> r.arena.Valid() && r.arena.beg == arena.beg && r.size == count * t.size
    ensures r.Carved? ==> arena.beg <= r.start && r.start + r.size <= arena.end
  {
    AllocImpl(arena, t.size, t.Align(), count)
  }

  /**
   * `concat`: a new slice of `|left| + |right|` elements holding `left` then
   * `right`. The block comes from `allocNZ`, so its prior contents `stale`
   * are arbitrary; every element is overwritten. A sum that overflows `u32`
   * makes the first `copy` fail its length check, so it is excluded.
   */
  method Concat<T>(arena: Arena, t: Layout, left: Slice<T>, right: Slice<T>, stale: seq<T>)
    returns (r: Option<(Arena, Slice<T>)>)
    requires arena.Valid() && t.alignLog < 32 && t.size > 0
    requires Readable(left) && Readable(right)
    requires |left.elems| + |right.elems| < U32_LIMIT
    requires |stale| == |left.elems| + |right.elems|
    ensures r.Some? <==> CarveFor(arena, t, |left.elems| + |right.elems|).Carved?
    ensures r.Some? ==>
      var c := CarveFor(arena, t, |left.elems| + |right.elems|);
      && r.value.0 == c.arena
      && r.value.1.data == Addr(c.start)
      && r.value.1.elems == left.elems + right.elems
  {
    var lenOut: u32 := |left.elems| + |right.elems|;
    var c := CarveFor(arena, t, lenOut);
    if c.OutOfMemory? {
      return None;
    }
    var ret := Slice(Addr(c.start), stale);
    var head := Subarray(ret, 0, |left.elems|);
    head := Slices.Copy(head, left);
    ret := WriteThrough(ret, 0, head);
    assert ret.elems[..|left.elems|] == left.elems;
    var tail := SubarrayFrom(ret, |left.elems|);
    tail := Slices.Copy(tail, right);
    ret := WriteThrough(ret, |left.elems|, tail);
    assert ret.elems == left.elems + right.elems;
    r := Some((c.arena, ret));
  }

  /**
   * `concatZeroTerminate`: as `concat` with one more element, which is set
   * to the value-initialised `zero`.
   */
  method ConcatZeroTerminate<T>(arena: Arena, t: Layout, left: Slice<T>, right: Slice<T>, stale: seq<T>, zero: T)
    returns (r: Option<(Arena, Slice<T>)>)
    requires arena.Valid() && t.alignLog < 32 && t.size > 0
    requires Readable(left) && Readable(right)
    requires |left.elems| + |right.elems| + 1 < U32_LIMIT
    requires |stale| == |left.elems| + |right.elems| + 1
    ensures r.Some? <==> CarveFor(arena, t, |left.elems| + |right.elems| + 1).Carved?
    ensures r.Some? ==>
      var c := CarveFor(arena, t, |left.elems| + |right.elems| + 1);
      && r.value.0 == c.arena
      && r.value.1.data == Addr(c.start)
      && r.value.1.elems == left.elems + right.elems + [zero]
  {
    var lenOut: u32 := |left.elems| + |right.elems| + 1;
    var c := CarveFor(arena, t, lenOut);
    if c.OutOfMemory? {
      return None;
    }
    var ret := Slice(Addr(c.start), stale);
    var head := Subarray(ret, 0, |left.elems|);
    head := Slices.Copy(head, left);
    ret := WriteThrough(ret, 0, head);
    assert ret.elems[..|left.elems|] == left.elems;
    var tail := SubarrayFrom(ret, |left.elems|);
    tail := Slices.Copy(tail, right);
    ret := WriteThrough(ret, |left.elems|, tail);
    assert ret.elems[..lenOut - 1] == left.elems + right.elems;
    ret := ret.(elems := ret.elems[lenOut - 1 := zero]);
    assert ret.elems == ret.elems[..lenOut - 1] + [zero];
    r := Some((c.arena, ret));
  }

  /**
   * `duplicate`: the null slice for an empty input (the arena is not
   * touched); otherwise a zero-filled block of `|in|` elements from `alloc<T>`
   * into which the input is copied.
   */
  method Duplicate<T>(arena: Arena, t: Layout, input: Slice<T>, zero: T) returns (r: Option<(Arena, Slice<T>)>)
    requires arena.Valid() && t.alignLog < 32 && t.size > 0
    requires input.Valid() && Readable(input)
    ensures input.Empty() ==> r == Some((arena, NullSlice()))
    ensures !input.Empty() ==> (r.Some? <==> CarveFor(arena, t, |input.elems|).Carved?)
    ensures r.Some? ==> r.value.1.elems == input.elems
    ensures r.Some? && !input.Empty() ==>
      var c := CarveFor(arena, t, |input.elems|);
      r.value.0 == c.arena && r.value.1.data == Addr(c.start) && c.start + c.size <= arena.end
  {
    if input.Empty() {
      return Some((arena, NullSlice()));
    }
    var c := CarveFor(arena, t, |input.elems|);
    if c.OutOfMemory? {
      return None;
    }
    var ret := Slice(Addr(c.start), seq(|input.elems|, _ => zero));
    ret := Slices.Copy(ret, input);
    assert ret.elems == ret.elems[..|input.elems|];
    r := Some((c.arena, ret));
  }

  /**
   * `append(dst, src)`: writes `src` into the front of `dst` and returns the
   * cursor `dst` advanced past what was written. `dst` must be non-null and
   * long enough. `written` is `dst` after the write; `rest` is the result.
   */
  method Append<T>(dst: Slice<T>, src: Slice<T>) returns (written: Slice<T>, rest: Slice<T>)
    requires dst.Valid() && dst.data.Addr? && Readable(src)
    requires |src.elems| <= |dst.elems|
    ensures written.data == dst.data && written.elems == src.elems + dst.elems[|src.elems|..]
    ensures rest.data == Advance(dst.data, |src.elems|) && rest.elems == dst.elems[|src.elems|..]
  {
    var view := SubarrayFrom(dst, 0);
    view := Slices.Copy(view, src);
    written := WriteThrough(dst, 0, view);
    assert written.elems == src.elems + dst.elems[|src.elems|..];
    rest := ShrinkFromLeftByCount(written, |src.elems|);
  }

  /** `append(dst, elem)`: the one-element form; `dst` must hold at least one element. */
  method AppendElement<T>(dst: Slice<T>, elem: T) returns (written: Slice<T>, rest: Slice<T>)
    requires dst.Valid() && dst.data.Addr? && |dst.elems| >= 1
    ensures written.data == dst.data && written.elems == [elem] + dst.elems[1..]
    ensures rest.data == Advance(dst.data, 1) && rest.elems == dst.elems[1..]
  {
    written, rest := Append(dst, Slice(Addr(0), [elem]));
  }

  /**
   * Two appends in a row write both sources back to back: the second one
   * lands where the first cursor stopped, and the final cursor is the one a
   * single append of the concatenation returns.
   */
  method AppendTwice<T>(dst: Slice<T>, a: Slice<T>, b: Slice<T>) returns (rest: Slice<T>)
    requires dst.Valid() && dst.data.Addr? && Readable(a) && Readable(b)
    requires |a.elems| + |b.elems| <= |dst.elems|
    ensures rest.data == Advance(dst.data, |a.elems| + |b.elems|)
    ensures rest.elems == dst.elems[|a.elems| + |b.elems|..]
  {
    var w1, r1 := Append(dst, a);
    var w2, r2 := Append(r1, b);
    assert r1.elems[|b.elems|..] == dst.elems[|a.elems| + |b.elems|..];
    rest := r2;
  }

  /** The free `endsWith`: the trailing window compared with `operator==`; no null test. */
  method EndsWith<T(==)>(self: Slice<T>, suffix: Slice<T>) returns (r: bool)
    requires self.Valid()
    ensures r <==> |suffix.elems| <= |self.elems| && self.elems[|self.elems| - |suffix.elems|..] == suffix.elems
  {
    if |self.elems| < |suffix.elems| {
      return false;
    }
    var end := SubarrayFrom(self, |self.elems| - |suffix.elems|);
    r := Slices.Equals(end, suffix);
  }

  // The byte-comparing `startsWith`.

  /**
   * The object representation of a `T`: `size` bytes per value, fixed for
   * the type.
   */
  ghost predicate FixedWidth<T(!new)>(image: T -> seq<u8>, size: nat)
  {
    size > 0 && forall x :: |image(x)| == size
  }

  /** The bytes of consecutive elements in memory. */
  function Bytes<T>(xs: seq<T>, image: T -> seq<u8>): seq<u8>
  {
    if |xs| == 0 then [] else image(xs[0]) + Bytes(xs[1..], image)
  }

  lemma {:induction false} BytesLength<T(!new)>(xs: seq<T>, image: T -> seq<u8>, size: nat)
    requires FixedWidth(image, size)
    ensures |Bytes(xs, image)| == |xs| * size
  {
    if |xs| > 0 {
      BytesLength(xs[1..], image, size);
    }
  }

  lemma {:induction false} BytesAppend<T>(a: seq<T>, b: seq<T>, image: T -> seq<u8>)
    ensures Bytes(a + b, image) == Bytes(a, image) + Bytes(b, image)
  {
    if |a| > 0 {
      assert (a + b)[1..] == a[1..] + b;
      BytesAppend(a[1..], b, image);
    } else {
      assert a + b == b;
    }
  }

  /** The first `n` bytes of two byte strings exist and agree. */
  predicate SameLeadingBytes(x: seq<u8>, y: seq<u8>, n: nat)
  {
    n <= |x| && n <= |y| && x[..n] == y[..n]
  }

  /**
   * The free `startsWith`: false when either pointer is null (even for an
   * empty prefix) or the prefix is longer; otherwise `memcmp` of
   * `prefix.length` BYTES, which for a type wider than one byte covers only
   * part of the prefix.
   */
  function StartsWithBytes<T(!new)>(left: Slice<T>, prefix: Slice<T>, image: T -> seq<u8>, size: nat): (r: bool)
    requires FixedWidth(image, size)
    ensures left.data.Null? || prefix.data.Null? ==> !r
    ensures |left.elems| < |prefix.elems| ==> !r
    ensures r <==>
      && left.data.Addr? && prefix.data.Addr? && |prefix.elems| <= |left.elems|
      && SameLeadingBytes(Bytes(left.elems, image), Bytes(prefix.elems, image), |prefix.elems|)
  {
    if left.data.Null? || prefix.data.Null? then false
    else if |left.elems| < |prefix.elems| then false
    else
      var n := |prefix.elems|;
      BytesLength(left.elems, image, size);
      BytesLength(prefix.elems, image, size);
      Bytes(left.elems, image)[..n] == Bytes(prefix.elems, image)[..n]
  }

  /** An element-wise prefix always passes the byte test. */
  lemma StartsWithBytesSound<T(!new)>(left: Slice<T>, prefix: Slice<T>, image: T -> seq<u8>, size: nat)
    requires FixedWidth(image, size)
    requires left.data.Addr? && prefix.data.Addr?
    requires |prefix.elems| <= |left.elems| && left.elems[..|prefix.elems|] == prefix.elems
    ensures StartsWithBytes(left, prefix, image, size)
  {
    var n := |prefix.elems|;
    var bp := Bytes(prefix.elems, image);
    var br := Bytes(left.elems[n..], image);
    assert left.elems == prefix.elems + left.elems[n..];
    BytesAppend(prefix.elems, left.elems[n..], image);
    assert Bytes(left.elems, image) == bp + br;
    BytesLength(prefix.elems, image, size);
    if n > 0 {
      Bits.MulAtLeast(n, size);
    }
    assert n <= |bp|;
    assert (bp + br)[..n] == bp[..n];
  }

  /**
   * For one-byte elements with distinct images (`char`, `u8`) the byte test
   * is exactly the element-wise prefix test.
   */
  lemma StartsWithBytesOfBytes<T(!new)>(left: Slice<T>, prefix: Slice<T>, image: T -> seq<u8>)
    requires FixedWidth(image, 1)
    requires forall x, y :: image(x) == image(y) ==> x == y
    requires left.data.Addr? && prefix.data.Addr? && |prefix.elems| <= |left.elems|
    ensures StartsWithBytes(left, prefix, image, 1) <==> left.elems[..|prefix.elems|] == prefix.elems
  {
    var n := |prefix.elems|;
    if StartsWithBytes(left, prefix, image, 1) {
      assert left.elems == left.elems[..n] + left.elems[n..];
      BytesAppend(left.elems[..n], left.elems[n..], image);
      BytesLength(left.elems[..n], image, 1);
      BytesLength(prefix.elems, image, 1);
      BytesInjective(left.elems[..n], prefix.elems, image);
    } else {
      if left.elems[..n] == prefix.elems {
        StartsWithBytesSound(left, prefix, image, 1);
      }
    }
  }

  /** With one byte per element and distinct images, equal bytes mean equal elements. */
  lemma {:induction false} BytesInjective<T(!new)>(a: seq<T>, b: seq<T>, image: T -> seq<u8>)
    requires FixedWidth(image, 1)
    requires forall x, y :: image(x) == image(y) ==> x == y
    requires |a| == |b| && Bytes(a, image) == Bytes(b, image)
    ensures a == b
  {
    if |a| > 0 {
      var x, y := Bytes(a, image), Bytes(b, image);
      assert x[..1] == image(a[0]) && y[..1] == image(b[0]);
      assert x[1..] == Bytes(a[1..], image) && y[1..] == Bytes(b[1..], image);
      BytesInjective(a[1..], b[1..], image);
    }
  }

  /** The little-endian bytes of a `u32`. */
  function LittleEndian32(x: u32): seq<u8>
  {
    [x % 0x100, x / 0x100 % 0x100, x / 0x1_0000 % 0x100, x / 0x100_0000]
  }

  /**
   * For four-byte elements the byte test reads only the first
   * `prefix.length` bytes: `[0x100]` "starts with" `[0x200]` on a
   * little-endian target, though the elements differ.
   */
  lemma StartsWithBytesWiderElements()
    ensures FixedWidth(LittleEndian32, 4)
    ensures var l: seq<u32>, p: seq<u32> := [0x100], [0x200];
      l != p && StartsWithBytes(Slice(Addr(0), l), Slice(Addr(8), p), LittleEndian32, 4)
  {
    var l: seq<u32> := [0x100];
    var p: seq<u32> := [0x200];
    assert Bytes(l[1..], LittleEndian32) == [];
    assert Bytes(p[1..], LittleEndian32) == [];
    assert Bytes(l, LittleEndian32)[..1] == [0];
    assert Bytes(p, LittleEndian32)[..1] == [0];
  }
}
