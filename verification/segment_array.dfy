/**
 * A segment-based dynamic array.
 *
 * Elements live in power-of-two sized segments carved from an arena on
 * demand. Segment `k` holds `2^(6+k)` elements (the six smallest sizes are
 * skipped), so the first `n` segments hold `2^(6+n) - 64` elements and item
 * `i` lives in segment `floor(log2(i/64 + 1))`. Segments are never moved or
 * freed: growing only appends a new one.
 *
 * A segment is modelled as its base address plus the values of its slots;
 * the values are typed, so a slot is read and written whole.
 */
module SegmentArrays {
  import opened Types
  import opened Arenas
  import opened Slices
  import opened Seqs
  import Utils

  const SMALL_SEGMENTS_TO_SKIP: nat := 6
  /** The capacity of the fixed array of segment pointers. */
  const MAX_SEGMENTS: nat := 26

  // ---------------------------------------------------------------------
  // Index arithmetic
  // ---------------------------------------------------------------------

  lemma SegmentSizeFacts(k: nat)
    requires k <= MAX_SEGMENTS
    ensures (64 * Pow2(k)) % U32_LIMIT == if k < MAX_SEGMENTS then Pow2(SMALL_SEGMENTS_TO_SKIP + k) else 0
  {
    Pow2Of32();
    assert Pow2(6) == 64;
    Pow2Add(6, k);
    assert Pow2(32) == 2 * Pow2(31);
    if k < MAX_SEGMENTS {
      Pow2Monotone(6 + k, 31);
    }
  }

  /** Where `2^(6+n)` lies for the segment counts that occur. */
  lemma SegmentPowerBounds(n: nat)
    requires n <= MAX_SEGMENTS
    ensures 64 <= Pow2(SMALL_SEGMENTS_TO_SKIP + n) <= U32_LIMIT
    ensures n < MAX_SEGMENTS ==> Pow2(SMALL_SEGMENTS_TO_SKIP + n) < U32_LIMIT
  {
    Pow2Of32();
    assert Pow2(6) == 64;
    Pow2Monotone(6, SMALL_SEGMENTS_TO_SKIP + n);
    Pow2Monotone(SMALL_SEGMENTS_TO_SKIP + n, 32);
    if n < MAX_SEGMENTS {
      Pow2Monotone(SMALL_SEGMENTS_TO_SKIP + n, 31);
      assert Pow2(32) == 2 * Pow2(31);
    }
  }

  /** The closed form of a segment's size, for the 26 indices that can be allocated. */
  function SegmentSize(k: nat): (r: nat)
    requires k < MAX_SEGMENTS
    ensures 64 <= r < U32_LIMIT
  {
    SegmentPowerBounds(k);
    Pow2(SMALL_SEGMENTS_TO_SKIP + k)
  }

  /** The closed form of the capacity of the first `n` segments. */
  function Capacity(n: nat): (r: nat)
    requires n <= MAX_SEGMENTS
    ensures r <= U32_LIMIT - 64
  {
    SegmentPowerBounds(n);
    Pow2(SMALL_SEGMENTS_TO_SKIP + n) - 64
  }

  /**
   * `sizeOfSegment`: `64 << k` in 32-bit arithmetic, which is `2^(6+k)`
   * below the last segment index and wraps to 0 at 26.
   */
  function SizeOfSegment(k: nat): (r: u32)
    requires k <= MAX_SEGMENTS
    ensures k < MAX_SEGMENTS ==> r == SegmentSize(k) > 0
    ensures k == MAX_SEGMENTS ==> r == 0
  {
    SegmentSizeFacts(k);
    (64 * Pow2(k)) % U32_LIMIT
  }

  /**
   * `capacityForSegmentCount`: `sizeOfSegment(n) - sizeOfSegment(0)` with
   * 32-bit wrap, which is `2^(6+n) - 64` for every `n` up to 26 (at 26 the
   * wrapped subtraction still lands on `2^32 - 64`).
   */
  function CapacityForSegmentCount(n: nat): (r: u32)
    requires n <= MAX_SEGMENTS
    ensures r == Capacity(n)
  {
    CapacityWrapFacts(n);
    (SizeOfSegment(n) - SizeOfSegment(0)) % U32_LIMIT
  }

  lemma CapacityWrapFacts(n: nat)
    requires n <= MAX_SEGMENTS
    ensures (SizeOfSegment(n) - SizeOfSegment(0)) % U32_LIMIT == Capacity(n)
  {
    Pow2Of32();
    assert Pow2(6) == 64;
    SegmentPowerBounds(n);
  }

  /** The total size of the first `n` segments, summed one by one. */
  function SumOfSizes(n: nat): nat
    requires n <= MAX_SEGMENTS
  {
    if n == 0 then 0 else SumOfSizes(n - 1) + SizeOfSegment(n - 1)
  }

  /** The capacity of `n` segments is the sum of their sizes. */
  lemma {:induction false} CapacityIsSumOfSizes(n: nat)
    requires n <= MAX_SEGMENTS
    ensures CapacityForSegmentCount(n) == SumOfSizes(n)
  {
    if n > 0 {
      CapacityIsSumOfSizes(n - 1);
      CapacityStep(n - 1);
    }
  }

  /** Adding segment `n` adds its size to the capacity. */
  lemma CapacityStep(n: nat)
    requires n < MAX_SEGMENTS
    ensures Capacity(n + 1) == Capacity(n) + SegmentSize(n)
  {
    assert Pow2(SMALL_SEGMENTS_TO_SKIP + n + 1) == 2 * Pow2(SMALL_SEGMENTS_TO_SKIP + n);
  }

  lemma CapacityMonotone(a: nat, b: nat)
    requires a < b <= MAX_SEGMENTS
    ensures Capacity(a) < Capacity(b)
  {
    Pow2Monotone(SMALL_SEGMENTS_TO_SKIP + a + 1, SMALL_SEGMENTS_TO_SKIP + b);
    assert Pow2(SMALL_SEGMENTS_TO_SKIP + a + 1) == 2 * Pow2(SMALL_SEGMENTS_TO_SKIP + a);
  }

  /**
   * `_log2i`: `64 - clz64(x) - 1` as a `u32`; the floor of the base-2
   * logarithm for non-zero `x`, and `2^32 - 1` (the wrapped `-1`) for zero.
   */
  function Log2i(x: u64): (r: u32)
    ensures x > 0 ==> Pow2(r) <= x < Pow2(r + 1)
    ensures x == 0 ==> r == U32_LIMIT - 1
  {
    (64 - Utils.CountLeadingZeros64(x) - 1) % U32_LIMIT
  }

  lemma ItemQuotientBound(i: u32)
    ensures i / 64 + 1 <= Pow2(MAX_SEGMENTS)
    ensures 64 * (i / 64) <= i < 64 * (i / 64) + 64
  {
    Pow2Of32();
    assert Pow2(6) == 64;
    Pow2Add(6, 26);
  }

  /** The window facts for `log2(i/64 + 1)`, which `getSegmentForItem` computes. */
  lemma SegmentForItemFacts(i: u32)
    ensures var r := Log2i(i / 64 + 1);
      && r <= MAX_SEGMENTS
      && Capacity(r) <= i
      && (r < MAX_SEGMENTS ==> i < Capacity(r + 1))
  {
    ItemQuotientBound(i);
    Pow2Of64();
    assert Pow2(6) == 64;
    var x := i / 64 + 1;
    var r := Log2i(x);
    if r > MAX_SEGMENTS {
      Pow2Monotone(MAX_SEGMENTS + 1, r);
    } else {
      Pow2Add(SMALL_SEGMENTS_TO_SKIP, r);
      Pow2Add(SMALL_SEGMENTS_TO_SKIP, r + 1);
    }
  }

  /**
   * `getSegmentForItem`: the segment holding item `i`. It is at most 26,
   * the item lies at or above the segment's first index, and below its end
   * unless it is one of the last 64 indices of the `u32` range (which no
   * allocated segment holds).
   */
  function GetSegmentForItem(i: u32): (r: u32)
    ensures r <= MAX_SEGMENTS
    ensures Capacity(r) <= i
    ensures r < MAX_SEGMENTS ==> i < Capacity(r + 1)
  {
    SegmentForItemFacts(i);
    Log2i(i / 64 + 1)
  }

  /** Any `s` whose index window holds `i` is the segment for `i`. */
  lemma SegmentForItemUnique(i: u32, s: nat)
    requires s <= MAX_SEGMENTS
    requires Capacity(s) <= i
    requires s < MAX_SEGMENTS ==> i < Capacity(s + 1)
    ensures GetSegmentForItem(i) == s
  {
    var r := GetSegmentForItem(i);
    if r < s {
      if r + 1 < s {
        CapacityMonotone(r + 1, s);
      }
    } else if r > s {
      if s + 1 < r {
        CapacityMonotone(s + 1, r);
      }
    }
  }

  /**
   * The first three windows, which contain the unit tests' cases (items 0,
   * 1 and 63 in segment 0, 64 in segment 1, 192 in segment 2).
   */
  lemma FirstSegmentWindows()
    ensures forall i: u32 :: i < 64 ==> GetSegmentForItem(i) == 0
    ensures forall i: u32 :: 64 <= i < 192 ==> GetSegmentForItem(i) == 1
    ensures forall i: u32 :: 192 <= i < 448 ==> GetSegmentForItem(i) == 2
  {
    FirstCapacities();
    forall i: u32 | i < 448
      ensures GetSegmentForItem(i) == if i < 64 then 0 else if i < 192 then 1 else 2
    {
      SegmentForItemUnique(i, if i < 64 then 0 else if i < 192 then 1 else 2);
    }
  }

  lemma FirstCapacities()
    ensures Capacity(0) == 0 && Capacity(1) == 64 && Capacity(2) == 192 && Capacity(3) == 448
  {
    assert Pow2(6) == 64 && Pow2(7) == 128 && Pow2(8) == 256 && Pow2(9) == 512;
  }

  // ---------------------------------------------------------------------
  // The array
  // ---------------------------------------------------------------------

  /** One allocated segment: where it starts and what its slots hold. */
  datatype Segment<T> = Segment(base: nat, slots: seq<T>)

  /**
   * `SegmentArray<T>`: the arena it grows into, the element layout, the
   * number of pushed elements and the allocated segments, in order.
   */
  datatype SegmentArray<T> = SegmentArray(arena: Arena, layout: Layout, length: u32, segments: seq<Segment<T>>)
  {
    /**
     * At most 26 segments, each of its index's size and lying above the
     * arena's remaining window, and the elements fit the allocated ones.
     */
    predicate Valid()
    {
      && arena.Valid()
      && layout.alignLog < 32 && layout.size > 0
      && |segments| <= MAX_SEGMENTS
      && (forall k :: 0 <= k < |segments| ==> |segments[k].slots| == SegmentSize(k))
      && (forall k :: 0 <= k < |segments| ==> arena.end <= segments[k].base)
      && length <= Capacity(|segments|)
    }

    /** No segment is allocated ahead of need: the last one is at least entered. */
    predicate Packed()
      requires Valid()
    {
      |segments| > 0 ==> Capacity(|segments| - 1) <= length
    }
  }

  /** The two arrays hold the same segments at the same addresses, and `b` may have more. */
  predicate KeepsSegments<T>(a: SegmentArray<T>, b: SegmentArray<T>)
  {
    && |a.segments| <= |b.segments|
    && forall k :: 0 <= k < |a.segments| ==> b.segments[k].base == a.segments[k].base
  }

  /** `SegmentArray(arena)`: empty, with no segment allocated. */
  function NewSegmentArray<T>(arena: Arena, layout: Layout): (r: SegmentArray<T>)
    requires arena.Valid() && layout.Valid()
    ensures r.Valid() && r.Packed()
    ensures r.length == 0 && r.segments == []
    ensures Elements(r) == []
  {
    SegmentArray(arena, layout, 0, [])
  }

  /** Item `i` below the capacity of the allocated segments lies in one of them. */
  lemma ItemInAllocatedSegment<T>(sa: SegmentArray<T>, i: u32)
    requires sa.Valid() && i < Capacity(|sa.segments|)
    ensures GetSegmentForItem(i) < |sa.segments|
  {
    var s := GetSegmentForItem(i);
    if s > |sa.segments| {
      CapacityMonotone(|sa.segments|, s);
    }
  }

  /**
   * `getSlotForItem`: the segment and the offset within it; the segment must
   * be allocated. The offset is `i - capacityForSegmentCount(segment)`,
   * which stays below the segment's size.
   */
  function GetSlotForItem<T>(sa: SegmentArray<T>, i: u32): (r: (nat, nat))
    requires sa.Valid()
    requires GetSegmentForItem(i) < |sa.segments|
    ensures r.0 == GetSegmentForItem(i) && r.0 < |sa.segments|
    ensures r.1 < |sa.segments[r.0].slots|
    ensures Capacity(r.0) + r.1 == i
  {
    var s := GetSegmentForItem(i);
    CapacityStep(s);
    (s, i - CapacityForSegmentCount(s))
  }

  /** Conversely, every slot of an allocated segment is the slot of exactly one item. */
  lemma SlotForItemInverse<T>(sa: SegmentArray<T>, s: nat, off: nat, i: u32)
    requires sa.Valid() && s < |sa.segments| && off < SegmentSize(s)
    requires i == Capacity(s) + off
    ensures GetSegmentForItem(i) == s
    ensures GetSlotForItem(sa, i) == (s, off)
  {
    CapacityStep(s);
    SegmentForItemUnique(i, s);
  }

  /** All segments' slots laid end to end. */
  function Flatten<T>(segs: seq<Segment<T>>): seq<T>
  {
    if |segs| == 0 then [] else Flatten(segs[..|segs| - 1]) + segs[|segs| - 1].slots
  }

  /** At most 26 segments, each of its index's size. */
  predicate SizedSegments<T>(segs: seq<Segment<T>>)
  {
    && |segs| <= MAX_SEGMENTS
    && forall k :: 0 <= k < |segs| ==> |segs[k].slots| == SegmentSize(k)
  }

  lemma CapacityOfNone()
    ensures Capacity(0) == 0
  {
    assert Pow2(6) == 64;
  }

  /** The segments laid end to end hold exactly the capacity. */
  lemma {:induction false} FlattenLength<T>(segs: seq<Segment<T>>)
    requires SizedSegments(segs)
    ensures |Flatten(segs)| == Capacity(|segs|)
  {
    if |segs| == 0 {
      CapacityOfNone();
    } else {
      var last := |segs| - 1;
      assert SizedSegments(segs[..last]);
      FlattenLength(segs[..last]);
      CapacityStep(last);
    }
  }

  /** Slot `off` of segment `s` is at position `capacity(s) + off` of the flattened segments. */
  lemma {:induction false} FlattenIndex<T>(segs: seq<Segment<T>>, s: nat, off: nat)
    requires SizedSegments(segs)
    requires s < |segs| && off < SegmentSize(s)
    ensures |Flatten(segs)| == Capacity(|segs|)
    ensures Capacity(s) + off < |Flatten(segs)|
    ensures Flatten(segs)[Capacity(s) + off] == segs[s].slots[off]
  {
    var last := |segs| - 1;
    var init := segs[..last];
    assert SizedSegments(init);
    FlattenLength(segs);
    FlattenLength(init);
    CapacityStep(last);
    if s < last {
      CapacityStep(s);
      if s + 1 < last {
        CapacityMonotone(s + 1, last);
      }
      FlattenIndex(init, s, off);
    }
  }

  /** Writing one slot writes the matching position of the flattened segments. */
  lemma {:induction false} FlattenWriteSlot<T>(segs: seq<Segment<T>>, s: nat, off: nat, v: T)
    requires SizedSegments(segs)
    requires s < |segs| && off < SegmentSize(s)
    ensures Capacity(s) + off < |Flatten(segs)|
    ensures Flatten(WriteSlot(segs, s, off, v)) == Flatten(segs)[Capacity(s) + off := v]
  {
    FlattenIndex(segs, s, off);
    var last := |segs| - 1;
    var init := segs[..last];
    var w := WriteSlot(segs, s, off, v);
    assert SizedSegments(init);
    FlattenLength(init);
    if s == last {
      assert w[..last] == init;
      UpdateRight(Flatten(init), segs[last].slots, off, v);
    } else {
      CapacityStep(s);
      if s + 1 < last {
        CapacityMonotone(s + 1, last);
      }
      assert w[..last] == WriteSlot(init, s, off, v);
      FlattenWriteSlot(init, s, off, v);
      UpdateLeft(Flatten(init), segs[last].slots, Capacity(s) + off, v);
    }
  }

  /**
   * The pushed elements in index order: the first `length` slots of the
   * segments laid end to end.
   */
  function Elements<T>(sa: SegmentArray<T>): (r: seq<T>)
    requires sa.Valid()
    ensures |r| == sa.length
  {
    FlattenLength(sa.segments);
    Flatten(sa.segments)[..sa.length]
  }

  /** `sa[i]`: the value in the slot `getSlotForItem` locates. */
  function At<T>(sa: SegmentArray<T>, i: u32): T
    requires sa.Valid() && GetSegmentForItem(i) < |sa.segments|
  {
    var p := GetSlotForItem(sa, i);
    sa.segments[p.0].slots[p.1]
  }

  /** Indexing through the segment arithmetic reads the `i`-th element. */
  lemma AtIsElement<T>(sa: SegmentArray<T>, i: u32)
    requires sa.Valid() && i < sa.length
    ensures GetSegmentForItem(i) < |sa.segments|
    ensures At(sa, i) == Elements(sa)[i]
  {
    ItemInAllocatedSegment(sa, i);
    var p := GetSlotForItem(sa, i);
    FlattenIndex(sa.segments, p.0, p.1);
  }

  // ---------------------------------------------------------------------
  // Growing and pushing
  // ---------------------------------------------------------------------

  /** The outcome of an operation that may allocate: the new array, or out of memory. */
  datatype Step<T> = Ok(sa: SegmentArray<T>) | Oom

  /**
   * `grow`: carve segment `numSegments` from the arena (zero-filled, so
   * every slot holds `zero`) and append it; the existing segments stay
   * where they are. The array stays packed exactly when it was full.
   */
  function Grow<T>(sa: SegmentArray<T>, zero: T): (r: Step<T>)
    requires sa.Valid() && |sa.segments| < MAX_SEGMENTS
    ensures r.Ok? <==> AllocImpl(sa.arena, sa.layout.size, sa.layout.Align(), SizeOfSegment(|sa.segments|)).Carved?
    ensures r.Ok? ==>
      && r.sa.Valid()
      && r.sa.length == sa.length
      && |r.sa.segments| == |sa.segments| + 1
      && r.sa.segments[..|sa.segments|] == sa.segments
      && (forall j :: 0 <= j < SegmentSize(|sa.segments|) ==> r.sa.segments[|sa.segments|].slots[j] == zero)
      && Elements(r.sa) == Elements(sa)
      && (r.sa.Packed() <==> sa.length == Capacity(|sa.segments|))
    ensures r.Ok? ==> r.sa.layout == sa.layout
  {
    var n := |sa.segments|;
    var c := AllocImpl(sa.arena, sa.layout.size, sa.layout.Align(), SizeOfSegment(n));
    if c.OutOfMemory? then Oom
    else
      var g := sa.(arena := c.arena, segments := sa.segments + [Segment(c.start, seq(SizeOfSegment(n), _ => zero))]);
      GrowKeeps(sa, g, c, zero);
      Ok(g)
  }

  /** The array `grow` builds from a carved segment keeps everything already there. */
  lemma GrowKeeps<T>(sa: SegmentArray<T>, g: SegmentArray<T>, c: Carve, zero: T)
    requires sa.Valid() && |sa.segments| < MAX_SEGMENTS
    requires c == AllocImpl(sa.arena, sa.layout.size, sa.layout.Align(), SizeOfSegment(|sa.segments|)) && c.Carved?
    requires g == sa.(arena := c.arena, segments := sa.segments + [Segment(c.start, seq(SizeOfSegment(|sa.segments|), _ => zero))])
    ensures g.Valid()
    ensures g.segments[..|sa.segments|] == sa.segments
    ensures Elements(g) == Elements(sa)
    ensures g.Packed() <==> sa.length == Capacity(|sa.segments|)
  {
    var n := |sa.segments|;
    CapacityMonotone(n, n + 1);
    assert g.segments[..n] == sa.segments;
    assert g.Valid();
    FlattenLength(sa.segments);
  }

  /** A push fits: either a segment can still be added, or the last one has room. */
  predicate CanPush<T>(sa: SegmentArray<T>)
    requires sa.Valid()
  {
    |sa.segments| < MAX_SEGMENTS || sa.length < Capacity(|sa.segments|)
  }

  /**
   * `growIfNeededPrePush`: grow only when the allocated segments are full,
   * so that afterwards there is a free slot for the next element.
   */
  function GrowIfNeededPrePush<T>(sa: SegmentArray<T>, zero: T): (r: Step<T>)
    requires sa.Valid() && CanPush(sa)
    ensures sa.length < Capacity(|sa.segments|) ==> r == Ok(sa)
    ensures sa.length == Capacity(|sa.segments|) ==> r == Grow(sa, zero)
    ensures r.Ok? ==>
      && r.sa.Valid()
      && r.sa.length == sa.length
      && r.sa.length < Capacity(|r.sa.segments|)
      && KeepsSegments(sa, r.sa)
      && Elements(r.sa) == Elements(sa)
      && (sa.Packed() ==> r.sa.Packed())
    ensures r.Ok? ==> r.sa.layout == sa.layout
  {
    if sa.length >= CapacityForSegmentCount(|sa.segments|) then
      var r := Grow(sa, zero);
      if r.Ok? then
        CapacityStep(|sa.segments|);
        assert forall k :: 0 <= k < |sa.segments| ==> r.sa.segments[k] == r.sa.segments[..|sa.segments|][k];
        r
      else r
    else Ok(sa)
  }

  /**
   * Storing `v` in the slot of item `length` and counting it: the common
   * tail of both `push` overloads and of the bulk copy.
   */
  function WriteNext<T>(sa: SegmentArray<T>, v: T): (r: SegmentArray<T>)
    requires sa.Valid() && sa.length < Capacity(|sa.segments|)
    ensures r.Valid()
    ensures r.length == sa.length + 1
    ensures Elements(r) == Elements(sa) + [v]
    ensures r.arena == sa.arena && r.layout == sa.layout
    ensures |r.segments| == |sa.segments| && KeepsSegments(sa, r)
    ensures sa.Packed() ==> r.Packed()
  {
    ItemInAllocatedSegment(sa, sa.length);
    var p := GetSlotForItem(sa, sa.length);
    var r := sa.(length := sa.length + 1, segments := WriteSlot(sa.segments, p.0, p.1, v));
    WriteNextElements(sa, v, p.0, p.1, r);
    r
  }

  /** The segments with slot `off` of segment `s` replaced by `v`. */
  function WriteSlot<T>(segs: seq<Segment<T>>, s: nat, off: nat, v: T): (r: seq<Segment<T>>)
    requires s < |segs| && off < |segs[s].slots|
    ensures |r| == |segs|
    ensures forall k :: 0 <= k < |r| ==> r[k].base == segs[k].base && |r[k].slots| == |segs[k].slots|
    ensures r[s].slots[off] == v
    ensures forall k, j :: 0 <= k < |r| && 0 <= j < |r[k].slots| && (k != s || j != off) ==>
      r[k].slots[j] == segs[k].slots[j]
  {
    segs[s := segs[s].(slots := segs[s].slots[off := v])]
  }

  lemma WriteNextElements<T>(sa: SegmentArray<T>, v: T, s: nat, off: nat, r: SegmentArray<T>)
    requires sa.Valid() && s < |sa.segments| && off < SegmentSize(s)
    requires sa.length == Capacity(s) + off
    requires r == sa.(length := sa.length + 1, segments := WriteSlot(sa.segments, s, off, v))
    ensures r.Valid()
    ensures Elements(r) == Elements(sa) + [v]
    ensures |r.segments| == |sa.segments| && KeepsSegments(sa, r)
    ensures sa.Packed() ==> r.Packed()
  {
    WriteSlotValid(sa, v, s, off, r);
    FlattenWriteSlot(sa.segments, s, off, v);
    UpdateTake(Flatten(sa.segments), sa.length, v);
  }

  lemma WriteSlotValid<T>(sa: SegmentArray<T>, v: T, s: nat, off: nat, r: SegmentArray<T>)
    requires sa.Valid() && s < |sa.segments| && off < SegmentSize(s)
    requires sa.length == Capacity(s) + off
    requires r == sa.(length := sa.length + 1, segments := WriteSlot(sa.segments, s, off, v))
    ensures r.Valid() && SizedSegments(sa.segments)
    ensures |r.segments| == |sa.segments| && KeepsSegments(sa, r)
    ensures sa.Packed() ==> r.Packed()
    ensures |Flatten(sa.segments)| == Capacity(|sa.segments|) && sa.length < |Flatten(sa.segments)|
  {
    CapacityStep(s);
    if s + 1 < |sa.segments| {
      CapacityMonotone(s + 1, |sa.segments|);
    }
    FlattenLength(sa.segments);
  }

  /** The next item's slot is slot `off` of segment `s` exactly when its index is `capacity(s) + off`. */
  lemma WriteNextAt<T>(sa: SegmentArray<T>, v: T, s: nat, off: nat)
    requires sa.Valid() && s < |sa.segments| && off < SegmentSize(s)
    requires sa.length == Capacity(s) + off
    ensures sa.length < Capacity(|sa.segments|)
    ensures WriteNext(sa, v) == sa.(length := sa.length + 1, segments := WriteSlot(sa.segments, s, off, v))
  {
    CapacityStep(s);
    if s + 1 < |sa.segments| {
      CapacityMonotone(s + 1, |sa.segments|);
    }
    SlotForItemInverse(sa, s, off, sa.length);
  }

  /**
   * `push(value)`: grow if needed, then store the value after the last
   * element. The earlier elements and every existing segment's address are
   * unchanged.
   */
  function Push<T>(sa: SegmentArray<T>, v: T, zero: T): (r: Step<T>)
    requires sa.Valid() && CanPush(sa)
    ensures r.Ok? ==>
      && r.sa.Valid()
      && r.sa.length == sa.length + 1
      && Elements(r.sa) == Elements(sa) + [v]
      && KeepsSegments(sa, r.sa)
      && (sa.Packed() ==> r.sa.Packed())
    ensures r.Ok? ==> r.sa.layout == sa.layout
    ensures r.Oom? ==> sa.length == Capacity(|sa.segments|)
  {
    match GrowIfNeededPrePush(sa, zero)
    case Oom => Oom
    case Ok(g) => Ok(WriteNext(g, v))
  }

  /** `push()`: as `push(value)` with the value-initialised element. */
  function PushDefault<T>(sa: SegmentArray<T>, zero: T): (r: Step<T>)
    requires sa.Valid() && CanPush(sa)
    ensures r.Ok? ==> r.sa.Valid() && Elements(r.sa) == Elements(sa) + [zero]
    ensures r == Push(sa, zero, zero)
  {
    Push(sa, zero, zero)
  }

  /** Room for `k` more elements within the 26 segments. */
  predicate HasRoomFor<T>(sa: SegmentArray<T>, k: nat)
  {
    sa.length + k <= Capacity(MAX_SEGMENTS)
  }

  lemma RoomGivesPush<T>(sa: SegmentArray<T>)
    requires sa.Valid() && HasRoomFor(sa, 1)
    ensures CanPush(sa)
  {
  }

  /** Pushing the elements of `vs` one at a time, in order; stops at the first failure. */
  function PushEach<T>(sa: SegmentArray<T>, vs: seq<T>, zero: T): (r: Step<T>)
    requires sa.Valid() && HasRoomFor(sa, |vs|)
    ensures r.Ok? ==>
      && r.sa.Valid()
      && r.sa.length == sa.length + |vs|
      && Elements(r.sa) == Elements(sa) + vs
      && KeepsSegments(sa, r.sa)
      && (sa.Packed() ==> r.sa.Packed())
    ensures r.Ok? ==> r.sa.layout == sa.layout
    decreases |vs|
  {
    if |vs| == 0 then Ok(sa)
    else
      match Push(sa, vs[0], zero)
      case Oom => Oom
      case Ok(s1) =>
        var r := PushEach(s1, vs[1..], zero);
        PushEachStep(sa, s1, r, vs);
        r
  }

  /** Chaining the first push with the pushes of the rest. */
  lemma PushEachStep<T>(sa: SegmentArray<T>, s1: SegmentArray<T>, r: Step<T>, vs: seq<T>)
    requires sa.Valid() && s1.Valid() && |vs| > 0
    requires s1.length == sa.length + 1 && Elements(s1) == Elements(sa) + [vs[0]]
    requires KeepsSegments(sa, s1) && (sa.Packed() ==> s1.Packed())
    requires r.Ok? ==>
      && r.sa.Valid()
      && r.sa.length == s1.length + |vs| - 1
      && Elements(r.sa) == Elements(s1) + vs[1..]
      && KeepsSegments(s1, r.sa)
      && (s1.Packed() ==> r.sa.Packed())
    ensures r.Ok? ==>
      && r.sa.Valid()
      && r.sa.length == sa.length + |vs|
      && Elements(r.sa) == Elements(sa) + vs
      && KeepsSegments(sa, r.sa)
      && (sa.Packed() ==> r.sa.Packed())
  {
    assert vs == [vs[0]] + vs[1..];
    if r.Ok? {
      assert Elements(r.sa) == Elements(sa) + [vs[0]] + vs[1..];
    }
  }

  /**
   * `sliceOfSegmentFreeHalf(idx)`: the slots of segment `idx` not yet
   * holding elements, viewed from the first free one; a null slice when the
   * segment is full.
   */
  function SliceOfSegmentFreeHalf<T>(sa: SegmentArray<T>, idx: nat): (r: Slice<T>)
    requires sa.Valid() && sa.Packed()
    requires idx < |sa.segments|
    ensures sa.length >= Capacity(idx + 1) ==> r == NullSlice()
    ensures sa.length < Capacity(idx + 1) ==>
      && idx == |sa.segments| - 1
      && Capacity(idx) <= sa.length
      && r.data.Addr?
      && r.elems == sa.segments[idx].slots[sa.length - Capacity(idx)..]
      && |r.elems| == Capacity(idx + 1) - sa.length
  {
    var cap := CapacityForSegmentCount(idx + 1);
    if sa.length >= cap then NullSlice()
    else
      FreeSlotsAreInLastSegment(sa, idx);
      CapacityStep(idx);
      var numFree := cap - sa.length;
      var whole := Slice(Addr(sa.segments[idx].base), sa.segments[idx].slots);
      ShrinkFromLeftByCount(whole, |whole.elems| - numFree)
  }

  /** In a packed array only the last segment can have free slots. */
  lemma FreeSlotsAreInLastSegment<T>(sa: SegmentArray<T>, idx: nat)
    requires sa.Valid() && sa.Packed()
    requires idx < |sa.segments| && sa.length < Capacity(idx + 1)
    ensures idx == |sa.segments| - 1 && Capacity(idx) <= sa.length
  {
    if idx + 1 < |sa.segments| {
      CapacityMonotone(idx + 1, |sa.segments| - 1);
    }
  }

  /**
   * The bulk copy into the free half of the last segment: the first
   * `|src|` free slots take `src`, in order, and the length grows by `|src|`.
   */
  function FillFreeHalf<T>(sa: SegmentArray<T>, src: seq<T>): (r: SegmentArray<T>)
    requires sa.Valid() && sa.Packed() && |sa.segments| > 0
    requires sa.length + |src| <= Capacity(|sa.segments|)
    ensures r.Valid() && r.length == sa.length + |src|
  {
    var last := |sa.segments| - 1;
    CapacityStep(last);
    var r := sa.(length := sa.length + |src|, segments := ReplaceRun(sa.segments, last, sa.length - Capacity(last), src));
    assert r.Valid();
    r
  }

  /** The segments with the slots of segment `s` from `off` on overwritten by `src`. */
  function ReplaceRun<T>(segs: seq<Segment<T>>, s: nat, off: nat, src: seq<T>): (r: seq<Segment<T>>)
    requires s < |segs| && off + |src| <= |segs[s].slots|
    ensures |r| == |segs|
    ensures forall k :: 0 <= k < |r| ==> r[k].base == segs[k].base && |r[k].slots| == |segs[k].slots|
    ensures r[s].slots[..off] == segs[s].slots[..off]
    ensures r[s].slots[off..off + |src|] == src
    ensures r[s].slots[off + |src|..] == segs[s].slots[off + |src|..]
    ensures forall k :: 0 <= k < |r| && k != s ==> r[k] == segs[k]
  {
    var slots := segs[s].slots;
    var run := slots[..off] + src + slots[off + |src|..];
    assert run[..off] == slots[..off];
    assert run[off..off + |src|] == src;
    assert run[off + |src|..] == slots[off + |src|..];
    segs[s := segs[s].(slots := run)]
  }

  /** Overwriting a run is overwriting its first slot and then the rest of the run. */
  lemma ReplaceRunStep<T>(segs: seq<Segment<T>>, s: nat, off: nat, src: seq<T>)
    requires s < |segs| && off + |src| <= |segs[s].slots| && |src| > 0
    ensures ReplaceRun(segs, s, off, src) == ReplaceRun(WriteSlot(segs, s, off, src[0]), s, off + 1, src[1..])
  {
    var slots := segs[s].slots;
    var w := WriteSlot(segs, s, off, src[0]);
    assert w[s].slots == slots[off := src[0]];
    assert slots[..off] + src + slots[off + |src|..]
        == slots[off := src[0]][..off + 1] + src[1..] + slots[off := src[0]][off + 1 + |src[1..]|..];
  }

  /** Filling one element is `WriteNext`, and the rest of the fill follows it. */
  lemma FillFreeHalfStep<T>(sa: SegmentArray<T>, src: seq<T>)
    requires sa.Valid() && sa.Packed() && |sa.segments| > 0 && |src| > 0
    requires sa.length + |src| <= Capacity(|sa.segments|)
    ensures WriteNext(sa, src[0]).Packed()
    ensures FillFreeHalf(sa, src) == FillFreeHalf(WriteNext(sa, src[0]), src[1..])
  {
    var last := |sa.segments| - 1;
    CapacityStep(last);
    var off := sa.length - Capacity(last);
    WriteNextAt(sa, src[0], last, off);
    FillWritten(sa, src, last, off, WriteNext(sa, src[0]));
  }

  /** `FillFreeHalfStep` with the written array given by its segments. */
  lemma FillWritten<T>(sa: SegmentArray<T>, src: seq<T>, last: nat, off: nat, w: SegmentArray<T>)
    requires sa.Valid() && sa.Packed() && |sa.segments| > 0 && |src| > 0
    requires sa.length + |src| <= Capacity(|sa.segments|)
    requires last == |sa.segments| - 1 && Capacity(last) <= sa.length && off == sa.length - Capacity(last)
    requires off < |sa.segments[last].slots|
    requires w == sa.(length := sa.length + 1, segments := WriteSlot(sa.segments, last, off, src[0]))
    ensures w.Valid() && w.Packed()
    ensures FillFreeHalf(sa, src) == FillFreeHalf(w, src[1..])
  {
    CapacityStep(last);
    assert w.Valid();
    ReplaceRunStep(sa.segments, last, off, src);
  }

  lemma FillFreeHalfNothing<T>(sa: SegmentArray<T>)
    requires sa.Valid() && sa.Packed() && |sa.segments| > 0
    ensures FillFreeHalf(sa, []) == sa
  {
    var last := |sa.segments| - 1;
    CapacityStep(last);
    var off := sa.length - Capacity(last);
    var slots := sa.segments[last].slots;
    assert slots[..off] + [] + slots[off..] == slots;
    assert ReplaceRun(sa.segments, last, off, []) == sa.segments;
  }

  /** With room in the last segment, pushing is writing the next slot. */
  lemma PushEachNoGrow<T>(sa: SegmentArray<T>, vs: seq<T>, zero: T)
    requires sa.Valid() && |vs| > 0 && HasRoomFor(sa, |vs|)
    requires sa.length < Capacity(|sa.segments|)
    ensures PushEach(sa, vs, zero) == PushEach(WriteNext(sa, vs[0]), vs[1..], zero)
  {
    assert Push(sa, vs[0], zero) == Ok(WriteNext(sa, vs[0]));
  }

  /**
   * Filling the free half with the first `m` inputs, then pushing the rest
   * one by one, is pushing everything one by one.
   */
  lemma {:induction false} FillThenPushEach<T>(sa: SegmentArray<T>, vs: seq<T>, m: nat, zero: T)
    requires sa.Valid() && sa.Packed() && |sa.segments| > 0
    requires m <= |vs| && sa.length + m <= Capacity(|sa.segments|)
    requires HasRoomFor(sa, |vs|)
    ensures FillFreeHalf(sa, vs[..m]).Packed()
    ensures PushEach(sa, vs, zero) == PushEach(FillFreeHalf(sa, vs[..m]), vs[m..], zero)
    decreases m
  {
    if m == 0 {
      FillFreeHalfNothing(sa);
      assert vs[..0] == [] && vs[0..] == vs;
    } else {
      var w := WriteNext(sa, vs[0]);
      FillFreeHalfStep(sa, vs[..m]);
      PushEachNoGrow(sa, vs, zero);
      TakeTail(vs, m);
      FillThenPushEach(w, vs[1..], m - 1, zero);
    }
  }

  /** When the first push runs out of memory, so does pushing the whole sequence. */
  lemma PushEachOom<T>(sa: SegmentArray<T>, vs: seq<T>, zero: T)
    requires sa.Valid() && HasRoomFor(sa, |vs|) && |vs| > 0
    requires GrowIfNeededPrePush(sa, zero).Oom?
    ensures PushEach(sa, vs, zero).Oom?
  {
  }

  /**
   * `copy(freeSlots, src)` followed by `length += src.length`: the free half
   * of the last segment, as rewritten by the copy, replaces the old one.
   */
  function StoreFreeHalf<T>(sa: SegmentArray<T>, half: seq<T>, n: nat): (r: SegmentArray<T>)
    requires sa.Valid() && sa.Packed() && |sa.segments| > 0
    requires sa.length + |half| == Capacity(|sa.segments|) && n <= |half|
    ensures r.Valid() && r.length == sa.length + n
  {
    var last := |sa.segments| - 1;
    CapacityStep(last);
    var off := sa.length - Capacity(last);
    var seg := sa.segments[last];
    var r := sa.(length := sa.length + n, segments := sa.segments[last := seg.(slots := seg.slots[..off] + half)]);
    assert r.Valid();
    r
  }

  /** Storing the copied free half is filling the free half with what was copied. */
  lemma StoreIsFill<T>(sa: SegmentArray<T>, half: seq<T>, src: seq<T>)
    requires sa.Valid() && sa.Packed() && |sa.segments| > 0
    requires sa.length + |half| == Capacity(|sa.segments|) && |src| <= |half|
    requires var last := |sa.segments| - 1;
      Capacity(last) <= sa.length
      && half[..|src|] == src
      && half[|src|..] == sa.segments[last].slots[sa.length - Capacity(last) + |src|..]
    ensures StoreFreeHalf(sa, half, |src|) == FillFreeHalf(sa, src)
  {
    var last := |sa.segments| - 1;
    CapacityStep(last);
    var off := sa.length - Capacity(last);
    var slots := sa.segments[last].slots;
    assert half == src + slots[off + |src|..];
    assert slots[..off] + half == slots[..off] + src + slots[off + |src|..];
  }

  /**
   * One round of the bulk push: after growing, fill as much of the free
   * half as the input covers; pushing the remainder one by one then gives
   * the same result as pushing the whole input one by one.
   */
  lemma PushSliceRound<T>(cur: SegmentArray<T>, g: SegmentArray<T>, rest: seq<T>, m: nat, zero: T)
    requires cur.Valid() && cur.Packed() && |rest| > 0 && HasRoomFor(cur, |rest|)
    requires GrowIfNeededPrePush(cur, zero) == Ok(g)
    requires m == if Capacity(|g.segments|) - g.length < |rest| then Capacity(|g.segments|) - g.length else |rest|
    ensures |g.segments| > 0 && g.Packed() && 0 < m
    ensures FillFreeHalf(g, rest[..m]).Packed()
    ensures PushEach(cur, rest, zero) == PushEach(FillFreeHalf(g, rest[..m]), rest[m..], zero)
  {
    PushEachAfterGrow(cur, rest, zero);
    CapacityOfNone();
    FillThenPushEach(g, rest, m, zero);
  }

  /** The grow that a push performs can be taken first: pushing into the grown array gives the same. */
  lemma PushEachAfterGrow<T>(cur: SegmentArray<T>, rest: seq<T>, zero: T)
    requires cur.Valid() && |rest| > 0 && HasRoomFor(cur, |rest|)
    requires GrowIfNeededPrePush(cur, zero).Ok?
    ensures var g := GrowIfNeededPrePush(cur, zero).sa;
      PushEach(cur, rest, zero) == PushEach(g, rest, zero)
  {
    var g := GrowIfNeededPrePush(cur, zero).sa;
    PushAfterGrow(cur, rest[0], zero);
  }

  lemma PushAfterGrow<T>(cur: SegmentArray<T>, v: T, zero: T)
    requires cur.Valid() && CanPush(cur)
    requires GrowIfNeededPrePush(cur, zero).Ok?
    ensures var g := GrowIfNeededPrePush(cur, zero).sa;
      Push(cur, v, zero) == Push(g, v, zero) == Ok(WriteNext(g, v))
  {
  }

  /**
   * The body of one `pushSlice` round after growing: copy as many elements
   * as fit into the free half of the last segment and drop them from the
   * front of the input.
   */
  method FillLastSegment<T>(sa: SegmentArray<T>, rest: Slice<T>) returns (next: SegmentArray<T>, remaining: Slice<T>, n: nat)
    requires sa.Valid() && sa.Packed() && |sa.segments| > 0 && sa.length < Capacity(|sa.segments|)
    requires rest.Valid() && rest.data.Addr? && !rest.Empty()
    ensures n == if Capacity(|sa.segments|) - sa.length < |rest.elems| then Capacity(|sa.segments|) - sa.length else |rest.elems|
    ensures next == FillFreeHalf(sa, rest.elems[..n])
    ensures remaining.Valid() && (remaining.Empty() || remaining.data.Addr?)
    ensures remaining.elems == rest.elems[n..]
  {
    var idxLastSegment := |sa.segments| - 1;
    var freeSlots := SliceOfSegmentFreeHalf(sa, idxLastSegment);
    var src := Subarray(rest, 0, |freeSlots.elems|);
    var copied := Copy(freeSlots, src);
    ghost var slots := sa.segments[idxLastSegment].slots;
    ghost var off := sa.length - Capacity(idxLastSegment);
    assert freeSlots.elems == slots[off..];
    assert src.elems == rest.elems[..|src.elems|];
    assert copied.elems[|src.elems|..] == freeSlots.elems[|src.elems|..];
    DropDrop(slots, off, |src.elems|);
    StoreIsFill(sa, copied.elems, src.elems);
    next := StoreFreeHalf(sa, copied.elems, |src.elems|);
    n := |src.elems|;
    remaining := ShrinkFromLeftByCount(rest, n);
  }

  /**
   * `push(slice)`: while elements remain, make sure the last segment has a
   * free slot, copy as many elements as fit into its free half, and drop
   * them from the front of the input. The result is the one of pushing the
   * elements one at a time, so an empty input changes nothing and a
   * successful push appends exactly the input.
   */
  method PushSlice<T>(sa: SegmentArray<T>, elements: Slice<T>, zero: T) returns (r: Step<T>)
    requires sa.Valid() && sa.Packed()
    requires elements.Valid() && (elements.Empty() || elements.data.Addr?)
    requires HasRoomFor(sa, |elements.elems|)
    ensures r == PushEach(sa, elements.elems, zero)
    ensures r.Ok? ==> Elements(r.sa) == Elements(sa) + elements.elems && r.sa.Packed()
    ensures |elements.elems| == 0 ==> r == Ok(sa)
  {
    var cur := sa;
    var rest := elements;
    while !rest.Empty()
      invariant cur.Valid() && cur.Packed()
      invariant rest.Valid() && (rest.Empty() || rest.data.Addr?)
      invariant HasRoomFor(cur, |rest.elems|)
      invariant PushEach(cur, rest.elems, zero) == PushEach(sa, elements.elems, zero)
      decreases |rest.elems|
    {
      ghost var cur0, rest0 := cur, rest;
      var g := GrowIfNeededPrePush(cur, zero);
      if g.Oom? {
        PushEachOom(cur, rest.elems, zero);
        return Oom;
      }
      var grown := g.sa;
      CapacityOfNone();
      var n;
      cur, rest, n := FillLastSegment(grown, rest);
      PushSliceRound(cur0, grown, rest0.elems, n, zero);
    }
    r := Ok(cur);
  }

  /**
   * The inner loop of `copyToSlice`: copy `src` into `ret` from position
   * `at` on, stopping at the end of `src` or at position `limit`.
   */
  method CopyRun<T>(ret: seq<T>, at: nat, src: seq<T>, limit: nat) returns (r: seq<T>, next: nat)
    requires at <= limit <= |ret|
    ensures next == at + (if |src| < limit - at then |src| else limit - at)
    ensures |r| == |ret|
    ensures r[..at] == ret[..at]
    ensures r[at..next] == src[..next - at]
  {
    r := ret;
    next := at;
    var idxSlot := 0;
    while idxSlot < |src| && next < limit
      invariant idxSlot <= |src| && next <= limit
      invariant next == at + idxSlot
      invariant |r| == |ret|
      invariant r[..at] == ret[..at]
      invariant r[at..next] == src[..idxSlot]
    {
      assert r[at..next + 1] == r[at..next] + [r[next]];
      r := r[next := src[idxSlot]];
      assert src[..idxSlot + 1] == src[..idxSlot] + [src[idxSlot]];
      next := next + 1;
      idxSlot := idxSlot + 1;
    }
  }

  /**
   * After copying one segment's run, the copied prefix of the result is the
   * prefix of the segments laid end to end, one segment further on.
   */
  lemma CopyRunExtends<T>(prefix: seq<T>, slots: seq<T>, ret: seq<T>, copied: seq<T>, at: nat, next: nat, limit: nat)
    requires |ret| == |copied| == limit
    requires at == if limit < |prefix| then limit else |prefix|
    requires ret[..at] == prefix[..at]
    requires next == at + (if |slots| < limit - at then |slots| else limit - at)
    requires copied[..at] == ret[..at] && copied[at..next] == slots[..next - at]
    ensures next == if limit < |prefix| + |slots| then limit else |prefix| + |slots|
    ensures copied[..next] == (prefix + slots)[..next]
  {
    assert copied[..next] == copied[..at] + copied[at..next];
  }

  /** The first `k + 1` segments laid end to end extend the first `k`. */
  lemma FlattenPrefixStep<T>(segs: seq<Segment<T>>, k: nat)
    requires SizedSegments(segs) && k < |segs|
    ensures SizedSegments(segs[..k]) && SizedSegments(segs[..k + 1])
    ensures Flatten(segs[..k + 1]) == Flatten(segs[..k]) + segs[k].slots
    ensures |Flatten(segs[..k])| == Capacity(k)
  {
    assert SizedSegments(segs[..k]);
    assert SizedSegments(segs[..k + 1]);
    assert segs[..k + 1][..k] == segs[..k];
    FlattenLength(segs[..k]);
  }

  /**
   * One pass of the outer loop of `copyToSlice`: the run of segment `k`
   * goes after what the earlier segments contributed, up to `length`.
   */
  method CopySegment<T>(sa: SegmentArray<T>, k: nat, ret: seq<T>, idxElem: nat) returns (ret': seq<T>, idxElem': nat)
    requires sa.Valid() && k < |sa.segments| && |ret| == sa.length
    requires idxElem == if sa.length < Capacity(k) then sa.length else Capacity(k)
    requires |Flatten(sa.segments[..k])| == Capacity(k)
    requires ret[..idxElem] == Flatten(sa.segments[..k])[..idxElem]
    ensures |ret'| == sa.length
    ensures idxElem' == if sa.length < Capacity(k + 1) then sa.length else Capacity(k + 1)
    ensures |Flatten(sa.segments[..k + 1])| == Capacity(k + 1)
    ensures ret'[..idxElem'] == Flatten(sa.segments[..k + 1])[..idxElem']
  {
    var lenSegment := SizeOfSegment(k);
    var segment := sa.segments[k].slots;
    FlattenPrefixStep(sa.segments, k);
    CapacityStep(k);
    ret', idxElem' := CopyRun(ret, idxElem, segment[..lenSegment], sa.length);
    CopyRunExtends(Flatten(sa.segments[..k]), segment[..lenSegment], ret, ret', idxElem, idxElem', sa.length);
  }

  /** The loops of `copyToSlice`: every segment's run, in order, into a buffer of `length` elements. */
  method CopySegments<T>(sa: SegmentArray<T>, zero: T) returns (ret: seq<T>)
    requires sa.Valid()
    ensures ret == Elements(sa)
  {
    ret := seq(sa.length, _ => zero);
    var idxElem: nat := 0;
    var idxSegment: nat := 0;
    CapacityOfNone();
    assert sa.segments[..0] == [];
    while idxSegment < |sa.segments|
      invariant idxSegment <= |sa.segments|
      invariant |ret| == sa.length
      invariant idxElem == if sa.length < Capacity(idxSegment) then sa.length else Capacity(idxSegment)
      invariant |Flatten(sa.segments[..idxSegment])| == Capacity(idxSegment)
      invariant ret[..idxElem] == Flatten(sa.segments[..idxSegment])[..idxElem]
    {
      ret, idxElem := CopySegment(sa, idxSegment, ret, idxElem);
      idxSegment := idxSegment + 1;
    }
    assert sa.segments[..idxSegment] == sa.segments;
  }

  /**
   * `copyToSlice`: a new array of `length` elements carved from `arena`,
   * element `i` being `sa[i]`; a null slice when the array is empty.
   */
  method CopyToSlice<T>(arena: Arena, sa: SegmentArray<T>, zero: T) returns (r: Option<(Arena, Slice<T>)>)
    requires arena.Valid() && sa.Valid()
    ensures sa.length == 0 ==> r == Some((arena, NullSlice()))
    ensures sa.length > 0 ==>
      (r.Some? <==> AllocImpl(arena, sa.layout.size, sa.layout.Align(), sa.length).Carved?)
    ensures r.Some? ==> r.value.1.elems == Elements(sa)
    ensures r.Some? && sa.length > 0 ==>
      r.value.0 == AllocImpl(arena, sa.layout.size, sa.layout.Align(), sa.length).arena
  {
    var numElems := sa.length;
    if numElems == 0 {
      return Some((arena, NullSlice()));
    }
    var c := AllocImpl(arena, sa.layout.size, sa.layout.Align(), numElems);
    if c.OutOfMemory? {
      return None;
    }
    var ret := CopySegments(sa, zero);
    r := Some((c.arena, Slice(Addr(c.start), ret)));
  }
}
