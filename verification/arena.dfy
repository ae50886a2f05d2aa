/**
 * The bump arena.
 *
 * An arena is a `[beg, end)` window of addresses. Allocation carves from the
 * top: `end` is first rounded down to the alignment (the rounding amount is
 * the pad), then lowered by the size of the request, and the new `end` is the
 * address of the block. Nothing is ever freed individually; the only way to
 * give memory back is to overwrite the arena with a copy saved earlier.
 *
 * Addresses are naturals below 2^64. The bytes of memory are a map from
 * address to byte, so that zero-filling can be stated.
 */
module Arenas {
  import opened Types
  import Bits

  datatype Arena = Arena(beg: nat, end: nat)
  {
    predicate Valid() { beg <= end < U64_LIMIT }

    /** Bytes still available. */
    function Capacity(): int { end - beg }
  }

  /** The contents of memory: one byte per address. */
  type Memory = nat -> u8

  /** `(u64)end & (align - 1)`, with `align - 1` computed in 32 bits. */
  function Pad(end: nat, align: u32): (pad: nat)
    ensures pad < U32_LIMIT
  {
    var mask := (align + U32_LIMIT - 1) % U32_LIMIT;
    Bits.AndBounded(end, mask);
    Bits.And(end, mask)
  }

  /**
   * For a power-of-two alignment the pad is `end mod align`: it is below the
   * alignment and `end - pad` is aligned.
   */
  lemma PadIsRemainder(end: nat, align: u32, k: nat)
    requires k < 32 && align == Pow2(k)
    ensures Pad(end, align) == end % align
    ensures Pad(end, align) < align
    ensures (end - Pad(end, align)) % align == 0
  {
    Pow2Of32();
    Pow2Monotone(k, 32);
    assert (align + U32_LIMIT - 1) % U32_LIMIT == Pow2(k) - 1;
    Bits.AndLowMask(end, k);
    Bits.SubRemainder(end, align);
  }

  /**
   * The capacity test `numObjects < (end - beg - pad) / sizObj`, evaluated in
   * signed pointer-difference arithmetic: the division truncates toward zero,
   * so a negative remainder never lets a request through.
   */
  predicate HasRoom(a: Arena, objSize: u32, pad: nat, count: u32)
    requires objSize > 0
  {
    var avail: int := a.end - a.beg - pad;
    var quot: int := if avail >= 0 then avail / objSize else -((-avail) / objSize);
    count < quot
  }

  /** The capacity test passes exactly when `count + 1` objects and the pad fit. */
  lemma HasRoomIff(a: Arena, objSize: u32, pad: nat, count: u32)
    requires objSize > 0
    ensures HasRoom(a, objSize, pad, count) <==> (count + 1) * objSize + pad <= a.end - a.beg
  {
    var avail: int := a.end - a.beg - pad;
    if avail >= 0 {
      Bits.LtDivIff(count, avail, objSize);
    } else {
      assert (-avail) / objSize >= 0;
    }
  }

  /** The outcome of carving: the new arena state and the block, or the out-of-memory path. */
  datatype Carve = Carved(arena: Arena, start: nat, size: nat) | OutOfMemory

  /**
   * `allocImpl`. The out-of-memory handler is modelled as the
   * `OutOfMemory` outcome; `sizObj` must be non-zero, since it divides.
   */
  function AllocImpl(a: Arena, objSize: u32, align: u32, count: u32): (r: Carve)
    requires a.Valid() && objSize > 0
    ensures r.Carved? <==> (count + 1) * objSize + Pad(a.end, align) <= a.end - a.beg
    ensures r.Carved? ==>
      && r.arena.Valid()
      && r.arena.beg == a.beg
      && a.end - r.arena.end == count * objSize + Pad(a.end, align)
      && r.start == r.arena.end
      && r.size == count * objSize
      && a.beg <= r.start && r.start + r.size <= a.end
  {
    var pad := Pad(a.end, align);
    HasRoomIff(a, objSize, pad, count);
    if !HasRoom(a, objSize, pad, count) then OutOfMemory
    else
      var size := objSize * count;
      var newEnd := a.end - (size + pad);
      Carved(Arena(a.beg, newEnd), newEnd, size)
  }

  /**
   * The disagreement with the unit test that expects an exact-size request
   * to succeed: when the request plus the pad fills the arena exactly, the
   * strict comparison on the floored quotient sends it to the out-of-memory
   * path.
   */
  lemma ExactFitTakesOomPath(a: Arena, objSize: u32, align: u32, count: u32)
    requires a.Valid() && objSize > 0
    requires count * objSize + Pad(a.end, align) == a.end - a.beg
    ensures AllocImpl(a, objSize, align, count).OutOfMemory?
  {
  }

  /** The exact-size test itself: a byte request for the whole of an empty-padded arena. */
  lemma ExactSizeByteRequestFails(a: Arena)
    requires a.Valid() && a.end - a.beg < U32_LIMIT
    ensures AllocImpl(a, 1, 1, a.end - a.beg).OutOfMemory?
  {
    assert Pad(a.end, 1) == 0 by {
      PadIsRemainder(a.end, 1, 0);
    }
  }

  /** One byte less than the whole arena does fit. */
  lemma OneByteShortSucceeds(a: Arena)
    requires a.Valid() && 0 < a.end - a.beg < U32_LIMIT
    ensures AllocImpl(a, 1, 1, a.end - a.beg - 1).Carved?
  {
    assert Pad(a.end, 1) == 0 by {
      PadIsRemainder(a.end, 1, 0);
    }
  }

  /**
   * The block starts on an alignment boundary whenever its size is a
   * multiple of the (power-of-two) alignment.
   */
  lemma AllocImplAligned(a: Arena, objSize: u32, align: u32, count: u32, k: nat)
    requires a.Valid() && objSize > 0
    requires k < 32 && align == Pow2(k)
    requires (count * objSize) % align == 0
    requires AllocImpl(a, objSize, align, count).Carved?
    ensures AllocImpl(a, objSize, align, count).start % align == 0
  {
    PadIsRemainder(a.end, align, k);
    var pad := Pad(a.end, align);
    Bits.SubMultiples(a.end - pad, count * objSize, align);
  }

  /** `alloc`: carve, then zero exactly the carved bytes. */
  function Alloc(a: Arena, mem: Memory, objSize: u32, align: u32, count: u32): (r: (Carve, Memory))
    requires a.Valid() && objSize > 0
    ensures r.0 == AllocImpl(a, objSize, align, count)
    ensures r.0.Carved? ==> forall addr: nat :: r.1(addr) == if r.0.start <= addr < r.0.start + r.0.size then 0 else mem(addr)
    ensures r.0.OutOfMemory? ==> forall addr: nat :: r.1(addr) == mem(addr)
  {
    var c := AllocImpl(a, objSize, align, count);
    match c
    case OutOfMemory => (c, mem)
    case Carved(_, start, size) =>
      (c, (addr: nat) => if start <= addr < start + size then 0 else mem(addr))
  }

  /** `allocNZ`: carve and leave memory untouched. */
  function AllocNZ(a: Arena, mem: Memory, objSize: u32, align: u32, count: u32): (r: (Carve, Memory))
    requires a.Valid() && objSize > 0
    ensures r.0 == AllocImpl(a, objSize, align, count)
    ensures forall addr: nat :: r.1(addr) == mem(addr)
  {
    (AllocImpl(a, objSize, align, count), mem)
  }

  /** Every byte of a block returned by `alloc` reads as zero. */
  lemma AllocZeroFills(a: Arena, mem: Memory, objSize: u32, align: u32, count: u32, i: nat)
    requires a.Valid() && objSize > 0
    requires Alloc(a, mem, objSize, align, count).0.Carved?
    requires i < count * objSize
    ensures var r := Alloc(a, mem, objSize, align, count); r.1(r.0.start + i) == 0
  {
  }

  /**
   * The size and alignment of a type `T`: `sizeof(T)` is a non-zero multiple
   * of `alignof(T)`, which is a power of two.
   */
  datatype Layout = Layout(size: u32, alignLog: nat)
  {
    predicate Valid()
    {
      && alignLog < 32
      && size > 0
      && size % Pow2(alignLog) == 0
    }

    function Align(): u32
      requires alignLog < 32
    {
      Pow2Of32();
      Pow2Monotone(alignLog + 1, 32);
      Pow2(alignLog)
    }
  }

  /** `alloc<T>(a, count)`: `alloc(a, sizeof(T), alignof(T), count)`; the block is aligned for `T`. */
  function AllocOf(a: Arena, mem: Memory, t: Layout, count: u32): (r: (Carve, Memory))
    requires a.Valid() && t.Valid()
    ensures r.0 == AllocImpl(a, t.size, t.Align(), count)
    ensures r.0.Carved? ==> r.0.start % t.Align() == 0 && r.0.size == count * t.size
    ensures r.0.Carved? ==> forall addr: nat :: r.0.start <= addr < r.0.start + r.0.size ==> r.1(addr) == 0
  {
    var r := Alloc(a, mem, t.size, t.Align(), count);
    if r.0.Carved? then
      Bits.MultipleOfMultiple(count, t.size, t.Align());
      AllocImplAligned(a, t.size, t.Align(), count, t.alignLog);
      r
    else r
  }

  /** `allocNZ<T>(a, count)`: as `alloc<T>` without the zero fill. */
  function AllocNZOf(a: Arena, mem: Memory, t: Layout, count: u32): (r: (Carve, Memory))
    requires a.Valid() && t.Valid()
    ensures r.0 == AllocImpl(a, t.size, t.Align(), count)
    ensures r.0.Carved? ==> r.0.start % t.Align() == 0 && r.0.size == count * t.size
    ensures forall addr: nat :: r.1(addr) == mem(addr)
  {
    var r := AllocNZ(a, mem, t.size, t.Align(), count);
    if r.0.Carved? then
      Bits.MultipleOfMultiple(count, t.size, t.Align());
      AllocImplAligned(a, t.size, t.Align(), count, t.alignLog);
      r
    else r
  }

  /** One allocation request: object size, alignment and count. */
  datatype Request = Request(objSize: u32, align: u32, count: u32)

  /** A block handed out by the arena. */
  datatype Block = Block(start: nat, size: nat)

  predicate Disjoint(x: Block, y: Block)
  {
    x.start + x.size <= y.start || y.start + y.size <= x.start
  }

  /**
   * A run of allocations from one arena, stopping at the first request that
   * takes the out-of-memory path. Returns the final arena and the blocks in
   * the order they were handed out.
   */
  function AllocMany(a: Arena, reqs: seq<Request>): (r: (Arena, seq<Block>))
    requires a.Valid()
    requires forall i :: 0 <= i < |reqs| ==> reqs[i].objSize > 0
    ensures r.0.Valid() && r.0.beg == a.beg && r.0.end <= a.end
    ensures |r.1| <= |reqs|
    decreases |reqs|
  {
    if |reqs| == 0 then (a, [])
    else
      var q := reqs[0];
      match AllocImpl(a, q.objSize, q.align, q.count)
      case OutOfMemory => (a, [])
      case Carved(a1, start, size) =>
        var rest := AllocMany(a1, reqs[1..]);
        (rest.0, [Block(start, size)] + rest.1)
  }

  /**
   * `bs` is a stack of blocks growing downward inside `[lo, hi)`: each block
   * ends at or below the start of the one before it.
   */
  predicate Stacked(bs: seq<Block>, lo: nat, hi: nat)
    decreases |bs|
  {
    if |bs| == 0 then lo <= hi
    else bs[0].start + bs[0].size <= hi && Stacked(bs[1..], lo, bs[0].start)
  }

  /** The blocks handed out since a given state are stacked between the final and the original `end`. */
  lemma {:induction false} AllocManyStacked(a: Arena, reqs: seq<Request>)
    requires a.Valid()
    requires forall i :: 0 <= i < |reqs| ==> reqs[i].objSize > 0
    ensures var r := AllocMany(a, reqs); Stacked(r.1, r.0.end, a.end)
    decreases |reqs|
  {
    if |reqs| > 0 {
      var q := reqs[0];
      var c := AllocImpl(a, q.objSize, q.align, q.count);
      if c.Carved? {
        AllocManyStacked(c.arena, reqs[1..]);
        var rest := AllocMany(c.arena, reqs[1..]);
        assert ([Block(c.start, c.size)] + rest.1)[1..] == rest.1;
      }
    }
  }

  /** Stacked blocks lie inside `[lo, hi)` and later ones sit below earlier ones. */
  lemma {:induction false} StackedOrdered(bs: seq<Block>, lo: nat, hi: nat)
    requires Stacked(bs, lo, hi)
    ensures forall i :: 0 <= i < |bs| ==> lo <= bs[i].start && bs[i].start + bs[i].size <= hi
    ensures forall i, j :: 0 <= i < j < |bs| ==> bs[j].start + bs[j].size <= bs[i].start
    decreases |bs|
  {
    if |bs| > 0 {
      StackedOrdered(bs[1..], lo, bs[0].start);
      forall i | 0 < i < |bs|
        ensures lo <= bs[i].start && bs[i].start + bs[i].size <= bs[0].start
      {
        assert bs[i] == bs[1..][i - 1];
      }
      forall i, j | 0 <= i < j < |bs|
        ensures bs[j].start + bs[j].size <= bs[i].start
      {
        assert bs[j] == bs[1..][j - 1];
        if i > 0 {
          assert bs[i] == bs[1..][i - 1];
        }
      }
    }
  }

  /**
   * Every block handed out since a given state lies in `[final end, old end)`,
   * inside the original window, and no two of them overlap.
   */
  lemma AllocManyDisjoint(a: Arena, reqs: seq<Request>)
    requires a.Valid()
    requires forall i :: 0 <= i < |reqs| ==> reqs[i].objSize > 0
    ensures var r := AllocMany(a, reqs);
      forall i :: 0 <= i < |r.1| ==> a.beg <= r.0.end <= r.1[i].start && r.1[i].start + r.1[i].size <= a.end
    ensures var r := AllocMany(a, reqs);
      forall i, j :: 0 <= i < |r.1| && 0 <= j < |r.1| && i != j ==> Disjoint(r.1[i], r.1[j])
  {
    var r := AllocMany(a, reqs);
    AllocManyStacked(a, reqs);
    StackedOrdered(r.1, r.0.end, a.end);
  }

  // ---------------------------------------------------------------------
  // Saving and restoring through `Arena*`
  // ---------------------------------------------------------------------

  /** An `Arena*`: arenas live in a heap addressed by these references. */
  type ArenaRef = nat

  type Heap = map<ArenaRef, Arena>

  /** `ArenaSaved`: which arena, and the state it had. */
  datatype ArenaSaved = ArenaSaved(arena: ArenaRef, saved: Arena)

  /** `saveArena(p)`: `{p, *p}`; the heap is only read. */
  function SaveArena(heap: Heap, p: ArenaRef): (s: ArenaSaved)
    requires p in heap
    ensures s.arena == p && s.saved == heap[p]
  {
    ArenaSaved(p, heap[p])
  }

  /** `restoreArena(dst, saved)`: `*dst = saved`, and nothing else changes. */
  function RestoreArena(heap: Heap, dst: ArenaRef, saved: Arena): (h: Heap)
    requires dst in heap
    ensures h.Keys == heap.Keys
    ensures h[dst] == saved
    ensures forall q :: q in heap && q != dst ==> h[q] == heap[q]
  {
    heap[dst := saved]
  }

  /** `Arena::Scope`: the arena it guards and the snapshot it restores. */
  datatype Scope = Scope(arena: ArenaRef, saved: Arena)

  /** `Scope(Arena*)`: snapshots the arena's current `{beg, end}`. */
  function OpenScope(heap: Heap, p: ArenaRef): (s: Scope)
    requires p in heap
    ensures s.arena == p && s.saved == heap[p]
    ensures s.saved == SaveArena(heap, p).saved
  {
    Scope(p, heap[p])
  }

  /** `Scope(ArenaSaved)`: adopts the pointer and snapshot unchanged. */
  function ScopeFromSaved(t: ArenaSaved): (s: Scope)
    ensures s.arena == t.arena && s.saved == t.saved
  {
    Scope(t.arena, t.saved)
  }

  /** `Scope::reset` (and the destructor): restores the snapshot. */
  function ResetScope(heap: Heap, s: Scope): (h: Heap)
    requires s.arena in heap
    ensures h.Keys == heap.Keys
    ensures h[s.arena] == s.saved
    ensures forall q :: q in heap && q != s.arena ==> h[q] == heap[q]
  {
    RestoreArena(heap, s.arena, s.saved)
  }

  /** Resetting twice is resetting once. */
  lemma ResetScopeIdempotent(heap: Heap, s: Scope)
    requires s.arena in heap
    ensures ResetScope(ResetScope(heap, s), s) == ResetScope(heap, s)
  {
  }

  /** Allocating a run of requests through `*p`: only `*p` moves. */
  function AllocManyAt(heap: Heap, p: ArenaRef, reqs: seq<Request>): (h: Heap)
    requires p in heap && heap[p].Valid()
    requires forall i :: 0 <= i < |reqs| ==> reqs[i].objSize > 0
    ensures h.Keys == heap.Keys
    ensures h[p].beg == heap[p].beg && h[p].end <= heap[p].end
    ensures forall q :: q in heap && q != p ==> h[q] == heap[q]
  {
    heap[p := AllocMany(heap[p], reqs).0]
  }

  /**
   * Save, allocate, restore: the heap is exactly as before, so the arena
   * has its full capacity back (the check the test runner makes after every
   * test).
   */
  lemma ScopeRoundTrip(heap: Heap, p: ArenaRef, reqs: seq<Request>)
    requires p in heap && heap[p].Valid()
    requires forall i :: 0 <= i < |reqs| ==> reqs[i].objSize > 0
    ensures var s := OpenScope(heap, p);
      ResetScope(AllocManyAt(heap, p, reqs), s) == heap
    ensures var s := OpenScope(heap, p);
      ResetScope(AllocManyAt(heap, p, reqs), s)[p].Capacity() == heap[p].Capacity()
  {
    var s := OpenScope(heap, p);
    var h := ResetScope(AllocManyAt(heap, p, reqs), s);
    assert forall q :: q in h <==> q in heap;
    assert forall q :: q in h ==> h[q] == heap[q];
  }

  /**
   * Nested scopes on one arena: an inner scope opened after some
   * allocations and closed before the outer one leaves the outer scope's
   * reset in charge, so the arena ends as it was when the outer scope opened.
   */
  lemma NestedScopes(heap: Heap, p: ArenaRef, before: seq<Request>, inner: seq<Request>)
    requires p in heap && heap[p].Valid()
    requires forall i :: 0 <= i < |before| ==> before[i].objSize > 0
    requires forall i :: 0 <= i < |inner| ==> inner[i].objSize > 0
    ensures var outer := OpenScope(heap, p);
      var h1 := AllocManyAt(heap, p, before);
      var sIn := OpenScope(h1, p);
      var h2 := ResetScope(AllocManyAt(h1, p, inner), sIn);
      h2 == h1 && ResetScope(h2, outer) == heap
  {
    var outer := OpenScope(heap, p);
    var h1 := AllocManyAt(heap, p, before);
    var sIn := OpenScope(h1, p);
    ScopeRoundTrip(h1, p, inner);
    ScopeRoundTrip(heap, p, before);
  }
}
