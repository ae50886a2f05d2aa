/**
 * `FixedRingBuffer<T, Size>`: a bounded FIFO over `Size` slots with
 * free-running `u32` read and write counters.
 *
 * A counter `c` addresses slot `c % Size`, and both counters wrap modulo
 * 2^32. The buffer is full when `write == read + Size` (in `u32`
 * arithmetic) and empty when they are equal. The queued elements are the
 * slots of counters `read, read + 1, ..., write - 1`.
 */
module RingBuffers {
  import opened Types
  import Bits

  /** The counters and the `Size` slots; `Size` is `|slots|`. */
  datatype Ring<T> = Ring(read: u32, write: u32, slots: seq<T>)

  /** The `u32` successor of a counter. */
  function Inc(c: u32): (r: u32)
    ensures r == (c + 1) % U32_LIMIT
  {
    if c == U32_LIMIT - 1 then 0 else c + 1
  }

  /** `empty()`: the counters agree, so nothing is queued. */
  predicate Empty<T>(b: Ring<T>)
    ensures Empty(b) <==> Size(b) == 0
  {
    b.write == b.read
  }

  /**
   * `full()`: `write == read + Size` with the sum taken modulo 2^32, which
   * is a size of `Size` modulo 2^32.
   */
  predicate Full<T>(b: Ring<T>)
    ensures Full(b) <==> Size(b) == |b.slots| % U32_LIMIT
  {
    WrapDistance(b.read, b.write, |b.slots|);
    b.write == (b.read + |b.slots|) % U32_LIMIT
  }

  /**
   * `size()`: `write - read` when `read <= write`, else the distance
   * across the wrap. Either way, the difference modulo 2^32.
   */
  function Size<T>(b: Ring<T>): (n: u32)
    ensures n == (b.write - b.read) % U32_LIMIT
    ensures (b.read + n) % U32_LIMIT == b.write
  {
    if b.read <= b.write then b.write - b.read
    else (U32_LIMIT - 1 - b.read + 1) + b.write
  }

  /** A buffer the operations keep: some slots, a size class of `u32`, at most `Size` queued. */
  predicate Valid<T>(b: Ring<T>)
  {
    0 < |b.slots| < U32_LIMIT && Size(b) <= |b.slots|
  }

  /** The element `i` places after the read counter. */
  function At<T>(b: Ring<T>, i: nat): T
    requires |b.slots| > 0
  {
    b.slots[((b.read + i) % U32_LIMIT) % |b.slots|]
  }

  /** The queued elements, oldest first. */
  function Contents<T>(b: Ring<T>): (q: seq<T>)
    requires |b.slots| > 0
    ensures |q| == Size(b)
    ensures forall i :: 0 <= i < |q| ==> q[i] == At(b, i)
  {
    seq(Size(b), i requires 0 <= i < Size(b) => At(b, i))
  }

  /** A default-constructed buffer: both counters zero. */
  function New<T>(slots: seq<T>): (b: Ring<T>)
    requires 0 < |slots| < U32_LIMIT
    ensures Valid(b) && Empty(b) && !Full(b) && Size(b) == 0 && Contents(b) == []
  {
    Ring(0, 0, slots)
  }

  /** `push`: the buffer must not be full; the element goes to slot `write % Size`. */
  function Push<T>(b: Ring<T>, e: T): (r: Ring<T>)
    requires |b.slots| > 0 && !Full(b)
    ensures r.read == b.read && r.write == (b.write + 1) % U32_LIMIT && |r.slots| == |b.slots|
    ensures forall k :: 0 <= k < |b.slots| && k != b.write % |b.slots| ==> r.slots[k] == b.slots[k]
  {
    Ring(b.read, Inc(b.write), b.slots[b.write % |b.slots| := e])
  }

  /** `tryPush`: false and no change when full, otherwise `push` and true. */
  function TryPush<T>(b: Ring<T>, e: T): (r: (Ring<T>, bool))
    requires |b.slots| > 0
    ensures r.1 <==> !Full(b)
    ensures !r.1 ==> r.0 == b
    ensures r.1 ==> r.0 == Push(b, e)
  {
    if Full(b) then (b, false) else (Push(b, e), true)
  }

  /** `pop`: the buffer must not be empty; reads slot `read % Size` and advances `read`. */
  function Pop<T>(b: Ring<T>): (r: (Ring<T>, T))
    requires |b.slots| > 0 && b.read != b.write
    ensures r.0.read == (b.read + 1) % U32_LIMIT && r.0.write == b.write && r.0.slots == b.slots
  {
    (Ring(Inc(b.read), b.write, b.slots), b.slots[b.read % |b.slots|])
  }

  /**
   * `isValidPhyIndex`: false when empty; below `write` when `read < write`;
   * otherwise the test `idx <= 0xFFFFFFFF` holds for every `u32`.
   */
  predicate IsValidPhyIndex<T>(b: Ring<T>, idx: u32)
    ensures IsValidPhyIndex(b, idx) <==> !Empty(b) && (b.read < b.write ==> idx < b.write)
  {
    if Empty(b) then false
    else if b.read < b.write then idx < b.write
    else idx <= 0xFFFF_FFFF || idx < b.write
  }

  /**
   * `peek(off)`: slot of counter `read + off`, which must pass
   * `isValidPhyIndex`; within the size it is the element `off` places
   * behind the oldest.
   */
  function Peek<T>(b: Ring<T>, off: u32): (x: T)
    requires |b.slots| > 0 && IsValidPhyIndex(b, (b.read + off) % U32_LIMIT)
    ensures x in b.slots
    ensures off < Size(b) ==> x == Contents(b)[off]
  {
    b.slots[((b.read + off) % U32_LIMIT) % |b.slots|]
  }

  // Modular arithmetic used below.

  /** `write` is `read + n` modulo 2^32 exactly when `write - read` is `n` modulo 2^32. */
  lemma WrapDistance(read: u32, write: u32, n: nat)
    ensures write == (read + n) % U32_LIMIT <==> (write - read) % U32_LIMIT == n % U32_LIMIT
  {
    var q, k := n / U32_LIMIT, n % U32_LIMIT;
    assert n == U32_LIMIT * q + k;
    AddMultiple(q, U32_LIMIT, read + k);
  }

  lemma AddMultiple(a: nat, d: nat, r: nat)
    requires d > 0
    ensures (d * a + r) % d == r % d
  {
    var q2, r2 := r / d, r % d;
    assert d * a + r == d * (a + q2) + r2 by {
      assert d * (a + q2) == d * a + d * q2;
    }
    Bits.ModUnique(d * a + r, d, a + q2, r2);
  }

  lemma MulAssoc(a: int, b: int, c: int)
    ensures (a * b) * c == a * (b * c)
  {
  }

  lemma ModOfMod(x: nat, m: nat, s: nat)
    requires s > 0 && m > 0 && m % s == 0
    ensures (x % m) % s == x % s
  {
    var q, r := x / m, x % m;
    var k := m / s;
    assert x == m * q + r;
    assert m == s * k;
    MulAssoc(s, k, q);
    assert x == s * (k * q) + r;
    AddMultiple(k * q, s, r);
  }

  lemma SlotsDistinct(c: nat, i: nat, j: nat, s: nat)
    requires i < j < s
    ensures (c + i) % s != (c + j) % s
  {
    var a, b := c + i, c + j;
    if a % s == b % s {
      assert b - a == s * (b / s - a / s);
      assert 0 < b - a < s;
      if b / s - a / s <= 0 {
      } else {
        Bits.MulAtLeast(s, b / s - a / s);
      }
    }
  }

  lemma AddMod(a: nat, i: nat)
    ensures ((a % U32_LIMIT) + i) % U32_LIMIT == (a + i) % U32_LIMIT
  {
    var q := a / U32_LIMIT;
    var r := a % U32_LIMIT;
    var q2 := (r + i) / U32_LIMIT;
    var r2 := (r + i) % U32_LIMIT;
    assert a + i == U32_LIMIT * (q + q2) + r2;
    Bits.ModUnique(a + i, U32_LIMIT, q + q2, r2);
  }

  /** Full exactly when the size reaches the capacity. */
  lemma FullIffAtCapacity<T>(b: Ring<T>)
    requires Valid(b)
    ensures Full(b) <==> Size(b) == |b.slots|
  {
    if Full(b) {
      SizeFromWrite(b, |b.slots|);
    }
  }

  /** Empty exactly when the size is zero. */
  lemma EmptyIffNoElements<T>(b: Ring<T>)
    ensures Empty(b) <==> Size(b) == 0
  {
  }

  /** `push` raises the size by one and keeps the buffer valid. */
  lemma PushGrows<T>(b: Ring<T>, e: T)
    requires Valid(b) && !Full(b)
    ensures Size(Push(b, e)) == Size(b) + 1 && Valid(Push(b, e))
  {
    FullIffAtCapacity(b);
    AddMod(b.read + Size(b), 1);
    assert (b.read + (Size(b) + 1)) % U32_LIMIT == Push(b, e).write;
    Bits.ModUnique(b.read + (Size(b) + 1), U32_LIMIT, (b.read + Size(b) + 1) / U32_LIMIT, Push(b, e).write);
    var r := Push(b, e);
    SizeFromWrite(r, Size(b) + 1);
  }

  /** A size is determined by the counters: if `read + n == write` modulo 2^32 for `n < 2^32`, the size is `n`. */
  lemma SizeFromWrite<T>(b: Ring<T>, n: nat)
    requires n < U32_LIMIT && (b.read + n) % U32_LIMIT == b.write
    ensures Size(b) == n
  {
    if Size(b) < n {
      SlotsDistinct(b.read, Size(b), n, U32_LIMIT);
    } else if Size(b) > n {
      SlotsDistinct(b.read, n, Size(b), U32_LIMIT);
    }
  }

  /** `pop` lowers the size by one and keeps the buffer valid. */
  lemma PopShrinks<T>(b: Ring<T>)
    requires Valid(b) && !Empty(b)
    ensures Size(Pop(b).0) == Size(b) - 1 && Valid(Pop(b).0)
  {
    var r := Pop(b).0;
    AddMod(b.read + 1, Size(b) - 1);
    assert (r.read + (Size(b) - 1)) % U32_LIMIT == (b.read + Size(b)) % U32_LIMIT;
    SizeFromWrite(r, Size(b) - 1);
  }

  /** `pop` returns the oldest element and leaves the rest queued in order. */
  lemma PopTakesOldest<T>(b: Ring<T>)
    requires Valid(b) && !Empty(b)
    ensures Pop(b).1 == Contents(b)[0]
    ensures Contents(Pop(b).0) == Contents(b)[1..]
  {
    var r := Pop(b).0;
    PopShrinks(b);
    var q, tail := Contents(r), Contents(b)[1..];
    assert |q| == |tail|;
    forall i | 0 <= i < |tail|
      ensures q[i] == tail[i]
    {
      PopShiftsIndex(b, i);
    }
    assert q == tail;
  }

  lemma PopShiftsIndex<T>(b: Ring<T>, i: nat)
    requires |b.slots| > 0 && b.read != b.write
    ensures At(Pop(b).0, i) == At(b, i + 1)
  {
    var r := Pop(b).0;
    AddMod(b.read + 1, i);
    assert (r.read + i) % U32_LIMIT == (b.read + (i + 1)) % U32_LIMIT;
  }

  /**
   * `push` appends to the queued elements provided the new slot cannot
   * collide with a queued one: either `Size` divides 2^32, or the write
   * counter has not wrapped past the read counter.
   */
  lemma PushAppends<T>(b: Ring<T>, e: T)
    requires Valid(b) && !Full(b)
    requires U32_LIMIT % |b.slots| == 0 || b.read + Size(b) < U32_LIMIT
    ensures Contents(Push(b, e)) == Contents(b) + [e]
  {
    var r := Push(b, e);
    PushGrows(b, e);
    FullIffAtCapacity(b);
    forall i | 0 <= i < Size(b)
      ensures Contents(r)[i] == Contents(b)[i]
    {
      PushKeepsIndex(b, e, i);
    }
    PushWritesLast(b, e);
  }

  /** The slot written by `push` is that of counter `read + size`. */
  lemma PushWritesLast<T>(b: Ring<T>, e: T)
    requires |b.slots| > 0 && !Full(b)
    ensures At(Push(b, e), Size(b)) == e
  {
  }

  lemma PushKeepsIndex<T>(b: Ring<T>, e: T, i: nat)
    requires |b.slots| > 0 && !Full(b) && i < Size(b) < |b.slots| < U32_LIMIT
    requires U32_LIMIT % |b.slots| == 0 || b.read + Size(b) < U32_LIMIT
    ensures At(Push(b, e), i) == At(b, i)
  {
    QueuedSlotIsNotWriteSlot(b.read, i, Size(b), |b.slots|, b.write);
  }

  /** Counter `read + i` of a queued element and the write counter `read + n` address different slots. */
  lemma QueuedSlotIsNotWriteSlot(read: nat, i: nat, n: nat, s: nat, write: nat)
    requires i < n < s < U32_LIMIT && write == (read + n) % U32_LIMIT
    requires U32_LIMIT % s == 0 || read + n < U32_LIMIT
    ensures ((read + i) % U32_LIMIT) % s != write % s
  {
    SlotsDistinct(read, i, n, s);
    if U32_LIMIT % s == 0 {
      ModOfMod(read + i, U32_LIMIT, s);
      ModOfMod(read + n, U32_LIMIT, s);
    } else {
      assert (read + i) % U32_LIMIT == read + i;
    }
  }

  /**
   * Without that condition FIFO order breaks at the counter wrap: with
   * three slots, `read = 2^32 - 1` and one element queued in slot 0, the
   * next push also lands in slot 0 (counter 0) and overwrites it.
   */
  lemma WrapOverwritesWithThreeSlots(x: int, y: int, z: int, e: int)
    requires x != e
    ensures var b := Ring(U32_LIMIT - 1, 0, [x, y, z]);
      && Valid(b) && !Full(b) && Contents(b) == [x]
      && Contents(Push(b, e)) == [e, e]
      && Contents(Push(b, e)) != Contents(b) + [e]
  {
    var b := Ring(U32_LIMIT - 1, 0, [x, y, z]);
    assert (U32_LIMIT - 1) % 3 == 0;
    assert Contents(b)[0] == x;
    var r := Push(b, e);
    assert r.slots == [e, y, z];
    assert Contents(r)[0] == e;
    assert (Contents(b) + [e])[0] == x;
  }

  /** `peek(0)` on a non-empty buffer shows what the next `pop` returns. */
  lemma PeekIsNextPop<T>(b: Ring<T>)
    requires Valid(b) && !Empty(b)
    ensures IsValidPhyIndex(b, b.read)
    ensures Peek(b, 0) == Pop(b).1
  {
  }

  /** When `read >= write` the index check accepts every counter value. */
  lemma PhyIndexCheckVacuous<T>(b: Ring<T>, idx: u32)
    requires !Empty(b) && b.read >= b.write
    ensures IsValidPhyIndex(b, idx)
  {
  }

  /**
   * The wrap tests: with both counters at 2^32 - 1, one slot holds one
   * element and is then full; with two slots, two pushes and two pops
   * return the elements in order across the wrap.
   */
  lemma CounterWrapTests(s1: seq<int>, s2: seq<int>)
    requires |s1| == 1 && |s2| == 2
    ensures var b := Ring(U32_LIMIT - 1, U32_LIMIT - 1, s1);
      && Empty(b) && !Full(b) && Size(b) == 0
      && !Empty(Push(b, 5)) && Full(Push(b, 5)) && Size(Push(b, 5)) == 1
      && Pop(Push(b, 5)).1 == 5
    ensures var b := Ring(U32_LIMIT - 1, U32_LIMIT - 1, s2);
      var b1 := Push(b, 5);
      var b2 := Push(b1, 6);
      && Size(b1) == 1 && Size(b2) == 2
      && Pop(b2).1 == 5 && Size(Pop(b2).0) == 1
      && Pop(Pop(b2).0).1 == 6 && Size(Pop(Pop(b2).0).0) == 0
  {
    var b := Ring(U32_LIMIT - 1, U32_LIMIT - 1, s2);
    var b1 := Push(b, 5);
    assert (U32_LIMIT - 1) % 2 == 1;
    assert b1.slots == [s2[0], 5];
  }
}
