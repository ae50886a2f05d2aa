/**
 * An object pool over an arena.
 *
 * Every node ever obtained from the arena stays with the pool. A node is
 * either on the used list (doubly linked, newest first) or on the free list
 * (singly linked, most recently freed first). Allocation reuses the head of
 * the free list, or carves one new node from the arena when the free list is
 * empty.
 *
 * Nodes are addressed by their index in `nodes` (creation order); the two
 * lists are sequences of such indices, head first.
 */
module Pools {
  import opened Types
  import opened Arenas
  import Bits
  import Seqs

  /** The debug marker written into every node. */
  const POOL_NODE_SENTINEL: u32 := 0xBEEF_B00F

  /** A node: its address in the arena, its debug marker and its value. */
  datatype Node<T> = Node(addr: nat, sentinel: u32, value: T)

  datatype Pool<T> = Pool(arena: Arena, layout: Layout, nodes: seq<Node<T>>, used: seq<nat>, free: seq<nat>)
  {
    /**
     * The pool's invariant: each node is on exactly one list, once; every
     * node carries the marker; the nodes' blocks lie above the arena's
     * remaining window and do not overlap.
     */
    predicate Valid()
    {
      && arena.Valid()
      && layout.Valid()
      && ListsOk(|nodes|, used, free)
      && Marked(nodes)
      && Placed(nodes, arena.end, layout.size)
    }
  }

  /** What iterating the pool yields: the used values, newest first. */
  function Values<T>(p: Pool<T>): (r: seq<T>)
    requires ListsOk(|p.nodes|, p.used, p.free)
    ensures |r| == |p.used|
    ensures forall i :: 0 <= i < |p.used| ==> r[i] == p.nodes[p.used[i]].value
  {
    seq(|p.used|, i requires 0 <= i < |p.used| => p.nodes[p.used[i]].value)
  }

  predicate NoDup(s: seq<nat>)
  {
    forall i, j :: 0 <= i < j < |s| ==> s[i] != s[j]
  }

  /** Both lists hold node indices without repeats, and every node is on exactly one. */
  predicate ListsOk(n: nat, used: seq<nat>, free: seq<nat>)
  {
    && NoDup(used) && NoDup(free)
    && (forall i :: 0 <= i < |used| ==> used[i] < n)
    && (forall i :: 0 <= i < |free| ==> free[i] < n)
    && (forall k :: 0 <= k < n ==> (k in used) != (k in free))
  }

  predicate Marked<T>(nodes: seq<Node<T>>)
  {
    forall k :: 0 <= k < |nodes| ==> nodes[k].sentinel == POOL_NODE_SENTINEL
  }

  /** Every node's block is at or above `end`, and no two blocks overlap. */
  predicate Placed<T>(nodes: seq<Node<T>>, end: nat, size: nat)
  {
    && (forall k :: 0 <= k < |nodes| ==> end <= nodes[k].addr)
    && (forall k, l :: 0 <= k < l < |nodes| ==>
          nodes[k].addr + size <= nodes[l].addr || nodes[l].addr + size <= nodes[k].addr)
  }

  lemma ListsPopFree(n: nat, used: seq<nat>, free: seq<nat>)
    requires ListsOk(n, used, free) && |free| > 0
    ensures ListsOk(n, [free[0]] + used, free[1..])
  {
    var k := free[0];
    assert k !in used;
    forall j | 0 <= j < n
      ensures (j in [k] + used) != (j in free[1..])
    {
      if j != k {
        assert j in free <==> j in free[1..] by {
          if j in free {
            var t :| 0 <= t < |free| && free[t] == j;
            assert t > 0 && free[1..][t - 1] == j;
          }
        }
      }
    }
  }

  lemma ListsPushNew(n: nat, used: seq<nat>, free: seq<nat>)
    requires ListsOk(n, used, free) && free == []
    ensures ListsOk(n + 1, [n] + used, free)
  {
    assert n !in used;
  }

  lemma ListsFreeAt(n: nat, used: seq<nat>, free: seq<nat>, i: nat)
    requires ListsOk(n, used, free) && i < |used|
    ensures ListsOk(n, used[..i] + used[i + 1..], [used[i]] + free)
  {
    var node := used[i];
    var rest := used[..i] + used[i + 1..];
    assert node !in free;
    forall a, b | 0 <= a < b < |rest|
      ensures rest[a] != rest[b]
    {
      var a' := if a < i then a else a + 1;
      var b' := if b < i then b else b + 1;
      assert rest[a] == used[a'] && rest[b] == used[b'];
    }
    forall j | 0 <= j < |rest|
      ensures rest[j] < n && rest[j] != node
    {
      var j' := if j < i then j else j + 1;
      assert rest[j] == used[j'];
    }
    forall k | 0 <= k < n
      ensures (k in rest) != (k in [node] + free)
    {
      if k in used && k != node {
        var t :| 0 <= t < |used| && used[t] == k;
        assert t != i;
        if t < i {
          assert rest[t] == k;
        } else {
          assert rest[t - 1] == k;
        }
      }
    }
  }

  lemma ListsPushBatch(n: nat, used: seq<nat>, free: seq<nat>, c: nat)
    requires ListsOk(n, used, free)
    ensures ListsOk(n + c, used, Descending(n, n + c) + free)
  {
    var d := Descending(n, n + c);
    var f := d + free;
    forall k | n <= k < n + c
      ensures k in d
    {
      assert d[n + c - 1 - k] == k;
    }
    forall a, b | 0 <= a < b < |f|
      ensures f[a] != f[b]
    {
      if b < |d| {
      } else if a >= |d| {
        assert f[a] == free[a - |d|] && f[b] == free[b - |d|];
      } else {
        assert f[b] == free[b - |d|];
      }
    }
    forall k | 0 <= k < n + c
      ensures (k in used) != (k in f)
    {
      if k >= n {
        assert k !in used;
      } else {
        assert k !in d;
      }
    }
  }

  /** `Pool(arena)`: both lists empty. */
  function NewPool<T>(arena: Arena, layout: Layout): (p: Pool<T>)
    requires arena.Valid() && layout.Valid()
    ensures p.Valid() && p.used == [] && p.free == [] && p.arena == arena
  {
    Pool(arena, layout, [], [], [])
  }

  /** The outcome of `alloc`: the pool and the node handed out, or the arena's out-of-memory path. */
  datatype PoolAlloc<T> = Allocated(pool: Pool<T>, node: nat) | AllocOom

  /** The carve `alloc` makes when the free list is empty: one node. */
  function CarveNode<T>(p: Pool<T>): Carve
    requires p.Valid()
  {
    AllocImpl(p.arena, p.layout.size, p.layout.Align(), 1)
  }

  /**
   * `alloc`: pop the free list if it is non-empty, else carve one node from
   * the arena; value-initialise it, mark it, and push it onto the used list.
   */
  function Alloc<T>(p: Pool<T>, zero: T): (r: PoolAlloc<T>)
    requires p.Valid()
    ensures r.Allocated? ==> r.pool.Valid()
    ensures r.Allocated? ==> r.pool.used == [r.node] + p.used && r.node < |r.pool.nodes|
    ensures r.Allocated? ==> |p.nodes| <= |r.pool.nodes|
    ensures r.Allocated? ==> r.pool.nodes[r.node].value == zero
    ensures r.Allocated? ==> forall k :: 0 <= k < |p.nodes| && k != r.node ==> r.pool.nodes[k] == p.nodes[k]
    ensures |p.free| > 0 ==>
      && r.Allocated? && r.node == p.free[0] && r.pool.free == p.free[1..]
      && r.pool.arena == p.arena && |r.pool.nodes| == |p.nodes|
      && r.pool.nodes[r.node].addr == p.nodes[r.node].addr
    ensures |p.free| == 0 ==> (r.Allocated? <==> CarveNode(p).Carved?)
    ensures |p.free| == 0 && r.Allocated? ==>
      && r.node == |p.nodes| && |r.pool.nodes| == |p.nodes| + 1
      && r.pool.free == []
      && r.pool.arena == CarveNode(p).arena
      && r.pool.nodes[r.node].addr == r.pool.arena.end
  {
    if |p.free| > 0 then
      var k := p.free[0];
      var nodes := p.nodes[k := Node(p.nodes[k].addr, POOL_NODE_SENTINEL, zero)];
      ReuseValid(p, zero);
      Allocated(Pool(p.arena, p.layout, nodes, [k] + p.used, p.free[1..]), k)
    else
      match CarveNode(p)
      case OutOfMemory => AllocOom
      case Carved(a1, start, size) =>
        var k := |p.nodes|;
        CarveValid(p, zero);
        Allocated(Pool(a1, p.layout, p.nodes + [Node(start, POOL_NODE_SENTINEL, zero)], [k] + p.used, []), k)
  }

  lemma ReuseValid<T>(p: Pool<T>, zero: T)
    requires p.Valid() && |p.free| > 0
    ensures var k := p.free[0];
      var nodes := p.nodes[k := Node(p.nodes[k].addr, POOL_NODE_SENTINEL, zero)];
      Pool(p.arena, p.layout, nodes, [k] + p.used, p.free[1..]).Valid()
  {
    ListsPopFree(|p.nodes|, p.used, p.free);
  }

  lemma CarveValid<T>(p: Pool<T>, zero: T)
    requires p.Valid() && |p.free| == 0 && CarveNode(p).Carved?
    ensures var c := CarveNode(p);
      Pool(c.arena, p.layout, p.nodes + [Node(c.start, POOL_NODE_SENTINEL, zero)], [|p.nodes|] + p.used, []).Valid()
  {
    var c := CarveNode(p);
    var k := |p.nodes|;
    ListsPushNew(k, p.used, p.free);
    var nodes := p.nodes + [Node(c.start, POOL_NODE_SENTINEL, zero)];
    assert c.size == p.layout.size;
    assert forall j :: 0 <= j < k ==> nodes[j] == p.nodes[j];
  }

  /** The position of `x` in `s`. */
  function PositionOf(s: seq<nat>, x: nat): (i: nat)
    requires x in s
    ensures i < |s| && s[i] == x
    ensures forall j :: 0 <= j < i ==> s[j] != x
  {
    if s[0] == x then 0 else 1 + PositionOf(s[1..], x)
  }

  /** Unlinking position `i` of the used list removes exactly that node. */
  lemma RemovedMembers(n: nat, used: seq<nat>, free: seq<nat>, i: nat)
    requires ListsOk(n, used, free) && i < |used|
    ensures forall k :: k in used[..i] + used[i + 1..] <==> k in used && k != used[i]
  {
    var rest := used[..i] + used[i + 1..];
    ListsFreeAt(n, used, free, i);
    forall k | k in used && k != used[i]
      ensures k in rest
    {
      var t :| 0 <= t < |used| && used[t] == k;
      if t < i {
        assert rest[t] == k;
      } else {
        assert rest[t - 1] == k;
      }
    }
  }

  /**
   * `dealloc(Node*)`: unlink the node from the used list (its neighbours are
   * joined up) and push it onto the free list. The node must be on the used
   * list: the debug marker is never cleared, so the debug check cannot catch
   * a second free.
   */
  function Dealloc<T>(p: Pool<T>, node: nat): (r: Pool<T>)
    requires p.Valid() && node in p.used
    ensures r.Valid()
    ensures r.free == [node] + p.free
    ensures forall k :: k in r.used <==> k in p.used && k != node
    ensures |r.used| == |p.used| - 1
    ensures var i := PositionOf(p.used, node); r.used == p.used[..i] + p.used[i + 1..]
    ensures r.nodes == p.nodes && r.arena == p.arena
  {
    var i := PositionOf(p.used, node);
    ListsFreeAt(|p.nodes|, p.used, p.free, i);
    RemovedMembers(|p.nodes|, p.used, p.free, i);
    Pool(p.arena, p.layout, p.nodes, p.used[..i] + p.used[i + 1..], [node] + p.free)
  }

  /** `dealloc(T*)`: a null value is ignored; otherwise it frees the value's node. */
  function DeallocValue<T>(p: Pool<T>, value: Option<nat>): (r: Pool<T>)
    requires p.Valid()
    requires value.Some? ==> value.value in p.used
    ensures value.None? ==> r == p
    ensures value.Some? ==> r.free == [value.value] + p.free && value.value !in r.used
  {
    match value
    case None => p
    case Some(node) => Dealloc(p, node)
  }

  /**
   * A freed node still carries the marker, so the debug check in `dealloc`
   * would pass a second time: the marker cannot detect a double free.
   */
  lemma FreedNodeKeepsSentinel<T>(p: Pool<T>, node: nat)
    requires p.Valid() && node in p.used
    ensures node in Dealloc(p, node).free && node !in Dealloc(p, node).used
    ensures Dealloc(p, node).nodes[node].sentinel == POOL_NODE_SENTINEL
  {
  }

  /**
   * The free list is a stack: freeing a node and allocating again hands back
   * the same node, at the same address, without touching the arena.
   */
  lemma AllocAfterDeallocReuses<T>(p: Pool<T>, zero: T)
    requires p.Valid()
    requires Alloc(p, zero).Allocated?
    ensures var a := Alloc(p, zero);
      var d := Dealloc(a.pool, a.node);
      var b := Alloc(d, zero);
      && b.Allocated? && b.node == a.node
      && b.pool.nodes[b.node].addr == a.pool.nodes[a.node].addr
      && b.pool.arena == a.pool.arena
  {
  }

  /** The outcome of `preallocate`. */
  datatype PoolGrow<T> = Grew(pool: Pool<T>) | GrowOom

  /** The indices `hi - 1, hi - 2, ..., lo`. */
  function Descending(lo: nat, hi: nat): (r: seq<nat>)
    requires lo <= hi
    ensures |r| == hi - lo
    ensures forall i :: 0 <= i < |r| ==> r[i] == hi - 1 - i
    decreases hi - lo
  {
    if lo == hi then [] else [hi - 1] + Descending(lo, hi - 1)
  }

  /** Node records laid out one after another from `start`. */
  function Batch<T>(start: nat, size: nat, count: nat, fill: T): (r: seq<Node<T>>)
    ensures |r| == count
    ensures forall i :: 0 <= i < count ==> r[i] == Node(start + i * size, POOL_NODE_SENTINEL, fill)
  {
    seq(count, i requires 0 <= i < count => Node(start + i * size, POOL_NODE_SENTINEL, fill))
  }

  lemma BatchSlotBounds(start: nat, size: nat, count: nat, i: nat)
    requires i < count
    ensures start <= start + i * size
    ensures start + i * size + size <= start + count * size
  {
    Bits.MulMonotone(i + 1, count, size);
  }

  lemma BatchSlotsApart(start: nat, size: nat, i: nat, j: nat)
    requires i < j
    ensures start + i * size + size <= start + j * size
  {
    Bits.MulMonotone(i + 1, j, size);
  }

  /** A batch carved as `[start, start + count * size)` below `end` keeps the blocks apart. */
  lemma PlacedBatch<T>(nodes: seq<Node<T>>, oldEnd: nat, start: nat, size: nat, count: nat, fill: T)
    requires Placed(nodes, oldEnd, size)
    requires start + count * size <= oldEnd
    ensures Placed(nodes + Batch(start, size, count, fill), start, size)
  {
    PlacedBatchAbove(nodes, oldEnd, start, size, count, fill);
    PlacedBatchApart(nodes, oldEnd, start, size, count, fill);
  }

  lemma PlacedBatchAbove<T>(nodes: seq<Node<T>>, oldEnd: nat, start: nat, size: nat, count: nat, fill: T)
    requires Placed(nodes, oldEnd, size)
    requires start + count * size <= oldEnd
    ensures var all := nodes + Batch(start, size, count, fill);
      forall k :: |nodes| <= k < |all| ==> start <= all[k].addr && all[k].addr + size <= oldEnd
    ensures var all := nodes + Batch(start, size, count, fill);
      forall k :: 0 <= k < |all| ==> start <= all[k].addr
  {
    var b := Batch(start, size, count, fill);
    var all := nodes + b;
    var n := |nodes|;
    forall k | n <= k < |all|
      ensures start <= all[k].addr && all[k].addr + size <= oldEnd
    {
      assert all[k] == b[k - n];
      BatchSlotBounds(start, size, count, k - n);
    }
    forall k | 0 <= k < n
      ensures start <= all[k].addr
    {
      assert all[k] == nodes[k];
    }
  }

  lemma PlacedBatchApart<T>(nodes: seq<Node<T>>, oldEnd: nat, start: nat, size: nat, count: nat, fill: T)
    requires Placed(nodes, oldEnd, size)
    requires start + count * size <= oldEnd
    ensures var all := nodes + Batch(start, size, count, fill);
      forall k, l :: 0 <= k < l < |all| ==>
        all[k].addr + size <= all[l].addr || all[l].addr + size <= all[k].addr
  {
    PlacedBatchAbove(nodes, oldEnd, start, size, count, fill);
    var b := Batch(start, size, count, fill);
    var all := nodes + b;
    var n := |nodes|;
    forall k, l | 0 <= k < l < |all|
      ensures all[k].addr + size <= all[l].addr || all[l].addr + size <= all[k].addr
    {
      if n <= k {
        assert all[k] == b[k - n] && all[l] == b[l - n];
        BatchSlotsApart(start, size, k - n, l - n);
      } else if l < n {
        assert all[k] == nodes[k] && all[l] == nodes[l];
      } else {
        assert all[k] == nodes[k];
      }
    }
  }

  /**
   * `preallocate(count)`: carve `count` nodes in one block and push them onto
   * the free list so that the last one is the new head. `count` must be at
   * least one (the code reads `nodes[count - 1]`). The carved block is
   * zero-filled, so the values start as `zero`.
   */
  function Preallocate<T>(p: Pool<T>, count: u32, zero: T): (r: PoolGrow<T>)
    requires p.Valid() && count >= 1
    ensures r.Grew? <==> AllocImpl(p.arena, p.layout.size, p.layout.Align(), count).Carved?
    ensures r.Grew? ==> r.pool.Valid()
    ensures r.Grew? ==> r.pool.used == p.used
    ensures r.Grew? ==> r.pool.free == Descending(|p.nodes|, |p.nodes| + count) + p.free
    ensures r.Grew? ==> |r.pool.nodes| == |p.nodes| + count && r.pool.nodes[..|p.nodes|] == p.nodes
  {
    match AllocImpl(p.arena, p.layout.size, p.layout.Align(), count)
    case OutOfMemory => GrowOom
    case Carved(a1, start, size) =>
      var n := |p.nodes|;
      var nodes := p.nodes + Batch(start, p.layout.size, count, zero);
      ListsPushBatch(n, p.used, p.free, count);
      PlacedBatch(p.nodes, p.arena.end, start, p.layout.size, count, zero);
      assert count * p.layout.size == size;
      assert nodes[..n] == p.nodes;
      Grew(Pool(a1, p.layout, nodes, p.used, Descending(n, n + count) + p.free))
  }

  /**
   * `clear`: repeatedly free the head of the used list. Every used node moves
   * to the free list; as each is pushed in turn, the oldest ends up first.
   */
  function Clear<T>(p: Pool<T>): (r: Pool<T>)
    requires p.Valid()
    ensures r.Valid()
    ensures r.used == []
    ensures r.free == Seqs.Reversed(p.used) + p.free
    ensures r.nodes == p.nodes && r.arena == p.arena
    decreases |p.used|
  {
    if |p.used| == 0 then p
    else
      var q := Dealloc(p, p.used[0]);
      assert q.used == p.used[1..];
      assert Seqs.Reversed(p.used) + p.free == Seqs.Reversed(p.used[1..]) + q.free;
      Clear(q)
  }

  /** Allocating `n` times in a row, stopping at the first out-of-memory. */
  function AllocN<T>(p: Pool<T>, zero: T, n: nat): (r: PoolAlloc<T>)
    requires p.Valid()
    ensures r.Allocated? ==> r.pool.Valid()
    decreases n
  {
    if n == 0 then Allocated(p, 0)
    else match AllocN(p, zero, n - 1)
      case AllocOom => AllocOom
      case Allocated(q, _) => Alloc(q, zero)
  }

  /**
   * From an empty pool, `n` successful allocations give nodes `0..n-1`, and
   * iteration visits them newest first, each exactly once.
   */
  lemma {:induction false} AllocNFromEmpty<T>(p: Pool<T>, zero: T, n: nat)
    requires p.Valid() && p.used == [] && p.free == [] && p.nodes == []
    requires AllocN(p, zero, n).Allocated?
    ensures AllocN(p, zero, n).pool.used == Descending(0, n)
    ensures AllocN(p, zero, n).pool.free == [] && |AllocN(p, zero, n).pool.nodes| == n
    ensures |Values(AllocN(p, zero, n).pool)| == n
  {
    if n > 0 {
      AllocNFromEmpty(p, zero, n - 1);
      assert Descending(0, n) == [n - 1] + Descending(0, n - 1);
    }
  }

  /** The preallocation test: three nodes give a free list of exactly three, nothing used. */
  lemma PreallocateThree<T>(p: Pool<T>, zero: T)
    requires p.Valid() && p.used == [] && p.free == [] && p.nodes == []
    requires Preallocate(p, 3, zero).Grew?
    ensures Preallocate(p, 3, zero).pool.used == []
    ensures Preallocate(p, 3, zero).pool.free == [2, 1, 0]
  {
  }

  /**
   * After preallocating three nodes, three allocations take them from the
   * free list (newest block first) without moving the arena, and the fourth
   * has to carve a new node.
   */
  lemma PreallocatedServeFirst<T>(p: Pool<T>, zero: T)
    requires p.Valid() && p.used == [] && p.free == [] && p.nodes == []
    requires Preallocate(p, 3, zero).Grew?
    ensures var q := Preallocate(p, 3, zero).pool;
      var a1 := Alloc(q, zero);
      var a2 := Alloc(a1.pool, zero);
      var a3 := Alloc(a2.pool, zero);
      && a1.Allocated? && a2.Allocated? && a3.Allocated?
      && [a1.node, a2.node, a3.node] == [2, 1, 0]
      && a3.pool.arena == q.arena && a3.pool.free == []
      && a3.pool.used == [0, 1, 2]
      && (Alloc(a3.pool, zero).Allocated? ==> Alloc(a3.pool, zero).node == 3)
  {
    PreallocateThree(p, zero);
    var q := Preallocate(p, 3, zero).pool;
    var a1 := Alloc(q, zero);
    assert a1.Allocated? && a1.node == 2 && a1.pool.free == [1, 0] && a1.pool.arena == q.arena;
    var a2 := Alloc(a1.pool, zero);
    assert a2.Allocated? && a2.node == 1 && a2.pool.free == [0] && a2.pool.arena == q.arena;
    var a3 := Alloc(a2.pool, zero);
    assert a3.Allocated? && a3.node == 0 && a3.pool.free == [] && a3.pool.arena == q.arena;
    assert |a3.pool.nodes| == 3;
  }
}
