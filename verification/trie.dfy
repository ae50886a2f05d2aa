/**
 * The 4-ary hash trie with tombstones.
 *
 * Every node holds a key, a value, a `deleted` flag and four children. A
 * walk starts at the root with a cursor `h` equal to the key; at each node
 * whose key differs it descends into the child named by the top two bits of
 * the cursor and advances the cursor with `h <<= 2`. `upsert` stops at the
 * first node with an equal key or at the first empty child, where it may
 * allocate a new node from an arena; `remove` only ever sets the tombstone.
 *
 * The walk is written once for any key type, given by the operations the
 * loop uses on it (`KeyOps`): `==`, the conversion of the cursor to `u64`,
 * and what `h <<= 2` does to the cursor. For `u64` keys the cursor is
 * shifted; for `TrieStrKey` the shift operator returns a new key and the
 * loop discards it, so the cursor never moves.
 *
 * Pointers to nodes are replaced by the tree itself, and the returned value
 * pointer by the path (child indices from the root) of the node that holds
 * the value.
 */
module Tries {
  import opened Types
  import opened Arenas
  import opened TrieStrKeys

  datatype Trie<K, V> = Nil | Node(children: seq<Trie<K, V>>, deleted: bool, key: K, value: V)

  /** Every node has exactly four children. */
  predicate Valid<K, V>(t: Trie<K, V>)
  {
    t.Node? ==> |t.children| == 4 && forall i :: 0 <= i < 4 ==> Valid(t.children[i])
  }

  /** The operations the walk applies to a key type. */
  datatype KeyOps<!K> = KeyOps(eq: (K, K) -> bool, bits: K -> u64, advance: K -> K)

  ghost predicate IsEquivalence<K(!new)>(eq: (K, K) -> bool)
  {
    && (forall a :: eq(a, a))
    && (forall a, b :: eq(a, b) ==> eq(b, a))
    && (forall a, b, c :: eq(a, b) && eq(b, c) ==> eq(a, c))
  }

  /** Unsigned 64-bit keys: `h <<= 2` shifts the cursor, dropping its top two bits. */
  function U64Ops(): KeyOps<u64>
  {
    var eq: (u64, u64) -> bool := (a, b) => a == b;
    var bits: u64 -> u64 := h => h;
    var advance: u64 -> u64 := h => (h * 4) % U64_LIMIT;
    KeyOps(eq, bits, advance)
  }

  /** String keys: `h <<= 2` builds a shifted copy that the loop throws away. */
  function StrOps(): KeyOps<TrieStrKey>
  {
    KeyOps((a: TrieStrKey, b: TrieStrKey) => Equal(a, b), (h: TrieStrKey) => ToU64(h), (h: TrieStrKey) => h)
  }

  /** `(u64)h >> 62`: the child chosen by the top two bits of the cursor. */
  function ChildIndex(x: u64): (i: nat)
    ensures i < 4
    ensures i * 0x4000_0000_0000_0000 <= x < (i + 1) * 0x4000_0000_0000_0000
  {
    x / 0x4000_0000_0000_0000
  }

  /** A freshly allocated node: zeroed, so no children and not deleted. */
  function Leaf<K, V>(key: K, value: V): Trie<K, V>
  {
    Node([Nil, Nil, Nil, Nil], false, key, value)
  }

  /** The cursor after `d` steps of the walk. */
  function Cursor<K>(ops: KeyOps<K>, h: K, d: nat): K
  {
    if d == 0 then h else Cursor(ops, ops.advance(h), d - 1)
  }

  /** The subtrie reached by following `path` from `t`; `Nil` once the path leaves the trie. */
  function At<K, V>(t: Trie<K, V>, path: seq<nat>): (r: Trie<K, V>)
    ensures Valid(t) ==> Valid(r)
    decreases |path|
  {
    if path == [] then t
    else if t.Nil? || path[0] >= |t.children| then Nil
    else At(t.children[path[0]], path[1..])
  }

  /** `t` with the subtrie at `path` replaced by `n`; a path that leaves the trie changes nothing. */
  function ReplaceAt<K, V>(t: Trie<K, V>, path: seq<nat>, n: Trie<K, V>): (r: Trie<K, V>)
    ensures Valid(t) && Valid(n) ==> Valid(r)
    decreases |path|
  {
    if path == [] then n
    else if t.Nil? || path[0] >= |t.children| then t
    else t.(children := t.children[path[0] := ReplaceAt(t.children[path[0]], path[1..], n)])
  }

  /** `path` leads through nodes of `t` only. */
  predicate Inside<K, V>(t: Trie<K, V>, path: seq<nat>)
    decreases |path|
  {
    path == [] || (t.Node? && path[0] < |t.children| && Inside(t.children[path[0]], path[1..]))
  }

  /** The number of nodes. */
  function Size<K, V>(t: Trie<K, V>): nat
    requires Valid(t)
  {
    if t.Nil? then 0
    else 1 + Size(t.children[0]) + Size(t.children[1]) + Size(t.children[2]) + Size(t.children[3])
  }

  /** The path the walk for `key` takes from cursor `h`: it ends at an empty child or at a node with an equal key. */
  function PathFrom<K, V>(t: Trie<K, V>, key: K, h: K, ops: KeyOps<K>): seq<nat>
    requires Valid(t)
  {
    if t.Nil? || ops.eq(key, t.key) then []
    else
      var i := ChildIndex(ops.bits(h));
      [i] + PathFrom(t.children[i], key, ops.advance(h), ops)
  }

  /** The live value of `key`: absent when the walk ends at an empty child or a tombstone. */
  function LookupFrom<K, V>(t: Trie<K, V>, key: K, h: K, ops: KeyOps<K>): Option<V>
    requires Valid(t)
  {
    if t.Nil? then None
    else if ops.eq(key, t.key) then (if t.deleted then None else Some(t.value))
    else LookupFrom(t.children[ChildIndex(ops.bits(h))], key, ops.advance(h), ops)
  }

  /**
   * `upsert` with a null arena: the value of the node the walk for `key`
   * stops at, unless the walk ends at an empty child or the node is a
   * tombstone.
   */
  function Lookup<K, V>(t: Trie<K, V>, key: K, ops: KeyOps<K>): (r: Option<V>)
    requires Valid(t)
    ensures var n := At(t, PathFrom(t, key, key, ops));
      && (n.Nil? || ops.eq(key, n.key))
      && r == (if n.Nil? || n.deleted then None else Some(n.value))
  {
    LookupAtPath(t, key, key, ops);
    LookupFrom(t, key, key, ops)
  }

  /** What `upsert` leaves behind: the new root, the arena, the value slot (`None` for `nullptr`) and `wasPresent`. */
  datatype Upserted<K, V> = Upserted(root: Trie<K, V>, arena: Option<Arena>, slot: Option<seq<nat>>, wasPresent: bool) | Oom

  function Below(i: nat, slot: Option<seq<nat>>): Option<seq<nat>>
  {
    if slot.Some? then Some([i] + slot.value) else None
  }

  predicate UpsertArgs<K, V>(t: Trie<K, V>, arena: Option<Arena>, node: Layout)
  {
    Valid(t) && node.Valid() && (arena.Some? ==> arena.value.Valid())
  }

  /**
   * The `upsert` loop from the node `t` with cursor `h`. A null arena means
   * "look up only"; `wasPresent` is the caller's flag, which the function
   * may leave as it was.
   */
  function UpsertFrom<K, V>(t: Trie<K, V>, key: K, h: K, ops: KeyOps<K>, arena: Option<Arena>, node: Layout, zero: V, wasPresent: bool): (r: Upserted<K, V>)
    requires UpsertArgs(t, arena, node)
  {
    if t.Nil? then
      if arena.None? then Upserted(Nil, None, None, false)
      else
        match AllocImpl(arena.value, node.size, node.Align(), 1)
        case OutOfMemory => Oom
        case Carved(a, _, _) => Upserted(Leaf(key, zero), Some(a), Some([]), false)
    else if ops.eq(key, t.key) then
      if !t.deleted then Upserted(t, arena, Some([]), true)
      else if arena.Some? then Upserted(t.(deleted := false, value := zero), arena, Some([]), wasPresent)
      else Upserted(t, arena, None, wasPresent)
    else
      var i := ChildIndex(ops.bits(h));
      match UpsertFrom(t.children[i], key, ops.advance(h), ops, arena, node, zero, wasPresent)
      case Oom => Oom
      case Upserted(c, a, slot, w) => Upserted(t.(children := t.children[i := c]), a, Below(i, slot), w)
  }

  /**
   * The outcome of `upsert` described through the path of the walk: at the
   * node where the walk stops, a live node is returned as is, a tombstone is
   * revived with a zeroed value when there is an arena, and an empty child
   * receives a new leaf allocated from the arena.
   */
  function UpsertSpec<K, V>(t: Trie<K, V>, key: K, h: K, ops: KeyOps<K>, arena: Option<Arena>, node: Layout, zero: V, wasPresent: bool): Upserted<K, V>
    requires UpsertArgs(t, arena, node)
  {
    var p := PathFrom(t, key, h, ops);
    var n := At(t, p);
    if n.Nil? then
      if arena.None? then Upserted(t, None, None, false)
      else
        match AllocImpl(arena.value, node.size, node.Align(), 1)
        case OutOfMemory => Oom
        case Carved(a, _, _) => Upserted(ReplaceAt(t, p, Leaf(key, zero)), Some(a), Some(p), false)
    else if !n.deleted then Upserted(t, arena, Some(p), true)
    else if arena.None? then Upserted(t, None, None, wasPresent)
    else Upserted(ReplaceAt(t, p, n.(deleted := false, value := zero)), arena, Some(p), wasPresent)
  }

  /** `upsert(m, key, arena, wasPresent)`. */
  function Upsert<K, V>(t: Trie<K, V>, key: K, ops: KeyOps<K>, arena: Option<Arena>, node: Layout, zero: V, wasPresent: bool): (r: Upserted<K, V>)
    requires UpsertArgs(t, arena, node)
    ensures r == UpsertSpec(t, key, key, ops, arena, node, zero, wasPresent)
  {
    UpsertMatchesSpec(t, key, key, ops, arena, node, zero, wasPresent);
    UpsertFrom(t, key, key, ops, arena, node, zero, wasPresent)
  }

  /** The loop and the path description agree. */
  lemma {:induction false} UpsertMatchesSpec<K, V>(t: Trie<K, V>, key: K, h: K, ops: KeyOps<K>, arena: Option<Arena>, node: Layout, zero: V, wasPresent: bool)
    requires UpsertArgs(t, arena, node)
    ensures UpsertFrom(t, key, h, ops, arena, node, zero, wasPresent) == UpsertSpec(t, key, h, ops, arena, node, zero, wasPresent)
  {
    if t.Node? && !ops.eq(key, t.key) {
      var i := ChildIndex(ops.bits(h));
      var p := PathFrom(t.children[i], key, ops.advance(h), ops);
      assert PathFrom(t, key, h, ops) == [i] + p;
      assert ([i] + p)[1..] == p;
      UpsertMatchesSpec(t.children[i], key, ops.advance(h), ops, arena, node, zero, wasPresent);
      assert t.children[i := t.children[i]] == t.children;
    }
  }

  /** The two-argument `upsert`: the flag goes to a local that is thrown away. */
  function UpsertValue<K, V>(t: Trie<K, V>, key: K, ops: KeyOps<K>, arena: Option<Arena>, node: Layout, zero: V): (r: Upserted<K, V>)
    requires UpsertArgs(t, arena, node)
    ensures forall w: bool {:trigger Upsert(t, key, ops, arena, node, zero, w)} ::
      var u := Upsert(t, key, ops, arena, node, zero, w);
      r.Oom? == u.Oom? && (r.Upserted? ==> r.root == u.root && r.arena == u.arena && r.slot == u.slot)
  {
    Upsert(t, key, ops, arena, node, zero, false)
  }

  /** The walk for `remove`, which tombstones a live node and reports whether it did. */
  function RemoveFrom<K, V>(t: Trie<K, V>, key: K, h: K, ops: KeyOps<K>): (r: (Trie<K, V>, bool))
    requires Valid(t)
  {
    if t.Nil? then (t, false)
    else if ops.eq(key, t.key) then
      if t.deleted then (t, false) else (t.(deleted := true), true)
    else
      var i := ChildIndex(ops.bits(h));
      var (c, removed) := RemoveFrom(t.children[i], key, ops.advance(h), ops);
      (t.(children := t.children[i := c]), removed)
  }

  /** `remove(m, key)`: only the node where the walk stops can change, and only its tombstone. */
  function Remove<K, V>(t: Trie<K, V>, key: K, ops: KeyOps<K>): (r: (Trie<K, V>, bool))
    requires Valid(t)
    ensures var p := PathFrom(t, key, key, ops); var n := At(t, p);
      r == if n.Nil? || n.deleted then (t, false) else (ReplaceAt(t, p, n.(deleted := true)), true)
  {
    RemoveMatchesPath(t, key, key, ops);
    RemoveFrom(t, key, key, ops)
  }

  lemma {:induction false} RemoveMatchesPath<K, V>(t: Trie<K, V>, key: K, h: K, ops: KeyOps<K>)
    requires Valid(t)
    ensures var p := PathFrom(t, key, h, ops); var n := At(t, p);
      RemoveFrom(t, key, h, ops) == if n.Nil? || n.deleted then (t, false) else (ReplaceAt(t, p, n.(deleted := true)), true)
  {
    if t.Node? && !ops.eq(key, t.key) {
      var i := ChildIndex(ops.bits(h));
      var p := PathFrom(t.children[i], key, ops.advance(h), ops);
      assert PathFrom(t, key, h, ops) == [i] + p;
      assert ([i] + p)[1..] == p;
      RemoveMatchesPath(t.children[i], key, ops.advance(h), ops);
      assert t.children[i := t.children[i]] == t.children;
    }
  }

  /** The walk stops at an empty child or at a node with an equal key, and the lookup reads that node. */
  lemma {:induction false} LookupAtPath<K, V>(t: Trie<K, V>, key: K, h: K, ops: KeyOps<K>)
    requires Valid(t)
    ensures var p := PathFrom(t, key, h, ops); var n := At(t, p);
      && Inside(t, p)
      && (n.Nil? || ops.eq(key, n.key))
      && LookupFrom(t, key, h, ops) == (if n.Nil? || n.deleted then None else Some(n.value))
  {
    if t.Node? && !ops.eq(key, t.key) {
      var i := ChildIndex(ops.bits(h));
      var p := PathFrom(t.children[i], key, ops.advance(h), ops);
      assert PathFrom(t, key, h, ops) == [i] + p;
      assert ([i] + p)[1..] == p;
      LookupAtPath(t.children[i], key, ops.advance(h), ops);
    }
  }

  /** Replacing the node where the walk stops by one the walk also stops at leaves the walk unchanged. */
  lemma {:induction false} PathThroughReplace<K, V>(t: Trie<K, V>, key: K, h: K, ops: KeyOps<K>, n: Trie<K, V>)
    requires Valid(t) && Valid(n) && (n.Nil? || ops.eq(key, n.key))
    ensures var p := PathFrom(t, key, h, ops); var r := ReplaceAt(t, p, n);
      PathFrom(r, key, h, ops) == p && At(r, p) == n
  {
    var p := PathFrom(t, key, h, ops);
    if p != [] {
      var i := ChildIndex(ops.bits(h));
      var q := PathFrom(t.children[i], key, ops.advance(h), ops);
      assert p == [i] + q;
      assert p[1..] == q;
      PathThroughReplace(t.children[i], key, ops.advance(h), ops, n);
    }
  }

  /**
   * Replacing the subtrie at `p` does not change the lookup of a key whose
   * walk reads the old and the new subtrie alike.
   */
  lemma {:induction false} LookupReplace<K, V>(t: Trie<K, V>, p: seq<nat>, n: Trie<K, V>, k: K, h: K, ops: KeyOps<K>)
    requires Valid(t) && Valid(n)
    requires LookupFrom(n, k, Cursor(ops, h, |p|), ops) == LookupFrom(At(t, p), k, Cursor(ops, h, |p|), ops)
    ensures LookupFrom(ReplaceAt(t, p, n), k, h, ops) == LookupFrom(t, k, h, ops)
    decreases |p|
  {
    if p != [] && t.Node? && p[0] < |t.children| && !ops.eq(k, t.key) {
      var i := p[0];
      if ChildIndex(ops.bits(h)) == i {
        assert Cursor(ops, h, |p|) == Cursor(ops, ops.advance(h), |p[1..]|);
        LookupReplace(t.children[i], p[1..], n, k, ops.advance(h), ops);
      }
    }
  }

  /** Replacing a subtrie inside the trie changes the node count by the difference. */
  lemma {:induction false} SizeReplace<K, V>(t: Trie<K, V>, p: seq<nat>, n: Trie<K, V>)
    requires Valid(t) && Valid(n) && Inside(t, p)
    ensures Size(ReplaceAt(t, p, n)) + Size(At(t, p)) == Size(t) + Size(n)
    decreases |p|
  {
    if p != [] {
      SizeReplace(t.children[p[0]], p[1..], n);
    }
  }

  /** A node whose key differs from `k` looks the same to `k` whatever its flag and value. */
  lemma PassThrough<K, V>(n: Trie<K, V>, m: Trie<K, V>, k: K, h: K, ops: KeyOps<K>)
    requires Valid(n) && n.Node? && m.Node? && m.children == n.children && m.key == n.key && !ops.eq(k, n.key)
    ensures LookupFrom(m, k, h, ops) == LookupFrom(n, k, h, ops)
  {
  }

  /** With an equivalence, a key not equal to `key` is not equal to anything equal to `key`. */
  lemma NotEqualToEqual<K(!new)>(eq: (K, K) -> bool, key: K, other: K, k: K)
    requires IsEquivalence(eq) && eq(key, other) && !eq(k, key)
    ensures !eq(k, other)
  {
  }

  /** A live key: `upsert` hands back its slot and sets `wasPresent`, arena or not, and changes nothing. */
  lemma UpsertLive<K, V>(t: Trie<K, V>, key: K, ops: KeyOps<K>, arena: Option<Arena>, node: Layout, zero: V, w: bool)
    requires UpsertArgs(t, arena, node) && Lookup(t, key, ops).Some?
    ensures var p := PathFrom(t, key, key, ops);
      && Upsert(t, key, ops, arena, node, zero, w) == Upserted(t, arena, Some(p), true)
      && At(t, p).value == Lookup(t, key, ops).value
  {
    LookupAtPath(t, key, key, ops);
  }

  /**
   * Without an arena `upsert` only looks: the trie is unchanged, the slot is
   * null unless the key is live, and `wasPresent` is cleared for an absent
   * key but left alone for a deleted one.
   */
  lemma UpsertWithoutArena<K, V>(t: Trie<K, V>, key: K, ops: KeyOps<K>, node: Layout, zero: V, w: bool)
    requires UpsertArgs(t, None, node)
    ensures var r := Upsert(t, key, ops, None, node, zero, w);
      && r.Upserted? && r.root == t && r.arena == None
      && (r.slot.Some? <==> Lookup(t, key, ops).Some?)
      && (r.slot.Some? ==> At(t, r.slot.value).value == Lookup(t, key, ops).value)
      && r.wasPresent == (if Lookup(t, key, ops).Some? then true else if At(t, PathFrom(t, key, key, ops)).Nil? then false else w)
  {
    LookupAtPath(t, key, key, ops);
  }

  /**
   * With an arena the key is live afterwards: an absent key gets a new node
   * (one allocation, which may run out of memory) with a zeroed value, a
   * deleted key is revived with a zeroed value, a live key keeps its value.
   */
  lemma UpsertWithArena<K(!new), V>(t: Trie<K, V>, key: K, ops: KeyOps<K>, a: Arena, node: Layout, zero: V, w: bool)
    requires UpsertArgs(t, Some(a), node) && IsEquivalence(ops.eq)
    ensures var r := Upsert(t, key, ops, Some(a), node, zero, w);
      var p := PathFrom(t, key, key, ops);
      var absent := At(t, p).Nil?;
      var c := AllocImpl(a, node.size, node.Align(), 1);
      var before := Lookup(t, key, ops);
      && (r.Oom? <==> absent && c.OutOfMemory?)
      && (r.Upserted? ==>
        && Valid(r.root)
        && r.slot == Some(p)
        && Lookup(r.root, key, ops) == Some(if before.Some? then before.value else zero)
        && r.wasPresent == (if before.Some? then true else if absent then false else w)
        && Size(r.root) == Size(t) + (if absent then 1 else 0)
        && r.arena == (if absent then Some(c.arena) else Some(a)))
  {
    LookupAtPath(t, key, key, ops);
    var p := PathFrom(t, key, key, ops);
    var n := At(t, p);
    if n.Nil? {
      if AllocImpl(a, node.size, node.Align(), 1).Carved? {
        var leaf := Leaf(key, zero);
        PathThroughReplace(t, key, key, ops, leaf);
        LookupAtPath(ReplaceAt(t, p, leaf), key, key, ops);
        SizeReplace(t, p, leaf);
      }
    } else if n.deleted {
      var m := n.(deleted := false, value := zero);
      PathThroughReplace(t, key, key, ops, m);
      LookupAtPath(ReplaceAt(t, p, m), key, key, ops);
      SizeReplace(t, p, m);
    }
  }

  /** `upsert` never changes the lookup of any other key. */
  lemma UpsertKeepsOthers<K(!new), V>(t: Trie<K, V>, key: K, k: K, ops: KeyOps<K>, arena: Option<Arena>, node: Layout, zero: V, w: bool)
    requires UpsertArgs(t, arena, node) && IsEquivalence(ops.eq) && !ops.eq(k, key)
    ensures var r := Upsert(t, key, ops, arena, node, zero, w);
      r.Upserted? ==> Valid(r.root) && Lookup(r.root, k, ops) == Lookup(t, k, ops)
  {
    LookupAtPath(t, key, key, ops);
    var p := PathFrom(t, key, key, ops);
    var n := At(t, p);
    if arena.Some? {
      if n.Nil? {
        LookupReplace(t, p, Leaf(key, zero), k, k, ops);
      } else if n.deleted {
        NotEqualToEqual(ops.eq, key, n.key, k);
        PassThrough(n, n.(deleted := false, value := zero), k, Cursor(ops, k, |p|), ops);
        LookupReplace(t, p, n.(deleted := false, value := zero), k, k, ops);
      }
    }
  }

  /** `remove` reports whether the key was live, and afterwards it is not; no node is added or unlinked. */
  lemma RemoveLookup<K, V>(t: Trie<K, V>, key: K, ops: KeyOps<K>)
    requires Valid(t)
    ensures var r := Remove(t, key, ops);
      && Valid(r.0)
      && r.1 == Lookup(t, key, ops).Some?
      && Lookup(r.0, key, ops) == None
      && Size(r.0) == Size(t)
  {
    LookupAtPath(t, key, key, ops);
    var p := PathFrom(t, key, key, ops);
    var n := At(t, p);
    if !(n.Nil? || n.deleted) {
      var m := n.(deleted := true);
      PathThroughReplace(t, key, key, ops, m);
      LookupAtPath(ReplaceAt(t, p, m), key, key, ops);
      SizeReplace(t, p, m);
    }
  }

  /** `remove` never changes the lookup of any other key. */
  lemma RemoveKeepsOthers<K(!new), V>(t: Trie<K, V>, key: K, k: K, ops: KeyOps<K>)
    requires Valid(t) && IsEquivalence(ops.eq) && !ops.eq(k, key)
    ensures Lookup(Remove(t, key, ops).0, k, ops) == Lookup(t, k, ops)
  {
    LookupAtPath(t, key, key, ops);
    var p := PathFrom(t, key, key, ops);
    var n := At(t, p);
    if !(n.Nil? || n.deleted) {
      NotEqualToEqual(ops.eq, key, n.key, k);
      PassThrough(n, n.(deleted := true), k, Cursor(ops, k, |p|), ops);
      LookupReplace(t, p, n.(deleted := true), k, k, ops);
    }
  }

  /** Inserting and then removing a key: the removal finds it live and leaves it deleted. */
  lemma UpsertThenRemove<K(!new), V>(t: Trie<K, V>, key: K, ops: KeyOps<K>, a: Arena, node: Layout, zero: V, w: bool)
    requires UpsertArgs(t, Some(a), node) && IsEquivalence(ops.eq)
    requires Upsert(t, key, ops, Some(a), node, zero, w).Upserted?
    ensures var r := Upsert(t, key, ops, Some(a), node, zero, w);
      Valid(r.root) && Remove(r.root, key, ops).1 && Lookup(Remove(r.root, key, ops).0, key, ops) == None
  {
    UpsertWithArena(t, key, ops, a, node, zero, w);
    RemoveLookup(Upsert(t, key, ops, Some(a), node, zero, w).root, key, ops);
  }

  /** Step `d` of the walk picks the child named by the top two bits of the cursor after `d` steps. */
  lemma {:induction false} PathStep<K, V>(t: Trie<K, V>, key: K, h: K, ops: KeyOps<K>, d: nat)
    requires Valid(t) && d < |PathFrom(t, key, h, ops)|
    ensures PathFrom(t, key, h, ops)[d] == ChildIndex(ops.bits(Cursor(ops, h, d)))
  {
    var i := ChildIndex(ops.bits(h));
    var q := PathFrom(t.children[i], key, ops.advance(h), ops);
    assert PathFrom(t, key, h, ops) == [i] + q;
    if d > 0 {
      PathStep(t.children[i], key, ops.advance(h), ops, d - 1);
    }
  }

  /** For `u64` keys the cursor after `d` steps is `key << 2d` in 64 bits. */
  lemma {:induction false} U64Cursor(h: u64, d: nat)
    ensures Cursor(U64Ops(), h, d) == (h * Pow2(2 * d)) % U64_LIMIT
    decreases d
  {
    if d > 0 {
      var next := (h * 4) % U64_LIMIT;
      assert U64Ops().advance(h) == next;
      U64Cursor(next, d - 1);
      var p := Pow2(2 * (d - 1));
      Bits.ModMulLeft(h * 4, p, U64_LIMIT);
      assert Pow2(2 * d) == 4 * p by { assert 2 * d == 2 * (d - 1) + 2; }
      MulRegroup(h, p);
    } else {
      assert h * Pow2(0) == h;
    }
  }

  lemma MulRegroup(h: nat, p: nat)
    ensures (h * 4) * p == h * (4 * p)
  {
  }

  /** For `u64` keys, step `d` of the walk takes the child named by bits `63 - 2d` and `62 - 2d` of the key. */
  lemma U64PathStep<V>(t: Trie<u64, V>, key: u64, d: nat)
    requires Valid(t) && d < |PathFrom(t, key, key, U64Ops())|
    ensures PathFrom(t, key, key, U64Ops())[d] == ChildIndex((key * Pow2(2 * d)) % U64_LIMIT)
  {
    PathStep(t, key, key, U64Ops(), d);
    U64Cursor(key, d);
  }

  /** For string keys the cursor never moves. */
  lemma {:induction false} StrCursor(h: TrieStrKey, d: nat)
    ensures Cursor(StrOps(), h, d) == h
  {
    if d > 0 {
      StrCursor(h, d - 1);
    }
  }

  /**
   * For string keys every step of the walk takes the same child, the one
   * named by the top two bits of the key's second hash: keys that agree on
   * those bits form a single chain.
   */
  lemma StrPathIsConstant<V>(t: Trie<TrieStrKey, V>, key: TrieStrKey, d: nat)
    requires Valid(t) && d < |PathFrom(t, key, key, StrOps())|
    ensures PathFrom(t, key, key, StrOps())[d] == ChildIndex(key.hash2)
  {
    PathStep(t, key, key, StrOps(), d);
    StrCursor(key, d);
  }

  lemma U64Equivalence()
    ensures IsEquivalence(U64Ops().eq)
  {
  }

  lemma StrEquivalence()
    ensures IsEquivalence(StrOps().eq)
  {
    forall a: TrieStrKey, b: TrieStrKey, c: TrieStrKey
      ensures Equal(a, a) && (Equal(a, b) ==> Equal(b, a)) && (Equal(a, b) && Equal(b, c) ==> Equal(a, c))
    {
      EqualIsEquivalence(a, b, c);
    }
  }
}
