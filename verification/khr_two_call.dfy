/**
 * The two-call idiom of Khronos APIs, over an arena.
 *
 * The API function is called once with a null element pointer to learn the
 * element count, then the elements are allocated in the arena, each set to
 * a default value, and the function is called again to fill them. The API
 * function is an oracle: a total function from what it is given (the count
 * and, on the second call, the buffer's contents) to what it gives back (a
 * result code, the count it writes back and the buffer's new contents).
 * Non-negative result codes mean success.
 */
module KhrTwoCall {
  import opened Types
  import opened Arenas
  import opened Slices

  /** What the API function receives: `numElems` and the buffer behind `pElems`, if any. */
  datatype Query<T> = Query(count: u32, elems: Option<seq<T>>)

  /** What it leaves behind: its result code, `numElems`, and the buffer's contents. */
  datatype Reply<T> = Reply(rc: int, count: u32, elems: seq<T>)

  type Api<!T> = Query<T> -> Reply<T>

  /**
   * An API function that, given a buffer of `n` elements, keeps the buffer's
   * size and reports at most `n` elements written.
   */
  ghost predicate WellBehaved<T(!new)>(api: Api<T>)
  {
    forall n: u32, b: seq<T> | |b| == n :: |api(Query(n, Some(b))).elems| == n && api(Query(n, Some(b))).count <= n
  }

  /**
   * The end state of `twoCall`: the returned code, the arena, the output
   * slice, and the calls made to the API function, in order. `NoMemory`
   * is the arena's out-of-memory path.
   */
  datatype Outcome<T> = Done(rc: int, arena: Arena, dst: Slice<T>, calls: seq<Query<T>>) | NoMemory

  /** `count` copies of `v`, as the initialisation loop writes them. */
  method FillDefault<T>(count: u32, v: T) returns (r: seq<T>)
    ensures |r| == count
    ensures forall i :: 0 <= i < |r| ==> r[i] == v
  {
    r := [];
    for i := 0 to count
      invariant |r| == i
      invariant forall j :: 0 <= j < i ==> r[j] == v
    {
      r := r + [v];
    }
  }

  /**
   * `twoCall<Result>(arena, dst, func, defaultValue)`. `dst` is first set
   * to the null slice. A negative first code is returned at once. Otherwise
   * `numElems` elements of layout `t` are allocated (the arena having been
   * saved just before), set to `defaultValue`, and the function is called
   * again; a negative second code rolls the arena back to the saved state
   * and leaves `dst` null, and success makes `dst` the allocated elements,
   * `numElems` long as the second call left it.
   */
  method TwoCall<T(!new)>(a: Arena, t: Layout, api: Api<T>, defaultValue: T) returns (r: Outcome<T>)
    requires a.Valid() && t.Valid() && WellBehaved(api)
    ensures r.Done? ==> 1 <= |r.calls| <= 2 && r.calls[0] == Query(0, None)
    ensures r.Done? && r.rc < 0 ==> r.arena == a && r.dst == NullSlice()
    ensures r.Done? && |r.calls| == 1 ==> r.rc < 0 && r.rc == api(r.calls[0]).rc
    ensures r.Done? && |r.calls| == 2 ==>
      && api(r.calls[0]).rc >= 0
      && r.calls[1].count == api(r.calls[0]).count
      && r.calls[1].elems.Some?
      && |r.calls[1].elems.value| == r.calls[1].count
      && (forall i :: 0 <= i < r.calls[1].count ==> r.calls[1].elems.value[i] == defaultValue)
      && r.rc == api(r.calls[1]).rc
    ensures r.Done? && r.rc >= 0 ==>
      var n := api(r.calls[0]).count;
      var c := AllocImpl(a, t.size, t.Align(), n);
      && |r.calls| == 2
      && c.Carved? && r.arena == c.arena
      && r.dst.data == Addr(c.start)
      && |r.dst.elems| == api(r.calls[1]).count <= n
      && r.dst.elems == api(r.calls[1]).elems[..|r.dst.elems|]
    ensures r.NoMemory? ==> api(Query(0, None)).rc >= 0 && AllocImpl(a, t.size, t.Align(), api(Query(0, None)).count).OutOfMemory?
  {
    var q0 := Query(0, None);
    var first := api(q0);
    if first.rc < 0 {
      return Done(first.rc, a, NullSlice(), [q0]);
    }
    var saved := a;
    var numElems := first.count;
    var c := AllocImpl(a, t.size, t.Align(), numElems);
    if c.OutOfMemory? {
      return NoMemory;
    }
    var elems := FillDefault(numElems, defaultValue);
    var q1 := Query(numElems, Some(elems));
    var second := api(q1);
    if second.rc < 0 {
      return Done(second.rc, saved, NullSlice(), [q0, q1]);
    }
    r := Done(second.rc, c.arena, Slice(Addr(c.start), second.elems[..second.count]), [q0, q1]);
  }

  /**
   * `twoCallV(arena, dst, func, defaultValue)`, for API functions without a
   * result code: the same two calls, with no early return and no rollback.
   */
  method TwoCallV<T(!new)>(a: Arena, t: Layout, api: Api<T>, defaultValue: T) returns (r: Outcome<T>)
    requires a.Valid() && t.Valid() && WellBehaved(api)
    ensures r.Done? <==> AllocImpl(a, t.size, t.Align(), api(Query(0, None)).count).Carved?
    ensures r.Done? ==>
      var n := api(Query(0, None)).count;
      var c := AllocImpl(a, t.size, t.Align(), n);
      && c.Carved?
      && |r.calls| == 2 && r.calls[0] == Query(0, None)
      && r.calls[1].count == n && r.calls[1].elems.Some? && |r.calls[1].elems.value| == n
      && (forall i :: 0 <= i < n ==> r.calls[1].elems.value[i] == defaultValue)
      && r.arena == c.arena
      && r.dst.data == Addr(c.start)
      && |r.dst.elems| == api(r.calls[1]).count <= n
      && r.dst.elems == api(r.calls[1]).elems[..|r.dst.elems|]
  {
    var q0 := Query(0, None);
    var first := api(q0);
    var numElems := first.count;
    var c := AllocImpl(a, t.size, t.Align(), numElems);
    if c.OutOfMemory? {
      return NoMemory;
    }
    var elems := FillDefault(numElems, defaultValue);
    var q1 := Query(numElems, Some(elems));
    var second := api(q1);
    r := Done(0, c.arena, Slice(Addr(c.start), second.elems[..second.count]), [q0, q1]);
  }
}
