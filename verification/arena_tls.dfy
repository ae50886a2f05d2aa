/**
 * Per-thread scratch arenas.
 *
 * Each thread owns a context with two arena pointers. `getScratch` hands out
 * a snapshot of one of them, picking the one that is not in the caller's
 * conflict list, so that a function can allocate temporaries without
 * disturbing the arena its result goes into. The thread-local storage that
 * finds the context is outside the model: the context is an explicit value.
 */
module ArenaTls {
  import opened Types
  import opened Arenas

  /** `ThreadContext`: the two scratch slots, as `Arena*` (possibly null). */
  datatype ThreadContext = ThreadContext(arena0: Ptr, arena1: Ptr)

  /** A context as first created for a thread: both slots null. */
  function FreshContext(): (ctx: ThreadContext)
    ensures ctx.arena0.Null? && ctx.arena1.Null?
  {
    ThreadContext(Null, Null)
  }

  /** `setAllocatorsForThread`: overwrites both slots. */
  function SetAllocatorsForThread(ctx: ThreadContext, arena0: Ptr, arena1: Ptr): (r: ThreadContext)
    ensures r.arena0 == arena0 && r.arena1 == arena1
  {
    ThreadContext(arena0, arena1)
  }

  /** The slot `*p` refers to an arena of the heap. */
  predicate Live(heap: Heap, p: Ptr)
  {
    p.Addr? && p.addr in heap
  }

  /**
   * `getScratch(pConflicts, numConflicts)`: with no conflict, a snapshot of
   * slot 0; with one conflict, slot 1 if the conflict is slot 0 and slot 0
   * otherwise. More than one conflict is a contract violation, and the slot
   * chosen must hold an arena.
   */
  function GetScratch(heap: Heap, ctx: ThreadContext, conflicts: seq<Ptr>): (r: ArenaSaved)
    requires |conflicts| <= 1
    requires |conflicts| == 0 || ctx.arena0 != conflicts[0] ==> Live(heap, ctx.arena0)
    requires |conflicts| == 1 && ctx.arena0 == conflicts[0] ==> Live(heap, ctx.arena1)
    ensures r.arena in heap && r.saved == heap[r.arena]
    ensures |conflicts| == 0 ==> Addr(r.arena) == ctx.arena0
    ensures |conflicts| == 1 && ctx.arena0 == conflicts[0] ==> Addr(r.arena) == ctx.arena1
    ensures |conflicts| == 1 && ctx.arena0 != conflicts[0] ==> Addr(r.arena) == ctx.arena0
    ensures |conflicts| == 1 && ctx.arena0 != ctx.arena1 ==> Addr(r.arena) != conflicts[0]
  {
    if |conflicts| == 0 then SaveArena(heap, ctx.arena0.addr)
    else if ctx.arena0 == conflicts[0] then SaveArena(heap, ctx.arena1.addr)
    else SaveArena(heap, ctx.arena0.addr)
  }

  /**
   * With two distinct slots, the arena handed out never equals the one it is
   * asked to avoid, and it is always one of the two slots.
   */
  lemma ScratchAvoidsConflict(heap: Heap, ctx: ThreadContext, conflict: Ptr)
    requires Live(heap, ctx.arena0) && Live(heap, ctx.arena1)
    requires ctx.arena0 != ctx.arena1
    ensures Addr(GetScratch(heap, ctx, [conflict]).arena) != conflict
    ensures Addr(GetScratch(heap, ctx, [conflict]).arena) in {ctx.arena0, ctx.arena1}
  {
  }

  /** A fresh context cannot serve `getScratch`: the allocators must be set first. */
  lemma FreshContextHasNoScratch(heap: Heap)
    ensures !Live(heap, FreshContext().arena0) && !Live(heap, FreshContext().arena1)
  {
  }

  /**
   * The unit tests' scenario: after installing two distinct arenas, asking
   * with no conflict gives arena 0, and asking again with that arena as the
   * conflict gives arena 1.
   */
  lemma ScratchAfterSetup(heap: Heap, a0: ArenaRef, a1: ArenaRef)
    requires a0 in heap && a1 in heap && a0 != a1
    ensures var ctx := SetAllocatorsForThread(FreshContext(), Addr(a0), Addr(a1));
      var first := GetScratch(heap, ctx, []);
      var second := GetScratch(heap, ctx, [Addr(first.arena)]);
      first.arena == a0 && second.arena == a1 && first.arena != second.arena
  {
  }

  /**
   * Releasing the scratch snapshot after allocating from it gives the heap
   * back unchanged, so two calls in a row hand out the same arena in the
   * same state.
   */
  lemma ScratchReleaseRestores(heap: Heap, ctx: ThreadContext, conflicts: seq<Ptr>, reqs: seq<Request>)
    requires |conflicts| <= 1
    requires |conflicts| == 0 || ctx.arena0 != conflicts[0] ==> Live(heap, ctx.arena0)
    requires |conflicts| == 1 && ctx.arena0 == conflicts[0] ==> Live(heap, ctx.arena1)
    requires heap[GetScratch(heap, ctx, conflicts).arena].Valid()
    requires forall i :: 0 <= i < |reqs| ==> reqs[i].objSize > 0
    ensures var t := GetScratch(heap, ctx, conflicts);
      var h := AllocManyAt(heap, t.arena, reqs);
      var back := RestoreArena(h, t.arena, t.saved);
      back == heap && GetScratch(back, ctx, conflicts) == t
  {
    var t := GetScratch(heap, ctx, conflicts);
    ScopeRoundTrip(heap, t.arena, reqs);
  }
}
