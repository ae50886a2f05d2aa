/**
 * `Optional<T>`: a value that may be absent.
 *
 * The storage union and the placement-new mechanics are not modelled; an
 * optional is either absent or holds one value.
 */
module Optionals {
  import opened Types
  import opened Slices

  datatype Optional<T> = Absent | Present(value: T)

  /** `hasValue`: the presence flag, clear exactly for the empty optional. */
  predicate HasValue<T>(o: Optional<T>)
    ensures !HasValue(o) <==> o == Absent
  {
    o.Present?
  }

  /** The default constructor: no value. */
  function Make<T>(): (r: Optional<T>)
    ensures !HasValue(r)
  {
    Absent
  }

  /** `Optional(v)`, by copy or by move: holds `v`. */
  function Of<T>(v: T): (r: Optional<T>)
    ensures HasValue(r) && r.value == v
  {
    Present(v)
  }

  /** `reset`: replaces the storage with an empty one. */
  function Reset<T>(o: Optional<T>): (r: Optional<T>)
    ensures !HasValue(r)
  {
    Make()
  }

  /**
   * Copy assignment: reset the target, then, if the source holds a value,
   * store a copy of it. The target ends up with the source's presence and
   * value, whatever it held before. Target and source are distinct objects
   * here; `SelfCopyAssign` is the assignment of an optional to itself.
   */
  function CopyAssign<T>(target: Optional<T>, source: Optional<T>): (r: Optional<T>)
    ensures HasValue(r) <==> HasValue(source)
    ensures HasValue(r) ==> r.value == source.value
  {
    var cleared := Reset(target);
    if HasValue(source) then Of(source.value) else cleared
  }

  /**
   * Move assignment, returning the new target and the new source. A present
   * source value moves into the target (overwriting a present target value
   * or filling an empty one) and the source is reset; an empty source
   * resets the target. Target and source are distinct objects here;
   * `SelfMoveAssign` is the move of an optional onto itself.
   */
  function MoveAssign<T>(target: Optional<T>, source: Optional<T>): (r: (Optional<T>, Optional<T>))
    ensures HasValue(r.0) <==> HasValue(source)
    ensures HasValue(r.0) ==> r.0.value == source.value
    ensures !HasValue(r.1)
  {
    if HasValue(source) then
      if HasValue(target) then
        (target.(value := source.value), Reset(source))
      else
        var v := source.value;
        (Of(v), Reset(source))
    else
      (Reset(target), source)
  }

  /**
   * Copy assignment of an optional to itself, `o = o`. The target is reset
   * before the source is read, and the source is the target, so the read
   * finds it empty: the optional ends up empty whatever it held.
   */
  function SelfCopyAssign<T>(o: Optional<T>): (r: Optional<T>)
    ensures !HasValue(r)
  {
    var cleared := Reset(o);
    match cleared
    case Present(v) => Of(v)
    case Absent => cleared
  }

  /**
   * Move assignment of an optional onto itself, `o = std::move(o)`. A
   * present value is moved onto itself and then the source, which is the
   * target, is reset; an empty optional is reset. Either way it ends up
   * empty.
   */
  function SelfMoveAssign<T>(o: Optional<T>): (r: Optional<T>)
    ensures !HasValue(r)
  {
    if HasValue(o) then
      var moved := o.(value := o.value);
      Reset(moved)
    else
      Reset(o)
  }

  /**
   * Assigning a present optional to itself empties it, where assigning an
   * equal but distinct optional keeps the value; an empty optional stays
   * empty either way.
   */
  lemma SelfAssignEmpties<T>(o: Optional<T>)
    ensures HasValue(o) ==> SelfCopyAssign(o) != CopyAssign(o, o)
    ensures HasValue(o) ==> SelfMoveAssign(o) != MoveAssign(o, o).0
    ensures !HasValue(o) ==> SelfCopyAssign(o) == CopyAssign(o, o) == SelfMoveAssign(o)
  {
  }

  /** `value()`: the held value; calling it on an empty optional fails its check. */
  function Value<T>(o: Optional<T>): (r: T)
    requires HasValue(o)
    ensures Of(r) == o
  {
    o.value
  }

  /** `valueOr(fallback)`: the held value, or `fallback` when empty. */
  function ValueOr<T>(o: Optional<T>, fallback: T): (r: T)
    ensures HasValue(o) ==> r == Value(o)
    ensures !HasValue(o) ==> r == fallback
  {
    if !HasValue(o) then fallback else o.value
  }

  /**
   * The conversion to `Slice<T>`: the null slice when empty, otherwise a
   * one-element view of the stored value at address `at`.
   */
  function AsSlice<T>(o: Optional<T>, at: nat): (r: Slice<T>)
    ensures r.Empty() <==> !HasValue(o)
    ensures !HasValue(o) ==> r == NullSlice()
    ensures HasValue(o) ==> r.data == Addr(at) && r.elems == [Value(o)]
  {
    if !HasValue(o) then NullSlice() else Slice(Addr(at), [o.value])
  }

  /** What the unit tests check: construction and `valueOr` agree. */
  lemma ConstructAndRead<T>(v: T, fallback: T)
    ensures ValueOr(Of(v), fallback) == v
    ensures ValueOr(Make<T>(), fallback) == fallback
    ensures Value(Of(v)) == v
  {
  }

  /**
   * Copying from a distinct optional and then from the same one again
   * changes nothing more; the target becomes equal to the source.
   */
  lemma CopyAssignIdempotent<T>(target: Optional<T>, source: Optional<T>)
    ensures CopyAssign(CopyAssign(target, source), source) == CopyAssign(target, source)
    ensures CopyAssign(target, source) == source
  {
  }

  /**
   * A move and a copy deliver the same target; the move additionally
   * empties its source.
   */
  lemma MoveIsCopyThenReset<T>(target: Optional<T>, source: Optional<T>)
    ensures MoveAssign(target, source).0 == CopyAssign(target, source)
    ensures MoveAssign(target, source).1 == Reset(source)
  {
  }

  /** The slice view reads back the value: the element of a one-element view is `value()`. */
  lemma SliceReadsValue<T>(o: Optional<T>, at: nat)
    ensures |AsSlice(o, at).elems| <= 1
    ensures |AsSlice(o, at).elems| == 1 <==> HasValue(o)
    ensures HasValue(o) ==> AsSlice(o, at).elems[0] == ValueOr(o, o.value)
  {
  }
}
