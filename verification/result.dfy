/**
 * `Result<T, E>`: either a value or an error.
 *
 * The storage union, destructors and placement-new are not modelled; a
 * result is one of the two alternatives with its payload.
 */
module Results {

  datatype Result<T, E> = Ok(value: T) | Err(error: E)

  /** `isOk`: the stored tag, set exactly when the result does not hold an error. */
  predicate IsOk<T, E>(r: Result<T, E>)
    ensures IsOk(r) <==> !r.Err?
  {
    r.Ok?
  }

  /** `isErr`: the negated tag, so exactly one of `isOk` and `isErr` holds. */
  predicate IsErr<T, E>(r: Result<T, E>)
    ensures IsErr(r) <==> !IsOk(r)
  {
    r.Err?
  }

  /** `Result(const T&)` / `Result(T&&)`: an ok result holding `v`. */
  function FromValue<T, E>(v: T): (r: Result<T, E>)
    ensures IsOk(r) && !IsErr(r) && r.value == v
  {
    Ok(v)
  }

  /** `Result(const E&)` / `Result(E&&)`: an error result holding `e`. */
  function FromError<T, E>(e: E): (r: Result<T, E>)
    ensures IsErr(r) && !IsOk(r) && r.error == e
  {
    Err(e)
  }

  /** `unwrap`: the value of an ok result. */
  function Unwrap<T, E>(r: Result<T, E>): (v: T)
    requires IsOk(r)
    ensures FromValue(v) == r
  {
    r.value
  }

  /** `unwrapErr`: the error of an error result. */
  function UnwrapErr<T, E>(r: Result<T, E>): (e: E)
    requires IsErr(r)
    ensures FromError(e) == r
  {
    r.error
  }

  /** `unwrapOrDefault`: the value when ok, else the value-initialised `T()` given as `default`. */
  function UnwrapOrDefault<T, E>(r: Result<T, E>, default: T): (v: T)
    ensures IsOk(r) ==> v == Unwrap(r)
    ensures IsErr(r) ==> v == default
  {
    if IsOk(r) then Unwrap(r) else default
  }

  /**
   * Copy and move assignment: the storage takes the source's tag and a copy
   * (or the moved-from contents) of the source's payload, whatever the
   * target held.
   */
  function Assign<T, E>(target: Result<T, E>, source: Result<T, E>): (r: Result<T, E>)
    ensures IsOk(r) <==> IsOk(source)
    ensures IsOk(r) ==> r.value == source.value
    ensures IsErr(r) ==> r.error == source.error
  {
    if IsOk(source) then FromValue(source.value) else FromError(source.error)
  }

  /** `flatten`: the outer error, else the inner error, else the inner value. */
  function Flatten<T, E>(res: Result<Result<T, E>, E>): (r: Result<T, E>)
    ensures IsErr(res) ==> r == FromError(res.error)
    ensures IsOk(res) && IsErr(res.value) ==> r == FromError(res.value.error)
    ensures IsOk(res) && IsOk(res.value) ==> r == FromValue(res.value.value)
  {
    if IsErr(res) then FromError(UnwrapErr(res))
    else
      var inner := Unwrap(res);
      if IsErr(inner) then FromError(UnwrapErr(inner)) else FromValue(Unwrap(inner))
  }

  /** `flatten` undoes wrapping a result in an ok result. */
  lemma FlattenOfWrapped<T, E>(inner: Result<T, E>)
    ensures Flatten(FromValue<Result<T, E>, E>(inner)) == inner
  {
  }

  /** The three cases of the unit tests. */
  lemma FlattenCases<T, E>(x: T, rc: E)
    ensures Flatten(FromValue<Result<T, E>, E>(FromValue(x))) == FromValue(x)
    ensures Flatten(FromValue<Result<T, E>, E>(FromError(rc))) == FromError(rc)
    ensures Flatten(FromError<Result<T, E>, E>(rc)) == FromError(rc)
  {
  }

  /** Assignment makes the target equal to the source, so it is idempotent. */
  lemma AssignCopies<T, E>(target: Result<T, E>, source: Result<T, E>)
    ensures Assign(target, source) == source
    ensures Assign(Assign(target, source), source) == Assign(target, source)
  {
  }

  /** `unwrapOrDefault` reads what the constructors stored. */
  lemma UnwrapOrDefaultOfConstructors<T, E>(x: T, e: E, default: T)
    ensures UnwrapOrDefault(FromValue<T, E>(x), default) == x
    ensures UnwrapOrDefault(FromError<T, E>(e), default) == default
  {
  }
}
