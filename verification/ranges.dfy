/**
 * Lazy ranges: key/value/entry iteration over a container and the
 * `filter`, `map`, `take` and `takeWhile` views, with the `count`,
 * `tryGetFirst` and `getFirstOr` consumers.
 *
 * A range is observed only through its iteration protocol: `begin()`, then
 * `*it` and `++it` while `it != end()`. Each view below runs its own
 * iterator logic over the sequence its base range yields, and the lemmas
 * and postconditions say which sequence comes out. Because every base
 * range is again such a sequence, views compose: `r | a | b` is `b(a(r))`.
 */
module Ranges {
  import opened Optionals

  /** `keysOf(array)`: the key iterator counts from 0 to the length. */
  method Keys(length: nat) returns (out: seq<nat>)
    ensures |out| == length
    ensures forall i :: 0 <= i < length ==> out[i] == i
  {
    out := [];
    var index := 0;
    while index != length
      invariant index <= length && |out| == index
      invariant forall i :: 0 <= i < index ==> out[i] == i
    {
      out := out + [index];
      index := index + 1;
    }
  }

  /** `valuesOf(array)`: the value iterator dereferences `data[index]`. */
  method Values<T>(data: seq<T>) returns (out: seq<T>)
    ensures out == data
  {
    out := [];
    var index := 0;
    while index != |data|
      invariant index <= |data| && out == data[..index]
    {
      out := out + [data[index]];
      index := index + 1;
    }
  }

  /** `entriesOf(array)`: the entry iterator yields `{index, data[index]}`. */
  method Entries<T>(data: seq<T>) returns (out: seq<(nat, T)>)
    ensures |out| == |data|
    ensures forall i :: 0 <= i < |data| ==> out[i] == (i, data[i])
  {
    out := [];
    var index := 0;
    while index != |data|
      invariant index <= |data| && |out| == index
      invariant forall i :: 0 <= i < index ==> out[i] == (i, data[i])
    {
      out := out + [(index, data[index])];
      index := index + 1;
    }
  }

  /** The elements of `s` satisfying `cond`, in order: the reference for `filter`. */
  function Filtered<T>(s: seq<T>, cond: T -> bool): seq<T>
  {
    if |s| == 0 then []
    else Filtered(s[..|s| - 1], cond) + (if cond(s[|s| - 1]) then [s[|s| - 1]] else [])
  }

  /** The filtered sequence holds exactly the elements that satisfy the condition. */
  lemma {:induction false} FilteredMembers<T>(s: seq<T>, cond: T -> bool, x: T)
    ensures x in Filtered(s, cond) <==> x in s && cond(x)
  {
    if |s| > 0 {
      FilteredMembers(s[..|s| - 1], cond, x);
      assert s == s[..|s| - 1] + [s[|s| - 1]];
    }
  }

  /** Filtering never lengthens, and keeps everything exactly when everything passes. */
  lemma {:induction false} FilteredLength<T>(s: seq<T>, cond: T -> bool)
    ensures |Filtered(s, cond)| <= |s|
    ensures |Filtered(s, cond)| == |s| <==> forall i :: 0 <= i < |s| ==> cond(s[i])
  {
    if |s| > 0 {
      var init := s[..|s| - 1];
      FilteredLength(init, cond);
      assert forall i :: 0 <= i < |init| ==> init[i] == s[i];
    }
  }

  lemma FilteredSnoc<T>(s: seq<T>, x: T, cond: T -> bool)
    ensures Filtered(s + [x], cond) == Filtered(s, cond) + (if cond(x) then [x] else [])
  {
    assert (s + [x])[..|s + [x]| - 1] == s;
  }

  /**
   * Advancing the base iterator past elements that fail `cond`: the loop of
   * the filter's `begin()` and the tail of its `++`. Skipped elements do not
   * change what the view has yielded so far.
   */
  method SkipFailing<T>(base: seq<T>, cond: T -> bool, from: nat, yielded: seq<T>) returns (pos: nat)
    requires from <= |base| && yielded == Filtered(base[..from], cond)
    ensures from <= pos <= |base| && yielded == Filtered(base[..pos], cond)
    ensures pos < |base| ==> cond(base[pos])
  {
    pos := from;
    while pos != |base| && !cond(base[pos])
      invariant from <= pos <= |base| && yielded == Filtered(base[..pos], cond)
    {
      FilteredSnoc(base[..pos], base[pos], cond);
      assert base[..pos + 1] == base[..pos] + [base[pos]];
      pos := pos + 1;
    }
  }

  /**
   * `filter(cond)`: `begin()` skips to the first passing element, and `++`
   * steps at least once and then skips failing elements.
   */
  method Filter<T>(base: seq<T>, cond: T -> bool) returns (out: seq<T>)
    ensures out == Filtered(base, cond)
  {
    out := [];
    var pos := SkipFailing(base, cond, 0, out);
    while pos != |base|
      invariant pos <= |base| && out == Filtered(base[..pos], cond)
      invariant pos < |base| ==> cond(base[pos])
      decreases |base| - pos
    {
      FilteredSnoc(base[..pos], base[pos], cond);
      assert base[..pos + 1] == base[..pos] + [base[pos]];
      out := out + [base[pos]];
      pos := SkipFailing(base, cond, pos + 1, out);
    }
    assert base[..pos] == base;
  }

  /**
   * `takeWhile(cond)`: `it != end` holds while the base is not exhausted and
   * the current element passes, so the view is the longest passing prefix.
   */
  method TakeWhile<T>(base: seq<T>, cond: T -> bool) returns (out: seq<T>)
    ensures |out| <= |base| && out == base[..|out|]
    ensures forall i :: 0 <= i < |out| ==> cond(out[i])
    ensures |out| < |base| ==> !cond(base[|out|])
  {
    out := [];
    var pos := 0;
    while pos != |base| && cond(base[pos])
      invariant pos <= |base| && out == base[..pos]
      invariant forall i :: 0 <= i < pos ==> cond(base[i])
    {
      out := out + [base[pos]];
      pos := pos + 1;
    }
  }

  /** `map(f)`: each element transformed, same length and order. */
  method Map<T, U>(base: seq<T>, f: T -> U) returns (out: seq<U>)
    ensures |out| == |base|
    ensures forall i :: 0 <= i < |base| ==> out[i] == f(base[i])
  {
    out := [];
    var pos := 0;
    while pos != |base|
      invariant pos <= |base| && |out| == pos
      invariant forall i :: 0 <= i < pos ==> out[i] == f(base[i])
    {
      out := out + [f(base[pos])];
      pos := pos + 1;
    }
  }

  /** `take(n)`: stops when the base ends or `n` elements have been yielded. */
  method Take<T>(base: seq<T>, n: nat) returns (out: seq<T>)
    ensures |out| == if n < |base| then n else |base|
    ensures out == base[..|out|]
  {
    out := [];
    var pos := 0;
    var remains := n;
    while pos != |base| && remains > 0
      invariant pos <= |base| && pos + remains == n && out == base[..pos]
    {
      out := out + [base[pos]];
      pos := pos + 1;
      remains := remains - 1;
    }
  }

  /** `count`: steps the iterator to the end, counting. */
  method Count<T>(r: seq<T>) returns (n: nat)
    ensures n == |r|
  {
    n := 0;
    var pos := 0;
    while pos != |r|
      invariant pos <= |r| && n == pos
    {
      n := n + 1;
      pos := pos + 1;
    }
  }

  /** `tryGetFirst`: the first element in an optional, or an empty optional. */
  function TryGetFirst<T>(r: seq<T>): (o: Optional<T>)
    ensures HasValue(o) <==> |r| > 0
    ensures HasValue(o) ==> Value(o) == r[0]
  {
    if |r| > 0 then Of(r[0]) else Make()
  }

  /** `getFirstOr(def)`: the first element, or `def` for an empty range. */
  function GetFirstOr<T>(r: seq<T>, def: T): (x: T)
    ensures |r| > 0 ==> x == r[0]
    ensures |r| == 0 ==> x == def
  {
    if |r| > 0 then r[0] else def
  }

  /** `getFirstOr` is `tryGetFirst` followed by `valueOr`. */
  lemma FirstAgrees<T>(r: seq<T>, def: T)
    ensures GetFirstOr(r, def) == ValueOr(TryGetFirst(r), def)
  {
  }

  /** `r | adaptor`: the adaptor applied to the range. */
  function Pipe<R, S>(r: R, adaptor: R -> S): (s: S)
    ensures s == adaptor(r)
  {
    adaptor(r)
  }

  /**
   * A typical pipeline: counting a filtered range counts the passing
   * elements, and taking the first of it finds the first passing element.
   */
  method CountFiltered<T>(base: seq<T>, cond: T -> bool) returns (n: nat, first: Optional<T>)
    ensures n <= |base|
    ensures n == |base| <==> forall i :: 0 <= i < |base| ==> cond(base[i])
    ensures HasValue(first) <==> exists i :: 0 <= i < |base| && cond(base[i])
    ensures HasValue(first) ==> Value(first) in base && cond(Value(first))
  {
    var view := Filter(base, cond);
    n := Count(view);
    FilteredLength(base, cond);
    first := TryGetFirst(view);
    if HasValue(first) {
      FilteredMembers(base, cond, view[0]);
    }
    if exists i :: 0 <= i < |base| && cond(base[i]) {
      var i :| 0 <= i < |base| && cond(base[i]);
      FilteredMembers(base, cond, base[i]);
    }
  }
}
