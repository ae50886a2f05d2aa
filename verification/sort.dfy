/**
 * Ping-pong merge sort of a slice.
 *
 * The comparator is modelled by a key: `cmp(a, b)` is `key(a) < key(b)`.
 * The default comparator `Less<T>` is the key `x => x` on integers; any
 * strict weak order on the finitely many values being sorted ranks them
 * by such a key.
 */
module MergeSorts {
  import opened Orders

  /**
   * The result of merging `l` and `r`: the head of `l` is taken only when
   * its key is strictly below the head of `r`.
   */
  function MergeOf<T>(l: seq<T>, r: seq<T>, key: T -> int): (m: seq<T>)
    ensures |m| == |l| + |r|
    decreases |l| + |r|
  {
    if l == [] then r
    else if r == [] then l
    else if key(l[0]) < key(r[0]) then [l[0]] + MergeOf(l[1..], r, key)
    else [r[0]] + MergeOf(l, r[1..], key)
  }

  /** The elements of `xs` whose key is `k`, in their order in `xs`. */
  function Group<T>(xs: seq<T>, key: T -> int, k: int): (g: seq<T>)
    ensures |g| <= |xs|
  {
    if xs == [] then []
    else (if key(xs[0]) == k then [xs[0]] else []) + Group(xs[1..], key, k)
  }

  lemma GroupCons<T>(x: T, xs: seq<T>, key: T -> int, k: int)
    ensures Group([x] + xs, key, k) == (if key(x) == k then [x] else []) + Group(xs, key, k)
  {
    assert ([x] + xs)[1..] == xs;
  }

  lemma Assoc<T>(x: seq<T>, y: seq<T>, z: seq<T>)
    ensures (x + y) + z == x + (y + z)
  {
  }

  lemma {:induction false} GroupConcat<T>(a: seq<T>, b: seq<T>, key: T -> int, k: int)
    ensures Group(a + b, key, k) == Group(a, key, k) + Group(b, key, k)
    decreases |a|
  {
    if a == [] {
      assert a + b == b;
    } else {
      var x, rest := a[0], a[1..];
      GroupConcat(rest, b, key, k);
      assert a == [x] + rest;
      Assoc([x], rest, b);
      GroupCons(x, rest + b, key, k);
      GroupCons(x, rest, key, k);
      Assoc(if key(x) == k then [x] else [], Group(rest, key, k), Group(b, key, k));
    }
  }

  /** A sorted sequence whose first key is above `k` has no element with key `k`. */
  lemma {:induction false} GroupAbove<T>(xs: seq<T>, key: T -> int, k: int)
    requires Sorted(xs, key) && xs != [] && k < key(xs[0])
    ensures Group(xs, key, k) == []
    decreases |xs|
  {
    var tail := xs[1..];
    if tail != [] {
      assert Sorted(tail, key) by {
        assert forall i :: 0 <= i < |tail| ==> tail[i] == xs[i + 1];
      }
      assert key(xs[0]) <= key(xs[1]);
      GroupAbove(tail, key, k);
    }
  }

  /** Merging is a permutation of both inputs together. */
  lemma {:induction false} MergePermutes<T>(l: seq<T>, r: seq<T>, key: T -> int)
    ensures multiset(MergeOf(l, r, key)) == multiset(l) + multiset(r)
    decreases |l| + |r|
  {
    if l != [] && r != [] {
      if key(l[0]) < key(r[0]) {
        MergePermutes(l[1..], r, key);
        ConsPermutes(l[0], l[1..], r, MergeOf(l[1..], r, key));
        assert l == [l[0]] + l[1..];
      } else {
        MergePermutes(l, r[1..], key);
        ConsPermutes(r[0], l, r[1..], MergeOf(l, r[1..], key));
        assert r == [r[0]] + r[1..];
      }
    }
  }

  lemma ConsPermutes<T>(x: T, a: seq<T>, b: seq<T>, m: seq<T>)
    requires multiset(m) == multiset(a) + multiset(b)
    ensures multiset([x] + m) == multiset([x] + a) + multiset(b)
    ensures multiset([x] + m) == multiset(a) + multiset([x] + b)
  {
  }

  /** Merging sorted inputs gives a sorted output. */
  lemma {:induction false} MergeSorted<T>(l: seq<T>, r: seq<T>, key: T -> int)
    requires Sorted(l, key) && Sorted(r, key)
    ensures Sorted(MergeOf(l, r, key), key)
    decreases |l| + |r|
  {
    if l != [] && r != [] {
      var m := MergeOf(l, r, key);
      if key(l[0]) < key(r[0]) {
        SortedTail(l, key);
        MergeSorted(l[1..], r, key);
        MergePermutes(l[1..], r, key);
        HeadBelow(l[0], MergeOf(l[1..], r, key), l[1..], r, key);
      } else {
        SortedTail(r, key);
        MergeSorted(l, r[1..], key);
        MergePermutes(l, r[1..], key);
        HeadBelow(r[0], MergeOf(l, r[1..], key), l, r[1..], key);
      }
    }
  }

  /** A head no greater than every element of the rest keeps the whole sorted. */
  lemma HeadBelow<T>(x: T, rest: seq<T>, a: seq<T>, b: seq<T>, key: T -> int)
    requires Sorted(rest, key) && multiset(rest) == multiset(a) + multiset(b)
    requires forall i :: 0 <= i < |a| ==> key(x) <= key(a[i])
    requires forall i :: 0 <= i < |b| ==> key(x) <= key(b[i])
    ensures Sorted([x] + rest, key)
  {
    forall i | 0 <= i < |rest|
      ensures key(x) <= key(rest[i])
    {
      assert rest[i] in multiset(a) + multiset(b);
      if rest[i] in multiset(a) {
        var k :| 0 <= k < |a| && a[k] == rest[i];
      } else {
        var k :| 0 <= k < |b| && b[k] == rest[i];
      }
    }
    var s := [x] + rest;
    forall i, j | 0 <= i < j < |s|
      ensures key(s[i]) <= key(s[j])
    {
      assert s[j] == rest[j - 1];
      if i > 0 {
        assert s[i] == rest[i - 1];
      }
    }
  }

  /**
   * Among equal keys the merge puts the right input's elements first, then
   * the left input's, each in its own order: the merge is not stable.
   */
  lemma {:induction false} MergeGroups<T>(l: seq<T>, r: seq<T>, key: T -> int, k: int)
    requires Sorted(l, key) && Sorted(r, key)
    ensures Group(MergeOf(l, r, key), key, k) == Group(r, key, k) + Group(l, key, k)
    decreases |l| + |r|
  {
    if l == [] {
      assert Group(r, key, k) + [] == Group(r, key, k);
    } else if r == [] {
    } else if key(l[0]) < key(r[0]) {
      SortedTail(l, key);
      MergeGroups(l[1..], r, key, k);
      GroupsLeftFirst(l, r, key, k);
    } else {
      SortedTail(r, key);
      MergeGroups(l, r[1..], key, k);
      GroupsRightFirst(l, r, key, k);
    }
  }

  lemma GroupsLeftFirst<T>(l: seq<T>, r: seq<T>, key: T -> int, k: int)
    requires Sorted(r, key) && l != [] && r != [] && key(l[0]) < key(r[0])
    requires Group(MergeOf(l[1..], r, key), key, k) == Group(r, key, k) + Group(l[1..], key, k)
    ensures Group(MergeOf(l, r, key), key, k) == Group(r, key, k) + Group(l, key, k)
  {
    var x, rest := l[0], l[1..];
    var e := if key(x) == k then [x] else [];
    var gr, gl := Group(r, key, k), Group(rest, key, k);
    assert MergeOf(l, r, key) == [x] + MergeOf(rest, r, key);
    GroupCons(x, MergeOf(rest, r, key), key, k);
    assert l == [x] + rest;
    GroupCons(x, rest, key, k);
    if key(x) == k {
      GroupAbove(r, key, k);
    }
    SwapPastEmpty(e, gr, gl);
  }

  lemma SwapPastEmpty<T>(e: seq<T>, a: seq<T>, b: seq<T>)
    requires e == [] || a == []
    ensures e + (a + b) == a + (e + b)
  {
  }

  lemma GroupsRightFirst<T>(l: seq<T>, r: seq<T>, key: T -> int, k: int)
    requires l != [] && r != [] && !(key(l[0]) < key(r[0]))
    requires Group(MergeOf(l, r[1..], key), key, k) == Group(r[1..], key, k) + Group(l, key, k)
    ensures Group(MergeOf(l, r, key), key, k) == Group(r, key, k) + Group(l, key, k)
  {
    var y, rest := r[0], r[1..];
    var e := if key(y) == k then [y] else [];
    assert MergeOf(l, r, key) == [y] + MergeOf(l, rest, key);
    GroupCons(y, MergeOf(l, rest, key), key, k);
    assert r == [y] + rest;
    GroupCons(y, rest, key, k);
    Assoc(e, Group(rest, key, k), Group(l, key, k));
  }

  /**
   * `impl::merge`: fill `n` slots from `left` and `right`, taking from
   * `left` while its head is strictly below the head of `right` or `right`
   * is used up. The library always fills `|left| + |right|` slots.
   */
  method Merge<T>(n: nat, left: seq<T>, right: seq<T>, key: T -> int) returns (dst: seq<T>)
    requires n <= |left| + |right|
    ensures dst == MergeOf(left, right, key)[..n]
  {
    var idxLeft, idxRight := 0, 0;
    dst := [];
    for idxDst := 0 to n
      invariant idxLeft <= |left| && idxRight <= |right| && idxLeft + idxRight == idxDst == |dst|
      invariant dst + MergeOf(left[idxLeft..], right[idxRight..], key) == MergeOf(left, right, key)
    {
      if idxLeft < |left| && (idxRight == |right| || key(left[idxLeft]) < key(right[idxRight])) {
        TakeLeft(left, right, idxLeft, idxRight, key);
        Assoc(dst, [left[idxLeft]], MergeOf(left[idxLeft + 1..], right[idxRight..], key));
        dst := dst + [left[idxLeft]];
        idxLeft := idxLeft + 1;
      } else {
        TakeRight(left, right, idxLeft, idxRight, key);
        Assoc(dst, [right[idxRight]], MergeOf(left[idxLeft..], right[idxRight + 1..], key));
        dst := dst + [right[idxRight]];
        idxRight := idxRight + 1;
      }
    }
    assert dst == (dst + MergeOf(left[idxLeft..], right[idxRight..], key))[..n];
  }

  lemma TakeLeft<T>(left: seq<T>, right: seq<T>, i: nat, j: nat, key: T -> int)
    requires i < |left| && j <= |right| && (j == |right| || key(left[i]) < key(right[j]))
    ensures MergeOf(left[i..], right[j..], key) == [left[i]] + MergeOf(left[i + 1..], right[j..], key)
  {
    assert left[i..][1..] == left[i + 1..];
  }

  lemma TakeRight<T>(left: seq<T>, right: seq<T>, i: nat, j: nat, key: T -> int)
    requires i <= |left| && j < |right| && !(i < |left| && key(left[i]) < key(right[j]))
    ensures MergeOf(left[i..], right[j..], key) == [right[j]] + MergeOf(left[i..], right[j + 1..], key)
  {
    assert right[j..][1..] == right[j + 1..];
  }

  /**
   * `impl::mergeSort(dst, s)`: sort `s` into `dst`, both of the same
   * length. Each half is sorted with the roles of the buffers swapped, so
   * the halves of `s` end up sorted and `dst` receives their merge. The
   * result is the pair (final `dst`, final `s`).
   */
  function ImplMergeSort<T>(dst: seq<T>, s: seq<T>, key: T -> int): (r: (seq<T>, seq<T>))
    requires |dst| == |s| >= 1
    ensures |r.0| == |s| && |r.1| == |s|
    decreases |s|
  {
    if |s| == 1 then (dst, s)
    else
      var h := |s| / 2;
      var (left, _) := ImplMergeSort(s[..h], dst[..h], key);
      var (right, _) := ImplMergeSort(s[h..], dst[h..], key);
      (MergeOf(left, right, key), left + right)
  }

  /**
   * Started with equal buffers, `impl::mergeSort` leaves `dst` a sorted
   * permutation of `s`, and `s` a permutation of itself.
   */
  lemma {:induction false} ImplSorts<T>(dst: seq<T>, s: seq<T>, key: T -> int)
    requires |dst| == |s| >= 1 && dst == s
    ensures Sorted(ImplMergeSort(dst, s, key).0, key)
    ensures multiset(ImplMergeSort(dst, s, key).0) == multiset(s)
    ensures multiset(ImplMergeSort(dst, s, key).1) == multiset(s)
    decreases |s|
  {
    if |s| > 1 {
      var h := |s| / 2;
      ImplSorts(s[..h], dst[..h], key);
      ImplSorts(s[h..], dst[h..], key);
      var left := ImplMergeSort(s[..h], dst[..h], key).0;
      var right := ImplMergeSort(s[h..], dst[h..], key).0;
      ImplStep(dst, s, key, left, right);
      FromHalves(left, right, s, h, key);
    }
  }

  /** One level of `impl::mergeSort`, in terms of the results of its two recursive calls. */
  lemma ImplStep<T>(dst: seq<T>, s: seq<T>, key: T -> int, left: seq<T>, right: seq<T>)
    requires |dst| == |s| > 1
    requires left == ImplMergeSort(s[..|s| / 2], dst[..|s| / 2], key).0
    requires right == ImplMergeSort(s[|s| / 2..], dst[|s| / 2..], key).0
    ensures ImplMergeSort(dst, s, key) == (MergeOf(left, right, key), left + right)
  {
  }

  /** Merging sorted permutations of the two halves sorts the whole. */
  lemma FromHalves<T>(left: seq<T>, right: seq<T>, s: seq<T>, h: nat, key: T -> int)
    requires h <= |s| && Sorted(left, key) && Sorted(right, key)
    requires multiset(left) == multiset(s[..h]) && multiset(right) == multiset(s[h..])
    ensures Sorted(MergeOf(left, right, key), key)
    ensures multiset(MergeOf(left, right, key)) == multiset(s)
    ensures multiset(left + right) == multiset(s)
  {
    MergeSorted(left, right, key);
    MergePermutes(left, right, key);
    assert s == s[..h] + s[h..];
  }

  /**
   * The source buffer is clobbered: on inputs of two or more elements it
   * ends up holding its two halves, each sorted on its own.
   */
  lemma ImplClobbers<T>(dst: seq<T>, s: seq<T>, key: T -> int)
    requires |dst| == |s| > 1 && dst == s
    ensures var s', h := ImplMergeSort(dst, s, key).1, |s| / 2;
      && Sorted(s'[..h], key) && multiset(s'[..h]) == multiset(s[..h])
      && Sorted(s'[h..], key) && multiset(s'[h..]) == multiset(s[h..])
  {
    var h := |s| / 2;
    ImplSorts(s[..h], dst[..h], key);
    ImplSorts(s[h..], dst[h..], key);
    var left := ImplMergeSort(s[..h], dst[..h], key).0;
    var right := ImplMergeSort(s[h..], dst[h..], key).0;
    assert (left + right)[..h] == left && (left + right)[h..] == right;
  }

  /**
   * `mergeSort(dst, s)`: copy `s` into `dst`, then sort. An empty slice is
   * left alone. The result is the pair (final `dst`, final `s`).
   */
  function MergeSortTo<T>(dst: seq<T>, s: seq<T>, key: T -> int): (r: (seq<T>, seq<T>))
    requires |dst| == |s|
    ensures Sorted(r.0, key) && multiset(r.0) == multiset(s)
    ensures multiset(r.1) == multiset(s)
    ensures s == [] ==> r == (dst, s)
  {
    if |s| == 0 then (dst, s)
    else
      ImplSorts(s, s, key);
      ImplMergeSort(s, s, key)
  }

  /** `mergeSort(s)`: sort `s` in place, through a scratch copy of it. */
  function MergeSortInPlace<T>(s: seq<T>, key: T -> int): (r: seq<T>)
    ensures Sorted(r, key) && multiset(r) == multiset(s)
  {
    if |s| == 0 then s
    else
      var copy := s;
      MergeSortTo(s, copy, key).0
  }
}
