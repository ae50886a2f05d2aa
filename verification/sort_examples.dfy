/**
 * The merge sort cases of the library's tests, with the default
 * comparator `Less<T>` (the key `Identity`), and two consequences of the
 * algorithm: the source buffer is clobbered, and equal keys can swap.
 */
module MergeSortExamples {
  import opened Orders
  import opened MergeSorts

  /** The key of `Less<T>` on integers. */
  function Identity(x: int): int
  {
    x
  }

  /** Each element is below the next one. */
  ghost predicate Ascending(xs: seq<int>)
  {
    |xs| <= 1 || (xs[0] < xs[1] && Ascending(xs[1..]))
  }

  lemma {:induction false} AscendingIsSorted(xs: seq<int>)
    requires Ascending(xs)
    ensures Sorted(xs, Identity)
    ensures forall i, j :: 0 <= i < j < |xs| ==> xs[i] < xs[j]
    decreases |xs|
  {
    if |xs| > 1 {
      var tail := xs[1..];
      AscendingIsSorted(tail);
      forall i, j | 0 <= i < j < |xs|
        ensures xs[i] < xs[j]
      {
        assert xs[j] == tail[j - 1];
        if i > 0 {
          assert xs[i] == tail[i - 1];
        } else if j > 1 {
          assert tail[0] < tail[j - 1];
        }
      }
    }
  }

  /** A sorted permutation of integers is unique. */
  lemma SortsTo(sorted: seq<int>, expected: seq<int>)
    requires Sorted(sorted, Identity) && multiset(sorted) == multiset(expected) && Ascending(expected)
    ensures sorted == expected
  {
    AscendingIsSorted(expected);
    SortedUnique(expected, sorted, Identity);
  }

  lemma Permuted54321()
    ensures multiset([5, 4, 3, 2, 1]) == multiset([1, 2, 3, 4, 5])
  {
  }

  lemma Permuted4321()
    ensures multiset([4, 3]) == multiset([3, 4]) && multiset([2, 1]) == multiset([1, 2])
  {
  }

  lemma PermutedU32()
    ensures multiset([3102860508, 1749442322, 813570146, 3726812458])
         == multiset([813570146, 1749442322, 3102860508, 3726812458])
  {
  }

  lemma PermutedI32()
    ensures multiset([1327110793, 1899266835, 702222870, 830235625])
         == multiset([702222870, 830235625, 1327110793, 1899266835])
  {
  }

  lemma PermutedU64()
    ensures multiset([5264794389990322948, 8773299985955849259, 18026563674236274730, 4287803270097231623])
         == multiset([4287803270097231623, 5264794389990322948, 8773299985955849259, 18026563674236274730])
  {
  }

  lemma SortEmpty()
    ensures MergeSortTo([], [], Identity) == ([], [])
    ensures MergeSortInPlace([], Identity) == []
  {
  }

  lemma SortOne(dst: seq<int>)
    requires |dst| == 1
    ensures MergeSortTo(dst, [1], Identity).0 == [1]
  {
  }

  /** Sorting a permutation of strictly ascending integers gives those integers. */
  lemma SortsInto(dst: seq<int>, s: seq<int>, expected: seq<int>)
    requires |dst| == |s| && multiset(s) == multiset(expected) && Ascending(expected)
    ensures MergeSortTo(dst, s, Identity).0 == expected
  {
    SortsTo(MergeSortTo(dst, s, Identity).0, expected);
  }

  lemma SortOdd(dst: seq<int>, s: seq<int>)
    requires |dst| == 5 && s == [5, 4, 3, 2, 1]
    ensures MergeSortTo(dst, s, Identity).0 == [1, 2, 3, 4, 5]
  {
    Permuted54321();
    SortsInto(dst, s, [1, 2, 3, 4, 5]);
  }

  /** The four-key cases leave the output strictly ascending. */
  lemma SortU32(dst: seq<int>, s: seq<int>)
    requires |dst| == 4 && s == [3102860508, 1749442322, 813570146, 3726812458]
    ensures MergeSortTo(dst, s, Identity).0 == [813570146, 1749442322, 3102860508, 3726812458]
  {
    PermutedU32();
    SortsInto(dst, s, [813570146, 1749442322, 3102860508, 3726812458]);
  }

  lemma SortI32(dst: seq<int>, s: seq<int>)
    requires |dst| == 4 && s == [1327110793, 1899266835, 702222870, 830235625]
    ensures MergeSortTo(dst, s, Identity).0 == [702222870, 830235625, 1327110793, 1899266835]
  {
    PermutedI32();
    SortsInto(dst, s, [702222870, 830235625, 1327110793, 1899266835]);
  }

  lemma SortU64(dst: seq<int>, s: seq<int>)
    requires |dst| == 4
    requires s == [5264794389990322948, 8773299985955849259, 18026563674236274730, 4287803270097231623]
    ensures MergeSortTo(dst, s, Identity).0
         == [4287803270097231623, 5264794389990322948, 8773299985955849259, 18026563674236274730]
  {
    PermutedU64();
    SortsInto(dst, s, [4287803270097231623, 5264794389990322948, 8773299985955849259, 18026563674236274730]);
  }

  /** The source ends up holding the sorted permutations of its two halves. */
  lemma ClobbersInto(dst: seq<int>, s: seq<int>, low: seq<int>, high: seq<int>)
    requires |dst| == |s| > 1
    requires multiset(s[..|s| / 2]) == multiset(low) && Ascending(low)
    requires multiset(s[|s| / 2..]) == multiset(high) && Ascending(high)
    ensures MergeSortTo(dst, s, Identity).1 == low + high
  {
    var h := |s| / 2;
    var s' := MergeSortTo(dst, s, Identity).1;
    ImplClobbers(s, s, Identity);
    SortsTo(s'[..h], low);
    SortsTo(s'[h..], high);
    assert s' == s'[..h] + s'[h..];
  }

  /** Sorting `[4, 3, 2, 1]` leaves the source holding its sorted halves. */
  lemma SourceIsClobbered(dst: seq<int>, s: seq<int>)
    requires |dst| == 4 && s == [4, 3, 2, 1]
    ensures MergeSortTo(dst, s, Identity).1 == [3, 4, 1, 2]
  {
    assert s[..2] == [4, 3] && s[2..] == [2, 1];
    Permuted4321();
    ClobbersInto(dst, s, [3, 4], [1, 2]);
  }

  /** The first component of a pair. */
  function First(p: (int, int)): int
  {
    p.0
  }

  /** Two elements with equal keys come out in the opposite order. */
  lemma NotStable(dst: seq<(int, int)>)
    requires |dst| == 2
    ensures MergeSortTo(dst, [(1, 0), (1, 1)], First).0 == [(1, 1), (1, 0)]
  {
    var s := [(1, 0), (1, 1)];
    assert s[..1] == [(1, 0)] && s[1..] == [(1, 1)];
    ImplStep(s, s, First, [(1, 0)], [(1, 1)]);
    assert MergeOf([(1, 0)], [(1, 1)], First) == [(1, 1)] + MergeOf([(1, 0)], [], First);
  }
}
