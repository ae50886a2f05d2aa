/**
 * The radix sort cases of the library's tests: four indices ordered by
 * concrete keys. Each result is pinned down by `SortedUnique`, since the
 * keys of each case are distinct.
 */
module RadixSortExamples {
  import opened Types
  import opened RadixSorts
  import opened Orders

  const Unsorted32: seq<nat> := [3102860508, 1749442322, 813570146, 3726812458]
  const Sorted32: seq<nat> := [813570146, 1749442322, 3102860508, 3726812458]
  const Signed32: seq<int> := [1327110793, 1899266835, 702222870, 830235625]
  const SignedPatterns: seq<nat> := [1327110793, 1899266835, 702222870, 830235625]
  const Unsorted64: seq<nat> := [5264794389990322948, 8773299985955849259, 18026563674236274730, 4287803270097231623]

  /** `expected` orders the indices 0 to 3 by distinct keys. */
  ghost predicate OrdersFour(expected: seq<nat>, keys: seq<nat>)
  {
    && multiset(expected) == multiset([0, 1, 2, 3])
    && Sorted(expected, KeyOf(keys))
    && forall x, y :: x in expected && y in expected && KeyOf(keys)(x) == KeyOf(keys)(y) ==> x == y
  }

  /** Any ordering of the indices 0 to 3 by those keys is `expected`. */
  lemma Pinned(sorted: seq<nat>, expected: seq<nat>, keys: seq<nat>)
    requires OrdersFour(expected, keys)
    requires multiset(sorted) == multiset([0, 1, 2, 3]) && Sorted(sorted, KeyOf(keys))
    ensures sorted == expected
  {
    SortedUnique(expected, sorted, KeyOf(keys));
  }

  /** Each key is below the next one. */
  ghost predicate Ascending(xs: seq<nat>, keys: seq<nat>)
  {
    |xs| <= 1 || (Key(keys, xs[0]) < Key(keys, xs[1]) && Ascending(xs[1..], keys))
  }

  /** Strictly ascending keys order the sequence and tell its elements apart. */
  lemma {:induction false} AscendingIsStrict(xs: seq<nat>, keys: seq<nat>)
    requires Ascending(xs, keys)
    ensures forall i, j :: 0 <= i < j < |xs| ==> Key(keys, xs[i]) < Key(keys, xs[j])
    decreases |xs|
  {
    if |xs| > 1 {
      var tail := xs[1..];
      AscendingIsStrict(tail, keys);
      forall i, j | 0 <= i < j < |xs|
        ensures Key(keys, xs[i]) < Key(keys, xs[j])
      {
        assert xs[j] == tail[j - 1];
        if i > 0 {
          assert xs[i] == tail[i - 1];
        } else if j > 1 {
          assert Key(keys, tail[0]) < Key(keys, tail[j - 1]);
        }
      }
    }
  }

  lemma AscendingOrdersFour(expected: seq<nat>, keys: seq<nat>)
    requires multiset(expected) == multiset([0, 1, 2, 3]) && Ascending(expected, keys)
    ensures OrdersFour(expected, keys)
  {
    var f := KeyOf(keys);
    AscendingIsStrict(expected, keys);
    forall x, y | x in expected && y in expected && f(x) == f(y)
      ensures x == y
    {
      var i :| 0 <= i < |expected| && expected[i] == x;
      var j :| 0 <= j < |expected| && expected[j] == y;
      assert !(i < j) && !(j < i);
    }
  }

  lemma Permuted2103()
    ensures multiset([2, 1, 0, 3]) == multiset([0, 1, 2, 3])
  {
  }

  lemma Permuted3012()
    ensures multiset([3, 0, 1, 2]) == multiset([0, 1, 2, 3])
  {
  }

  lemma Permuted2301()
    ensures multiset([2, 3, 0, 1]) == multiset([0, 1, 2, 3])
  {
  }

  /** Every element is below `bound`. */
  ghost predicate AllBelow(xs: seq<nat>, bound: nat)
  {
    |xs| == 0 || (xs[0] < bound && AllBelow(xs[1..], bound))
  }

  lemma {:induction false} AllBelowAt(xs: seq<nat>, bound: nat)
    requires AllBelow(xs, bound)
    ensures forall x :: 0 <= x < |xs| ==> xs[x] < bound
    decreases |xs|
  {
    if |xs| > 0 {
      AllBelowAt(xs[1..], bound);
      assert forall x :: 1 <= x < |xs| ==> xs[x] == xs[1..][x - 1];
    }
  }

  /** Keys whose elements are all below `2^bits` fit in `bits` bits. */
  lemma Fits(keys: seq<nat>, bits: nat)
    requires AllBelow(keys, Pow2(bits))
    ensures KeysFit(keys, bits)
  {
    AllBelowAt(keys, Pow2(bits));
  }

  /** Non-negative `i32` keys are in range, and their bit patterns are their values. */
  lemma NonNegativeSigned(keys: seq<int>, values: seq<nat>)
    requires keys == values && AllBelow(values, 0x8000_0000)
    ensures forall x :: 0 <= x < |keys| ==> -0x8000_0000 <= keys[x] < 0x8000_0000
    ensures forall x :: 0 <= x < |keys| ==> Pattern(keys[x]) == values[x]
  {
    AllBelowAt(values, 0x8000_0000);
  }

  /** The indices 0 to 3 are below 4. */
  lemma FourIndices()
    ensures IndicesBelow([0, 1, 2, 3], 4)
  {
    AllBelowAt([0, 1, 2, 3], 4);
  }

  /** Ordered by bit pattern is ordered by value when the patterns are the values. */
  lemma PatternOrderIsValueOrder(sorted: seq<nat>, keys: seq<int>, values: seq<nat>)
    requires |keys| == |values| && IndicesBelow(sorted, |keys|)
    requires forall x :: 0 <= x < |keys| ==> -0x8000_0000 <= keys[x] < 0x8000_0000
    requires forall x :: 0 <= x < |keys| ==> Pattern(keys[x]) == values[x]
    requires forall i, j :: 0 <= i < j < |sorted| ==> Pattern(keys[sorted[i]]) <= Pattern(keys[sorted[j]])
    ensures Sorted(sorted, KeyOf(values))
  {
    forall i, j | 0 <= i < j < |sorted|
      ensures KeyOf(values)(sorted[i]) <= KeyOf(values)(sorted[j])
    {
      assert Pattern(keys[sorted[i]]) <= Pattern(keys[sorted[j]]);
    }
  }

  lemma ExpectedSorted32()
    ensures OrdersFour([0, 1, 2, 3], Sorted32) && KeysFit(Sorted32, 32)
  {
    Pow2Of32();
    Fits(Sorted32, 32);
    AscendingOrdersFour([0, 1, 2, 3], Sorted32);
  }

  lemma ExpectedUnsorted32()
    ensures OrdersFour([2, 1, 0, 3], Unsorted32) && KeysFit(Unsorted32, 32)
  {
    Pow2Of32();
    Fits(Unsorted32, 32);
    Permuted2103();
    AscendingOrdersFour([2, 1, 0, 3], Unsorted32);
  }

  lemma ExpectedUnsorted64()
    ensures OrdersFour([3, 0, 1, 2], Unsorted64) && KeysFit(Unsorted64, 64)
  {
    Pow2Of64();
    Fits(Unsorted64, 64);
    Permuted3012();
    AscendingOrdersFour([3, 0, 1, 2], Unsorted64);
  }

  lemma ExpectedSigned()
    ensures OrdersFour([2, 3, 0, 1], SignedPatterns)
    ensures forall x :: 0 <= x < |Signed32| ==> -0x8000_0000 <= Signed32[x] < 0x8000_0000
    ensures forall x :: 0 <= x < |Signed32| ==> Pattern(Signed32[x]) == SignedPatterns[x]
  {
    NonNegativeSigned(Signed32, SignedPatterns);
    Permuted2301();
    AscendingOrdersFour([2, 3, 0, 1], SignedPatterns);
  }

  /** With no indices there is nothing to sort. */
  method SortEmpty() returns (sorted: seq<nat>)
    ensures sorted == []
  {
    var temp;
    sorted, temp := RadixSort32([], []);
    assert |multiset(sorted)| == 0;
  }

  /** `u32` keys already in order leave the indices as they were. */
  method AlreadySorted() returns (sorted: seq<nat>)
    ensures sorted == [0, 1, 2, 3]
  {
    ExpectedSorted32();
    FourIndices();
    var temp;
    sorted, temp := RadixSort32([0, 1, 2, 3], Sorted32);
    Pinned(sorted, [0, 1, 2, 3], Sorted32);
  }

  method SortU32() returns (sorted: seq<nat>)
    ensures sorted == [2, 1, 0, 3]
  {
    ExpectedUnsorted32();
    FourIndices();
    var temp;
    sorted, temp := RadixSort32([0, 1, 2, 3], Unsorted32);
    Pinned(sorted, [2, 1, 0, 3], Unsorted32);
  }

  /** Non-negative `i32` keys sort as their values. */
  method SortI32() returns (sorted: seq<nat>)
    ensures sorted == [2, 3, 0, 1]
  {
    ExpectedSigned();
    FourIndices();
    var temp;
    sorted, temp := RadixSortI32([0, 1, 2, 3], Signed32);
    PatternOrderIsValueOrder(sorted, Signed32, SignedPatterns);
    Pinned(sorted, [2, 3, 0, 1], SignedPatterns);
  }

  method SortU64() returns (sorted: seq<nat>)
    ensures sorted == [3, 0, 1, 2]
  {
    ExpectedUnsorted64();
    FourIndices();
    var temp;
    sorted, temp := RadixSort64([0, 1, 2, 3], Unsorted64);
    Pinned(sorted, [3, 0, 1, 2], Unsorted64);
  }
}
