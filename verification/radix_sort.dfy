/**
 * LSD radix sort of an index permutation by integer keys.
 *
 * `countingSort<Shift>` reorders a sequence of indices by the byte
 * `(keys[index] >> Shift) & 0xFF` of each index's key, keeping the input
 * order among indices with the same byte. `radixSort` runs one such pass
 * per byte of the key, least significant byte first.
 *
 * The counting sort is stated for any digit function with values below
 * 256. Its reference result is `ByDigit`: the indices whose digit is 0,
 * then those whose digit is 1, ..., then those whose digit is 255, each
 * group in input order.
 */
module RadixSorts {
  import opened Types
  import Bits
  import Seqs
  import opened Orders

  /** A digit function: every value has a digit below 256. */
  ghost predicate IsDigit(digit: nat -> nat)
  {
    forall x: nat :: digit(x) < 256
  }

  /** The elements of `xs` whose digit is `b`, in their order in `xs`. */
  function Bucket(xs: seq<nat>, digit: nat -> nat, b: nat): (r: seq<nat>)
    ensures |r| <= |xs|
  {
    if xs == [] then []
    else
      var init := Bucket(xs[..|xs| - 1], digit, b);
      if digit(xs[|xs| - 1]) == b then init + [xs[|xs| - 1]] else init
  }

  /** The buckets `b, b + 1, ..., 255`, concatenated. */
  function BucketsFrom(xs: seq<nat>, digit: nat -> nat, b: nat): seq<nat>
    requires b <= 256
    decreases 256 - b
  {
    if b == 256 then [] else Bucket(xs, digit, b) + BucketsFrom(xs, digit, b + 1)
  }

  /** The reference result of one pass: a stable sort of `xs` by digit. */
  function ByDigit(xs: seq<nat>, digit: nat -> nat): seq<nat>
  {
    BucketsFrom(xs, digit, 0)
  }

  /** Where bucket `b` starts in `ByDigit`: the number of elements whose digit is below `b`. */
  function Start(xs: seq<nat>, digit: nat -> nat, b: nat): nat
    requires b <= 256
  {
    if b == 0 then 0 else Start(xs, digit, b - 1) + |Bucket(xs, digit, b - 1)|
  }

  /** How many of the buckets below `b` are non-empty. */
  function NonEmpty(xs: seq<nat>, digit: nat -> nat, b: nat): nat
    requires b <= 256
  {
    if b == 0 then 0
    else NonEmpty(xs, digit, b - 1) + (if Bucket(xs, digit, b - 1) == [] then 0 else 1)
  }

  // Buckets.

  lemma BucketSnoc(xs: seq<nat>, x: nat, digit: nat -> nat, b: nat)
    ensures Bucket(xs + [x], digit, b) == Bucket(xs, digit, b) + (if digit(x) == b then [x] else [])
  {
    assert (xs + [x])[..|xs|] == xs;
  }

  lemma {:induction false} BucketMembers(xs: seq<nat>, digit: nat -> nat, b: nat, x: nat)
    ensures x in Bucket(xs, digit, b) <==> x in xs && digit(x) == b
    decreases |xs|
  {
    if xs != [] {
      var init := xs[..|xs| - 1];
      BucketMembers(init, digit, b, x);
      assert xs == init + [xs[|xs| - 1]];
    }
  }

  /** The bucket of a prefix is a prefix of the bucket. */
  lemma {:induction false} BucketOfPrefix(xs: seq<nat>, j: nat, digit: nat -> nat, b: nat)
    requires j <= |xs|
    ensures Bucket(xs[..j], digit, b) <= Bucket(xs, digit, b)
    decreases |xs|
  {
    if j < |xs| {
      var init := xs[..|xs| - 1];
      assert init[..j] == xs[..j];
      BucketOfPrefix(init, j, digit, b);
    } else {
      assert xs[..j] == xs;
    }
  }

  lemma {:induction false} BucketsOfEmpty(digit: nat -> nat, b: nat)
    requires b <= 256
    ensures BucketsFrom([], digit, b) == []
    decreases 256 - b
  {
    if b < 256 {
      BucketsOfEmpty(digit, b + 1);
    }
  }

  /** Adding one element adds it to exactly the bucket of its digit. */
  lemma {:induction false} BucketsFromSnoc(xs: seq<nat>, x: nat, digit: nat -> nat, c: nat)
    requires c <= 256
    ensures multiset(BucketsFrom(xs + [x], digit, c))
         == multiset(BucketsFrom(xs, digit, c)) + (if c <= digit(x) < 256 then multiset{x} else multiset{})
    decreases 256 - c
  {
    if c < 256 {
      BucketsFromSnoc(xs, x, digit, c + 1);
      BucketSnoc(xs, x, digit, c);
      SnocStep(Bucket(xs, digit, c), BucketsFrom(xs, digit, c + 1),
               Bucket(xs + [x], digit, c), BucketsFrom(xs + [x], digit, c + 1), x, digit(x) == c, c + 1 <= digit(x) < 256);
    }
  }

  lemma SnocStep(a: seq<nat>, r: seq<nat>, a': seq<nat>, r': seq<nat>, x: nat, here: bool, above: bool)
    requires !(here && above)
    requires a' == a + (if here then [x] else [])
    requires multiset(r') == multiset(r) + (if above then multiset{x} else multiset{})
    ensures multiset(a' + r') == multiset(a + r) + (if here || above then multiset{x} else multiset{})
  {
  }

  /** A pass is a permutation of its input. */
  lemma {:induction false} ByDigitPermutes(xs: seq<nat>, digit: nat -> nat)
    requires IsDigit(digit)
    ensures multiset(ByDigit(xs, digit)) == multiset(xs)
    decreases |xs|
  {
    if xs == [] {
      BucketsOfEmpty(digit, 0);
    } else {
      var init, last := xs[..|xs| - 1], xs[|xs| - 1];
      assert xs == init + [last];
      ByDigitPermutes(init, digit);
      BucketsFromSnoc(init, last, digit, 0);
      assert multiset(BucketsFrom(xs, digit, 0)) == multiset(init) + multiset{last};
    }
  }

  lemma ByDigitLength(xs: seq<nat>, digit: nat -> nat)
    requires IsDigit(digit)
    ensures |ByDigit(xs, digit)| == |xs|
  {
    ByDigitPermutes(xs, digit);
    assert |multiset(ByDigit(xs, digit))| == |multiset(xs)|;
  }

  /** Everything in buckets `c..255` has digit at least `c`. */
  lemma {:induction false} BucketsFromDigits(xs: seq<nat>, digit: nat -> nat, c: nat, x: nat)
    requires c <= 256 && x in BucketsFrom(xs, digit, c)
    ensures c <= digit(x)
    decreases 256 - c
  {
    if c < 256 {
      if x in Bucket(xs, digit, c) {
        BucketMembers(xs, digit, c, x);
      } else {
        BucketsFromDigits(xs, digit, c + 1, x);
      }
    }
  }

  /** Within `ByDigit`, the buckets from `b` on start at `Start(b)`. */
  lemma StartSplits(xs: seq<nat>, digit: nat -> nat, b: nat)
    requires b <= 256
    ensures Start(xs, digit, b) <= |ByDigit(xs, digit)|
    ensures ByDigit(xs, digit)[Start(xs, digit, b)..] == BucketsFrom(xs, digit, b)
  {
    StartSplitsIn(xs, digit, b, ByDigit(xs, digit));
  }

  lemma {:induction false} StartSplitsIn(xs: seq<nat>, digit: nat -> nat, b: nat, whole: seq<nat>)
    requires b <= 256 && whole == BucketsFrom(xs, digit, 0)
    ensures Start(xs, digit, b) <= |whole|
    ensures whole[Start(xs, digit, b)..] == BucketsFrom(xs, digit, b)
  {
    if b > 0 {
      StartSplitsIn(xs, digit, b - 1, whole);
      StartStep(xs, digit, b, whole, Start(xs, digit, b - 1));
    }
  }

  lemma StartStep(xs: seq<nat>, digit: nat -> nat, b: nat, whole: seq<nat>, p: nat)
    requires 0 < b <= 256 && p == Start(xs, digit, b - 1)
    requires p <= |whole| && whole[p..] == BucketsFrom(xs, digit, b - 1)
    ensures Start(xs, digit, b) <= |whole|
    ensures whole[Start(xs, digit, b)..] == BucketsFrom(xs, digit, b)
  {
    var bucket := Bucket(xs, digit, b - 1);
    var rest := BucketsFrom(xs, digit, b);
    assert whole[p..] == bucket + rest;
    Seqs.DropDrop(whole, p, |bucket|);
    assert (bucket + rest)[|bucket|..] == rest;
  }

  lemma {:induction false} StartMonotone(xs: seq<nat>, digit: nat -> nat, b: nat, c: nat)
    requires b <= c <= 256
    ensures Start(xs, digit, b) <= Start(xs, digit, c)
    decreases c
  {
    if b < c {
      StartMonotone(xs, digit, b, c - 1);
    }
  }

  /** All the buckets together hold every element. */
  lemma StartOfEnd(xs: seq<nat>, digit: nat -> nat)
    requires IsDigit(digit)
    ensures Start(xs, digit, 256) == |xs|
  {
    StartSplits(xs, digit, 256);
    ByDigitLength(xs, digit);
  }

  // The verbatim-copy case.

  lemma {:induction false} NonEmptyAtLeastTwo(xs: seq<nat>, digit: nat -> nat, b: nat, c: nat, n: nat)
    requires b < c < n <= 256
    requires Bucket(xs, digit, b) != [] && Bucket(xs, digit, c) != []
    ensures NonEmpty(xs, digit, n) >= 2
    decreases n
  {
    if c < n - 1 {
      NonEmptyAtLeastTwo(xs, digit, b, c, n - 1);
    } else {
      NonEmptyAtLeastOne(xs, digit, b, n - 1);
    }
  }

  lemma {:induction false} NonEmptyAtLeastOne(xs: seq<nat>, digit: nat -> nat, b: nat, n: nat)
    requires b < n <= 256 && Bucket(xs, digit, b) != []
    ensures NonEmpty(xs, digit, n) >= 1
    decreases n
  {
    if b < n - 1 {
      NonEmptyAtLeastOne(xs, digit, b, n - 1);
    }
  }

  /** A bucket that every element falls into is the whole input. */
  lemma {:induction false} BucketOfAll(xs: seq<nat>, digit: nat -> nat, b: nat)
    requires forall i :: 0 <= i < |xs| ==> digit(xs[i]) == b
    ensures Bucket(xs, digit, b) == xs
    decreases |xs|
  {
    if xs != [] {
      var init := xs[..|xs| - 1];
      assert forall i :: 0 <= i < |init| ==> init[i] == xs[i];
      BucketOfAll(init, digit, b);
      assert xs == init + [xs[|xs| - 1]];
    }
  }

  lemma {:induction false} OnlyBucket(xs: seq<nat>, digit: nat -> nat, b: nat, c: nat)
    requires b < 256 && c <= 256
    requires forall d :: 0 <= d < 256 && d != b ==> Bucket(xs, digit, d) == []
    ensures BucketsFrom(xs, digit, c) == if c <= b then Bucket(xs, digit, b) else []
    decreases 256 - c
  {
    if c < 256 {
      OnlyBucket(xs, digit, b, c + 1);
    }
  }

  /** With at most one non-empty bucket a pass returns its input unchanged. */
  lemma OneBucketIsIdentity(xs: seq<nat>, digit: nat -> nat)
    requires IsDigit(digit) && NonEmpty(xs, digit, 256) <= 1
    ensures ByDigit(xs, digit) == xs
  {
    if xs == [] {
      BucketsOfEmpty(digit, 0);
    } else {
      var b := digit(xs[0]);
      BucketMembers(xs, digit, b, xs[0]);
      forall d | 0 <= d < 256 && d != b
        ensures Bucket(xs, digit, d) == []
      {
        if Bucket(xs, digit, d) != [] {
          if b < d {
            NonEmptyAtLeastTwo(xs, digit, b, d, 256);
          } else {
            NonEmptyAtLeastTwo(xs, digit, d, b, 256);
          }
        }
      }
      forall i | 0 <= i < |xs|
        ensures digit(xs[i]) == b
      {
        BucketMembers(xs, digit, digit(xs[i]), xs[i]);
      }
      BucketOfAll(xs, digit, b);
      OnlyBucket(xs, digit, b, 0);
    }
  }

  // Ordering.

  lemma SortedConcat(a: seq<nat>, r: seq<nat>, f: nat -> int)
    requires Sorted(a, f) && Sorted(r, f)
    requires forall i, j :: 0 <= i < |a| && 0 <= j < |r| ==> f(a[i]) <= f(r[j])
    ensures Sorted(a + r, f)
  {
    forall i, j | 0 <= i < j < |a + r|
      ensures f((a + r)[i]) <= f((a + r)[j])
    {
      if j < |a| {
      } else if i >= |a| {
        assert (a + r)[i] == r[i - |a|] && (a + r)[j] == r[j - |a|];
      } else {
        assert (a + r)[j] == r[j - |a|];
      }
    }
  }

  /** Selecting one bucket keeps any order of the input. */
  lemma {:induction false} BucketKeepsOrder(xs: seq<nat>, digit: nat -> nat, b: nat, f: nat -> int)
    requires Sorted(xs, f)
    ensures Sorted(Bucket(xs, digit, b), f)
    decreases |xs|
  {
    if xs != [] {
      var init, last := xs[..|xs| - 1], xs[|xs| - 1];
      assert Sorted(init, f) by {
        assert forall i :: 0 <= i < |init| ==> init[i] == xs[i];
      }
      BucketKeepsOrder(init, digit, b, f);
      var a := Bucket(init, digit, b);
      forall i | 0 <= i < |a|
        ensures f(a[i]) <= f(last)
      {
        BucketMembers(init, digit, b, a[i]);
        var k :| 0 <= k < |init| && init[k] == a[i];
        assert xs[k] == a[i];
      }
    }
  }

  /**
   * `hi` refines `lo` by the digit: the digit decides, and `lo` breaks
   * ties. The low `shift + 8` bits of a key refine its low `shift` bits by
   * the byte at `shift` in this sense.
   */
  ghost predicate Refines(hi: nat -> int, digit: nat -> nat, lo: nat -> int)
  {
    && (forall x, y :: digit(x) < digit(y) ==> hi(x) < hi(y))
    && (forall x, y :: digit(x) == digit(y) && lo(x) <= lo(y) ==> hi(x) <= hi(y))
  }

  lemma {:induction false} BucketsFromOrder(xs: seq<nat>, digit: nat -> nat, c: nat, lo: nat -> int, hi: nat -> int)
    requires c <= 256 && Sorted(xs, lo) && Refines(hi, digit, lo)
    ensures Sorted(BucketsFrom(xs, digit, c), hi)
    decreases 256 - c
  {
    if c < 256 {
      BucketsFromOrder(xs, digit, c + 1, lo, hi);
      var a, r := Bucket(xs, digit, c), BucketsFrom(xs, digit, c + 1);
      BucketKeepsOrder(xs, digit, c, lo);
      forall i | 0 <= i < |a|
        ensures digit(a[i]) == c
      {
        BucketMembers(xs, digit, c, a[i]);
      }
      forall i, j | 0 <= i < |a| && 0 <= j < |r|
        ensures hi(a[i]) <= hi(r[j])
      {
        BucketsFromDigits(xs, digit, c + 1, r[j]);
      }
      SortedConcat(a, r, hi);
    }
  }

  /**
   * One pass extends an order: input ordered by `lo` gives output ordered
   * by any `hi` that refines `lo` by the digit. This is where stability
   * matters.
   */
  lemma PassExtendsOrder(xs: seq<nat>, digit: nat -> nat, lo: nat -> int, hi: nat -> int)
    requires Sorted(xs, lo) && Refines(hi, digit, lo)
    ensures Sorted(ByDigit(xs, digit), hi)
  {
    BucketsFromOrder(xs, digit, 0, lo, hi);
  }

  /** The digit as an order. */
  function ByValue(digit: nat -> nat): nat -> int
  {
    (x: nat) => digit(x)
  }

  /** A pass orders its output by digit. */
  lemma PassOrdersDigits(xs: seq<nat>, digit: nat -> nat)
    ensures Sorted(ByDigit(xs, digit), ByValue(digit))
  {
    var none: nat -> int := _ => 0;
    assert Sorted(xs, none);
    PassExtendsOrder(xs, digit, none, ByValue(digit));
  }

  // Stability: each bucket of the output is the same bucket of the input.

  lemma Assoc<T>(x: seq<T>, y: seq<T>, z: seq<T>)
    ensures (x + y) + z == x + (y + z)
  {
  }

  lemma {:induction false} BucketConcat(a: seq<nat>, r: seq<nat>, digit: nat -> nat, b: nat)
    ensures Bucket(a + r, digit, b) == Bucket(a, digit, b) + Bucket(r, digit, b)
    decreases |r|
  {
    if r == [] {
      assert a + r == a;
    } else {
      var init, last := r[..|r| - 1], r[|r| - 1];
      BucketConcat(a, init, digit, b);
      assert r == init + [last];
      Assoc(a, init, [last]);
      BucketSnoc(a + init, last, digit, b);
      BucketSnoc(init, last, digit, b);
      Assoc(Bucket(a, digit, b), Bucket(init, digit, b), if digit(last) == b then [last] else []);
    }
  }

  lemma {:induction false} BucketOfBucket(xs: seq<nat>, digit: nat -> nat, b: nat, c: nat)
    ensures Bucket(Bucket(xs, digit, c), digit, b) == if b == c then Bucket(xs, digit, c) else []
    decreases |xs|
  {
    if xs != [] {
      var init, last := xs[..|xs| - 1], xs[|xs| - 1];
      BucketOfBucket(init, digit, b, c);
      if digit(last) == c {
        BucketSnoc(Bucket(init, digit, c), last, digit, b);
      }
    }
  }

  /** Buckets above `b` hold nothing with digit `b`. */
  lemma {:induction false} BucketsAboveMiss(xs: seq<nat>, digit: nat -> nat, b: nat, c: nat)
    requires b < c <= 256
    ensures Bucket(BucketsFrom(xs, digit, c), digit, b) == []
    decreases 256 - c
  {
    if c < 256 {
      BucketsAboveMiss(xs, digit, b, c + 1);
      var a, r := Bucket(xs, digit, c), BucketsFrom(xs, digit, c + 1);
      assert BucketsFrom(xs, digit, c) == a + r;
      BucketConcat(a, r, digit, b);
      BucketOfBucket(xs, digit, b, c);
    } else {
      var none: seq<nat> := [];
      assert BucketsFrom(xs, digit, c) == none;
      assert Bucket(none, digit, b) == none;
    }
  }

  /** From any bucket at or below `b` on, the elements with digit `b` are bucket `b`. */
  lemma {:induction false} BucketsFromHit(xs: seq<nat>, digit: nat -> nat, b: nat, c: nat)
    requires c <= b < 256
    ensures Bucket(BucketsFrom(xs, digit, c), digit, b) == Bucket(xs, digit, b)
    decreases b - c
  {
    if c == b {
      BucketsFromHitHere(xs, digit, b);
    } else {
      BucketsFromHit(xs, digit, b, c + 1);
      BucketsFromSkip(xs, digit, b, c);
    }
  }

  lemma BucketsFromHitHere(xs: seq<nat>, digit: nat -> nat, b: nat)
    requires b < 256
    ensures Bucket(BucketsFrom(xs, digit, b), digit, b) == Bucket(xs, digit, b)
  {
    var a, r := Bucket(xs, digit, b), BucketsFrom(xs, digit, b + 1);
    BucketsFromSplit(xs, digit, b, b, a, r);
    BucketOfBucket(xs, digit, b, b);
    BucketsAboveMiss(xs, digit, b, b + 1);
    assert Bucket(a, digit, b) + Bucket(r, digit, b) == a + [];
  }

  /** Bucket `c` contributes nothing to bucket `b != c`. */
  lemma BucketsFromSkip(xs: seq<nat>, digit: nat -> nat, b: nat, c: nat)
    requires c < b < 256
    ensures Bucket(BucketsFrom(xs, digit, c), digit, b) == Bucket(BucketsFrom(xs, digit, c + 1), digit, b)
  {
    var a, r := Bucket(xs, digit, c), BucketsFrom(xs, digit, c + 1);
    BucketsFromSplit(xs, digit, b, c, a, r);
    BucketOfBucket(xs, digit, b, c);
    assert Bucket(a, digit, b) + Bucket(r, digit, b) == [] + Bucket(r, digit, b);
  }

  lemma BucketsFromSplit(xs: seq<nat>, digit: nat -> nat, b: nat, c: nat, a: seq<nat>, r: seq<nat>)
    requires c < 256 && a == Bucket(xs, digit, c) && r == BucketsFrom(xs, digit, c + 1)
    ensures Bucket(BucketsFrom(xs, digit, c), digit, b) == Bucket(a, digit, b) + Bucket(r, digit, b)
  {
    assert BucketsFrom(xs, digit, c) == a + r;
    BucketConcat(a, r, digit, b);
  }

  /** A pass is stable: the indices with digit `b` appear in the output in their input order. */
  lemma PassIsStable(xs: seq<nat>, digit: nat -> nat, b: nat)
    requires b < 256
    ensures Bucket(ByDigit(xs, digit), digit, b) == Bucket(xs, digit, b)
  {
    BucketsFromHit(xs, digit, b, 0);
  }

  // The scatter loop.

  /** After `i` steps, bucket `b` of `xs[..i]` sits at the start of bucket `b`'s range. */
  ghost predicate BucketPlaced(out: seq<nat>, xs: seq<nat>, digit: nat -> nat, i: nat, b: nat)
    requires i <= |xs| && b < 256
  {
    var lo := Start(xs, digit, b);
    var part := Bucket(xs[..i], digit, b);
    lo + |part| <= |out| && out[lo..lo + |part|] == part
  }

  /** After `i` scatter steps every bucket of `xs[..i]` sits at the start of its range. */
  ghost predicate Placed(out: seq<nat>, xs: seq<nat>, digit: nat -> nat, i: nat)
  {
    i <= |xs| && |out| == |xs| && forall b :: 0 <= b < 256 ==> BucketPlaced(out, xs, digit, i, b)
  }

  /** The next free position of bucket `b` after `i` steps lies inside the bucket's range. */
  lemma NextInRange(xs: seq<nat>, digit: nat -> nat, i: nat, b: nat)
    requires IsDigit(digit) && i < |xs| && b < 256 && digit(xs[i]) == b
    ensures Start(xs, digit, b) + |Bucket(xs[..i], digit, b)| < Start(xs, digit, b + 1)
    ensures Start(xs, digit, b + 1) <= |xs|
  {
    assert xs[..i + 1] == xs[..i] + [xs[i]];
    BucketSnoc(xs[..i], xs[i], digit, b);
    BucketOfPrefix(xs, i + 1, digit, b);
    StartMonotone(xs, digit, b + 1, 256);
    StartOfEnd(xs, digit);
  }

  /** The range a bucket has filled never reaches past its end. */
  lemma FilledInRange(xs: seq<nat>, digit: nat -> nat, i: nat, c: nat)
    requires i <= |xs| && c < 256
    ensures Start(xs, digit, c) + |Bucket(xs[..i], digit, c)| <= Start(xs, digit, c + 1)
  {
    BucketOfPrefix(xs, i, digit, c);
  }

  /** Writing `xs[i]` to its bucket's next position extends that bucket. */
  lemma PlaceOwn(out: seq<nat>, xs: seq<nat>, digit: nat -> nat, i: nat, b: nat, pos: nat)
    requires i < |xs| && b < 256 && digit(xs[i]) == b
    requires BucketPlaced(out, xs, digit, i, b)
    requires pos == Start(xs, digit, b) + |Bucket(xs[..i], digit, b)| && pos < |out|
    ensures BucketPlaced(out[pos := xs[i]], xs, digit, i + 1, b)
  {
    var lo := Start(xs, digit, b);
    assert xs[..i + 1] == xs[..i] + [xs[i]];
    BucketSnoc(xs[..i], xs[i], digit, b);
    assert out[pos := xs[i]][lo..pos + 1] == out[lo..pos] + [xs[i]];
  }

  /** ... and leaves every other bucket as it was. */
  lemma PlaceOther(out: seq<nat>, xs: seq<nat>, digit: nat -> nat, i: nat, b: nat, c: nat, pos: nat)
    requires i < |xs| && b < 256 && c < 256 && c != b && digit(xs[i]) == b
    requires BucketPlaced(out, xs, digit, i, c)
    requires Start(xs, digit, b) <= pos < Start(xs, digit, b + 1) && pos < |out|
    ensures BucketPlaced(out[pos := xs[i]], xs, digit, i + 1, c)
  {
    var lo := Start(xs, digit, c);
    var part := Bucket(xs[..i], digit, c);
    assert xs[..i + 1] == xs[..i] + [xs[i]];
    BucketSnoc(xs[..i], xs[i], digit, c);
    assert Bucket(xs[..i + 1], digit, c) == part;
    OutsideOtherBucket(xs, digit, i, b, c, pos);
    var written := out[pos := xs[i]];
    assert forall k :: lo <= k < lo + |part| ==> written[k] == out[k];
    assert written[lo..lo + |part|] == out[lo..lo + |part|];
  }

  /** A position of bucket `b` lies outside the filled part of any other bucket. */
  lemma OutsideOtherBucket(xs: seq<nat>, digit: nat -> nat, i: nat, b: nat, c: nat, pos: nat)
    requires i <= |xs| && b < 256 && c < 256 && c != b
    requires Start(xs, digit, b) <= pos < Start(xs, digit, b + 1)
    ensures pos < Start(xs, digit, c) || Start(xs, digit, c) + |Bucket(xs[..i], digit, c)| <= pos
  {
    FilledInRange(xs, digit, i, c);
    if c < b {
      StartMonotone(xs, digit, c + 1, b);
    } else {
      StartMonotone(xs, digit, b + 1, c);
    }
  }

  /** One scatter step keeps every bucket placed. */
  lemma PlaceStep(out: seq<nat>, xs: seq<nat>, digit: nat -> nat, i: nat, pos: nat)
    requires IsDigit(digit) && Placed(out, xs, digit, i) && i < |xs|
    requires pos == Start(xs, digit, digit(xs[i])) + |Bucket(xs[..i], digit, digit(xs[i]))|
    ensures pos < |xs| && Placed(out[pos := xs[i]], xs, digit, i + 1)
  {
    var b := digit(xs[i]);
    NextInRange(xs, digit, i, b);
    var written, j := out[pos := xs[i]], i + 1;
    forall c | 0 <= c < 256
      ensures BucketPlaced(written, xs, digit, j, c)
    {
      if c == b {
        PlaceOwn(out, xs, digit, i, b, pos);
      } else {
        PlaceOther(out, xs, digit, i, b, c, pos);
      }
    }
  }

  /** Once every element is placed the output is the reference result. */
  lemma {:induction false} PlacedFrom(out: seq<nat>, xs: seq<nat>, digit: nat -> nat, c: nat)
    requires IsDigit(digit) && Placed(out, xs, digit, |xs|) && c <= 256
    ensures Start(xs, digit, c) <= |out|
    ensures out[Start(xs, digit, c)..] == BucketsFrom(xs, digit, c)
    decreases 256 - c
  {
    if c < 256 {
      PlacedFrom(out, xs, digit, c + 1);
      assert BucketPlaced(out, xs, digit, |xs|, c);
      PlacedJoin(out, xs, digit, c);
    } else {
      StartOfEnd(xs, digit);
    }
  }

  lemma PlacedJoin(out: seq<nat>, xs: seq<nat>, digit: nat -> nat, c: nat)
    requires c < 256 && BucketPlaced(out, xs, digit, |xs|, c)
    requires Start(xs, digit, c + 1) <= |out|
    requires out[Start(xs, digit, c + 1)..] == BucketsFrom(xs, digit, c + 1)
    ensures Start(xs, digit, c) <= |out|
    ensures out[Start(xs, digit, c)..] == BucketsFrom(xs, digit, c)
  {
    var lo, hi := Start(xs, digit, c), Start(xs, digit, c + 1);
    var bucket := Bucket(xs, digit, c);
    assert xs[..|xs|] == xs;
    assert hi == lo + |bucket|;
    assert out[lo..hi] == bucket;
    SliceSplit(out, lo, hi);
    assert BucketsFrom(xs, digit, c) == bucket + BucketsFrom(xs, digit, c + 1);
  }

  lemma SliceSplit<T>(s: seq<T>, lo: nat, hi: nat)
    requires lo <= hi <= |s|
    ensures s[lo..] == s[lo..hi] + s[hi..]
  {
  }

  /** Nothing is placed before the first step. */
  lemma PlacedInitially(out: seq<nat>, xs: seq<nat>, digit: nat -> nat)
    requires IsDigit(digit) && |out| == |xs|
    ensures Placed(out, xs, digit, 0)
  {
    forall b | 0 <= b < 256
      ensures BucketPlaced(out, xs, digit, 0, b)
    {
      assert xs[..0] == [];
      StartMonotone(xs, digit, b, 256);
      StartOfEnd(xs, digit);
    }
  }

  /** Bumping the next free position of `xs[i]`'s bucket keeps the positions in step with the buckets. */
  lemma NextAdvances(xs: seq<nat>, digit: nat -> nat, i: nat, next: seq<nat>)
    requires IsDigit(digit) && i < |xs| && |next| == 256
    requires forall b :: 0 <= b < 256 ==> next[b] == Start(xs, digit, b) + |Bucket(xs[..i], digit, b)|
    ensures var d := digit(xs[i]);
      var next' := next[d := next[d] + 1];
      forall b :: 0 <= b < 256 ==> next'[b] == Start(xs, digit, b) + |Bucket(xs[..i + 1], digit, b)|
  {
    assert xs[..i + 1] == xs[..i] + [xs[i]];
    forall b | 0 <= b < 256
      ensures |Bucket(xs[..i + 1], digit, b)| == |Bucket(xs[..i], digit, b)| + (if digit(xs[i]) == b then 1 else 0)
    {
      BucketSnoc(xs[..i], xs[i], digit, b);
    }
  }

  // The three loops of `countingSort`.

  /** The first loop: how many indices have each digit. */
  method CountDigits(indices: seq<nat>, digit: nat -> nat) returns (counts: seq<nat>)
    requires IsDigit(digit)
    ensures |counts| == 256
    ensures forall b :: 0 <= b < 256 ==> counts[b] == |Bucket(indices, digit, b)|
  {
    counts := seq(256, _ => 0);
    for i := 0 to |indices|
      invariant |counts| == 256
      invariant forall b :: 0 <= b < 256 ==> counts[b] == |Bucket(indices[..i], digit, b)|
    {
      var index := indices[i];
      var key := digit(index);
      counts := counts[key := counts[key] + 1];
      assert indices[..i + 1] == indices[..i] + [index];
      forall b | 0 <= b < 256
        ensures counts[b] == |Bucket(indices[..i + 1], digit, b)|
      {
        BucketSnoc(indices[..i], index, digit, b);
      }
    }
    assert indices[..|indices|] == indices;
  }

  /** The second loop: exclusive prefix sums of the counts, and how many digits occur. */
  method BucketStarts(indices: seq<nat>, digit: nat -> nat, counts: seq<nat>)
    returns (starts: seq<nat>, numNonZero: nat)
    requires |counts| == 256
    requires forall b :: 0 <= b < 256 ==> counts[b] == |Bucket(indices, digit, b)|
    ensures |starts| == 256
    ensures forall b :: 0 <= b < 256 ==> starts[b] == Start(indices, digit, b)
    ensures numNonZero == NonEmpty(indices, digit, 256)
  {
    starts := counts;
    var total: nat := 0;
    numNonZero := 0;
    for i := 0 to 256
      invariant |starts| == 256
      invariant forall b :: 0 <= b < i ==> starts[b] == Start(indices, digit, b)
      invariant forall b :: i <= b < 256 ==> starts[b] == |Bucket(indices, digit, b)|
      invariant total == Start(indices, digit, i)
      invariant numNonZero == NonEmpty(indices, digit, i)
    {
      var origCount := starts[i];
      starts := starts[i := total];
      total := total + origCount;
      if origCount != 0 {
        numNonZero := numNonZero + 1;
      }
    }
  }

  /** The third loop: each index goes to the next free position of its digit's bucket. */
  method Scatter(indices: seq<nat>, digit: nat -> nat, starts: seq<nat>) returns (out: seq<nat>)
    requires IsDigit(digit) && |starts| == 256
    requires forall b :: 0 <= b < 256 ==> starts[b] == Start(indices, digit, b)
    ensures out == ByDigit(indices, digit)
  {
    var n := |indices|;
    var next := starts;
    out := seq(n, _ => 0);
    PlacedInitially(out, indices, digit);
    for i := 0 to n
      invariant |next| == 256
      invariant forall b :: 0 <= b < 256 ==> next[b] == Start(indices, digit, b) + |Bucket(indices[..i], digit, b)|
      invariant Placed(out, indices, digit, i)
    {
      var index := indices[i];
      var key := digit(index);
      var count := next[key];
      PlaceStep(out, indices, digit, i, count);
      NextAdvances(indices, digit, i, next);
      next := next[key := count + 1];
      out := out[count := index];
    }
    PlacedFrom(out, indices, digit, 0);
  }

  // Keys and their bytes.

  /** The key of index `x`; every index the sort reads is below `|keys|`. */
  function Key(keys: seq<nat>, x: nat): nat
  {
    if x < |keys| then keys[x] else 0
  }

  /** `(keys[x] >> shift) & 0xFF`: the byte of the key at bit `shift`. */
  function Digit(keys: seq<nat>, shift: nat, x: nat): (d: nat)
    ensures d < 256
  {
    (Key(keys, x) / Pow2(shift)) % 256
  }

  /** The low `bits` bits of the key of `x`. */
  function Low(keys: seq<nat>, bits: nat, x: nat): nat
  {
    Key(keys, x) % Pow2(bits)
  }

  function KeyOf(keys: seq<nat>): nat -> int
  {
    (x: nat) => Key(keys, x)
  }

  function DigitOf(keys: seq<nat>, shift: nat): (digit: nat -> nat)
    ensures IsDigit(digit)
  {
    (x: nat) => Digit(keys, shift, x)
  }

  function LowOf(keys: seq<nat>, bits: nat): nat -> int
  {
    (x: nat) => Low(keys, bits, x)
  }

  /** The low `shift + 8` bits are the digit at `shift` above the low `shift` bits. */
  lemma LowSplit(keys: seq<nat>, shift: nat, x: nat)
    ensures Low(keys, shift, x) < Pow2(shift)
    ensures Low(keys, shift + 8, x) == Digit(keys, shift, x) * Pow2(shift) + Low(keys, shift, x)
  {
    assert Pow2(shift + 8) == Pow2(shift) * 256 by {
      Pow2Add(shift, 8);
      assert Pow2(8) == 256;
    }
    ModOfScaled(Key(keys, x), Pow2(shift));
  }

  /** `k mod 256a` is the byte of `k / a` scaled by `a`, plus `k mod a`. */
  lemma ModOfScaled(k: nat, a: nat)
    requires a > 0
    ensures k % (a * 256) == ((k / a) % 256) * a + k % a
  {
    var y := k / a;
    var q, r, s := y / 256, y % 256, k % a;
    Bits.Combine(k, a, 256, y, q, r, s);
    Bits.MixedBound(a, 256, r, s);
    Bits.ModUnique(k, a * 256, q, a * r + s);
    assert a * r == r * a;
  }

  lemma HigherDigitWins(dx: nat, dy: nat, lx: nat, ly: nat, p: nat)
    requires dx < dy && lx < p
    ensures dx * p + lx < dy * p + ly
  {
    Bits.MulMonotone(dx + 1, dy, p);
    assert (dx + 1) * p == dx * p + p;
  }

  /**
   * The low `shift + 8` bits order keys by their byte at `shift` first and
   * by their low `shift` bits next.
   */
  lemma LowRefines(keys: seq<nat>, shift: nat)
    ensures Refines(LowOf(keys, shift + 8), DigitOf(keys, shift), LowOf(keys, shift))
  {
    var hi, digit, lo := LowOf(keys, shift + 8), DigitOf(keys, shift), LowOf(keys, shift);
    forall x, y | digit(x) < digit(y)
      ensures hi(x) < hi(y)
    {
      LowSplit(keys, shift, x);
      LowSplit(keys, shift, y);
      HigherDigitWins(Digit(keys, shift, x), Digit(keys, shift, y), Low(keys, shift, x), Low(keys, shift, y), Pow2(shift));
    }
    forall x, y | digit(x) == digit(y) && lo(x) <= lo(y)
      ensures hi(x) <= hi(y)
    {
      LowSplit(keys, shift, x);
      LowSplit(keys, shift, y);
    }
  }

  /**
   * `countingSort<Shift>`: count the digits, turn the counts into bucket
   * starts, and scatter the indices to their buckets in input order. When
   * at most one digit value occurs the input is copied unchanged.
   * Indices must be below `N` and `N` keys must exist.
   */
  method CountingSort(indices: seq<nat>, keys: seq<nat>, shift: nat) returns (out: seq<nat>)
    requires |indices| < U32_LIMIT && |indices| <= |keys| && IndicesBelow(indices, |indices|)
    ensures out == ByDigit(indices, DigitOf(keys, shift))
    ensures NonEmpty(indices, DigitOf(keys, shift), 256) <= 1 ==> out == indices
  {
    var digit := DigitOf(keys, shift);
    var counts := CountDigits(indices, digit);
    var starts, numNonZero := BucketStarts(indices, digit, counts);
    if numNonZero <= 1 {
      OneBucketIsIdentity(indices, digit);
      return indices;
    }
    out := Scatter(indices, digit, starts);
  }

  // Radix sort.

  /** Every element of `xs` is an index below `n`. */
  predicate IndicesBelow(xs: seq<nat>, n: nat)
  {
    forall i :: 0 <= i < |xs| ==> xs[i] < n
  }

  /** Every key fits in `bits` bits. */
  predicate KeysFit(keys: seq<nat>, bits: nat)
  {
    forall x :: 0 <= x < |keys| ==> keys[x] < Pow2(bits)
  }

  lemma PermutationKeepsIndices(xs: seq<nat>, ys: seq<nat>, n: nat)
    requires multiset(xs) == multiset(ys) && IndicesBelow(xs, n)
    ensures IndicesBelow(ys, n) && |ys| == |xs|
  {
    forall i | 0 <= i < |ys|
      ensures ys[i] < n
    {
      assert ys[i] in multiset(xs);
    }
    assert |multiset(xs)| == |multiset(ys)|;
  }

  /** Ordered by all the bits a key has means ordered by key. */
  lemma AllBitsIsKey(xs: seq<nat>, keys: seq<nat>, bits: nat)
    requires Sorted(xs, LowOf(keys, bits)) && KeysFit(keys, bits)
    ensures Sorted(xs, KeyOf(keys))
  {
    forall i, j | 0 <= i < j < |xs|
      ensures Key(keys, xs[i]) <= Key(keys, xs[j])
    {
      LowOfFitting(keys, bits, xs[i]);
      LowOfFitting(keys, bits, xs[j]);
      assert LowOf(keys, bits)(xs[i]) <= LowOf(keys, bits)(xs[j]);
    }
  }

  lemma LowOfFitting(keys: seq<nat>, bits: nat, x: nat)
    requires KeysFit(keys, bits)
    ensures Low(keys, bits, x) == Key(keys, x)
  {
    Bits.ModUnique(Key(keys, x), Pow2(bits), 0, Key(keys, x));
  }

  /** What one pass keeps and what it adds, for the radix loop. */
  lemma PassFacts(xs: seq<nat>, keys: seq<nat>, shift: nat)
    requires Sorted(xs, LowOf(keys, shift)) && IndicesBelow(xs, |xs|)
    ensures multiset(ByDigit(xs, DigitOf(keys, shift))) == multiset(xs)
    ensures Sorted(ByDigit(xs, DigitOf(keys, shift)), LowOf(keys, shift + 8))
    ensures |ByDigit(xs, DigitOf(keys, shift))| == |xs| && IndicesBelow(ByDigit(xs, DigitOf(keys, shift)), |xs|)
  {
    var digit := DigitOf(keys, shift);
    ByDigitPermutes(xs, digit);
    LowRefines(keys, shift);
    PassExtendsOrder(xs, digit, LowOf(keys, shift), LowOf(keys, shift + 8));
    PermutationKeepsIndices(xs, ByDigit(xs, digit), |xs|);
  }

  /** One pass of the radix loop, with what it keeps and what it adds. */
  method Pass(xs: seq<nat>, keys: seq<nat>, shift: nat) returns (out: seq<nat>)
    requires |xs| < U32_LIMIT && |xs| <= |keys|
    requires IndicesBelow(xs, |xs|) && Sorted(xs, LowOf(keys, shift))
    ensures multiset(out) == multiset(xs) && |out| == |xs| && IndicesBelow(out, |xs|)
    ensures Sorted(out, LowOf(keys, shift + 8))
  {
    out := CountingSort(xs, keys, shift);
    PassFacts(xs, keys, shift);
  }

  /**
   * Four passes, on the bytes at `shift`, `shift + 8`, `shift + 16` and
   * `shift + 24`, alternating between the two buffers.
   */
  method FourPasses(indices: seq<nat>, keys: seq<nat>, shift: nat) returns (sorted: seq<nat>, temp: seq<nat>)
    requires |indices| < U32_LIMIT && |indices| <= |keys|
    requires IndicesBelow(indices, |indices|) && Sorted(indices, LowOf(keys, shift))
    ensures multiset(sorted) == multiset(indices) && |sorted| == |indices| && IndicesBelow(sorted, |indices|)
    ensures Sorted(sorted, LowOf(keys, shift + 32))
    ensures multiset(temp) == multiset(indices) && Sorted(temp, LowOf(keys, shift + 24))
  {
    temp := Pass(indices, keys, shift);
    sorted := Pass(temp, keys, shift + 8);
    temp := Pass(sorted, keys, shift + 16);
    sorted := Pass(temp, keys, shift + 24);
  }

  /** Ordered by zero low bits: every sequence is. */
  lemma NothingIsOrdered(xs: seq<nat>, keys: seq<nat>)
    ensures Sorted(xs, LowOf(keys, 0))
  {
    forall i, j | 0 <= i < j < |xs|
      ensures LowOf(keys, 0)(xs[i]) <= LowOf(keys, 0)(xs[j])
    {
    }
  }

  /**
   * `radixSort` for `u32` keys: four passes, on bytes 0 to 3. The indices
   * end up ordered by key; `temp` holds the order of the low three bytes.
   */
  method RadixSort32(indices: seq<nat>, keys: seq<nat>) returns (sorted: seq<nat>, temp: seq<nat>)
    requires |indices| < U32_LIMIT && |indices| <= |keys|
    requires IndicesBelow(indices, |indices|) && KeysFit(keys, 32)
    ensures multiset(sorted) == multiset(indices) && Sorted(sorted, KeyOf(keys))
    ensures multiset(temp) == multiset(indices) && Sorted(temp, LowOf(keys, 24))
  {
    NothingIsOrdered(indices, keys);
    sorted, temp := FourPasses(indices, keys, 0);
    AllBitsIsKey(sorted, keys, 32);
  }

  /** `radixSort` for `u64` keys: eight passes, on bytes 0 to 7. */
  method RadixSort64(indices: seq<nat>, keys: seq<nat>) returns (sorted: seq<nat>, temp: seq<nat>)
    requires |indices| < U32_LIMIT && |indices| <= |keys|
    requires IndicesBelow(indices, |indices|) && KeysFit(keys, 64)
    ensures multiset(sorted) == multiset(indices) && Sorted(sorted, KeyOf(keys))
    ensures multiset(temp) == multiset(indices) && Sorted(temp, LowOf(keys, 56))
  {
    NothingIsOrdered(indices, keys);
    var low, _ := FourPasses(indices, keys, 0);
    sorted, temp := FourPasses(low, keys, 32);
    AllBitsIsKey(sorted, keys, 64);
  }

  /** The `u32` bit pattern of an `i32`: two's complement. */
  function Pattern(k: int): (p: nat)
    requires -0x8000_0000 <= k < 0x8000_0000
    ensures p < U32_LIMIT
    ensures k >= 0 ==> p == k
    ensures k < 0 ==> p == k + U32_LIMIT
  {
    if k < 0 then k + U32_LIMIT else k
  }

  /** Order of bit patterns: non-negative keys first, each sign group ascending. */
  lemma PatternOrder(a: int, b: int)
    requires -0x8000_0000 <= a < 0x8000_0000 && -0x8000_0000 <= b < 0x8000_0000
    ensures Pattern(a) <= Pattern(b) <==> (a >= 0 && b < 0) || ((a >= 0 <==> b >= 0) && a <= b)
  {
  }

  /**
   * `radixSort` for `i32` keys reinterprets them as `u32`: the indices end
   * up ordered by bit pattern, so negative keys come after the others.
   */
  method RadixSortI32(indices: seq<nat>, keys: seq<int>) returns (sorted: seq<nat>, temp: seq<nat>)
    requires |indices| < U32_LIMIT && |indices| <= |keys|
    requires IndicesBelow(indices, |indices|)
    requires forall x :: 0 <= x < |keys| ==> -0x8000_0000 <= keys[x] < 0x8000_0000
    ensures multiset(sorted) == multiset(indices) && IndicesBelow(sorted, |indices|)
    ensures forall i, j :: 0 <= i < j < |sorted| ==> Pattern(keys[sorted[i]]) <= Pattern(keys[sorted[j]])
  {
    var bits := seq(|keys|, x requires 0 <= x < |keys| => Pattern(keys[x]));
    Pow2Of32();
    sorted, temp := RadixSort32(indices, bits);
    PermutationKeepsIndices(indices, sorted, |indices|);
    forall i, j | 0 <= i < j < |sorted|
      ensures Pattern(keys[sorted[i]]) <= Pattern(keys[sorted[j]])
    {
      assert KeyOf(bits)(sorted[i]) <= KeyOf(bits)(sorted[j]);
    }
  }
}
