/** Orderings by a key, shared by the sorting modules. */
module Orders {

  /** `xs` is ordered by non-decreasing key. */
  ghost predicate Sorted<T>(xs: seq<T>, key: T -> int)
  {
    forall i, j :: 0 <= i < j < |xs| ==> key(xs[i]) <= key(xs[j])
  }

  lemma SortedTail<T>(xs: seq<T>, key: T -> int)
    requires Sorted(xs, key) && xs != []
    ensures Sorted(xs[1..], key)
    ensures forall i :: 0 <= i < |xs[1..]| ==> key(xs[0]) <= key(xs[1..][i])
  {
    assert forall i :: 0 <= i < |xs[1..]| ==> xs[1..][i] == xs[i + 1];
  }

  /** Two orderings of the same elements by a key that tells them apart are equal. */
  lemma {:induction false} SortedUnique<T>(a: seq<T>, b: seq<T>, key: T -> int)
    requires multiset(a) == multiset(b) && Sorted(a, key) && Sorted(b, key)
    requires forall x, y :: x in a && y in a && key(x) == key(y) ==> x == y
    ensures a == b
    decreases |a|
  {
    if |a| == 0 {
      assert |multiset(b)| == 0;
    } else {
      UniqueStep(a, b, key);
      SortedUnique(a[1..], b[1..], key);
      assert a == [a[0]] + a[1..] && b == [b[0]] + b[1..];
    }
  }

  /** The heads agree, and the tails meet the same requirements. */
  lemma UniqueStep<T>(a: seq<T>, b: seq<T>, key: T -> int)
    requires |a| > 0
    requires multiset(a) == multiset(b) && Sorted(a, key) && Sorted(b, key)
    requires forall x, y :: x in a && y in a && key(x) == key(y) ==> x == y
    ensures |b| > 0 && a[0] == b[0]
    ensures multiset(a[1..]) == multiset(b[1..]) && Sorted(a[1..], key) && Sorted(b[1..], key)
    ensures forall x, y :: x in a[1..] && y in a[1..] && key(x) == key(y) ==> x == y
  {
    assert |multiset(a)| == |multiset(b)|;
    HeadsAgree(a, b, key);
    Rest(a, key);
    Rest(b, key);
  }

  lemma Rest<T>(a: seq<T>, key: T -> int)
    requires |a| > 0 && Sorted(a, key)
    ensures Sorted(a[1..], key)
    ensures multiset(a[1..]) == multiset(a) - multiset{a[0]}
    ensures forall x :: x in a[1..] ==> x in a
  {
    assert a == [a[0]] + a[1..];
    SortedTail(a, key);
  }

  lemma HeadsAgree<T>(a: seq<T>, b: seq<T>, key: T -> int)
    requires |a| > 0 && |b| > 0
    requires multiset(a) == multiset(b) && Sorted(a, key) && Sorted(b, key)
    requires forall x, y :: x in a && y in a && key(x) == key(y) ==> x == y
    ensures a[0] == b[0]
  {
    assert b[0] in multiset(a) && a[0] in multiset(b);
    var k :| 0 <= k < |a| && a[k] == b[0];
    var m :| 0 <= m < |b| && b[m] == a[0];
    assert key(a[0]) <= key(b[0]);
    assert key(b[0]) <= key(a[0]);
    assert a[0] in a && b[0] in a;
  }
}
