/**
 * Small facts about sequence slicing and update, and the reversal of a
 * sequence, used by the array, slice and pool models.
 */
module Seqs {

  /** Dropping `a` elements and then `b` more drops `a + b`. */
  lemma DropDrop<T>(s: seq<T>, a: nat, b: nat)
    requires a + b <= |s|
    ensures s[a..][b..] == s[a + b..]
  {
  }

  /** Updating a position of the left part of a concatenation. */
  lemma UpdateLeft<T>(a: seq<T>, b: seq<T>, i: nat, v: T)
    requires i < |a|
    ensures (a + b)[i := v] == a[i := v] + b
  {
  }

  /** Updating a position of the right part of a concatenation. */
  lemma UpdateRight<T>(a: seq<T>, b: seq<T>, i: nat, v: T)
    requires i < |b|
    ensures (a + b)[|a| + i := v] == a + b[i := v]
  {
  }

  /** Writing position `n` and keeping `n + 1` elements appends the value to the first `n`. */
  lemma UpdateTake<T>(f: seq<T>, n: nat, v: T)
    requires n < |f|
    ensures f[n := v][..n + 1] == f[..n] + [v]
  {
  }

  /** Taking `m` elements and dropping the first is dropping the first and taking `m - 1`. */
  lemma TakeTail<T>(vs: seq<T>, m: nat)
    requires 0 < m <= |vs|
    ensures vs[..m][1..] == vs[1..][..m - 1]
    ensures vs[1..][m - 1..] == vs[m..]
  {
  }

  /** Splitting a sequence at `n`. */
  lemma TakeDrop<T>(vs: seq<T>, n: nat)
    requires n <= |vs|
    ensures vs[..n] + vs[n..] == vs
  {
  }

  /** The reversal of a sequence: element `i` goes to position `|x| - 1 - i`. */
  function Reversed<T>(x: seq<T>): (r: seq<T>)
    ensures |r| == |x|
  {
    if |x| == 0 then [] else Reversed(x[1..]) + [x[0]]
  }

  lemma {:induction false} ReversedIndex<T>(x: seq<T>, i: nat)
    requires i < |x|
    ensures Reversed(x)[i] == x[|x| - 1 - i]
  {
    if i < |x| - 1 {
      ReversedIndex(x[1..], i);
    }
  }
}
