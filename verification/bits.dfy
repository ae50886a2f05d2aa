/**
 * Bitwise operators on naturals.
 *
 * `&`, `|`, `^` and `>>` are defined bit by bit (least significant bit first),
 * so that the identities the sources rely on -- `x & (2^k - 1) == x % 2^k`,
 * `|` of non-overlapping fields is `+` -- are theorems rather than
 * definitions.
 */
module Bits {
  import opened Types

  /** `x & y`. */
  function And(x: nat, y: nat): nat
    decreases x
  {
    if x == 0 || y == 0 then 0
    else 2 * And(x / 2, y / 2) + (if x % 2 == 1 && y % 2 == 1 then 1 else 0)
  }

  /** `x | y`. */
  function Or(x: nat, y: nat): nat
    decreases x + y
  {
    if x == 0 then y
    else if y == 0 then x
    else 2 * Or(x / 2, y / 2) + (if x % 2 == 1 || y % 2 == 1 then 1 else 0)
  }

  /** `x ^ y`. */
  function Xor(x: nat, y: nat): nat
    decreases x + y
  {
    if x == 0 then y
    else if y == 0 then x
    else 2 * Xor(x / 2, y / 2) + (if x % 2 != y % 2 then 1 else 0)
  }

  /** `x >> k` on an unsigned value: `k` halvings. */
  function Shr(x: nat, k: nat): nat
  {
    if k == 0 then x else Shr(x / 2, k - 1)
  }

  /** Bit `i` of `x`, counted from the least significant bit. */
  function Bit(x: nat, i: nat): nat
  {
    Shr(x, i) % 2
  }

  lemma MulAtLeast(d: int, a: int)
    requires d > 0 && a >= 1
    ensures d * a >= d
  {
    var i := a - 1;
    assert d * a == d * i + d;
  }

  /** Quotient and remainder are unique. */
  lemma ModUnique(x: nat, d: nat, q: nat, r: nat)
    requires d > 0 && r < d && x == d * q + r
    ensures x % d == r && x / d == q
  {
    var q0 := x / d;
    var r0 := x % d;
    assert x == d * q0 + r0;
    if q > q0 {
      MulAtLeast(d, q - q0);
      assert false;
    } else if q < q0 {
      MulAtLeast(d, q0 - q);
      assert false;
    }
  }

  lemma Distribute(a: int, b: int, q: int, r: int)
    ensures a * (b * q + r) == (a * b) * q + a * r
  {
  }

  lemma MixedBound(a: nat, b: nat, r: nat, s: nat)
    requires r < b && s < a
    ensures a * r + s < a * b
  {
    MulAtLeast(a, b - r);
    assert a * (b - r) == a * b - a * r;
  }

  lemma Combine(x: nat, a: nat, b: nat, y: nat, q: nat, r: nat, s: nat)
    requires y == b * q + r && x == a * y + s
    ensures x == (a * b) * q + (a * r + s)
  {
    Distribute(a, b, q, r);
  }

  lemma DivDiv(x: nat, a: nat, b: nat)
    requires a > 0 && b > 0
    ensures x / a / b == x / (a * b)
  {
    var y := x / a;
    var q := y / b;
    var r := y % b;
    var s := x % a;
    Combine(x, a, b, y, q, r, s);
    MixedBound(a, b, r, s);
    ModUnique(x, a * b, q, a * r + s);
  }

  lemma MulMonotone(a: nat, b: nat, d: nat)
    requires a <= b
    ensures a * d <= b * d
  {
    assert b * d == a * d + (b - a) * d;
  }

  lemma AddMultiples(x: int, y: int, m: int)
    ensures x * m + y * m == (x + y) * m
  {
  }

  /** Two numbers that differ by multiples of `m` leave the same remainder. */
  lemma ModShift(a: nat, b: nat, u: nat, v: nat, m: nat)
    requires m > 0 && a + u * m == b + v * m
    ensures a % m == b % m
  {
    var n := a + u * m;
    var qa, ra := a / m, a % m;
    var qb, rb := b / m, b % m;
    assert a == qa * m + ra;
    assert b == qb * m + rb;
    AddMultiples(qa, u, m);
    AddMultiples(qb, v, m);
    assert n == m * (qa + u) + ra;
    assert n == m * (qb + v) + rb;
    ModUnique(n, m, qa + u, ra);
    ModUnique(n, m, qb + v, rb);
  }

  /** Reducing a factor modulo `m` first does not change the product modulo `m`. */
  lemma ModMulLeft(a: nat, b: nat, m: nat)
    requires m > 0
    ensures ((a % m) * b) % m == (a * b) % m
  {
    var q, r := a / m, a % m;
    assert a == q * m + r;
    assert a * b == r * b + (q * b) * m by {
      assert (q * m + r) * b == r * b + (q * b) * m;
    }
    ModShift(r * b, a * b, q * b, 0, m);
  }

  /** `n < x / d` exactly when `n + 1` copies of `d` fit in `x`. */
  lemma LtDivIff(n: nat, x: nat, d: nat)
    requires d > 0
    ensures n < x / d <==> (n + 1) * d <= x
  {
    var q := x / d;
    assert x == q * d + x % d;
    if n + 1 <= q {
      MulMonotone(n + 1, q, d);
    } else {
      MulMonotone(q + 1, n + 1, d);
      assert (q + 1) * d == q * d + d;
    }
  }

  /** `x & y` never exceeds `y`. */
  lemma {:induction false} AndBounded(x: nat, y: nat)
    ensures And(x, y) <= y
    decreases x
  {
    if x != 0 && y != 0 {
      AndBounded(x / 2, y / 2);
    }
  }

  /** A multiple of `d` is `0 mod d`. */
  lemma MultipleMod(q: nat, d: nat)
    requires d > 0
    ensures (q * d) % d == 0 && (q * d) / d == q
  {
    ModUnique(q * d, d, q, 0);
  }

  /** The difference of two multiples of `d` is a multiple of `d`. */
  lemma SubMultiples(x: nat, y: nat, d: nat)
    requires d > 0 && y <= x && x % d == 0 && y % d == 0
    ensures (x - y) % d == 0
  {
    var p := x / d;
    var q := y / d;
    assert x == d * p && y == d * q;
    assert x - y == d * (p - q) by {
      assert d * p - d * q == d * (p - q);
    }
    ModUnique(x - y, d, p - q, 0);
  }

  /** Removing the remainder leaves a multiple. */
  lemma SubRemainder(x: nat, d: nat)
    requires d > 0
    ensures (x - x % d) % d == 0
  {
    assert x - x % d == d * (x / d);
    ModUnique(x - x % d, d, x / d, 0);
  }

  /** A multiple of a multiple of `d` is a multiple of `d`. */
  lemma MultipleOfMultiple(c: nat, s: nat, d: nat)
    requires d > 0 && s % d == 0
    ensures (c * s) % d == 0
  {
    var q := s / d;
    assert s == q * d;
    assert c * s == (c * q) * d;
    ModUnique(c * s, d, c * q, 0);
  }

  /** The remainder modulo `a * b` splits into the digit above `a` and the remainder modulo `a`. */
  lemma ModProduct(x: nat, a: nat, b: nat)
    requires a > 0 && b > 0
    ensures x % (a * b) == a * ((x / a) % b) + x % a
    ensures x / (a * b) == (x / a) / b
  {
    var t := (x / a) / b;
    var r := (x / a) % b;
    Combine(x, a, b, x / a, t, r, x % a);
    MixedBound(a, b, r, x % a);
    ModUnique(x, a * b, t, a * r + x % a);
  }

  /** Peeling the lowest bit off a remainder modulo an even number `q = 2p`. */
  lemma ModDouble(x: nat, p: nat, q: nat)
    requires p > 0 && q == 2 * p
    ensures x % q == 2 * ((x / 2) % p) + x % 2
  {
    var t := (x / 2) / p;
    var r := (x / 2) % p;
    Combine(x, 2, p, x / 2, t, r, x % 2);
    MixedBound(2, p, r, x % 2);
    ModUnique(x, 2 * p, t, 2 * r + x % 2);
  }

  lemma AndOddMask(x: nat, p: nat, q: nat)
    requires x > 0 && p > 0 && q == 2 * p
    ensures And(x, q - 1) == 2 * And(x / 2, p - 1) + x % 2
  {
    var m := q - 1;
    assert m % 2 == 1;
    assert m / 2 == p - 1;
  }

  /** `x & (2^k - 1)` keeps the low `k` bits, i.e. is `x % 2^k`. */
  lemma {:induction false} AndLowMask(x: nat, k: nat)
    ensures And(x, Pow2(k) - 1) == x % Pow2(k)
  {
    var q := Pow2(k);
    if k == 0 {
      assert q == 1;
    } else if x == 0 {
      ModUnique(0, q, 0, 0);
    } else {
      var p := Pow2(k - 1);
      AndOddMask(x, p, q);
      AndLowMask(x / 2, k - 1);
      ModDouble(x, p, q);
    }
  }

  /**
   * `(hi << k) | lo` with `lo < 2^k` is `hi * 2^k + lo`: or-ing fields that
   * do not overlap is addition.
   */
  lemma {:induction false} OrDisjoint(hi: nat, lo: nat, k: nat)
    requires lo < Pow2(k)
    ensures Or(hi * Pow2(k), lo) == hi * Pow2(k) + lo
  {
    if k > 0 && hi > 0 && lo > 0 {
      var x := hi * Pow2(k);
      assert x % 2 == 0 && x / 2 == hi * Pow2(k - 1);
      OrDisjoint(hi, lo / 2, k - 1);
    }
  }

  /** Bit `i` of `x | y` is set iff it is set in `x` or in `y`. */
  lemma {:induction false} BitOfOr(x: nat, y: nat, i: nat)
    ensures Bit(Or(x, y), i) == 1 <==> Bit(x, i) == 1 || Bit(y, i) == 1
    decreases i
  {
    if x == 0 || y == 0 {
      BitZero(i);
    } else if i == 0 {
      OrLowBit(x, y);
    } else {
      BitOfOr(x / 2, y / 2, i - 1);
      OrHalf(x, y);
    }
  }

  /** The lowest bit of `x | y`, for non-zero operands. */
  lemma OrLowBit(x: nat, y: nat)
    requires x > 0 && y > 0
    ensures Or(x, y) % 2 == (if x % 2 == 1 || y % 2 == 1 then 1 else 0)
  {
  }

  /** Halving `x | y` is or-ing the halves, for non-zero operands. */
  lemma OrHalf(x: nat, y: nat)
    requires x > 0 && y > 0
    ensures Or(x, y) / 2 == Or(x / 2, y / 2)
  {
  }

  /** Zero shifted right stays zero, so every bit of zero is clear. */
  lemma {:induction false} BitZero(i: nat)
    ensures Shr(0, i) == 0 && Bit(0, i) == 0
  {
    if i > 0 {
      BitZero(i - 1);
    }
  }

  /** Bit `i` of `x` is bit `i - 1` of `x / 2`. */
  lemma BitShift(x: nat, i: nat)
    requires i > 0
    ensures Bit(x, i) == Bit(x / 2, i - 1)
  {
  }

  /** `x >> k` is the quotient by `2^k`. */
  lemma {:induction false} ShrIsDiv(x: nat, k: nat)
    ensures Shr(x, k) == x / Pow2(k)
  {
    if k > 0 {
      ShrIsDiv(x / 2, k - 1);
      DivDiv(x, 2, Pow2(k - 1));
    }
  }

  /** Bit `i` of `x >> 1` is bit `i + 1` of `x`. */
  lemma BitOfShr1(x: nat, i: nat)
    ensures Bit(Shr(x, 1), i) == Bit(x, i + 1)
  {
    assert Shr(x, 1) == x / 2;
  }

  /** `x >> a >> b == x >> (a + b)`. */
  lemma {:induction false} ShrShr(x: nat, a: nat, b: nat)
    ensures Shr(Shr(x, a), b) == Shr(x, a + b)
  {
    if a > 0 {
      ShrShr(x / 2, a - 1, b);
    }
  }

  /** The only bit of `2^j` is bit `j`. */
  lemma {:induction false} BitOfPow2(j: nat, i: nat)
    ensures Bit(Pow2(j), i) == (if i == j then 1 else 0)
  {
    if i == 0 {
      if j > 0 {
        assert Pow2(j) % 2 == 0;
      }
    } else {
      BitShift(Pow2(j), i);
      if j == 0 {
        BitZero(i - 1);
      } else {
        assert Pow2(j) / 2 == Pow2(j - 1);
        BitOfPow2(j - 1, i - 1);
      }
    }
  }

  /** `x & 1` is the lowest bit. */
  lemma AndOne(x: nat)
    ensures And(x, 1) == Bit(x, 0)
  {
    AndLowMask(x, 1);
  }

  lemma {:induction false} OrBounded(x: nat, y: nat, k: nat)
    requires x < Pow2(k) && y < Pow2(k)
    ensures Or(x, y) < Pow2(k)
  {
    if x > 0 && y > 0 {
      OrBounded(x / 2, y / 2, k - 1);
    }
  }

  lemma {:induction false} XorBounded(x: nat, y: nat, k: nat)
    requires x < Pow2(k) && y < Pow2(k)
    ensures Xor(x, y) < Pow2(k)
  {
    if x > 0 && y > 0 {
      XorBounded(x / 2, y / 2, k - 1);
    }
  }

  /** A value below `2^k` has no bit at position `k` or above. */
  lemma {:induction false} BitAboveWidth(x: nat, k: nat, i: nat)
    requires x < Pow2(k) && k <= i
    ensures Bit(x, i) == 0
  {
    if k == 0 {
      BitZero(i);
    } else {
      BitAboveWidth(x / 2, k - 1, i - 1);
    }
  }

  /** Two values are equal iff all their bits agree. */
  lemma {:induction false} BitsDetermine(x: nat, y: nat, k: nat)
    requires x < Pow2(k) && y < Pow2(k)
    requires forall i :: 0 <= i < k ==> Bit(x, i) == Bit(y, i)
    ensures x == y
  {
    if k > 0 {
      forall i | 0 <= i < k - 1
        ensures Bit(x / 2, i) == Bit(y / 2, i)
      {
        BitShift(x, i + 1);
        BitShift(y, i + 1);
      }
      BitsDetermine(x / 2, y / 2, k - 1);
      assert Bit(x, 0) == Bit(y, 0);
    }
  }
  /** Bit `i` of `x ^ y` is set iff exactly one of the operands has it set. */
  lemma {:induction false} BitOfXor(x: nat, y: nat, i: nat)
    ensures Bit(Xor(x, y), i) == (Bit(x, i) + Bit(y, i)) % 2
    decreases i
  {
    if x == 0 || y == 0 {
      BitZero(i);
    } else if i == 0 {
      XorLowBit(x, y);
    } else {
      BitOfXor(x / 2, y / 2, i - 1);
      XorHalf(x, y);
    }
  }

  /** The lowest bit of `x ^ y`, for non-zero operands. */
  lemma XorLowBit(x: nat, y: nat)
    requires x > 0 && y > 0
    ensures Xor(x, y) % 2 == (if x % 2 != y % 2 then 1 else 0)
  {
  }

  /** Halving `x ^ y` is xor-ing the halves, for non-zero operands. */
  lemma XorHalf(x: nat, y: nat)
    requires x > 0 && y > 0
    ensures Xor(x, y) / 2 == Xor(x / 2, y / 2)
  {
  }

  /** Xor-ing with a fixed value is injective on values below `2^k`. */
  lemma XorCancel(x: nat, a: nat, b: nat, k: nat)
    requires a < Pow2(k) && b < Pow2(k)
    requires Xor(x, a) == Xor(x, b)
    ensures a == b
  {
    forall i | 0 <= i < k
      ensures Bit(a, i) == Bit(b, i)
    {
      BitOfXor(x, a, i);
      BitOfXor(x, b, i);
    }
    BitsDetermine(a, b, k);
  }
}
