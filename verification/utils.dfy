/**
 * Free-standing utilities: leading-zero counts, C-string conversion and
 * string comparison.
 */
module Utils {
  import opened Types
  import opened Slices

  /**
   * The number of zero bits above the most significant set bit of `x`,
   * seen as a `width`-bit value; `width` when `x` is zero. This is the bit
   * scan that `__builtin_clz` and `_BitScanReverse` perform.
   */
  function LeadingZeros(x: nat, width: nat): (r: nat)
    requires x < Pow2(width)
    ensures r <= width
    ensures x == 0 ==> r == width
  {
    if width == 0 then 0
    else if x >= Pow2(width - 1) then 0
    else 1 + LeadingZeros(x, width - 1)
  }

  /** For non-zero `x`, the count locates the top bit: `2^(w-1-r) <= x < 2^(w-r)`. */
  lemma {:induction false} LeadingZerosBounds(x: nat, width: nat)
    requires 0 < x < Pow2(width)
    ensures LeadingZeros(x, width) < width
    ensures Pow2(width - 1 - LeadingZeros(x, width)) <= x < Pow2(width - LeadingZeros(x, width))
  {
    if x < Pow2(width - 1) {
      LeadingZerosBounds(x, width - 1);
    }
  }

  /** The bounds pin the count down: any `k` with `2^k <= x < 2^(k+1)` gives `w - 1 - k`. */
  lemma LeadingZerosUnique(x: nat, width: nat, k: nat)
    requires x < Pow2(width) && k < width
    requires Pow2(k) <= x < Pow2(k + 1)
    ensures LeadingZeros(x, width) == width - 1 - k
  {
    LeadingZerosBounds(x, width);
    var t := width - 1 - LeadingZeros(x, width);
    if t < k {
      Pow2Monotone(t + 1, k);
    } else if t > k {
      Pow2Monotone(k + 1, t);
    }
  }

  /** `countLeadingZeros`: 32 for zero, otherwise the bit scan of the 32-bit value. */
  function CountLeadingZeros(x: u32): (r: int)
    ensures 0 <= r <= 32
    ensures r == 32 <==> x == 0
    ensures x > 0 ==> Pow2(31 - r) <= x < Pow2(32 - r)
  {
    if x == 0 then 32
    else
      Pow2Of32();
      LeadingZerosBounds(x, 32);
      LeadingZeros(x, 32)
  }

  /** `countLeadingZeros64`: 64 for zero, otherwise the bit scan of the 64-bit value. */
  function CountLeadingZeros64(x: u64): (r: int)
    ensures 0 <= r <= 64
    ensures r == 64 <==> x == 0
    ensures x > 0 ==> Pow2(63 - r) <= x < Pow2(64 - r)
  {
    if x == 0 then 64
    else
      Pow2Of64();
      LeadingZerosBounds(x, 64);
      LeadingZeros(x, 64)
  }

  /** The unit-test table: `countLeadingZeros(1 << i) == 32 - i - 1` for every `i < 32`. */
  lemma CountLeadingZerosOfPow2(i: nat)
    requires i < 32
    ensures Pow2(i) < U32_LIMIT
    ensures CountLeadingZeros(Pow2(i)) == 31 - i
  {
    Pow2Values();
    Pow2Monotone(i + 1, 32);
    LeadingZerosUnique(Pow2(i), 32, i);
  }

  /** The unit-test table: `countLeadingZeros64(1 << i) == 64 - i - 1` for every `i < 64`. */
  lemma CountLeadingZeros64OfPow2(i: nat)
    requires i < 64
    ensures Pow2(i) < U64_LIMIT
    ensures CountLeadingZeros64(Pow2(i)) == 63 - i
  {
    Pow2Values();
    Pow2Monotone(i + 1, 64);
    LeadingZerosUnique(Pow2(i), 64, i);
  }

  /**
   * `compareAsString`: a null side compares equal only to another null side,
   * whatever the lengths; otherwise equal lengths and equal bytes.
   */
  method CompareAsString(left: Slice<char>, right: Slice<char>) returns (r: bool)
    ensures left.data.Null? || right.data.Null? ==> (r <==> left.data.Null? && right.data.Null?)
    ensures left.data.Addr? && right.data.Addr? ==> (r <==> left.elems == right.elems)
  {
    if left.data.Null? || right.data.Null? {
      return left.data == right.data;
    }
    if |left.elems| != |right.elems| {
      return false;
    }
    var i: nat := 0;
    while i < |left.elems|
      invariant i <= |left.elems|
      invariant left.elems[..i] == right.elems[..i]
    {
      if left.elems[i] != right.elems[i] {
        return false;
      }
      i := i + 1;
    }
    assert left.elems == left.elems[..i];
    return true;
  }

  /**
   * `strlen`: the index of the first NUL. The bytes starting at the pointer
   * are given as `mem`, which must contain a terminator.
   */
  method Strlen(mem: seq<char>) returns (n: nat)
    requires '\0' in mem
    ensures n < |mem| && mem[n] == '\0'
    ensures forall j :: 0 <= j < n ==> mem[j] != '\0'
  {
    n := 0;
    while mem[n] != '\0'
      invariant n < |mem|
      invariant forall j :: 0 <= j < n ==> mem[j] != '\0'
      invariant '\0' in mem[n..]
      decreases |mem| - n
    {
      assert mem[n..] == [mem[n]] + mem[n + 1..];
      n := n + 1;
    }
  }

  /** A NUL with none before it is the one `strlen` finds. */
  lemma FirstNulIsStrlen(mem: seq<char>, n: nat)
    requires n < |mem| && mem[n] == '\0'
    requires forall j :: 0 <= j < n ==> mem[j] != '\0'
    ensures forall k | 0 <= k < |mem| && mem[k] == '\0' && '\0' !in mem[..k] :: k == n
  {
  }

  /**
   * `fromCStr`: a view of the string up to (not including) its terminator;
   * the `size_t` length is truncated to `u32`.
   */
  method FromCStr(s: Ptr, mem: seq<char>) returns (r: Slice<char>)
    requires s.Addr? && '\0' in mem
    ensures r.data == s && r.Valid()
    ensures |r.elems| < |mem| && r.elems == mem[..|r.elems|]
    ensures '\0' !in r.elems
    ensures forall k | 0 <= k < |mem| && mem[k] == '\0' && '\0' !in mem[..k] :: |r.elems| == k % U32_LIMIT
    ensures (exists k :: 0 <= k < |mem| && k < U32_LIMIT && mem[k] == '\0') ==> mem[|r.elems|] == '\0'
  {
    var len := Strlen(mem);
    FirstNulIsStrlen(mem, len);
    r := Slice(s, mem[..len % U32_LIMIT]);
    if exists k :: 0 <= k < |mem| && k < U32_LIMIT && mem[k] == '\0' {
      var k :| 0 <= k < |mem| && k < U32_LIMIT && mem[k] == '\0';
      assert len <= k;
    }
  }

  /**
   * `fromCStrWithZero`: as `fromCStr` but one element longer, so the view
   * includes the terminator (the `u32` increment wraps for a string of
   * exactly `2^32 - 1` characters).
   */
  method FromCStrWithZero(s: Ptr, mem: seq<char>) returns (r: Slice<char>)
    requires s.Addr? && '\0' in mem
    ensures r.data == s && r.Valid()
    ensures |r.elems| <= |mem| && r.elems == mem[..|r.elems|]
    ensures forall k | 0 <= k < |mem| && mem[k] == '\0' && '\0' !in mem[..k] :: |r.elems| == (k % U32_LIMIT + 1) % U32_LIMIT
    ensures (exists k :: 0 <= k < |mem| && k < U32_LIMIT - 1 && mem[k] == '\0') ==>
      && |r.elems| >= 1
      && r.elems[|r.elems| - 1] == '\0'
      && '\0' !in r.elems[..|r.elems| - 1]
  {
    var len := Strlen(mem);
    FirstNulIsStrlen(mem, len);
    var m := (len % U32_LIMIT + 1) % U32_LIMIT;
    assert m <= len + 1;
    r := Slice(s, mem[..m]);
    if len < U32_LIMIT - 1 {
      assert m == len + 1;
      assert r.elems[..len] == mem[..len];
    }
  }
}
