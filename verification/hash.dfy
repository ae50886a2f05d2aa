/**
 * The 64-bit Fowler-Noll-Vo hash, FNV-1a variant.
 *
 * The hash starts at the offset basis and folds every byte in with
 * `h := (h ^ b) * prime`, the product reduced modulo 2^64 as `u64`
 * arithmetic does.
 */
module Hash {
  import opened Types
  import Bits

  const OFFSET_BASIS: u64 := 0xcbf2_9ce4_8422_2325
  const PRIME: u64 := 0x100_0000_01b3

  /** The inverse of the prime modulo 2^64: `PRIME * PRIME_INVERSE == 1 + PRIME_CARRY * 2^64`. */
  const PRIME_INVERSE: u64 := 0xce96_5057_aff6_957b
  const PRIME_CARRY: nat := 887285111055

  /** One round of the loop: `(h ^ b) * prime` in 64-bit arithmetic. */
  function Round(h: u64, b: u8): u64
  {
    (Bits.Xor(h, b) * PRIME) % U64_LIMIT
  }

  /** A fold of the rounds with an accumulator threaded from the front, starting at `h`. */
  function FoldFrom(h: u64, bytes: seq<u8>): u64
    decreases |bytes|
  {
    if bytes == [] then h else FoldFrom(Round(h, bytes[0]), bytes[1..])
  }

  /**
   * The hash of a byte string: the last byte's round applied to the hash of
   * the rest. This is the same as threading the rounds from the front,
   * starting at the offset basis.
   */
  function Fnv64Of(bytes: seq<u8>): (h: u64)
    ensures h == FoldFrom(OFFSET_BASIS, bytes)
    decreases |bytes|
  {
    if bytes == [] then OFFSET_BASIS
    else
      var init, last := bytes[..|bytes| - 1], bytes[|bytes| - 1];
      assert init + [last] == bytes;
      FoldSnoc(OFFSET_BASIS, init, last);
      Round(Fnv64Of(init), last)
  }

  /** `fnv64(in, len)`: only the first `len` bytes of the input are read. */
  method Fnv64(input: seq<u8>, len: u32) returns (result: u64)
    requires len <= |input|
    ensures result == Fnv64Of(input[..len])
    ensures result == FoldFrom(OFFSET_BASIS, input[..len])
    ensures len == 0 ==> result == 0xcbf29ce484222325
  {
    result := OFFSET_BASIS;
    for i := 0 to len
      invariant result == Fnv64Of(input[..i])
    {
      assert input[..i + 1][..i] == input[..i];
      result := Round(result, input[i]);
    }
  }

  /** Appending a byte runs one more round on the hash of the prefix. */
  lemma Fnv64Snoc(bytes: seq<u8>, b: u8)
    ensures Fnv64Of(bytes + [b]) == (Bits.Xor(Fnv64Of(bytes), b) * 0x100000001B3) % U64_LIMIT
  {
    assert (bytes + [b])[..|bytes|] == bytes;
  }

  /** The accumulator fold also absorbs a last byte with one round. */
  lemma {:induction false} FoldSnoc(h: u64, bytes: seq<u8>, b: u8)
    ensures FoldFrom(h, bytes + [b]) == Round(FoldFrom(h, bytes), b)
    decreases |bytes|
  {
    if bytes == [] {
      assert [b][1..] == [];
    } else {
      assert (bytes + [b])[1..] == bytes[1..] + [b];
      FoldSnoc(Round(h, bytes[0]), bytes[1..], b);
    }
  }

  /** Regrouping `x * p * i` when `p * i == c * m + 1`. */
  lemma Regroup(x: nat, p: nat, i: nat, m: nat, c: nat, q: nat, r: nat)
    requires p * i == c * m + 1 && x * p == q * m + r
    ensures r * i + (q * i) * m == x + (x * c) * m
  {
    calc {
      r * i + (q * i) * m;
      (q * m + r) * i;
      (x * p) * i;
      x * (p * i);
      x * (c * m + 1);
      x + (x * c) * m;
    }
  }

  /** Multiplying by `p` modulo `m` is undone by multiplying with an inverse `i`. */
  lemma InverseCancels(x: nat, p: nat, i: nat, m: nat, c: nat)
    requires m > 0 && p * i == c * m + 1
    ensures (((x * p) % m) * i) % m == x % m
  {
    var q := (x * p) / m;
    var r := (x * p) % m;
    assert x * p == q * m + r;
    Regroup(x, p, i, m, c, q, r);
    Bits.ModShift(r * i, x, q * i, x * c, m);
  }

  /** A round is injective in its byte: distinct bytes give distinct results. */
  lemma RoundInjective(h: u64, a: u8, b: u8)
    requires Round(h, a) == Round(h, b)
    ensures a == b
  {
    XorUndone(h, a);
    XorUndone(h, b);
    Pow2Values();
    Bits.XorCancel(h, a, b, 8);
  }

  /** The xor inside a round can be read back from the round's result. */
  lemma XorUndone(h: u64, b: u8)
    ensures (Round(h, b) * PRIME_INVERSE) % U64_LIMIT == Bits.Xor(h, b)
  {
    Pow2Of64();
    Bits.XorBounded(h, b, 64);
    PrimeInverts(Bits.Xor(h, b));
  }

  /** Multiplying by the prime modulo 2^64 is undone by its inverse. */
  lemma PrimeInverts(x: nat)
    requires x < U64_LIMIT
    ensures (((x * PRIME) % U64_LIMIT) * PRIME_INVERSE) % U64_LIMIT == x
  {
    assert PRIME * PRIME_INVERSE == PRIME_CARRY * U64_LIMIT + 1;
    InverseCancels(x, PRIME, PRIME_INVERSE, U64_LIMIT, PRIME_CARRY);
  }

  /** Two strings with a common prefix and different last bytes never collide. */
  lemma LastByteDetermined(bytes: seq<u8>, a: u8, b: u8)
    ensures Fnv64Of(bytes + [a]) == Fnv64Of(bytes + [b]) <==> a == b
  {
    if Fnv64Of(bytes + [a]) == Fnv64Of(bytes + [b]) {
      assert (bytes + [a])[..|bytes|] == bytes;
      assert (bytes + [b])[..|bytes|] == bytes;
      RoundInjective(Fnv64Of(bytes), a, b);
    }
  }
}
