/**
 * The string key of the hash trie.
 *
 * A key carries the string (as bytes), its full hash, used when two keys are
 * compared, and a second hash, used to choose children while walking the
 * trie. The shift operator builds a new key whose second hash is the full
 * hash shifted left; it does not change the key it is applied to.
 */
module TrieStrKeys {
  import opened Types
  import opened Hash

  datatype TrieStrKey = TrieStrKey(key: seq<u8>, hash: u64, hash2: u64)

  /** `TrieStrKey(key, hash)`: both hashes are the given one. */
  function WithHash(key: seq<u8>, hash: u64): (k: TrieStrKey)
    ensures k.key == key && k.hash == hash && k.hash2 == hash
  {
    TrieStrKey(key, hash, hash)
  }

  /** `TrieStrKey()`: the empty string with both hashes zero (not the FNV hash of the empty string). */
  function Default(): (k: TrieStrKey)
    ensures k.key == [] && k.hash == 0 && k.hash2 == 0
  {
    WithHash([], 0)
  }

  /** `TrieStrKey(key)`: both hashes are the FNV-1a hash of the key's bytes. */
  function FromKey(key: seq<u8>): (k: TrieStrKey)
    ensures k.key == key && k.hash == Fnv64Of(key) && k.hash2 == k.hash
  {
    WithHash(key, Fnv64Of(key))
  }

  /**
   * `k <<= sh`: a new key whose second hash is `hash << sh` in 64 bits; the
   * string and the full hash are copied. A shift by 64 or more is undefined
   * in C++, hence the precondition.
   */
  function ShiftLeft(k: TrieStrKey, sh: u32): (r: TrieStrKey)
    requires sh < 64
    ensures r.key == k.key && r.hash == k.hash
    ensures r.hash2 == (k.hash * Pow2(sh)) % U64_LIMIT
  {
    TrieStrKey(k.key, k.hash, (k.hash * Pow2(sh)) % U64_LIMIT)
  }

  /**
   * Conversion to `u64`, the value the trie walks by: the second hash, which
   * for a key built from a string is that string's FNV-1a hash, and after a
   * shift is the full hash shifted.
   */
  function ToU64(k: TrieStrKey): (h: u64)
    ensures k == FromKey(k.key) ==> h == Fnv64Of(k.key)
    ensures forall j: TrieStrKey, sh: u32 | sh < 64 && k == ShiftLeft(j, sh) :: h == (j.hash * Pow2(sh)) % U64_LIMIT
  {
    k.hash2
  }

  /**
   * `==`: equal full hashes and equal strings, compared element by element;
   * the second hash is ignored.
   */
  predicate Equal(a: TrieStrKey, b: TrieStrKey)
    ensures Equal(a, b) <==> a.hash == b.hash && a.key == b.key
  {
    var r := a.hash == b.hash && |a.key| == |b.key| && forall i :: 0 <= i < |a.key| ==> a.key[i] == b.key[i];
    assert r ==> a.key == b.key;
    r
  }

  /** `==` is an equivalence relation. */
  lemma EqualIsEquivalence(a: TrieStrKey, b: TrieStrKey, c: TrieStrKey)
    ensures Equal(a, a)
    ensures Equal(a, b) ==> Equal(b, a)
    ensures Equal(a, b) && Equal(b, c) ==> Equal(a, c)
  {
  }

  /** Keys built from strings are equal exactly when the strings are. */
  lemma FromKeyEqual(s: seq<u8>, t: seq<u8>)
    ensures Equal(FromKey(s), FromKey(t)) <==> s == t
  {
  }

  /** A shifted key still equals the key it was made from. */
  lemma ShiftKeepsEquality(k: TrieStrKey, sh: u32)
    requires sh < 64
    ensures Equal(ShiftLeft(k, sh), k)
  {
  }

  /**
   * Shifts do not accumulate: the second hash is always recomputed from the
   * full hash, so shifting a shifted key forgets the first shift.
   */
  lemma ShiftsDoNotAccumulate(k: TrieStrKey, a: u32, b: u32)
    requires a < 64 && b < 64
    ensures ShiftLeft(ShiftLeft(k, a), b) == ShiftLeft(k, b)
  {
  }
}
