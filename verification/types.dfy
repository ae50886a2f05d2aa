/**
 * Fixed-width integer ranges and pointers shared by every module of the model.
 *
 * The C/C++ sources work on `u8`/`u16`/`u32`/`u64`; here they are subset types
 * of `nat`, and every wrap-around the sources rely on is written out with an
 * explicit `% U32_LIMIT` or `% U64_LIMIT`.
 */
module Types {

  const U8_LIMIT: nat := 0x100
  const U16_LIMIT: nat := 0x1_0000
  const U32_LIMIT: nat := 0x1_0000_0000
  const U64_LIMIT: nat := 0x1_0000_0000_0000_0000

  type u8 = x: nat | x < 0x100
  type u16 = x: nat | x < 0x1_0000
  type u32 = x: nat | x < 0x1_0000_0000
  type u64 = x: nat | x < 0x1_0000_0000_0000_0000

  /** 2^k. */
  function Pow2(k: nat): (r: nat)
    ensures r >= 1
  {
    if k == 0 then 1 else 2 * Pow2(k - 1)
  }

  lemma {:induction false} Pow2Add(a: nat, b: nat)
    ensures Pow2(a + b) == Pow2(a) * Pow2(b)
  {
    if a > 0 {
      Pow2Add(a - 1, b);
    }
  }

  lemma {:induction false} Pow2Monotone(a: nat, b: nat)
    requires a <= b
    ensures Pow2(a) <= Pow2(b)
  {
    if a < b {
      Pow2Monotone(a, b - 1);
    }
  }

  lemma Pow2Of32()
    ensures Pow2(32) == U32_LIMIT
  {
    assert Pow2(8) == 256;
    Pow2Add(8, 8);
    Pow2Add(16, 16);
  }

  lemma Pow2Of64()
    ensures Pow2(64) == U64_LIMIT
  {
    Pow2Of32();
    Pow2Add(32, 32);
  }

  lemma Pow2Values()
    ensures Pow2(4) == 16 && Pow2(6) == 64 && Pow2(8) == U8_LIMIT
    ensures Pow2(12) == 0x1000 && Pow2(14) == 0x4000 && Pow2(16) == U16_LIMIT
    ensures Pow2(32) == U32_LIMIT && Pow2(48) == 0x1_0000_0000_0000
    ensures Pow2(62) == 0x4000_0000_0000_0000 && Pow2(64) == U64_LIMIT
  {
    assert Pow2(4) == 16;
    assert Pow2(8) == 256;
    Pow2Add(8, 4);
    Pow2Add(8, 8);
    Pow2Add(16, 16);
    Pow2Add(32, 16);
    Pow2Add(48, 14);
    Pow2Add(62, 2);
  }

  /**
   * A pointer: either null or an address. Addresses count elements of the
   * pointee type, so `p + n` advances by `n` elements as in C.
   */
  datatype Ptr = Null | Addr(addr: nat)

  datatype Option<T> = None | Some(value: T)

  /** `p + n`; offsetting a null pointer keeps it null. */
  function Advance(p: Ptr, n: nat): (r: Ptr)
    ensures r.Null? <==> p.Null?
    ensures p.Addr? ==> r.addr - p.addr == n
  {
    match p
    case Null => Null
    case Addr(a) => Addr(a + n)
  }
}
