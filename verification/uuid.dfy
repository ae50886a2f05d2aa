/**
 * UUIDs as laid out by RFC 9562.
 *
 * A UUID is sixteen octets. The display order, the order of the
 * hex-and-dash text form, is the big-endian octet order of section 4 of
 * RFC 9562: `time_low` (4 octets), `time_mid` (2), `time_hi_and_version`
 * (2), `clock_seq_hi_and_reserved` with `clock_seq_low` (2), `node` (6).
 * The structure stores the octets in the reverse order, so that
 * `value[15 - i]` is display octet `i`.
 *
 * The source's shifts and masks on unsigned values, `(x >> k) & (2^m - 1)`,
 * are written as `(x / 2^k) % 2^m`; `Bits.ShrIsDiv` and `Bits.AndLowMask`
 * prove the two forms equal.
 */
module Uuids {
  import opened Types
  import Bits
  import Seqs

  datatype Variant = VariantUnknown | VariantNcs | VariantDce | VariantMs

  type Octets = s: seq<u8> | |s| == 16 witness [0, 0, 0, 0, 0, 0, 0, 0, 0, 0, 0, 0, 0, 0, 0, 0]

  datatype Uuid = Uuid(value: Octets)

  /** Octet `k` of `x`, counted from the least significant. */
  function Octet(x: nat, k: nat): u8
  {
    if k == 0 then x % 256 else Octet(x / 256, k - 1)
  }

  /** Octet `k` is the source's `(x >> 8k) & 0xFF`. */
  lemma {:induction false} OctetIsShiftMask(x: nat, k: nat)
    ensures Octet(x, k) == Bits.And(Bits.Shr(x, 8 * k), 0xFF)
  {
    OctetIsQuotient(x, k);
    Bits.ShrIsDiv(x, 8 * k);
    Pow2Values();
    Bits.AndLowMask(x / Pow2(8 * k), 8);
  }

  lemma {:induction false} OctetIsQuotient(x: nat, k: nat)
    ensures Octet(x, k) == (x / Pow2(8 * k)) % 256
  {
    if k == 0 {
      assert Pow2(0) == 1;
    } else {
      OctetIsQuotient(x / 256, k - 1);
      Bits.DivDiv(x, 256, Pow2(8 * (k - 1)));
      Pow2Octet(k);
    }
  }

  /**
   * `Uuid(w32, w1, w2, w3, w48)`: the five fields, each stored least
   * significant octet first, `node` first; the top 16 bits of `w48` are
   * dropped. Octet `k` of a field is `(w >> 8k) & 0xFF`, written with the
   * divisor `2^8k`.
   */
  function FromParts(w32: u32, w1: u16, w2: u16, w3: u16, w48: u64): (u: Uuid)
    ensures Get(u, 6) == w2 / 256 && Get(u, 8) == w3 / 256
  {
    Uuid([
      w48 % 256, (w48 / 0x100) % 256, (w48 / 0x1_0000) % 256,
      (w48 / 0x100_0000) % 256, (w48 / 0x1_0000_0000) % 256, (w48 / 0x100_0000_0000) % 256,
      w3 % 256, (w3 / 0x100) % 256,
      w2 % 256, (w2 / 0x100) % 256,
      w1 % 256, (w1 / 0x100) % 256,
      w32 % 256, (w32 / 0x100) % 256, (w32 / 0x1_0000) % 256, (w32 / 0x100_0000) % 256
    ])
  }

  /** The six octet divisors as powers of two. */
  lemma OctetDivisors()
    ensures Pow2(0) == 1 && Pow2(8) == 0x100 && Pow2(16) == 0x1_0000 && Pow2(24) == 0x100_0000
    ensures Pow2(32) == 0x1_0000_0000 && Pow2(40) == 0x100_0000_0000
  {
    Pow2Values();
    Pow2Add(16, 8);
    Pow2Add(32, 8);
  }

  /** The octets stored by the five-part constructor are the fields' octets, least significant first. */
  lemma StoredOctets(x: nat)
    ensures Octet(x, 0) == x % 256 && Octet(x, 1) == (x / 0x100) % 256
    ensures Octet(x, 2) == (x / 0x1_0000) % 256 && Octet(x, 3) == (x / 0x100_0000) % 256
    ensures Octet(x, 4) == (x / 0x1_0000_0000) % 256 && Octet(x, 5) == (x / 0x100_0000_0000) % 256
  {
    OctetDivisors();
    OctetIsQuotient(x, 0);
    OctetIsQuotient(x, 1);
    OctetIsQuotient(x, 2);
    OctetIsQuotient(x, 3);
    OctetIsQuotient(x, 4);
    OctetIsQuotient(x, 5);
  }

  /** `Uuid()`: the nil UUID, all sixteen octets zero. */
  function Default(): (u: Uuid)
    ensures forall i | 0 <= i < 16 :: u.value[i] == 0
  {
    FromParts(0, 0, 0, 0, 0)
  }

  /** `operator[](i)`: display octet `i`, read from the back of the storage. */
  function Get(u: Uuid, i: u32): (b: u8)
    requires i < 16
  {
    u.value[15 - i]
  }

  /** The sixteen octets in display order. */
  function Display(u: Uuid): (d: seq<u8>)
    ensures |d| == 16 && forall i: u32 | i < 16 :: d[i] == Get(u, i)
  {
    var v := u.value;
    [v[15], v[14], v[13], v[12], v[11], v[10], v[9], v[8], v[7], v[6], v[5], v[4], v[3], v[2], v[1], v[0]]
  }

  /** The display order, `operator[]` read from 0 to 15, is the storage order reversed. */
  lemma DisplayIsReversed(u: Uuid)
    ensures Display(u) == Seqs.Reversed(u.value)
  {
    forall i | 0 <= i < 16
      ensures Display(u)[i] == Seqs.Reversed(u.value)[i]
    {
      Seqs.ReversedIndex(u.value, i);
    }
  }

  /** `==`: the sixteen stored octets compared one by one, which is equality of UUIDs. */
  predicate Equal(a: Uuid, b: Uuid)
    ensures Equal(a, b) <==> a == b
  {
    assert (forall i | 0 <= i < 16 :: a.value[i] == b.value[i]) ==> a.value == b.value;
    forall i | 0 <= i < 16 :: a.value[i] == b.value[i]
  }

  /** UUIDs are equal, in `==` and as values, exactly when they display alike. */
  lemma EqualIff(a: Uuid, b: Uuid)
    ensures Equal(a, b) <==> Display(a) == Display(b)
    ensures a == b <==> Display(a) == Display(b)
  {
    if Display(a) == Display(b) {
      forall i | 0 <= i < 16
        ensures a.value[i] == b.value[i]
      {
        assert Get(a, 15 - i) == Get(b, 15 - i);
      }
      assert a.value == b.value;
    }
  }

  /** The number a sequence of octets spells, most significant first. */
  function BigEndian(s: seq<u8>): nat
    decreases |s|
  {
    if s == [] then 0 else BigEndian(s[..|s| - 1]) * 256 + s[|s| - 1]
  }

  /** The low `n` octets of `x`, most significant first. */
  function OctetsBE(x: nat, n: nat): (s: seq<u8>)
    ensures |s| == n
  {
    if n == 0 then [] else OctetsBE(x / 256, n - 1) + [x % 256]
  }

  lemma Pow2Octet(n: nat)
    requires n > 0
    ensures Pow2(8 * n) == 256 * Pow2(8 * (n - 1))
  {
    assert Pow2(8) == 256;
    assert 8 * n == 8 + 8 * (n - 1);
    Pow2Add(8, 8 * (n - 1));
  }

  /** Reading back the low `n` octets of `x` gives `x` modulo `2^8n`. */
  lemma {:induction false} BigEndianOfOctets(x: nat, n: nat)
    ensures BigEndian(OctetsBE(x, n)) == x % Pow2(8 * n)
  {
    if n > 0 {
      var s := OctetsBE(x, n);
      assert s[..n - 1] == OctetsBE(x / 256, n - 1);
      BigEndianOfOctets(x / 256, n - 1);
      Pow2Octet(n);
      Bits.ModProduct(x, 256, Pow2(8 * (n - 1)));
    }
  }

  /** A sequence of octets is the octets of the number it spells, and that number fits. */
  lemma {:induction false} OctetsOfBigEndian(s: seq<u8>)
    ensures OctetsBE(BigEndian(s), |s|) == s
    ensures BigEndian(s) < Pow2(8 * |s|)
    decreases |s|
  {
    if s != [] {
      var n := |s|;
      var init := s[..n - 1];
      var b := BigEndian(s);
      OctetsOfBigEndian(init);
      Bits.ModUnique(b, 256, BigEndian(init), s[n - 1]);
      Pow2Octet(n);
      Bits.MixedBound(256, Pow2(8 * (n - 1)), BigEndian(init), s[n - 1]);
      assert init + [s[n - 1]] == s;
    }
  }

  /** Element `j` of the big-endian octets is octet `n - 1 - j` of the number. */
  lemma {:induction false} OctetsIndex(x: nat, n: nat, j: nat)
    requires j < n
    ensures OctetsBE(x, n)[j] == Octet(x, n - 1 - j)
  {
    if j < n - 1 {
      OctetsIndex(x / 256, n - 1, j);
    }
  }

  /** All `n` big-endian octets at once. */
  lemma OctetsAll(x: nat, n: nat)
    ensures forall j | 0 <= j < n :: OctetsBE(x, n)[j] == Octet(x, n - 1 - j)
  {
    forall j | 0 <= j < n
      ensures OctetsBE(x, n)[j] == Octet(x, n - 1 - j)
    {
      OctetsIndex(x, n, j);
    }
  }

  /** The five-part constructor shows each field big-endian, in field order. */
  lemma DisplayOfParts(w32: u32, w1: u16, w2: u16, w3: u16, w48: u64)
    ensures Display(FromParts(w32, w1, w2, w3, w48))
      == OctetsBE(w32, 4) + OctetsBE(w1, 2) + OctetsBE(w2, 2) + OctetsBE(w3, 2) + OctetsBE(w48, 6)
  {
    StoredOctets(w32);
    StoredOctets(w1);
    StoredOctets(w2);
    StoredOctets(w3);
    StoredOctets(w48);
    OctetsAll(w32, 4);
    OctetsAll(w1, 2);
    OctetsAll(w2, 2);
    OctetsAll(w3, 2);
    OctetsAll(w48, 6);
  }

  /** The five fields of section 4 of RFC 9562, read from the display octets. */
  datatype Fields = Fields(timeLow: nat, timeMid: nat, timeHiAndVersion: nat, clockSeq: nat, node: nat)

  function FieldsOf(u: Uuid): Fields
  {
    var d := Display(u);
    Fields(BigEndian(d[..4]), BigEndian(d[4..6]), BigEndian(d[6..8]), BigEndian(d[8..10]), BigEndian(d[10..]))
  }

  /** The fields of a UUID whose display octets are split at the field borders. */
  lemma FieldsOfSplit(u: Uuid, a: seq<u8>, b: seq<u8>, c: seq<u8>, d: seq<u8>, e: seq<u8>)
    requires |a| == 4 && |b| == 2 && |c| == 2 && |d| == 2 && |e| == 6
    requires Display(u) == a + b + c + d + e
    ensures FieldsOf(u) == Fields(BigEndian(a), BigEndian(b), BigEndian(c), BigEndian(d), BigEndian(e))
  {
    var s := Display(u);
    assert s[..4] == a && s[4..6] == b && s[6..8] == c && s[8..10] == d && s[10..] == e;
  }

  /** Reading back `n` octets, with `2^8n` given as `m`. */
  lemma ReadBack(x: nat, n: nat, m: nat)
    requires m == Pow2(8 * n)
    ensures BigEndian(OctetsBE(x, n)) == x % m
  {
    BigEndianOfOctets(x, n);
  }

  /** Reading back the octets of a field that fits in them gives the field. */
  lemma ReadBackFits(x: nat, n: nat, m: nat)
    requires m == Pow2(8 * n) && x < m
    ensures BigEndian(OctetsBE(x, n)) == x
  {
    BigEndianOfOctets(x, n);
    Bits.ModUnique(x, m, 0, x);
  }

  /** The fields of the five-part constructor, as the numbers its field octets spell. */
  lemma FieldsOfParts(w32: u32, w1: u16, w2: u16, w3: u16, w48: u64)
    ensures FieldsOf(FromParts(w32, w1, w2, w3, w48))
      == Fields(BigEndian(OctetsBE(w32, 4)), BigEndian(OctetsBE(w1, 2)), BigEndian(OctetsBE(w2, 2)),
                BigEndian(OctetsBE(w3, 2)), BigEndian(OctetsBE(w48, 6)))
  {
    DisplayOfParts(w32, w1, w2, w3, w48);
    FieldsOfSplit(FromParts(w32, w1, w2, w3, w48),
      OctetsBE(w32, 4), OctetsBE(w1, 2), OctetsBE(w2, 2), OctetsBE(w3, 2), OctetsBE(w48, 6));
  }

  /** Each field's octets spell the field back, `node` cut to 48 bits. */
  lemma ReadBackParts(w32: u32, w1: u16, w2: u16, w3: u16, w48: u64)
    ensures BigEndian(OctetsBE(w32, 4)) == w32 && BigEndian(OctetsBE(w1, 2)) == w1
    ensures BigEndian(OctetsBE(w2, 2)) == w2 && BigEndian(OctetsBE(w3, 2)) == w3
    ensures BigEndian(OctetsBE(w48, 6)) == w48 % 0x1_0000_0000_0000
  {
    Pow2Values();
    ReadBackFits(w32, 4, U32_LIMIT);
    ReadBackFits(w1, 2, U16_LIMIT);
    ReadBackFits(w2, 2, U16_LIMIT);
    ReadBackFits(w3, 2, U16_LIMIT);
    ReadBack(w48, 6, 0x1_0000_0000_0000);
  }

  /** The five-part constructor followed by reading the fields gives the fields back, `node` cut to 48 bits. */
  lemma PartsRoundTrip(w32: u32, w1: u16, w2: u16, w3: u16, w48: u64)
    ensures FieldsOf(FromParts(w32, w1, w2, w3, w48)) == Fields(w32, w1, w2, w3, w48 % 0x1_0000_0000_0000)
  {
    FieldsOfParts(w32, w1, w2, w3, w48);
    ReadBackParts(w32, w1, w2, w3, w48);
  }

  /** Each field of a UUID fits its width, and its octets are the display octets it was read from. */
  lemma FieldsFit(u: Uuid)
    ensures var d := Display(u); var f := FieldsOf(u);
      && f.timeLow < U32_LIMIT && f.timeMid < U16_LIMIT && f.timeHiAndVersion < U16_LIMIT
      && f.clockSeq < U16_LIMIT && f.node < 0x1_0000_0000_0000
      && OctetsBE(f.timeLow, 4) == d[..4] && OctetsBE(f.timeMid, 2) == d[4..6]
      && OctetsBE(f.timeHiAndVersion, 2) == d[6..8] && OctetsBE(f.clockSeq, 2) == d[8..10]
      && OctetsBE(f.node, 6) == d[10..]
  {
    var d := Display(u);
    Pow2Values();
    OctetsOfBigEndian(d[..4]);
    OctetsOfBigEndian(d[4..6]);
    OctetsOfBigEndian(d[6..8]);
    OctetsOfBigEndian(d[8..10]);
    OctetsOfBigEndian(d[10..]);
  }

  /** Every UUID is the five-part construction of its own fields. */
  lemma FieldsRoundTrip(u: Uuid)
    ensures var f := FieldsOf(u);
      && f.timeLow < U32_LIMIT && f.timeMid < U16_LIMIT && f.timeHiAndVersion < U16_LIMIT
      && f.clockSeq < U16_LIMIT && f.node < 0x1_0000_0000_0000
      && FromParts(f.timeLow, f.timeMid, f.timeHiAndVersion, f.clockSeq, f.node) == u
  {
    var d := Display(u);
    var f := FieldsOf(u);
    FieldsFit(u);
    var v := FromParts(f.timeLow, f.timeMid, f.timeHiAndVersion, f.clockSeq, f.node);
    DisplayOfParts(f.timeLow, f.timeMid, f.timeHiAndVersion, f.clockSeq, f.node);
    assert d == d[..4] + d[4..6] + d[6..8] + d[8..10] + d[10..];
    EqualIff(v, u);
  }

  /** `rawVariant()`: `(value[7] >> 4) & 0xF`, the top four bits of display octet 8. */
  function RawVariant(u: Uuid): (rv: nat)
    ensures rv < 16 && rv == Get(u, 8) / 16
  {
    (u.value[7] / 16) % 16
  }

  /**
   * `variant()`: the leading bits of the raw variant, tested with the
   * source's masks; this is the table of section 4.1 of RFC 9562 applied to
   * display octet 8.
   */
  function VariantOf(u: Uuid): (v: Variant)
    ensures v == VariantOfOctet(Get(u, 8))
  {
    var rv := RawVariant(u);
    MaskNcs(rv);
    MaskDceIfHigh(rv);
    MaskMsIfHigh(rv);
    if Bits.And(rv, 0x8) == 0x0 then VariantNcs
    else if Bits.And(rv, 0xC) == 0x8 then VariantDce
    else if Bits.And(rv, 0xE) == 0xC then VariantMs
    else VariantUnknown
  }

  /** The variant table of section 4.1 of RFC 9562: `0xxx`, `10xx`, `110x`, `111x`. */
  function VariantOfOctet(b: u8): Variant
  {
    if b < 0x80 then VariantNcs
    else if b < 0xC0 then VariantDce
    else if b < 0xE0 then VariantMs
    else VariantUnknown
  }

  /** The first mask tests for a leading `0`. */
  lemma MaskNcs(rv: nat)
    requires rv < 16
    ensures (Bits.And(rv, 0x8) == 0x0) == (rv < 8)
  {
    if rv < 8 {
      MaskNcsLow(rv);
    } else {
      MaskNcsHigh(rv);
    }
  }

  lemma MaskNcsLow(rv: nat)
    requires rv < 8
    ensures Bits.And(rv, 0x8) == 0x0
  {
    if rv == 0 {} else if rv == 1 {} else if rv == 2 {} else if rv == 3 {}
    else if rv == 4 {} else if rv == 5 {} else if rv == 6 {} else {}
  }

  lemma MaskNcsHigh(rv: nat)
    requires 8 <= rv < 16
    ensures Bits.And(rv, 0x8) == 0x8
  {
    if rv == 8 {} else if rv == 9 {} else if rv == 10 {} else if rv == 11 {}
    else if rv == 12 {} else if rv == 13 {} else if rv == 14 {} else {}
  }

  /** The second mask tests for a leading `10`. */
  lemma MaskDce(rv: nat)
    requires 8 <= rv < 16
    ensures (Bits.And(rv, 0xC) == 0x8) == (rv < 12)
  {
    if rv == 8 {} else if rv == 9 {} else if rv == 10 {} else if rv == 11 {}
    else if rv == 12 {} else if rv == 13 {} else if rv == 14 {} else {}
  }

  /** The third mask tests for a leading `110`. */
  lemma MaskMs(rv: nat)
    requires 12 <= rv < 16
    ensures (Bits.And(rv, 0xE) == 0xC) == (rv < 14)
  {
    if rv == 12 {} else if rv == 13 {} else if rv == 14 {} else {}
  }

  lemma MaskDceIfHigh(rv: nat)
    requires rv < 16
    ensures 8 <= rv ==> ((Bits.And(rv, 0xC) == 0x8) == (rv < 12))
  {
    if rv >= 8 {
      MaskDce(rv);
    }
  }

  lemma MaskMsIfHigh(rv: nat)
    requires rv < 16
    ensures 12 <= rv ==> ((Bits.And(rv, 0xE) == 0xC) == (rv < 14))
  {
    if rv >= 12 {
      MaskMs(rv);
    }
  }

  /** `version()`: `(value[9] >> 4) & 0xF`, the top four bits of display octet 6; only meaningful for the DCE variant. */
  function Version(u: Uuid): (v: nat)
    requires VariantOf(u) == VariantDce
    ensures v < 16 && v == Get(u, 6) / 16
  {
    (u.value[9] / 16) % 16
  }

  /** `(x >> 16) & 0xFFFFFFFF`. */
  function High32Of48(x: u64): u32
  {
    (x / 0x1_0000) % 0x1_0000_0000
  }

  /** `x & 0xFFFF`. */
  function Low16(x: u64): u16
  {
    x % 0x1_0000
  }

  /** `x & 0xFFFFFFFFFFFF`. */
  function Low48(x: u64): u64
  {
    x % 0x1_0000_0000_0000
  }

  /** `(v << 12) | (bits & 0x0FFF)`: the version nibble over twelve bits of input. */
  function VersionField(version: nat, bits: u16): (w: u16)
    requires version < 16
    ensures w == version * 0x1000 + bits % 0x1000
  {
    Pow2Values();
    Pow2Add(12, 0);
    Bits.OrDisjoint(version, bits % 0x1000, 12);
    assert Pow2(12) == 0x1000 by {
      Pow2Add(4, 8);
    }
    Bits.Or(version * 0x1000, bits % 0x1000)
  }

  /** `0x8000 | ((x >> 48) & 0x3FFF)`: the variant bits `10` over fourteen bits of input. */
  function ClockSeqField(x: u64): (w: u16)
    ensures w == 0x8000 + (x / 0x1_0000_0000_0000) % 0x4000
  {
    assert Pow2(15) == 0x8000 by {
      Pow2Values();
      Pow2Add(14, 1);
    }
    Bits.OrDisjoint(1, (x / 0x1_0000_0000_0000) % 0x4000, 15);
    Bits.Or(0x8000, (x / 0x1_0000_0000_0000) % 0x4000)
  }

  /** The shape shared by the version 4, 7 and 8 constructors. */
  function Versioned(version: nat, a: u64, b: u16, c: u64): Uuid
    requires version < 16
  {
    FromParts(High32Of48(a), Low16(a), VersionField(version, b), ClockSeqField(c), Low48(c))
  }

  /** `Uuid(Version4{}, randomA, randomB, randomC)`, section 5.4 of RFC 9562. */
  function Version4(randomA: u64, randomB: u16, randomC: u64): (u: Uuid)
    ensures VariantOf(u) == VariantDce && Version(u) == 4
  {
    VersionedLayout(4, randomA, randomB, randomC);
    Versioned(4, randomA, randomB, randomC)
  }

  /** `Uuid(Version7{}, unixTimestampMs, randomA, randomB)`, section 5.7 of RFC 9562. */
  function Version7(unixTimestampMs: u64, randomA: u16, randomB: u64): (u: Uuid)
    ensures VariantOf(u) == VariantDce && Version(u) == 7
  {
    VersionedLayout(7, unixTimestampMs, randomA, randomB);
    Versioned(7, unixTimestampMs, randomA, randomB)
  }

  /** `Uuid(Version8{}, customA, customB, customC)`, section 5.8 of RFC 9562. */
  function Version8(customA: u64, customB: u16, customC: u64): (u: Uuid)
    ensures VariantOf(u) == VariantDce && Version(u) == 8
  {
    VersionedLayout(8, customA, customB, customC);
    Versioned(8, customA, customB, customC)
  }

  /** Two numbers spelled one after the other. */
  lemma {:induction false} BigEndianConcat(x: seq<u8>, y: seq<u8>)
    ensures BigEndian(x + y) == BigEndian(x) * Pow2(8 * |y|) + BigEndian(y)
    decreases |y|
  {
    if y == [] {
      assert x + y == x;
    } else {
      var n := |y|;
      var y0 := y[..n - 1];
      assert (x + y)[..|x + y| - 1] == x + y0;
      assert (x + y)[|x + y| - 1] == y[n - 1];
      BigEndianConcat(x, y0);
      Pow2Octet(n);
      ShiftOctet(BigEndian(x), Pow2(8 * (n - 1)), BigEndian(y0), y[n - 1]);
    }
  }

  /** One more octet shifts the high part by another 256. */
  lemma ShiftOctet(hi: nat, p: nat, lo: nat, last: nat)
    ensures (hi * p + lo) * 256 + last == hi * (256 * p) + (lo * 256 + last)
  {
  }

  /** The fields of a versioned UUID: everything but the version and variant bits comes from the inputs. */
  lemma VersionedFields(version: nat, a: u64, b: u16, c: u64)
    requires version < 16
    ensures FieldsOf(Versioned(version, a, b, c))
      == Fields(High32Of48(a), Low16(a), version * 0x1000 + b % 0x1000,
                0x8000 + (c / 0x1_0000_0000_0000) % 0x4000, c % 0x1_0000_0000_0000)
  {
    var w2 := VersionField(version, b);
    var w3 := ClockSeqField(c);
    assert Versioned(version, a, b, c) == FromParts(High32Of48(a), Low16(a), w2, w3, Low48(c));
    PartsRoundTrip(High32Of48(a), Low16(a), w2, w3, Low48(c));
    Bits.ModUnique(Low48(c), 0x1_0000_0000_0000, 0, Low48(c));
  }

  /** A versioned UUID has the DCE variant: display octet 8 starts with the bits `10`. */
  lemma VersionedVariant(version: nat, a: u64, b: u16, c: u64)
    requires version < 16
    ensures VariantOf(Versioned(version, a, b, c)) == VariantDce
  {
    var w3 := ClockSeqField(c);
    var u := FromParts(High32Of48(a), Low16(a), VersionField(version, b), w3, Low48(c));
    assert 0x80 <= w3 / 256 < 0xC0;
  }

  /** A versioned UUID carries its version in the top nibble of display octet 6. */
  lemma VersionedVersion(version: nat, a: u64, b: u16, c: u64)
    requires version < 16
    ensures var u := Versioned(version, a, b, c);
      VariantOf(u) == VariantDce && Version(u) == version
  {
    var w2 := VersionField(version, b);
    var u := FromParts(High32Of48(a), Low16(a), w2, ClockSeqField(c), Low48(c));
    VersionedVariant(version, a, b, c);
    TopNibble(w2, version, b % 0x1000);
  }

  /** The top nibble of a 16-bit field `hi * 0x1000 + lo`. */
  lemma TopNibble(w: nat, hi: nat, lo: nat)
    requires w == hi * 0x1000 + lo && lo < 0x1000
    ensures (w / 256) / 16 == hi
  {
    Bits.DivDiv(w, 256, 16);
    Bits.ModUnique(w, 0x1000, hi, lo);
  }

  /** The first six display octets spell the time fields, `time_low` first. */
  lemma TimeOctets(u: Uuid)
    ensures BigEndian(Display(u)[..6]) == FieldsOf(u).timeLow * 0x1_0000 + FieldsOf(u).timeMid
  {
    var d := Display(u);
    assert d[..6] == d[..4] + d[4..6];
    BigEndianConcat(d[..4], d[4..6]);
    Pow2Values();
  }

  /** The first six display octets of a versioned UUID spell the low 48 bits of its first input. */
  lemma VersionedTime(version: nat, a: u64, b: u16, c: u64)
    requires version < 16
    ensures BigEndian(Display(Versioned(version, a, b, c))[..6]) == a % 0x1_0000_0000_0000
  {
    TimeOctets(Versioned(version, a, b, c));
    VersionedFields(version, a, b, c);
    Bits.ModProduct(a, 0x1_0000, 0x1_0000_0000);
  }

  /**
   * A versioned UUID has the DCE variant and the given version, and its
   * first six display octets spell the low 48 bits of the first input.
   */
  lemma VersionedLayout(version: nat, a: u64, b: u16, c: u64)
    requires version < 16
    ensures var u := Versioned(version, a, b, c);
      && VariantOf(u) == VariantDce
      && Version(u) == version
      && BigEndian(Display(u)[..6]) == a % 0x1_0000_0000_0000
  {
    VersionedVersion(version, a, b, c);
    VersionedTime(version, a, b, c);
  }

  /** Two numbers agree below `lo * hi` exactly when their low digit and next digit agree. */
  lemma Digits(x: nat, y: nat, lo: nat, hi: nat)
    requires lo > 0 && hi > 0
    ensures x % (lo * hi) == y % (lo * hi) <==> (x / lo) % hi == (y / lo) % hi && x % lo == y % lo
  {
    Bits.ModProduct(x, lo, hi);
    Bits.ModProduct(y, lo, hi);
    if x % (lo * hi) == y % (lo * hi) {
      Bits.ModUnique(x % (lo * hi), lo, (x / lo) % hi, x % lo);
      Bits.ModUnique(y % (lo * hi), lo, (y / lo) % hi, y % lo);
    }
  }

  /**
   * A versioned UUID keeps exactly 122 bits of its inputs: the low 48 bits
   * of the first, the low 12 of the second and the low 62 of the third.
   * Two versioned UUIDs of one version are equal exactly when those bits are.
   */
  lemma VersionedInjective(version: nat, a: u64, b: u16, c: u64, a2: u64, b2: u16, c2: u64)
    requires version < 16
    ensures Versioned(version, a, b, c) == Versioned(version, a2, b2, c2)
      <==> && a % 0x1_0000_0000_0000 == a2 % 0x1_0000_0000_0000
           && b % 0x1000 == b2 % 0x1000
           && c % 0x4000_0000_0000_0000 == c2 % 0x4000_0000_0000_0000
  {
    var u := Versioned(version, a, b, c);
    var v := Versioned(version, a2, b2, c2);
    VersionedFields(version, a, b, c);
    VersionedFields(version, a2, b2, c2);
    FieldsRoundTrip(u);
    FieldsRoundTrip(v);
    Digits(a, a2, 0x1_0000, 0x1_0000_0000);
    Digits(c, c2, 0x1_0000_0000_0000, 0x4000);
  }

  /** Version 4: version 4, the DCE variant, and 122 bits taken from the inputs. */
  lemma Version4Layout(randomA: u64, randomB: u16, randomC: u64)
    ensures var u := Version4(randomA, randomB, randomC);
      && VariantOf(u) == VariantDce && Version(u) == 4
      && FieldsOf(u) == Fields(High32Of48(randomA), Low16(randomA), 0x4000 + randomB % 0x1000,
                              0x8000 + (randomC / 0x1_0000_0000_0000) % 0x4000, randomC % 0x1_0000_0000_0000)
  {
    VersionedLayout(4, randomA, randomB, randomC);
    VersionedFields(4, randomA, randomB, randomC);
  }

  /** Version 7: the first six display octets are the millisecond timestamp, big-endian. */
  lemma Version7Layout(unixTimestampMs: u64, randomA: u16, randomB: u64)
    ensures var u := Version7(unixTimestampMs, randomA, randomB);
      && VariantOf(u) == VariantDce && Version(u) == 7
      && BigEndian(Display(u)[..6]) == unixTimestampMs % 0x1_0000_0000_0000
      && FieldsOf(u).timeHiAndVersion == 0x7000 + randomA % 0x1000
  {
    VersionedLayout(7, unixTimestampMs, randomA, randomB);
    VersionedFields(7, unixTimestampMs, randomA, randomB);
  }

  /** Version 8: version 8 and the DCE variant; the rest is custom data. */
  lemma Version8Layout(customA: u64, customB: u16, customC: u64)
    ensures var u := Version8(customA, customB, customC);
      && VariantOf(u) == VariantDce && Version(u) == 8
      && FieldsOf(u).timeHiAndVersion == 0x8000 + customB % 0x1000
  {
    VersionedLayout(8, customA, customB, customC);
    VersionedFields(8, customA, customB, customC);
  }
}
