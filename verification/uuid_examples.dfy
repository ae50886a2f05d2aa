/**
 * The UUID constructors on the inputs of the repository's own unit tests,
 * with the fields and octets those tests expect.
 */
module UuidExamples {
  import opened Types
  import opened Uuids

  /** The DCE example `f81d4fae-7dec-11d0-a765-00a0c91e6bf6` of RFC 9562. */
  lemma DceVariantExample(u: Uuid, w32: u32, w1: u16, w2: u16, w3: u16, w48: u64)
    requires w32 == 0xf81d4fae && w1 == 0x7dec && w2 == 0x11d0 && w3 == 0xa765 && w48 == 0x00a0c91e6bf6
    requires u == FromParts(w32, w1, w2, w3, w48)
    ensures RawVariant(u) == 0xA && VariantOf(u) == VariantDce
  {
  }

  /** The fields `Version4` builds from the test's inputs. */
  lemma Version4Fields(a: u64, b: u16, c: u64)
    requires a == 0x919108f752d1 && b == 0x320 && c == 0x1bacf847db4148a8
    ensures High32Of48(a) == 0x919108f7 && Low16(a) == 0x52d1
    ensures 4 * 0x1000 + b % 0x1000 == 0x4320
    ensures 0x8000 + (c / 0x1_0000_0000_0000) % 0x4000 == 0x9bac && c % 0x1_0000_0000_0000 == 0xf847db4148a8
  {
  }

  lemma Version4Example(u: Uuid, a: u64, b: u16, c: u64)
    requires a == 0x919108f752d1 && b == 0x320 && c == 0x1bacf847db4148a8
    requires u == Version4(a, b, c)
    ensures VariantOf(u) == VariantDce && Version(u) == 4
    ensures FieldsOf(u) == Fields(0x919108f7, 0x52d1, 0x4320, 0x9bac, 0xf847db4148a8)
    ensures u == FromParts(0x919108f7, 0x52d1, 0x4320, 0x9bac, 0xf847db4148a8)
  {
    Version4Layout(a, b, c);
    VersionedFields(4, a, b, c);
    Version4Fields(a, b, c);
    FieldsRoundTrip(u);
  }

  /** Display octets 0 to 7 of the fields the version 4 test builds. */
  lemma Parts4Front(u: Uuid)
    requires u == FromParts(0x919108f7, 0x52d1, 0x4320, 0x9bac, 0xf847db4148a8)
    ensures Get(u, 0) == 0x91 && Get(u, 1) == 0x91 && Get(u, 2) == 0x08 && Get(u, 3) == 0xf7
    ensures Get(u, 4) == 0x52 && Get(u, 5) == 0xd1 && Get(u, 6) == 0x43 && Get(u, 7) == 0x20
  {
  }

  /** Display octets 8 and 9, the clock sequence, of the fields the version 4 test builds. */
  lemma Parts4Clock(u: Uuid)
    requires u == FromParts(0x919108f7, 0x52d1, 0x4320, 0x9bac, 0xf847db4148a8)
    ensures Get(u, 8) == 0x9b && Get(u, 9) == 0xac
  {
  }

  /** Display octets 10 to 15, the node, of the fields the version 4 test builds. */
  lemma Parts4Node(u: Uuid)
    requires u == FromParts(0x919108f7, 0x52d1, 0x4320, 0x9bac, 0xf847db4148a8)
    ensures Get(u, 10) == 0xf8 && Get(u, 11) == 0x47
    ensures Get(u, 12) == 0xdb && Get(u, 13) == 0x41 && Get(u, 14) == 0x48 && Get(u, 15) == 0xa8
  {
  }

  /** `x[0]` to `x[15]` of the version 4 test. */
  lemma Version4Octets(u: Uuid, a: u64, b: u16, c: u64)
    requires a == 0x919108f752d1 && b == 0x320 && c == 0x1bacf847db4148a8
    requires u == Version4(a, b, c)
    ensures Get(u, 0) == 0x91 && Get(u, 1) == 0x91 && Get(u, 2) == 0x08 && Get(u, 3) == 0xf7
    ensures Get(u, 4) == 0x52 && Get(u, 5) == 0xd1 && Get(u, 6) == 0x43 && Get(u, 7) == 0x20
    ensures Get(u, 8) == 0x9b && Get(u, 9) == 0xac && Get(u, 10) == 0xf8 && Get(u, 11) == 0x47
    ensures Get(u, 12) == 0xdb && Get(u, 13) == 0x41 && Get(u, 14) == 0x48 && Get(u, 15) == 0xa8
  {
    Version4Example(u, a, b, c);
    Parts4Front(u);
    Parts4Clock(u);
    Parts4Node(u);
  }

  /** The fields `Version7` builds from the test's inputs. */
  lemma Version7Fields(a: u64, b: u16, c: u64)
    requires a == 0x017F22E279B0 && b == 0xCC3 && c == 0x18C4DC0C0C07398F
    ensures High32Of48(a) == 0x017F22E2 && Low16(a) == 0x79B0
    ensures 7 * 0x1000 + b % 0x1000 == 0x7CC3
    ensures 0x8000 + (c / 0x1_0000_0000_0000) % 0x4000 == 0x98C4 && c % 0x1_0000_0000_0000 == 0xDC0C0C07398F
  {
  }

  lemma Version7Example(u: Uuid, a: u64, b: u16, c: u64)
    requires a == 0x017F22E279B0 && b == 0xCC3 && c == 0x18C4DC0C0C07398F
    requires u == Version7(a, b, c)
    ensures VariantOf(u) == VariantDce && Version(u) == 7
    ensures FieldsOf(u) == Fields(0x017F22E2, 0x79B0, 0x7CC3, 0x98C4, 0xDC0C0C07398F)
    ensures u == FromParts(0x017F22E2, 0x79B0, 0x7CC3, 0x98C4, 0xDC0C0C07398F)
  {
    Version7Layout(a, b, c);
    VersionedFields(7, a, b, c);
    Version7Fields(a, b, c);
    FieldsRoundTrip(u);
  }

  /** Display octets 0 to 7 of the fields the version 7 test builds. */
  lemma Parts7Front(u: Uuid)
    requires u == FromParts(0x017F22E2, 0x79B0, 0x7CC3, 0x98C4, 0xDC0C0C07398F)
    ensures Get(u, 0) == 0x01 && Get(u, 1) == 0x7F && Get(u, 2) == 0x22 && Get(u, 3) == 0xE2
    ensures Get(u, 4) == 0x79 && Get(u, 5) == 0xB0 && Get(u, 6) == 0x7C && Get(u, 7) == 0xC3
  {
  }

  /** Display octets 8 and 9, the clock sequence, of the fields the version 7 test builds. */
  lemma Parts7Clock(u: Uuid)
    requires u == FromParts(0x017F22E2, 0x79B0, 0x7CC3, 0x98C4, 0xDC0C0C07398F)
    ensures Get(u, 8) == 0x98 && Get(u, 9) == 0xC4
  {
  }

  /** Display octets 10 to 15, the node, of the fields the version 7 test builds. */
  lemma Parts7Node(u: Uuid)
    requires u == FromParts(0x017F22E2, 0x79B0, 0x7CC3, 0x98C4, 0xDC0C0C07398F)
    ensures Get(u, 10) == 0xDC && Get(u, 11) == 0x0C
    ensures Get(u, 12) == 0x0C && Get(u, 13) == 0x07 && Get(u, 14) == 0x39 && Get(u, 15) == 0x8F
  {
  }

  /** `x[0]` to `x[15]` of the version 7 test. */
  lemma Version7Octets(u: Uuid, a: u64, b: u16, c: u64)
    requires a == 0x017F22E279B0 && b == 0xCC3 && c == 0x18C4DC0C0C07398F
    requires u == Version7(a, b, c)
    ensures Get(u, 0) == 0x01 && Get(u, 1) == 0x7F && Get(u, 2) == 0x22 && Get(u, 3) == 0xE2
    ensures Get(u, 4) == 0x79 && Get(u, 5) == 0xB0 && Get(u, 6) == 0x7C && Get(u, 7) == 0xC3
    ensures Get(u, 8) == 0x98 && Get(u, 9) == 0xC4 && Get(u, 10) == 0xDC && Get(u, 11) == 0x0C
    ensures Get(u, 12) == 0x0C && Get(u, 13) == 0x07 && Get(u, 14) == 0x39 && Get(u, 15) == 0x8F
  {
    Version7Example(u, a, b, c);
    Parts7Front(u);
    Parts7Clock(u);
    Parts7Node(u);
  }

  /** The fields `Version8` builds from the test's inputs. */
  lemma Version8Fields(a: u64, b: u16, c: u64)
    requires a == 0x2489E9AD2EE2 && b == 0xE00 && c == 0xEC932D5F69181C0
    ensures High32Of48(a) == 0x2489E9AD && Low16(a) == 0x2EE2
    ensures 8 * 0x1000 + b % 0x1000 == 0x8E00
    ensures 0x8000 + (c / 0x1_0000_0000_0000) % 0x4000 == 0x8EC9 && c % 0x1_0000_0000_0000 == 0x32D5F69181C0
  {
  }

  lemma Version8Example(u: Uuid, a: u64, b: u16, c: u64)
    requires a == 0x2489E9AD2EE2 && b == 0xE00 && c == 0xEC932D5F69181C0
    requires u == Version8(a, b, c)
    ensures VariantOf(u) == VariantDce && Version(u) == 8
    ensures FieldsOf(u) == Fields(0x2489E9AD, 0x2EE2, 0x8E00, 0x8EC9, 0x32D5F69181C0)
    ensures u == FromParts(0x2489E9AD, 0x2EE2, 0x8E00, 0x8EC9, 0x32D5F69181C0)
  {
    Version8Layout(a, b, c);
    VersionedFields(8, a, b, c);
    Version8Fields(a, b, c);
    FieldsRoundTrip(u);
  }

  /** Display octets 0 to 7 of the fields the version 8 test builds. */
  lemma Parts8Front(u: Uuid)
    requires u == FromParts(0x2489E9AD, 0x2EE2, 0x8E00, 0x8EC9, 0x32D5F69181C0)
    ensures Get(u, 0) == 0x24 && Get(u, 1) == 0x89 && Get(u, 2) == 0xE9 && Get(u, 3) == 0xAD
    ensures Get(u, 4) == 0x2E && Get(u, 5) == 0xE2 && Get(u, 6) == 0x8E && Get(u, 7) == 0x00
  {
  }

  /** Display octets 8 and 9, the clock sequence, of the fields the version 8 test builds. */
  lemma Parts8Clock(u: Uuid)
    requires u == FromParts(0x2489E9AD, 0x2EE2, 0x8E00, 0x8EC9, 0x32D5F69181C0)
    ensures Get(u, 8) == 0x8E && Get(u, 9) == 0xC9
  {
  }

  /** Display octets 10 to 15, the node, of the fields the version 8 test builds. */
  lemma Parts8Node(u: Uuid)
    requires u == FromParts(0x2489E9AD, 0x2EE2, 0x8E00, 0x8EC9, 0x32D5F69181C0)
    ensures Get(u, 10) == 0x32 && Get(u, 11) == 0xD5
    ensures Get(u, 12) == 0xF6 && Get(u, 13) == 0x91 && Get(u, 14) == 0x81 && Get(u, 15) == 0xC0
  {
  }

  /** `x[0]` to `x[15]` of the version 8 test. */
  lemma Version8Octets(u: Uuid, a: u64, b: u16, c: u64)
    requires a == 0x2489E9AD2EE2 && b == 0xE00 && c == 0xEC932D5F69181C0
    requires u == Version8(a, b, c)
    ensures Get(u, 0) == 0x24 && Get(u, 1) == 0x89 && Get(u, 2) == 0xE9 && Get(u, 3) == 0xAD
    ensures Get(u, 4) == 0x2E && Get(u, 5) == 0xE2 && Get(u, 6) == 0x8E && Get(u, 7) == 0x00
    ensures Get(u, 8) == 0x8E && Get(u, 9) == 0xC9 && Get(u, 10) == 0x32 && Get(u, 11) == 0xD5
    ensures Get(u, 12) == 0xF6 && Get(u, 13) == 0x91 && Get(u, 14) == 0x81 && Get(u, 15) == 0xC0
  {
    Version8Example(u, a, b, c);
    Parts8Front(u);
    Parts8Clock(u);
    Parts8Node(u);
  }
}
