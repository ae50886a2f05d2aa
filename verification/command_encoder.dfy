/**
 * The delta encoder for commands with several fields.
 *
 * A command's fields live in the caller's state. Setting a field to a new
 * value records the field's flag in a 32-bit dirty mask; encoding a command
 * pushes the mask's bytes and then, field by field in flag order, the bytes
 * of each field whose flag is set, shifting the mask right by one per field.
 * The output is a byte `SegmentArray` grown in an arena.
 *
 * A value's byte image (what `pushBytesOf` and `memcmp` see) is passed in as
 * a sequence of bytes; the mask's own image is its four octets, least
 * significant first, as on a little-endian host.
 */
module CommandEncoders {
  import opened Types
  import Bits
  import opened Arenas
  import opened Slices
  import SA = SegmentArrays

  /** The element layout of the output buffer: `u8`. */
  const BYTE: Layout := Layout(1, 0)

  /** `CommandEncoder<FieldEnum>`: the output bytes and the dirty mask. */
  datatype Encoder = Encoder(buffer: SA.SegmentArray<u8>, dirtyMask: u32)
  {
    predicate Valid()
    {
      buffer.Valid() && buffer.Packed() && buffer.layout == BYTE
    }
  }

  /** The bytes pushed so far, in push order. */
  function Stream(e: Encoder): seq<u8>
    requires e.Valid()
  {
    SA.Elements(e.buffer)
  }

  /** Flag `i` of a mask. */
  predicate Dirty(mask: nat, i: nat)
  {
    Bits.Bit(mask, i) == 1
  }

  /** `CommandEncoder(arena)`: nothing pushed and no flag set. */
  function NewEncoder(arena: Arena): (e: Encoder)
    requires arena.Valid()
    ensures e.Valid() && Stream(e) == [] && e.dirtyMask == 0
    ensures forall i :: !Dirty(e.dirtyMask, i)
  {
    ZeroHasNoFlag();
    Encoder(SA.NewSegmentArray(arena, BYTE), 0)
  }

  lemma ZeroHasNoFlag()
    ensures forall i :: !Dirty(0, i)
  {
    forall i
      ensures !Dirty(0, i)
    {
      Bits.BitZero(i);
    }
  }

  /** `_dirtyMask |= 1u << df`: flag `df` is added and the others are kept. */
  function MarkDirty(mask: u32, df: nat): (r: u32)
    requires df < 32
    ensures forall i :: Dirty(r, i) <==> Dirty(mask, i) || i == df
  {
    Pow2Of32();
    Pow2Monotone(df + 1, 32);
    Bits.OrBounded(mask, Pow2(df), 32);
    forall i
      ensures Dirty(Bits.Or(mask, Pow2(df)), i) <==> Dirty(mask, i) || i == df
    {
      Bits.BitOfOr(mask, Pow2(df), i);
      Bits.BitOfPow2(df, i);
    }
    Bits.Or(mask, Pow2(df))
  }

  /**
   * `set<DF>(field, newValue)`: a different value overwrites the field and
   * sets flag `df`; an equal one changes nothing. With `T` a byte image this
   * is the `memcmp` overload.
   */
  function Set<T(==)>(e: Encoder, df: nat, field: T, newValue: T): (r: (Encoder, T))
    requires df < 32
    ensures r.1 == newValue && r.0.buffer == e.buffer
    ensures newValue == field ==> r.0 == e
    ensures forall i :: Dirty(r.0.dirtyMask, i) <==> Dirty(e.dirtyMask, i) || (i == df && newValue != field)
  {
    if newValue != field then (e.(dirtyMask := MarkDirty(e.dirtyMask, df)), newValue)
    else (e, field)
  }

  /**
   * `set<DF>(array, idx, value)`: element `idx` of an array field has flag
   * `df + idx`; only that element and that flag can change.
   */
  function SetElement<T(==)>(e: Encoder, df: nat, field: seq<T>, idx: nat, value: T): (r: (Encoder, seq<T>))
    requires idx < |field| && df + idx < 32
    ensures |r.1| == |field| && r.1[idx] == value
    ensures forall j | 0 <= j < |field| && j != idx :: r.1[j] == field[j]
    ensures r.0.buffer == e.buffer
    ensures forall i :: Dirty(r.0.dirtyMask, i) <==> Dirty(e.dirtyMask, i) || (i == df + idx && value != field[idx])
  {
    if value != field[idx] then (e.(dirtyMask := MarkDirty(e.dirtyMask, df + idx)), field[idx := value])
    else (e, field)
  }

  /** The outcome of a push: the buffer may run out of memory while growing. */
  datatype Pushed = Pushed(enc: Encoder) | NoMemory

  /** Room in the 26 segments (`2^32 - 64` bytes in all) for `k` more bytes. */
  predicate Room(e: Encoder, k: nat)
  {
    e.buffer.length + k <= U32_LIMIT - 64
  }

  lemma RoomInSegments(e: Encoder, k: nat)
    requires Room(e, k)
    ensures SA.HasRoomFor(e.buffer, k)
  {
    Pow2Of32();
  }

  /** `pushBytesOf(val)`: append the value's byte image; the mask is untouched. */
  function PushBytes(e: Encoder, bytes: seq<u8>): (r: Pushed)
    requires e.Valid() && Room(e, |bytes|)
    ensures r.Pushed? ==> r.enc.Valid() && Stream(r.enc) == Stream(e) + bytes && r.enc.dirtyMask == e.dirtyMask
    ensures r.Pushed? ==> r.enc.buffer.length == e.buffer.length + |bytes|
    ensures |bytes| == 0 ==> r == Pushed(e)
  {
    RoomInSegments(e, |bytes|);
    var st := SA.PushEach(e.buffer, bytes, 0);
    if st.Oom? then NoMemory else Pushed(e.(buffer := st.sa))
  }

  /** The four octets of a `u32`, least significant first. */
  function U32Bytes(x: u32): (b: seq<u8>)
    ensures |b| == 4
  {
    [x % 0x100, (x / 0x100) % 0x100, (x / 0x1_0000) % 0x100, x / 0x100_0000]
  }

  /** Reading four octets back, least significant first. */
  function ReadU32(b: seq<u8>): u32
    requires |b| == 4
  {
    b[0] as nat + 0x100 * b[1] as nat + 0x1_0000 * b[2] as nat + 0x100_0000 * b[3] as nat
  }

  /** The octets of a `u32` read back to the same value. */
  lemma U32BytesRoundTrip(x: u32)
    ensures ReadU32(U32Bytes(x)) == x
  {
    var b := U32Bytes(x);
    Bits.ModUnique(x, 0x100, x / 0x100, b[0]);
    Bits.ModUnique(x / 0x100, 0x100, x / 0x1_0000, b[1]);
    Bits.DivDiv(x, 0x100, 0x100);
    Bits.ModUnique(x / 0x1_0000, 0x100, x / 0x100_0000, b[2]);
    Bits.DivDiv(x, 0x1_0000, 0x100);
  }

  /** `pushDirtyMask()`: append the mask's four octets; the mask is kept. */
  function PushDirtyMask(e: Encoder): (r: Pushed)
    requires e.Valid() && Room(e, 4)
    ensures r.Pushed? ==> r.enc.Valid() && Stream(r.enc) == Stream(e) + U32Bytes(e.dirtyMask)
    ensures r.Pushed? ==> r.enc.dirtyMask == e.dirtyMask
  {
    PushBytes(e, U32Bytes(e.dirtyMask))
  }

  /**
   * `pushIfFlag(val)`: the value's bytes are appended exactly when flag 0
   * is set (`_dirtyMask & 1`), and the mask moves down one flag.
   */
  function PushIfFlag(e: Encoder, bytes: seq<u8>): (r: Pushed)
    requires e.Valid() && Room(e, |bytes|)
    ensures r.Pushed? ==> r.enc.Valid()
    ensures r.Pushed? ==> Stream(r.enc) == Stream(e) + (if Dirty(e.dirtyMask, 0) then bytes else [])
    ensures r.Pushed? ==> r.enc.dirtyMask == Bits.Shr(e.dirtyMask, 1)
    ensures r.NoMemory? ==> Dirty(e.dirtyMask, 0) && |bytes| > 0
  {
    Bits.AndOne(e.dirtyMask);
    var pushed := if Bits.And(e.dirtyMask, 1) != 0 then PushBytes(e, bytes) else Pushed(e);
    match pushed
    case NoMemory => NoMemory
    case Pushed(p) => Pushed(p.(dirtyMask := p.dirtyMask / 2))
  }

  /** Field `i` of `images` is the byte image of the field with flag `i`; the flagged ones, in flag order. */
  function Flagged(mask: nat, images: seq<seq<u8>>): seq<u8>
    decreases |images|
  {
    if images == [] then []
    else (if Dirty(mask, 0) then images[0] else []) + Flagged(mask / 2, images[1..])
  }

  /** The total size of a list of byte images. */
  function TotalLength(images: seq<seq<u8>>): nat
    decreases |images|
  {
    if images == [] then 0 else |images[0]| + TotalLength(images[1..])
  }

  /** All the images, one after the other. */
  function Concat(images: seq<seq<u8>>): (r: seq<u8>)
    ensures |r| == TotalLength(images)
    decreases |images|
  {
    if images == [] then [] else images[0] + Concat(images[1..])
  }

  /** The image of field `i` if its flag is set, else nothing. */
  function IfFlagged(mask: nat, i: nat, image: seq<u8>): seq<u8>
  {
    if Dirty(mask, i) then image else []
  }

  /** Adding one more field at the end adds its image when its flag is set. */
  lemma {:induction false} FlaggedSnoc(mask: nat, images: seq<seq<u8>>, last: seq<u8>)
    ensures Flagged(mask, images + [last]) == Flagged(mask, images) + IfFlagged(mask, |images|, last)
    decreases |images|
  {
    if images == [] {
      assert [last][1..] == [];
      assert Bits.Bit(mask, 0) == mask % 2;
    } else {
      var tail := images[1..];
      assert (images + [last])[1..] == tail + [last];
      assert (images + [last])[0] == images[0];
      FlaggedSnoc(mask / 2, tail, last);
      Bits.BitShift(mask, |images|);
      assert IfFlagged(mask / 2, |tail|, last) == IfFlagged(mask, |images|, last);
      var head := if Dirty(mask, 0) then images[0] else [];
      calc {
        Flagged(mask, images + [last]);
        head + Flagged(mask / 2, tail + [last]);
        head + (Flagged(mask / 2, tail) + IfFlagged(mask, |images|, last));
        (head + Flagged(mask / 2, tail)) + IfFlagged(mask, |images|, last);
      }
    }
  }

  /** The low flag of the mask shifted down by `i` is flag `i`. */
  lemma LowFlagOfShr(mask: nat, i: nat)
    ensures Dirty(Bits.Shr(mask, i), 0) <==> Dirty(mask, i)
  {
  }

  /** The first `i + 1` fields' flagged images extend those of the first `i`. */
  lemma FlaggedPrefixStep(mask: nat, images: seq<seq<u8>>, i: nat)
    requires i < |images|
    ensures Flagged(mask, images[..i + 1]) == Flagged(mask, images[..i]) + IfFlagged(mask, i, images[i])
  {
    assert images[..i + 1] == images[..i] + [images[i]];
    FlaggedSnoc(mask, images[..i], images[i]);
  }

  /** A mask below `2^k` has no flag left after shifting down by `k`. */
  lemma ShrBelowPow2(mask: nat, k: nat)
    ensures mask < Pow2(k) ==> Bits.Shr(mask, k) == 0
  {
    Bits.ShrIsDiv(mask, k);
  }

  /** A stream that grew by `f` and then by `x` grew by `f + x`. */
  lemma GrewBy(s0: seq<u8>, f: seq<u8>, x: seq<u8>, s1: seq<u8>, s2: seq<u8>)
    requires s1 == s0 + f && s2 == s1 + x
    ensures s2 == s0 + (f + x)
  {
  }

  lemma {:induction false} ConcatSnoc(images: seq<seq<u8>>, last: seq<u8>)
    ensures Concat(images + [last]) == Concat(images) + last
    decreases |images|
  {
    if images == [] {
      assert [last][1..] == [];
    } else {
      assert (images + [last])[1..] == images[1..] + [last];
      ConcatSnoc(images[1..], last);
    }
  }

  lemma ConcatPrefixStep(images: seq<seq<u8>>, i: nat)
    requires i < |images|
    ensures Concat(images[..i + 1]) == Concat(images[..i]) + images[i]
  {
    assert images[..i + 1] == images[..i] + [images[i]];
    ConcatSnoc(images[..i], images[i]);
  }

  /** The images of the remaining fields fit in what is left of the total. */
  lemma TotalLengthSplit(images: seq<seq<u8>>, i: nat)
    requires i < |images|
    ensures TotalLength(images[i..]) == |images[i]| + TotalLength(images[i + 1..])
  {
    assert images[i..][1..] == images[i + 1..];
  }

  /** The state of `pushIfFlag(array)` after its first `i` elements. */
  predicate EachDone(e: Encoder, images: seq<seq<u8>>, i: nat, cur: Encoder)
    requires e.Valid() && i <= |images|
  {
    && cur.Valid()
    && Stream(cur) == Stream(e) + Flagged(e.dirtyMask, images[..i])
    && cur.dirtyMask == Bits.Shr(e.dirtyMask, i)
    && cur.buffer.length + TotalLength(images[i..]) <= e.buffer.length + TotalLength(images)
  }

  /** One element of `pushIfFlag(array)`. */
  method EachStep(e: Encoder, images: seq<seq<u8>>, i: nat, cur: Encoder) returns (r: Pushed)
    requires e.Valid() && Room(e, TotalLength(images)) && i < |images|
    requires EachDone(e, images, i, cur)
    ensures r.Pushed? ==> EachDone(e, images, i + 1, r.enc)
  {
    TotalLengthSplit(images, i);
    r := PushIfFlag(cur, images[i]);
    if r.Pushed? {
      var m := e.dirtyMask;
      LowFlagOfShr(m, i);
      FlaggedPrefixStep(m, images, i);
      GrewBy(Stream(e), Flagged(m, images[..i]), IfFlagged(m, i, images[i]), Stream(cur), Stream(r.enc));
      Bits.ShrShr(m, i, 1);
    }
  }

  /**
   * `pushIfFlag(array)`: element `i` is pushed when flag `i` is set; after
   * the `N` steps the mask has moved down `N` flags.
   */
  method PushIfFlagEach(e: Encoder, images: seq<seq<u8>>) returns (r: Pushed)
    requires e.Valid() && Room(e, TotalLength(images))
    ensures r.Pushed? ==> r.enc.Valid()
    ensures r.Pushed? ==> Stream(r.enc) == Stream(e) + Flagged(e.dirtyMask, images)
    ensures r.Pushed? ==> r.enc.dirtyMask == Bits.Shr(e.dirtyMask, |images|)
  {
    var cur := e;
    assert images[0..] == images;
    for i := 0 to |images|
      invariant EachDone(e, images, i, cur)
    {
      var step := EachStep(e, images, i, cur);
      if step.NoMemory? {
        return NoMemory;
      }
      cur := step.enc;
    }
    assert images[..|images|] == images;
    r := Pushed(cur);
  }

  /** The state of `pushIfFlagWhole(array)` after its first `i` elements. */
  predicate WholeDone(e: Encoder, images: seq<seq<u8>>, i: nat, cur: Encoder)
    requires e.Valid() && i <= |images|
  {
    && cur.Valid()
    && cur.dirtyMask == e.dirtyMask
    && Stream(cur) == Stream(e) + Concat(images[..i])
    && cur.buffer.length + TotalLength(images[i..]) <= e.buffer.length + TotalLength(images)
  }

  /** One element of `pushIfFlagWhole(array)`. */
  method WholeStep(e: Encoder, images: seq<seq<u8>>, i: nat, cur: Encoder) returns (r: Pushed)
    requires e.Valid() && Room(e, TotalLength(images)) && i < |images|
    requires WholeDone(e, images, i, cur)
    ensures r.Pushed? ==> WholeDone(e, images, i + 1, r.enc)
  {
    TotalLengthSplit(images, i);
    r := PushBytes(cur, images[i]);
    if r.Pushed? {
      ConcatPrefixStep(images, i);
      GrewBy(Stream(e), Concat(images[..i]), images[i], Stream(cur), Stream(r.enc));
    }
  }

  /**
   * `pushIfFlagWhole(array)`: all elements, in order, when flag 0 is set;
   * the mask moves down one flag.
   */
  method PushIfFlagWhole(e: Encoder, images: seq<seq<u8>>) returns (r: Pushed)
    requires e.Valid() && Room(e, TotalLength(images))
    ensures r.Pushed? ==> r.enc.Valid()
    ensures r.Pushed? ==> Stream(r.enc) == Stream(e) + (if Dirty(e.dirtyMask, 0) then Concat(images) else [])
    ensures r.Pushed? ==> r.enc.dirtyMask == Bits.Shr(e.dirtyMask, 1)
  {
    var cur := e;
    Bits.AndOne(e.dirtyMask);
    if Bits.And(e.dirtyMask, 1) != 0 {
      assert images[0..] == images;
      for i := 0 to |images|
        invariant WholeDone(e, images, i, cur)
      {
        var step := WholeStep(e, images, i, cur);
        if step.NoMemory? {
          return NoMemory;
        }
        cur := step.enc;
      }
      assert images[..|images|] == images;
    }
    r := Pushed(cur.(dirtyMask := cur.dirtyMask / 2));
  }

  /** `clearDirtyMask()`: no flag is left set; the stream is kept. */
  function ClearDirtyMask(e: Encoder): (r: Encoder)
    ensures r.buffer == e.buffer
    ensures forall i :: !Dirty(r.dirtyMask, i)
  {
    ZeroHasNoFlag();
    e.(dirtyMask := 0)
  }

  /**
   * `extractBuffer(arena)`: a new array in `arena` holding every pushed byte
   * in push order; `None` when the arena cannot hold it.
   */
  method ExtractBuffer(e: Encoder, arena: Arena) returns (r: Option<(Arena, Slice<u8>)>)
    requires e.Valid() && arena.Valid()
    ensures r.Some? ==> r.value.1.elems == Stream(e)
    ensures e.buffer.length == 0 ==> r == Some((arena, NullSlice()))
    ensures e.buffer.length > 0 ==> (r.Some? <==> AllocImpl(arena, 1, 1, e.buffer.length).Carved?)
  {
    assert BYTE.Align() == 1;
    r := SA.CopyToSlice(arena, e.buffer, 0);
  }

  /**
   * One command, as an encoder's `end()` writes it: the mask, then every
   * field in flag order through `pushIfFlag`.
   */
  method EndCommand(e: Encoder, fields: seq<seq<u8>>) returns (r: Pushed)
    requires e.Valid() && Room(e, 4 + TotalLength(fields))
    ensures r.Pushed? ==> r.enc.Valid()
    ensures r.Pushed? ==> Stream(r.enc) == Stream(e) + (U32Bytes(e.dirtyMask) + Flagged(e.dirtyMask, fields))
    ensures r.Pushed? ==> r.enc.dirtyMask == Bits.Shr(e.dirtyMask, |fields|)
    ensures r.Pushed? && e.dirtyMask < Pow2(|fields|) ==> r.enc.dirtyMask == 0
    ensures r.Pushed? ==> |Stream(r.enc)| >= |Stream(e)| + 4
  {
    var m := PushDirtyMask(e);
    if m.NoMemory? {
      return NoMemory;
    }
    r := PushIfFlagEach(m.enc, fields);
    if r.Pushed? {
      GrewBy(Stream(e), U32Bytes(e.dirtyMask), Flagged(e.dirtyMask, fields), Stream(m.enc), Stream(r.enc));
      ShrBelowPow2(e.dirtyMask, |fields|);
    }
  }

  /**
   * A reference decoder for one command, given the image size of each
   * field: the mask, then for each field its image when its flag is set.
   */
  datatype Decoded = Decoded(mask: u32, changed: seq<Option<seq<u8>>>, rest: seq<u8>)

  function ReadFields(mask: nat, sizes: seq<nat>, input: seq<u8>): Option<(seq<Option<seq<u8>>>, seq<u8>)>
    decreases |sizes|
  {
    if sizes == [] then Some(([], input))
    else if !Dirty(mask, 0) then
      match ReadFields(mask / 2, sizes[1..], input)
      case None => None
      case Some(more) => Some(([None] + more.0, more.1))
    else if |input| < sizes[0] then None
    else
      match ReadFields(mask / 2, sizes[1..], input[sizes[0]..])
      case None => None
      case Some(more) => Some(([Some(input[..sizes[0]])] + more.0, more.1))
  }

  function DecodeCommand(input: seq<u8>, sizes: seq<nat>): Option<Decoded>
  {
    if |input| < 4 then None
    else
      var mask := ReadU32(input[..4]);
      match ReadFields(mask, sizes, input[4..])
      case None => None
      case Some(fields) => Some(Decoded(mask, fields.0, fields.1))
  }

  /** What the decoder should find for each field: its image when flagged. */
  function Changes(mask: nat, images: seq<seq<u8>>): (r: seq<Option<seq<u8>>>)
    ensures |r| == |images|
    decreases |images|
  {
    if images == [] then []
    else [if Dirty(mask, 0) then Some(images[0]) else None] + Changes(mask / 2, images[1..])
  }

  lemma {:induction false} ReadFlagged(mask: nat, images: seq<seq<u8>>, sizes: seq<nat>, rest: seq<u8>)
    requires |sizes| == |images| && forall i | 0 <= i < |images| :: |images[i]| == sizes[i]
    ensures ReadFields(mask, sizes, Flagged(mask, images) + rest) == Some((Changes(mask, images), rest))
    decreases |images|
  {
    if images != [] {
      var tailImages, tailSizes := images[1..], sizes[1..];
      assert forall i | 0 <= i < |tailImages| :: |tailImages[i]| == tailSizes[i] by {
        forall i | 0 <= i < |tailImages|
          ensures |tailImages[i]| == tailSizes[i]
        {
          assert tailImages[i] == images[i + 1] && tailSizes[i] == sizes[i + 1];
        }
      }
      ReadFlagged(mask / 2, tailImages, tailSizes, rest);
      var tail := Flagged(mask / 2, tailImages) + rest;
      var more := Changes(mask / 2, tailImages);
      assert ReadFields(mask / 2, tailSizes, tail) == Some((more, rest));
      if Dirty(mask, 0) {
        assert |images[0]| == sizes[0];
        assert Flagged(mask, images) + rest == images[0] + tail;
        assert (images[0] + tail)[..sizes[0]] == images[0];
        assert (images[0] + tail)[sizes[0]..] == tail;
        assert Changes(mask, images) == [Some(images[0])] + more;
      } else {
        assert Flagged(mask, images) + rest == tail;
        assert Changes(mask, images) == [None] + more;
      }
    } else {
      assert Flagged(mask, images) + rest == rest;
    }
  }

  /**
   * Encoding one command and decoding it gives back the mask, exactly the
   * flagged fields' images, and whatever follows the command.
   */
  lemma EncodeDecode(mask: u32, images: seq<seq<u8>>, sizes: seq<nat>, rest: seq<u8>)
    requires |sizes| == |images| && forall i | 0 <= i < |images| :: |images[i]| == sizes[i]
    ensures DecodeCommand(U32Bytes(mask) + Flagged(mask, images) + rest, sizes)
      == Some(Decoded(mask, Changes(mask, images), rest))
  {
    var input := U32Bytes(mask) + Flagged(mask, images) + rest;
    assert input[..4] == U32Bytes(mask);
    assert input[4..] == Flagged(mask, images) + rest;
    U32BytesRoundTrip(mask);
    ReadFlagged(mask, images, sizes, rest);
  }

  /** Field `i` is reported changed exactly when flag `i` is set. */
  lemma {:induction false} ChangesByFlag(mask: nat, images: seq<seq<u8>>, i: nat)
    requires i < |images|
    ensures Changes(mask, images)[i] == if Dirty(mask, i) then Some(images[i]) else None
    decreases i
  {
    if i > 0 {
      ChangesByFlag(mask / 2, images[1..], i - 1);
      Bits.BitShift(mask, i);
    }
  }
}
