/** The 64-byte frame header of the event bus (server-go/bus/wire.go). */
module Wire {
  import opened Bits
  import opened Bytes

  const WIRE_MAGIC: uint32 := 0x30535542
  const WIRE_VERSION: uint16 := 3
  const HDR_LEN := 64
  const MAX_PAYLOAD: uint32 := 0x10_0000

  const F_INLINE: uint16 := 0x0001
  const F_ARENA: uint16 := 0x0002
  const F_NOTIFICATION: uint16 := 0x0004
  const F_REQUEST: uint16 := 0x0008
  const F_REPLY: uint16 := 0x0010
  const F_CANCEL: uint16 := 0x0020
  const F_MORE: uint16 := 0x0080

  const PLACEMENT_MASK: uint16 := 0x0003
  const PATTERN_MASK: uint16 := 0x003c
  const KNOWN_MASK: uint16 := 0x00ff

  const KIND_ERROR: uint32 := 3
  const KIND_CAPABILITY_ABSENT: uint32 := 4

  datatype Frame = Frame(
    flags: uint16, version: uint16, eventKind: uint32, principalRef: uint32,
    correlation: uint64, sequence: uint64, logicalTS: uint64, payloadRef: uint64,
    payloadLen: uint32, srcHandle: uint32, dstHandle: uint32, generation: uint32)

  datatype Result =
    | OK | ErrShort | ErrMagic | ErrVersion | ErrFlags | ErrPayloadLen | ErrCorrelation

  datatype Decoded = Accepted(frame: Frame) | Refused(why: Result)

  predicate Has(flags: uint16, bit: uint16) { And(flags, bit) != 0 }

  predicate ExactlyOne(v: nat) { v != 0 && And(v, v - 1) == 0 }

  /** The checks of the encoder and the decoder, in the source's order. */
  function Validate(f: Frame): Result {
    var placement := And(f.flags, PLACEMENT_MASK);
    var pattern := And(f.flags, PATTERN_MASK);
    if f.version != WIRE_VERSION then ErrVersion
    else if AndNot(f.flags, KNOWN_MASK) != 0 then ErrFlags
    else if !ExactlyOne(pattern) then ErrFlags
    else if f.payloadLen > 0 && !ExactlyOne(placement) then ErrFlags
    else if f.payloadLen > MAX_PAYLOAD then ErrPayloadLen
    else if f.payloadLen == 0 && placement != 0 then ErrFlags
    else if f.payloadLen == 0 && f.payloadRef != 0 then ErrPayloadLen
    else if Has(f.flags, F_MORE) &&
            ((pattern != F_REQUEST && pattern != F_REPLY) || placement != F_INLINE || f.payloadLen == 0)
      then ErrFlags
    else if !Has(f.flags, F_ARENA) && f.generation != 0 then ErrFlags
    else if Has(f.flags, F_NOTIFICATION) then
      if f.correlation != 0 then ErrCorrelation else OK
    else if f.correlation == 0 then ErrCorrelation
    else OK
  }

  /** The magic and the routing and ordering fields. */
  function HeaderFront(f: Frame): (s: bytes)
    ensures |s| == 40
  {
    Le(WIRE_MAGIC, 4) + Le(f.flags, 2) + Le(f.version, 2) + Le(f.eventKind, 4) + Le(f.principalRef, 4)
    + Le(f.correlation, 8) + Le(f.sequence, 8) + Le(f.logicalTS, 8)
  }

  /** The whole header, field after field. */
  function Header(f: Frame): (s: bytes)
    ensures |s| == HDR_LEN
  {
    HeaderFront(f) + Le(f.payloadRef, 8) + Le(f.payloadLen, 4) + Le(f.srcHandle, 4)
    + Le(f.dstHandle, 4) + Le(f.generation, 4)
  }

  /** The fields at their offsets; meaningful when the magic matches. */
  function Fields(s: bytes): Frame
    requires |s| >= HDR_LEN
  {
    Frame(U16(s, 4), U16(s, 6), U32(s, 8), U32(s, 12), U64(s, 16), U64(s, 24), U64(s, 32), U64(s, 40),
          U32(s, 48), U32(s, 52), U32(s, 56), U32(s, 60))
  }

  function Decode(s: bytes): Decoded {
    if |s| < HDR_LEN then Refused(ErrShort)
    else if U32(s, 0) != WIRE_MAGIC then Refused(ErrMagic)
    else
      var f := Fields(s);
      if Validate(f) != OK then Refused(Validate(f)) else Accepted(f)
  }

  /** Writes the header at `off` of a buffer with `room` bytes there. A frame that would not survive a
      decode, or a buffer too short, is refused with nothing written. */
  method Encode(f: Frame, out: array<byte>, off: nat, room: nat) returns (written: nat)
    requires off + room <= out.Length
    modifies out
    ensures written == if room >= HDR_LEN && Validate(f) == OK then HDR_LEN else 0
    ensures written == 0 ==> out[..] == old(out[..])
    ensures written == HDR_LEN ==> out[..] == Splice(old(out[..]), off, Header(f))
  {
    if room < HDR_LEN { return 0; }
    if Validate(f) != OK { return 0; }
    Clear(out, off, off + HDR_LEN);
    ghost var before := out[..];
    Put(out, off, WIRE_MAGIC, 4);
    ghost var done := Le(WIRE_MAGIC, 4);
    PutNext(out, off + 4, f.flags, 2, before, off, done);
    done := done + Le(f.flags, 2);
    PutNext(out, off + 6, f.version, 2, before, off, done);
    done := done + Le(f.version, 2);
    PutNext(out, off + 8, f.eventKind, 4, before, off, done);
    done := done + Le(f.eventKind, 4);
    PutNext(out, off + 12, f.principalRef, 4, before, off, done);
    done := done + Le(f.principalRef, 4);
    PutNext(out, off + 16, f.correlation, 8, before, off, done);
    done := done + Le(f.correlation, 8);
    PutNext(out, off + 24, f.sequence, 8, before, off, done);
    done := done + Le(f.sequence, 8);
    PutNext(out, off + 32, f.logicalTS, 8, before, off, done);
    done := done + Le(f.logicalTS, 8);
    PutNext(out, off + 40, f.payloadRef, 8, before, off, done);
    done := done + Le(f.payloadRef, 8);
    PutNext(out, off + 48, f.payloadLen, 4, before, off, done);
    done := done + Le(f.payloadLen, 4);
    PutNext(out, off + 52, f.srcHandle, 4, before, off, done);
    done := done + Le(f.srcHandle, 4);
    PutNext(out, off + 56, f.dstHandle, 4, before, off, done);
    done := done + Le(f.dstHandle, 4);
    PutNext(out, off + 60, f.generation, 4, before, off, done);
    done := done + Le(f.generation, 4);
    SpliceOver(old(out[..]), off, Zeros(HDR_LEN), done);
    return HDR_LEN;
  }

  lemma FieldsOfFront(f: Frame, s: bytes)
    requires |s| >= HDR_LEN && s[..40] == HeaderFront(f)
    ensures U32(s, 0) == WIRE_MAGIC && U16(s, 4) == f.flags && U16(s, 6) == f.version
    ensures U32(s, 8) == f.eventKind && U32(s, 12) == f.principalRef
    ensures U64(s, 16) == f.correlation && U64(s, 24) == f.sequence && U64(s, 32) == f.logicalTS
  {
    Limits();
    hide Le, Limit, Val;
    var t0 := Le(WIRE_MAGIC, 4);
    var t1 := t0 + Le(f.flags, 2);
    var t2 := t1 + Le(f.version, 2);
    var t3 := t2 + Le(f.eventKind, 4);
    var t4 := t3 + Le(f.principalRef, 4);
    var t5 := t4 + Le(f.correlation, 8);
    var t6 := t5 + Le(f.sequence, 8);
    LastField(s, t6, f.logicalTS, 8);
    LastField(s, t5, f.sequence, 8);
    LastField(s, t4, f.correlation, 8);
    LastField(s, t3, f.principalRef, 4);
    LastField(s, t2, f.eventKind, 4);
    LastField(s, t1, f.version, 2);
    LastField(s, t0, f.flags, 2);
    LastField(s, [], WIRE_MAGIC, 4);
  }

  lemma FieldsOfHeader(f: Frame, s: bytes)
    requires |s| >= HDR_LEN && s[..HDR_LEN] == Header(f)
    ensures U32(s, 0) == WIRE_MAGIC && Fields(s) == f
  {
    Limits();
    hide Le, Limit, Val;
    var t0 := HeaderFront(f);
    var t1 := t0 + Le(f.payloadRef, 8);
    var t2 := t1 + Le(f.payloadLen, 4);
    var t3 := t2 + Le(f.srcHandle, 4);
    var t4 := t3 + Le(f.dstHandle, 4);
    LastField(s, t4, f.generation, 4);
    LastField(s, t3, f.dstHandle, 4);
    LastField(s, t2, f.srcHandle, 4);
    LastField(s, t1, f.payloadLen, 4);
    LastField(s, t0, f.payloadRef, 8);
    FieldsOfFront(f, s);
  }

  /** Decode after encode: a valid frame survives, whatever follows it in the slot. */
  lemma DecodeOfHeader(f: Frame, rest: bytes)
    requires Validate(f) == OK
    ensures Decode(Header(f) + rest) == Accepted(f)
  {
    FieldsOfHeader(f, Header(f) + rest);
  }

  /** Encode after decode: an accepted header is the only spelling of its frame. */
  lemma HeaderOfDecoded(s: bytes)
    requires Decode(s).Accepted?
    ensures Validate(Decode(s).frame) == OK
    ensures s[..HDR_LEN] == Header(Decode(s).frame)
  {
    var f := Fields(s);
    FrontOfFields(s);
    var t0 := HeaderFront(f);
    var t1 := t0 + Le(f.payloadRef, 8);
    var t2 := t1 + Le(f.payloadLen, 4);
    var t3 := t2 + Le(f.srcHandle, 4);
    var t4 := t3 + Le(f.dstHandle, 4);
    NextField(s, t0, 8); NextField(s, t1, 4); NextField(s, t2, 4); NextField(s, t3, 4); NextField(s, t4, 4);
  }

  lemma FrontOfFields(s: bytes)
    requires |s| >= HDR_LEN && U32(s, 0) == WIRE_MAGIC
    ensures s[..40] == HeaderFront(Fields(s))
  {
    var f := Fields(s);
    var t0 := Le(WIRE_MAGIC, 4);
    var t1 := t0 + Le(f.flags, 2);
    var t2 := t1 + Le(f.version, 2);
    var t3 := t2 + Le(f.eventKind, 4);
    var t4 := t3 + Le(f.principalRef, 4);
    var t5 := t4 + Le(f.correlation, 8);
    var t6 := t5 + Le(f.sequence, 8);
    NextField(s, [], 4); NextField(s, t0, 2); NextField(s, t1, 2); NextField(s, t2, 4);
    NextField(s, t3, 4); NextField(s, t4, 8); NextField(s, t5, 8); NextField(s, t6, 8);
  }

  /** The message patterns exclude each other: of notification, request, reply and cancel (bits 2 to 5)
      a valid frame carries exactly one. */
  lemma PatternsExclude(f: Frame, i: nat, j: nat)
    requires Validate(f) == OK
    requires 2 <= i <= 5 && 2 <= j <= 5 && i != j
    ensures !(And(f.flags, Pow2(i)) != 0 && And(f.flags, Pow2(j)) != 0)
  {
    var pattern := And(f.flags, PATTERN_MASK);
    PowerOfTwoTest(pattern);
    AndPow2(f.flags, i);
    AndPow2(f.flags, j);
    if Bit(f.flags, i) && Bit(f.flags, j) {
      PatternBit(i);
      PatternBit(j);
      BitOfAnd(f.flags, PATTERN_MASK, i);
      BitOfAnd(f.flags, PATTERN_MASK, j);
      OnlyBit(pattern, i);
      OnlyBit(pattern, j);
      if i < j { Pow2Grows(i, j); } else { Pow2Grows(j, i); }
    }
  }

  lemma PatternBit(i: nat)
    requires 2 <= i <= 5
    ensures Bit(PATTERN_MASK, i)
  {
    assert Bit(0x3c, 2) && Bit(0x3c, 3) && Bit(0x3c, 4) && Bit(0x3c, 5);
  }

  lemma {:induction false} Pow2Grows(i: nat, j: nat)
    requires i < j
    ensures Pow2(i) < Pow2(j)
  {
    if i + 1 < j { Pow2Grows(i, j - 1); }
  }

  /** A valid request, reply or cancel frame names a correlation; a notification names none. */
  lemma CorrelatedUnlessNotification(f: Frame)
    requires Validate(f) == OK
    ensures Has(f.flags, F_REQUEST) || Has(f.flags, F_REPLY) || Has(f.flags, F_CANCEL)
            ==> f.correlation != 0
    ensures Has(f.flags, F_NOTIFICATION) ==> f.correlation == 0
  {
    assert Pow2(2) == 4 && Pow2(3) == 8 && Pow2(4) == 16 && Pow2(5) == 32;
    PatternsExclude(f, 3, 2);
    PatternsExclude(f, 4, 2);
    PatternsExclude(f, 5, 2);
  }

  /** Bounds a decoded payload reference against the live geometry. The end of an inline payload is a
      64-bit sum and may wrap; the first test rejects a sum that did. */
  function CheckPlacement(f: Frame, slotSize: uint32, arenaSize: uint64): Result {
    if Validate(f) != OK then Validate(f)
    else if f.payloadLen == 0 then OK
    else if Has(f.flags, F_INLINE) then
      var end := Wrap64(f.payloadRef + f.payloadLen);
      if end < f.payloadRef then ErrPayloadLen
      else if f.payloadRef < HDR_LEN || end > slotSize then ErrPayloadLen
      else OK
    else if f.payloadLen > arenaSize then ErrPayloadLen
    else OK
  }

  /** An accepted inline reference lies inside the slot and past the header. */
  lemma PlacementIsInsideSlot(f: Frame, slotSize: uint32, arenaSize: uint64)
    requires f.payloadLen > 0 && Has(f.flags, F_INLINE)
    ensures CheckPlacement(f, slotSize, arenaSize) == OK
            <==> Validate(f) == OK && HDR_LEN <= f.payloadRef && f.payloadRef + f.payloadLen <= slotSize
  {
    var sum := f.payloadRef + f.payloadLen;
    if sum >= 0x1_0000_0000_0000_0000 {
      assert Wrap64(sum) == sum - 0x1_0000_0000_0000_0000;
    }
  }
}
