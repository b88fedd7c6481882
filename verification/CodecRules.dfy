/** What the two codecs accept, said of the numbers in a header rather than by the tests that look at them
    (server-go/bus/wire.go:114-246, server-go/bus/module_protocol.go:40-95). */
module CodecRules {
  import opened Bits
  import opened Bytes
  import opened Options
  import opened Wire
  import opened ModuleProtocol

  /** The message pattern of a flag word: its bits 2 to 5. */
  lemma PatternGroup(w: uint16)
    ensures And(w, PATTERN_MASK) == 4 * ((w / 4) % 16)
  {
    assert IsPow2(16);
    hide And, IsPow2;
    AndHalves(w, 0x3c);
    AndHalves(w / 2, 0x1e);
    MaskIsRemainder(w / 4, 16);
    assert And(w, 0x3c) == 2 * And(w / 2, 0x1e);
  }

  lemma PlacementGroup(w: uint16)
    ensures And(w, PLACEMENT_MASK) == w % 4
    ensures AndNot(w, KNOWN_MASK) == 0 <==> w < 0x100
  {
    assert IsPow2(4);
    assert Pow2(8) == 4 * Pow2(6) && Pow2(6) == 4 * Pow2(4) && Pow2(4) == 16;
    hide And, AndNot, IsPow2, Pow2;
    MaskIsRemainder(w, 4);
    AndNotMask(w, 8);
  }

  /** The single bits of a flag word. */
  lemma WordBits(w: uint16)
    ensures And(w, F_INLINE) == w % 2 && And(w, F_ARENA) == 2 * (w / 2 % 2)
    ensures And(w, F_NOTIFICATION) == 4 * (w / 4 % 2)
    ensures And(w, F_REQUEST) == 8 * (w / 8 % 2) && And(w, F_REPLY) == 16 * (w / 16 % 2)
    ensures And(w, F_CANCEL) == 32 * (w / 32 % 2) && And(w, F_MORE) == 128 * (w / 128 % 2)
  {
    hide And, Bit;
    assert Pow2(0) == 1 && Pow2(1) == 2 && Pow2(2) == 4 && Pow2(3) == 8;
    assert Pow2(4) == 16 && Pow2(5) == 32 && Pow2(7) == 4 * Pow2(5);
    BitWord(w, 0); BitWord(w, 1); BitWord(w, 2); BitWord(w, 3); BitWord(w, 4); BitWord(w, 5); BitWord(w, 7);
  }

  lemma BitWord(w: uint16, i: nat)
    ensures And(w, Pow2(i)) == Pow2(i) * (w / Pow2(i) % 2)
  {
    hide And, Bit, Pow2;
    AndPow2(w, i);
    BitIsParity(w, i);
  }

  // ---- frames ----

  /** How many of the four patterns a flag word names: notification, request, reply, cancel. */
  function Patterns(w: uint16): nat { w / 4 % 2 + w / 8 % 2 + w / 16 % 2 + w / 32 % 2 }

  /** How many of the two placements: inline, arena. */
  function Placements(w: uint16): nat { w % 2 + w / 2 % 2 }

  /** Known flags and one pattern, under the right version. */
  predicate Routable(f: Frame) { f.version == 3 && f.flags < 0x100 && Patterns(f.flags) == 1 }

  /** A payload of at most a mebibyte has one placement; without a payload there is neither placement nor reference. */
  predicate Placed(f: Frame) {
    if f.payloadLen == 0 then Placements(f.flags) == 0 && f.payloadRef == 0
    else Placements(f.flags) == 1 && f.payloadLen <= 0x10_0000
  }

  /** Only an inline piece of a request or a reply has more to follow, and only an arena reference a generation. */
  predicate Continued(f: Frame) {
    && (f.flags / 128 % 2 == 1 ==> f.payloadLen > 0 && f.flags % 2 == 1
                                    && (f.flags / 8 % 2 == 1 || f.flags / 16 % 2 == 1))
    && (f.generation != 0 ==> f.flags / 2 % 2 == 1)
  }

  /** A notification, and nothing else, is without a correlation. */
  predicate Correlated(f: Frame) { f.correlation == 0 <==> f.flags / 4 % 2 == 1 }

  lemma PatternIsOne(w: uint16)
    ensures ExactlyOne(And(w, PATTERN_MASK)) <==> Patterns(w) == 1
    ensures And(w, PATTERN_MASK) == F_REQUEST <==> Patterns(w) == 1 && w / 8 % 2 == 1
    ensures And(w, PATTERN_MASK) == F_REPLY <==> Patterns(w) == 1 && w / 16 % 2 == 1
  {
    hide And;
    PatternGroup(w);
    var v := w / 4 % 16;
    NibbleBits(w / 4);
    assert w / 4 / 2 == w / 8 && w / 4 / 4 == w / 16 && w / 4 / 8 == w / 32;
    OneOfFour(v);
  }

  lemma NibbleBits(x: nat)
    ensures var v := x % 16;
      v % 2 == x % 2 && v / 2 % 2 == x / 2 % 2 && v / 4 % 2 == x / 4 % 2 && v / 8 == x / 8 % 2
  {
    HalfRemainder(x, 8);
    HalfRemainder(x / 2, 4);
    HalfRemainder(x / 4, 2);
    assert x / 2 / 2 == x / 4 && x / 4 / 2 == x / 8;
    FourBits(x % 2, x / 2 % 2, x / 4 % 2, x / 8 % 2);
  }

  lemma FourBits(a: nat, b: nat, c: nat, d: nat)
    requires a < 2 && b < 2 && c < 2 && d < 2
    ensures var v := a + 2 * b + 4 * c + 8 * d;
      v % 2 == a && v / 2 % 2 == b && v / 4 % 2 == c && v / 8 == d
  {
  }

  lemma SmallPowers(v: nat)
    requires 0 < v < 16
    ensures IsPow2(v) <==> v == 1 || v == 2 || v == 4 || v == 8
  {
    assert IsPow2(v) ==> v == 1 || IsPow2(v / 2);
    assert IsPow2(1) && IsPow2(2) && IsPow2(4) && IsPow2(8);
    assert !IsPow2(3) && !IsPow2(5) && !IsPow2(6) && !IsPow2(7);
  }

  lemma OneOfFour(v: nat)
    requires v < 16
    ensures ExactlyOne(4 * v) <==> v % 2 + v / 2 % 2 + v / 4 % 2 + v / 8 == 1
    ensures v == 2 <==> v / 2 % 2 == 1 && v % 2 + v / 2 % 2 + v / 4 % 2 + v / 8 == 1
    ensures v == 4 <==> v / 4 % 2 == 1 && v % 2 + v / 2 % 2 + v / 4 % 2 + v / 8 == 1
  {
    hide And;
    if v > 0 {
      PowerOfTwoTest(4 * v);
      assert 4 * v / 2 == 2 * v && 2 * v / 2 == v && (IsPow2(4 * v) <==> IsPow2(v));
      SmallPowers(v);
    }
  }

  lemma PlacementIsOne(w: uint16)
    ensures ExactlyOne(And(w, PLACEMENT_MASK)) <==> Placements(w) == 1
    ensures And(w, PLACEMENT_MASK) == 0 <==> Placements(w) == 0
    ensures And(w, PLACEMENT_MASK) == F_INLINE <==> Placements(w) == 1 && w % 2 == 1
  {
    hide And;
    PlacementGroup(w);
    if w % 4 > 0 { PowerOfTwoTest(w % 4); }
  }

  /** Exactly which frames the codec accepts, and the error of every other, in the order the checks are made: the
      version first, then flags, then the payload's length and reference, the correlation last. */
  lemma ValidExactly(f: Frame)
    ensures Validate(f) == OK <==> Routable(f) && Placed(f) && Continued(f) && Correlated(f)
    ensures Validate(f) == ErrVersion <==> f.version != 3
    ensures Validate(f) == ErrPayloadLen <==>
      && Routable(f) && !Placed(f) && Placements(f.flags) == if f.payloadLen == 0 then 0 else 1
    ensures Validate(f) == ErrCorrelation <==> Routable(f) && Placed(f) && Continued(f) && !Correlated(f)
    ensures Validate(f) in {OK, ErrVersion, ErrFlags, ErrPayloadLen, ErrCorrelation}
  {
    hide And, AndNot, ExactlyOne, Patterns, Placements;
    PatternIsOne(f.flags);
    PlacementIsOne(f.flags);
    PlacementGroup(f.flags);
    WordBits(f.flags);
  }

  /** Exactly which placements pass: none needed without a payload; an inline payload lies between header and slot
      end, an arena one is no longer than the arena. */
  lemma PlacementExactly(f: Frame, slotSize: uint32, arenaSize: uint64)
    requires Validate(f) == OK
    ensures CheckPlacement(f, slotSize, arenaSize) == OK <==>
      || f.payloadLen == 0
      || (f.flags % 2 == 1 && 64 <= f.payloadRef && f.payloadRef + f.payloadLen <= slotSize)
      || (f.flags % 2 == 0 && f.payloadLen <= arenaSize)
    ensures CheckPlacement(f, slotSize, arenaSize) in {OK, ErrPayloadLen}
  {
    hide And, Validate;
    WordBits(f.flags);
    if f.payloadLen > 0 && Has(f.flags, F_INLINE) { PlacementIsInsideSlot(f, slotSize, arenaSize); }
  }

  /** Where each field of a frame lies in its header. */
  lemma HeaderLayout(f: Frame)
    ensures var h := Header(f);
      && |h| == 64 && U32(h, 0) == 0x30535542 && U16(h, 4) == f.flags && U16(h, 6) == f.version
      && U32(h, 8) == f.eventKind && U32(h, 12) == f.principalRef && U64(h, 16) == f.correlation
      && U64(h, 24) == f.sequence && U64(h, 32) == f.logicalTS && U64(h, 40) == f.payloadRef
      && U32(h, 48) == f.payloadLen && U32(h, 52) == f.srcHandle && U32(h, 56) == f.dstHandle
      && U32(h, 60) == f.generation
  {
    hide U16, U32, U64;
    assert Header(f)[..HDR_LEN] == Header(f);
    FieldsOfHeader(f, Header(f));
  }

  /** Decoding accepts exactly the 64 bytes that spell a frame the rules allow, whatever follows them. */
  lemma FrameDecodesExactly(s: bytes, f: Frame)
    ensures Decode(s) == Accepted(f) <==>
      |s| >= 64 && s[..64] == Header(f) && Routable(f) && Placed(f) && Continued(f) && Correlated(f)
  {
    hide Validate, Header, Fields, U32, Routable, Placed, Continued, Correlated;
    ValidExactly(f);
    if Decode(s).Accepted? {
      HeaderOfDecoded(s);
      ValidExactly(Decode(s).frame);
    }
    if |s| >= 64 && s[..64] == Header(f) { FieldsOfHeader(f, s); }
  }

  // ---- messages ----

  /** Where each field of a message lies in its envelope. */
  lemma EnvelopeLayout(m: Message)
    ensures var h := Envelope(m);
      && |h| == 40 && U32(h, 0) == 0x444f4d41 && U16(h, 4) == 1 && U16(h, 6) == 40
      && U16(h, 8) == m.operation && U16(h, 10) == m.status && U32(h, 12) == m.stageID && U32(h, 16) == m.flags
      && U32(h, 20) == m.bodyLen && U64(h, 24) == m.deadlineNS && U64(h, 32) == m.traceID
  {
    hide U16, U32, U64;
    assert Envelope(m)[..MESSAGE_HEADER_LEN] == Envelope(m);
    FieldsOfEnvelope(m, Envelope(m));
  }

  /** Decoding accepts exactly the 40 bytes that spell a message, followed by at least its body: an invoke, which has
      no status, or a result with one of the six; of some stage, without flags, with at most 16 MiB of body. */
  lemma MessageDecodesExactly(s: bytes, m: Message)
    ensures DecodeMessage(s) == Some(m) <==>
      && |s| >= 40 && s[..40] == Envelope(m) && 40 + m.bodyLen <= |s|
      && ((m.operation == 1 && m.status == 0) || (m.operation == 2 && m.status < 6))
      && m.stageID != 0 && m.flags == 0 && m.bodyLen <= 0x100_0000
  {
    hide Envelope, MessageFields, U16, U32;
    if DecodeMessage(s).Some? { EnvelopeOfDecoded(s); }
    if |s| >= 40 && s[..40] == Envelope(m) { FieldsOfEnvelope(m, s); }
  }
}
