/** The attached endpoint: an outbound and an inbound ring in one mapping (server-go/bus/client.go). */
module Client {
  import opened Bits
  import opened Bytes
  import opened Options
  import opened RingLayout
  import opened Ring
  import opened Region
  import opened Wire
  import opened Events

  // ---- what a slot carries ----

  /** The frame an emit writes. */
  function OutFrame(flags: uint16, kind: uint32, correlation: uint64, handle: uint32, length: uint32): Frame {
    var f := Frame(flags, WIRE_VERSION, kind, 0, correlation, 0, 0, 0, 0, handle, 0, 0);
    if length > 0 then
      OrOne(flags);
      f.(flags := Or(flags, F_INLINE), payloadLen := length, payloadRef := HDR_LEN)
    else f
  }

  lemma OrOne(flags: uint16)
    ensures 0 <= Or(flags, F_INLINE) < 0x1_0000
  {
    OrHalves(flags, 1);
  }

  /** A slot after an emit: header, payload, and whatever an earlier lap left behind. */
  function WrittenSlot(raw: bytes, f: Frame, payload: bytes): (s: bytes)
    requires HDR_LEN + |payload| <= |raw|
    ensures |s| == |raw|
  {
    Splice(Splice(raw, 0, Header(f)), HDR_LEN, payload)
  }

  /** The event in a slot, or none if its header does not decode. */
  function DecodeSlot(slot: bytes): Option<Event> {
    match Decode(slot)
    case Refused(_) => None
    case Accepted(f) =>
      if Has(f.flags, F_INLINE) && f.payloadLen > 0 && f.payloadRef + f.payloadLen <= |slot|
      then Some(Event(f, slot[f.payloadRef..f.payloadRef + f.payloadLen]))
      else Some(Event(f, []))
  }

  /** Whether a poll's slice of the payload is out of range: its guard, a 64-bit sum, passes although the sum
      has wrapped below the reference. */
  predicate Faults(f: Frame, slotSize: nat) {
    && Has(f.flags, F_INLINE) && f.payloadLen > 0
    && Wrap64(f.payloadRef + f.payloadLen) <= slotSize && f.payloadRef > Wrap64(f.payloadRef + f.payloadLen)
  }

  /** A slot a poll can take its payload from, if it decodes at all. */
  predicate Sliceable(slot: bytes) {
    Decode(slot).Accepted? ==> !Faults(Decode(slot).frame, |slot|)
  }

  /** Exactly the inline frames whose end runs past 2^64 and wraps to within the slot make a poll's slice
      fault; for every other frame the slice is in range whenever the guard passes. */
  lemma FaultsExactly(f: Frame, slotSize: nat)
    requires Validate(f) == OK && slotSize < 0x1_0000_0000
    ensures var end := f.payloadRef + f.payloadLen;
      Faults(f, slotSize) <==>
        Has(f.flags, F_INLINE) && f.payloadLen > 0 && end >= 0x1_0000_0000_0000_0000 && Wrap64(end) <= slotSize
    ensures var end := f.payloadRef + f.payloadLen;
      Has(f.flags, F_INLINE) && f.payloadLen > 0 && !Faults(f, slotSize) ==>
        (Wrap64(end) <= slotSize <==> end <= slotSize) && (end <= slotSize ==> Wrap64(end) == end)
  {
    WrapOnce(f.payloadRef + f.payloadLen);
    hide And, Validate;
  }

  /** Such a frame: a valid inline request of two bytes that refers to the last 64-bit offset. Its placement
      check refuses it, a poll's guard does not. */
  lemma WrappedEndFaults(slotSize: uint32, arenaSize: uint64)
    requires slotSize > 0
    ensures var f := Frame(0x09, WIRE_VERSION, 1, 0, 1, 0, 0, 0xffff_ffff_ffff_ffff, 2, 0, 0, 0);
      && Validate(f) == OK && Faults(f, slotSize)
      && Wrap64(f.payloadRef + f.payloadLen) <= slotSize && CheckPlacement(f, slotSize, arenaSize) == ErrPayloadLen
  {
    RequestWord();
    hide And, AndNot;
  }

  lemma RequestWord()
    ensures And(0x09, PLACEMENT_MASK) == 1 && And(0x09, PATTERN_MASK) == 0x08 && AndNot(0x09, KNOWN_MASK) == 0
    ensures And(1, 0) == 0 && And(0x08, 0x07) == 0
    ensures And(0x09, F_INLINE) == 1 && And(0x09, F_ARENA) == 0 && And(0x09, F_NOTIFICATION) == 0
    ensures And(0x09, F_MORE) == 0
  {
  }

  /** A frame whose placement was checked, inline or in the arena, never makes a poll fault. */
  lemma CheckedPlacementIsSliceable(slot: bytes, arenaSize: uint64)
    requires |slot| < 0x1_0000_0000
    requires Decode(slot).Accepted? ==> CheckPlacement(Decode(slot).frame, |slot|, arenaSize) == OK
    ensures Sliceable(slot)
  {
    hide And, Fields, CheckPlacement;
    if Decode(slot).Accepted? {
      var f := Decode(slot).frame;
      FaultsExactly(f, |slot|);
      if f.payloadLen > 0 && Has(f.flags, F_INLINE) { PlacementIsInsideSlot(f, |slot|, arenaSize); }
    }
  }

  /** What one side writes the other side reads: whatever the slot held before, an emitted frame and
      payload are decoded unchanged. */
  lemma DecodeOfWritten(raw: bytes, f: Frame, payload: bytes)
    requires HDR_LEN + |payload| <= |raw| && Validate(f) == OK && f.payloadLen == |payload|
    requires |payload| > 0 ==> Has(f.flags, F_INLINE) && f.payloadRef == HDR_LEN
    requires |raw| < 0x1_0000_0000
    ensures DecodeSlot(WrittenSlot(raw, f, payload)) == Some(Event(f, payload))
    ensures Sliceable(WrittenSlot(raw, f, payload))
  {
    var s := WrittenSlot(raw, f, payload);
    WrittenParts(raw, f, payload);
    assert s == Header(f) + s[HDR_LEN..];
    DecodeOfHeader(f, s[HDR_LEN..]);
    FaultsExactly(f, |raw|);
    hide Decode, Header, WrittenSlot, And, Validate;
  }

  lemma WrittenParts(raw: bytes, f: Frame, payload: bytes)
    requires HDR_LEN + |payload| <= |raw|
    ensures var s := WrittenSlot(raw, f, payload);
      s[..HDR_LEN] == Header(f) && s[HDR_LEN..HDR_LEN + |payload|] == payload
  {
    hide Header;
    SpliceElsewhere(Splice(raw, 0, Header(f)), HDR_LEN, payload, 0, HDR_LEN);
    SpliceParts(raw, 0, Header(f));
    SpliceParts(Splice(raw, 0, Header(f)), HDR_LEN, payload);
    assert WrittenSlot(raw, f, payload)[0..HDR_LEN] == WrittenSlot(raw, f, payload)[..HDR_LEN];
  }

  /** The inline flag is added without disturbing any other. */
  lemma InlineKeepsOtherFlags(flags: uint16, mask: uint16)
    requires And(1, mask) == 0
    ensures And(Or(flags, F_INLINE), mask) == And(flags, mask)
  {
    AndOfOr(flags, 1, mask);
    AndZeroRight(And(flags, mask));
  }

  /** An emitted frame keeps kind, correlation, sender and every flag but the placement, carries the inline flag and a
      reference past the header exactly when there is a payload, and leaves the rest to the host. */
  lemma OutFrameMeaning(flags: uint16, kind: uint32, correlation: uint64, handle: uint32, length: uint32)
    requires !Has(flags, F_INLINE)
    ensures var f := OutFrame(flags, kind, correlation, handle, length);
      && f.eventKind == kind && f.correlation == correlation && f.payloadLen == length
      && And(f.flags, PATTERN_MASK) == And(flags, PATTERN_MASK)
      && (Has(f.flags, F_MORE) <==> Has(flags, F_MORE))
      && (Has(f.flags, F_INLINE) <==> length > 0)
    ensures var f := OutFrame(flags, kind, correlation, handle, length);
      && f == Frame(f.flags, 3, kind, 0, correlation, 0, 0, if length > 0 then 64 else 0, length, handle, 0, 0)
      && f.flags == if length > 0 then Or(flags, 1) else flags
  {
    InlineKeepsOtherFlags(flags, PATTERN_MASK);
    InlineKeepsOtherFlags(flags, F_MORE);
    AndOfOr(flags, 1, F_INLINE);
    assert And(1, 1) == 1;
    assert Or(0, 1) == 1;
  }

  lemma EmittedSlotDecodes(raw: bytes, flags: uint16, kind: uint32, correlation: uint64, handle: uint32,
                           payload: bytes)
    requires HDR_LEN + |payload| <= |raw| < 0x1_0000_0000
    requires Validate(OutFrame(flags, kind, correlation, handle, |payload|)) == OK
    ensures var f := OutFrame(flags, kind, correlation, handle, |payload|);
      DecodeSlot(WrittenSlot(raw, f, payload)) == Some(Event(f, payload)) && Sliceable(WrittenSlot(raw, f, payload))
  {
    AndHalves(Or(flags, 1), 1);
    OrHalves(flags, 1);
    DecodeOfWritten(raw, OutFrame(flags, kind, correlation, handle, |payload|), payload);
  }

  // ---- the endpoint ----

  /** A length the slot has room for is what the narrowed one says. */
  lemma EmitFits(budget: uint32, slotSize: uint32, length: nat)
    ensures length < 0x1_0000_0000 ==> Wrap32(length) == length
    ensures HDR_LEN + length <= slotSize ==> length < 0x1_0000_0000
  {
  }

  /** Why an emit is refused before the ring is tried, in the source's order. */
  function PayloadRefusal(attached: bool, budget: uint32, slotSize: uint32, epochChanged: bool,
                          payload: bytes): Option<BusError> {
    if !attached then Some(ErrProtocol)
    else if |payload| > 0 && (Wrap32(|payload|) > budget || HDR_LEN + |payload| > slotSize) then Some(ErrPayload)
    else if epochChanged then Some(ErrEpoch)
    else None
  }

  lemma MoreFlags()
    ensures Or(F_REQUEST, F_MORE) == 0x88 && Or(F_REPLY, F_MORE) == 0x90
  {
    OrHalves(1, 8);
    OrHalves(1, 16);
    OrHalves(2, 16); OrHalves(4, 32); OrHalves(8, 64); OrHalves(16, 128);
    OrHalves(2, 32); OrHalves(4, 64); OrHalves(8, 128);
  }

  /** `flags | FMore` for a request or a reply. */
  function WithMore(pattern: uint16): uint16
    requires pattern == F_REQUEST || pattern == F_REPLY
  {
    MoreFlags();
    Or(pattern, F_MORE)
  }

  /** The flags of a fragment, or none if its arguments are refused outright. */
  function FragmentFlags(pattern: uint16, correlation: uint64, payload: bytes, more: bool): Option<uint16>
    requires pattern == F_REQUEST || pattern == F_REPLY
  {
    if correlation == 0 then None
    else if !more then Some(pattern)
    else if payload == [] then None
    else Some(WithMore(pattern))
  }

  /** Encodes the header into a slot and copies the payload behind it. */
  method FillSlot(mem: array<byte>, off: nat, room: nat, f: Frame, payload: bytes) returns (ok: bool)
    requires off + room <= mem.Length && HDR_LEN + |payload| <= room
    modifies mem
    ensures ok <==> Validate(f) == OK
    ensures !ok ==> mem[..] == old(mem[..])
    ensures ok ==> mem[..] == Splice(Splice(old(mem[..]), off, Header(f)), off + HDR_LEN, payload)
  {
    var written := Encode(f, mem, off, room);
    if written != HDR_LEN { return false; }
    if |payload| > 0 {
      Copy(mem, off + HDR_LEN, payload);
    } else {
      SpliceNothing(mem[..], off + HDR_LEN, payload);
    }
    return true;
  }

  class Control {
    var epoch: uint64
  }

  class Client {
    const handle: uint32
    const slotSize: uint32
    const inlineBudget: uint32
    const attachedEpoch: uint64
    const control: Control?
    const inbound: Ring
    const outbound: Ring
    var pendingRead: bool

    /** The geometry a client works with: both rings in one mapping without a shared byte, slots of the
        negotiated size with room for a header, and a read held only over a published slot. */
    ghost predicate Valid()
      reads this, inbound.mem
    {
      && inbound.mem == outbound.mem
      && inbound.Valid() && outbound.Valid()
      && (inbound.Limit() <= outbound.base || outbound.Limit() <= inbound.base)
      && inbound.slotSize == outbound.slotSize == slotSize
      && HDR_LEN <= slotSize
      && (pendingRead ==> inbound.Contents() != [])
    }

    /** Inbound slots not yet returned by a poll. */
    ghost function Backlog(): seq<bytes>
      requires Valid()
      reads this, inbound.mem
    {
      if pendingRead then inbound.Contents()[1..] else inbound.Contents()
    }

    /** The geometry the operations rest on; nothing here tests it. */
    constructor (handle: uint32, slotSize: uint32, inlineBudget: uint32, control: Control,
                 inbound: Ring, outbound: Ring)
      requires inbound.mem == outbound.mem && inbound.Valid() && outbound.Valid()
      ensures Valid() <==>
        && (inbound.Limit() <= outbound.base || outbound.Limit() <= inbound.base)
        && inbound.slotSize == outbound.slotSize == slotSize && HDR_LEN <= slotSize
      ensures Valid() ==> Backlog() == inbound.Contents()
      ensures this.inbound == inbound && this.outbound == outbound && this.control == control
    {
      this.handle, this.slotSize, this.inlineBudget := handle, slotSize, inlineBudget;
      this.control, attachedEpoch := control, control.epoch;
      this.inbound, this.outbound := inbound, outbound;
      pendingRead := false;
    }

    predicate EpochChanged()
      reads control
    {
      control != null && control.epoch != attachedEpoch
    }

    /** What an emit returns: the first refusal in the source's order, if any. */
    ghost function EmitOutcome(flags: uint16, kind: uint32, correlation: uint64, payload: bytes): Option<BusError>
      requires Valid()
      reads this, outbound.mem, control
    {
      var refusal := PayloadRefusal(control != null, inlineBudget, slotSize, EpochChanged(), payload);
      if refusal.Some? then refusal
      else if |outbound.Contents()| == outbound.capacity then Some(ErrWouldBlock)
      else if Validate(OutFrame(flags, kind, correlation, handle, Wrap32(|payload|))) != OK then Some(ErrProtocol)
      else None
    }

    /** A successful emit: one more slot, which decodes to the event sent. */
    ghost predicate Sent(before: seq<bytes>, after: seq<bytes>,
                         flags: uint16, kind: uint32, correlation: uint64, payload: bytes)
    {
      && |after| == |before| + 1 && after[..|before|] == before
      && |payload| < 0x1_0000_0000
      && DecodeSlot(after[|before|]) ==
           Some(Event(OutFrame(flags, kind, correlation, handle, |payload|), payload))
      && Sliceable(after[|before|])
    }

    method Emit(flags: uint16, kind: uint32, correlation: uint64, payload: bytes)
      returns (err: Option<BusError>)
      requires Valid()
      modifies outbound.mem
      ensures Valid()
      ensures err == old(EmitOutcome(flags, kind, correlation, payload))
      ensures err.Some? ==> outbound.mem[..] == old(outbound.mem[..])
      ensures err.None? ==> Sent(old(outbound.Contents()), outbound.Contents(), flags, kind, correlation, payload)
      ensures inbound.Contents() == old(inbound.Contents())
      ensures err.None? ==> |payload| <= inlineBudget && HDR_LEN + |payload| <= slotSize
      ensures control != null && 0 < |payload| < 0x1_0000_0000
              && (|payload| > inlineBudget || HDR_LEN + |payload| > slotSize) ==>
        err == Some(ErrPayload) && outbound.Contents() == old(outbound.Contents())
    {
      hide Queue, Attached, And, Header, AgreeOutside, RingBytes, Wrap64, Validate, DecodeSlot, Sliceable, OutFrame;
      EmitFits(inlineBudget, slotSize, |payload|);
      if control == null { return Some(ErrProtocol); }
      if |payload| > 0 && (Wrap32(|payload|) > inlineBudget || HDR_LEN + |payload| > slotSize) {
        return Some(ErrPayload);
      }
      if EpochChanged() { return Some(ErrEpoch); }
      var slot := outbound.ProduceBegin();
      if slot.None? { return Some(ErrWouldBlock); }
      var f := OutFrame(flags, kind, correlation, handle, |payload|);
      var ok := FillAndCommit(slot.value, flags, kind, correlation, payload, f);
      if !ok { return Some(ErrProtocol); }
      return None;
    }

    /** Encodes the header into the slot just begun, copies the payload behind it and publishes; a frame
        the codec refuses leaves the slot unpublished. */
    method FillAndCommit(off: nat, ghost flags: uint16, ghost kind: uint32, ghost correlation: uint64,
                         payload: bytes, f: Frame) returns (ok: bool)
      requires Valid() && |outbound.Contents()| < outbound.capacity && HDR_LEN + |payload| <= slotSize
      requires off == outbound.base + SlotOffset(outbound.Shape(), Head(outbound.Region()))
      requires f == OutFrame(flags, kind, correlation, handle, |payload|)
      modifies outbound.mem
      ensures Valid() && inbound.Contents() == old(inbound.Contents())
      ensures ok <==> Validate(f) == OK
      ensures !ok ==> outbound.mem[..] == old(outbound.mem[..])
      ensures ok ==> Sent(old(outbound.Contents()), outbound.Contents(), flags, kind, correlation, payload)
    {
      hide Queue, And, Header, Splice, WrittenSlot, Wrap64, Validate, DecodeSlot, Sliceable, OutFrame, U64, Val, Has,
           Fields, Decode, AgreeOutside;
      ghost var before := outbound.mem[..];
      ghost var raw := SlotBytes(outbound.Shape(), outbound.Region(), Head(outbound.Region()));
      ghost var contents := outbound.Contents();
      SlotBounds(outbound.Shape(), Head(outbound.Region()));
      SlotWritten(before, outbound.base, outbound.Shape(), f, payload);
      ok := FillSlot(outbound.mem, off, slotSize, f, payload);
      if !ok { return; }
      AgreeOnRange(before, outbound.mem[..], outbound.base, outbound.Limit(), inbound.base, inbound.Limit());
      EmittedSlotDecodes(raw, flags, kind, correlation, handle, payload);
      ghost var filled := outbound.mem[..];
      outbound.ProduceCommit();
      AgreeOnRange(filled, outbound.mem[..], outbound.base, outbound.Limit(), inbound.base, inbound.Limit());
      assert outbound.Contents()[..|contents|] == contents;
    }

    /** The next inbound event, if any. The slot returned stays held until the next poll. */
    method Poll() returns (event: Option<Event>, err: Option<BusError>)
      requires Valid()
      requires control != null && !EpochChanged() && Backlog() != [] ==> Sliceable(Backlog()[0])
      modifies this, inbound.mem
      ensures Valid()
      ensures err == if control == null then Some(ErrProtocol)
                     else if old(EpochChanged()) then Some(ErrEpoch) else None
      ensures err.Some? ==> event.None? && Backlog() == old(Backlog()) && pendingRead == old(pendingRead)
      ensures err.None? ==>
        var waiting := old(Backlog());
        if waiting == [] then event.None? && Backlog() == [] && !pendingRead
        else event == DecodeSlot(waiting[0]) && Backlog() == waiting[1..] && (pendingRead <==> event.Some?)
      ensures pendingRead && err.None? ==> inbound.Contents() == old(Backlog())
      ensures outbound.Contents() == old(outbound.Contents())
    {
      hide Queue, Attached, And, Validate, Fields, Wrap64, RingBytes, SlotBytes, U64;
      if control == null { return None, Some(ErrProtocol); }
      if EpochChanged() { return None, Some(ErrEpoch); }
      if pendingRead {
        ReleaseInbound();
        pendingRead := false;
      }
      var slot := inbound.ConsumeBegin();
      if slot.None? { return None, None; }
      var s := inbound.mem[slot.value..slot.value + slotSize];
      ghost var waiting := inbound.Contents();
      assert s == waiting[0];
      var decoded := Decode(s);
      if decoded.Refused? {
        ReleaseInbound();
        return None, None;
      }
      var f := decoded.frame;
      FaultsExactly(f, slotSize);
      var payload: bytes := [];
      if Has(f.flags, F_INLINE) && f.payloadLen > 0 && Wrap64(f.payloadRef + f.payloadLen) <= slotSize {
        payload := s[f.payloadRef..Wrap64(f.payloadRef + f.payloadLen)];
      }
      pendingRead := true;
      return Some(Event(f, payload)), None;
    }

    /** One ordered request fragment. */
    method RequestFragment(kind: uint32, correlation: uint64, payload: bytes, more: bool)
      returns (err: Option<BusError>)
      requires Valid()
      modifies outbound.mem
      ensures Valid() && inbound.Contents() == old(inbound.Contents())
      ensures var flags := FragmentFlags(F_REQUEST, correlation, payload, more);
        err == if flags.None? then Some(ErrProtocol)
               else old(EmitOutcome(flags.value, kind, correlation, payload))
      ensures err.Some? ==> outbound.Contents() == old(outbound.Contents())
      ensures err.None? ==> Sent(old(outbound.Contents()), outbound.Contents(),
                                 FragmentFlags(F_REQUEST, correlation, payload, more).value, kind, correlation, payload)
    {
      if correlation == 0 { return Some(ErrProtocol); }
      var flags: uint16 := F_REQUEST;
      if more {
        if |payload| == 0 { return Some(ErrProtocol); }
        flags := WithMore(F_REQUEST);
      }
      err := Emit(flags, kind, correlation, payload);
    }

    /** One ordered reply fragment. */
    method ReplyFragment(kind: uint32, correlation: uint64, payload: bytes, more: bool)
      returns (err: Option<BusError>)
      requires Valid()
      modifies outbound.mem
      ensures Valid() && inbound.Contents() == old(inbound.Contents())
      ensures var flags := FragmentFlags(F_REPLY, correlation, payload, more);
        err == if flags.None? then Some(ErrProtocol)
               else old(EmitOutcome(flags.value, kind, correlation, payload))
      ensures err.Some? ==> outbound.Contents() == old(outbound.Contents())
      ensures err.None? ==> Sent(old(outbound.Contents()), outbound.Contents(),
                                 FragmentFlags(F_REPLY, correlation, payload, more).value, kind, correlation, payload)
    {
      if correlation == 0 { return Some(ErrProtocol); }
      var flags: uint16 := F_REPLY;
      if more {
        if |payload| == 0 { return Some(ErrProtocol); }
        flags := WithMore(F_REPLY);
      }
      err := Emit(flags, kind, correlation, payload);
    }

    method Cancel(kind: uint32, correlation: uint64) returns (err: Option<BusError>)
      requires Valid()
      modifies outbound.mem
      ensures Valid() && inbound.Contents() == old(inbound.Contents())
      ensures err == if correlation == 0 then Some(ErrProtocol)
                     else old(EmitOutcome(F_CANCEL, kind, correlation, []))
      ensures err.Some? ==> outbound.Contents() == old(outbound.Contents())
      ensures err.None? ==> Sent(old(outbound.Contents()), outbound.Contents(), F_CANCEL, kind, correlation, [])
    {
      if correlation == 0 { return Some(ErrProtocol); }
      err := Emit(F_CANCEL, kind, correlation, []);
    }

    method ReleaseInbound()
      requires inbound.mem == outbound.mem && inbound.Valid() && outbound.Valid()
      requires inbound.Limit() <= outbound.base || outbound.Limit() <= inbound.base
      requires inbound.Contents() != []
      modifies inbound.mem
      ensures inbound.Valid() && outbound.Valid()
      ensures inbound.Contents() == old(inbound.Contents())[1..]
      ensures outbound.Contents() == old(outbound.Contents())
    {
      ghost var before := inbound.mem[..];
      inbound.ConsumeCommit();
      AgreeOnRange(before, inbound.mem[..], inbound.base, inbound.Limit(), outbound.base, outbound.Limit());
    }
  }

  /** A client over any mapped queue pair that attaches. Its geometry holds exactly if the headers keep the rings
      apart and their slots have the size the client was told, with room for a frame: an attach tests neither. */
  method ClientOver(mem: array<byte>, control: Control, handle: uint32, slotSize: uint32, inlineBudget: uint32)
    returns (client: Client?)
    ensures client != null <==> PairAttaches(mem[..])
    ensures client != null ==>
      && fresh(client) && client.outbound.mem == mem && client.control == control
      && (client.Valid() <==> RingsApart(mem[..]) && SlotsAre(mem[..], slotSize) && HDR_LEN <= slotSize)
  {
    hide PairAttaches, RingsApart, Attached, RingBytes, HeaderGeometry, U32;
    var inbound, outbound := AttachQueuePair(mem);
    if inbound == null { return null; }
    client := new Client(handle, slotSize, inlineBudget, control, inbound, outbound);
  }

  /** Where a poll's own test of the payload's end lets a frame through that a placement check refuses: the
      64-bit end has wrapped, or the reference points into the header. */
  lemma PollTestAgainstPlacement(f: Frame, slotSize: uint32, arenaSize: uint64)
    requires Validate(f) == OK && f.payloadLen > 0 && Has(f.flags, F_INLINE)
    ensures var end := f.payloadRef + f.payloadLen;
      Wrap64(end) <= slotSize && CheckPlacement(f, slotSize, arenaSize) != OK
      <==> (end >= 0x1_0000_0000_0000_0000 && Wrap64(end) <= slotSize) || (f.payloadRef < HDR_LEN && end <= slotSize)
  {
    PlacementIsInsideSlot(f, slotSize, arenaSize);
    hide And, Validate, CheckPlacement;
    WrapOnce(f.payloadRef + f.payloadLen);
  }

  lemma SpliceNothing(s: bytes, off: nat, v: bytes)
    requires v == [] && off <= |s|
    ensures Splice(s, off, v) == s
  {
  }

  /** Header and payload written at a ring's head slot, seen from the ring. */
  lemma SlotWritten(before: bytes, base: nat, g: Geometry, f: Frame, payload: bytes)
    requires base + RingBytes(g) <= |before| && HDR_LEN + |payload| <= g.slotSize
    requires Attached(g, before[base..base + RingBytes(g)]) && HasRoom(g, before[base..base + RingBytes(g)])
    ensures var r := before[base..base + RingBytes(g)];
            var off := SlotOffset(g, Head(r));
            && base + off + g.slotSize <= |before|
            && var after := Splice(Splice(before, base + off, Header(f)), base + off + HDR_LEN, payload);
               var s := after[base..base + RingBytes(g)];
               && AgreeOutside(before, after, base, base + RingBytes(g))
               && Attached(g, s) && Head(s) == Head(r)
               && Queue(g, s) == Queue(g, r)
               && SlotBytes(g, s, Head(s)) == WrittenSlot(SlotBytes(g, r, Head(r)), f, payload)
  {
    hide And, Wrap64, Queue, Header, Val, U64, Splice, AgreeOutside, RingBytes, SlotOffset, HasRoom;
    var n := RingBytes(g);
    var r := before[base..base + n];
    var off := SlotOffset(g, Head(r));
    SlotBounds(g, Head(r));
    SplicesInside(before, base, base + n, off, Header(f), off + HDR_LEN, payload);
    SplicesInside(r, off, off + g.slotSize, 0, Header(f), HDR_LEN, payload);
    WriteKeepsQueue(g, r, Splice(Splice(r, off, Header(f)), off + HDR_LEN, payload));
  }

  /** Two writes inside a stretch are the same two writes on the stretch alone. */
  lemma SplicesInside(s: bytes, lo: nat, hi: nat, i: nat, v: bytes, j: nat, w: bytes)
    requires lo <= hi <= |s| && lo + i + |v| <= hi && lo + j + |w| <= hi
    ensures var t := Splice(Splice(s, lo + i, v), lo + j, w);
      t[lo..hi] == Splice(Splice(s[lo..hi], i, v), j, w) && AgreeOutside(s, t, lo, hi)
  {
    SpliceInside(s, lo, hi, i, v);
    SpliceInside(Splice(s, lo + i, v), lo, hi, j, w);
  }
}
