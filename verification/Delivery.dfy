/** What an endpoint's polls deliver of what its peer's emits publish, over every interleaving of the two
    sides' single loads, stores and byte writes (server-go/bus/client.go:188-220, 279-305 over
    server-go/bus/ring.go:83-126).

    The ring and the histories of its slots are those of RingProtocol. On top of it the sender goes through its
    emits, writing header and payload byte by byte into the slot it has begun, and the receiver goes through
    its polls: releasing the slot held since the last one, looking for the next, decoding it, and either
    handing it out and holding it or releasing it at once. */
module Delivery {
  import opened Bytes
  import opened Options
  import opened RingLayout
  import opened Wire
  import opened Events
  import opened Client
  import R = RingProtocol

  // ---- emits ----

  /** One emit that got past its own checks. */
  datatype Emit = Emit(flags: uint16, kind: uint32, correlation: uint64, handle: uint32, payload: bytes)

  /** An emit turns to the ring only with a payload that fits the slot behind a header. */
  predicate Fits(g: Geometry, e: Emit) {
    e.payload == [] || HDR_LEN + |e.payload| <= g.slotSize
  }

  function FrameOf(e: Emit): Frame
    requires |e.payload| < 0x1_0000_0000
  {
    OutFrame(e.flags, e.kind, e.correlation, e.handle, |e.payload|)
  }

  /** The codec accepts the frame and has room for its header. */
  predicate Encodable(g: Geometry, e: Emit)
    requires Fits(g, e)
  {
    HDR_LEN <= g.slotSize && Validate(FrameOf(e)) == OK
  }

  /** The event a peer sees for an emit: same kind, correlation and payload, the flags plus the inline flag. */
  function Seen(e: Emit): Event
    requires |e.payload| < 0x1_0000_0000
  {
    Event(FrameOf(e), e.payload)
  }

  // ---- an emit's writes ----

  datatype Write = Write(at: nat, value: byte)

  function InOrder(off: nat, data: bytes): (ws: seq<Write>)
    ensures |ws| == |data|
    ensures forall i :: 0 <= i < |ws| ==> ws[i] == Write(off + i, data[i])
  {
    seq(|data|, i requires 0 <= i < |data| => Write(off + i, data[i]))
  }

  /** The byte writes of an emit: the header's room cleared, the header's fields, the payload behind it. */
  function Writes(e: Emit): seq<Write>
    requires |e.payload| < 0x1_0000_0000
  {
    InOrder(0, Zeros(HDR_LEN)) + InOrder(0, Header(FrameOf(e))) + InOrder(HDR_LEN, e.payload)
  }

  predicate Within(ws: seq<Write>, size: nat) { forall i :: 0 <= i < |ws| ==> ws[i].at < size }

  /** What writes leave of a slot. */
  function Written(raw: bytes, ws: seq<Write>): (s: bytes)
    requires Within(ws, |raw|)
    ensures |s| == |raw|
  {
    if ws == [] then raw
    else Written(raw, ws[..|ws| - 1])[ws[|ws| - 1].at := ws[|ws| - 1].value]
  }

  lemma {:induction false} WrittenAppend(raw: bytes, a: seq<Write>, b: seq<Write>)
    requires Within(a, |raw|) && Within(b, |raw|)
    ensures Within(a + b, |raw|) && Written(raw, a + b) == Written(Written(raw, a), b)
  {
    if b == [] {
      assert a + b == a;
    } else {
      var n := |b| - 1;
      WrittenAppend(raw, a, b[..n]);
      assert (a + b)[..|a| + n] == a + b[..n];
    }
  }

  lemma {:induction false} WrittenInOrder(raw: bytes, off: nat, data: bytes)
    requires off + |data| <= |raw|
    ensures Within(InOrder(off, data), |raw|) && Written(raw, InOrder(off, data)) == Splice(raw, off, data)
  {
    if data == [] {
      SpliceNothing(raw, off, data);
    } else {
      var n := |data| - 1;
      WrittenInOrder(raw, off, data[..n]);
      assert InOrder(off, data)[..n] == InOrder(off, data[..n]);
      SpliceByte(raw, off, data[..n], data[n]);
      assert data[..n] + [data[n]] == data;
    }
  }

  /** All of an emit's writes leave exactly its header and payload, whatever the slot held before. */
  lemma WritesFillSlot(raw: bytes, e: Emit)
    requires HDR_LEN + |e.payload| <= |raw| < 0x1_0000_0000
    ensures Within(Writes(e), |raw|) && Written(raw, Writes(e)) == WrittenSlot(raw, FrameOf(e), e.payload)
  {
    hide InOrder, Written, Splice, Header, Within, FrameOf;
    var head := InOrder(0, Zeros(HDR_LEN)) + InOrder(0, Header(FrameOf(e)));
    WrittenInOrder(raw, 0, Zeros(HDR_LEN));
    var cleared := Splice(raw, 0, Zeros(HDR_LEN));
    WrittenInOrder(cleared, 0, Header(FrameOf(e)));
    WrittenAppend(raw, InOrder(0, Zeros(HDR_LEN)), InOrder(0, Header(FrameOf(e))));
    SpliceOver(raw, 0, Zeros(HDR_LEN), Header(FrameOf(e)));
    var headed := Splice(raw, 0, Header(FrameOf(e)));
    WrittenInOrder(headed, HDR_LEN, e.payload);
    WrittenAppend(raw, head, InOrder(HDR_LEN, e.payload));
  }

  // ---- the machine ----

  /** What the sender is busy with: nothing, an emit with how many of its writes are done over what the slot
      held, or the publication of a slot by someone else's rules. */
  datatype Sender = Quiet | Sending(emit: Emit, written: nat, raw: bytes) | Foreign

  /** Where the receiver is: between polls with or without a slot held, or inside a poll. */
  datatype Poll = Resting(holding: bool) | Freeing | Looking | Decoding | Skipping

  /** A published slot: the end of an emit, or foreign bytes. */
  datatype Publication = Sent(emit: Emit) | Raw(slot: bytes)

  datatype State = State(ring: R.State, sender: Sender, poll: Poll, published: seq<Publication>,
                         returned: seq<Event>)

  datatype Step =
    | EmitStarts(emit: Emit) | ForeignStarts | LooksForRoom
    | EmitWrites | ForeignWrites(at: nat, value: byte) | EmitGivesUp | Reloads | Publishes
    | PollStarts | PollReloads | PollReleases | PollLoadsTail | PollLooks | PollDecodes

  /** The access to the ring a step makes, if any. */
  function Access(s: State, step: Step): Option<R.Step> {
    match step
    case EmitStarts(_) => Some(R.LoadHead)
    case ForeignStarts => Some(R.LoadHead)
    case LooksForRoom => Some(R.LoadTailForRoom)
    case EmitWrites =>
      if s.sender.Sending? && |s.sender.emit.payload| < 0x1_0000_0000 && s.sender.written < |Writes(s.sender.emit)| then
        var w := Writes(s.sender.emit)[s.sender.written];
        Some(R.WriteByte(w.at, w.value))
      else None
    case ForeignWrites(at, value) => Some(R.WriteByte(at, value))
    case EmitGivesUp => Some(R.Abandon)
    case Reloads => Some(R.ReloadHead)
    case Publishes => Some(R.StoreNewHead)
    case PollStarts => None
    case PollReloads => Some(R.ReloadTail)
    case PollReleases => Some(R.StoreNewTail)
    case PollLoadsTail => Some(R.LoadTail)
    case PollLooks => Some(R.LoadHeadForData)
    case PollDecodes => None
  }

  /** The slot the receiver has begun to read, as its bytes are now. */
  function Slot(g: Geometry, s: State): bytes
    requires R.Shaped(g, s.ring) && s.ring.consumer.Reading?
  {
    SlotBytes(g, s.ring.ring, s.ring.consumer.slot)
  }

  /** Whether the program of sender or receiver has the step next. A poll whose slice would fault goes no
      further. */
  predicate Enabled(g: Geometry, s: State, step: Step) {
    && R.Shaped(g, s.ring)
    && (Access(s, step).Some? ==> R.Enabled(g, s.ring, Access(s, step).value))
    && match step
       case EmitStarts(e) => s.sender.Quiet? && Fits(g, e)
       case ForeignStarts => s.sender.Quiet?
       case LooksForRoom => !s.sender.Quiet?
       case EmitWrites =>
         s.sender.Sending? && Fits(g, s.sender.emit) && Encodable(g, s.sender.emit)
         && s.sender.written < |Writes(s.sender.emit)|
       case ForeignWrites(_, _) => s.sender.Foreign?
       case EmitGivesUp => s.sender.Sending? && Fits(g, s.sender.emit) && !Encodable(g, s.sender.emit)
       case Reloads =>
         || s.sender.Foreign?
         || (s.sender.Sending? && Fits(g, s.sender.emit) && Encodable(g, s.sender.emit)
             && s.sender.written == |Writes(s.sender.emit)|)
       case Publishes => !s.sender.Quiet?
       case PollStarts => s.poll.Resting?
       case PollReloads => s.poll.Freeing? || s.poll.Skipping?
       case PollReleases => s.poll.Freeing? || s.poll.Skipping?
       case PollLoadsTail => s.poll.Looking?
       case PollLooks => s.poll.Looking?
       case PollDecodes => s.poll.Decoding? && s.ring.consumer.Reading? && Sliceable(Slot(g, s))
  }

  function NextRing(g: Geometry, s: State, step: Step): (r: R.State)
    requires Enabled(g, s, step)
    ensures R.Shaped(g, r)
  {
    if Access(s, step).Some? then R.Next(g, s.ring, Access(s, step).value) else s.ring
  }

  function Next(g: Geometry, s: State, step: Step): State
    requires Enabled(g, s, step)
  {
    var r := NextRing(g, s, step);
    match step
    case EmitStarts(e) => s.(ring := r, sender := Sending(e, 0, []))
    case ForeignStarts => s.(ring := r, sender := Foreign)
    case LooksForRoom =>
      s.(ring := r,
         sender := if !r.producer.Filling? then Quiet
                   else if s.sender.Sending? then s.sender.(raw := SlotBytes(g, r.ring, r.producer.slot))
                   else Foreign)
    case EmitWrites => s.(ring := r, sender := s.sender.(written := s.sender.written + 1))
    case EmitGivesUp => s.(ring := r, sender := Quiet)
    case Publishes =>
      var p := if s.sender.Sending? then Sent(s.sender.emit)
               else Raw(SlotBytes(g, s.ring.ring, s.ring.producer.slot));
      s.(ring := r, sender := Quiet, published := s.published + [p])
    case PollStarts => s.(poll := if s.poll.holding then Freeing else Looking)
    case PollReleases => s.(ring := r, poll := if s.poll.Freeing? then Looking else Resting(false))
    case PollLooks => s.(ring := r, poll := if r.consumer.Reading? then Decoding else Resting(false))
    case PollDecodes =>
      (match DecodeSlot(Slot(g, s))
       case Some(e) => s.(poll := Resting(true), returned := s.returned + [e])
       case None => s.(poll := Skipping))
    case _ => s.(ring := r)
  }

  predicate Runs(g: Geometry, s: State, steps: seq<Step>)
    decreases |steps|
  {
    steps == [] || (Enabled(g, s, steps[0]) && Runs(g, Next(g, s, steps[0]), steps[1..]))
  }

  function Run(g: Geometry, s: State, steps: seq<Step>): State
    requires Runs(g, s, steps)
    decreases |steps|
  {
    if steps == [] then s else Run(g, Next(g, s, steps[0]), steps[1..])
  }

  // ---- what is kept ----

  /** The decodable subsequence of a run of slots. */
  function Decodable(slots: seq<bytes>): seq<Event> {
    if slots == [] then []
    else (match DecodeSlot(slots[0]) case None => [] case Some(e) => [e]) + Decodable(slots[1..])
  }

  /** The events a publication is good for. */
  function Good(p: Publication): seq<Event> {
    match p
    case Sent(e) => if |e.payload| < 0x1_0000_0000 then [Seen(e)] else []
    case Raw(slot) => Decodable([slot])
  }

  function AllGood(ps: seq<Publication>): seq<Event> {
    if ps == [] then [] else Good(ps[0]) + AllGood(ps[1..])
  }

  /** The slot held, if its decoding is over: handed out, or about to be skipped. */
  function DealtWith(s: State): seq<bytes> {
    if s.poll.Decoding? then []
    else match s.ring.consumer
      case Reading(_, seen) => [seen]
      case Releasing(_, seen, _) => [seen]
      case _ => []
  }

  predicate SlotFits(g: Geometry, s: State, e: Emit, written: nat, raw: bytes)
    requires R.Shaped(g, s.ring) && Fits(g, e)
  {
    match s.ring.producer
    case Idle => false
    case HeadLoaded(_) => written == 0
    case Filling(slot) =>
      && |raw| == g.slotSize
      && (Encodable(g, e) ==>
            && written <= |Writes(e)| && Within(Writes(e)[..written], |raw|)
            && SlotBytes(g, s.ring.ring, slot) == Written(raw, Writes(e)[..written]))
    case Publishing(slot, _) =>
      && |raw| == g.slotSize && Encodable(g, e)
      && SlotBytes(g, s.ring.ring, slot) == WrittenSlot(raw, FrameOf(e), e.payload)
  }

  predicate SenderOk(g: Geometry, s: State)
    requires R.Shaped(g, s.ring)
  {
    match s.sender
    case Quiet => s.ring.producer.Idle?
    case Sending(e, written, raw) => Fits(g, e) && SlotFits(g, s, e, written, raw)
    case Foreign => !s.ring.producer.Idle?
  }

  predicate PollOk(s: State) {
    var c := s.ring.consumer;
    match s.poll
    case Resting(holding) => if holding then c.Reading? else c.Waiting?
    case Freeing => c.Reading? || c.Releasing?
    case Skipping => c.Reading? || c.Releasing?
    case Looking => c.Waiting? || c.TailLoaded?
    case Decoding => c.Reading?
  }

  /** A slot is what was published: it decodes to the emit's event, or it is the foreign bytes. */
  predicate Carries(slot: bytes, p: Publication) {
    match p
    case Sent(e) => |e.payload| < 0x1_0000_0000 && DecodeSlot(slot) == Some(Seen(e))
    case Raw(bytes) => slot == bytes
  }

  predicate PublishedOk(s: State) {
    && |s.published| == |s.ring.committed|
    && forall i :: 0 <= i < |s.published| ==> Carries(s.ring.committed[i], s.published[i])
  }

  predicate ReturnedOk(s: State) { s.returned == Decodable(s.ring.consumed + DealtWith(s)) }

  predicate Sound(g: Geometry, s: State) {
    R.Fifo(g, s.ring) && SenderOk(g, s) && PollOk(s) && PublishedOk(s) && ReturnedOk(s)
  }

  /** An endpoint pair over an attached ring at rest; what the ring holds is foreign. */
  function AtRest(g: Geometry, r: bytes): State
    requires Attached(g, r)
  {
    var q := Queue(g, r);
    State(R.AtRest(g, r), Quiet, Resting(false), seq(|q|, i requires 0 <= i < |q| => Raw(q[i])), [])
  }

  lemma AtRestIsSound(g: Geometry, r: bytes)
    requires Attached(g, r)
    ensures Sound(g, AtRest(g, r))
  {
    R.AttachedIsFifo(g, r);
    hide R.Fifo, Queue;
  }

  // ---- the sender's steps ----

  /** A byte written into a slot, seen from the slot. */
  lemma SlotAfterWrite(g: Geometry, r: bytes, index: uint64, at: nat, value: byte)
    requires RingLayout.Sound(g) && |r| == RingBytes(g) && at < g.slotSize
    ensures SlotOffset(g, index) + at < |r|
    ensures SlotBytes(g, r[SlotOffset(g, index) + at := value], index) == SlotBytes(g, r, index)[at := value]
  {
    SlotBounds(g, index);
    hide SlotOffset, RingBytes;
  }

  lemma OneMoreWrite(raw: bytes, ws: seq<Write>, n: nat)
    requires n < |ws| && Within(ws, |raw|)
    ensures Within(ws[..n], |raw|) && Within(ws[..n + 1], |raw|)
    ensures Written(raw, ws[..n + 1]) == Written(raw, ws[..n])[ws[n].at := ws[n].value]
  {
    assert ws[..n + 1][..n] == ws[..n];
  }

  lemma AllWritten(g: Geometry, raw: bytes, e: Emit)
    requires Fits(g, e) && Encodable(g, e) && |raw| == g.slotSize
    ensures Within(Writes(e), |raw|)
    ensures Written(raw, Writes(e)[..|Writes(e)|]) == WrittenSlot(raw, FrameOf(e), e.payload)
  {
    hide Writes, Written, WrittenSlot, Validate;
    WritesFillSlot(raw, e);
    assert Writes(e)[..|Writes(e)|] == Writes(e);
  }

  lemma WriteKeepsSender(g: Geometry, s: State)
    requires Sound(g, s) && Enabled(g, s, EmitWrites)
    ensures SenderOk(g, Next(g, s, EmitWrites))
  {
    hide R.Fifo, Writes, Written, SlotBytes, SlotOffset, Validate, Within, PublishedOk, ReturnedOk;
    var e, n, raw := s.sender.emit, s.sender.written, s.sender.raw;
    AllWritten(g, raw, e);
    OneMoreWrite(raw, Writes(e), n);
    var w := Writes(e)[n];
    SlotAfterWrite(g, s.ring.ring, s.ring.producer.slot, w.at, w.value);
  }

  lemma ReloadKeepsSender(g: Geometry, s: State)
    requires Sound(g, s) && Enabled(g, s, Reloads)
    ensures SenderOk(g, Next(g, s, Reloads))
  {
    hide R.Fifo, Writes, Written, SlotBytes, Validate, Within, PublishedOk, ReturnedOk, WrittenSlot;
    if s.sender.Sending? { AllWritten(g, s.sender.raw, s.sender.emit); }
  }

  lemma RoomKeepsSender(g: Geometry, s: State)
    requires Sound(g, s) && Enabled(g, s, LooksForRoom)
    ensures SenderOk(g, Next(g, s, LooksForRoom))
  {
    hide R.Fifo, Writes, SlotBytes, Validate, PublishedOk, ReturnedOk;
    if s.sender.Sending? && Encodable(g, s.sender.emit) {
      assert Writes(s.sender.emit)[..0] == [];
    }
  }

  /** The slot a finished emit publishes decodes to its event. */
  lemma PublishedDecodes(g: Geometry, s: State)
    requires Sound(g, s) && Enabled(g, s, Publishes) && s.sender.Sending?
    ensures Carries(SlotBytes(g, s.ring.ring, s.ring.producer.slot), Sent(s.sender.emit))
  {
    hide R.Fifo, Writes, SlotBytes, Validate, PublishedOk, ReturnedOk, WrittenSlot, OutFrame, DecodeSlot, Sliceable;
    var e := s.sender.emit;
    EmittedSlotDecodes(s.sender.raw, e.flags, e.kind, e.correlation, e.handle, e.payload);
  }

  lemma PublishKeepsPublished(g: Geometry, s: State)
    requires Sound(g, s) && Enabled(g, s, Publishes)
    ensures PublishedOk(Next(g, s, Publishes)) && SenderOk(g, Next(g, s, Publishes))
  {
    if s.sender.Sending? { PublishedDecodes(g, s); }
    PublishStep(g, s);
    hide R.Fifo, SlotBytes, Carries, PollOk, ReturnedOk, Enabled, Next;
  }

  lemma PublishStep(g: Geometry, s: State)
    requires Enabled(g, s, Publishes)
    ensures var t := Next(g, s, Publishes);
      var slot := SlotBytes(g, s.ring.ring, s.ring.producer.slot);
      && t.ring.producer.Idle? && t.sender.Quiet? && !s.sender.Quiet? && R.Shaped(g, t.ring)
      && t.ring.committed == s.ring.committed + [slot]
      && t.published == s.published + [if s.sender.Sending? then Sent(s.sender.emit) else Raw(slot)]
  {
    hide SlotBytes, StoreHead, Wrap64;
  }

  predicate SendStep(step: Step) {
    || step.EmitStarts? || step.ForeignStarts? || step.LooksForRoom? || step.EmitWrites? || step.ForeignWrites?
    || step.EmitGivesUp? || step.Reloads? || step.Publishes?
  }

  /** Nothing the sender does touches the receiver. */
  lemma SendKeepsReceiver(g: Geometry, s: State, step: Step)
    requires Sound(g, s) && Enabled(g, s, step) && SendStep(step)
    ensures PollOk(Next(g, s, step)) && ReturnedOk(Next(g, s, step))
  {
    hide R.Fifo, SlotBytes, SlotOffset, Carries, StoreHead, Decodable, Writes, Validate, Encodable;
  }

  lemma SendKeepsSender(g: Geometry, s: State, step: Step)
    requires Sound(g, s) && Enabled(g, s, step) && SendStep(step)
    ensures SenderOk(g, Next(g, s, step)) && PublishedOk(Next(g, s, step))
  {
    match step
    case EmitWrites =>
      WriteKeepsSender(g, s);
      hide R.Fifo, SlotBytes, SlotOffset, Carries, Decodable, Writes, Validate, SenderOk;
    case Reloads =>
      ReloadKeepsSender(g, s);
      hide R.Fifo, SlotBytes, Carries, Decodable, Writes, Validate, SenderOk;
    case LooksForRoom =>
      RoomKeepsSender(g, s);
      hide R.Fifo, SlotBytes, Carries, Decodable, Writes, Validate, SenderOk;
    case Publishes => PublishKeepsPublished(g, s);
    case _ => hide R.Fifo, SlotBytes, SlotOffset, Carries, Decodable, Writes, Validate;
  }

  // ---- the receiver's steps ----

  /** Storing the tail leaves every slot's bytes alone. */
  lemma ReleaseKeepsSlots(g: Geometry, r: bytes, v: uint64, index: uint64)
    requires RingLayout.Sound(g) && |r| == RingBytes(g)
    ensures SlotBytes(g, StoreTail(r, v), index) == SlotBytes(g, r, index)
  {
    StoredTail(r, v);
    SameSlots(g, r, StoreTail(r, v), index);
  }

  /** Nothing the receiver does touches the slot being filled, nor what is published. */
  lemma PollKeepsSender(g: Geometry, s: State, step: Step)
    requires Sound(g, s) && Enabled(g, s, step) && !SendStep(step)
    ensures SenderOk(g, Next(g, s, step)) && PublishedOk(Next(g, s, step))
  {
    hide R.Fifo, SlotBytes, Carries, Decodable, Writes, Validate, StoreTail, Encodable, WrittenSlot, Written,
         DecodeSlot, Sliceable, Wrap64, PollOk, ReturnedOk, Within, DealtWith;
    var t := Next(g, s, step);
    var p := s.ring.producer;
    if step.PollReleases? && (p.Filling? || p.Publishing?) {
      ReleaseKeepsSlots(g, s.ring.ring, Wrap64(s.ring.consumer.tail + 1), p.slot);
    }
  }

  lemma {:induction false} DecodableAppend(a: seq<bytes>, b: seq<bytes>)
    ensures Decodable(a + b) == Decodable(a) + Decodable(b)
  {
    if a == [] {
      assert a + b == b;
    } else {
      assert (a + b)[1..] == a[1..] + b && (a + b)[0] == a[0];
      var first := match DecodeSlot(a[0]) case None => [] case Some(e) => [e];
      hide DecodeSlot;
      DecodableAppend(a[1..], b);
      assert first + Decodable(a[1..]) + Decodable(b) == first + (Decodable(a[1..]) + Decodable(b));
    }
  }

  lemma DecodableOne(slot: bytes)
    ensures Decodable([slot]) == match DecodeSlot(slot) case None => [] case Some(e) => [e]
  {
    hide DecodeSlot;
    assert [slot][1..] == [];
  }

  lemma DecodableSnoc(slots: seq<bytes>, slot: bytes)
    ensures Decodable(slots + [slot]) ==
      match DecodeSlot(slot) case None => Decodable(slots) case Some(e) => Decodable(slots) + [e]
  {
    hide DecodeSlot, Decodable;
    DecodableAppend(slots, [slot]);
    DecodableOne(slot);
    assert Decodable(slots) + [] == Decodable(slots);
  }

  /** The bytes of the slot held are those it had when it was begun. */
  lemma HeldIsSeen(g: Geometry, s: State)
    requires R.Fifo(g, s.ring) && s.ring.consumer.Reading?
    ensures Slot(g, s) == s.ring.consumer.seen
  {
    hide Queue, SlotBytes, R.ProducerOk, Wrap64;
  }

  /** Decoding hands out exactly what the held slot is good for. */
  lemma DecodeKeepsReturned(g: Geometry, s: State)
    requires Sound(g, s) && Enabled(g, s, PollDecodes)
    ensures ReturnedOk(Next(g, s, PollDecodes))
  {
    var seen := s.ring.consumer.seen;
    HeldIsSeen(g, s);
    DecodeStep(g, s);
    hide R.Fifo, Slot, SenderOk, PublishedOk, DecodeSlot, Decodable, Sliceable, R.Shaped, Enabled, Next;
    DecodableSnoc(s.ring.consumed, seen);
    assert s.ring.consumed + [] == s.ring.consumed;
  }

  lemma DecodeStep(g: Geometry, s: State)
    requires Enabled(g, s, PollDecodes)
    ensures var t := Next(g, s, PollDecodes);
      && t.ring == s.ring && s.poll.Decoding?
      && match DecodeSlot(Slot(g, s))
         case Some(e) => t.poll == Resting(true) && t.returned == s.returned + [e]
         case None => t.poll == Skipping && t.returned == s.returned
  {
    hide DecodeSlot, Slot, Sliceable, R.Shaped;
  }

  lemma ReleasedIsSeen(g: Geometry, s: R.State)
    requires R.Fifo(g, s) && s.consumer.Releasing?
    ensures SlotBytes(g, s.ring, s.consumer.slot) == s.consumer.seen
  {
    hide Queue, SlotBytes, R.ProducerOk, Wrap64;
  }

  /** A release moves the slot that was dealt with to the released ones. */
  lemma ReleaseKeepsReturned(g: Geometry, s: State)
    requires Sound(g, s) && Enabled(g, s, PollReleases)
    ensures ReturnedOk(Next(g, s, PollReleases)) && PollOk(Next(g, s, PollReleases))
  {
    ReleasedIsSeen(g, s.ring);
    hide R.Fifo, SlotBytes, SenderOk, PublishedOk, DecodeSlot, Decodable, StoreTail, R.Shaped;
    var done := s.ring.consumed + [s.ring.consumer.seen];
    assert done + [] == done;
  }

  lemma PollKeepsReceiver(g: Geometry, s: State, step: Step)
    requires Sound(g, s) && Enabled(g, s, step) && !SendStep(step)
    ensures PollOk(Next(g, s, step)) && ReturnedOk(Next(g, s, step))
  {
    hide R.Fifo, SlotBytes, SenderOk, PublishedOk, DecodeSlot, Decodable, Sliceable, Wrap64, U64, StoreTail;
    if step.PollDecodes? {
      DecodeKeepsReturned(g, s);
    } else if step.PollReleases? {
      ReleaseKeepsReturned(g, s);
    }
  }

  lemma StepKeepsSound(g: Geometry, s: State, step: Step)
    requires Sound(g, s) && Enabled(g, s, step)
    ensures Sound(g, Next(g, s, step))
  {
    if Access(s, step).Some? { R.StepRefinesQueue(g, s.ring, Access(s, step).value); }
    if SendStep(step) {
      SendKeepsReceiver(g, s, step);
      SendKeepsSender(g, s, step);
    } else {
      PollKeepsReceiver(g, s, step);
      PollKeepsSender(g, s, step);
    }
    hide R.Fifo, R.Next, R.Enabled, SenderOk, PollOk, PublishedOk, ReturnedOk, Access, SlotBytes, DecodeSlot, Sliceable,
         Encodable, Validate, Writes;
  }

  // ---- delivery ----

  lemma {:induction false} GoodIsDecodable(slots: seq<bytes>, ps: seq<Publication>)
    requires |slots| == |ps| && forall i :: 0 <= i < |slots| ==> Carries(slots[i], ps[i])
    ensures AllGood(ps) == Decodable(slots)
  {
    hide DecodeSlot, FrameOf;
    if slots != [] {
      GoodIsDecodable(slots[1..], ps[1..]);
      assert Carries(slots[0], ps[0]);
      DecodableOne(slots[0]);
    }
  }

  /** What is delivered at a moment: what was returned, followed by what the slots not yet dealt with are good
      for, is exactly what was published. */
  lemma SoundDelivers(g: Geometry, s: State)
    requires Sound(g, s)
    ensures var held := |DealtWith(s)|;
      && Attached(g, s.ring.ring) && held <= |Queue(g, s.ring.ring)|
      && AllGood(s.published) == s.returned + Decodable(Queue(g, s.ring.ring)[held..])
  {
    DealtWithFirst(g, s);
    GoodIsDecodable(s.ring.committed, s.published);
    hide Decodable, Queue, SenderOk, Carries, DealtWith, R.Fifo;
    var held := DealtWith(s);
    DecodableAppend(s.ring.consumed + held, Queue(g, s.ring.ring)[|held|..]);
  }

  /** A slot held is the oldest of the queue. */
  lemma DealtWithFirst(g: Geometry, s: State)
    requires R.Fifo(g, s.ring)
    ensures var held := DealtWith(s);
      && Attached(g, s.ring.ring) && |held| <= |Queue(g, s.ring.ring)|
      && s.ring.committed == (s.ring.consumed + held) + Queue(g, s.ring.ring)[|held|..]
  {
    if DealtWith(s) != [] { OldestSlot(g, s.ring.ring); }
    var q := Queue(g, s.ring.ring);
    hide Queue, SlotBytes, Wrap64, R.ProducerOk, U64, Attached;
    var held := DealtWith(s);
    assert q == held + q[|held|..];
    assert s.ring.consumed + (held + q[|held|..]) == (s.ring.consumed + held) + q[|held|..];
  }

  lemma {:induction false} RunKeepsSound(g: Geometry, s: State, steps: seq<Step>)
    requires Sound(g, s) && Runs(g, s, steps)
    ensures Sound(g, Run(g, s, steps))
    decreases |steps|
  {
    hide Sound, Next, Enabled;
    if steps != [] {
      StepKeepsSound(g, s, steps[0]);
      RunKeepsSound(g, Next(g, s, steps[0]), steps[1..]);
    }
  }

  /** Over every interleaving of a sender's and a receiver's single accesses, from any attached ring: what
      polls have returned is a prefix of what the publications so far are good for, foreign and undecodable
      slots among them, and short of it by exactly what the slots not yet dealt with hold. */
  lemma DeliveryIsDecodableSubsequence(g: Geometry, r: bytes, steps: seq<Step>)
    requires Attached(g, r) && Runs(g, AtRest(g, r), steps)
    ensures var t := Run(g, AtRest(g, r), steps);
      && Sound(g, t)
      && t.returned <= AllGood(t.published)
      && AllGood(t.published) == t.returned + Decodable(Queue(g, t.ring.ring)[|DealtWith(t)|..])
      && (|Queue(g, t.ring.ring)| == |DealtWith(t)| ==> t.returned == AllGood(t.published))
  {
    AtRestIsSound(g, r);
    RunKeepsSound(g, AtRest(g, r), steps);
    SoundDelivers(g, Run(g, AtRest(g, r), steps));
    hide AtRest, Run, Runs, Sound, Queue, DealtWith, AllGood;
    assert Decodable([]) == [];
  }

  // ---- a sender of emits only ----

  /** Every publication is the end of an emit. */
  predicate OnlyEmits(s: State) {
    !s.sender.Foreign? && forall i :: 0 <= i < |s.published| ==> s.published[i].Sent?
  }

  function Emits(ps: seq<Publication>): (es: seq<Emit>)
    requires forall i :: 0 <= i < |ps| ==> ps[i].Sent?
    ensures |es| == |ps|
  {
    seq(|ps|, i requires 0 <= i < |ps| => ps[i].emit)
  }

  function AllSeen(es: seq<Emit>): (events: seq<Event>)
    requires forall i :: 0 <= i < |es| ==> |es[i].payload| < 0x1_0000_0000
    ensures |events| == |es|
  {
    seq(|es|, i requires 0 <= i < |es| => Seen(es[i]))
  }

  lemma {:induction false} GoodIsSeen(ps: seq<Publication>)
    requires forall i :: 0 <= i < |ps| ==> ps[i].Sent? && |ps[i].emit.payload| < 0x1_0000_0000
    ensures AllGood(ps) == AllSeen(Emits(ps))
  {
    hide FrameOf;
    if ps != [] {
      GoodIsSeen(ps[1..]);
      assert Emits(ps)[1..] == Emits(ps[1..]);
      assert AllSeen(Emits(ps)) == [Seen(ps[0].emit)] + AllSeen(Emits(ps[1..]));
    }
  }

  lemma StepKeepsOnlyEmits(g: Geometry, s: State, step: Step)
    requires OnlyEmits(s) && Enabled(g, s, step) && !step.ForeignStarts?
    ensures OnlyEmits(Next(g, s, step))
  {
    hide NextRing, SlotBytes, Sliceable, DecodeSlot;
  }

  lemma {:induction false} RunKeepsOnlyEmits(g: Geometry, s: State, steps: seq<Step>)
    requires OnlyEmits(s) && Runs(g, s, steps) && forall i :: 0 <= i < |steps| ==> !steps[i].ForeignStarts?
    ensures OnlyEmits(Run(g, s, steps))
    decreases |steps|
  {
    hide OnlyEmits, Next, Enabled;
    if steps != [] {
      StepKeepsOnlyEmits(g, s, steps[0]);
      RunKeepsOnlyEmits(g, Next(g, s, steps[0]), steps[1..]);
    }
  }

  /** From an empty ring, with nobody but emits publishing: what polls have returned is at every moment a prefix
      of the emits that went through, in order and once each, with the same kind, correlation and payload; and
      it is all of them once nothing is unread. */
  lemma EmitsAreDelivered(g: Geometry, r: bytes, steps: seq<Step>)
    requires Attached(g, r) && Queue(g, r) == [] && Runs(g, AtRest(g, r), steps)
    requires forall i :: 0 <= i < |steps| ==> !steps[i].ForeignStarts?
    ensures var t := Run(g, AtRest(g, r), steps);
      && OnlyEmits(t)
      && (forall i :: 0 <= i < |t.published| ==> |t.published[i].emit.payload| < 0x1_0000_0000)
      && t.returned <= AllSeen(Emits(t.published))
      && Attached(g, t.ring.ring)
      && (|Queue(g, t.ring.ring)| == |DealtWith(t)| ==> t.returned == AllSeen(Emits(t.published)))
  {
    DeliveryIsDecodableSubsequence(g, r, steps);
    RunKeepsOnlyEmits(g, AtRest(g, r), steps);
    var t := Run(g, AtRest(g, r), steps);
    assert Attached(g, t.ring.ring) && PublishedOk(t);
    hide AtRest, Run, Runs, Sound, Queue, DealtWith, AllGood, Seen;
    forall i | 0 <= i < |t.published|
      ensures |t.published[i].emit.payload| < 0x1_0000_0000
    {
      assert Carries(t.ring.committed[i], t.published[i]);
    }
    GoodIsSeen(t.published);
  }
}
