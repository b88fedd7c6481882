/** The ring under concurrency: one producer and one consumer over the same bytes, each atomic load,
    each atomic store and each byte written being a step of its own (server-go/bus/ring.go:83-126).

    A state carries the ring's bytes, what each side remembers between its steps, and two histories:
    the slots published so far and the slots released so far. */
module RingProtocol {
  import opened Bytes
  import opened RingLayout

  datatype Producer =
    | Idle
    | HeadLoaded(head: uint64)                          // ProduceBegin, after its first load
    | Filling(slot: uint64)                             // between ProduceBegin and ProduceCommit
    | Publishing(slot: uint64, head: uint64)            // ProduceCommit, after its load

  datatype Consumer =
    | Waiting
    | TailLoaded(tail: uint64)                          // ConsumeBegin, after its first load
    | Reading(slot: uint64, seen: bytes)                // between ConsumeBegin and ConsumeCommit
    | Releasing(slot: uint64, seen: bytes, tail: uint64) // ConsumeCommit, after its load

  datatype State = State(ring: bytes, producer: Producer, consumer: Consumer,
                         committed: seq<bytes>, consumed: seq<bytes>)

  datatype Step =
    | LoadHead | LoadTailForRoom | WriteByte(at: nat, value: byte) | Abandon | ReloadHead | StoreNewHead
    | LoadTail | LoadHeadForData | ReloadTail | StoreNewTail

  predicate Shaped(g: Geometry, s: State) { Sound(g) && |s.ring| == RingBytes(g) }

  predicate Enabled(g: Geometry, s: State, step: Step) {
    match step
    case LoadHead => s.producer.Idle?
    case LoadTailForRoom => s.producer.HeadLoaded?
    case WriteByte(at, _) => s.producer.Filling? && at < g.slotSize
    case Abandon => s.producer.Filling?
    case ReloadHead => s.producer.Filling?
    case StoreNewHead => s.producer.Publishing?
    case LoadTail => s.consumer.Waiting?
    case LoadHeadForData => s.consumer.TailLoaded?
    case ReloadTail => s.consumer.Reading?
    case StoreNewTail => s.consumer.Releasing?
  }

  function Next(g: Geometry, s: State, step: Step): (t: State)
    requires Shaped(g, s) && Enabled(g, s, step)
    ensures Shaped(g, t)
  {
    match step
    case LoadHead => s.(producer := HeadLoaded(Head(s.ring)))
    case LoadTailForRoom =>
      var head := s.producer.head;
      if Wrap64(head - Tail(s.ring)) >= g.capacity then s.(producer := Idle)
      else s.(producer := Filling(head))
    case WriteByte(at, value) =>
      SlotBounds(g, s.producer.slot);
      s.(ring := s.ring[SlotOffset(g, s.producer.slot) + at := value])
    case Abandon => s.(producer := Idle)
    case ReloadHead => s.(producer := Publishing(s.producer.slot, Head(s.ring)))
    case StoreNewHead =>
      s.(ring := StoreHead(s.ring, Wrap64(s.producer.head + 1)),
         committed := s.committed + [SlotBytes(g, s.ring, s.producer.slot)],
         producer := Idle)
    case LoadTail => s.(consumer := TailLoaded(Tail(s.ring)))
    case LoadHeadForData =>
      var tail := s.consumer.tail;
      if Head(s.ring) == tail then s.(consumer := Waiting)
      else s.(consumer := Reading(tail, SlotBytes(g, s.ring, tail)))
    case ReloadTail => s.(consumer := Releasing(s.consumer.slot, s.consumer.seen, Tail(s.ring)))
    case StoreNewTail =>
      s.(ring := StoreTail(s.ring, Wrap64(s.consumer.tail + 1)),
         consumed := s.consumed + [SlotBytes(g, s.ring, s.consumer.slot)],
         consumer := Waiting)
  }

  predicate ProducerOk(g: Geometry, s: State)
    requires Shaped(g, s)
  {
    match s.producer
    case Idle => true
    case HeadLoaded(head) => head == Head(s.ring)
    case Filling(slot) => slot == Head(s.ring) && HasRoom(g, s.ring)
    case Publishing(slot, head) => slot == head == Head(s.ring) && HasRoom(g, s.ring)
  }

  predicate ConsumerOk(g: Geometry, s: State)
    requires Shaped(g, s)
  {
    match s.consumer
    case Waiting => true
    case TailLoaded(tail) => tail == Tail(s.ring)
    case Reading(slot, seen) =>
      slot == Tail(s.ring) && Count(s.ring) > 0 && seen == SlotBytes(g, s.ring, slot)
    case Releasing(slot, seen, tail) =>
      slot == tail == Tail(s.ring) && Count(s.ring) > 0 && seen == SlotBytes(g, s.ring, slot)
  }

  /** The ring is a queue: what was published is what was released followed by what the slots between
      tail and head hold; there are at most `capacity` of those. */
  predicate Fifo(g: Geometry, s: State) {
    && Attached(g, s.ring)
    && s.committed == s.consumed + Queue(g, s.ring)
    && ProducerOk(g, s)
    && ConsumerOk(g, s)
  }

  /** An attached ring at rest: what it holds counts as published before, and nothing as released. */
  function AtRest(g: Geometry, r: bytes): State
    requires Attached(g, r)
  {
    State(r, Idle, Waiting, Queue(g, r), [])
  }

  /** Every attached ring is one to start from. */
  lemma AttachedIsFifo(g: Geometry, r: bytes)
    requires Attached(g, r)
    ensures Fifo(g, AtRest(g, r))
  {
    assert [] + Queue(g, r) == Queue(g, r);
  }

  /** One abstract step of a queue: nothing, append the producer's slot, or drop the oldest. */
  predicate QueueStep(g: Geometry, s: State, step: Step, t: State)
    requires Attached(g, s.ring) && Attached(g, t.ring) && Enabled(g, s, step)
  {
    var before, after := Queue(g, s.ring), Queue(g, t.ring);
    match step
    case StoreNewHead =>
      after == before + [SlotBytes(g, s.ring, s.producer.slot)] && t.consumed == s.consumed
    case StoreNewTail =>
      |before| > 0 && after == before[1..] && t.consumed == s.consumed + [before[0]]
      && before[0] == s.consumer.seen
    case LoadTailForRoom =>
      after == before && t.consumed == s.consumed && (t.producer.Idle? <==> |before| == g.capacity)
    case LoadHeadForData =>
      && after == before && t.consumed == s.consumed
      && (t.consumer.Waiting? <==> before == [])
      && (t.consumer.Reading? ==> t.consumer.seen == before[0])
    case _ => after == before && t.consumed == s.consumed
  }

  /** A byte written by the producer lands in no slot of the queue. */
  lemma WriteStep(g: Geometry, s: State, at: nat, value: byte)
    requires Fifo(g, s) && Enabled(g, s, WriteByte(at, value))
    ensures Fifo(g, Next(g, s, WriteByte(at, value)))
    ensures QueueStep(g, s, WriteByte(at, value), Next(g, s, WriteByte(at, value)))
  {
    hide Wrap64;
    var t := Next(g, s, WriteByte(at, value));
    SlotBounds(g, s.producer.slot);
    WriteKeepsQueue(g, s.ring, t.ring);
    if Count(s.ring) > 0 {
      OldestSlot(g, s.ring);
      OldestSlot(g, t.ring);
    }
  }

  lemma StoreHeadStep(g: Geometry, s: State)
    requires Fifo(g, s) && Enabled(g, s, StoreNewHead)
    ensures Fifo(g, Next(g, s, StoreNewHead)) && QueueStep(g, s, StoreNewHead, Next(g, s, StoreNewHead))
  {
    hide Wrap64;
    var t := Next(g, s, StoreNewHead);
    PublishAppends(g, s.ring);
    var x := SlotBytes(g, s.ring, s.producer.slot);
    assert s.consumed + Queue(g, s.ring) + [x] == s.consumed + (Queue(g, s.ring) + [x]);
    if Count(s.ring) > 0 {
      OldestSlot(g, s.ring);
      OldestSlot(g, t.ring);
    }
  }

  lemma StoreTailStep(g: Geometry, s: State)
    requires Fifo(g, s) && Enabled(g, s, StoreNewTail)
    ensures Fifo(g, Next(g, s, StoreNewTail)) && QueueStep(g, s, StoreNewTail, Next(g, s, StoreNewTail))
  {
    hide Wrap64;
    var q := Queue(g, s.ring);
    ReleaseDrops(g, s.ring);
    OldestSlot(g, s.ring);
    assert s.consumed + q == s.consumed + [q[0]] + q[1..];
  }

  /** Every step of either side, from stale snapshots and across the index wrap, is a step of a queue
      and keeps the ring one. A producer is refused exactly when the queue is full at its second load,
      a consumer exactly when it is empty at its second load. */
  lemma StepRefinesQueue(g: Geometry, s: State, step: Step)
    requires Fifo(g, s) && Enabled(g, s, step)
    ensures Fifo(g, Next(g, s, step))
    ensures QueueStep(g, s, step, Next(g, s, step))
  {
    match step
    case WriteByte(at, value) => WriteStep(g, s, at, value);
    case StoreNewHead => StoreHeadStep(g, s);
    case StoreNewTail => StoreTailStep(g, s);
    case LoadHeadForData =>
      EmptyTest(Head(s.ring), Tail(s.ring));
      if Count(s.ring) > 0 { OldestSlot(g, s.ring); }
    case _ =>
  }

  // ---- runs ----

  predicate Runs(g: Geometry, s: State, steps: seq<Step>)
    requires Shaped(g, s)
    decreases |steps|
  {
    steps == [] || (Enabled(g, s, steps[0]) && Runs(g, Next(g, s, steps[0]), steps[1..]))
  }

  function Run(g: Geometry, s: State, steps: seq<Step>): (t: State)
    requires Shaped(g, s) && Runs(g, s, steps)
    ensures Shaped(g, t)
    decreases |steps|
  {
    if steps == [] then s else Run(g, Next(g, s, steps[0]), steps[1..])
  }

  lemma StepExtendsHistories(g: Geometry, s: State, step: Step)
    requires Shaped(g, s) && Enabled(g, s, step)
    ensures s.consumed <= Next(g, s, step).consumed && s.committed <= Next(g, s, step).committed
  {
    hide Wrap64, Queue, SlotBytes;
  }

  /** Over every interleaving: nothing is lost, duplicated or reordered, the histories only grow, and
      no more than `capacity` slots are ever in between. */
  lemma {:induction false} RunIsFifo(g: Geometry, s: State, steps: seq<Step>)
    requires Fifo(g, s) && Runs(g, s, steps)
    ensures var t := Run(g, s, steps);
      && Fifo(g, t)
      && t.committed == t.consumed + Queue(g, t.ring) && |Queue(g, t.ring)| <= g.capacity
      && s.consumed <= t.consumed <= t.committed && s.committed <= t.committed
    decreases |steps|
  {
    hide Next, Wrap64, Queue, Count;
    if steps != [] {
      StepRefinesQueue(g, s, steps[0]);
      StepExtendsHistories(g, s, steps[0]);
      RunIsFifo(g, Next(g, s, steps[0]), steps[1..]);
    }
  }

  /** The slot a consumer holds is frozen: whatever the producer does, and however often, the bytes
      handed out stay those of the oldest published slot until the tail is stored. */
  lemma {:induction false} HeldSlotIsFrozen(g: Geometry, s: State, steps: seq<Step>)
    requires Fifo(g, s) && Runs(g, s, steps) && s.consumer.Reading?
    requires forall i :: 0 <= i < |steps| ==> !steps[i].StoreNewTail?
    ensures var t := Run(g, s, steps);
      && (t.consumer.Reading? || t.consumer.Releasing?)
      && t.consumer.slot == s.consumer.slot
      && SlotBytes(g, t.ring, s.consumer.slot) == SlotBytes(g, s.ring, s.consumer.slot) == s.consumer.seen
      && s.consumer.seen == s.committed[|s.consumed|]
  {
    HeldSlotKept(g, s, steps);
    OldestSlot(g, s.ring);
  }

  lemma {:induction false} HeldSlotKept(g: Geometry, s: State, steps: seq<Step>)
    requires Fifo(g, s) && Runs(g, s, steps) && (s.consumer.Reading? || s.consumer.Releasing?)
    requires forall i :: 0 <= i < |steps| ==> !steps[i].StoreNewTail?
    ensures var t := Run(g, s, steps);
      && (t.consumer.Reading? || t.consumer.Releasing?)
      && t.consumer.slot == s.consumer.slot && t.consumer.seen == s.consumer.seen
      && SlotBytes(g, t.ring, s.consumer.slot) == s.consumer.seen
    decreases |steps|
  {
    hide Wrap64, Queue, Count, SlotBytes;
    if steps != [] {
      assert !steps[0].StoreNewTail?;
      StepRefinesQueue(g, s, steps[0]);
      HeldSlotKept(g, Next(g, s, steps[0]), steps[1..]);
    }
  }

  /** While a slot is held on each side, the two never share a byte. */
  lemma HeldSlotsApart(g: Geometry, s: State)
    requires Fifo(g, s) && s.producer.Filling? && s.consumer.Reading?
    ensures SlotOffset(g, s.producer.slot) + g.slotSize <= SlotOffset(g, s.consumer.slot)
         || SlotOffset(g, s.consumer.slot) + g.slotSize <= SlotOffset(g, s.producer.slot)
  {
    IndexToHead(Head(s.ring), Tail(s.ring), 0);
    WrapOnce(Tail(s.ring));
    NearbySlotsApart(g, Tail(s.ring), Count(s.ring));
  }
}
