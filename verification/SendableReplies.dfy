/** Every fragment the serving loop builds can be sent: with a validated stage table and a sound geometry
    the only errors left to a reply are a full ring, a changed epoch and the end of the context
    (server-go/bus/module_runtime.go:112-128, 223-284 against server-go/bus/client.go:188-220). */
module SendableReplies {
  import opened Bits
  import opened Bytes
  import opened Options
  import opened Wire
  import opened CodecRules
  import opened ModuleProtocol
  import opened Events
  import opened Fragments
  import opened RuntimeModel
  import opened RuntimeTables
  import opened RingLayout
  import Client
  import Delivery
  import RequestRoundTrip
  import ModuleCaller

  // ---- the stage table ----

  datatype Stage = Stage(eventKind: uint32, stageID: uint32)

  datatype ProcessConfig = ProcessConfig(socketPath: string, moduleName: string, principalClass: uint32,
                                         principalRef: uint32, stages: seq<Stage>)

  predicate Wellformed(stages: seq<Stage>) {
    && (forall i :: 0 <= i < |stages| ==> stages[i].eventKind != 0 && stages[i].stageID != 0)
    && (forall i, j :: 0 <= i < j < |stages| ==> stages[i].eventKind != stages[j].eventKind)
  }

  /** The map with exactly the listed entries. */
  predicate TableOf(stages: seq<Stage>, table: map<uint32, uint32>) {
    && (forall i :: 0 <= i < |stages| ==>
          stages[i].eventKind in table && table[stages[i].eventKind] == stages[i].stageID)
    && (forall k :: k in table ==> exists i :: 0 <= i < |stages| && stages[i].eventKind == k)
  }

  /** Accepts exactly a named process with at least one stage, no zero and no event kind twice, and then
      returns the table those stages list. */
  method ValidateModuleConfig(config: ProcessConfig) returns (table: Option<map<uint32, uint32>>)
    ensures table.Some? <==>
      && config.socketPath != "" && config.moduleName != "" && config.principalClass != 0
      && config.principalRef != 0 && config.stages != []
      && (forall s :: s in config.stages ==> s.eventKind != 0 && s.stageID != 0)
      && (forall i, j :: 0 <= i < j < |config.stages| ==> config.stages[i].eventKind != config.stages[j].eventKind)
    ensures table.Some? ==>
      && (forall s :: s in config.stages ==> s.eventKind in table.value && table.value[s.eventKind] == s.stageID)
      && (forall k :: k in table.value ==> exists s :: s in config.stages && s.eventKind == k)
      && NoZeroStage(table.value)
  {
    hide Wellformed, TableOf;
    if config.socketPath == "" || config.moduleName == "" || config.principalClass == 0
       || config.principalRef == 0 || |config.stages| == 0 {
      return None;
    }
    var stages: map<uint32, uint32> := map[];
    NoStagesYet();
    assert config.stages[..0] == [];
    for i := 0 to |config.stages|
      invariant Wellformed(config.stages[..i]) && TableOf(config.stages[..i], stages)
    {
      var stage := config.stages[i];
      if stage.eventKind == 0 || stage.stageID == 0 || stage.eventKind in stages {
        StageIsIll(config.stages, i, stages);
        WellformedIs(config.stages);
        return None;
      }
      assert config.stages[..i + 1] == config.stages[..i] + [stage];
      TableGrows(config.stages[..i], stage, stages);
      stages := stages[stage.eventKind := stage.stageID];
    }
    assert config.stages[..|config.stages|] == config.stages;
    ValidatedHasNoZeroStage(config.stages, stages);
    TableIs(config.stages, stages);
    return Some(stages);
  }

  lemma WellformedIs(stages: seq<Stage>)
    ensures Wellformed(stages) <==>
      && (forall s :: s in stages ==> s.eventKind != 0 && s.stageID != 0)
      && (forall i, j :: 0 <= i < j < |stages| ==> stages[i].eventKind != stages[j].eventKind)
  {
    assert forall i :: 0 <= i < |stages| ==> stages[i] in stages;
  }

  lemma TableIs(stages: seq<Stage>, table: map<uint32, uint32>)
    requires Wellformed(stages) && TableOf(stages, table)
    ensures (forall s :: s in stages ==> s.eventKind != 0 && s.stageID != 0)
    ensures (forall i, j :: 0 <= i < j < |stages| ==> stages[i].eventKind != stages[j].eventKind)
    ensures (forall s :: s in stages ==> s.eventKind in table && table[s.eventKind] == s.stageID)
    ensures (forall k :: k in table ==> exists s :: s in stages && s.eventKind == k)
  {
    WellformedIs(stages);
    forall k | k in table
      ensures exists s :: s in stages && s.eventKind == k
    {
      var i :| 0 <= i < |stages| && stages[i].eventKind == k;
      assert stages[i] in stages;
    }
  }

  lemma NoStagesYet()
    ensures Wellformed([]) && TableOf([], map[])
  {
  }

  /** A stage with a zero, or of an event kind listed before. */
  lemma StageIsIll(stages: seq<Stage>, i: nat, table: map<uint32, uint32>)
    requires i < |stages| && TableOf(stages[..i], table)
    requires stages[i].eventKind == 0 || stages[i].stageID == 0 || stages[i].eventKind in table
    ensures !Wellformed(stages)
  {
    if stages[i].eventKind in table {
      var j :| 0 <= j < i && stages[..i][j].eventKind == stages[i].eventKind;
      assert stages[j].eventKind == stages[i].eventKind;
    }
  }

  lemma TableGrows(stages: seq<Stage>, stage: Stage, table: map<uint32, uint32>)
    requires Wellformed(stages) && TableOf(stages, table) && stage.eventKind !in table
    requires stage.eventKind != 0 && stage.stageID != 0
    ensures Wellformed(stages + [stage])
    ensures TableOf(stages + [stage], table[stage.eventKind := stage.stageID])
  {
    var all := stages + [stage];
    var grown := table[stage.eventKind := stage.stageID];
    forall k | k in grown
      ensures exists i :: 0 <= i < |all| && all[i].eventKind == k
    {
      if k == stage.eventKind {
        assert all[|stages|].eventKind == k;
      } else {
        var i :| 0 <= i < |stages| && stages[i].eventKind == k;
        assert all[i].eventKind == k;
      }
    }
  }

  /** The table names no stage zero, so a zero lookup means that a kind is not served. */
  predicate NoZeroStage(table: map<uint32, uint32>) { forall k :: k in table ==> table[k] != 0 }

  lemma ValidatedHasNoZeroStage(stages: seq<Stage>, table: map<uint32, uint32>)
    requires Wellformed(stages) && TableOf(stages, table)
    ensures NoZeroStage(table)
  {
    forall k | k in table
      ensures table[k] != 0
    {
      var i :| 0 <= i < |stages| && stages[i].eventKind == k;
      assert table[stages[i].eventKind] == stages[i].stageID;
    }
  }

  // ---- what the endpoint accepts ----

  /** The endpoint's geometry leaves room for a header beside the inline budget, and the budget is one the
      codec accepts. */
  predicate SoundBudget(budget: uint32, slotSize: uint32) {
    MESSAGE_HEADER_LEN < budget <= MAX_PAYLOAD && HDR_LEN + budget <= slotSize
  }

  /** Nothing about a fragment stops it: its envelope decodes, its arguments are not refused, its payload
      fits, and the frame it becomes is valid. */
  predicate Sendable(pattern: uint16, budget: uint32, slotSize: uint32, f: Fragment)
    requires pattern == F_REQUEST || pattern == F_REPLY
  {
    && DecodeMessage(f.payload).Some?
    && Client.FragmentFlags(pattern, f.correlation, f.payload, f.more).Some?
    && Client.PayloadRefusal(true, budget, slotSize, false, f.payload) == None
    && |f.payload| < 0x1_0000_0000
    && forall handle: uint32 ::
         Validate(FrameFor(pattern, f, handle)) == OK
  }

  /** The frame a fragment becomes. */
  function FrameFor(pattern: uint16, f: Fragment, handle: uint32): Frame
    requires pattern == F_REQUEST || pattern == F_REPLY
    requires Client.FragmentFlags(pattern, f.correlation, f.payload, f.more).Some? && |f.payload| < 0x1_0000_0000
  {
    Client.OutFrame(Client.FragmentFlags(pattern, f.correlation, f.payload, f.more).value, f.kind, f.correlation,
                    handle, |f.payload|)
  }

  /** The four flag words fragments travel under. */
  lemma FlagWords(pattern: uint16, more: bool)
    requires pattern == F_REQUEST || pattern == F_REPLY
    ensures var w := Or(if more then Client.WithMore(pattern) else pattern, F_INLINE);
      && w == pattern + 1 + (if more then 0x80 else 0)
      && And(w, PLACEMENT_MASK) == 1 && And(w, PATTERN_MASK) == pattern && AndNot(w, KNOWN_MASK) == 0
      && And(w, F_INLINE) == 1 && And(w, F_ARENA) == 0 && And(w, F_NOTIFICATION) == 0 && And(w, F_CANCEL) == 0
      && And(w, F_REQUEST) == (if pattern == F_REQUEST then pattern else 0)
      && And(w, F_REPLY) == (if pattern == F_REPLY then pattern else 0)
      && And(w, F_MORE) == (if more then 0x80 else 0)
  {
    hide And, AndNot, Or;
    Client.MoreFlags();
    OrHalves(0x08, 1); OrHalves(0x10, 1); OrHalves(0x88, 1); OrHalves(0x90, 1);
    AndZeroRight(0x04); AndZeroRight(0x08); AndZeroRight(0x44); AndZeroRight(0x48);
    var w := Or(if more then Client.WithMore(pattern) else pattern, F_INLINE);
    PatternGroup(w);
    PlacementGroup(w);
    WordBits(w);
  }

  /** A decodable fragment with a correlation that fits the budget can be sent, under either pattern. */
  lemma FragmentIsSendable(pattern: uint16, budget: uint32, slotSize: uint32, f: Fragment)
    requires pattern == F_REQUEST || pattern == F_REPLY
    requires SoundBudget(budget, slotSize) && f.correlation != 0
    requires DecodeMessage(f.payload).Some? && |f.payload| <= budget
    ensures Sendable(pattern, budget, slotSize, f)
  {
    FlagWords(pattern, f.more);
    assert And(1, 0) == 0 && And(0x08, 0x07) == 0 && And(0x10, 0x0f) == 0;
    assert |f.payload| >= MESSAGE_HEADER_LEN;
    hide DecodeMessage, And, Or, AndNot;
  }

  predicate AllSendable(pattern: uint16, budget: uint32, slotSize: uint32, fs: seq<Fragment>)
    requires pattern == F_REQUEST || pattern == F_REPLY
  {
    forall i :: 0 <= i < |fs| ==> Sendable(pattern, budget, slotSize, fs[i])
  }

  lemma CutIsSendable(pattern: uint16, budget: uint32, slotSize: uint32, st: Stream, body: bytes)
    requires pattern == F_REQUEST || pattern == F_REPLY
    requires SoundBudget(budget, slotSize) && st.correlation != 0
    requires SendableStream(st) && |body| <= MESSAGE_MAX_BODY
    ensures AllSendable(pattern, budget, slotSize, Cut(st, body, budget - MESSAGE_HEADER_LEN))
  {
    CutIsFaithful(st, body, budget - MESSAGE_HEADER_LEN);
    hide DecodeMessage, Sendable, Carried;
    var fs := Cut(st, body, budget - MESSAGE_HEADER_LEN);
    forall i | 0 <= i < |fs|
      ensures Sendable(pattern, budget, slotSize, fs[i])
    {
      assert Piece(st, fs[i], budget - MESSAGE_HEADER_LEN, i == |fs| - 1);
      FragmentIsSendable(pattern, budget, slotSize, fs[i]);
    }
  }

  lemma SameRefusal(client: Client.Client, payload: bytes)
    requires client.control != null
    ensures Client.PayloadRefusal(true, client.inlineBudget, client.slotSize, false, payload) == None ==>
      Client.PayloadRefusal(true, client.inlineBudget, client.slotSize, client.EpochChanged(), payload) ==
        if client.EpochChanged() then Some(ErrEpoch) else None
  {
  }

  lemma SmallIsKept(n: uint32)
    ensures Wrap32(n) == n
  {
  }

  /** Handing a sendable fragment to an attached endpoint of that geometry succeeds unless the epoch has
      changed or the ring is full. */
  lemma OnlyWaitingIsLeft(client: Client.Client, pattern: uint16, f: Fragment)
    requires pattern == F_REQUEST || pattern == F_REPLY
    requires client.Valid() && client.control != null
    requires Sendable(pattern, client.inlineBudget, client.slotSize, f)
    ensures var flags := Client.FragmentFlags(pattern, f.correlation, f.payload, f.more).value;
      var outcome := client.EmitOutcome(flags, f.kind, f.correlation, f.payload);
      && (outcome == Some(ErrEpoch) <==> client.EpochChanged())
      && (outcome == Some(ErrWouldBlock) <==>
            !client.EpochChanged() && |client.outbound.Contents()| == client.outbound.capacity)
      && (outcome.Some? ==> outcome == Some(ErrEpoch) || outcome == Some(ErrWouldBlock))
  {
    hide Validate, And, DecodeMessage, Attached, Queue, Wrap32, Client.OutFrame, Client.PayloadRefusal;
    assert Validate(FrameFor(pattern, f, client.handle)) == OK;
    SmallIsKept(|f.payload|);
    SameRefusal(client, f.payload);
  }

  // ---- every reply of every run ----

  /** Every job and every waiting result answers a real correlation from a real stage. */
  predicate Addressed(s: State) {
    forall c :: c in s.jobs ==> c != 0 && s.jobs[c].stageID != 0
  }

  predicate RepliesSendable(slotSize: uint32, budget: uint32, log: seq<LogItem>) {
    forall i :: 0 <= i < |log| && log[i].Replied? ==> Sendable(F_REPLY, budget, slotSize, log[i].fragment)
  }

  predicate Healthy(cfg: Config, slotSize: uint32, s: State) {
    Addressed(s) && RepliesSendable(slotSize, cfg.budget, s.log)
  }

  /** Every event a run polls is what some slot decodes to, as a poll returns it. */
  ghost predicate FromDecoder(steps: seq<Step>) {
    forall i :: 0 <= i < |steps| && steps[i].PollEvent? ==> FromSlot(steps[i].event)
  }

  ghost predicate FromSlot(e: Event) { exists slot :: Client.DecodeSlot(slot) == Some(e) }

  lemma PolledFramesAreValid(e: Event)
    requires FromSlot(e)
    ensures Validate(e.frame) == OK
  {
    var slot :| Client.DecodeSlot(slot) == Some(e);
    hide Validate, And, Fields;
  }

  lemma OutOfSendable(slotSize: uint32, budget: uint32, fs: seq<Fragment>, sending: Sending)
    requires AllSendable(F_REPLY, budget, slotSize, fs)
    ensures RepliesSendable(slotSize, budget, Out(fs, sending))
  {
    hide Sendable;
  }

  lemma OutIsSendable(cfg: Config, slotSize: uint32, st: Stream, body: bytes, sending: Sending)
    requires SoundBudget(cfg.budget, slotSize) && st.correlation != 0
    requires SendableStream(st) && |body| <= MESSAGE_MAX_BODY
    ensures RepliesSendable(slotSize, cfg.budget, Out(Cut(st, body, cfg.budget - MESSAGE_HEADER_LEN), sending))
  {
    hide AllSendable, RepliesSendable, Cut, Out;
    CutIsSendable(F_REPLY, cfg.budget, slotSize, st, body);
    OutOfSendable(slotSize, cfg.budget, Cut(st, body, cfg.budget - MESSAGE_HEADER_LEN), sending);
  }

  lemma MoreReplies(slotSize: uint32, budget: uint32, log: seq<LogItem>, more: seq<LogItem>)
    requires RepliesSendable(slotSize, budget, log) && RepliesSendable(slotSize, budget, more)
    ensures RepliesSendable(slotSize, budget, log + more)
  {
    hide Sendable;
  }

  lemma NoReplies(slotSize: uint32, budget: uint32, log: seq<LogItem>, x: LogItem)
    requires RepliesSendable(slotSize, budget, log) && !x.Replied?
    ensures RepliesSendable(slotSize, budget, log + [x])
  {
    hide Sendable;
  }

  lemma EventKeepsAddressed(cfg: Config, s: State, event: Event, now: uint64, sending: Sending)
    requires Addressed(s) && Validate(event.frame) == OK
    ensures Addressed(OnEvent(cfg, s, event, now, sending))
    ensures Judge(cfg, s.assemblies, s.jobs, event, now).Refuse? ==> event.frame.correlation != 0
  {
    CorrelatedUnlessNotification(event.frame);
    JudgeFacts(cfg, s.assemblies, s.jobs, event, now);
    hide Judge, DecodeMessage, BodyOf, And, Validate, StageOf, Invalid, Out, RefusalFragments;
  }

  lemma EventKeepsReplies(cfg: Config, slotSize: uint32, s: State, event: Event, now: uint64, sending: Sending)
    requires SoundBudget(cfg.budget, slotSize) && RepliesSendable(slotSize, cfg.budget, s.log)
    requires Judge(cfg, s.assemblies, s.jobs, event, now).Refuse? ==> event.frame.correlation != 0
    ensures RepliesSendable(slotSize, cfg.budget, OnEvent(cfg, s, event, now, sending).log)
  {
    JudgeFacts(cfg, s.assemblies, s.jobs, event, now);
    hide Judge, DecodeMessage, And, RepliesSendable, Invalid;
    var v := Judge(cfg, s.assemblies, s.jobs, event, now);
    var polled := Polled(event, v.Absorb?);
    NoReplies(slotSize, cfg.budget, s.log, polled);
    if v.Refuse? {
      var f := event.frame;
      var st := ReplyStream(f.eventKind, f.correlation, v.stageID, v.traceID, v.status, []);
      OutIsSendable(cfg, slotSize, st, SentBody(v.status, []), sending);
      hide Out, Cut;
      MoreReplies(slotSize, cfg.budget, s.log + [polled], Out(RefusalFragments(cfg, event, v), sending));
    } else if v.Begin? {
      var w := WorkOf(s, event, v.message, StageOf(cfg, event.frame.eventKind));
      NoReplies(slotSize, cfg.budget, s.log + [polled], Started(w, v.body));
    }
  }

  lemma CollectKeepsHealthy(cfg: Config, slotSize: uint32, s: State, sending: Sending)
    requires SoundBudget(cfg.budget, slotSize) && DoneOk(s) && Healthy(cfg, slotSize, s)
    requires Enabled(cfg, s, Collect(sending))
    ensures Healthy(cfg, slotSize, Next(cfg, s, Collect(sending)))
  {
    hide RepliesSendable, Cut, Possible, Out;
    var o := s.done[0];
    var w := o.work;
    assert w.correlation in s.jobs && s.jobs[w.correlation] == w;
    OutIsSendable(cfg, slotSize, ReplyStream(w.eventKind, w.correlation, w.stageID, w.traceID, o.status, o.body),
                  SentBody(o.status, o.body), sending);
    NoReplies(slotSize, cfg.budget, s.log, Finished(o));
    MoreReplies(slotSize, cfg.budget, s.log + [Finished(o)], Out(ResultFragments(cfg, o), sending));
  }

  lemma StepKeepsHealthy(cfg: Config, slotSize: uint32, s: State, step: Step)
    requires SoundBudget(cfg.budget, slotSize) && Tables(s) && Healthy(cfg, slotSize, s)
    requires Enabled(cfg, s, step) && (step.PollEvent? ==> Validate(step.event.frame) == OK)
    ensures Healthy(cfg, slotSize, Next(cfg, s, step))
  {
    hide RepliesSendable, OnEvent, Possible, Judge, JobsOk, HandlersOk, DoneOk, ResultsOk, AssembliesOk, Validate,
         ResultFragments, Out;
    match step
    case PollEvent(event, now, sending) =>
      EventKeepsAddressed(cfg, s, event, now, sending);
      EventKeepsReplies(cfg, slotSize, s, event, now, sending);
    case Collect(sending) => CollectKeepsHealthy(cfg, slotSize, s, sending);
    case Join => NoReplies(slotSize, cfg.budget, s.log, Finished(s.done[0]));
    case _ =>
  }

  /** In every run over decoded frames, every fragment the loop has handed out was sendable. */
  lemma {:induction false} RunRepliesAreSendable(cfg: Config, slotSize: uint32, s: State, steps: seq<Step>)
    requires SoundBudget(cfg.budget, slotSize) && Tables(s) && Healthy(cfg, slotSize, s)
    requires Runs(cfg, s, steps) && FromDecoder(steps)
    ensures Healthy(cfg, slotSize, Run(cfg, s, steps))
    decreases |steps|
  {
    hide Tables, Next, Enabled, Healthy, Validate, FromSlot;
    if steps != [] {
      if steps[0].PollEvent? { PolledFramesAreValid(steps[0].event); }
      StepKeepsTables(cfg, s, steps[0]);
      StepKeepsHealthy(cfg, slotSize, s, steps[0]);
      RunRepliesAreSendable(cfg, slotSize, Next(cfg, s, steps[0]), steps[1..]);
    }
  }

  /** From the start: whatever is polled, whatever the handlers answer and however they interleave. */
  lemma EveryReplyIsSendable(cfg: Config, slotSize: uint32, steps: seq<Step>)
    requires SoundBudget(cfg.budget, slotSize) && Runs(cfg, INITIAL, steps) && FromDecoder(steps)
    ensures RepliesSendable(slotSize, cfg.budget, Run(cfg, INITIAL, steps).log)
  {
    InitialTables();
    RunRepliesAreSendable(cfg, slotSize, INITIAL, steps);
  }

  // ---- what the peer sees of a fragment ----

  /** The emit of a fragment. */
  function EmitOf(pattern: uint16, f: Fragment, handle: uint32): Delivery.Emit
    requires pattern == F_REQUEST || pattern == F_REPLY
    requires Client.FragmentFlags(pattern, f.correlation, f.payload, f.more).Some?
  {
    Delivery.Emit(Client.FragmentFlags(pattern, f.correlation, f.payload, f.more).value, f.kind, f.correlation,
                  handle, f.payload)
  }

  predicate Emittable(f: Fragment) { f.correlation != 0 && 0 < |f.payload| < 0x1_0000_0000 }

  /** The event a fragment is polled as. */
  function SeenAs(pattern: uint16, f: Fragment, handle: uint32): Event
    requires (pattern == F_REQUEST || pattern == F_REPLY) && Emittable(f)
  {
    Delivery.Seen(EmitOf(pattern, f, handle))
  }

  /** Once emitted and polled, a request fragment delivers a piece of a request and a reply fragment a piece
      of a reply, to the loops that wait for them. */
  lemma SeenFragmentDelivers(pattern: uint16, f: Fragment, handle: uint32)
    requires (pattern == F_REQUEST || pattern == F_REPLY) && Emittable(f)
    ensures var e := SeenAs(pattern, f, handle);
      if pattern == F_REQUEST then RequestRoundTrip.Delivers(e, f) else ModuleCaller.DeliversReply(e, f)
  {
    FlagWords(pattern, f.more);
    hide And, Or;
  }

  /** A sendable fragment is seen as some slot of the size decodes. */
  lemma SeenIsFromSlot(pattern: uint16, budget: uint32, slotSize: uint32, f: Fragment, handle: uint32)
    requires (pattern == F_REQUEST || pattern == F_REPLY) && SoundBudget(budget, slotSize)
    requires Sendable(pattern, budget, slotSize, f) && Emittable(f)
    ensures FromSlot(SeenAs(pattern, f, handle))
  {
    hide Validate, DecodeMessage, And, Client.DecodeSlot, Client.OutFrame, Client.WrittenSlot, Client.Sliceable;
    var e := EmitOf(pattern, f, handle);
    assert Validate(FrameFor(pattern, f, handle)) == OK;
    Client.EmittedSlotDecodes(Zeros(slotSize), e.flags, e.kind, e.correlation, handle, f.payload);
  }

  /** The fragments of a body the codec accepts, on a real correlation, can be sent and are seen as real frames. */
  lemma CutIsSeen(pattern: uint16, budget: uint32, slotSize: uint32, st: Stream, body: bytes, handle: uint32)
    requires pattern == F_REQUEST || pattern == F_REPLY
    requires SoundBudget(budget, slotSize) && st.correlation != 0
    requires SendableStream(st) && |body| <= MESSAGE_MAX_BODY
    ensures var fs := Cut(st, body, budget - MESSAGE_HEADER_LEN);
      forall i :: 0 <= i < |fs| ==> Emittable(fs[i]) && FromSlot(SeenAs(pattern, fs[i], handle))
  {
    CutIsFaithful(st, body, budget - MESSAGE_HEADER_LEN);
    CutIsSendable(pattern, budget, slotSize, st, body);
    hide DecodeMessage, Sendable, Carried, Cut, SeenAs, FromSlot;
    var fs := Cut(st, body, budget - MESSAGE_HEADER_LEN);
    forall i | 0 <= i < |fs|
      ensures Emittable(fs[i]) && FromSlot(SeenAs(pattern, fs[i], handle))
    {
      assert Piece(st, fs[i], budget - MESSAGE_HEADER_LEN, i == |fs| - 1);
      SeenIsFromSlot(pattern, budget, slotSize, fs[i], handle);
    }
  }
}
