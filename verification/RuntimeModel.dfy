/** The serving side of a module process as a state machine (server-go/bus/module_runtime.go:196-429):
    one loop that reads events and collects results, and one goroutine per running handler.

    Each step makes at most one access to what the two share, the `done` channel and the cancel flags, so
    that every interleaving of loop and handlers is a sequence of steps. */
module RuntimeModel {
  import opened Bits
  import opened Bytes
  import opened Wire
  import opened ModuleProtocol
  import opened Events
  import opened Fragments

  const MAX_IN_FLIGHT := 16

  /** The validated stage table, whether a handler is configured, and the endpoint's inline budget. */
  datatype Config = Config(stages: map<uint32, uint32>, hasHandler: bool, budget: uint32)

  /** The stage of an event kind, zero if none. */
  function StageOf(cfg: Config, kind: uint32): uint32 {
    if kind in cfg.stages then cfg.stages[kind] else 0
  }

  datatype Assembly = Assembly(eventKind: uint32, message: Message, body: bytes)

  /** A unit of work; `id` is its identity, which the code has as a pointer. */
  datatype Work = Work(id: nat, eventKind: uint32, correlation: uint64, stageID: uint32,
                       deadlineNS: uint64, traceID: uint64)

  datatype Outcome = Outcome(work: Work, body: bytes, status: uint16)

  /** Where a handler goroutine is: in the handler, past it, past its flag load, ready to send. */
  datatype Phase =
    | Working(request: bytes)
    | Returned(body: bytes, status: uint16)
    | Timing(body: bytes, status: uint16)
    | Decided(body: bytes, status: uint16)

  datatype Handler = Handler(work: Work, phase: Phase)

  datatype LoopAt =
    | Draining                    // at the loop head, collecting finished results
    | Ready                       // past it, about to look at the context and the bus
    | Flagging(todo: set<uint64>) // shutting down: jobs whose cancel flag is still to be stored
    | Joining                     // shutting down: receiving the outstanding results
    | Stopped

  datatype LogItem =
    | Polled(event: Event, absorbed: bool)
    | Started(work: Work, body: bytes)
    | Finished(outcome: Outcome)
    | Replied(fragment: Fragment)

  datatype State = State(
    assemblies: map<uint64, Assembly>, jobs: map<uint64, Work>,
    handlers: map<nat, Handler>, done: seq<Outcome>, cancelled: set<nat>,
    nextId: nat, at: LoopAt, log: seq<LogItem>)

  const INITIAL: State := State(map[], map[], map[], [], {}, 0, Draining, [])

  // ---- one event ----

  /** What the loop decides about an event. */
  datatype Verdict =
    | Skip
    | CancelIt
    | Refuse(stageID: uint32, traceID: uint64, status: uint16)
    | Absorb(assembly: Assembly)
    | Begin(message: Message, body: bytes)

  /** A fragment that does not continue the open assembly of its correlation. */
  predicate Mismatch(assembly: Assembly, kind: uint32, m: Message) {
    || assembly.eventKind != kind || assembly.message.stageID != m.stageID
    || assembly.message.deadlineNS != m.deadlineNS || assembly.message.traceID != m.traceID
  }

  predicate Invalid(cfg: Config, assemblies: map<uint64, Assembly>, jobs: map<uint64, Work>, event: Event) {
    var c := event.frame.correlation;
    var expected := StageOf(cfg, event.frame.eventKind);
    var m := DecodeMessage(event.payload);
    || expected == 0 || m.None? || m.value.operation != OP_INVOKE || m.value.stageID != expected
    || c in jobs || (c in assemblies && Mismatch(assemblies[c], event.frame.eventKind, m.value))
  }

  /** The body assembled so far for a correlation. */
  function SoFar(assemblies: map<uint64, Assembly>, c: uint64): bytes {
    if c in assemblies then assemblies[c].body else []
  }

  /** The decision on a completely assembled request. */
  function JudgeWhole(cfg: Config, jobs: map<uint64, Work>, expected: uint32, m: Message, body: bytes,
                      now: uint64): (v: Verdict)
    ensures v.Refuse? || v.Begin?
  {
    if DeadlineExpired(m, now) then Refuse(expected, m.traceID, STATUS_DEADLINE_EXCEEDED)
    else if !cfg.hasHandler then Refuse(expected, m.traceID, STATUS_CAPABILITY_ABSENT)
    else if |jobs| >= MAX_IN_FLIGHT then Refuse(expected, m.traceID, STATUS_INTERNAL)
    else Begin(m, body)
  }

  function Judge(cfg: Config, assemblies: map<uint64, Assembly>, jobs: map<uint64, Work>, event: Event,
                 now: uint64): Verdict {
    var f := event.frame;
    var c := f.correlation;
    var expected := StageOf(cfg, f.eventKind);
    if Has(f.flags, F_CANCEL) then CancelIt
    else if !Has(f.flags, F_REQUEST) then Skip
    else if Invalid(cfg, assemblies, jobs, event) then
      Refuse(if expected == 0 then 1 else expected, 0, STATUS_INVALID_REQUEST)
    else
      var m := DecodeMessage(event.payload).value;
      var body := SoFar(assemblies, c) + BodyOf(event.payload);
      if c !in assemblies && |assemblies| >= MAX_IN_FLIGHT then Refuse(expected, m.traceID, STATUS_INTERNAL)
      else if |body| > MESSAGE_MAX_BODY then Refuse(expected, m.traceID, STATUS_INTERNAL)
      else if Has(f.flags, F_MORE) then
        Absorb(if c in assemblies then assemblies[c].(body := body) else Assembly(f.eventKind, m, body))
      else JudgeWhole(cfg, jobs, expected, m, body, now)
  }

  /** What each verdict says about the event and the tables. */
  lemma JudgeFacts(cfg: Config, assemblies: map<uint64, Assembly>, jobs: map<uint64, Work>, event: Event,
                   now: uint64)
    ensures var v := Judge(cfg, assemblies, jobs, event, now);
      var f := event.frame;
      var c := f.correlation;
      && (v.CancelIt? <==> Has(f.flags, F_CANCEL))
      && (v.Skip? <==> !Has(f.flags, F_CANCEL) && !Has(f.flags, F_REQUEST))
      && (v.Refuse? ==> ValidStatus(v.status) && v.status != STATUS_OK && v.stageID != 0)
      && (v.Absorb? || v.Begin? ==>
            && !Invalid(cfg, assemblies, jobs, event) && c !in jobs
            && DecodeMessage(event.payload).Some? && StageOf(cfg, f.eventKind) != 0
            && (c in assemblies || |assemblies| < MAX_IN_FLIGHT)
            && (v.Absorb? <==> Has(f.flags, F_MORE)))
      && (v.Absorb? ==>
            && v.assembly.body == SoFar(assemblies, c) + BodyOf(event.payload)
            && |v.assembly.body| <= MESSAGE_MAX_BODY)
      && (v.Begin? ==>
            && v.message == DecodeMessage(event.payload).value
            && v.body == SoFar(assemblies, c) + BodyOf(event.payload) && |v.body| <= MESSAGE_MAX_BODY
            && |jobs| < MAX_IN_FLIGHT && cfg.hasHandler && !DeadlineExpired(v.message, now))
  {
    hide DecodeMessage, And, BodyOf;
  }

  // ---- replies ----

  /** How far a reply got: all its fragments, or the loop returns an error after some of them. */
  datatype Sending = AllSent | BrokenAfter(count: nat)

  function Fragmented(cfg: Config, kind: uint32, c: uint64, stageID: uint32, traceID: uint64, status: uint16,
                      body: bytes): seq<Fragment> {
    if cfg.budget > MESSAGE_HEADER_LEN
    then ReplyFragments(cfg.budget, kind, c, stageID, traceID, status, body) else []
  }

  /** A reply breaks strictly before its end, and at once when the budget leaves no room. */
  predicate Possible(cfg: Config, fs: seq<Fragment>, sending: Sending) {
    match sending
    case AllSent => cfg.budget > MESSAGE_HEADER_LEN
    case BrokenAfter(n) => n <= |fs| && (cfg.budget > MESSAGE_HEADER_LEN ==> n < |fs|)
  }

  function Out(fs: seq<Fragment>, sending: Sending): seq<LogItem> {
    var got := match sending case AllSent => fs case BrokenAfter(n) => if n <= |fs| then fs[..n] else fs;
    seq(|got|, i requires 0 <= i < |got| => Replied(got[i]))
  }

  lemma OutIsReplies(fs: seq<Fragment>, sending: Sending)
    ensures forall i :: 0 <= i < |Out(fs, sending)| ==> Out(fs, sending)[i].Replied?
  {
  }

  function After(sending: Sending): LoopAt { if sending.AllSent? then Draining else Stopped }

  function RefusalFragments(cfg: Config, event: Event, v: Verdict): seq<Fragment>
    requires v.Refuse?
  {
    Fragmented(cfg, event.frame.eventKind, event.frame.correlation, v.stageID, v.traceID, v.status, [])
  }

  function ResultFragments(cfg: Config, o: Outcome): seq<Fragment> {
    Fragmented(cfg, o.work.eventKind, o.work.correlation, o.work.stageID, o.work.traceID, o.status, o.body)
  }

  // ---- steps ----

  datatype Step =
    | Collect(sending: Sending)
    | NothingToCollect
    | SeeContextDone
    | SeeEpochOrPollError
    | PollNothing
    | PollEvent(event: Event, now: uint64, sending: Sending)
    | FlagJob(correlation: uint64)
    | AllFlagged
    | Join
    | AllJoined
    | HandlerReturns(id: nat, response: bytes, status: uint16)
    | HandlerLoadsFlag(id: nat)
    | HandlerReadsClock(id: nat, now: uint64)
    | HandlerSends(id: nat)

  predicate Enabled(cfg: Config, s: State, step: Step) {
    match step
    case Collect(sending) =>
      s.at.Draining? && s.done != [] && Possible(cfg, ResultFragments(cfg, s.done[0]), sending)
    case NothingToCollect => s.at.Draining? && s.done == []
    case SeeContextDone => s.at.Ready?
    case SeeEpochOrPollError => s.at.Ready?
    case PollNothing => s.at.Ready?
    case PollEvent(event, now, sending) =>
      && s.at.Ready?
      && var v := Judge(cfg, s.assemblies, s.jobs, event, now);
         if v.Refuse? then Possible(cfg, RefusalFragments(cfg, event, v), sending) else sending.AllSent?
    case FlagJob(c) => s.at.Flagging? && c in s.at.todo && c in s.jobs
    case AllFlagged => s.at.Flagging? && s.at.todo == {}
    case Join => s.at.Joining? && s.jobs != map[] && s.done != []
    case AllJoined => s.at.Joining? && s.jobs == map[]
    case HandlerReturns(id, _, _) => id in s.handlers && s.handlers[id].phase.Working?
    case HandlerLoadsFlag(id) => id in s.handlers && s.handlers[id].phase.Returned?
    case HandlerReadsClock(id, _) => id in s.handlers && s.handlers[id].phase.Timing?
    case HandlerSends(id) =>
      id in s.handlers && s.handlers[id].phase.Decided? && |s.done| < MAX_IN_FLIGHT
  }

  function WorkOf(s: State, event: Event, m: Message, stageID: uint32): Work {
    Work(s.nextId, event.frame.eventKind, event.frame.correlation, stageID, m.deadlineNS, m.traceID)
  }

  /** The effect of a verdict, once the event is on record. */
  function Apply(cfg: Config, s: State, event: Event, v: Verdict, sending: Sending): State {
    var c := event.frame.correlation;
    match v
    case Skip => s.(at := Draining)
    case CancelIt =>
      s.(assemblies := s.assemblies - {c},
         cancelled := if c in s.jobs then s.cancelled + {s.jobs[c].id} else s.cancelled,
         at := Draining)
    case Refuse(_, _, _) =>
      s.(assemblies := s.assemblies - {c}, at := After(sending),
         log := s.log + Out(RefusalFragments(cfg, event, v), sending))
    case Absorb(assembly) =>
      s.(assemblies := s.assemblies[c := assembly], at := Draining)
    case Begin(m, body) =>
      var work := WorkOf(s, event, m, StageOf(cfg, event.frame.eventKind));
      s.(assemblies := s.assemblies - {c}, jobs := s.jobs[c := work],
         handlers := s.handlers[s.nextId := Handler(work, Working(body))], nextId := s.nextId + 1,
         at := Draining, log := s.log + [Started(work, body)])
  }

  function OnEvent(cfg: Config, s: State, event: Event, now: uint64, sending: Sending): State {
    var v := Judge(cfg, s.assemblies, s.jobs, event, now);
    Apply(cfg, s.(log := s.log + [Polled(event, v.Absorb?)]), event, v, sending)
  }

  /** What a handler's answer becomes before any cancellation is looked at. */
  function Normalised(response: bytes, status: uint16): Phase {
    if !ValidStatus(status) || |response| > MESSAGE_MAX_BODY then Returned([], STATUS_INTERNAL)
    else if status != STATUS_OK then Returned([], status)
    else Returned(response, status)
  }

  function Next(cfg: Config, s: State, step: Step): State
    requires Enabled(cfg, s, step)
  {
    match step
    case Collect(sending) =>
      var o := s.done[0];
      s.(done := s.done[1..], jobs := s.jobs - {o.work.correlation}, at := After(sending),
         log := s.log + [Finished(o)] + Out(ResultFragments(cfg, o), sending))
    case NothingToCollect => s.(at := Ready)
    case SeeContextDone => s.(at := Flagging(s.jobs.Keys))
    case SeeEpochOrPollError => s.(at := Stopped)
    case PollNothing => s.(at := Draining)
    case PollEvent(event, now, sending) => OnEvent(cfg, s, event, now, sending)
    case FlagJob(c) => s.(cancelled := s.cancelled + {s.jobs[c].id}, at := Flagging(s.at.todo - {c}))
    case AllFlagged => s.(at := Joining)
    case Join =>
      var o := s.done[0];
      s.(done := s.done[1..], jobs := s.jobs - {o.work.correlation}, log := s.log + [Finished(o)])
    case AllJoined => s.(at := Stopped)
    case HandlerReturns(id, response, status) =>
      s.(handlers := s.handlers[id := s.handlers[id].(phase := Normalised(response, status))])
    case HandlerLoadsFlag(id) =>
      var h := s.handlers[id];
      var phase := if id in s.cancelled then Decided([], STATUS_CANCELLED)
                   else if h.work.deadlineNS == 0 then Decided(h.phase.body, h.phase.status)
                   else Timing(h.phase.body, h.phase.status);
      s.(handlers := s.handlers[id := h.(phase := phase)])
    case HandlerReadsClock(id, now) =>
      var h := s.handlers[id];
      var phase := if now != 0 && now >= h.work.deadlineNS then Decided([], STATUS_DEADLINE_EXCEEDED)
                   else Decided(h.phase.body, h.phase.status);
      s.(handlers := s.handlers[id := h.(phase := phase)])
    case HandlerSends(id) =>
      var h := s.handlers[id];
      s.(handlers := s.handlers - {id}, done := s.done + [Outcome(h.work, h.phase.body, h.phase.status)])
  }

  /** One for a correlation with a live job. */
  function Live(s: State, c: uint64): nat { if c in s.jobs then 1 else 0 }

  // ---- runs ----

  predicate Runs(cfg: Config, s: State, steps: seq<Step>)
    decreases |steps|
  {
    steps == [] || (Enabled(cfg, s, steps[0]) && Runs(cfg, Next(cfg, s, steps[0]), steps[1..]))
  }

  function Run(cfg: Config, s: State, steps: seq<Step>): State
    requires Runs(cfg, s, steps)
    decreases |steps|
  {
    if steps == [] then s else Run(cfg, Next(cfg, s, steps[0]), steps[1..])
  }

  /** What a configured handler is: any function of its work and request that returns. */
  type HandlerFunction = (Work, bytes) -> (bytes, uint16)

  /** If a handler returns in this step, it returns what `h` makes of its work and request. */
  predicate AnswersWith(s: State, step: Step, h: HandlerFunction) {
    step.HandlerReturns? && step.id in s.handlers && s.handlers[step.id].phase.Working? ==>
      (step.response, step.status) == h(s.handlers[step.id].work, s.handlers[step.id].phase.request)
  }

  /** Every handler that returns in a run returns what `h` says. */
  predicate AnswersBy(cfg: Config, s: State, steps: seq<Step>, h: HandlerFunction)
    requires Runs(cfg, s, steps)
    decreases |steps|
  {
    steps == [] || (AnswersWith(s, steps[0], h) && AnswersBy(cfg, Next(cfg, s, steps[0]), steps[1..], h))
  }

  predicate Serving(s: State) { s.at.Draining? || s.at.Ready? }

  /** Two runs, one after the other. */
  lemma {:induction false} RunJoin(cfg: Config, s: State, a: seq<Step>, b: seq<Step>)
    ensures Runs(cfg, s, a + b) <==> Runs(cfg, s, a) && Runs(cfg, Run(cfg, s, a), b)
    ensures Runs(cfg, s, a + b) ==> Run(cfg, s, a + b) == Run(cfg, Run(cfg, s, a), b)
    decreases |a|
  {
    hide Next, Enabled;
    if a == [] {
      assert a + b == b;
    } else {
      assert (a + b)[1..] == a[1..] + b;
      if Enabled(cfg, s, a[0]) { RunJoin(cfg, Next(cfg, s, a[0]), a[1..], b); }
    }
  }

  /** One more step at the end of a run. */
  lemma {:induction false} RunSnoc(cfg: Config, s: State, steps: seq<Step>, step: Step, h: HandlerFunction)
    requires Runs(cfg, s, steps) && Enabled(cfg, Run(cfg, s, steps), step)
    requires AnswersBy(cfg, s, steps, h) && AnswersWith(Run(cfg, s, steps), step, h)
    ensures Runs(cfg, s, steps + [step])
    ensures Run(cfg, s, steps + [step]) == Next(cfg, Run(cfg, s, steps), step)
    ensures AnswersBy(cfg, s, steps + [step], h)
    decreases |steps|
  {
    hide Next, Enabled, AnswersWith;
    if steps == [] {
      assert ([] + [step])[1..] == [];
    } else {
      RunSnoc(cfg, Next(cfg, s, steps[0]), steps[1..], step, h);
      assert (steps + [step])[1..] == steps[1..] + [step];
    }
  }
}
