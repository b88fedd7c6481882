/** A whole call: the fragments a caller sends start one handler, and the fragments the loop replies with make
    the waiting caller return exactly what that handler answered (server-go/bus/module_caller.go:96-223
    against server-go/bus/module_runtime.go:196-427). */
module RpcRoundTrip {
  import opened Bytes
  import opened Wire
  import opened ModuleProtocol
  import opened Events
  import opened Fragments
  import opened RuntimeModel
  import opened RuntimeTables
  import opened RuntimeOutcome
  import opened RuntimeShutdown
  import opened RequestRoundTrip
  import ModuleCaller

  // ---- replies in a history ----

  /** The reply fragments of `c`, in order. */
  function RepliesTo(log: seq<LogItem>, c: uint64): seq<Fragment> {
    if log == [] then []
    else RepliesTo(log[..|log| - 1], c) + ReplyIn(log[|log| - 1], c)
  }

  function ReplyIn(x: LogItem, c: uint64): seq<Fragment> {
    if x.Replied? && x.fragment.correlation == c then [x.fragment] else []
  }

  lemma RepliesSnoc(log: seq<LogItem>, x: LogItem, c: uint64)
    ensures RepliesTo(log + [x], c) == RepliesTo(log, c) + ReplyIn(x, c)
  {
    assert (log + [x])[..|log|] == log;
  }

  lemma {:induction false} RepliesAppend(log: seq<LogItem>, more: seq<LogItem>, c: uint64)
    ensures RepliesTo(log + more, c) == RepliesTo(log, c) + RepliesTo(more, c)
  {
    if more == [] {
      assert log + more == log;
    } else {
      var n := |more| - 1;
      assert log + more == (log + more[..n]) + [more[n]] && more == more[..n] + [more[n]];
      hide RepliesTo, ReplyIn;
      RepliesAppend(log, more[..n], c);
      RepliesSnoc(log + more[..n], more[n], c);
      RepliesSnoc(more[..n], more[n], c);
    }
  }

  lemma {:induction false} RepliesOfOut(fs: seq<Fragment>, d: uint64, c: uint64)
    requires forall i :: 0 <= i < |fs| ==> fs[i].correlation == d
    ensures RepliesTo(Out(fs, AllSent), c) == if c == d then fs else []
  {
    hide RepliesTo;
    if fs == [] {
      assert Out(fs, AllSent) == [];
      EmptyHistory(c);
    } else {
      var n := |fs| - 1;
      RepliesOfOut(fs[..n], d, c);
      assert Out(fs, AllSent) == Out(fs[..n], AllSent) + [Replied(fs[n])];
      RepliesSnoc(Out(fs[..n], AllSent), Replied(fs[n]), c);
      assert fs == fs[..n] + [fs[n]];
    }
  }

  lemma EmptyHistory(c: uint64)
    ensures RepliesTo([], c) == []
  {
  }

  lemma {:induction false} CutCorrelation(st: Stream, body: bytes, chunk: nat)
    requires 0 < chunk < 0x1_0000_0000
    ensures forall i :: 0 <= i < |Cut(st, body, chunk)| ==> Cut(st, body, chunk)[i].correlation == st.correlation
    decreases |body|
  {
    hide Envelope;
    if |body| > chunk { CutCorrelation(st, body[chunk..], chunk); }
  }

  lemma RepliesOfFragmented(cfg: Config, kind: uint32, d: uint64, stageID: uint32, traceID: uint64, status: uint16,
                            body: bytes, c: uint64)
    ensures var fs := Fragmented(cfg, kind, d, stageID, traceID, status, body);
      RepliesTo(Out(fs, AllSent), c) == if c == d then fs else []
  {
    if cfg.budget > MESSAGE_HEADER_LEN {
      CutCorrelation(ReplyStream(kind, d, stageID, traceID, status, body), SentBody(status, body),
                     cfg.budget - MESSAGE_HEADER_LEN);
    }
    RepliesOfOut(Fragmented(cfg, kind, d, stageID, traceID, status, body), d, c);
  }

  lemma {:induction false} NoRepliesIn(more: seq<LogItem>, c: uint64)
    requires forall i :: 0 <= i < |more| ==> !(more[i].Replied? && more[i].fragment.correlation == c)
    ensures RepliesTo(more, c) == []
  {
    if more != [] { NoRepliesIn(more[..|more| - 1], c); }
  }

  lemma OthersReplies(cfg: Config, kind: uint32, d: uint64, stageID: uint32, traceID: uint64, status: uint16,
                      body: bytes, sending: Sending, c: uint64)
    requires c != d
    ensures RepliesTo(Out(Fragmented(cfg, kind, d, stageID, traceID, status, body), sending), c) == []
  {
    var fs := Fragmented(cfg, kind, d, stageID, traceID, status, body);
    if cfg.budget > MESSAGE_HEADER_LEN {
      CutCorrelation(ReplyStream(kind, d, stageID, traceID, status, body), SentBody(status, body),
                     cfg.budget - MESSAGE_HEADER_LEN);
    }
    hide Fragmented;
    NoRepliesIn(Out(fs, sending), c);
  }

  // ---- what a handler settles on ----

  /** How far the handler of `w` is, `late` if it has read the clock past its deadline. */
  predicate PhaseFits(phase: Phase, request: bytes, answer: (bytes, uint16), late: bool) {
    match phase
    case Working(r) => r == request && !late
    case Returned(body, status) => (body, status) == Settled(answer) && !late
    case Timing(body, status) => (body, status) == Settled(answer) && !late
    case Decided(body, status) => (body, status) == InTime(answer, late)
  }

  /** If this step is the return of the handler of `w` on its request, it returns the answer. */
  predicate Faithful(s: State, step: Step, w: Work, request: bytes, answer: (bytes, uint16)) {
    step.HandlerReturns? && step.id in s.handlers && s.handlers[step.id] == Handler(w, Working(request)) ==>
      (step.response, step.status) == answer
  }

  /** The job of `w` is live, not cancelled, and on its way to its answer. */
  predicate InHand(s: State, w: Work, request: bytes, answer: (bytes, uint16), late: bool) {
    && w.correlation in s.jobs && s.jobs[w.correlation] == w && w.id !in s.cancelled
    && (w.id in s.handlers ==> PhaseFits(s.handlers[w.id].phase, request, answer, late))
    && (forall i :: 0 <= i < |s.done| && s.done[i].work == w ==>
          (s.done[i].body, s.done[i].status) == InTime(answer, late))
  }

  /** The result of `w`: what its handler answered, or that it was late. */
  function ResultOf(w: Work, answer: (bytes, uint16), late: bool): Outcome {
    Outcome(w, InTime(answer, late).0, InTime(answer, late).1)
  }

  /** The job is over and was answered, after the replies in `base`, by the fragments of its result. */
  predicate Answered(cfg: Config, s: State, w: Work, answer: (bytes, uint16), base: seq<Fragment>, late: bool) {
    && w.correlation !in s.jobs && w.id !in s.handlers && w.id < s.nextId
    && RepliesTo(s.log, w.correlation) == base + ResultFragments(cfg, ResultOf(w, answer, late))
  }

  predicate Underway(cfg: Config, s: State, w: Work, request: bytes, answer: (bytes, uint16), base: seq<Fragment>,
                     late: bool) {
    Serving(s) ==>
      || (InHand(s, w, request, answer, late) && RepliesTo(s.log, w.correlation) == base)
      || Answered(cfg, s, w, answer, base, late)
  }

  // ---- steps that are not events of the correlation ----

  lemma OtherEventReplies(cfg: Config, s: State, event: Event, now: uint64, sending: Sending, c: uint64)
    requires event.frame.correlation != c
    ensures RepliesTo(OnEvent(cfg, s, event, now, sending).log, c) == RepliesTo(s.log, c)
  {
    hide Judge, Out, RepliesTo, Fragmented;
    var v := Judge(cfg, s.assemblies, s.jobs, event, now);
    var polled := s.log + [Polled(event, v.Absorb?)];
    RepliesSnoc(s.log, Polled(event, v.Absorb?), c);
    if v.Refuse? {
      OthersReplies(cfg, event.frame.eventKind, event.frame.correlation, v.stageID, v.traceID, v.status, [], sending,
                    c);
      RepliesAppend(polled, Out(RefusalFragments(cfg, event, v), sending), c);
    } else if v.Begin? {
      var t := OnEvent(cfg, s, event, now, sending);
      assert t.log == polled + [t.log[|polled|]];
      RepliesSnoc(polled, t.log[|polled|], c);
    }
  }

  /** Collecting a result answers its own correlation, with all of its fragments if nothing breaks. */
  lemma CollectReplies(cfg: Config, s: State, sending: Sending, c: uint64)
    requires Enabled(cfg, s, Collect(sending))
    ensures var o := s.done[0];
      var t := Next(cfg, s, Collect(sending));
      && (o.work.correlation != c ==> RepliesTo(t.log, c) == RepliesTo(s.log, c))
      && (o.work.correlation == c && sending.AllSent? ==>
            RepliesTo(t.log, c) == RepliesTo(s.log, c) + ResultFragments(cfg, o))
  {
    hide Out, RepliesTo, Fragmented, Possible;
    var o := s.done[0];
    var w := o.work;
    RepliesSnoc(s.log, Finished(o), c);
    RepliesAppend(s.log + [Finished(o)], Out(ResultFragments(cfg, o), sending), c);
    if w.correlation != c {
      OthersReplies(cfg, w.eventKind, w.correlation, w.stageID, w.traceID, o.status, o.body, sending, c);
    } else {
      RepliesOfFragmented(cfg, w.eventKind, w.correlation, w.stageID, w.traceID, o.status, o.body, c);
    }
  }

  /** Nothing but a result of its own job answers a correlation behind its back. */
  lemma QuietReplies(cfg: Config, s: State, step: Step, c: uint64)
    requires DoneOk(s) && Enabled(cfg, s, step) && !IsPollOf(step, c)
    requires c !in s.jobs || !step.Collect?
    ensures RepliesTo(Next(cfg, s, step).log, c) == RepliesTo(s.log, c)
  {
    hide OnEvent, Judge, ResultFragments, Out, RepliesTo, Possible;
    match step
    case PollEvent(event, now, sending) => OtherEventReplies(cfg, s, event, now, sending, c);
    case Collect(sending) => CollectReplies(cfg, s, sending, c);
    case Join => RepliesSnoc(s.log, Finished(s.done[0]), c);
    case _ =>
  }

  lemma OtherEventKeepsInHand(cfg: Config, s: State, event: Event, now: uint64, sending: Sending, w: Work,
                              request: bytes, answer: (bytes, uint16), late: bool)
    requires JobsOk(s) && InHand(s, w, request, answer, late) && event.frame.correlation != w.correlation
    ensures InHand(OnEvent(cfg, s, event, now, sending), w, request, answer, late)
  {
    hide Judge, Out, RefusalFragments, PhaseFits, InTime, Accounted;
  }

  lemma OtherHandlerKeepsInHand(cfg: Config, s: State, step: Step, w: Work, request: bytes, answer: (bytes, uint16),
                                late: bool)
    requires JobsOk(s) && HandlersOk(s) && Enabled(cfg, s, step) && InHand(s, w, request, answer, late)
    requires OfHandler(step) && step.id != w.id
    ensures InHand(Next(cfg, s, step), w, request, answer, late) && !LateAt(step, w)
  {
    hide Accounted, Normalised, InTime, PhaseFits;
    var t := Next(cfg, s, step);
    assert forall i :: 0 <= i < |s.done| ==> t.done[i] == s.done[i];
    assert step.HandlerSends? ==> s.handlers[step.id].work.id == step.id;
  }

  lemma OwnHandlerKeepsInHand(cfg: Config, s: State, step: Step, w: Work, request: bytes, answer: (bytes, uint16),
                              late: bool)
    requires JobsOk(s) && HandlersOk(s) && DoneOk(s) && Enabled(cfg, s, step) && InHand(s, w, request, answer, late)
    requires OfHandler(step) && step.id == w.id && Faithful(s, step, w, request, answer)
    ensures InHand(Next(cfg, s, step), w, request, answer, late || LateAt(step, w))
  {
    hide Accounted, Normalised, Settled;
    var t := Next(cfg, s, step);
    var other := s.handlers[w.id].work;
    assert s.jobs[other.correlation] == other && s.jobs[w.correlation] == w;
    if step.HandlerReturns? { NormalisedIsSettled(step.response, step.status); }
    assert forall i :: 0 <= i < |s.done| ==> t.done[i] == s.done[i] && s.done[i].work != w;
  }

  lemma HandlerKeepsInHand(cfg: Config, s: State, step: Step, w: Work, request: bytes, answer: (bytes, uint16),
                           late: bool)
    requires JobsOk(s) && HandlersOk(s) && DoneOk(s) && Enabled(cfg, s, step) && InHand(s, w, request, answer, late)
    requires OfHandler(step) && Faithful(s, step, w, request, answer)
    ensures InHand(Next(cfg, s, step), w, request, answer, late || LateAt(step, w))
  {
    hide Next, Enabled, InHand, JobsOk, HandlersOk, DoneOk;
    if step.id == w.id {
      OwnHandlerKeepsInHand(cfg, s, step, w, request, answer, late);
    } else {
      OtherHandlerKeepsInHand(cfg, s, step, w, request, answer, late);
    }
  }

  lemma CollectKeepsInHand(cfg: Config, s: State, sending: Sending, w: Work, request: bytes, answer: (bytes, uint16),
                           late: bool)
    requires DoneOk(s) && Enabled(cfg, s, Collect(sending)) && InHand(s, w, request, answer, late)
    requires s.done[0].work.correlation != w.correlation
    ensures InHand(Next(cfg, s, Collect(sending)), w, request, answer, late)
  {
    hide PhaseFits, InTime, Possible, ResultFragments, Out;
    var t := Next(cfg, s, Collect(sending));
    assert forall i :: 0 <= i < |t.done| ==> t.done[i] == s.done[i + 1];
  }

  /** Steps that do not read this handler's clock. */
  lemma NoClockRead(cfg: Config, s: State, step: Step, w: Work)
    requires Enabled(cfg, s, step) && w.id !in s.handlers
    ensures !LateAt(step, w)
  {
    hide Judge, Possible, ResultFragments;
  }

  /** A handler that is over stays so. */
  lemma StaysOver(cfg: Config, s: State, step: Step, id: nat)
    requires Tables(s) && Enabled(cfg, s, step) && id !in s.handlers && id < s.nextId
    ensures var t := Next(cfg, s, step);
      id !in t.handlers && id < t.nextId
  {
    hide OnEvent, Judge, ResultFragments, Out, Possible, JobsOk, HandlersOk, DoneOk, ResultsOk, AssembliesOk, LoopMoved;
    FreshId(s);
    if !OfHandler(step) {
      LoopMoves(cfg, s, step);
      OverAfterLoop(s, Next(cfg, s, step), id);
    }
  }

  lemma OverAfterLoop(s: State, t: State, id: nat)
    requires LoopMoved(s, t) && id !in s.handlers && id < s.nextId
    ensures id !in t.handlers && id < t.nextId
  {
  }

  lemma StepKeepsUnderway(cfg: Config, s: State, step: Step, w: Work, request: bytes, answer: (bytes, uint16),
                          base: seq<Fragment>, late: bool)
    requires Tables(s) && Enabled(cfg, s, step) && !IsPollOf(step, w.correlation)
    requires Underway(cfg, s, w, request, answer, base, late)
    requires Faithful(s, step, w, request, answer)
    ensures Underway(cfg, Next(cfg, s, step), w, request, answer, base, late || LateAt(step, w))
  {
    hide Next, Enabled, RepliesTo, ResultFragments, InHand, ResultOf, LateAt;
    var t := Next(cfg, s, step);
    var c := w.correlation;
    if Serving(t) {
      ServingBefore(cfg, s, step);
      if InHand(s, w, request, answer, late) && RepliesTo(s.log, c) == base {
        InHandStep(cfg, s, step, w, request, answer, base, late);
      } else {
        QuietReplies(cfg, s, step, c);
        StaysAway(cfg, s, step, c);
        NoClockRead(cfg, s, step, w);
        StaysOver(cfg, s, step, w.id);
      }
    }
  }

  lemma ServingBefore(cfg: Config, s: State, step: Step)
    requires Enabled(cfg, s, step) && Serving(Next(cfg, s, step))
    ensures Serving(s)
  {
    hide Judge, Out, Possible, ResultFragments, Apply;
  }

  /** A correlation without a job gets none except from its own events. */
  lemma StaysAway(cfg: Config, s: State, step: Step, c: uint64)
    requires Enabled(cfg, s, step) && !IsPollOf(step, c) && c !in s.jobs
    ensures c !in Next(cfg, s, step).jobs
  {
    OtherStep(cfg, s, step, c);
    hide Next, Enabled;
  }

  lemma InHandStep(cfg: Config, s: State, step: Step, w: Work, request: bytes, answer: (bytes, uint16),
                   base: seq<Fragment>, late: bool)
    requires Tables(s) && Enabled(cfg, s, step) && !IsPollOf(step, w.correlation)
    requires Serving(s) && Serving(Next(cfg, s, step))
    requires InHand(s, w, request, answer, late) && RepliesTo(s.log, w.correlation) == base
    requires Faithful(s, step, w, request, answer)
    ensures Underway(cfg, Next(cfg, s, step), w, request, answer, base, late || LateAt(step, w))
  {
    hide OnEvent, Judge, ResultFragments, Out, RepliesTo, Possible, AssembliesOk, ResultsOk, PhaseFits, InTime,
         Accounted;
    match step
    case PollEvent(event, now, sending) =>
      OtherEventKeepsInHand(cfg, s, event, now, sending, w, request, answer, late);
      QuietReplies(cfg, s, step, w.correlation);
    case Collect(sending) =>
      CollectReplies(cfg, s, sending, w.correlation);
      if s.done[0].work.correlation == w.correlation {
        assert s.done[0].work == w && s.done[0] == ResultOf(w, answer, late);
      } else {
        CollectKeepsInHand(cfg, s, sending, w, request, answer, late);
      }
    case HandlerReturns(_, _, _) => HandlerKeepsInHand(cfg, s, step, w, request, answer, late);
    case HandlerLoadsFlag(_) => HandlerKeepsInHand(cfg, s, step, w, request, answer, late);
    case HandlerReadsClock(_, _) => HandlerKeepsInHand(cfg, s, step, w, request, answer, late);
    case HandlerSends(_) => HandlerKeepsInHand(cfg, s, step, w, request, answer, late);
    case _ =>
  }

  lemma {:induction false} RunKeepsUnderway(cfg: Config, s: State, steps: seq<Step>, w: Work, request: bytes,
                                            h: HandlerFunction, base: seq<Fragment>, late: bool)
    requires Tables(s) && Runs(cfg, s, steps) && EventsFor(steps, w.correlation) == []
    requires AnswersBy(cfg, s, steps, h) && Underway(cfg, s, w, request, h(w, request), base, late)
    ensures Underway(cfg, Run(cfg, s, steps), w, request, h(w, request), base, late || ReadsLate(steps, w))
    decreases |steps|
  {
    hide Tables, Next, Enabled, Underway, ReadsLate;
    ReadsLateFirst(steps, w);
    if steps != [] {
      StepKeepsTables(cfg, s, steps[0]);
      StepKeepsUnderway(cfg, s, steps[0], w, request, h(w, request), base, late);
      RunKeepsUnderway(cfg, Next(cfg, s, steps[0]), steps[1..], w, request, h, base, late || LateAt(steps[0], w));
    }
  }

  lemma ReadsLateFirst(steps: seq<Step>, w: Work)
    ensures ReadsLate(steps, w) <==> steps != [] && (LateAt(steps[0], w) || ReadsLate(steps[1..], w))
  {
    hide LateAt;
    if steps != [] && ReadsLate(steps[1..], w) {
      var i :| 0 <= i < |steps[1..]| && LateAt(steps[1..][i], w);
      assert LateAt(steps[i + 1], w);
    }
    if i :| 0 <= i < |steps| && LateAt(steps[i], w) {
      if i > 0 { assert LateAt(steps[1..][i - 1], w); }
    }
  }

  // ---- from the fragments of a request to its answer ----

  /** The work of a stream. */
  predicate WorkFor(st: Stream, w: Work) {
    && w.correlation == st.correlation && w.eventKind == st.kind && w.stageID == st.stageID
    && w.deadlineNS == st.deadlineNS && w.traceID == st.traceID
  }

  lemma LastFragmentStarts(cfg: Config, s: State, st: Stream, body: bytes, length: uint32, step: Step)
    returns (w: Work)
    requires Tables(s) && FlagsKnown(s)
    requires Enabled(cfg, s, step) && IsPollOf(step, st.correlation) && step.event.frame.eventKind == st.kind
    requires StageOf(cfg, st.kind) == st.stageID && st.correlation !in s.jobs
    requires Judge(cfg, s.assemblies, s.jobs, step.event, step.now) == Begin(PartMessage(st, length), body)
    ensures WorkFor(st, w) && w.id == s.nextId
    ensures forall a: (bytes, uint16) :: InHand(Next(cfg, s, step), w, body, a, false)
    ensures Starts(Next(cfg, s, step).log, st.correlation) == Starts(s.log, st.correlation) + [Started(w, body)]
    ensures RepliesTo(Next(cfg, s, step).log, st.correlation) == RepliesTo(s.log, st.correlation)
  {
    hide Judge, RepliesTo, Tables, FlagsKnown, InHand, Out, RefusalFragments, Starts;
    var t := Next(cfg, s, step);
    w := t.jobs[st.correlation];
    var polled := s.log + [Polled(step.event, false)];
    assert t.log == polled + [Started(w, body)];
    RepliesSnoc(s.log, Polled(step.event, false), st.correlation);
    RepliesSnoc(polled, Started(w, body), st.correlation);
    StartsSnoc(s.log, Polled(step.event, false), st.correlation);
    StartsSnoc(polled, Started(w, body), st.correlation);
    FreshWorkInHand(s, t, w, body);
  }

  /** Work under a new identity is in hand. */
  lemma FreshWorkInHand(s: State, t: State, w: Work, body: bytes)
    requires Tables(s) && FlagsKnown(s) && w.id == s.nextId
    requires t.jobs == s.jobs[w.correlation := w] && t.handlers == s.handlers[w.id := Handler(w, Working(body))]
    requires t.done == s.done && t.cancelled == s.cancelled
    ensures forall a: (bytes, uint16) :: InHand(t, w, body, a, false)
  {
    hide JobsOk, HandlersOk, DoneOk, ResultsOk, AssembliesOk, LoopOk, InTime;
    FreshId(s);
  }

  // ---- a request that is refused ----

  /** What the loop replies to a request of this stream that it refuses. */
  function Refusal(cfg: Config, st: Stream, status: uint16): seq<Fragment> {
    Fragmented(cfg, st.kind, st.correlation, st.stageID, st.traceID, status, [])
  }

  /** After the replies in `base` the refusal was replied; if `alone`, that was all, and no job came of it. */
  predicate TurnedAway(cfg: Config, s: State, st: Stream, status: uint16, base: seq<Fragment>, alone: bool) {
    Serving(s) ==>
      var replies := RepliesTo(s.log, st.correlation);
      if alone then replies == base + Refusal(cfg, st, status) && st.correlation !in s.jobs
      else base + Refusal(cfg, st, status) <= replies
  }

  lemma RefusalTurnsAway(cfg: Config, s: State, st: Stream, status: uint16, step: Step)
    requires Enabled(cfg, s, step) && IsPollOf(step, st.correlation) && step.event.frame.eventKind == st.kind
    requires Judge(cfg, s.assemblies, s.jobs, step.event, step.now) == Refuse(st.stageID, st.traceID, status)
    requires st.correlation !in s.jobs
    ensures TurnedAway(cfg, Next(cfg, s, step), st, status, RepliesTo(s.log, st.correlation), true)
  {
    hide Judge, RepliesTo, Out, Fragmented, Possible;
    var c := st.correlation;
    var polled := Polled(step.event, false);
    RepliesSnoc(s.log, polled, c);
    RepliesAppend(s.log + [polled], Out(Refusal(cfg, st, status), step.sending), c);
    RepliesOfFragmented(cfg, st.kind, c, st.stageID, st.traceID, status, [], c);
  }

  lemma AloneOrNot(cfg: Config, s: State, st: Stream, status: uint16, base: seq<Fragment>, alone: bool)
    requires TurnedAway(cfg, s, st, status, base, true)
    ensures TurnedAway(cfg, s, st, status, base, alone)
  {
    hide RepliesTo, Refusal;
  }

  lemma LogGrows(cfg: Config, s: State, step: Step)
    requires Enabled(cfg, s, step)
    ensures s.log <= Next(cfg, s, step).log
  {
    hide Judge, Out, Possible, ResultFragments, RefusalFragments;
  }

  lemma StepKeepsTurnedAway(cfg: Config, s: State, step: Step, st: Stream, status: uint16, base: seq<Fragment>,
                            alone: bool)
    requires Tables(s) && Enabled(cfg, s, step) && (alone ==> !IsPollOf(step, st.correlation))
    requires TurnedAway(cfg, s, st, status, base, alone)
    ensures TurnedAway(cfg, Next(cfg, s, step), st, status, base, alone)
  {
    hide Next, Enabled, RepliesTo, Refusal, JobsOk, HandlersOk, ResultsOk, AssembliesOk, LoopOk, DoneOk;
    var t := Next(cfg, s, step);
    var c := st.correlation;
    if Serving(t) {
      ServingBefore(cfg, s, step);
      if alone {
        QuietReplies(cfg, s, step, c);
        StaysAway(cfg, s, step, c);
      } else {
        LogGrows(cfg, s, step);
        assert t.log == s.log + t.log[|s.log|..];
        RepliesAppend(s.log, t.log[|s.log|..], c);
      }
    }
  }

  lemma {:induction false} RunKeepsTurnedAway(cfg: Config, s: State, steps: seq<Step>, st: Stream, status: uint16,
                                              base: seq<Fragment>, alone: bool)
    requires Tables(s) && Runs(cfg, s, steps) && (alone ==> EventsFor(steps, st.correlation) == [])
    requires TurnedAway(cfg, s, st, status, base, alone)
    ensures TurnedAway(cfg, Run(cfg, s, steps), st, status, base, alone)
    decreases |steps|
  {
    hide Tables, Next, Enabled, TurnedAway;
    if steps != [] {
      StepKeepsTables(cfg, s, steps[0]);
      StepKeepsTurnedAway(cfg, s, steps[0], st, status, base, alone);
      RunKeepsTurnedAway(cfg, Next(cfg, s, steps[0]), steps[1..], st, status, base, alone);
    }
  }

  // ---- the request as a whole ----

  /** The one handler started for the stream since `s` was started on this work and request. */
  predicate Undertaken(s: State, t: State, st: Stream, w: Work, request: bytes) {
    && WorkFor(st, w) && w.id >= s.nextId
    && Starts(t.log, st.correlation) == Starts(s.log, st.correlation) + [Started(w, request)]
  }

  /** What has become of a request, by its ruling: work that is underway or answered, or a refusal, which is all that
      comes of it if it came together. */
  ghost predicate Resolved(cfg: Config, s: State, steps: seq<Step>, st: Stream, request: bytes, h: HandlerFunction)
    requires Runs(cfg, s, steps)
  {
    var t, base := Run(cfg, s, steps), RepliesTo(s.log, st.correlation);
    match Ruling(cfg, s, steps, st.correlation, st.deadlineNS, |request|)
    case None =>
      exists w: Work :: Undertaken(s, t, st, w, request)
        && Underway(cfg, t, w, request, h(w, request), base, ReadsLate(steps, w))
    case Some(status) =>
      TurnedAway(cfg, t, st, status, base, ComesTogether(cfg, s, steps, st.correlation, |request|))
  }

  /** However its fragments are mixed with other traffic, whatever its length and whatever the tables hold, a
      request leads to one piece of work or to a refusal, as it is ruled. */
  lemma {:induction false} FragmentsAreAnswered(
    cfg: Config, s: State, steps: seq<Step>, st: Stream, pre: bytes, first: bool, rest: bytes, chunk: nat,
    h: HandlerFunction)
    requires Tables(s) && FlagsKnown(s)
    requires Served(cfg, st) && Holding(s, st, pre, first) && 0 < chunk < 0x1_0000_0000
    requires |pre| <= MESSAGE_MAX_BODY && PiecesFit(rest, chunk)
    requires Runs(cfg, s, steps) && AnswersBy(cfg, s, steps, h)
    requires InOrder(EventsFor(steps, st.correlation), Cut(st, rest, chunk))
    ensures Resolved(cfg, s, steps, st, pre + rest, h)
    decreases |steps|
  {
    hide Tables, Next, Enabled, FlagsKnown, RepliesTo, Delivers, Judge, Part, Holding, Resolved, Ongoing, Rooms;
    var c := st.correlation;
    var es, fs := EventsFor(steps, c), Cut(st, rest, chunk);
    assert steps != [];
    var t := Next(cfg, s, steps[0]);
    StepKeepsTables(cfg, s, steps[0]);
    KeepFlags(cfg, s, steps[0]);
    HoldingFacts(s, st, pre, first);
    if !IsPollOf(steps[0], c) {
      OtherStep(cfg, s, steps[0], c);
      StillHolding(s, t, st, pre, first);
      NoReplyYet(cfg, s, steps[0], c);
      OtherGoesOn(cfg, s, steps, c);
      FragmentsAreAnswered(cfg, t, steps[1..], st, pre, first, rest, chunk, h);
      LaterResolved(cfg, s, steps, st, pre + rest, h);
    } else {
      assert es[0] == steps[0].event && es[1..] == EventsFor(steps[1..], c);
      assert Delivers(es[0], fs[0]);
      var piece := if |rest| <= chunk then rest else rest[..chunk];
      if !Taken(s, pre, first, piece) {
        NotTakenTurnsAway(cfg, s, steps, st, pre, first, piece, |rest| > chunk, pre + rest, h);
      } else if |rest| <= chunk {
        assert EventsFor(steps[1..], c) == [];
        LastIsResolved(cfg, s, steps, st, pre, first, rest, h);
      } else {
        MiddleFragment(cfg, s, st, pre, first, piece, steps[0]);
        MiddleReplies(cfg, s, st, pre, first, piece, steps[0]);
        assert fs[1..] == Cut(st, rest[chunk..], chunk);
        LaterInOrder(es, fs);
        assert pre + piece + rest[chunk..] == pre + rest;
        HoldingFacts(t, st, pre + piece, false);
        MiddleGoesOn(cfg, s, steps, c);
        FragmentsAreAnswered(cfg, t, steps[1..], st, pre + piece, false, rest[chunk..], chunk, h);
        LaterResolved(cfg, s, steps, st, pre + rest, h);
      }
    }
  }

  /** The first step leaves it to the others what becomes of the request. */
  predicate Ongoing(cfg: Config, s: State, steps: seq<Step>, c: uint64)
    requires steps != [] && Runs(cfg, s, steps)
  {
    var t := Next(cfg, s, steps[0]);
    && (HasPlace(cfg, s, steps, c) <==> HasPlace(cfg, t, steps[1..], c))
    && forall d: uint64 :: LastAdmission(cfg, s, steps, c, d) == LastAdmission(cfg, t, steps[1..], c, d)
  }

  lemma OtherGoesOn(cfg: Config, s: State, steps: seq<Step>, c: uint64)
    requires steps != [] && Runs(cfg, s, steps) && !IsPollOf(steps[0], c)
    requires c in Next(cfg, s, steps[0]).assemblies <==> c in s.assemblies
    ensures Ongoing(cfg, s, steps, c)
  {
    hide Next, Enabled, Admission, EventsFor;
    assert Rooms(cfg, s, steps, c) == Rooms(cfg, Next(cfg, s, steps[0]), steps[1..], c);
  }

  lemma MiddleGoesOn(cfg: Config, s: State, steps: seq<Step>, c: uint64)
    requires steps != [] && Runs(cfg, s, steps) && IsPollOf(steps[0], c) && EventsFor(steps[1..], c) != []
    requires c in s.assemblies || |s.assemblies| < MAX_IN_FLIGHT
    requires c in Next(cfg, s, steps[0]).assemblies
    ensures Ongoing(cfg, s, steps, c)
  {
    hide Next, Enabled, Admission, EventsFor;
    assert Rooms(cfg, s, steps, c)[0] == (|s.assemblies| < MAX_IN_FLIGHT);
  }

  lemma LaterResolved(cfg: Config, s: State, steps: seq<Step>, st: Stream, request: bytes, h: HandlerFunction)
    requires steps != [] && Runs(cfg, s, steps) && Ongoing(cfg, s, steps, st.correlation)
    requires RepliesTo(Next(cfg, s, steps[0]).log, st.correlation) == RepliesTo(s.log, st.correlation)
    requires Starts(Next(cfg, s, steps[0]).log, st.correlation) == Starts(s.log, st.correlation) && Tables(s)
    requires Resolved(cfg, Next(cfg, s, steps[0]), steps[1..], st, request, h)
    ensures Resolved(cfg, s, steps, st, request, h)
  {
    hide Next, Enabled, RepliesTo, HasPlace, LastAdmission, Underway, TurnedAway, WorkFor, Tables, Starts, ReadsLate;
    var u := Next(cfg, s, steps[0]);
    forall w: Work | w.id >= u.nextId
      ensures w.id >= s.nextId && (ReadsLate(steps, w) <==> ReadsLate(steps[1..], w))
    {
      NotYetStarted(cfg, s, steps[0], w);
      ReadsLateFirst(steps, w);
    }
  }

  lemma NotYetStarted(cfg: Config, s: State, step: Step, w: Work)
    requires Tables(s) && Enabled(cfg, s, step) && w.id >= Next(cfg, s, step).nextId
    ensures w.id >= s.nextId && !LateAt(step, w)
  {
    hide OnEvent, Judge, Possible, ResultFragments, Out, JobsOk, HandlersOk, DoneOk, ResultsOk, AssembliesOk, LoopOk,
         LoopMoved;
    FreshId(s);
    if OfHandler(step) {
      KnownHandler(s, step.id);
    } else {
      LoopMoves(cfg, s, step);
      IdsGrow(s, Next(cfg, s, step));
    }
  }

  lemma IdsGrow(s: State, t: State)
    requires LoopMoved(s, t)
    ensures s.nextId <= t.nextId
  {
  }

  lemma KnownHandler(s: State, id: nat)
    requires JobsOk(s) && HandlersOk(s) && id in s.handlers
    ensures id < s.nextId
  {
    hide Accounted;
    assert s.jobs[s.handlers[id].work.correlation].id == id;
  }

  /** A fragment that finds no room or carries the sum past the limit. */
  lemma NotTakenTurnsAway(cfg: Config, s: State, steps: seq<Step>, st: Stream, pre: bytes, first: bool, piece: bytes,
                          more: bool, request: bytes, h: HandlerFunction)
    requires Tables(s) && Served(cfg, st) && Holding(s, st, pre, first) && |piece| <= MESSAGE_MAX_BODY
    requires steps != [] && Runs(cfg, s, steps) && IsPollOf(steps[0], st.correlation)
    requires Delivers(steps[0].event, Part(st, piece, more)) && !Taken(s, pre, first, piece)
    requires |pre| + |piece| <= |request|
    ensures Resolved(cfg, s, steps, st, request, h)
  {
    hide Tables, Next, Enabled, RepliesTo, Delivers, Judge, Part, TurnedAway, Underway, LastAdmission;
    FragmentVerdict(cfg, s, st, pre, first, piece, more, steps[0].event, steps[0].now);
    RefusalTurnsAway(cfg, s, st, STATUS_INTERNAL, steps[0]);
    StepKeepsTables(cfg, s, steps[0]);
    var t := Next(cfg, s, steps[0]);
    AloneOrNot(cfg, t, st, STATUS_INTERNAL, RepliesTo(s.log, st.correlation), false);
    RunKeepsTurnedAway(cfg, t, steps[1..], st, STATUS_INTERNAL, RepliesTo(s.log, st.correlation), false);
  }

  /** The last fragment, and what the run makes of it. */
  lemma LastIsResolved(cfg: Config, s: State, steps: seq<Step>, st: Stream, pre: bytes, first: bool, piece: bytes,
                       h: HandlerFunction)
    requires Tables(s) && FlagsKnown(s) && Served(cfg, st) && Holding(s, st, pre, first)
    requires |piece| <= MESSAGE_MAX_BODY && Taken(s, pre, first, piece)
    requires steps != [] && Runs(cfg, s, steps) && AnswersBy(cfg, s, steps, h)
    requires IsPollOf(steps[0], st.correlation) && Delivers(steps[0].event, Part(st, piece, false))
    requires EventsFor(steps[1..], st.correlation) == []
    ensures Resolved(cfg, s, steps, st, pre + piece, h)
  {
    hide Tables, FlagsKnown, Next, Enabled, RepliesTo, Delivers, Judge, Part, TurnedAway, Underway;
    var c := st.correlation;
    var base := RepliesTo(s.log, c);
    var step, t := steps[0], Next(cfg, s, steps[0]);
    FragmentVerdict(cfg, s, st, pre, first, piece, false, step.event, step.now);
    StepKeepsTables(cfg, s, step);
    match Admission(cfg, s.jobs, st.deadlineNS, step.now)
    case None =>
      var w := StartedWork(cfg, s, st, pre + piece, |piece|, step, h);
      RunKeepsUnderway(cfg, t, steps[1..], w, pre + piece, h, base, false);
      NothingMoreStarts(cfg, t, steps[1..], c);
      ReadsLateFirst(steps, w);
    case Some(status) =>
      RefusalTurnsAway(cfg, s, st, status, step);
      RunKeepsTurnedAway(cfg, t, steps[1..], st, status, base, true);
  }

  lemma NoReplyYet(cfg: Config, s: State, step: Step, c: uint64)
    requires Tables(s) && Enabled(cfg, s, step) && !IsPollOf(step, c) && c !in s.jobs
    ensures RepliesTo(Next(cfg, s, step).log, c) == RepliesTo(s.log, c)
  {
    QuietReplies(cfg, s, step, c);
  }

  lemma MiddleReplies(cfg: Config, s: State, st: Stream, pre: bytes, first: bool, piece: bytes, step: Step)
    requires Served(cfg, st) && Holding(s, st, pre, first) && |pre| + |piece| <= MESSAGE_MAX_BODY
    requires Enabled(cfg, s, step) && IsPollOf(step, st.correlation) && Delivers(step.event, Part(st, piece, true))
    requires !(first && |s.assemblies| >= MAX_IN_FLIGHT)
    ensures RepliesTo(Next(cfg, s, step).log, st.correlation) == RepliesTo(s.log, st.correlation)
  {
    hide Judge, RepliesTo, Delivers, Part;
    FragmentVerdict(cfg, s, st, pre, first, piece, true, step.event, step.now);
    RepliesSnoc(s.log, Polled(step.event, true), st.correlation);
  }

  lemma StartedWork(cfg: Config, s: State, st: Stream, body: bytes, length: uint32, step: Step,
                    h: HandlerFunction) returns (w: Work)
    requires Tables(s) && FlagsKnown(s)
    requires Enabled(cfg, s, step) && IsPollOf(step, st.correlation) && step.event.frame.eventKind == st.kind
    requires StageOf(cfg, st.kind) == st.stageID && st.correlation !in s.jobs
    requires Judge(cfg, s.assemblies, s.jobs, step.event, step.now) == Begin(PartMessage(st, length), body)
    ensures Undertaken(s, Next(cfg, s, step), st, w, body)
    ensures Underway(cfg, Next(cfg, s, step), w, body, h(w, body), RepliesTo(s.log, st.correlation), false)
  {
    hide Judge, RepliesTo, Tables, FlagsKnown, Next, Enabled, InHand, Starts;
    w := LastFragmentStarts(cfg, s, st, body, length, step);
  }

  // ---- the call ----

  /** The replies to `c` that a run has added. */
  function NewReplies(s: State, t: State, c: uint64): seq<Fragment> {
    var before, after := RepliesTo(s.log, c), RepliesTo(t.log, c);
    if |before| <= |after| then after[|before|..] else []
  }

  /** What a caller makes of a handler's answer. */
  function Returned(answer: (bytes, uint16)): ModuleCaller.CallResult {
    var (body, status) := Settled(answer);
    if status == STATUS_OK then ModuleCaller.Body(body) else ModuleCaller.ModuleFailed(status)
  }

  /** A call takes its course: a request stream of a served stage, on a correlation not in use, is cut for some
      budget; its fragments are polled in order among any other traffic; the handlers answer by `h`; and the loop
      is still serving when the work, if the request is admitted, is done. */
  predicate CallTakesPlace(cfg: Config, s: State, steps: seq<Step>, st: Stream, request: bytes, budget: uint32,
                           h: HandlerFunction) {
    && budget > MESSAGE_HEADER_LEN && cfg.budget > MESSAGE_HEADER_LEN
    && PiecesFit(request, budget - MESSAGE_HEADER_LEN)
    && st == InvokeStream(st.kind, st.correlation, st.stageID, st.deadlineNS, st.traceID)
    && st.stageID != 0 && StageOf(cfg, st.kind) == st.stageID
    && st.correlation !in s.assemblies && st.correlation !in s.jobs
    && Runs(cfg, s, steps) && AnswersBy(cfg, s, steps, h)
    && InOrder(EventsFor(steps, st.correlation), Cut(st, request, budget - MESSAGE_HEADER_LEN))
    && Serving(Run(cfg, s, steps))
    && (Ruling(cfg, s, steps, st.correlation, st.deadlineNS, |request|).None? ==>
          st.correlation !in Run(cfg, s, steps).jobs)
  }

  /** What a caller gets: of a request that is admitted, exactly what the handler started for it answered, unless
      that handler read the clock past the deadline, and then that it was exceeded; of one that is refused, the
      status it is refused with. */
  ghost predicate CallResultIs(cfg: Config, s: State, steps: seq<Step>, st: Stream, request: bytes, h: HandlerFunction,
                               result: ModuleCaller.CallResult)
    requires Runs(cfg, s, steps)
  {
    match Ruling(cfg, s, steps, st.correlation, st.deadlineNS, |request|)
    case None =>
      exists w: Work :: Undertaken(s, Run(cfg, s, steps), st, w, request)
        && result == if ReadsLate(steps, w) then ModuleCaller.ModuleFailed(STATUS_DEADLINE_EXCEEDED)
                     else Returned(h(w, request))
    case Some(status) => result == ModuleCaller.ModuleFailed(status)
  }

  /** The whole call, from any state the loop can be in, whatever its tables hold and whatever the request's length:
      a caller waiting over the replies the run has added, mixed with anything it passes over, returns exactly
      what the handler answered for exactly that request, whatever the two budgets are, or that the deadline had
      passed when that was looked at, or the status with which the request was refused. */
  lemma CallReturnsTheAnswer(cfg: Config, earlier: seq<Step>, steps: seq<Step>, st: Stream, request: bytes,
                             budget: uint32, h: HandlerFunction, arrivals: seq<ModuleCaller.Arrival>)
    requires Runs(cfg, INITIAL, earlier)
    requires CallTakesPlace(cfg, Run(cfg, INITIAL, earlier), steps, st, request, budget, h)
    requires st.kind != KIND_CAPABILITY_ABSENT && st.kind != KIND_ERROR
    requires var s := Run(cfg, INITIAL, earlier);
      ModuleCaller.Mixed(arrivals, NewReplies(s, Run(cfg, s, steps), st.correlation), st.kind, st.correlation)
    ensures CallResultIs(cfg, Run(cfg, INITIAL, earlier), steps, st, request, h,
                         ModuleCaller.Await(arrivals, st.kind, st.correlation, MESSAGE_MAX_BODY, []))
  {
    hide Runs, Run, Tables, FlagsKnown, ComesTogether, AnswersBy, EventsFor, InOrder, RepliesTo, ModuleCaller.Mixed,
         ModuleCaller.Await, Cut, StageOf, Ruling, Underway, TurnedAway, NewReplies, Undertaken, ReadsLate, Returned;
    var s := Run(cfg, INITIAL, earlier);
    InitialTables();
    NoFlagsYet();
    RunKeepsFlags(cfg, INITIAL, earlier);
    FragmentsAreAnswered(cfg, s, steps, st, [], true, request, budget - MESSAGE_HEADER_LEN, h);
    assert [] + request == request;
    var t := Run(cfg, s, steps);
    match Ruling(cfg, s, steps, st.correlation, st.deadlineNS, |request|)
    case None =>
      var w: Work :| Undertaken(s, t, st, w, request)
        && Underway(cfg, t, w, request, h(w, request), RepliesTo(s.log, st.correlation), ReadsLate(steps, w));
      AnswerComesBack(cfg, s, t, w, st, request, h(w, request), ReadsLate(steps, w), arrivals);
    case Some(status) =>
      RefusalComesBack(cfg, s, t, st, status, ComesTogether(cfg, s, steps, st.correlation, |request|), arrivals);
  }

  lemma AnswerComesBack(cfg: Config, s: State, t: State, w: Work, st: Stream, request: bytes,
                        answer: (bytes, uint16), late: bool, arrivals: seq<ModuleCaller.Arrival>)
    requires Serving(t) && st.correlation !in t.jobs && Undertaken(s, t, st, w, request)
    requires Underway(cfg, t, w, request, answer, RepliesTo(s.log, st.correlation), late)
    requires cfg.budget > MESSAGE_HEADER_LEN && st.stageID != 0
    requires st.kind != KIND_CAPABILITY_ABSENT && st.kind != KIND_ERROR
    requires ModuleCaller.Mixed(arrivals, NewReplies(s, t, st.correlation), st.kind, st.correlation)
    ensures ModuleCaller.Await(arrivals, st.kind, st.correlation, MESSAGE_MAX_BODY, [])
         == if late then ModuleCaller.ModuleFailed(STATUS_DEADLINE_EXCEEDED) else Returned(answer)
  {
    hide RepliesTo, ModuleCaller.Mixed, ModuleCaller.Await, InHand, ResultFragments, Starts;
    NotInHand(t, w, request, answer, late);
    var o := ResultOf(w, answer, late);
    assert NewReplies(s, t, st.correlation) == ResultFragments(cfg, o);
    ResultRoundTrip(cfg, o, arrivals);
  }

  lemma RefusalComesBack(cfg: Config, s: State, t: State, st: Stream, status: uint16, alone: bool,
                         arrivals: seq<ModuleCaller.Arrival>)
    requires Serving(t) && TurnedAway(cfg, t, st, status, RepliesTo(s.log, st.correlation), alone)
    requires ValidStatus(status) && status != STATUS_OK && cfg.budget > MESSAGE_HEADER_LEN && st.stageID != 0
    requires st.kind != KIND_CAPABILITY_ABSENT && st.kind != KIND_ERROR
    requires ModuleCaller.Mixed(arrivals, NewReplies(s, t, st.correlation), st.kind, st.correlation)
    ensures ModuleCaller.Await(arrivals, st.kind, st.correlation, MESSAGE_MAX_BODY, [])
         == ModuleCaller.ModuleFailed(status)
  {
    hide RepliesTo, ModuleCaller.Mixed, ModuleCaller.Await, Cut;
    var base, replies := RepliesTo(s.log, st.correlation), RepliesTo(t.log, st.correlation);
    var refusal := Refusal(cfg, st, status);
    var more := replies[|base| + |refusal|..];
    assert NewReplies(s, t, st.correlation) == refusal + more;
    ModuleCaller.MixedPrefix(arrivals, refusal, more, st.kind, st.correlation);
    ModuleCaller.ReplyRoundTrip(arrivals, cfg.budget, st.kind, st.correlation, st.stageID, st.traceID, status, []);
  }

  lemma NoFlagsYet()
    ensures FlagsKnown(INITIAL)
  {
  }

  lemma ResultRoundTrip(cfg: Config, o: Outcome, arrivals: seq<ModuleCaller.Arrival>)
    requires cfg.budget > MESSAGE_HEADER_LEN && o.work.stageID != 0
    requires o.work.eventKind != KIND_CAPABILITY_ABSENT && o.work.eventKind != KIND_ERROR
    requires ModuleCaller.Mixed(arrivals, ResultFragments(cfg, o), o.work.eventKind, o.work.correlation)
    ensures ModuleCaller.Await(arrivals, o.work.eventKind, o.work.correlation, MESSAGE_MAX_BODY, []) ==
      if SentStatus(o.status, o.body) != STATUS_OK then ModuleCaller.ModuleFailed(SentStatus(o.status, o.body))
      else ModuleCaller.Body(o.body)
  {
    hide ModuleCaller.Await, ModuleCaller.Mixed, Cut;
    var w := o.work;
    ModuleCaller.ReplyRoundTrip(arrivals, cfg.budget, w.eventKind, w.correlation, w.stageID, w.traceID, o.status,
                                o.body);
  }

  lemma NotInHand(s: State, w: Work, request: bytes, answer: (bytes, uint16), late: bool)
    requires w.correlation !in s.jobs
    ensures !InHand(s, w, request, answer, late)
  {
  }
}
