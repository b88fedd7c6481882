/** One whole call, step by step: the shortest run that meets what RpcRoundTrip asks of a call, for any handler
    and any request of one fragment. */
module RpcExample {
  import opened Bytes
  import opened Wire
  import opened ModuleProtocol
  import opened Events
  import opened Fragments
  import opened RuntimeModel
  import opened RequestRoundTrip
  import opened RuntimeOutcome
  import opened RpcRoundTrip
  import opened SendableReplies
  import ModuleCaller

  /** The caller sends one fragment of at most 16 MiB on a correlation of its own. */
  predicate Fits(st: Stream, request: bytes) { st.correlation != 0 && |request| <= MESSAGE_MAX_BODY }

  /** The request's one fragment as the loop polls it, under the caller's handle. */
  function RequestEvent(st: Stream, request: bytes, handle: uint32): Event
    requires Fits(st, request)
  {
    SeenAs(F_REQUEST, Part(st, request, false), handle)
  }

  predicate AllEmittable(fs: seq<Fragment>) { forall i :: 0 <= i < |fs| ==> Emittable(fs[i]) }

  /** The fragments of a reply as the caller polls them, one after the other. */
  function Arrivals(fs: seq<Fragment>, handle: uint32): seq<ModuleCaller.Arrival>
    requires AllEmittable(fs)
  {
    if fs == [] then []
    else [ModuleCaller.Arrived(SeenAs(F_REPLY, fs[0], handle))] + Arrivals(fs[1..], handle)
  }

  /** The loop looks for results, polls the request, its handler runs, and the result is collected. */
  function Steps(st: Stream, request: bytes, handle: uint32, answer: (bytes, uint16)): seq<Step>
    requires Fits(st, request)
  {
    [NothingToCollect, PollEvent(RequestEvent(st, request, handle), 0, AllSent),
     HandlerReturns(0, answer.0, answer.1), HandlerLoadsFlag(0), HandlerSends(0), Collect(AllSent)]
  }

  /** The state once the request is polled. */
  function Started(st: Stream, request: bytes, handle: uint32): State
    requires Fits(st, request)
  {
    var w := TheWork(st);
    State(map[], map[st.correlation := w], map[0 := Handler(w, Working(request))], [], {}, 1, Draining,
          [Polled(RequestEvent(st, request, handle), false), LogItem.Started(w, request)])
  }

  function TheWork(st: Stream): Work {
    Work(0, st.kind, st.correlation, st.stageID, st.deadlineNS, st.traceID)
  }

  predicate Servable(cfg: Config, st: Stream, request: bytes) {
    && Served(cfg, st) && cfg.hasHandler && st.deadlineNS == 0 && Fits(st, request)
    && cfg.budget > MESSAGE_HEADER_LEN
  }

  /** Polling the request starts the handler. */
  lemma PollStarts(cfg: Config, st: Stream, request: bytes, handle: uint32)
    requires Servable(cfg, st, request)
    ensures var step := PollEvent(RequestEvent(st, request, handle), 0, AllSent);
      var ready := INITIAL.(at := Ready);
      Enabled(cfg, ready, step) && Next(cfg, ready, step) == Started(st, request, handle)
  {
    hide Has, Part, BodyOf, DecodeMessage, Judge, Possible, ResultFragments, RefusalFragments, Out, SeenAs;
    var e := RequestEvent(st, request, handle);
    PartShape(st, request, false);
    SeenFragmentDelivers(F_REQUEST, Part(st, request, false), handle);
    FragmentVerdict(cfg, INITIAL.(at := Ready), st, [], true, request, false, e, 0);
    assert [] + request == request;
    assert INITIAL.assemblies - {st.correlation} == map[];
  }

  /** The state with the handler past its flag load, and with its result waiting. */
  function Decided(st: Stream, request: bytes, handle: uint32, settled: (bytes, uint16)): State
    requires Fits(st, request)
  {
    Started(st, request, handle).(handlers := map[0 := Handler(TheWork(st), Phase.Decided(settled.0, settled.1))])
  }

  function Waiting(st: Stream, request: bytes, handle: uint32, settled: (bytes, uint16)): State
    requires Fits(st, request)
  {
    Started(st, request, handle).(handlers := map[], done := [Outcome(TheWork(st), settled.0, settled.1)])
  }

  /** The handler's three steps. */
  lemma HandlerFinishes(cfg: Config, st: Stream, request: bytes, handle: uint32, answer: (bytes, uint16))
    requires Servable(cfg, st, request)
    ensures var s := Started(st, request, handle);
      var back, load, send := HandlerReturns(0, answer.0, answer.1), HandlerLoadsFlag(0), HandlerSends(0);
      && Enabled(cfg, s, back) && Enabled(cfg, Next(cfg, s, back), load)
      && Next(cfg, Next(cfg, s, back), load) == Decided(st, request, handle, Settled(answer))
      && Enabled(cfg, Decided(st, request, handle, Settled(answer)), send)
      && Next(cfg, Decided(st, request, handle, Settled(answer)), send)
           == Waiting(st, request, handle, Settled(answer))
  {
    hide Part, Judge;
    var w := TheWork(st);
    var d := Decided(st, request, handle, Settled(answer));
    assert d.handlers - {0} == map[];
    var h := Handler(w, Working(request));
    var after := h.(phase := Normalised(answer.0, answer.1));
    assert map[0 := h][0 := after] == map[0 := after];
  }

  /** From the started handler to the end. */
  lemma HandlerPlays(cfg: Config, st: Stream, request: bytes, handle: uint32, h: HandlerFunction) returns (t: State)
    requires Servable(cfg, st, request)
    ensures Plays(cfg, Started(st, request, handle), Steps(st, request, handle, h(TheWork(st), request))[2..], t, h,
                  st.correlation)
    ensures Ended(cfg, st, request, handle, Settled(h(TheWork(st), request)), t)
  {
    hide Next, Enabled, Part, RequestEvent, Plays, Ended, Settled, AnswersWith, Started, Decided, Waiting, Served;
    var answer := h(TheWork(st), request);
    var settled := Settled(answer);
    var c := st.correlation;
    HandlerFinishes(cfg, st, request, handle, answer);
    CollectEnds(cfg, st, request, handle, settled);
    var begun := Started(st, request, handle);
    var back := HandlerReturns(0, answer.0, answer.1);
    Answering(st, request, handle, h);
    var returned := Next(cfg, begun, back);
    var decided, waiting := Decided(st, request, handle, settled), Waiting(st, request, handle, settled);
    t := Next(cfg, waiting, Collect(AllSent));
    NothingToPlay(cfg, t, h, c);
    assert [Collect(AllSent)] + [] == [Collect(AllSent)];
    assert [HandlerSends(0)] + [Collect(AllSent)] == [HandlerSends(0), Collect(AllSent)];
    assert [HandlerLoadsFlag(0)] + [HandlerSends(0), Collect(AllSent)]
        == [HandlerLoadsFlag(0), HandlerSends(0), Collect(AllSent)];
    Prepend(cfg, waiting, Collect(AllSent), [], t, h, c);
    Prepend(cfg, decided, HandlerSends(0), [Collect(AllSent)], t, h, c);
    Prepend(cfg, returned, HandlerLoadsFlag(0), [HandlerSends(0), Collect(AllSent)], t, h, c);
    Prepend(cfg, begun, back, [HandlerLoadsFlag(0), HandlerSends(0), Collect(AllSent)], t, h, c);
    assert Steps(st, request, handle, answer)[2..]
        == [back] + [HandlerLoadsFlag(0), HandlerSends(0), Collect(AllSent)];
  }

  lemma Answering(st: Stream, request: bytes, handle: uint32, h: HandlerFunction)
    requires Fits(st, request)
    ensures var answer := h(TheWork(st), request);
      AnswersWith(Started(st, request, handle), HandlerReturns(0, answer.0, answer.1), h)
    ensures forall s: State, step: Step :: !step.HandlerReturns? ==> AnswersWith(s, step, h)
  {
    hide Part, RequestEvent;
  }

  /** The result is out and nothing is left. */
  predicate Ended(cfg: Config, st: Stream, request: bytes, handle: uint32, settled: (bytes, uint16), t: State)
    requires Fits(st, request)
  {
    var o := Outcome(TheWork(st), settled.0, settled.1);
    && t.at.Draining? && t.jobs == map[]
    && t.log == Started(st, request, handle).log + [Finished(o)] + Out(ResultFragments(cfg, o), AllSent)
  }

  lemma LoopLooks(cfg: Config)
    ensures Enabled(cfg, INITIAL, NothingToCollect)
    ensures Next(cfg, INITIAL, NothingToCollect) == INITIAL.(at := Ready)
  {
  }

  lemma Admitted(cfg: Config)
    requires cfg.hasHandler
    ensures Admission(cfg, map[], 0, 0).None?
  {
  }

  /** The steps are a run, it answers as the handler does, and it ends with the result's fragments replied. */
  lemma StepsAreARun(cfg: Config, st: Stream, request: bytes, handle: uint32, h: HandlerFunction) returns (t: State)
    requires Servable(cfg, st, request)
    ensures Plays(cfg, INITIAL, Steps(st, request, handle, h(TheWork(st), request)), t, h, st.correlation)
    ensures Ended(cfg, st, request, handle, Settled(h(TheWork(st), request)), t)
  {
    hide Next, Enabled, Part, RequestEvent, Started, Plays, Ended, Settled, AnswersWith;
    var steps := Steps(st, request, handle, h(TheWork(st), request));
    var ready := INITIAL.(at := Ready);
    t := HandlerPlays(cfg, st, request, handle, h);
    PollStarts(cfg, st, request, handle);
    LoopLooks(cfg);
    Answering(st, request, handle, h);
    Admitted(cfg);
    assert IsPollOf(steps[1], st.correlation) ==> ready.jobs == map[] && ready.assemblies == map[];
    NoEvents(steps[2..], st.correlation);
    Prepend(cfg, ready, steps[1], steps[2..], t, h, st.correlation);
    assert [steps[1]] + steps[2..] == steps[1..];
    Prepend(cfg, INITIAL, steps[0], steps[1..], t, h, st.correlation);
    assert [steps[0]] + steps[1..] == steps;
  }

  lemma CollectEnds(cfg: Config, st: Stream, request: bytes, handle: uint32, settled: (bytes, uint16))
    requires Servable(cfg, st, request)
    ensures var s := Waiting(st, request, handle, settled);
      var o := Outcome(TheWork(st), settled.0, settled.1);
      Enabled(cfg, s, Collect(AllSent)) && Ended(cfg, st, request, handle, settled, Next(cfg, s, Collect(AllSent)))
  {
    hide Part, Judge, Out, ResultFragments;
    assert map[st.correlation := TheWork(st)] - {st.correlation} == map[];
  }

  /** A run from `s` to `t` in which handlers answer by `h` and the request of `c`, if polled, is admitted. */
  predicate Plays(cfg: Config, s: State, steps: seq<Step>, t: State, h: HandlerFunction, c: uint64) {
    && Runs(cfg, s, steps) && AnswersBy(cfg, s, steps, h) && Run(cfg, s, steps) == t
    && AllRoom(Rooms(cfg, s, steps, c)) && LastAdmission(cfg, s, steps, c, 0).None?
  }

  lemma NothingToPlay(cfg: Config, s: State, h: HandlerFunction, c: uint64)
    ensures Plays(cfg, s, [], s, h, c)
  {
  }

  /** A step in front of a run. */
  lemma Prepend(cfg: Config, s: State, step: Step, rest: seq<Step>, t: State, h: HandlerFunction, c: uint64)
    requires Enabled(cfg, s, step) && Plays(cfg, Next(cfg, s, step), rest, t, h, c) && AnswersWith(s, step, h)
    requires IsPollOf(step, c) ==>
      |s.assemblies| < MAX_IN_FLIGHT && Admission(cfg, s.jobs, 0, step.now).None? && EventsFor(rest, c) == []
    ensures Plays(cfg, s, [step] + rest, t, h, c)
  {
    hide Next, Enabled, AnswersWith, Admission;
    assert ([step] + rest)[1..] == rest;
    assert Rooms(cfg, s, [step] + rest, c)
        == (if IsPollOf(step, c) then [true] else []) + Rooms(cfg, Next(cfg, s, step), rest, c);
  }

  // ---- the reply, straight back ----

  lemma {:induction false} StraightIsMixed(st: Stream, body: bytes, chunk: nat, handle: uint32)
    requires st.operation == OP_RESULT && SendableStream(st) && 0 < chunk < 0x1_0000_0000
    requires |body| <= MESSAGE_MAX_BODY && st.kind != KIND_CAPABILITY_ABSENT && st.kind != KIND_ERROR
    requires AllEmittable(Cut(st, body, chunk))
    ensures ModuleCaller.Mixed(Arrivals(Cut(st, body, chunk), handle), Cut(st, body, chunk), st.kind, st.correlation)
    decreases |body|
  {
    hide Has, Part, DecodeMessage, Envelope, SeenAs, Emittable;
    var fs := Cut(st, body, chunk);
    var piece := if |body| <= chunk then body else body[..chunk];
    assert fs[0] == Part(st, piece, |body| > chunk);
    PartShape(st, piece, |body| > chunk);
    SeenFragmentDelivers(F_REPLY, fs[0], handle);
    ModuleCaller.PieceIsAnswer(SeenAs(F_REPLY, fs[0], handle), st, piece, |body| > chunk);
    if |body| > chunk {
      assert fs[1..] == Cut(st, body[chunk..], chunk);
      StraightIsMixed(st, body[chunk..], chunk, handle);
    } else {
      assert fs[1..] == [];
    }
  }

  lemma PartShape(st: Stream, piece: bytes, more: bool)
    requires |piece| < 0x1_0000_0000
    ensures var f := Part(st, piece, more);
      && f.kind == st.kind && f.correlation == st.correlation && f.more == more
      && |f.payload| == MESSAGE_HEADER_LEN + |piece|
  {
    hide Envelope;
  }

  lemma RepliesOfEnd(cfg: Config, st: Stream, request: bytes, handle: uint32, settled: (bytes, uint16), t: State)
    requires Servable(cfg, st, request) && Ended(cfg, st, request, handle, settled, t)
    ensures NewReplies(INITIAL, t, st.correlation) ==
              ResultFragments(cfg, Outcome(TheWork(st), settled.0, settled.1))
  {
    hide RepliesTo, Out, Part, RequestEvent, Fragmented;
    var c := st.correlation;
    var w := TheWork(st);
    var o := Outcome(w, settled.0, settled.1);
    var out := Out(ResultFragments(cfg, o), AllSent);
    var e := Polled(RequestEvent(st, request, handle), false);
    assert t.log == [] + [e] + [LogItem.Started(w, request)] + [Finished(o)] + out;
    RepliesSnoc([], e, c);
    RepliesSnoc([] + [e], LogItem.Started(w, request), c);
    RepliesSnoc([] + [e] + [LogItem.Started(w, request)], Finished(o), c);
    RepliesAppend([] + [e] + [LogItem.Started(w, request)] + [Finished(o)], out, c);
    RepliesOfFragmented(cfg, w.eventKind, c, w.stageID, w.traceID, o.status, o.body, c);
    EmptyHistory(c);
  }

  /** Every arrival is a frame as a poll returns it. */
  ghost predicate RealArrivals(arrivals: seq<ModuleCaller.Arrival>) {
    forall i :: 0 <= i < |arrivals| ==> arrivals[i].Arrived? && FromSlot(arrivals[i].event)
  }

  lemma {:induction false} SeenIsReal(fs: seq<Fragment>, handle: uint32)
    requires forall i :: 0 <= i < |fs| ==> Emittable(fs[i]) && FromSlot(SeenAs(F_REPLY, fs[i], handle))
    ensures AllEmittable(fs) && RealArrivals(Arrivals(fs, handle))
  {
    hide Emittable, SeenAs, FromSlot;
    if fs != [] {
      forall i | 0 <= i < |fs| - 1
        ensures Emittable(fs[1..][i]) && FromSlot(SeenAs(F_REPLY, fs[1..][i], handle))
      {
        assert fs[1..][i] == fs[i + 1];
      }
      SeenIsReal(fs[1..], handle);
    }
  }

  /** The example: from the start, for any handler and any request that one fragment carries, between endpoints of
      any sound geometry, the run takes place as a call on frames that slots of the rings decode to, and the
      caller, too, polls such frames and gets the handler's answer. */
  lemma OneFragmentCall(cfg: Config, st: Stream, request: bytes, budget: uint32, slotSize: uint32, handle: uint32,
                        h: HandlerFunction)
    requires Servable(cfg, st, request) && MESSAGE_HEADER_LEN + |request| <= budget
    requires SoundBudget(budget, slotSize) && SoundBudget(cfg.budget, slotSize)
    requires st.kind != KIND_CAPABILITY_ABSENT && st.kind != KIND_ERROR
    ensures var steps := Steps(st, request, handle, h(TheWork(st), request));
      CallTakesPlace(cfg, INITIAL, steps, st, request, budget, h) && FromDecoder(steps)
    ensures var steps := Steps(st, request, handle, h(TheWork(st), request));
      AllEmittable(NewReplies(INITIAL, Run(cfg, INITIAL, steps), st.correlation))
    ensures var steps := Steps(st, request, handle, h(TheWork(st), request));
      var arrivals := Arrivals(NewReplies(INITIAL, Run(cfg, INITIAL, steps), st.correlation), handle);
      && RealArrivals(arrivals)
      && ModuleCaller.Await(arrivals, st.kind, st.correlation, MESSAGE_MAX_BODY, [])
           == RpcRoundTrip.Returned(h(TheWork(st), request))
  {
    hide Next, Enabled, RepliesTo, Steps, ModuleCaller.Mixed, ModuleCaller.Await, Arrivals, Part, RequestEvent,
         AnswersBy, Ended, EventsFor, Runs, Run, Plays, NewReplies, Has, Judge, AllEmittable, RealArrivals, FromDecoder;
    var answer := h(TheWork(st), request);
    var settled := Settled(answer);
    var steps := Steps(st, request, handle, answer);
    var t := StepsAreARun(cfg, st, request, handle, h);
    RepliesOfEnd(cfg, st, request, handle, settled, t);
    OneEvent(st, request, handle, answer);
    PlaysIsCall(cfg, st, request, handle, budget, h, settled, steps, t);
    RequestIsReal(st, request, handle, answer, budget, slotSize);
    StraightBack(cfg, Outcome(TheWork(st), settled.0, settled.1), slotSize, handle);
  }

  lemma RequestIsReal(st: Stream, request: bytes, handle: uint32, answer: (bytes, uint16), budget: uint32,
                      slotSize: uint32)
    requires Fits(st, request) && SendableStream(st) && MESSAGE_HEADER_LEN + |request| <= budget
    requires SoundBudget(budget, slotSize)
    ensures FromDecoder(Steps(st, request, handle, answer))
  {
    hide Part, SeenAs, FromSlot, Emittable;
    CutIsSeen(F_REQUEST, budget, slotSize, st, request, handle);
    assert Cut(st, request, budget - MESSAGE_HEADER_LEN)[0] == Part(st, request, false);
  }

  lemma PlaysIsCall(cfg: Config, st: Stream, request: bytes, handle: uint32, budget: uint32, h: HandlerFunction,
                    settled: (bytes, uint16), steps: seq<Step>, t: State)
    requires Servable(cfg, st, request) && budget > MESSAGE_HEADER_LEN
    requires Plays(cfg, INITIAL, steps, t, h, st.correlation) && Ended(cfg, st, request, handle, settled, t)
    requires InOrder(EventsFor(steps, st.correlation), Cut(st, request, budget - MESSAGE_HEADER_LEN))
    ensures CallTakesPlace(cfg, INITIAL, steps, st, request, budget, h) && Run(cfg, INITIAL, steps) == t
  {
    hide Next, Enabled, Part, AnswersBy, EventsFor, InOrder, Runs, Run, Ended, Cut, LastAdmission, Rooms;
    EndServes(cfg, st, request, handle, settled, t);
  }

  /** A result's fragments, straight back to the waiting caller. */
  lemma StraightBack(cfg: Config, o: Outcome, slotSize: uint32, handle: uint32)
    requires SoundBudget(cfg.budget, slotSize) && o.work.stageID != 0 && o.work.correlation != 0
    requires o.work.eventKind != KIND_CAPABILITY_ABSENT && o.work.eventKind != KIND_ERROR
    ensures AllEmittable(ResultFragments(cfg, o))
    ensures var w := o.work;
      var arrivals := Arrivals(ResultFragments(cfg, o), handle);
      && RealArrivals(arrivals)
      && ModuleCaller.Await(arrivals, w.eventKind, w.correlation, MESSAGE_MAX_BODY, []) ==
           if SentStatus(o.status, o.body) != STATUS_OK then ModuleCaller.ModuleFailed(SentStatus(o.status, o.body))
           else ModuleCaller.Body(o.body)
  {
    hide ModuleCaller.Await, ModuleCaller.Mixed, Cut, Arrivals, AllEmittable, RealArrivals, SeenAs, FromSlot;
    var w := o.work;
    var st := ReplyStream(w.eventKind, w.correlation, w.stageID, w.traceID, o.status, o.body);
    var body := SentBody(o.status, o.body);
    CutIsSeen(F_REPLY, cfg.budget, slotSize, st, body, handle);
    assert ResultFragments(cfg, o) == Cut(st, body, cfg.budget - MESSAGE_HEADER_LEN);
    SeenIsReal(ResultFragments(cfg, o), handle);
    StraightIsMixed(st, body, cfg.budget - MESSAGE_HEADER_LEN, handle);
    ResultRoundTrip(cfg, o, Arrivals(ResultFragments(cfg, o), handle));
  }

  lemma EndServes(cfg: Config, st: Stream, request: bytes, handle: uint32, settled: (bytes, uint16), t: State)
    requires Fits(st, request) && Ended(cfg, st, request, handle, settled, t)
    ensures Serving(t) && st.correlation !in t.jobs
  {
    hide Out, ResultFragments, Part;
  }

  /** The run polls one event of the correlation, which delivers the request's one fragment. */
  lemma OneEvent(st: Stream, request: bytes, handle: uint32, answer: (bytes, uint16))
    requires Fits(st, request) && st.operation == OP_INVOKE
    ensures forall chunk :: |request| <= chunk < 0x1_0000_0000 && chunk > 0 ==>
      InOrder(EventsFor(Steps(st, request, handle, answer), st.correlation), Cut(st, request, chunk))
  {
    hide Has, Part, SeenAs;
    var steps := Steps(st, request, handle, answer);
    var e := RequestEvent(st, request, handle);
    PartShape(st, request, false);
    SeenFragmentDelivers(F_REQUEST, Part(st, request, false), handle);
    NoEvents(steps[2..], st.correlation);
    assert steps[1..][0] == steps[1] && steps[1..][1..] == steps[2..];
    assert EventsFor(steps[1..], st.correlation) == [e];
    assert EventsFor(steps, st.correlation) == [e];
  }

  lemma {:induction false} NoEvents(steps: seq<Step>, c: uint64)
    requires forall i :: 0 <= i < |steps| ==> !IsPollOf(steps[i], c)
    ensures EventsFor(steps, c) == []
  {
    if steps != [] { NoEvents(steps[1..], c); }
  }
}
