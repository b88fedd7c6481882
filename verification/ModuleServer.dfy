/** The serving loop as code (server-go/bus/module_runtime.go): its tables are fields, its loops are loops,
    and each of its operations is a step or a run of the state machine in RuntimeModel. */
module ModuleServer {
  import opened Bytes
  import opened Options
  import opened Wire
  import opened ModuleProtocol
  import opened Events
  import opened Fragments
  import opened RuntimeModel
  import opened RuntimeTables
  import opened RuntimeShutdown
  import Bits

  // ---- the endpoint a module replies through ----

  /** What happens to one attempt to send: taken, refused by a full ring with what the wait that follows
      observes, or failed for good. */
  datatype Attempt = Taken | Full(contextDone: bool, epochChanged: bool) | Failed(error: BusError)

  /** The endpoint: what it has taken, and what becomes of the attempts to come. After the script every
      attempt is taken, so that the refusals of a full ring are finitely many. */
  class ModuleBus {
    const budget: uint32
    var sent: seq<Fragment>
    var script: seq<Attempt>

    constructor (budget: uint32, script: seq<Attempt>)
      ensures this.budget == budget && sent == [] && this.script == script
    {
      this.budget, sent, this.script := budget, [], script;
    }

    method ReplyFragment(f: Fragment) returns (a: Attempt)
      modifies this
      ensures a == if old(script) == [] then Taken else old(script)[0]
      ensures script == if old(script) == [] then [] else old(script)[1..]
      ensures sent == if a.Taken? then old(sent) + [f] else old(sent)
    {
      a := Taken;
      if script != [] { a, script := script[0], script[1..]; }
      if a.Taken? { sent := sent + [f]; }
    }
  }

  /** Every attempt to come is taken, or refused by a full ring while nothing else changes. */
  predicate OnlyFull(script: seq<Attempt>) {
    forall i :: 0 <= i < |script| ==> script[i] == Taken || script[i] == Full(false, false)
  }

  /** What comes of offering one fragment until it is taken: full rings are waited out unless the context is
      done or the epoch has changed meanwhile. With it, the attempts that remain. */
  function Offer(script: seq<Attempt>): (r: (Option<BusError>, seq<Attempt>))
    ensures |r.1| <= |script|
  {
    if script == [] then (None, [])
    else match script[0]
      case Taken => (None, script[1..])
      case Failed(e) => (Some(e), script[1..])
      case Full(contextDone, epochChanged) =>
        if contextDone then (Some(ErrContext), script[1..])
        else if epochChanged then (Some(ErrEpoch), script[1..])
        else Offer(script[1..])
  }

  /** What comes of offering `n` fragments one after another: the first error, if any, and how many were
      taken before it. */
  function OfferAll(script: seq<Attempt>, n: nat): (r: (Option<BusError>, nat))
    ensures r.1 <= n && (r.0.None? <==> r.1 == n)
    decreases n
  {
    if n == 0 then (None, 0)
    else
      var (err, rest) := Offer(script);
      if err.Some? then (err, 0)
      else
        var later := OfferAll(rest, n - 1);
        (later.0, later.1 + 1)
  }

  /** Refusals by a full ring alone never stop a reply. */
  lemma {:induction false} OnlyFullIsTaken(script: seq<Attempt>)
    requires OnlyFull(script)
    ensures Offer(script).0.None? && OnlyFull(Offer(script).1)
  {
    if script != [] && script[0].Full? { OnlyFullIsTaken(script[1..]); }
  }

  lemma {:induction false} OnlyFullIsAllTaken(script: seq<Attempt>, n: nat)
    requires OnlyFull(script)
    ensures OfferAll(script, n) == (None, n)
    decreases n
  {
    if n > 0 {
      OnlyFullIsTaken(script);
      OnlyFullIsAllTaken(Offer(script).1, n - 1);
    }
  }

  /** An attempt that ends a reply: a failure, or a full ring while the context is done or the epoch has changed. */
  predicate Breaks(a: Attempt) { a.Failed? || (a.Full? && (a.contextDone || a.epochChanged)) }

  function BreakError(a: Attempt): BusError
    requires Breaks(a)
  {
    match a
    case Failed(e) => e
    case Full(contextDone, _) => if contextDone then ErrContext else ErrEpoch
  }

  function TakenIn(script: seq<Attempt>): nat {
    if script == [] then 0 else (if script[0].Taken? then 1 else 0) + TakenIn(script[1..])
  }

  /** What is offered while the ring is full is offered again, and the first attempt that breaks a reply ends it with
      its error: the context's when that is done, the epoch's when that has changed, and then nothing more gets out. */
  lemma {:induction false} BreakEndsReply(pre: seq<Attempt>, a: Attempt, rest: seq<Attempt>, n: nat)
    requires OnlyFull(pre) && Breaks(a) && TakenIn(pre) < n
    ensures OfferAll(pre + [a] + rest, n) == (Some(BreakError(a)), TakenIn(pre))
    decreases |pre|
  {
    if pre == [] {
      assert pre + [a] + rest == [a] + rest;
    } else {
      assert (pre + [a] + rest)[1..] == pre[1..] + [a] + rest;
      if pre[0].Taken? {
        BreakEndsReply(pre[1..], a, rest, n - 1);
      } else {
        BreakEndsReply(pre[1..], a, rest, n);
      }
    }
  }

  /** Offers one fragment until it is taken; a full ring is waited out. */
  method SendRetrying(bus: ModuleBus, f: Fragment) returns (err: Option<BusError>)
    modifies bus
    ensures bus.sent == if err.None? then old(bus.sent) + [f] else old(bus.sent)
    ensures (err, bus.script) == Offer(old(bus.script))
  {
    while true
      invariant bus.sent == old(bus.sent)
      invariant Offer(bus.script) == Offer(old(bus.script))
      decreases |bus.script|
    {
      var a := bus.ReplyFragment(f);
      match a {
        case Taken => return None;
        case Failed(e) => return Some(e);
        case Full(contextDone, epochChanged) =>
          if contextDone { return Some(ErrContext); }
          if epochChanged { return Some(ErrEpoch); }
      }
    }
  }

  /** The payload of one fragment: header, then its piece of the body. */
  method BuildPayload(st: Stream, piece: bytes, ghost more: bool) returns (payload: Option<bytes>)
    requires |piece| < 0x1_0000_0000
    ensures payload.Some? <==> ValidMessage(PartMessage(st, |piece|))
    ensures payload.Some? ==> payload.value == Part(st, piece, more).payload
  {
    var buffer := new byte[MESSAGE_HEADER_LEN + |piece|];
    var encoded := EncodeMessage(PartMessage(st, |piece|), buffer);
    if !encoded { return None; }
    Copy(buffer, MESSAGE_HEADER_LEN, piece);
    return Some(buffer[..]);
  }

  /** Sends a reply fragment by fragment, retrying while the ring is full. `emitted` counts what got out:
      always a prefix of the one fragment sequence, and all of it exactly when no error is returned. */
  method ReplyModuleResult(bus: ModuleBus, kind: uint32, correlation: uint64, stageID: uint32, traceID: uint64,
                           givenStatus: uint16, givenBody: bytes)
    returns (err: Option<BusError>, ghost emitted: nat)
    modifies bus
    ensures bus.budget <= MESSAGE_HEADER_LEN ==>
      err == Some(ErrModuleRuntime) && emitted == 0 && bus.sent == old(bus.sent)
    ensures bus.budget > MESSAGE_HEADER_LEN ==>
      var all := ReplyFragments(bus.budget, kind, correlation, stageID, traceID, givenStatus, givenBody);
      && emitted <= |all| && bus.sent == old(bus.sent) + all[..emitted]
      && (err.None? <==> emitted == |all|)
      && (err, emitted) ==
           (if stageID != 0 then OfferAll(old(bus.script), |all|) else (Some(ErrModuleMessage), 0))
  {
    hide OfferAll, Cut;
    emitted := 0;
    var status, body := givenStatus, givenBody;
    if !ValidStatus(status) || |body| > MESSAGE_MAX_BODY {
      status, body := STATUS_INTERNAL, [];
    } else if status != STATUS_OK {
      body := [];
    }
    if bus.budget <= MESSAGE_HEADER_LEN { return Some(ErrModuleRuntime), 0; }
    var chunkCapacity := bus.budget - MESSAGE_HEADER_LEN;
    var st := Stream(kind, correlation, OP_RESULT, status, stageID, 0, traceID);
    err, emitted := SendPieces(bus, st, body, chunkCapacity);
  }

  /** What a reply of `n` pieces returns, and how many got out. */
  function ReplyOutcome(script: seq<Attempt>, st: Stream, n: nat): (r: (Option<BusError>, nat))
    ensures r.1 <= n && (r.0.None? ==> r.1 == n)
  {
    if SendableStream(st) then OfferAll(script, n) else (Some(ErrModuleMessage), 0)
  }

  /** The fragment loop of a reply. */
  method SendPieces(bus: ModuleBus, st: Stream, body: bytes, chunkCapacity: nat)
    returns (err: Option<BusError>, ghost emitted: nat)
    requires 0 < chunkCapacity < 0x1_0000_0000 && |body| <= MESSAGE_MAX_BODY
    modifies bus
    ensures var all := Cut(st, body, chunkCapacity);
      && (err, emitted) == ReplyOutcome(old(bus.script), st, |all|)
      && bus.sent == old(bus.sent) + all[..emitted]
  {
    hide Cut, Part, ValidMessage, SendableStream, Offer, OfferAll;
    emitted := 0;
    ghost var all := Cut(st, body, chunkCapacity);
    ghost var sentBefore := bus.sent;
    var first := true;
    var offset := 0;
    assert all[0..] == all && body[0..] == body;
    assert sentBefore + all[..0] == sentBefore;
    while first || offset < |body|
      invariant 0 <= offset <= |body| && emitted <= |all|
      invariant bus.sent == sentBefore + all[..emitted]
      invariant first ==> offset == 0 && emitted == 0
      invariant first || SendableStream(st)
      invariant first || offset < |body| ==>
        emitted < |all| && all[emitted..] == Cut(st, body[offset..], chunkCapacity)
      invariant !first && offset == |body| ==> emitted == |all|
      invariant Continues(OfferAll(old(bus.script), |all|), OfferAll(bus.script, |all| - emitted), emitted)
      decreases |body| - offset + (if first then 1 else 0)
    {
      first := false;
      var part := |body| - offset;
      if part > chunkCapacity { part := chunkCapacity; }
      var more := offset + part < |body|;
      ReplyTurn(st, body, offset, chunkCapacity, part, all, emitted, bus.script, sentBefore);
      var payload := BuildPayload(st, body[offset..offset + part], more);
      if payload.None? { return Some(ErrModuleMessage), emitted; }
      err := SendRetrying(bus, Fragment(st.kind, st.correlation, payload.value, more));
      if err.Some? { return err, emitted; }
      emitted := emitted + 1;
      offset := offset + part;
    }
    NothingToOffer(bus.script);
    return None, emitted;
  }

  /** With `n` fragments taken, the outcome of the rest is the outcome of all. */
  predicate Continues(all: (Option<BusError>, nat), rest: (Option<BusError>, nat), n: nat) {
    all == (rest.0, rest.1 + n)
  }

  lemma PieceIsValid(st: Stream, part: uint32)
    ensures ValidMessage(PartMessage(st, part)) <==> SendableStream(st) && part <= MESSAGE_MAX_BODY
  {
  }

  lemma OneMore<T>(before: seq<T>, all: seq<T>, n: nat)
    requires n < |all|
    ensures before + all[..n] + [all[n]] == before + all[..n + 1]
  {
  }

  /** One turn of the cutting loop. */
  lemma NextPiece(st: Stream, body: bytes, offset: nat, chunk: nat, part: nat, all: seq<Fragment>, n: nat)
    requires 0 < chunk < 0x1_0000_0000 && offset <= |body|
    requires part == if |body| - offset > chunk then chunk else |body| - offset
    requires n < |all| && all[n..] == Cut(st, body[offset..], chunk)
    ensures var more := offset + part < |body|;
      && all[n] == Part(st, body[offset..offset + part], more)
      && all[n] == Fragment(st.kind, st.correlation, all[n].payload, more)
      && (more ==> n + 1 < |all| && all[n + 1..] == Cut(st, body[offset + part..], chunk))
      && (!more ==> n + 1 == |all| && offset + part == |body|)
  {
    var rest := body[offset..];
    assert all[n] == all[n..][0];
    assert rest[..part] == body[offset..offset + part];
    if |rest| > chunk {
      assert all[n + 1..] == all[n..][1..] == Cut(st, rest[chunk..], chunk);
      assert rest[chunk..] == body[offset + part..];
    } else {
      assert rest[..part] == rest;
    }
  }

  /** One turn of the reply loop: the piece, whether it is valid, and what its offer makes of the outcome. */
  lemma ReplyTurn(st: Stream, body: bytes, offset: nat, chunk: nat, part: nat, all: seq<Fragment>, n: nat,
                 script: seq<Attempt>, before: seq<Fragment>)
    requires 0 < chunk < 0x1_0000_0000 && offset <= |body|
    requires part == if |body| - offset > chunk then chunk else |body| - offset
    requires n < |all| && all[n..] == Cut(st, body[offset..], chunk)
    ensures ValidMessage(PartMessage(st, part)) <==> SendableStream(st) && part <= MESSAGE_MAX_BODY
    ensures var more := offset + part < |body|;
      && all[n] == Part(st, body[offset..offset + part], more)
      && all[n] == Fragment(st.kind, st.correlation, all[n].payload, more)
      && (more ==> n + 1 < |all| && all[n + 1..] == Cut(st, body[offset + part..], chunk))
      && (!more ==> n + 1 == |all| && offset + part == |body|)
    ensures var (err, rest) := Offer(script);
      && (err.Some? ==> OfferAll(script, |all| - n) == (err, 0))
      && (err.None? ==>
            OfferAll(script, |all| - n) == (OfferAll(rest, |all| - n - 1).0, OfferAll(rest, |all| - n - 1).1 + 1))
    ensures before + all[..n] + [all[n]] == before + all[..n + 1]
  {
    hide Cut, Part, ValidMessage, Offer, OfferAll;
    NextPiece(st, body, offset, chunk, part, all, n);
    PieceIsValid(st, part);
    OfferedFirst(script, |all| - n);
    OneMore(before, all, n);
  }

  lemma OfferedFirst(script: seq<Attempt>, n: nat)
    requires n > 0
    ensures var (err, rest) := Offer(script);
      && (err.Some? ==> OfferAll(script, n) == (err, 0))
      && (err.None? ==> OfferAll(script, n) == (OfferAll(rest, n - 1).0, OfferAll(rest, n - 1).1 + 1))
  {
    hide Offer;
  }

  lemma NothingToOffer(script: seq<Attempt>)
    ensures OfferAll(script, 0) == (None, 0)
  {
  }

  // ---- the loop's state ----

  /** A poll's result as the loop sees it. */
  datatype PollResult = PollError(error: BusError) | Nothing | Got(event: Event)

  /** A handler that moves on by one phase, and what it sees on the clock if it looks. */
  datatype Move = Move(id: nat, now: uint64)

  /** What the environment does in one iteration of the loop: which handlers move before each look at the finished
      results, which between the last of those and the poll, which before each flag is stored and each result is
      received if the loop shuts down, and what the loop observes. Of handlers it names, those there are move. */
  datatype Turn = Turn(moves: seq<seq<Move>>, later: seq<Move>, closing: seq<seq<Move>>, contextDone: bool,
                       epochChanged: bool, now: uint64, poll: PollResult)

  class ModuleServer {
    const cfg: Config
    const bus: ModuleBus
    /** The configured handler: any function that returns. */
    const handle: HandlerFunction
    var assemblies: map<uint64, Assembly>
    var jobs: map<uint64, Work>
    var handlers: map<nat, Handler>
    var done: seq<Outcome>
    var cancelled: set<nat>
    var nextId: nat
    ghost var log: seq<LogItem>

    constructor (cfg: Config, bus: ModuleBus, handle: HandlerFunction)
      requires cfg.budget == bus.budget
      ensures this.cfg == cfg && this.bus == bus && View(Draining) == INITIAL
    {
      this.cfg, this.bus, this.handle := cfg, bus, handle;
      assemblies, jobs, handlers, done, cancelled, nextId := map[], map[], map[], [], {}, 0;
      log := [];
    }

    /** The state of the machine, with the loop at a given place. */
    ghost function View(at: LoopAt): State
      reads this
    {
      State(assemblies, jobs, handlers, done, cancelled, nextId, at, log)
    }

    /** Sends a reply and records what got out. */
    method Reply(kind: uint32, c: uint64, stageID: uint32, traceID: uint64, status: uint16, body: bytes)
      returns (err: Option<BusError>, ghost sending: Sending)
      requires cfg.budget == bus.budget
      modifies bus, `log
      ensures Possible(cfg, Fragmented(cfg, kind, c, stageID, traceID, status, body), sending)
      ensures err.None? <==> sending.AllSent?
      ensures log == old(log) + Out(Fragmented(cfg, kind, c, stageID, traceID, status, body), sending)
    {
      ghost var emitted;
      err, emitted := ReplyModuleResult(bus, kind, c, stageID, traceID, status, body);
      sending := if err.None? then AllSent else BrokenAfter(emitted);
      log := log + Out(Fragmented(cfg, kind, c, stageID, traceID, status, body), sending);
    }

    method InvalidModuleRequest(event: Event, stageID: uint32, traceID: uint64)
      returns (err: Option<BusError>, ghost sending: Sending)
      requires cfg.budget == bus.budget
      modifies bus, `log
      ensures var v := Refuse(if stageID == 0 then 1 else stageID, traceID, STATUS_INVALID_REQUEST);
        var fs := RefusalFragments(cfg, event, v);
        && Possible(cfg, fs, sending) && (err.None? <==> sending.AllSent?) && log == old(log) + Out(fs, sending)
    {
      var stage: uint32 := stageID;
      if stage == 0 { stage := 1; }
      err, sending := Reply(event.frame.eventKind, event.frame.correlation, stage, traceID,
                            STATUS_INVALID_REQUEST, []);
    }

    /** Takes the job of a finished result off the table and answers it. */
    method FinishModuleWork() returns (err: Option<BusError>, ghost sending: Sending)
      requires cfg.budget == bus.budget && done != []
      modifies this, bus
      ensures Enabled(cfg, old(View(Draining)), Collect(sending))
      ensures View(After(sending)) == Next(cfg, old(View(Draining)), Collect(sending))
      ensures err.None? <==> sending.AllSent?
    {
      var result := done[0];
      done := done[1..];
      jobs := jobs - {result.work.correlation};
      log := log + [Finished(result)];
      err, sending := Reply(result.work.eventKind, result.work.correlation, result.work.stageID,
                            result.work.traceID, result.status, result.body);
    }

    /** One event, from its flags to its reply, its absorption or the start of its handler. */
    method HandleEvent(event: Event, now: uint64) returns (err: Option<BusError>, ghost sending: Sending)
      requires cfg.budget == bus.budget
      modifies this, bus
      ensures Enabled(cfg, old(View(Ready)), PollEvent(event, now, sending))
      ensures View(After(sending)) == OnEvent(cfg, old(View(Ready)), event, now, sending)
      ensures err.None? <==> sending.AllSent?
    {
      hide Bits.And, DecodeMessage, BodyOf, Out, Possible, Fragmented;
      var correlation := event.frame.correlation;
      var kind := event.frame.eventKind;
      log := log + [Polled(event, Judge(cfg, assemblies, jobs, event, now).Absorb?)];
      err, sending := None, AllSent;
      if Has(event.frame.flags, F_CANCEL) {
        if correlation in jobs { cancelled := cancelled + {jobs[correlation].id}; }
        assemblies := assemblies - {correlation};
        return;
      }
      if !Has(event.frame.flags, F_REQUEST) { return; }
      var expectedStage: uint32 := if kind in cfg.stages then cfg.stages[kind] else 0;
      var decoded := DecodeMessage(event.payload);
      var invalid := expectedStage == 0 || decoded.None? || decoded.value.operation != OP_INVOKE
                     || decoded.value.stageID != expectedStage || correlation in jobs;
      if !invalid && correlation in assemblies {
        var open := assemblies[correlation];
        invalid := open.eventKind != kind || open.message.stageID != decoded.value.stageID
                   || open.message.deadlineNS != decoded.value.deadlineNS
                   || open.message.traceID != decoded.value.traceID;
      }
      if invalid {
        assemblies := assemblies - {correlation};
        err, sending := InvalidModuleRequest(event, expectedStage, 0);
        return;
      }
      err, sending := AcceptFragment(event, expectedStage, decoded.value, now);
    }

    /** A valid fragment joins its assembly; the last one completes the request. */
    method AcceptFragment(event: Event, expectedStage: uint32, message: Message, now: uint64)
      returns (err: Option<BusError>, ghost sending: Sending)
      requires cfg.budget == bus.budget
      requires Has(event.frame.flags, F_REQUEST) && !Has(event.frame.flags, F_CANCEL)
      requires DecodeMessage(event.payload) == Some(message)
      requires expectedStage == StageOf(cfg, event.frame.eventKind) && !Invalid(cfg, assemblies, jobs, event)
      modifies this, bus
      ensures var s := old(View(Ready));
        var v := Judge(cfg, s.assemblies, s.jobs, event, now);
        && View(After(sending)) == Apply(cfg, s, event, v, sending)
        && (err.None? <==> sending.AllSent?)
        && (if v.Refuse? then Possible(cfg, RefusalFragments(cfg, event, v), sending) else sending.AllSent?)
    {
      hide Bits.And, DecodeMessage, BodyOf, Out, Possible, Fragmented, Invalid, StageOf, JudgeWhole;
      var correlation := event.frame.correlation;
      var kind := event.frame.eventKind;
      ghost var before := assemblies;
      ghost var v := Judge(cfg, assemblies, jobs, event, now);
      err, sending := None, AllSent;
      if correlation !in assemblies {
        if |assemblies| >= MAX_IN_FLIGHT {
          assert v == Refuse(expectedStage, message.traceID, STATUS_INTERNAL);
          assert before - {correlation} == before;
          err, sending := Reply(kind, correlation, expectedStage, message.traceID, STATUS_INTERNAL, []);
          return;
        }
        assemblies := assemblies[correlation := Assembly(kind, message, [])];
      }
      var assembly := assemblies[correlation];
      assert assembly.body == SoFar(before, correlation);
      SameWithout(before, assemblies, correlation);
      var body := BodyOf(event.payload);
      if |assembly.body| + |body| > MESSAGE_MAX_BODY {
        assert v == Refuse(expectedStage, message.traceID, STATUS_INTERNAL);
        assemblies := assemblies - {correlation};
        err, sending := Reply(kind, correlation, expectedStage, message.traceID, STATUS_INTERNAL, []);
        return;
      }
      assembly := assembly.(body := assembly.body + body);
      ghost var joined := assemblies;
      assemblies := assemblies[correlation := assembly];
      SameUpdate(before, joined, correlation, assembly);
      if Has(event.frame.flags, F_MORE) {
        assert v == Absorb(assembly);
        return;
      }
      SameWithout(before, assemblies, correlation);
      assemblies := assemblies - {correlation};
      assert v == JudgeWhole(cfg, jobs, expectedStage, message, assembly.body, now);
      err, sending := CompleteRequest(event, expectedStage, message, assembly.body, now);
      AppliedEither(cfg, old(View(Ready)), event, v, sending);
    }

    /** A completely assembled request is refused or starts its handler. */
    method CompleteRequest(event: Event, expectedStage: uint32, message: Message, request: bytes, now: uint64)
      returns (err: Option<BusError>, ghost sending: Sending)
      requires cfg.budget == bus.budget && event.frame.correlation !in assemblies
      requires expectedStage == StageOf(cfg, event.frame.eventKind)
      modifies this, bus
      ensures var s := old(View(Ready));
        var v := JudgeWhole(cfg, s.jobs, expectedStage, message, request, now);
        && View(After(sending)) == Apply(cfg, s, event, v, sending)
        && (err.None? <==> sending.AllSent?)
        && (if v.Refuse? then Possible(cfg, RefusalFragments(cfg, event, v), sending) else sending.AllSent?)
    {
      hide Out, Possible, Fragmented, StageOf;
      var correlation := event.frame.correlation;
      var kind := event.frame.eventKind;
      assert assemblies - {correlation} == assemblies;
      err, sending := None, AllSent;
      if DeadlineExpired(message, now) {
        err, sending := Reply(kind, correlation, expectedStage, message.traceID, STATUS_DEADLINE_EXCEEDED, []);
        return;
      }
      if !cfg.hasHandler {
        err, sending := Reply(kind, correlation, expectedStage, message.traceID, STATUS_CAPABILITY_ABSENT, []);
        return;
      }
      if |jobs| >= MAX_IN_FLIGHT {
        err, sending := Reply(kind, correlation, expectedStage, message.traceID, STATUS_INTERNAL, []);
        return;
      }
      var work := Work(nextId, kind, correlation, expectedStage, message.deadlineNS, message.traceID);
      jobs := jobs[correlation := work];
      StartHandler(work, request);
    }

    /** Moves one handler goroutine on by one phase: it returns from the handler, loads its cancel flag,
        looks at the clock, or sends its result. */
    method AdvanceHandler(id: nat, now: uint64) returns (ghost step: Step)
      requires id in handlers && |done| < MAX_IN_FLIGHT
      modifies `handlers, `done
      ensures forall at :: Enabled(cfg, old(View(at)), step) && View(at) == Next(cfg, old(View(at)), step)
      ensures forall at :: AnswersWith(old(View(at)), step, handle)
      ensures step.HandlerReturns? || step.HandlerLoadsFlag? || step.HandlerReadsClock? || step.HandlerSends?
    {
      var h := handlers[id];
      match h.phase {
        case Working(request) =>
          var answer := handle(h.work, request);
          step := HandlerReturns(id, answer.0, answer.1);
          var response, status := answer.0, answer.1;
          if !ValidStatus(status) || |response| > MESSAGE_MAX_BODY {
            response, status := [], STATUS_INTERNAL;
          } else if status != STATUS_OK {
            response := [];
          }
          handlers := handlers[id := h.(phase := Returned(response, status))];
        case Returned(body, status) =>
          step := HandlerLoadsFlag(id);
          if id in cancelled {
            handlers := handlers[id := h.(phase := Decided([], STATUS_CANCELLED))];
          } else if h.work.deadlineNS != 0 {
            handlers := handlers[id := h.(phase := Timing(body, status))];
          } else {
            handlers := handlers[id := h.(phase := Decided(body, status))];
          }
        case Timing(body, status) =>
          step := HandlerReadsClock(id, now);
          if now != 0 && now >= h.work.deadlineNS {
            handlers := handlers[id := h.(phase := Decided([], STATUS_DEADLINE_EXCEEDED))];
          } else {
            handlers := handlers[id := h.(phase := Decided(body, status))];
          }
        case Decided(body, status) =>
          step := HandlerSends(id);
          handlers := handlers - {id};
          done := done + [Outcome(h.work, body, status)];
      }
    }

    /** The environment moves some handlers, wherever the loop is. */
    method MoveHandlers(moves: seq<Move>, ghost at: LoopAt, ghost start: State, ghost before: seq<Step>)
      returns (ghost steps: seq<Step>)
      requires Tracks(cfg, handle, start, before, View(at))
      modifies `handlers, `done
      ensures Tracks(cfg, handle, start, steps, View(at)) && PolledEvents(steps) == PolledEvents(before)
    {
      hide Tables, Next, Enabled, Runs, Run, AnswersBy, AnswersWith;
      steps := before;
      for i := 0 to |moves|
        invariant Tracks(cfg, handle, start, steps, View(at)) && PolledEvents(steps) == PolledEvents(before)
      {
        var id := moves[i].id;
        if id in handlers {
          RoomForResult(View(at), id);
          ghost var s := View(at);
          ghost var step := AdvanceHandler(id, moves[i].now);
          Extend(cfg, handle, start, steps, s, step);
          steps := steps + [step];
        }
      }
    }

    /** The first of the moves still to come, if there are any. */
    method MoveNext(moves: seq<seq<Move>>, ghost at: LoopAt, ghost start: State, ghost before: seq<Step>)
      returns (rest: seq<seq<Move>>, ghost steps: seq<Step>)
      requires Tracks(cfg, handle, start, before, View(at))
      modifies `handlers, `done
      ensures Tracks(cfg, handle, start, steps, View(at)) && PolledEvents(steps) == PolledEvents(before)
      ensures if moves == [] then rest == [] && done == old(done) && handlers == old(handlers) else rest == moves[1..]
    {
      rest, steps := moves, before;
      if moves != [] {
        steps := MoveHandlers(moves[0], at, start, before);
        rest := moves[1..];
      }
    }

    /** Collects every finished result that is there and answers it, handlers moving on before each look. */
    method CollectFinished(moves: seq<seq<Move>>, ghost start: State, ghost before: seq<Step>)
      returns (err: Option<BusError>, ghost steps: seq<Step>)
      requires cfg.budget == bus.budget && Tracks(cfg, handle, start, before, View(Draining))
      modifies this, bus
      ensures Tracks(cfg, handle, start, steps, View(if err.None? then Ready else Stopped))
      ensures PolledEvents(steps) == PolledEvents(before)
    {
      hide Tables, Runs, Run, AnswersBy, PolledEvents, Possible, OnEvent, Out;
      var rest;
      rest, steps := MoveNext(moves, Draining, start, before);
      while done != []
        invariant Tracks(cfg, handle, start, steps, View(Draining)) && PolledEvents(steps) == PolledEvents(before)
        decreases |rest|, |done|
      {
        ghost var sending;
        ghost var s := View(Draining);
        err, sending := FinishModuleWork();
        Extend(cfg, handle, start, steps, s, Collect(sending));
        steps := steps + [Collect(sending)];
        if err.Some? { return; }
        rest, steps := MoveNext(rest, Draining, start, steps);
      }
      ghost var s := View(Draining);
      Extend(cfg, handle, start, steps, s, NothingToCollect);
      steps := steps + [NothingToCollect];
      err := None;
    }

    /** Stores every job's cancel flag, then receives results until no job is left, the handlers moving on
        their own meanwhile. */
    method Shutdown(moves: seq<seq<Move>>, now: uint64, ghost start: State, ghost before: seq<Step>)
      returns (ghost steps: seq<Step>)
      requires Tracks(cfg, handle, start, before, View(Flagging(jobs.Keys)))
      modifies this
      ensures Tracks(cfg, handle, start, steps, View(Stopped)) && jobs == map[]
      ensures PolledEvents(steps) == PolledEvents(before)
    {
      hide Tables, Runs, Run, AnswersBy, PolledEvents;
      steps := before;
      var rest := moves;
      var todo := jobs.Keys;
      while todo != {}
        invariant Tracks(cfg, handle, start, steps, View(Flagging(todo))) && PolledEvents(steps) == PolledEvents(before)
        invariant todo <= jobs.Keys && jobs == old(jobs)
        decreases |todo|
      {
        rest, steps := MoveNext(rest, Flagging(todo), start, steps);
        var c :| c in todo;
        steps := FlagOne(c, todo, start, steps);
        todo := todo - {c};
      }
      steps := JoinAll(rest, now, start, steps);
    }

    method FlagOne(c: uint64, ghost todo: set<uint64>, ghost start: State, ghost before: seq<Step>)
      returns (ghost steps: seq<Step>)
      requires c in todo && todo <= jobs.Keys && Tracks(cfg, handle, start, before, View(Flagging(todo)))
      modifies `cancelled
      ensures Tracks(cfg, handle, start, steps, View(Flagging(todo - {c})))
      ensures PolledEvents(steps) == PolledEvents(before)
    {
      ghost var s := View(Flagging(todo));
      cancelled := cancelled + {jobs[c].id};
      hide Tables, Runs, Run, AnswersBy, PolledEvents, Judge, ResultFragments, RefusalFragments;
      Extend(cfg, handle, start, before, s, FlagJob(c));
      steps := before + [FlagJob(c)];
    }

    method JoinAll(moves: seq<seq<Move>>, now: uint64, ghost start: State, ghost before: seq<Step>)
      returns (ghost steps: seq<Step>)
      requires Tracks(cfg, handle, start, before, View(Flagging({})))
      modifies this
      ensures Tracks(cfg, handle, start, steps, View(Stopped)) && jobs == map[]
      ensures PolledEvents(steps) == PolledEvents(before)
    {
      hide Tables, Runs, Run, AnswersBy, PolledEvents, Weight;
      ghost var flagged := View(Flagging({}));
      Extend(cfg, handle, start, before, flagged, AllFlagged);
      var rest;
      rest, steps := MoveNext(moves, Joining, start, before + [AllFlagged]);
      while jobs != map[]
        invariant Tracks(cfg, handle, start, steps, View(Joining)) && PolledEvents(steps) == PolledEvents(before)
        decreases |rest|, Remaining(View(Joining))
      {
        ghost var s := View(Joining);
        ghost var step := JoinOne(now);
        Extend(cfg, handle, start, steps, s, step);
        ShutdownStepsAreFinite(cfg, s, step);
        steps := steps + [step];
        rest, steps := MoveNext(rest, Joining, start, steps);
      }
      ghost var joined := View(Joining);
      Extend(cfg, handle, start, steps, joined, AllJoined);
      steps := steps + [AllJoined];
    }

    /** Receives a result if one is there; otherwise some handler moves on. */
    method JoinOne(now: uint64) returns (ghost step: Step)
      requires Tables(View(Joining)) && jobs != map[]
      modifies this
      ensures Enabled(cfg, old(View(Joining)), step) && View(Joining) == Next(cfg, old(View(Joining)), step)
      ensures AnswersWith(old(View(Joining)), step, handle) && !step.PollEvent?
    {
      hide Tables;
      if done != [] {
        step := Join;
        var result := done[0];
        done := done[1..];
        jobs := jobs - {result.work.correlation};
        log := log + [Finished(result)];
      } else {
        SomeHandlerRuns(View(Joining));
        var id :| id in handlers;
        RoomForResult(View(Joining), id);
        step := AdvanceHandler(id, now);
      }
    }

    /** One iteration. A context that is done ends it only after every job has been received. */
    method OneTurn(turn: Turn, ghost start: State, ghost before: seq<Step>)
      returns (err: Option<BusError>, stop: bool, ghost steps: seq<Step>)
      requires cfg.budget == bus.budget && Tracks(cfg, handle, start, before, View(Draining))
      modifies this, bus
      ensures Tracks(cfg, handle, start, steps, View(if stop then Stopped else Draining))
      ensures err.Some? ==> stop
      ensures stop ==> err.Some? || turn.contextDone || EpochSeen(turn)
      ensures !stop ==> !turn.contextDone && !EpochSeen(turn) && !turn.poll.PollError?
      ensures turn.contextDone && err.None? ==> stop && jobs == map[]
      ensures PolledEvents(steps) == PolledEvents(before) + Offered(turn)
              || (err.Some? && PolledEvents(steps) == PolledEvents(before))
    {
      hide Tables, Runs, Run, AnswersBy, AnswersWith, PolledEvents, Next, Enabled, OnEvent;
      err, steps := CollectFinished(turn.moves, start, before);
      if err.Some? { return err, true, steps; }
      steps := MoveHandlers(turn.later, Ready, start, steps);
      ghost var s := View(Ready);
      ReadySteps(cfg, s);
      OnlyHandlersAnswer(handle);
      if turn.contextDone {
        Extend(cfg, handle, start, steps, s, SeeContextDone);
        steps := Shutdown(turn.closing, turn.now, start, steps + [SeeContextDone]);
        return None, true, steps;
      }
      if turn.epochChanged {
        Extend(cfg, handle, start, steps, s, SeeEpochOrPollError);
        return None, true, steps + [SeeEpochOrPollError];
      }
      match turn.poll {
        case PollError(e) =>
          Extend(cfg, handle, start, steps, s, SeeEpochOrPollError);
          return if e == ErrEpoch then None else Some(e), true, steps + [SeeEpochOrPollError];
        case Nothing =>
          Extend(cfg, handle, start, steps, s, PollNothing);
          return None, false, steps + [PollNothing];
        case Got(event) =>
          ghost var sending;
          err, sending := HandleEvent(event, turn.now);
          Extend(cfg, handle, start, steps, s, PollEvent(event, turn.now, sending));
          return err, err.Some?, steps + [PollEvent(event, turn.now, sending)];
      }
    }

    /** The loop: collect what has finished, look at the context and the epoch, poll, and handle the event.
        Every execution is a run of the machine, and it ends with the loop where the machine has it. */
    method RunModuleClient(turns: seq<Turn>)
      returns (err: Option<BusError>, ghost steps: seq<Step>, ghost at: LoopAt)
      requires cfg.budget == bus.budget && Tables(View(Draining))
      modifies this, bus
      ensures Tracks(cfg, handle, old(View(Draining)), steps, View(at))
      ensures err.Some? ==> at == Stopped
      ensures at == Stopped || at == Draining
      ensures PolledEvents(steps) <= AllOffered(turns)
      ensures at == Draining ==>
        PolledEvents(steps) == AllOffered(turns)
        && forall i :: 0 <= i < |turns| ==>
             !turns[i].contextDone && !EpochSeen(turns[i]) && !turns[i].poll.PollError?
      ensures at == Stopped && err.None? ==> exists i ::
        0 <= i < |turns| && (turns[i].contextDone || EpochSeen(turns[i])) && (turns[i].contextDone ==> jobs == map[])
    {
      hide Tables, Runs, Run, Next, Enabled, AnswersBy, PolledEvents, AllOffered;
      ghost var start := View(Draining);
      steps := [];
      TracksItself(cfg, handle, start);
      NothingOffered(turns);
      var i := 0;
      while i < |turns|
        invariant 0 <= i <= |turns|
        invariant Tracks(cfg, handle, start, steps, View(Draining)) && PolledEvents(steps) == AllOffered(turns[..i])
        invariant forall k :: 0 <= k < i ==>
          !turns[k].contextDone && !EpochSeen(turns[k]) && !turns[k].poll.PollError?
      {
        var stop;
        OfferedNext(turns, i);
        err, stop, steps := OneTurn(turns[i], start, steps);
        if stop { return err, steps, Stopped; }
        i := i + 1;
      }
      assert turns[..i] == turns;
      return None, steps, Draining;
    }

    /** `go runHandler(...)`. */
    method StartHandler(work: Work, request: bytes)
      modifies `handlers, `nextId, `log
      ensures handlers == old(handlers)[old(nextId) := Handler(work, Working(request))]
      ensures nextId == old(nextId) + 1 && log == old(log) + [Started(work, request)]
    {
      handlers := handlers[nextId := Handler(work, Working(request))];
      nextId := nextId + 1;
      log := log + [Started(work, request)];
    }
  }

  // ---- executions as runs ----

  /** The machine gets from one state to another by these steps, its handlers answering by `h`, and the tables
      are sound there. */
  predicate Tracks(cfg: Config, h: HandlerFunction, start: State, steps: seq<Step>, s: State) {
    Runs(cfg, start, steps) && AnswersBy(cfg, start, steps, h) && Run(cfg, start, steps) == s && Tables(s)
  }

  lemma TracksItself(cfg: Config, h: HandlerFunction, s: State)
    requires Tables(s)
    ensures Tracks(cfg, h, s, [], s)
  {
  }

  lemma Extend(cfg: Config, h: HandlerFunction, start: State, steps: seq<Step>, s: State, step: Step)
    requires Tracks(cfg, h, start, steps, s) && Enabled(cfg, s, step) && AnswersWith(s, step, h)
    ensures Tracks(cfg, h, start, steps + [step], Next(cfg, s, step))
    ensures PolledEvents(steps + [step]) ==
              PolledEvents(steps) + (if step.PollEvent? then [step.event] else [])
  {
    hide Tables, Next, Enabled;
    StepKeepsTables(cfg, s, step);
    RunSnoc(cfg, start, steps, step, h);
    assert (steps + [step])[..|steps|] == steps;
  }

  /** What the loop may do once nothing is left to collect. */
  lemma ReadySteps(cfg: Config, s: State)
    requires s.at.Ready?
    ensures Enabled(cfg, s, SeeContextDone) && Next(cfg, s, SeeContextDone) == s.(at := Flagging(s.jobs.Keys))
    ensures Enabled(cfg, s, SeeEpochOrPollError) && Next(cfg, s, SeeEpochOrPollError) == s.(at := Stopped)
    ensures Enabled(cfg, s, PollNothing) && Next(cfg, s, PollNothing) == s.(at := Draining)
    ensures forall event, now, sending :: Enabled(cfg, s, PollEvent(event, now, sending)) ==>
              Next(cfg, s, PollEvent(event, now, sending)) == OnEvent(cfg, s, event, now, sending)
  {
    hide OnEvent, Judge, Possible;
  }

  lemma OnlyHandlersAnswer(h: HandlerFunction)
    ensures forall s: State, step: Step :: !step.HandlerReturns? ==> AnswersWith(s, step, h)
  {
  }

  /** The events a run has polled, in order. */
  function PolledEvents(steps: seq<Step>): seq<Event> {
    if steps == [] then []
    else
      var last := steps[|steps| - 1];
      PolledEvents(steps[..|steps| - 1]) + (if last.PollEvent? then [last.event] else [])
  }

  /** The host's epoch has changed, as the loop notices itself or as its poll reports. */
  predicate EpochSeen(turn: Turn) { turn.epochChanged || turn.poll == PollError(ErrEpoch) }

  /** The event a turn offers a loop that gets as far as its poll. */
  function Offered(turn: Turn): seq<Event> {
    if !turn.contextDone && !turn.epochChanged && turn.poll.Got? then [turn.poll.event] else []
  }

  function AllOffered(turns: seq<Turn>): seq<Event> {
    if turns == [] then [] else AllOffered(turns[..|turns| - 1]) + Offered(turns[|turns| - 1])
  }

  lemma NothingOffered(turns: seq<Turn>)
    ensures AllOffered(turns[..0]) == [] && PolledEvents([]) == []
  {
  }

  lemma OfferedNext(turns: seq<Turn>, i: nat)
    requires i < |turns|
    ensures AllOffered(turns[..i + 1]) == AllOffered(turns[..i]) + Offered(turns[i])
    ensures AllOffered(turns[..i]) <= AllOffered(turns[..i + 1]) <= AllOffered(turns)
  {
    assert turns[..i + 1][..i] == turns[..i];
    OfferedPrefix(turns, i + 1);
  }

  lemma {:induction false} OfferedPrefix(turns: seq<Turn>, i: nat)
    requires i <= |turns|
    ensures AllOffered(turns[..i]) <= AllOffered(turns)
  {
    if i < |turns| {
      var n := |turns| - 1;
      OfferedPrefix(turns[..n], i);
      assert turns[..n][..i] == turns[..i];
    } else {
      assert turns[..i] == turns;
    }
  }

  lemma SomeHandlerRuns(s: State)
    requires Tables(s) && s.jobs != map[] && s.done == []
    ensures exists id :: id in s.handlers
  {
    NoneLeft(s.jobs);
  }

  // ---- small facts about the tables ----

  lemma SameWithout<V>(m: map<uint64, V>, n: map<uint64, V>, c: uint64)
    requires c in n && (n == m || n == m[c := n[c]])
    ensures n - {c} == m - {c}
  {
  }

  lemma SameUpdate<V>(m: map<uint64, V>, n: map<uint64, V>, c: uint64, v: V)
    requires c in n && (n == m || n == m[c := n[c]])
    ensures n[c := v] == m[c := v]
  {
  }

  /** A verdict on a complete request closes its assembly whether or not that was done before. */
  lemma AppliedEither(cfg: Config, s: State, event: Event, v: Verdict, sending: Sending)
    requires v.Refuse? || v.Begin?
    ensures Apply(cfg, s.(assemblies := s.assemblies - {event.frame.correlation}), event, v, sending)
         == Apply(cfg, s, event, v, sending)
  {
    var c := event.frame.correlation;
    assert s.assemblies - {c} - {c} == s.assemblies - {c};
  }
}
