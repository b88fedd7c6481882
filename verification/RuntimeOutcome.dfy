/** What becomes of every handler's answer, over every run: the status and body a result carries are decided by
    what the handler returned, by the cancel flag when it was loaded and by the clock when it was read, and by
    nothing else (server-go/bus/module_runtime.go:196-221). */
module RuntimeOutcome {
  import opened Bytes
  import opened ModuleProtocol
  import opened Events
  import opened RuntimeModel
  import opened RuntimeTables

  /** The body and status that leave a handler uncancelled and in time. */
  function Settled(answer: (bytes, uint16)): (bytes, uint16) {
    if answer.1 <= STATUS_INTERNAL && |answer.0| <= MESSAGE_MAX_BODY then
      (if answer.1 == STATUS_OK then answer.0 else [], answer.1)
    else ([], STATUS_INTERNAL)
  }

  lemma NormalisedIsSettled(response: bytes, status: uint16)
    ensures Normalised(response, status) == Returned(Settled((response, status)).0, Settled((response, status)).1)
  {
  }

  /** The handler of `w` reads the clock, and its deadline has passed. */
  predicate LateAt(step: Step, w: Work) {
    step.HandlerReadsClock? && step.id == w.id && step.now != 0 && step.now >= w.deadlineNS
  }

  predicate ReadsLate(steps: seq<Step>, w: Work) { exists i :: 0 <= i < |steps| && LateAt(steps[i], w) }

  /** What a handler that was not cancelled sends. */
  function InTime(answer: (bytes, uint16), late: bool): (bytes, uint16) {
    if late then ([], STATUS_DEADLINE_EXCEEDED) else Settled(answer)
  }

  // ---- what a run has done to one handler ----

  /** A step, and the cancel flags that were set when it was taken. */
  datatype Moment = Moment(step: Step, flags: set<nat>)

  function Moments(cfg: Config, s: State, steps: seq<Step>): seq<Moment>
    requires Runs(cfg, s, steps)
    decreases |steps|
  {
    if steps == [] then []
    else [Moment(steps[0], s.cancelled)] + Moments(cfg, Next(cfg, s, steps[0]), steps[1..])
  }

  predicate OfHandler(step: Step) {
    step.HandlerReturns? || step.HandlerLoadsFlag? || step.HandlerReadsClock? || step.HandlerSends?
  }

  predicate About(step: Step, id: nat) { OfHandler(step) && step.id == id }

  /** The handler returned this. */
  predicate Gave(past: seq<Moment>, id: nat, answer: (bytes, uint16)) {
    exists i :: 0 <= i < |past| && past[i].step == HandlerReturns(id, answer.0, answer.1)
  }

  /** It loaded its cancel flag when that was set. */
  predicate SawFlag(past: seq<Moment>, id: nat) {
    exists i :: 0 <= i < |past| && past[i].step == HandlerLoadsFlag(id) && id in past[i].flags
  }

  /** It read the clock when its deadline had passed. */
  predicate SawDeadline(past: seq<Moment>, w: Work) { exists i :: 0 <= i < |past| && LateAt(past[i].step, w) }

  /** The handler returned once, and this body and status follow from that answer, its flag and the clock. */
  ghost predicate Follows(past: seq<Moment>, w: Work, body: bytes, status: uint16) {
    && (exists a: (bytes, uint16) :: Gave(past, w.id, a))
    && forall a: (bytes, uint16) :: Gave(past, w.id, a) ==>
         (body, status) ==
           if SawFlag(past, w.id) then ([], STATUS_CANCELLED) else InTime(a, SawDeadline(past, w))
  }

  ghost predicate PhaseFollows(past: seq<Moment>, h: Handler) {
    match h.phase
    case Working(_) =>
      !SawFlag(past, h.work.id) && !SawDeadline(past, h.work) && forall a: (bytes, uint16) :: !Gave(past, h.work.id, a)
    case Returned(body, status) =>
      Follows(past, h.work, body, status) && !SawFlag(past, h.work.id) && !SawDeadline(past, h.work)
    case Timing(body, status) =>
      Follows(past, h.work, body, status) && !SawFlag(past, h.work.id) && !SawDeadline(past, h.work)
    case Decided(body, status) => Follows(past, h.work, body, status)
  }

  /** A result that was received. */
  ghost predicate Received(s: State, past: seq<Moment>, o: Outcome) {
    Follows(past, o.work, o.body, o.status) && o.work.id < s.nextId && o.work.id !in s.handlers
  }

  ghost predicate KnownIds(s: State, past: seq<Moment>) {
    forall i, id: nat :: 0 <= i < |past| && About(past[i].step, id) ==> id < s.nextId
  }

  ghost predicate HandlersFollow(s: State, past: seq<Moment>) {
    forall id :: id in s.handlers ==> PhaseFollows(past, s.handlers[id])
  }

  ghost predicate DoneFollows(s: State, past: seq<Moment>) {
    forall i :: 0 <= i < |s.done| ==> Follows(past, s.done[i].work, s.done[i].body, s.done[i].status)
  }

  ghost predicate LogFollows(s: State, past: seq<Moment>) {
    forall i :: 0 <= i < |s.log| && s.log[i].Finished? ==> Received(s, past, s.log[i].outcome)
  }

  ghost predicate AllFollow(s: State, past: seq<Moment>) {
    KnownIds(s, past) && HandlersFollow(s, past) && DoneFollows(s, past) && LogFollows(s, past)
  }

  // ---- one moment more ----

  lemma MomentGave(past: seq<Moment>, m: Moment, id: nat, a: (bytes, uint16))
    ensures Gave(past + [m], id, a) <==> Gave(past, id, a) || m.step == HandlerReturns(id, a.0, a.1)
  {
    if Gave(past, id, a) {
      var i :| 0 <= i < |past| && past[i].step == HandlerReturns(id, a.0, a.1);
      assert (past + [m])[i] == past[i];
    }
    assert (past + [m])[|past|] == m;
  }

  lemma MomentSeen(past: seq<Moment>, m: Moment, w: Work)
    ensures SawFlag(past + [m], w.id) <==>
      SawFlag(past, w.id) || (m.step == HandlerLoadsFlag(w.id) && w.id in m.flags)
    ensures SawDeadline(past + [m], w) <==> SawDeadline(past, w) || LateAt(m.step, w)
  {
    hide LateAt;
    var all := past + [m];
    assert all[|past|] == m;
    if SawFlag(past, w.id) {
      var i :| 0 <= i < |past| && past[i].step == HandlerLoadsFlag(w.id) && w.id in past[i].flags;
      assert all[i] == past[i];
    }
    if SawDeadline(past, w) {
      var i :| 0 <= i < |past| && LateAt(past[i].step, w);
      assert all[i] == past[i];
    }
  }

  /** A moment about another handler. */
  lemma OtherMoment(past: seq<Moment>, m: Moment, w: Work, body: bytes, status: uint16)
    requires !About(m.step, w.id)
    ensures Follows(past + [m], w, body, status) <==> Follows(past, w, body, status)
    ensures SawFlag(past + [m], w.id) <==> SawFlag(past, w.id)
    ensures SawDeadline(past + [m], w) <==> SawDeadline(past, w)
    ensures forall a: (bytes, uint16) :: Gave(past + [m], w.id, a) <==> Gave(past, w.id, a)
  {
    hide Gave, SawFlag, SawDeadline;
    MomentSeen(past, m, w);
    forall a: (bytes, uint16)
      ensures Gave(past + [m], w.id, a) <==> Gave(past, w.id, a)
    {
      MomentGave(past, m, w.id, a);
    }
  }

  lemma OtherHandler(past: seq<Moment>, m: Moment, h: Handler)
    requires PhaseFollows(past, h) && !About(m.step, h.work.id)
    ensures PhaseFollows(past + [m], h)
  {
    hide Gave, SawFlag, SawDeadline, Follows, About;
    match h.phase
    case Working(_) => OtherMoment(past, m, h.work, [], 0);
    case Returned(body, status) => OtherMoment(past, m, h.work, body, status);
    case Timing(body, status) => OtherMoment(past, m, h.work, body, status);
    case Decided(body, status) => OtherMoment(past, m, h.work, body, status);
  }

  /** A handler no step has been about. */
  lemma UnknownHandler(s: State, past: seq<Moment>, h: Handler)
    requires KnownIds(s, past) && h.work.id == s.nextId && h.phase.Working?
    ensures PhaseFollows(past, h)
  {
    assert forall i :: 0 <= i < |past| ==> !About(past[i].step, h.work.id);
  }

  lemma MoreIds(s: State, t: State, past: seq<Moment>, m: Moment)
    requires KnownIds(s, past) && s.nextId <= t.nextId && forall id: nat :: About(m.step, id) ==> id < s.nextId
    ensures KnownIds(t, past + [m])
  {
    hide About;
    forall i, id: nat | 0 <= i < |past + [m]| && About((past + [m])[i].step, id)
      ensures id < t.nextId
    {
      if i < |past| { assert (past + [m])[i] == past[i]; }
    }
  }

  // ---- steps of the loop ----

  /** What a step of the loop does to handlers and results: nothing to those there are, except that the oldest
      result may be received; and it may start a handler. */
  predicate LoopMoved(s: State, t: State) {
    && s.nextId <= t.nextId
    && (forall id :: id in t.handlers ==>
          if id in s.handlers then t.handlers[id] == s.handlers[id]
          else id == s.nextId && t.handlers[id].work.id == id && t.handlers[id].phase.Working?)
    && (t.done == s.done || (s.done != [] && t.done == s.done[1..]))
    && s.log <= t.log
    && (forall i :: |s.log| <= i < |t.log| && t.log[i].Finished? ==> s.done != [] && t.log[i].outcome == s.done[0])
  }

  lemma EventMoves(cfg: Config, s: State, event: Event, now: uint64, sending: Sending)
    requires s.nextId !in s.handlers
    ensures LoopMoved(s, OnEvent(cfg, s, event, now, sending))
  {
    hide Judge, RefusalFragments, Out;
    var v := Judge(cfg, s.assemblies, s.jobs, event, now);
    if v.Refuse? { OutIsReplies(RefusalFragments(cfg, event, v), sending); }
  }

  lemma LoopMoves(cfg: Config, s: State, step: Step)
    requires Enabled(cfg, s, step) && !OfHandler(step) && s.nextId !in s.handlers
    ensures LoopMoved(s, Next(cfg, s, step))
  {
    hide OnEvent, Judge, ResultFragments, Out, Possible;
    match step
    case PollEvent(event, now, sending) => EventMoves(cfg, s, event, now, sending);
    case Collect(sending) => OutIsReplies(ResultFragments(cfg, s.done[0]), sending);
    case _ =>
  }

  lemma LoopKeepsFollowing(s: State, t: State, past: seq<Moment>, m: Moment)
    requires JobsOk(s) && HandlersOk(s) && DoneOk(s) && AllFollow(s, past) && LoopMoved(s, t)
    requires !OfHandler(m.step)
    ensures AllFollow(t, past + [m])
  {
    hide Follows, PhaseFollows, Accounted, KnownIds;
    FreshId(s);
    MoreIds(s, t, past, m);
    forall id | id in t.handlers
      ensures PhaseFollows(past + [m], t.handlers[id])
    {
      if id !in s.handlers { UnknownHandler(s, past, t.handlers[id]); }
      OtherHandler(past, m, t.handlers[id]);
    }
    forall i | 0 <= i < |s.done|
      ensures Follows(past + [m], s.done[i].work, s.done[i].body, s.done[i].status)
    {
      OtherMoment(past, m, s.done[i].work, s.done[i].body, s.done[i].status);
    }
    forall i | 0 <= i < |t.log| && t.log[i].Finished?
      ensures Received(t, past + [m], t.log[i].outcome)
    {
      var o := t.log[i].outcome;
      if i < |s.log| { assert s.log[i] == t.log[i]; }
      OtherMoment(past, m, o.work, o.body, o.status);
    }
  }

  // ---- steps of a handler ----

  lemma HandlerFollows(cfg: Config, s: State, step: Step, past: seq<Moment>, id: nat)
    requires HandlersOk(s) && HandlersFollow(s, past) && Enabled(cfg, s, step) && About(step, id)
    ensures id in s.handlers
    ensures var t := Next(cfg, s, step);
      var now := past + [Moment(step, s.cancelled)];
      if id in t.handlers then PhaseFollows(now, t.handlers[id])
      else
        var o := t.done[|t.done| - 1];
        t.done == s.done + [o] && o.work == s.handlers[id].work && Follows(now, o.work, o.body, o.status)
  {
    hide Gave, SawFlag, SawDeadline, Settled, Normalised, ValidStatus;
    var m := Moment(step, s.cancelled);
    var h := s.handlers[id];
    MomentSeen(past, m, h.work);
    forall a: (bytes, uint16)
      ensures Gave(past + [m], id, a) <==> Gave(past, id, a) || m.step == HandlerReturns(id, a.0, a.1)
    {
      MomentGave(past, m, id, a);
    }
    if step.HandlerReturns? {
      NormalisedIsSettled(step.response, step.status);
      assert Gave(past + [m], id, (step.response, step.status));
    }
  }

  lemma HandlerKeepsFollowing(cfg: Config, s: State, step: Step, past: seq<Moment>, id: nat)
    requires JobsOk(s) && HandlersOk(s) && DoneOk(s) && AllFollow(s, past)
    requires Enabled(cfg, s, step) && About(step, id)
    ensures AllFollow(Next(cfg, s, step), past + [Moment(step, s.cancelled)])
  {
    hide Follows, PhaseFollows, Accounted, KnownIds, Normalised, ValidStatus;
    var m := Moment(step, s.cancelled);
    var t := Next(cfg, s, step);
    HandlerFollows(cfg, s, step, past, id);
    var w := s.handlers[id].work;
    assert s.jobs[w.correlation] == w && w.id < s.nextId;
    MoreIds(s, t, past, m);
    forall other | other in t.handlers
      ensures PhaseFollows(past + [m], t.handlers[other])
    {
      if other != id { OtherHandler(past, m, s.handlers[other]); }
    }
    forall i | 0 <= i < |s.done|
      ensures Follows(past + [m], s.done[i].work, s.done[i].body, s.done[i].status)
    {
      OtherMoment(past, m, s.done[i].work, s.done[i].body, s.done[i].status);
    }
    forall i | 0 <= i < |t.log| && t.log[i].Finished?
      ensures Received(t, past + [m], t.log[i].outcome)
    {
      var o := s.log[i].outcome;
      assert Received(s, past, o);
      OtherMoment(past, m, o.work, o.body, o.status);
    }
  }

  // ---- runs ----

  lemma StepKeepsFollowing(cfg: Config, s: State, step: Step, past: seq<Moment>)
    requires Tables(s) && AllFollow(s, past) && Enabled(cfg, s, step)
    ensures AllFollow(Next(cfg, s, step), past + [Moment(step, s.cancelled)])
  {
    hide Next, Enabled, AllFollow, JobsOk, HandlersOk, DoneOk, ResultsOk, AssembliesOk, LoopOk;
    if OfHandler(step) {
      HandlerKeepsFollowing(cfg, s, step, past, step.id);
    } else {
      FreshId(s);
      LoopMoves(cfg, s, step);
      LoopKeepsFollowing(s, Next(cfg, s, step), past, Moment(step, s.cancelled));
    }
  }

  lemma {:induction false} RunKeepsFollowing(cfg: Config, s: State, steps: seq<Step>, past: seq<Moment>)
    requires Tables(s) && AllFollow(s, past) && Runs(cfg, s, steps)
    ensures AllFollow(Run(cfg, s, steps), past + Moments(cfg, s, steps))
    decreases |steps|
  {
    hide Next, Enabled, AllFollow, Tables;
    if steps == [] {
      assert past + [] == past;
    } else {
      var m := Moment(steps[0], s.cancelled);
      StepKeepsTables(cfg, s, steps[0]);
      StepKeepsFollowing(cfg, s, steps[0], past);
      var t := Next(cfg, s, steps[0]);
      RunKeepsFollowing(cfg, t, steps[1..], past + [m]);
      assert past + [m] + Moments(cfg, t, steps[1..]) == past + Moments(cfg, s, steps);
    }
  }

  /** Every result of every run: the handler returned, and the result is empty and Cancelled if the flag was set
      when it was loaded, else empty and DeadlineExceeded if the deadline had passed when the clock was read, else
      exactly what the handler's answer settles to. */
  lemma EveryResultFollows(cfg: Config, steps: seq<Step>)
    requires Runs(cfg, INITIAL, steps)
    ensures var t := Run(cfg, INITIAL, steps);
      && DoneFollows(t, Moments(cfg, INITIAL, steps))
      && forall i :: 0 <= i < |t.log| && t.log[i].Finished? ==>
           var o := t.log[i].outcome;
           Follows(Moments(cfg, INITIAL, steps), o.work, o.body, o.status)
  {
    InitialTables();
    RunKeepsFollowing(cfg, INITIAL, steps, []);
    assert [] + Moments(cfg, INITIAL, steps) == Moments(cfg, INITIAL, steps);
  }
}
