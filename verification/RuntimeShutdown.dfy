/** Shutdown and cancellation of the serving loop, over every interleaving with the running handlers. */
module RuntimeShutdown {
  import opened Bytes
  import opened Wire
  import opened ModuleProtocol
  import opened Events
  import opened RuntimeModel
  import opened RuntimeTables
  import RuntimeLog

  // ---- shutdown ends ----

  predicate ShuttingDown(s: State) { s.at.Flagging? || s.at.Joining? }

  function PhaseWeight(h: Handler): nat {
    match h.phase
    case Working(_) => 5
    case Returned(_, _) => 4
    case Timing(_, _) => 3
    case Decided(_, _) => 2
  }

  ghost function Weight(m: map<nat, Handler>): nat {
    if m == map[] then 0 else var k :| k in m; PhaseWeight(m[k]) + Weight(m - {k})
  }

  lemma {:induction false} WeightOfOne(m: map<nat, Handler>, k: nat)
    requires k in m
    ensures Weight(m) == PhaseWeight(m[k]) + Weight(m - {k})
    decreases |m|
  {
    var i :| i in m && Weight(m) == PhaseWeight(m[i]) + Weight(m - {i});
    if i != k {
      RemoveKey(m, i);
      RemoveKey(m, k);
      WeightOfOne(m - {i}, k);
      WeightOfOne(m - {k}, i);
      assert m - {i} - {k} == m - {k} - {i};
    }
  }

  /** What is left to do before a shutdown is over. */
  ghost function Remaining(s: State): nat {
    Weight(s.handlers) + |s.done|
    + (match s.at case Flagging(todo) => |todo| + 2 case Joining => 1 case _ => 0)
  }

  lemma PhaseChangeLightens(m: map<nat, Handler>, id: nat, h: Handler)
    requires id in m && PhaseWeight(h) < PhaseWeight(m[id])
    ensures Weight(m[id := h]) < Weight(m)
  {
    WeightOfOne(m, id);
    WeightOfOne(m[id := h], id);
    assert m[id := h] - {id} == m - {id};
  }

  /** Every step taken during a shutdown brings it closer to its end, and keeps it a shutdown or ends it. */
  lemma ShutdownStepsAreFinite(cfg: Config, s: State, step: Step)
    requires ShuttingDown(s) && Enabled(cfg, s, step)
    ensures Remaining(Next(cfg, s, step)) < Remaining(s)
    ensures ShuttingDown(Next(cfg, s, step)) || Next(cfg, s, step).at.Stopped?
  {
    hide OnEvent, Judge, Possible, ResultFragments, Out;
    var t := Next(cfg, s, step);
    match step
    case HandlerReturns(id, _, _) => PhaseChangeLightens(s.handlers, id, t.handlers[id]);
    case HandlerLoadsFlag(id) => PhaseChangeLightens(s.handlers, id, t.handlers[id]);
    case HandlerReadsClock(id, _) => PhaseChangeLightens(s.handlers, id, t.handlers[id]);
    case HandlerSends(id) => WeightOfOne(s.handlers, id);
    case FlagJob(c) => assert |s.at.todo - {c}| == |s.at.todo| - 1;
    case _ =>
  }

  /** A shutdown is never stuck: until it is over, the loop or some handler can move. */
  lemma ShutdownIsNeverStuck(cfg: Config, s: State) returns (step: Step)
    requires Tables(s) && ShuttingDown(s)
    ensures Enabled(cfg, s, step)
  {
    if s.at.Flagging? {
      if s.at.todo == {} {
        step := AllFlagged;
      } else {
        var c :| c in s.at.todo;
        step := FlagJob(c);
      }
    } else if s.jobs == map[] {
      step := AllJoined;
    } else if s.done != [] {
      step := Join;
    } else {
      NoneLeft(s.jobs);
      var id :| id in s.handlers;
      match s.handlers[id].phase
      case Working(_) => step := HandlerReturns(id, [], STATUS_OK);
      case Returned(_, _) => step := HandlerLoadsFlag(id);
      case Timing(_, _) => step := HandlerReadsClock(id, 0);
      case Decided(_, _) => step := HandlerSends(id);
    }
  }

  // ---- each job is joined once ----

  /** Results received for a correlation. */
  function Received(log: seq<LogItem>, c: uint64): nat {
    if log == [] then 0
    else Received(log[..|log| - 1], c)
         + (var x := log[|log| - 1]; if x.Finished? && x.outcome.work.correlation == c then 1 else 0)
  }

  lemma ReceivedLast(log: seq<LogItem>, x: LogItem, c: uint64)
    ensures Received(log + [x], c) ==
              Received(log, c) + (if x.Finished? && x.outcome.work.correlation == c then 1 else 0)
  {
    assert (log + [x])[..|log|] == log;
  }

  /** During a shutdown every job still in the table is received exactly once, and nothing else is: at the
      end, exactly one result per job there was. */
  lemma {:induction false} ShutdownReceivesEachJobOnce(cfg: Config, s: State, steps: seq<Step>, c: uint64)
    requires Tables(s) && ShuttingDown(s) && Runs(cfg, s, steps)
    ensures var t := Run(cfg, s, steps);
      && Received(t.log, c) + Live(t, c) == Received(s.log, c) + Live(s, c)
      && (t.at.Stopped? ==> t.jobs == map[] && t.handlers == map[] && t.done == [])
    decreases |steps|
  {
    hide Tables, Next, Enabled;
    if steps == [] {
    } else {
      var u := Next(cfg, s, steps[0]);
      StepKeepsTables(cfg, s, steps[0]);
      ShutdownStepsAreFinite(cfg, s, steps[0]);
      ShutdownStepCounts(cfg, s, steps[0], c);
      if u.at.Stopped? {
        AfterStop(cfg, u, steps[1..]);
      } else {
        ShutdownReceivesEachJobOnce(cfg, u, steps[1..], c);
      }
    }
  }

  lemma ShutdownStepCounts(cfg: Config, s: State, step: Step, c: uint64)
    requires Tables(s) && ShuttingDown(s) && Enabled(cfg, s, step)
    ensures var t := Next(cfg, s, step);
      && Received(t.log, c) + Live(t, c) == Received(s.log, c) + Live(s, c)
      && (t.at.Stopped? ==> t.jobs == map[] && t.handlers == map[] && t.done == [])
  {
    hide Received, JobsOk, HandlersOk, DoneOk, ResultsOk, AssembliesOk, LoopOk, OnEvent, Possible;
    if step.Join? {
      OldestHasJob(s);
      ReceivedLast(s.log, Finished(s.done[0]), c);
    } else if step.AllJoined? {
      assert s.jobs == map[];
      NoneLeft(s.handlers);
    }
  }

  lemma OldestHasJob(s: State)
    requires DoneOk(s) && s.done != []
    ensures s.done[0].work.correlation in s.jobs
  {
  }

  lemma NoneLeft<K, V>(m: map<K, V>)
    ensures |m| == 0 ==> m == map[]
  {
  }

  /** With no handler left, nothing moves after the loop has stopped. */
  lemma AfterStop(cfg: Config, s: State, steps: seq<Step>)
    requires s.at.Stopped? && s.handlers == map[] && Runs(cfg, s, steps)
    ensures steps == []
  {
  }

  // ---- cancellation ----

  /** The handler of `w` has its flag set and has not loaded it yet, or is past that and will answer, or
      has answered, Cancelled without a body. */
  predicate Doomed(s: State, w: Work, from: nat) {
    && w.id in s.cancelled && w.id < s.nextId && from <= |s.log|
    && DoomedHandler(s, w) && DoomedResults(s.done, w) && DoomedLog(s.log, w, from)
  }

  predicate CancelledEmpty(o: Outcome) { o.status == STATUS_CANCELLED && o.body == [] }

  predicate DoomedHandler(s: State, w: Work) {
    w.id in s.handlers ==>
      && s.handlers[w.id].work == w
      && (s.handlers[w.id].phase.Working? || s.handlers[w.id].phase.Returned?
          || s.handlers[w.id].phase == Decided([], STATUS_CANCELLED))
  }

  predicate DoomedResults(done: seq<Outcome>, w: Work) {
    forall i :: 0 <= i < |done| && done[i].work.id == w.id ==> CancelledEmpty(done[i])
  }

  predicate DoomedLog(log: seq<LogItem>, w: Work, from: nat) {
    forall i :: from <= i < |log| && log[i].Finished? && log[i].outcome.work.id == w.id ==>
      CancelledEmpty(log[i].outcome)
  }

  lemma LogKeepsDoomed(log: seq<LogItem>, more: seq<LogItem>, w: Work, from: nat)
    requires from <= |log| && DoomedLog(log, w, from) && DoomedLog(more, w, 0)
    ensures DoomedLog(log + more, w, from)
  {
  }

  lemma EventKeepsDoomed(cfg: Config, s: State, event: Event, now: uint64, sending: Sending, w: Work, from: nat)
    requires Doomed(s, w, from)
    ensures Doomed(OnEvent(cfg, s, event, now, sending), w, from)
  {
    hide Judge, Out, RefusalFragments, DoomedLog;
    var t := OnEvent(cfg, s, event, now, sending);
    var v := Judge(cfg, s.assemblies, s.jobs, event, now);
    var more := t.log[|s.log|..];
    assert t.log == s.log + more;
    if v.Refuse? {
      OutIsReplies(RefusalFragments(cfg, event, v), sending);
      assert more == [Polled(event, false)] + Out(RefusalFragments(cfg, event, v), sending);
    }
    NothingFinished(more, w);
    LogKeepsDoomed(s.log, more, w, from);
  }

  lemma NothingFinished(more: seq<LogItem>, w: Work)
    requires forall i :: 0 <= i < |more| ==> !more[i].Finished?
    ensures DoomedLog(more, w, 0)
  {
  }

  lemma TakeKeepsDoomed(s: State, o: Outcome, rest: seq<LogItem>, w: Work, from: nat)
    requires from <= |s.log| && DoomedLog(s.log, w, from) && (o.work.id == w.id ==> CancelledEmpty(o))
    requires forall i :: 0 <= i < |rest| ==> !rest[i].Finished?
    ensures DoomedLog(s.log + [Finished(o)] + rest, w, from)
  {
  }

  lemma HandlerStepKeepsDoomed(cfg: Config, s: State, step: Step, w: Work, from: nat)
    requires HandlersOk(s) && Enabled(cfg, s, step) && Doomed(s, w, from)
    requires step.HandlerReturns? || step.HandlerLoadsFlag? || step.HandlerReadsClock? || step.HandlerSends?
    ensures Doomed(Next(cfg, s, step), w, from)
  {
    hide DoomedLog;
  }

  lemma StepKeepsDoomed(cfg: Config, s: State, step: Step, w: Work, from: nat)
    requires Tables(s) && Enabled(cfg, s, step) && Doomed(s, w, from)
    ensures Doomed(Next(cfg, s, step), w, from)
  {
    hide Judge, Out, OnEvent, JobsOk, HandlersOk, DoneOk, ResultsOk, AssembliesOk, ResultFragments, Possible, DoomedLog;
    match step
    case PollEvent(event, now, sending) => EventKeepsDoomed(cfg, s, event, now, sending, w, from);
    case Collect(sending) =>
      OutIsReplies(ResultFragments(cfg, s.done[0]), sending);
      TakeKeepsDoomed(s, s.done[0], Out(ResultFragments(cfg, s.done[0]), sending), w, from);
    case Join =>
      TakeKeepsDoomed(s, s.done[0], [], w, from);
      assert s.log + [Finished(s.done[0])] + [] == s.log + [Finished(s.done[0])];
    case HandlerReturns(_, _, _) => HandlerStepKeepsDoomed(cfg, s, step, w, from);
    case HandlerLoadsFlag(_) => HandlerStepKeepsDoomed(cfg, s, step, w, from);
    case HandlerReadsClock(_, _) => HandlerStepKeepsDoomed(cfg, s, step, w, from);
    case HandlerSends(_) => HandlerStepKeepsDoomed(cfg, s, step, w, from);
    case _ =>
  }

  /** If the cancel or shutdown store comes before the handler's flag load, whatever it answers and whatever
      the clock says, every result of its work from then on is Cancelled without a body. */
  lemma {:induction false} CancelBeforeLoadWins(cfg: Config, s: State, steps: seq<Step>, w: Work)
    requires Tables(s) && Runs(cfg, s, steps)
    requires w.id in s.cancelled && w.id in s.handlers && s.handlers[w.id].work == w
    requires s.handlers[w.id].phase.Working? || s.handlers[w.id].phase.Returned?
    ensures var t := Run(cfg, s, steps);
      && |s.log| <= |t.log|
      && DoomedLog(t.log, w, |s.log|) && DoomedResults(t.done, w)
  {
    assert w.correlation in s.jobs && s.jobs[w.correlation].id < s.nextId;
    forall i | 0 <= i < |s.done|
      ensures s.done[i].work.id != w.id
    {
    }
    RunKeepsDoomed(cfg, s, steps, w, |s.log|);
  }

  lemma {:induction false} RunKeepsDoomed(cfg: Config, s: State, steps: seq<Step>, w: Work, from: nat)
    requires Tables(s) && Runs(cfg, s, steps) && Doomed(s, w, from)
    ensures Doomed(Run(cfg, s, steps), w, from)
    decreases |steps|
  {
    hide Tables, Next, Enabled, Doomed;
    if steps != [] {
      StepKeepsTables(cfg, s, steps[0]);
      StepKeepsDoomed(cfg, s, steps[0], w, from);
      RunKeepsDoomed(cfg, Next(cfg, s, steps[0]), steps[1..], w, from);
    }
  }

  /** A cancel reaches the flag of its own correlation's job and nothing else: no other flag, no handler,
      no waiting result, and no reply. */
  lemma CancelIsLocal(cfg: Config, s: State, event: Event, now: uint64, sending: Sending)
    requires Has(event.frame.flags, F_CANCEL)
    ensures var c := event.frame.correlation;
      var t := OnEvent(cfg, s, event, now, sending);
      && t.cancelled == s.cancelled + (if c in s.jobs then {s.jobs[c].id} else {})
      && t.handlers == s.handlers && t.done == s.done && t.jobs == s.jobs
      && t.assemblies == s.assemblies - {c}
      && t.log == s.log + [Polled(event, false)] && t.at == Draining && t.nextId == s.nextId
  {
  }

  /** Only identities handed out have a flag stored. */
  predicate FlagsKnown(s: State) { forall id :: id in s.cancelled ==> id < s.nextId }

  lemma StepKeepsFlags(cfg: Config, s: State, step: Step)
    requires JobsOk(s) && FlagsKnown(s) && LoopOk(s) && Enabled(cfg, s, step)
    ensures FlagsKnown(Next(cfg, s, step))
  {
    hide Judge, Out, Possible, ResultFragments, RefusalFragments, Accounted;
  }

  /** Every reachable state is one a call can start from. */
  lemma {:induction false} RunKeepsFlags(cfg: Config, s: State, steps: seq<Step>)
    requires Tables(s) && FlagsKnown(s) && Runs(cfg, s, steps)
    ensures Tables(Run(cfg, s, steps)) && FlagsKnown(Run(cfg, s, steps))
    decreases |steps|
  {
    hide Tables, FlagsKnown, Next, Enabled;
    if steps != [] {
      StepKeepsTables(cfg, s, steps[0]);
      KeepFlags(cfg, s, steps[0]);
      RunKeepsFlags(cfg, Next(cfg, s, steps[0]), steps[1..]);
    }
  }

  lemma KeepFlags(cfg: Config, s: State, step: Step)
    requires Tables(s) && FlagsKnown(s) && Enabled(cfg, s, step)
    ensures FlagsKnown(Next(cfg, s, step))
  {
    StepKeepsFlags(cfg, s, step);
  }

  // ---- only a job's own cancel sets its flag ----

  /** A cancel for the work's correlation was polled after the work was started. */
  predicate CancelledSince(log: seq<LogItem>, w: Work) {
    exists i, j :: 0 <= i < j < |log| && IsStart(log[i], w) && IsCancel(log[j], w.correlation)
  }

  predicate IsStart(x: LogItem, w: Work) { x.Started? && x.work == w }

  predicate IsCancel(x: LogItem, c: uint64) { x.Polled? && RuntimeLog.CancelOf(x.event, c) }

  predicate WasStarted(log: seq<LogItem>, w: Work) { exists i :: 0 <= i < |log| && IsStart(log[i], w) }

  /** Every live job has been started, and while the loop serves a live job's flag has its own cancel as cause. */
  predicate Caused(s: State) {
    && (forall c :: c in s.jobs ==> WasStarted(s.log, s.jobs[c]))
    && (Serving(s) ==> forall c :: c in s.jobs && s.jobs[c].id in s.cancelled ==> CancelledSince(s.log, s.jobs[c]))
  }

  lemma LongerLog(log: seq<LogItem>, longer: seq<LogItem>, w: Work)
    requires log <= longer
    ensures WasStarted(log, w) ==> WasStarted(longer, w)
    ensures CancelledSince(log, w) ==> CancelledSince(longer, w)
  {
    hide IsStart, IsCancel;
    if WasStarted(log, w) {
      var i :| 0 <= i < |log| && IsStart(log[i], w);
      assert IsStart(longer[i], w);
    }
    if CancelledSince(log, w) {
      var i, j :| 0 <= i < j < |log| && IsStart(log[i], w) && IsCancel(log[j], w.correlation);
      assert IsStart(longer[i], w) && IsCancel(longer[j], w.correlation);
    }
  }

  /** Jobs that stay, and flags that stay, keep their causes in a longer history. */
  lemma KeepsCauses(s: State, t: State)
    requires Caused(s) && s.log <= t.log && (Serving(t) ==> Serving(s))
    requires forall c :: c in t.jobs ==> c in s.jobs && t.jobs[c] == s.jobs[c]
    requires Serving(t) ==> forall c :: c in t.jobs && t.jobs[c].id in t.cancelled ==>
               s.jobs[c].id in s.cancelled || CancelledSince(t.log, t.jobs[c])
    ensures Caused(t)
  {
    hide WasStarted, CancelledSince;
    forall c | c in t.jobs
      ensures WasStarted(t.log, t.jobs[c])
      ensures CancelledSince(s.log, t.jobs[c]) ==> CancelledSince(t.log, t.jobs[c])
    {
      LongerLog(s.log, t.log, t.jobs[c]);
    }
  }

  lemma CancelKeepsCauses(cfg: Config, s: State, event: Event, now: uint64, sending: Sending)
    requires Tables(s) && Caused(s) && Serving(s) && Has(event.frame.flags, F_CANCEL)
    ensures Caused(OnEvent(cfg, s, event, now, sending))
  {
    hide Judge, HandlersOk, DoneOk, ResultsOk, AssembliesOk, Accounted, LoopOk;
    var t := OnEvent(cfg, s, event, now, sending);
    var c := event.frame.correlation;
    CancelIsLocal(cfg, s, event, now, sending);
    hide OnEvent, Has, CancelledSince, WasStarted, IsStart;
    if c in s.jobs { CancelIsCause(s.log, event, s.jobs[c]); }
    hide RuntimeLog.CancelOf;
    KeepsCauses(s, t);
  }

  lemma CancelIsCause(log: seq<LogItem>, event: Event, w: Work)
    requires WasStarted(log, w) && RuntimeLog.CancelOf(event, w.correlation)
    ensures CancelledSince(log + [Polled(event, false)], w)
  {
    hide RuntimeLog.CancelOf, IsStart;
    var i :| 0 <= i < |log| && IsStart(log[i], w);
    var longer := log + [Polled(event, false)];
    assert IsStart(longer[i], w) && IsCancel(longer[|log|], w.correlation);
  }

  lemma BeginKeepsCauses(cfg: Config, s: State, event: Event, now: uint64, sending: Sending)
    requires Tables(s) && FlagsKnown(s) && Caused(s) && Serving(s)
    requires Judge(cfg, s.assemblies, s.jobs, event, now).Begin?
    ensures Caused(OnEvent(cfg, s, event, now, sending))
  {
    hide Judge, JobsOk, HandlersOk, DoneOk, ResultsOk, AssembliesOk, CancelledSince;
    var t := OnEvent(cfg, s, event, now, sending);
    var c := event.frame.correlation;
    assert IsStart(t.log[|s.log| + 1], t.jobs[c]);
    assert WasStarted(t.log, t.jobs[c]);
    hide WasStarted;
    forall d | d in t.jobs && d != c
      ensures WasStarted(t.log, t.jobs[d])
      ensures CancelledSince(s.log, t.jobs[d]) ==> CancelledSince(t.log, t.jobs[d])
    {
      LongerLog(s.log, t.log, t.jobs[d]);
    }
  }

  lemma EventKeepsCauses(cfg: Config, s: State, event: Event, now: uint64, sending: Sending)
    requires Tables(s) && FlagsKnown(s) && Caused(s) && Serving(s)
    ensures Caused(OnEvent(cfg, s, event, now, sending))
  {
    JudgeFacts(cfg, s.assemblies, s.jobs, event, now);
    var v := Judge(cfg, s.assemblies, s.jobs, event, now);
    if v.CancelIt? {
      CancelKeepsCauses(cfg, s, event, now, sending);
    } else if v.Begin? {
      BeginKeepsCauses(cfg, s, event, now, sending);
    } else {
      hide Judge, RefusalFragments, Out, Tables, Caused, FlagsKnown, Has, Invalid;
      KeepsCauses(s, OnEvent(cfg, s, event, now, sending));
    }
  }

  lemma StepKeepsCauses(cfg: Config, s: State, step: Step)
    requires Tables(s) && FlagsKnown(s) && Caused(s) && Enabled(cfg, s, step)
    ensures Caused(Next(cfg, s, step))
  {
    hide OnEvent, Tables, Caused, FlagsKnown;
    if step.PollEvent? {
      EventKeepsCauses(cfg, s, step.event, step.now, step.sending);
    } else {
      NoNewJobs(cfg, s, step);
      hide Next, Enabled, CancelledSince;
      KeepsCauses(s, Next(cfg, s, step));
    }
  }

  /** Without an event no job is added, and while the loop serves no flag is stored. */
  lemma NoNewJobs(cfg: Config, s: State, step: Step)
    requires Enabled(cfg, s, step) && !step.PollEvent?
    ensures var t := Next(cfg, s, step);
      && s.log <= t.log && (Serving(t) ==> Serving(s) && t.cancelled == s.cancelled)
      && forall c :: c in t.jobs ==> c in s.jobs && t.jobs[c] == s.jobs[c]
  {
    hide ResultFragments, Out, Possible;
  }

  /** While the loop serves, a live job's flag is set only if a cancel for its own correlation was polled since it
      was started: a cancel for one correlation never reaches another's flag, over any run. */
  lemma FlagNeedsOwnCancel(cfg: Config, steps: seq<Step>, c: uint64)
    requires Runs(cfg, INITIAL, steps)
    ensures var t := Run(cfg, INITIAL, steps);
      Serving(t) && c in t.jobs && t.jobs[c].id in t.cancelled ==> CancelledSince(t.log, t.jobs[c])
  {
    InitialTables();
    RunKeepsCauses(cfg, INITIAL, steps);
    hide Tables, CancelledSince;
  }

  lemma {:induction false} RunKeepsCauses(cfg: Config, s: State, steps: seq<Step>)
    requires Tables(s) && FlagsKnown(s) && Caused(s) && Runs(cfg, s, steps)
    ensures Caused(Run(cfg, s, steps))
    decreases |steps|
  {
    hide Tables, FlagsKnown, Caused, Next, Enabled;
    if steps != [] {
      StepKeepsTables(cfg, s, steps[0]);
      KeepFlags(cfg, s, steps[0]);
      StepKeepsCauses(cfg, s, steps[0]);
      RunKeepsCauses(cfg, Next(cfg, s, steps[0]), steps[1..]);
    }
  }
}
