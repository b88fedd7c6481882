/** What the tables of the serving loop satisfy in every reachable state: the jobs are exactly the running
    handlers and the results waiting in `done`, within bounds that keep every send from blocking. */
module RuntimeTables {
  import opened Bytes
  import opened ModuleProtocol
  import opened Events
  import opened RuntimeModel

  /** The work of a correlation is running or its one result is waiting. */
  predicate Accounted(s: State, w: Work) {
    w.id in s.handlers || exists i :: 0 <= i < |s.done| && s.done[i].work == w
  }

  predicate JobsOk(s: State) {
    && |s.jobs| <= MAX_IN_FLIGHT
    && DistinctIds(s.jobs, s.nextId)
    && (forall c :: c in s.jobs ==> Accounted(s, s.jobs[c]))
  }

  predicate HandlersOk(s: State) {
    forall id :: id in s.handlers ==>
      var w := s.handlers[id].work;
      w.id == id && w.correlation in s.jobs && s.jobs[w.correlation] == w
  }

  predicate DoneOk(s: State) {
    && (forall i :: 0 <= i < |s.done| ==>
          var w := s.done[i].work;
          w.correlation in s.jobs && s.jobs[w.correlation] == w && w.id !in s.handlers)
    && (forall i, j :: 0 <= i < j < |s.done| ==> s.done[i].work != s.done[j].work)
  }

  /** A result or a handler's decision: nothing but OK carries a body, and never too long a one. */
  predicate Presentable(body: bytes, status: uint16) {
    && ValidStatus(status) && |body| <= MESSAGE_MAX_BODY && (status != STATUS_OK ==> body == [])
  }

  predicate PhaseOk(phase: Phase) {
    phase.Working? || Presentable(phase.body, phase.status)
  }

  predicate ResultsOk(s: State) {
    && (forall i :: 0 <= i < |s.done| ==> Presentable(s.done[i].body, s.done[i].status))
    && (forall id :: id in s.handlers ==> PhaseOk(s.handlers[id].phase))
  }

  predicate AssembliesOk(s: State) {
    && |s.assemblies| <= MAX_IN_FLIGHT
    && (forall c :: c in s.assemblies ==> |s.assemblies[c].body| <= MESSAGE_MAX_BODY)
    && s.assemblies.Keys !! s.jobs.Keys
  }

  /** While results are joined or flags stored, the todo list stays within the jobs. */
  predicate LoopOk(s: State) {
    s.at.Flagging? ==> s.at.todo <= s.jobs.Keys
  }

  predicate Tables(s: State) {
    && JobsOk(s) && HandlersOk(s) && DoneOk(s) && ResultsOk(s) && AssembliesOk(s) && LoopOk(s)
    && |s.handlers| + |s.done| == |s.jobs|
  }

  lemma InitialTables()
    ensures Tables(INITIAL)
  {
  }

  lemma RemoveKey<K, V>(m: map<K, V>, k: K)
    requires k in m
    ensures |m - {k}| == |m| - 1
  {
    assert (m - {k}).Keys == m.Keys - {k};
  }

  lemma AddKey<K, V>(m: map<K, V>, k: K, v: V)
    ensures |m[k := v]| == if k in m then |m| else |m| + 1
  {
    assert m[k := v].Keys == m.Keys + {k};
  }

  lemma RemoveKeyAtMost<K, V>(m: map<K, V>, k: K)
    ensures |m - {k}| <= |m|
  {
    if k in m { RemoveKey(m, k); } else { assert m - {k} == m; }
  }

  // Taking the oldest result and its job.

  predicate Took(s: State, t: State) {
    && s.done != [] && t.done == s.done[1..] && t.jobs == s.jobs - {s.done[0].work.correlation}
    && t.handlers == s.handlers && t.assemblies == s.assemblies && t.nextId == s.nextId && !t.at.Flagging?
  }

  lemma TakeJobs(s: State, t: State)
    requires Took(s, t) && JobsOk(s) && DoneOk(s)
    ensures JobsOk(t) && |t.jobs| == |s.jobs| - 1
  {
    RemoveKey(s.jobs, s.done[0].work.correlation);
    forall c | c in t.jobs
      ensures Accounted(t, t.jobs[c])
    {
      var w := s.jobs[c];
      assert Accounted(s, w);
      if w.id !in s.handlers {
        var i :| 0 <= i < |s.done| && s.done[i].work == w;
        assert t.done[i - 1].work == w;
      }
    }
  }

  lemma TakeHandlers(s: State, t: State)
    requires Took(s, t) && HandlersOk(s) && DoneOk(s)
    ensures HandlersOk(t)
  {
    assert s.done[0].work.id !in s.handlers;
  }

  lemma TakeDone(s: State, t: State)
    requires Took(s, t) && JobsOk(s) && DoneOk(s)
    ensures DoneOk(t)
  {
    forall i | 0 <= i < |t.done|
      ensures t.done[i] == s.done[i + 1] && t.done[i].work.correlation in t.jobs
    {
      assert s.done[0].work != s.done[i + 1].work;
    }
  }

  lemma TakeRest(s: State, t: State)
    requires Took(s, t) && DoneOk(s) && ResultsOk(s) && AssembliesOk(s)
    ensures ResultsOk(t) && AssembliesOk(t) && LoopOk(t)
  {
    assert forall i :: 0 <= i < |t.done| ==> t.done[i] == s.done[i + 1];
  }

  lemma TakeResult(s: State, t: State)
    requires Tables(s) && Took(s, t)
    ensures Tables(t)
  {
    hide JobsOk, HandlersOk, DoneOk, ResultsOk, AssembliesOk, LoopOk;
    TakeJobs(s, t);
    TakeHandlers(s, t);
    TakeDone(s, t);
    TakeRest(s, t);
  }

  // Starting a handler for a correlation without one.

  predicate Began(s: State, t: State, c: uint64, w: Work, body: bytes) {
    && c !in s.jobs && |s.jobs| < MAX_IN_FLIGHT && w.correlation == c && w.id == s.nextId
    && t.jobs == s.jobs[c := w] && t.handlers == s.handlers[s.nextId := Handler(w, Working(body))]
    && t.done == s.done && t.nextId == s.nextId + 1 && t.assemblies == s.assemblies - {c}
    && !t.at.Flagging?
  }

  /** An identity not handed out yet runs no handler and waits in no result. */
  lemma FreshId(s: State)
    requires JobsOk(s) && HandlersOk(s) && DoneOk(s)
    ensures s.nextId !in s.handlers
    ensures forall i :: 0 <= i < |s.done| ==> s.done[i].work.id != s.nextId
  {
    assert forall id :: id in s.handlers ==> s.jobs[s.handlers[id].work.correlation].id < s.nextId;
  }

  lemma BeginAccounts(s: State, t: State, c: uint64, w: Work, body: bytes)
    requires Began(s, t, c, w, body) && JobsOk(s)
    ensures forall d :: d in t.jobs ==> Accounted(t, t.jobs[d])
  {
    forall d | d in t.jobs
      ensures Accounted(t, t.jobs[d])
    {
      if d != c { assert Accounted(s, s.jobs[d]); }
    }
  }

  predicate DistinctIds(jobs: map<uint64, Work>, limit: nat) {
    && (forall c :: c in jobs ==> jobs[c].correlation == c && jobs[c].id < limit)
    && (forall c, d :: c in jobs && d in jobs && jobs[c].id == jobs[d].id ==> c == d)
  }

  lemma AddJob(jobs: map<uint64, Work>, limit: nat, c: uint64, w: Work)
    requires DistinctIds(jobs, limit) && c !in jobs && w.correlation == c && w.id == limit
    ensures DistinctIds(jobs[c := w], limit + 1) && |jobs[c := w]| == |jobs| + 1
  {
    AddKey(jobs, c, w);
  }

  lemma BeginJobs(s: State, t: State, c: uint64, w: Work, body: bytes)
    requires Began(s, t, c, w, body) && JobsOk(s)
    ensures JobsOk(t) && |t.jobs| == |s.jobs| + 1
  {
    AddJob(s.jobs, s.nextId, c, w);
    BeginAccounts(s, t, c, w, body);
    hide Accounted, DistinctIds;
  }

  lemma BeginHandlers(s: State, t: State, c: uint64, w: Work, body: bytes)
    requires Began(s, t, c, w, body) && s.nextId !in s.handlers && HandlersOk(s) && ResultsOk(s)
    ensures HandlersOk(t) && ResultsOk(t) && |t.handlers| == |s.handlers| + 1
  {
    hide Presentable;
    AddKey(s.handlers, s.nextId, Handler(w, Working(body)));
  }

  lemma BeginDone(s: State, t: State, c: uint64, w: Work, body: bytes)
    requires Began(s, t, c, w, body) && DoneOk(s) && AssembliesOk(s)
    requires forall i :: 0 <= i < |s.done| ==> s.done[i].work.id != s.nextId
    ensures DoneOk(t) && AssembliesOk(t) && LoopOk(t)
  {
    RemoveKeyAtMost(s.assemblies, c);
  }

  lemma StartJob(s: State, t: State, c: uint64, w: Work, body: bytes)
    requires Tables(s) && Began(s, t, c, w, body)
    ensures Tables(t)
  {
    hide JobsOk, HandlersOk, DoneOk, ResultsOk, AssembliesOk, LoopOk;
    FreshId(s);
    BeginJobs(s, t, c, w, body);
    BeginHandlers(s, t, c, w, body);
    BeginDone(s, t, c, w, body);
  }

  /** A handler moving from phase to phase changes nothing else. */
  predicate Moved(s: State, t: State, id: nat, phase: Phase) {
    && id in s.handlers && PhaseOk(phase)
    && t == s.(handlers := s.handlers[id := s.handlers[id].(phase := phase)])
  }

  lemma MoveJobs(s: State, t: State, id: nat, phase: Phase)
    requires Moved(s, t, id, phase) && JobsOk(s)
    ensures JobsOk(t)
  {
    hide DistinctIds, PhaseOk;
    forall c | c in t.jobs
      ensures Accounted(t, t.jobs[c])
    {
      assert Accounted(s, s.jobs[c]);
    }
  }

  lemma MoveRest(s: State, t: State, id: nat, phase: Phase)
    requires Moved(s, t, id, phase) && HandlersOk(s) && DoneOk(s) && ResultsOk(s) && AssembliesOk(s) && LoopOk(s)
    ensures HandlersOk(t) && DoneOk(t) && ResultsOk(t) && AssembliesOk(t) && LoopOk(t)
    ensures |t.handlers| == |s.handlers|
  {
    hide Presentable;
    AddKey(s.handlers, id, s.handlers[id].(phase := phase));
  }

  lemma MovePhase(s: State, t: State, id: nat, phase: Phase)
    requires Tables(s) && Moved(s, t, id, phase)
    ensures Tables(t)
  {
    hide JobsOk, HandlersOk, DoneOk, ResultsOk, AssembliesOk, LoopOk, PhaseOk;
    MoveJobs(s, t, id, phase);
    MoveRest(s, t, id, phase);
  }

  // A handler's send turns it into a waiting result.

  predicate Delivered(s: State, t: State, id: nat) {
    && id in s.handlers && s.handlers[id].phase.Decided?
    && var h := s.handlers[id];
       t == s.(handlers := s.handlers - {id}, done := s.done + [Outcome(h.work, h.phase.body, h.phase.status)])
  }

  lemma SendJobs(s: State, t: State, id: nat)
    requires Delivered(s, t, id) && JobsOk(s) && HandlersOk(s)
    ensures JobsOk(t)
  {
    var n := |s.done|;
    forall c | c in t.jobs
      ensures Accounted(t, t.jobs[c])
    {
      var w := s.jobs[c];
      assert Accounted(s, w);
      if w.id == id {
        assert s.handlers[id].work == w;
        assert t.done[n].work == w;
      } else if w.id !in s.handlers {
        var i :| 0 <= i < n && s.done[i].work == w;
        assert t.done[i].work == w;
      }
    }
  }

  lemma SendDone(s: State, t: State, id: nat)
    requires Delivered(s, t, id) && HandlersOk(s) && DoneOk(s)
    ensures DoneOk(t)
  {
    var n := |s.done|;
    assert forall i :: 0 <= i < n ==> t.done[i] == s.done[i];
    assert t.done[n].work == s.handlers[id].work;
  }

  lemma SendRest(s: State, t: State, id: nat)
    requires Delivered(s, t, id) && HandlersOk(s) && ResultsOk(s) && AssembliesOk(s) && LoopOk(s)
    ensures HandlersOk(t) && ResultsOk(t) && AssembliesOk(t) && LoopOk(t) && |t.handlers| == |s.handlers| - 1
  {
    RemoveKey(s.handlers, id);
    assert forall i :: 0 <= i < |s.done| ==> t.done[i] == s.done[i];
  }

  lemma SendResult(s: State, t: State, id: nat)
    requires Tables(s) && Delivered(s, t, id)
    ensures Tables(t)
  {
    hide JobsOk, HandlersOk, DoneOk, ResultsOk, AssembliesOk, LoopOk;
    SendJobs(s, t, id);
    SendDone(s, t, id);
    SendRest(s, t, id);
  }

  predicate Unmoved(s: State, t: State) {
    t.jobs == s.jobs && t.handlers == s.handlers && t.done == s.done && t.nextId == s.nextId && !t.at.Flagging?
  }

  predicate Assembled(s: State, t: State, c: uint64, x: Assembly) {
    && Unmoved(s, t) && c !in s.jobs && t.assemblies == s.assemblies[c := x]
    && |x.body| <= MESSAGE_MAX_BODY && (c in s.assemblies || |s.assemblies| < MAX_IN_FLIGHT)
  }

  /** What an event does to the tables, verdict by verdict. */
  ghost predicate EventEffect(s: State, t: State, c: uint64) {
    || (Unmoved(s, t) && (t.assemblies == s.assemblies || t.assemblies == s.assemblies - {c}))
    || (exists x: Assembly :: Assembled(s, t, c, x))
    || (exists w: Work, body: bytes :: Began(s, t, c, w, body))
  }

  lemma EventHasEffect(cfg: Config, s: State, event: Event, now: uint64, sending: Sending)
    ensures EventEffect(s, OnEvent(cfg, s, event, now, sending), event.frame.correlation)
  {
    JudgeFacts(cfg, s.assemblies, s.jobs, event, now);
    hide Out, RefusalFragments, DecodeMessage, BodyOf, Mismatch, StageOf, Judge, Invalid;
    var t := OnEvent(cfg, s, event, now, sending);
    var c := event.frame.correlation;
    match Judge(cfg, s.assemblies, s.jobs, event, now)
    case Skip => assert Unmoved(s, t);
    case CancelIt => assert Unmoved(s, t);
    case Refuse(_, _, _) => assert Unmoved(s, t);
    case Absorb(assembly) => assert Assembled(s, t, c, assembly);
    case Begin(m, body) => assert Began(s, t, c, t.jobs[c], body);
  }

  lemma EventKeepsTables(cfg: Config, s: State, event: Event, now: uint64, sending: Sending)
    requires Tables(s) && Enabled(cfg, s, PollEvent(event, now, sending))
    ensures Tables(OnEvent(cfg, s, event, now, sending))
  {
    var t := OnEvent(cfg, s, event, now, sending);
    var c := event.frame.correlation;
    EventHasEffect(cfg, s, event, now, sending);
    hide OnEvent, Judge, Apply, Enabled, JobsOk, HandlersOk, DoneOk, ResultsOk;
    if w: Work, body: bytes :| Began(s, t, c, w, body) {
      StartJob(s, t, c, w, body);
    } else {
      AssembliesAfter(s, t, c);
      hide AssembliesOk;
      SameTables(s, t);
    }
  }

  lemma AssembliesAfter(s: State, t: State, c: uint64)
    requires AssembliesOk(s) && EventEffect(s, t, c) && Unmoved(s, t)
    requires !exists w: Work, body: bytes :: Began(s, t, c, w, body)
    ensures AssembliesOk(t)
  {
    RemoveKeyAtMost(s.assemblies, c);
    if x: Assembly :| Assembled(s, t, c, x) { AddKey(s.assemblies, c, x); }
  }

  lemma SameTables(s: State, t: State)
    requires Tables(s) && t.jobs == s.jobs && t.handlers == s.handlers && t.done == s.done
    requires t.nextId == s.nextId && AssembliesOk(t) && LoopOk(t)
    ensures Tables(t)
  {
    forall c | c in t.jobs
      ensures Accounted(t, t.jobs[c])
    {
      assert Accounted(s, s.jobs[c]);
    }
  }

  lemma HandlerStepKeepsTables(cfg: Config, s: State, step: Step)
    requires Tables(s) && Enabled(cfg, s, step)
    requires step.HandlerReturns? || step.HandlerLoadsFlag? || step.HandlerReadsClock? || step.HandlerSends?
    ensures Tables(Next(cfg, s, step))
  {
    hide OnEvent, Judge, Apply, JobsOk, HandlersOk, DoneOk, AssembliesOk, LoopOk;
    var t := Next(cfg, s, step);
    if step.HandlerSends? {
      SendResult(s, t, step.id);
    } else {
      MovePhase(s, t, step.id, t.handlers[step.id].phase);
    }
  }

  lemma QuietStepKeepsTables(cfg: Config, s: State, step: Step)
    requires Tables(s) && Enabled(cfg, s, step)
    requires step.NothingToCollect? || step.SeeContextDone? || step.SeeEpochOrPollError? || step.PollNothing?
             || step.FlagJob? || step.AllFlagged? || step.AllJoined?
    ensures Tables(Next(cfg, s, step))
  {
    hide OnEvent, Judge, Apply, JobsOk, HandlersOk, DoneOk, ResultsOk;
    SameTables(s, Next(cfg, s, step));
  }

  /** Every step keeps the tables, whichever goroutine takes it and whatever a handler answers. */
  lemma StepKeepsTables(cfg: Config, s: State, step: Step)
    requires Tables(s) && Enabled(cfg, s, step)
    ensures Tables(Next(cfg, s, step))
  {
    hide OnEvent, ResultFragments, Out, Possible, Judge, Tables;
    match step
    case Collect(_) => TakeResult(s, Next(cfg, s, step));
    case Join => TakeResult(s, Next(cfg, s, step));
    case PollEvent(event, now, sending) => EventKeepsTables(cfg, s, event, now, sending);
    case HandlerReturns(_, _, _) => HandlerStepKeepsTables(cfg, s, step);
    case HandlerLoadsFlag(_) => HandlerStepKeepsTables(cfg, s, step);
    case HandlerReadsClock(_, _) => HandlerStepKeepsTables(cfg, s, step);
    case HandlerSends(_) => HandlerStepKeepsTables(cfg, s, step);
    case _ => QuietStepKeepsTables(cfg, s, step);
  }

  lemma {:induction false} RunKeepsTables(cfg: Config, s: State, steps: seq<Step>)
    requires Tables(s) && Runs(cfg, s, steps)
    ensures Tables(Run(cfg, s, steps))
    decreases |steps|
  {
    hide Tables, Next, Enabled;
    if steps != [] {
      StepKeepsTables(cfg, s, steps[0]);
      RunKeepsTables(cfg, Next(cfg, s, steps[0]), steps[1..]);
    }
  }

  /** A handler that has decided can always send, in every reachable state: also after the loop has stopped on
      an error, when nothing is ever received again. */
  lemma SendNeverBlocks(cfg: Config, steps: seq<Step>, id: nat)
    requires Runs(cfg, INITIAL, steps)
    ensures var t := Run(cfg, INITIAL, steps);
      id in t.handlers && t.handlers[id].phase.Decided? ==> Enabled(cfg, t, HandlerSends(id))
  {
    hide Run, Tables, Judge, Possible, ResultFragments, RefusalFragments;
    InitialTables();
    RunKeepsTables(cfg, INITIAL, steps);
    var t := Run(cfg, INITIAL, steps);
    if id in t.handlers { RoomForResult(t, id); }
  }

  /** As long as a handler is running there is room for its result. */
  lemma RoomForResult(s: State, id: nat)
    requires Tables(s) && id in s.handlers
    ensures |s.done| < MAX_IN_FLIGHT
  {
    hide HandlersOk, DoneOk, ResultsOk, AssembliesOk, DistinctIds, Accounted;
    RemoveKey(s.handlers, id);
  }
}
