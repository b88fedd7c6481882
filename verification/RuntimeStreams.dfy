/** What one handler is started on belongs together: every fragment of its body was an invoke of its event kind,
    stage, deadline and trace, and a request that breaks this is refused (server-go/bus/module_runtime.go:357-371). */
module RuntimeStreams {
  import opened Bytes
  import opened Options
  import opened Wire
  import opened ModuleProtocol
  import opened Events
  import opened Fragments
  import opened RuntimeModel
  import opened RuntimeTables
  import opened RuntimeLog
  import Bits

  /** The fragments of `c` accepted since its last reset. */
  function Pieces(log: seq<LogItem>, c: uint64): seq<Event> {
    if log == [] then [] else Pieces1(Pieces(log[..|log| - 1], c), log[|log| - 1], c)
  }

  function Pieces1(acc: seq<Event>, x: LogItem, c: uint64): seq<Event> {
    if !x.Polled? then acc
    else if CancelOf(x.event, c) then []
    else if !RequestOf(x.event, c) then acc
    else if x.absorbed then acc + [x.event]
    else []
  }

  function Join(es: seq<Event>): bytes {
    if es == [] then [] else Join(es[..|es| - 1]) + PieceOf(es[|es| - 1])
  }

  /** What all fragments of a request have in common. */
  datatype Identity = Identity(correlation: uint64, kind: uint32, stageID: uint32, deadlineNS: uint64,
                               traceID: uint64)

  function OfAssembly(c: uint64, a: Assembly): Identity {
    Identity(c, a.eventKind, a.message.stageID, a.message.deadlineNS, a.message.traceID)
  }

  function OfWork(w: Work): Identity { Identity(w.correlation, w.eventKind, w.stageID, w.deadlineNS, w.traceID) }

  /** A request fragment that decodes to an invoke of this identity. */
  predicate Belongs(e: Event, id: Identity) {
    && RequestOf(e, id.correlation) && e.frame.eventKind == id.kind
    && var m := DecodeMessage(e.payload);
       m.Some? && m.value.operation == OP_INVOKE && m.value.stageID == id.stageID
       && m.value.deadlineNS == id.deadlineNS && m.value.traceID == id.traceID
  }

  predicate AllBelong(es: seq<Event>, id: Identity) { forall i :: 0 <= i < |es| ==> Belongs(es[i], id) }

  /** The stage is the one the table has for the kind. */
  predicate FromTable(cfg: Config, id: Identity) { id.stageID != 0 && StageOf(cfg, id.kind) == id.stageID }

  /** The open assembly of `c`, if there is one, is of one identity. */
  predicate OneIdentity(cfg: Config, s: State, c: uint64) {
    if c in s.assemblies then
      FromTable(cfg, OfAssembly(c, s.assemblies[c])) && AllBelong(Pieces(s.log, c), OfAssembly(c, s.assemblies[c]))
    else Pieces(s.log, c) == []
  }

  /** The fragments a start was made of: those accepted before, all with more to follow, and the one before it. */
  predicate StartBelongs(cfg: Config, log: seq<LogItem>, i: nat)
    requires i < |log| && log[i].Started?
  {
    && i > 0 && log[i - 1].Polled?
    && FromTable(cfg, OfWork(log[i].work))
    && AllBelong(Pieces(log[..i - 1], log[i].work.correlation) + [log[i - 1].event], OfWork(log[i].work))
  }

  predicate StartsBelong(cfg: Config, log: seq<LogItem>) {
    forall i :: 0 <= i < |log| && log[i].Started? ==> StartBelongs(cfg, log, i)
  }

  // ---- histories ----

  lemma PiecesSnoc(log: seq<LogItem>, x: LogItem, c: uint64)
    ensures Pieces(log + [x], c) == Pieces1(Pieces(log, c), x, c)
  {
    assert (log + [x])[..|log|] == log;
  }

  lemma {:induction false} PiecesQuiet(log: seq<LogItem>, more: seq<LogItem>, c: uint64)
    requires forall i :: 0 <= i < |more| ==> !more[i].Polled?
    ensures Pieces(log + more, c) == Pieces(log, c)
  {
    if more == [] {
      assert log + more == log;
    } else {
      var n := |more| - 1;
      PiecesQuiet(log, more[..n], c);
      assert log + more == (log + more[..n]) + [more[n]];
      PiecesSnoc(log + more[..n], more[n], c);
    }
  }

  lemma JoinSnoc(es: seq<Event>, e: Event)
    ensures Join(es + [e]) == Join(es) + PieceOf(e)
  {
    assert (es + [e])[..|es|] == es;
  }

  /** The fold of a correlation is its pieces, joined. */
  lemma {:induction false} FoldIsJoin(log: seq<LogItem>, c: uint64)
    ensures Fold(log, c) == Join(Pieces(log, c))
  {
    hide CancelOf, RequestOf, PieceOf;
    if log != [] {
      var x := log[|log| - 1];
      FoldIsJoin(log[..|log| - 1], c);
      if x.Polled? { JoinSnoc(Pieces(log[..|log| - 1], c), x.event); }
    }
  }

  lemma StartsBelongExtend(cfg: Config, log: seq<LogItem>, more: seq<LogItem>)
    requires StartsBelong(cfg, log) && forall i :: 0 <= i < |more| ==> !more[i].Started?
    ensures StartsBelong(cfg, log + more)
  {
    hide Pieces, AllBelong, FromTable;
    var all := log + more;
    forall i | 0 <= i < |all| && all[i].Started?
      ensures StartBelongs(cfg, all, i)
    {
      assert i < |log| && all[i] == log[i];
      assert StartBelongs(cfg, log, i);
      assert all[..i - 1] == log[..i - 1];
    }
  }

  lemma StartsBelongOnce(cfg: Config, log: seq<LogItem>, e: Event, w: Work, body: bytes)
    requires StartsBelong(cfg, log) && FromTable(cfg, OfWork(w))
    requires AllBelong(Pieces(log, w.correlation) + [e], OfWork(w))
    ensures StartsBelong(cfg, log + [Polled(e, false), Started(w, body)])
  {
    StartsBelongExtend(cfg, log, [Polled(e, false)]);
    hide Pieces, AllBelong, FromTable;
    var n := |log|;
    var all := log + [Polled(e, false), Started(w, body)];
    forall i | 0 <= i < |all| && all[i].Started?
      ensures StartBelongs(cfg, all, i)
    {
      if i < n {
        assert all[i] == log[i];
        assert StartBelongs(cfg, log, i);
        assert all[..i - 1] == log[..i - 1];
      } else {
        assert all[..n] == log;
      }
    }
  }

  // ---- steps ----

  /** What an accepted fragment is: of the stage its kind has, and of the identity of its open assembly. */
  lemma AcceptedBelongs(cfg: Config, assemblies: map<uint64, Assembly>, jobs: map<uint64, Work>, e: Event)
    requires RequestOf(e, e.frame.correlation) && !Invalid(cfg, assemblies, jobs, e)
    ensures DecodeMessage(e.payload).Some?
    ensures var c := e.frame.correlation;
      var m := DecodeMessage(e.payload).value;
      var id := Identity(c, e.frame.eventKind, m.stageID, m.deadlineNS, m.traceID);
      Belongs(e, id) && FromTable(cfg, id) && (c in assemblies ==> OfAssembly(c, assemblies[c]) == id)
  {
    hide DecodeMessage, Bits.And;
  }

  lemma EventKeepsIdentity(cfg: Config, s: State, event: Event, now: uint64, sending: Sending, c: uint64)
    requires OneIdentity(cfg, s, c)
    ensures OneIdentity(cfg, OnEvent(cfg, s, event, now, sending), c)
  {
    hide Judge, RefusalFragments, Out, Invalid, DecodeMessage, BodyOf, Has, Pieces, Belongs, StageOf;
    JudgeFacts(cfg, s.assemblies, s.jobs, event, now);
    var v := Judge(cfg, s.assemblies, s.jobs, event, now);
    var polled := Polled(event, v.Absorb?);
    PiecesSnoc(s.log, polled, c);
    if v.Refuse? {
      OutIsReplies(RefusalFragments(cfg, event, v), sending);
      PiecesQuiet(s.log + [polled], Out(RefusalFragments(cfg, event, v), sending), c);
    } else if v.Absorb? {
      AcceptedBelongs(cfg, s.assemblies, s.jobs, event);
      AbsorbedIdentity(cfg, s, event, now);
    } else if v.Begin? {
      var t := OnEvent(cfg, s, event, now, sending);
      var x := t.log[|t.log| - 1];
      assert t.log == s.log + [polled] + [x];
      PiecesSnoc(s.log + [polled], x, c);
    }
  }

  /** An absorbed fragment keeps its assembly's identity or gives it its own. */
  lemma AbsorbedIdentity(cfg: Config, s: State, event: Event, now: uint64)
    requires Judge(cfg, s.assemblies, s.jobs, event, now).Absorb?
    ensures DecodeMessage(event.payload).Some?
    ensures var c := event.frame.correlation;
      var a := Judge(cfg, s.assemblies, s.jobs, event, now).assembly;
      var m := DecodeMessage(event.payload).value;
      OfAssembly(c, a) == if c in s.assemblies then OfAssembly(c, s.assemblies[c])
                          else Identity(c, event.frame.eventKind, m.stageID, m.deadlineNS, m.traceID)
  {
    hide DecodeMessage, BodyOf, Has, Bits.And;
  }

  lemma EventKeepsStarts(cfg: Config, s: State, event: Event, now: uint64, sending: Sending)
    requires StartsBelong(cfg, s.log) && OneIdentity(cfg, s, event.frame.correlation)
    ensures StartsBelong(cfg, OnEvent(cfg, s, event, now, sending).log)
  {
    hide Judge, RefusalFragments, Out, Invalid, DecodeMessage, BodyOf, Has, Pieces, Belongs, StageOf, StartsBelong;
    JudgeFacts(cfg, s.assemblies, s.jobs, event, now);
    var v := Judge(cfg, s.assemblies, s.jobs, event, now);
    var polled := Polled(event, v.Absorb?);
    if v.Refuse? {
      OutIsReplies(RefusalFragments(cfg, event, v), sending);
      StartsBelongExtend(cfg, s.log, [polled]);
      StartsBelongExtend(cfg, s.log + [polled], Out(RefusalFragments(cfg, event, v), sending));
    } else if v.Begin? {
      AcceptedBelongs(cfg, s.assemblies, s.jobs, event);
      var w := WorkOf(s, event, v.message, StageOf(cfg, event.frame.eventKind));
      StartsBelongOnce(cfg, s.log, event, w, v.body);
      assert s.log + [polled] + [Started(w, v.body)] == s.log + [polled, Started(w, v.body)];
    } else {
      StartsBelongExtend(cfg, s.log, [polled]);
    }
  }

  ghost predicate OneStream(cfg: Config, s: State) {
    StartsBelong(cfg, s.log) && forall c: uint64 :: OneIdentity(cfg, s, c)
  }

  lemma StepKeepsOneStream(cfg: Config, s: State, step: Step)
    requires OneStream(cfg, s) && Enabled(cfg, s, step)
    ensures OneStream(cfg, Next(cfg, s, step))
  {
    hide OnEvent, Judge, ResultFragments, Out, Possible, StartsBelong, Pieces, AllBelong, FromTable;
    var t := Next(cfg, s, step);
    match step
    case PollEvent(event, now, sending) =>
      EventKeepsStarts(cfg, s, event, now, sending);
      forall c: uint64
        ensures OneIdentity(cfg, t, c)
      {
        EventKeepsIdentity(cfg, s, event, now, sending, c);
      }
    case Collect(sending) =>
      var more := [Finished(s.done[0])] + Out(ResultFragments(cfg, s.done[0]), sending);
      OutIsReplies(ResultFragments(cfg, s.done[0]), sending);
      assert t.log == s.log + more;
      NotPolled(cfg, s, t, more);
    case Join => NotPolled(cfg, s, t, [Finished(s.done[0])]);
    case _ => assert forall c: uint64 :: OneIdentity(cfg, s, c) ==> OneIdentity(cfg, t, c);
  }

  lemma NotPolled(cfg: Config, s: State, t: State, more: seq<LogItem>)
    requires OneStream(cfg, s) && t.log == s.log + more && t.assemblies == s.assemblies
    requires forall i :: 0 <= i < |more| ==> !more[i].Polled? && !more[i].Started?
    ensures OneStream(cfg, t)
  {
    hide StartsBelong, Pieces, AllBelong, FromTable;
    StartsBelongExtend(cfg, s.log, more);
    forall c: uint64
      ensures OneIdentity(cfg, t, c)
    {
      PiecesQuiet(s.log, more, c);
      assert OneIdentity(cfg, s, c);
    }
  }

  lemma {:induction false} RunKeepsOneStream(cfg: Config, s: State, steps: seq<Step>)
    requires OneStream(cfg, s) && Runs(cfg, s, steps)
    ensures OneStream(cfg, Run(cfg, s, steps))
    decreases |steps|
  {
    hide Next, Enabled, OneStream;
    if steps != [] {
      StepKeepsOneStream(cfg, s, steps[0]);
      RunKeepsOneStream(cfg, Next(cfg, s, steps[0]), steps[1..]);
    }
  }

  lemma NothingYet(cfg: Config)
    ensures OneStream(cfg, INITIAL)
  {
  }

  /** Over every run from the start: a handler's body is its fragments' pieces, joined, and each of those fragments
      was an invoke of that handler's correlation, event kind, stage, deadline and trace; the stage is the one the
      table has for the kind. */
  lemma StartsAreOneStream(cfg: Config, steps: seq<Step>, i: nat)
    requires Runs(cfg, INITIAL, steps)
    requires i < |Run(cfg, INITIAL, steps).log| && Run(cfg, INITIAL, steps).log[i].Started?
    ensures var log := Run(cfg, INITIAL, steps).log;
      var w := log[i].work;
      && i > 0 && log[i - 1].Polled?
      && var fragments := Pieces(log[..i - 1], w.correlation) + [log[i - 1].event];
         log[i].body == Join(fragments) && AllBelong(fragments, OfWork(w)) && FromTable(cfg, OfWork(w))
  {
    hide Runs, Run, Pieces, AllBelong, FromTable, Join, Fold, Folded, Tables, Conserved, PieceOf, RequestOf, Has;
    var log := Run(cfg, INITIAL, steps).log;
    NothingYet(cfg);
    RunKeepsOneStream(cfg, INITIAL, steps);
    ReachableStates(cfg, steps, log[i].work.correlation);
    assert StartBelongs(cfg, log, i) && StartAt(log, i);
    FoldIsJoin(log[..i - 1], log[i].work.correlation);
    JoinSnoc(Pieces(log[..i - 1], log[i].work.correlation), log[i - 1].event);
  }

  // ---- requests that do not belong ----

  /** A fragment that decodes to an invoke of this stage. */
  predicate Invokes(e: Event, stageID: uint32) {
    var m := DecodeMessage(e.payload);
    m.Some? && m.value.operation == OP_INVOKE && m.value.stageID == stageID
  }

  /** A request the loop must not take: of a kind without a stage, no invoke of that stage, of a correlation with a
      live job, or unlike the fragments it would be joined to. */
  predicate Breaks(cfg: Config, s: State, e: Event) {
    var c := e.frame.correlation;
    var stage := StageOf(cfg, e.frame.eventKind);
    && RequestOf(e, c)
    && (stage == 0 || !Invokes(e, stage) || c in s.jobs
        || (c in s.assemblies && !Belongs(e, OfAssembly(c, s.assemblies[c]))))
  }

  /** Exactly those are refused as invalid. */
  lemma InvalidExactly(cfg: Config, s: State, e: Event, now: uint64)
    ensures var v := Judge(cfg, s.assemblies, s.jobs, e, now);
      var stage := StageOf(cfg, e.frame.eventKind);
      && (Breaks(cfg, s, e) <==> v.Refuse? && v.status == STATUS_INVALID_REQUEST)
      && (Breaks(cfg, s, e) ==> v == Refuse(if stage == 0 then 1 else stage, 0, STATUS_INVALID_REQUEST))
  {
    hide DecodeMessage, BodyOf, Bits.And, StageOf;
  }

  /** The one fragment a refusal as invalid is: final, empty, and saying so. */
  predicate SaysInvalid(f: Fragment, e: Event, stageID: uint32) {
    && f.kind == e.frame.eventKind && f.correlation == e.frame.correlation && !f.more
    && var m := DecodeMessage(f.payload);
       m == Some(Message(OP_RESULT, STATUS_INVALID_REQUEST, if stageID == 0 then 1 else stageID, 0, 0, 0, 0))
  }

  /** A request that breaks this is answered by one such fragment, if that gets out, and closes the assembly it would
      have been joined to; nothing else changes. */
  lemma BreakingIsRefused(cfg: Config, s: State, event: Event, now: uint64, sending: Sending) returns (f: Fragment)
    requires Breaks(cfg, s, event) && cfg.budget > MESSAGE_HEADER_LEN
    requires Enabled(cfg, s, PollEvent(event, now, sending))
    ensures SaysInvalid(f, event, StageOf(cfg, event.frame.eventKind))
    ensures Next(cfg, s, PollEvent(event, now, sending)) ==
      s.(assemblies := s.assemblies - {event.frame.correlation}, at := After(sending),
         log := s.log + [Polled(event, false)] + Out([f], sending))
  {
    hide Judge, Breaks, Out, DecodeMessage, Envelope, Possible;
    InvalidExactly(cfg, s, event, now);
    var stage := StageOf(cfg, event.frame.eventKind);
    var st := ReplyStream(event.frame.eventKind, event.frame.correlation, if stage == 0 then 1 else stage, 0,
                          STATUS_INVALID_REQUEST, []);
    f := Part(st, [], false);
    PartDecodes(st, [], false);
  }

  /** A result is replied to under the kind, correlation, stage and trace of its work. */
  lemma ResultSays(cfg: Config, o: Outcome, i: nat)
    requires cfg.budget > MESSAGE_HEADER_LEN && o.work.stageID != 0 && i < |ResultFragments(cfg, o)|
    ensures var f := ResultFragments(cfg, o)[i];
      && f.kind == o.work.eventKind && f.correlation == o.work.correlation && |Carried(f)| < 0x1_0000_0000
      && DecodeMessage(f.payload) ==
           Some(Message(OP_RESULT, SentStatus(o.status, o.body), o.work.stageID, 0, |Carried(f)|, 0, o.work.traceID))
  {
    hide DecodeMessage, Carried, ReplyFragments;
    ReplySays(cfg.budget, o.work.eventKind, o.work.correlation, o.work.stageID, o.work.traceID, o.status, o.body, i);
  }
}
