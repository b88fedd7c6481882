/** What open assemblies cost: they have no deadline of their own, so sixteen requests left unfinished keep every
    other request out (server-go/bus/module_runtime.go:372-382; a caller whose send fails returns without a
    cancel, server-go/bus/module_caller.go:114-116). */
module RuntimeStarvation {
  import opened Bytes
  import opened Wire
  import opened ModuleProtocol
  import opened Events
  import opened Fragments
  import opened RuntimeModel
  import opened RequestRoundTrip
  import opened SendableReplies

  /** No event of these correlations is polled. */
  predicate Silent(steps: seq<Step>, cs: set<uint64>) {
    forall i :: 0 <= i < |steps| && steps[i].PollEvent? ==> steps[i].event.frame.correlation !in cs
  }

  /** The history has grown, without a handler being started. */
  predicate NothingStarted(before: seq<LogItem>, after: seq<LogItem>) {
    before <= after && forall i :: |before| <= i < |after| ==> !after[i].Started?
  }

  lemma OutStartsNothing(log: seq<LogItem>, x: LogItem, more: seq<LogItem>)
    requires !x.Started? && forall i :: 0 <= i < |more| ==> !more[i].Started?
    ensures NothingStarted(log, log + [x] + more)
  {
  }

  lemma StartsNothingTwice(a: seq<LogItem>, b: seq<LogItem>, c: seq<LogItem>)
    requires NothingStarted(a, b) && NothingStarted(b, c)
    ensures NothingStarted(a, c)
  {
  }

  /** With the table full, an event of a new correlation is refused, ignored, or a cancel of nothing. */
  lemma EventStartsNothing(cfg: Config, s: State, event: Event, now: uint64, sending: Sending)
    requires |s.assemblies| >= MAX_IN_FLIGHT && event.frame.correlation !in s.assemblies
    ensures var t := OnEvent(cfg, s, event, now, sending);
      t.assemblies == s.assemblies && NothingStarted(s.log, t.log)
    ensures Has(event.frame.flags, F_REQUEST) && !Has(event.frame.flags, F_CANCEL) ==>
      Judge(cfg, s.assemblies, s.jobs, event, now).Refuse?
  {
    JudgeFacts(cfg, s.assemblies, s.jobs, event, now);
    hide Judge, RefusalFragments, Out, Has, Invalid, DecodeMessage, BodyOf, StageOf;
    var v := Judge(cfg, s.assemblies, s.jobs, event, now);
    assert s.assemblies - {event.frame.correlation} == s.assemblies;
    var polled := Polled(event, v.Absorb?);
    if v.Refuse? {
      OutIsReplies(RefusalFragments(cfg, event, v), sending);
      OutStartsNothing(s.log, polled, Out(RefusalFragments(cfg, event, v), sending));
    } else {
      OutStartsNothing(s.log, polled, []);
      assert s.log + [polled] + [] == s.log + [polled];
    }
  }

  lemma StepStartsNothing(cfg: Config, s: State, step: Step)
    requires |s.assemblies| >= MAX_IN_FLIGHT && Enabled(cfg, s, step)
    requires step.PollEvent? ==> step.event.frame.correlation !in s.assemblies
    ensures var t := Next(cfg, s, step);
      t.assemblies == s.assemblies && NothingStarted(s.log, t.log)
  {
    hide OnEvent, Judge, ResultFragments, Out, Possible;
    match step
    case PollEvent(event, now, sending) => EventStartsNothing(cfg, s, event, now, sending);
    case Collect(sending) =>
      OutIsReplies(ResultFragments(cfg, s.done[0]), sending);
      OutStartsNothing(s.log, Finished(s.done[0]), Out(ResultFragments(cfg, s.done[0]), sending));
    case _ =>
  }

  /** Once sixteen assemblies are open, and for as long as no event of their own correlations comes, they all stay
      open and no handler is started, for any correlation, whatever else is polled and however long it goes on. */
  lemma {:induction false} FullTableStartsNothing(cfg: Config, s: State, steps: seq<Step>)
    requires |s.assemblies| >= MAX_IN_FLIGHT && Runs(cfg, s, steps) && Silent(steps, s.assemblies.Keys)
    ensures var t := Run(cfg, s, steps);
      t.assemblies == s.assemblies && NothingStarted(s.log, t.log)
    decreases |steps|
  {
    hide Next, Enabled, NothingStarted;
    if steps == [] {
      SameLog(s.log);
    } else {
      var t := Next(cfg, s, steps[0]);
      StepStartsNothing(cfg, s, steps[0]);
      FullTableStartsNothing(cfg, t, steps[1..]);
      StartsNothingTwice(s.log, t.log, Run(cfg, s, steps).log);
    }
  }

  lemma SameLog(log: seq<LogItem>)
    ensures NothingStarted(log, log)
  {
  }

  /** An assembly is there until an event of its own correlation: it never times out. */
  lemma {:induction false} AssemblyStays(cfg: Config, s: State, steps: seq<Step>, c: uint64)
    requires c in s.assemblies && Runs(cfg, s, steps) && EventsFor(steps, c) == []
    ensures c in Run(cfg, s, steps).assemblies && Run(cfg, s, steps).assemblies[c] == s.assemblies[c]
    decreases |steps|
  {
    hide Next, Enabled;
    if steps != [] {
      OtherStep(cfg, s, steps[0], c);
      AssemblyStays(cfg, Next(cfg, s, steps[0]), steps[1..], c);
    }
  }

  // ---- sixteen unfinished requests ----

  /** The first fragment, of one byte with more to follow, of the request on correlation `i + 1`. */
  function Unfinished(kind: uint32, stageID: uint32, i: nat): Fragment
    requires i < MAX_IN_FLIGHT
  {
    Part(InvokeStream(kind, i + 1, stageID, 0, 0), [0], true)
  }

  lemma UnfinishedIsEmittable(kind: uint32, stageID: uint32, i: nat)
    requires i < MAX_IN_FLIGHT
    ensures var f := Unfinished(kind, stageID, i);
      Emittable(f) && f.correlation == i + 1 && |f.payload| == MESSAGE_HEADER_LEN + 1
  {
    hide Envelope;
  }

  /** The loop looks for results, then polls that fragment as the peer sees it. */
  function Opening(kind: uint32, stageID: uint32, handle: uint32, i: nat): seq<Step>
    requires i < MAX_IN_FLIGHT
  {
    UnfinishedIsEmittable(kind, stageID, i);
    [NothingToCollect, PollEvent(SeenAs(F_REQUEST, Unfinished(kind, stageID, i), handle), 0, AllSent)]
  }

  function Filling(kind: uint32, stageID: uint32, handle: uint32, n: nat): seq<Step>
    requires n <= MAX_IN_FLIGHT
  {
    if n == 0 then [] else Filling(kind, stageID, handle, n - 1) + Opening(kind, stageID, handle, n - 1)
  }

  /** Correlations 1 to `n` have an open assembly and nothing else is going on. */
  ghost predicate FilledTo(s: State, n: nat) {
    && s.at.Draining? && s.done == [] && s.jobs == map[] && |s.assemblies| == n
    && (forall c :: c in s.assemblies <==> 1 <= c <= n) && NothingStarted([], s.log)
  }

  lemma OneMoreIsPolled(cfg: Config, s: State, kind: uint32, stageID: uint32, handle: uint32, n: nat)
    requires stageID != 0 && StageOf(cfg, kind) == stageID && n < MAX_IN_FLIGHT && FilledTo(s, n)
    ensures var ready, step := s.(at := Ready), Opening(kind, stageID, handle, n)[1];
      Enabled(cfg, ready, step) && FilledTo(Next(cfg, ready, step), n + 1)
  {
    hide Judge, Part, Has, SeenAs, RefusalFragments, Out, Possible, StageOf, DecodeMessage, BodyOf, ResultFragments;
    UnfinishedIsEmittable(kind, stageID, n);
    var f, st := Unfinished(kind, stageID, n), InvokeStream(kind, n + 1, stageID, 0, 0);
    var ready := s.(at := Ready);
    var step := PollEvent(SeenAs(F_REQUEST, f, handle), 0, AllSent);
    SeenFragmentDelivers(F_REQUEST, f, handle);
    FragmentVerdict(cfg, ready, st, [], true, [0], true, step.event, 0);
    assert Next(cfg, ready, step).log == s.log + [Polled(step.event, true)];
  }

  lemma OneMoreOpens(cfg: Config, s: State, kind: uint32, stageID: uint32, handle: uint32, n: nat)
    requires stageID != 0 && StageOf(cfg, kind) == stageID && n < MAX_IN_FLIGHT && FilledTo(s, n)
    ensures Runs(cfg, s, Opening(kind, stageID, handle, n))
    ensures FilledTo(Run(cfg, s, Opening(kind, stageID, handle, n)), n + 1)
  {
    hide Next, Enabled, Runs, Run, Part, SeenAs, StageOf, NothingStarted;
    OneMoreIsPolled(cfg, s, kind, stageID, handle, n);
    LoopLooks(cfg, s);
    TwoSteps(cfg, s, NothingToCollect, Opening(kind, stageID, handle, n)[1]);
  }

  lemma LoopLooks(cfg: Config, s: State)
    requires s.at.Draining? && s.done == []
    ensures Enabled(cfg, s, NothingToCollect) && Next(cfg, s, NothingToCollect) == s.(at := Ready)
  {
  }

  lemma TwoSteps(cfg: Config, s: State, a: Step, b: Step)
    requires Enabled(cfg, s, a) && Enabled(cfg, Next(cfg, s, a), b)
    ensures Runs(cfg, s, [a, b]) && Run(cfg, s, [a, b]) == Next(cfg, Next(cfg, s, a), b)
  {
    hide Next, Enabled;
    var t := Next(cfg, s, a);
    assert [a, b][1..] == [b] && [b][1..] == [];
    assert Runs(cfg, t, [b]) && Run(cfg, t, [b]) == Next(cfg, t, b);
  }

  /** From the start, sixteen valid frames open sixteen assemblies, on any kind that is served. */
  lemma {:induction false} TableFills(cfg: Config, kind: uint32, stageID: uint32, handle: uint32, n: nat)
    requires stageID != 0 && StageOf(cfg, kind) == stageID && n <= MAX_IN_FLIGHT
    ensures var steps := Filling(kind, stageID, handle, n);
      Runs(cfg, INITIAL, steps) && FilledTo(Run(cfg, INITIAL, steps), n)
  {
    hide Next, Enabled, Opening, StageOf;
    if n > 0 {
      var before := Filling(kind, stageID, handle, n - 1);
      TableFills(cfg, kind, stageID, handle, n - 1);
      OneMoreOpens(cfg, Run(cfg, INITIAL, before), kind, stageID, handle, n - 1);
      RunJoin(cfg, INITIAL, before, Opening(kind, stageID, handle, n - 1));
    }
  }

  lemma {:induction false} FillingIsReal(kind: uint32, stageID: uint32, handle: uint32, n: nat, budget: uint32,
                                         slotSize: uint32)
    requires stageID != 0 && n <= MAX_IN_FLIGHT && SoundBudget(budget, slotSize)
    ensures FromDecoder(Filling(kind, stageID, handle, n))
  {
    hide Part, SeenAs, FromSlot, DecodeMessage, Sendable;
    if n > 0 {
      FillingIsReal(kind, stageID, handle, n - 1, budget, slotSize);
      UnfinishedIsEmittable(kind, stageID, n - 1);
      var f := Unfinished(kind, stageID, n - 1);
      PartDecodes(InvokeStream(kind, n, stageID, 0, 0), [0], true);
      FragmentIsSendable(F_REQUEST, budget, slotSize, f);
      SeenIsFromSlot(F_REQUEST, budget, slotSize, f, handle);
    }
  }

  /** So sixteen frames that slots of the ring decode to, one byte of body each, are enough: no handler is started
      from then on, nor was one before, for as long as nothing more is heard of those sixteen. */
  lemma SixteenKeepOthersOut(cfg: Config, kind: uint32, stageID: uint32, handle: uint32, budget: uint32,
                             slotSize: uint32, later: seq<Step>)
    requires stageID != 0 && StageOf(cfg, kind) == stageID && SoundBudget(budget, slotSize)
    requires Runs(cfg, INITIAL, Filling(kind, stageID, handle, MAX_IN_FLIGHT) + later)
    requires forall i :: 0 <= i < |later| && later[i].PollEvent? ==> !(1 <= later[i].event.frame.correlation <= 16)
    ensures Runs(cfg, INITIAL, Filling(kind, stageID, handle, MAX_IN_FLIGHT))
    ensures FromDecoder(Filling(kind, stageID, handle, MAX_IN_FLIGHT))
    ensures var t := Run(cfg, INITIAL, Filling(kind, stageID, handle, MAX_IN_FLIGHT) + later);
      NothingStarted([], t.log) && |t.assemblies| == 16
  {
    hide Runs, Run, Filling, NothingStarted, StageOf, FromDecoder;
    var filling := Filling(kind, stageID, handle, MAX_IN_FLIGHT);
    TableFills(cfg, kind, stageID, handle, MAX_IN_FLIGHT);
    FillingIsReal(kind, stageID, handle, MAX_IN_FLIGHT, budget, slotSize);
    RunJoin(cfg, INITIAL, filling, later);
    var full := Run(cfg, INITIAL, filling);
    FullTableStartsNothing(cfg, full, later);
    StartsNothingTwice([], full.log, Run(cfg, full, later).log);
  }

  // ---- a send given up ----

  lemma LastFragmentCloses(cfg: Config, s: State, st: Stream, pre: bytes, first: bool, piece: bytes, step: Step)
    requires Served(cfg, st) && Holding(s, st, pre, first) && |piece| <= MESSAGE_MAX_BODY
    requires Enabled(cfg, s, step) && IsPollOf(step, st.correlation) && Delivers(step.event, Part(st, piece, false))
    ensures st.correlation !in Next(cfg, s, step).assemblies
  {
    hide Judge, Delivers, Part, RefusalFragments, Out, Possible;
    FragmentVerdict(cfg, s, st, pre, first, piece, false, step.event, step.now);
  }

  lemma {:induction false} StaysClosed(cfg: Config, s: State, steps: seq<Step>, c: uint64)
    requires c !in s.assemblies && Runs(cfg, s, steps) && EventsFor(steps, c) == []
    ensures c !in Run(cfg, s, steps).assemblies
    decreases |steps|
  {
    hide Next, Enabled;
    if steps != [] {
      OtherStep(cfg, s, steps[0], c);
      StaysClosed(cfg, Next(cfg, s, steps[0]), steps[1..], c);
    }
  }

  /** A send that is given up after `k` fragments leaves its assembly open exactly if these do not include the last
      and one of them found room, however the run goes on without it. */
  lemma {:induction false} AbortedSendStaysOpen(cfg: Config, s: State, steps: seq<Step>, st: Stream, pre: bytes,
                                                first: bool, rest: bytes, chunk: nat, k: nat)
    requires Served(cfg, st) && Holding(s, st, pre, first) && 0 < chunk < 0x1_0000_0000
    requires |pre| + |rest| <= MESSAGE_MAX_BODY && k <= |Cut(st, rest, chunk)|
    requires Runs(cfg, s, steps) && InOrder(EventsFor(steps, st.correlation), Cut(st, rest, chunk)[..k])
    ensures st.correlation in Run(cfg, s, steps).assemblies <==>
      k < |Cut(st, rest, chunk)| && (!first || true in Rooms(cfg, s, steps, st.correlation))
    decreases |steps|
  {
    hide Next, Enabled, Delivers, Judge, Part, Starts, Holding;
    var c := st.correlation;
    var es, fs := EventsFor(steps, c), Cut(st, rest, chunk);
    HoldingFacts(s, st, pre, first);
    if steps != [] {
      var t := Next(cfg, s, steps[0]);
      if !IsPollOf(steps[0], c) {
        OtherStep(cfg, s, steps[0], c);
        StillHolding(s, t, st, pre, first);
        AbortedSendStaysOpen(cfg, t, steps[1..], st, pre, first, rest, chunk, k);
      } else {
        assert es[0] == steps[0].event && es[1..] == EventsFor(steps[1..], c);
        assert fs[..k][0] == fs[0] && Delivers(es[0], fs[0]);
        if |rest| <= chunk {
          LastFragmentCloses(cfg, s, st, pre, first, rest, steps[0]);
          assert EventsFor(steps[1..], c) == [];
          StaysClosed(cfg, t, steps[1..], c);
        } else {
          MiddleFragment(cfg, s, st, pre, first, rest[..chunk], steps[0]);
          assert fs[1..] == Cut(st, rest[chunk..], chunk) && fs[..k][1..] == fs[1..][..k - 1];
          LaterInOrder(es, fs[..k]);
          if Taken(s, pre, first, rest[..chunk]) {
            AbortedSendStaysOpen(cfg, t, steps[1..], st, pre + rest[..chunk], false, rest[chunk..], chunk, k - 1);
          } else {
            AbortedSendStaysOpen(cfg, t, steps[1..], st, [], true, rest[chunk..], chunk, k - 1);
          }
        }
      }
    }
  }
}
