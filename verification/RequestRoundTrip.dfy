/** A request sent in fragments starts exactly one handler on exactly the request's body, however its
    fragments interleave with other traffic (server-go/bus/module_caller.go:134-163 against
    server-go/bus/module_runtime.go:357-427). */
module RequestRoundTrip {
  import opened Bytes
  import opened Options
  import opened Wire
  import opened ModuleProtocol
  import opened Events
  import opened Fragments
  import opened RuntimeModel
  import RuntimeLog
  import Bits

  /** The stream a send cuts its request into. */
  function InvokeStream(kind: uint32, correlation: uint64, stageID: uint32, deadlineNS: uint64,
                        traceID: uint64): Stream {
    Stream(kind, correlation, OP_INVOKE, STATUS_OK, stageID, deadlineNS, traceID)
  }

  /** What every fragment of a sent request says: the call's kind, correlation, stage, deadline and trace, and the
      length of its piece. */
  lemma RequestSays(kind: uint32, correlation: uint64, stageID: uint32, deadlineNS: uint64, traceID: uint64,
                    request: bytes, chunk: nat, i: nat)
    requires 0 < chunk < 0x1_0000_0000 && stageID != 0 && |request| <= MESSAGE_MAX_BODY
    requires i < |Cut(InvokeStream(kind, correlation, stageID, deadlineNS, traceID), request, chunk)|
    ensures var f := Cut(InvokeStream(kind, correlation, stageID, deadlineNS, traceID), request, chunk)[i];
      && f.kind == kind && f.correlation == correlation && |Carried(f)| < 0x1_0000_0000
      && DecodeMessage(f.payload) ==
           Some(Message(OP_INVOKE, STATUS_OK, stageID, 0, |Carried(f)|, deadlineNS, traceID))
  {
    var st := InvokeStream(kind, correlation, stageID, deadlineNS, traceID);
    CutIsFaithful(st, request, chunk);
    hide Cut, DecodeMessage, Piece, Carried;
    PieceSays(st, Cut(st, request, chunk)[i], chunk);
  }

  /** An event that delivers a request fragment. */
  predicate Delivers(e: Event, f: Fragment) {
    && RuntimeLog.RequestOf(e, f.correlation)
    && e.frame.eventKind == f.kind && e.payload == f.payload && (Has(e.frame.flags, F_MORE) <==> f.more)
  }

  /** The events of `c` among the polls of a run, in order. */
  function EventsFor(steps: seq<Step>, c: uint64): seq<Event> {
    if steps == [] then []
    else (if IsPollOf(steps[0], c) then [steps[0].event] else []) + EventsFor(steps[1..], c)
  }

  predicate IsPollOf(step: Step, c: uint64) { step.PollEvent? && step.event.frame.correlation == c }

  predicate InOrder(es: seq<Event>, fs: seq<Fragment>) {
    |es| == |fs| && forall i :: 0 <= i < |es| ==> Delivers(es[i], fs[i])
  }

  /** For each poll of `c` in a run, whether the assembly table has room for a new entry then. */
  function Rooms(cfg: Config, s: State, steps: seq<Step>, c: uint64): seq<bool>
    requires Runs(cfg, s, steps)
    decreases |steps|
  {
    if steps == [] then []
    else
      (if IsPollOf(steps[0], c) then [|s.assemblies| < MAX_IN_FLIGHT] else [])
      + Rooms(cfg, Next(cfg, s, steps[0]), steps[1..], c)
  }

  /** Whether a request that is whole may start its handler: none if so, else the status it is refused with. */
  function Admission(cfg: Config, jobs: map<uint64, Work>, deadlineNS: uint64, now: uint64): (r: Option<uint16>)
    ensures r.Some? ==> ValidStatus(r.value) && r.value != STATUS_OK
  {
    if deadlineNS != 0 && now >= deadlineNS then Some(STATUS_DEADLINE_EXCEEDED)
    else if !cfg.hasHandler then Some(STATUS_CAPABILITY_ABSENT)
    else if |jobs| >= MAX_IN_FLIGHT then Some(STATUS_INTERNAL)
    else None
  }

  /** The admission at the last poll of `c` in a run. */
  function LastAdmission(cfg: Config, s: State, steps: seq<Step>, c: uint64, deadlineNS: uint64): (r: Option<uint16>)
    requires Runs(cfg, s, steps)
    ensures r.Some? ==> ValidStatus(r.value) && r.value != STATUS_OK
    decreases |steps|
  {
    if steps == [] then None
    else if IsPollOf(steps[0], c) && EventsFor(steps[1..], c) == [] then
      Admission(cfg, s.jobs, deadlineNS, steps[0].now)
    else LastAdmission(cfg, Next(cfg, s, steps[0]), steps[1..], c, deadlineNS)
  }

  /** Whether the first fragment polled of `c` has an assembly to go to. */
  predicate HasPlace(cfg: Config, s: State, steps: seq<Step>, c: uint64)
    requires Runs(cfg, s, steps)
  {
    c in s.assemblies || Rooms(cfg, s, steps, c) == [] || Rooms(cfg, s, steps, c)[0]
  }

  /** Whether a request of this length is put together whole: its first fragment has a place, and it fits. */
  predicate ComesTogether(cfg: Config, s: State, steps: seq<Step>, c: uint64, length: nat)
    requires Runs(cfg, s, steps)
  {
    HasPlace(cfg, s, steps, c) && length <= MESSAGE_MAX_BODY
  }

  /** What becomes of the request of `c` whose fragments a run polls: refused if it does not come together, else the
      admission at its last fragment. */
  function Ruling(cfg: Config, s: State, steps: seq<Step>, c: uint64, deadlineNS: uint64, length: nat):
    (r: Option<uint16>)
    requires Runs(cfg, s, steps)
    ensures r.Some? ==> ValidStatus(r.value) && r.value != STATUS_OK
  {
    if ComesTogether(cfg, s, steps, c, length) then LastAdmission(cfg, s, steps, c, deadlineNS)
    else Some(STATUS_INTERNAL)
  }

  /** The handler starts of `c` in a history. */
  function Starts(log: seq<LogItem>, c: uint64): seq<LogItem> {
    if log == [] then []
    else
      var x := log[|log| - 1];
      Starts(log[..|log| - 1], c) + (if x.Started? && x.work.correlation == c then [x] else [])
  }

  lemma StartsSnoc(log: seq<LogItem>, x: LogItem, c: uint64)
    ensures Starts(log + [x], c) == Starts(log, c) + (if x.Started? && x.work.correlation == c then [x] else [])
  {
    assert (log + [x])[..|log|] == log;
  }

  lemma {:induction false} StartsQuiet(log: seq<LogItem>, more: seq<LogItem>, c: uint64)
    requires forall i :: 0 <= i < |more| ==> !(more[i].Started? && more[i].work.correlation == c)
    ensures Starts(log + more, c) == Starts(log, c)
  {
    if more == [] {
      assert log + more == log;
    } else {
      var n := |more| - 1;
      StartsQuiet(log, more[..n], c);
      assert log + more == (log + more[..n]) + [more[n]];
      StartsSnoc(log + more[..n], more[n], c);
    }
  }

  // ---- steps that are not about the correlation ----

  predicate SameFor(s: State, t: State, c: uint64) {
    && (c in t.assemblies <==> c in s.assemblies)
    && (c in s.assemblies ==> t.assemblies[c] == s.assemblies[c])
    && (c !in s.jobs ==> c !in t.jobs)
    && Starts(t.log, c) == Starts(s.log, c)
  }

  lemma OtherEvent(cfg: Config, s: State, event: Event, now: uint64, sending: Sending, c: uint64)
    requires event.frame.correlation != c
    ensures SameFor(s, OnEvent(cfg, s, event, now, sending), c)
  {
    hide Judge, RefusalFragments, Out, Starts;
    var t := OnEvent(cfg, s, event, now, sending);
    var v := Judge(cfg, s.assemblies, s.jobs, event, now);
    StartsSnoc(s.log, Polled(event, v.Absorb?), c);
    if v.Refuse? {
      OutIsReplies(RefusalFragments(cfg, event, v), sending);
      StartsQuiet(s.log + [Polled(event, false)], Out(RefusalFragments(cfg, event, v), sending), c);
    } else if v.Begin? {
      var x := t.log[|t.log| - 1];
      assert t.log == s.log + [Polled(event, false)] + [x];
      StartsSnoc(s.log + [Polled(event, false)], x, c);
    }
  }

  lemma OtherStep(cfg: Config, s: State, step: Step, c: uint64)
    requires Enabled(cfg, s, step) && !IsPollOf(step, c)
    ensures SameFor(s, Next(cfg, s, step), c)
  {
    hide OnEvent, Judge, ResultFragments, Out, Starts, Possible;
    match step
    case PollEvent(event, now, sending) => OtherEvent(cfg, s, event, now, sending, c);
    case Collect(sending) =>
      var o := s.done[0];
      StartsSnoc(s.log, Finished(o), c);
      OutIsReplies(ResultFragments(cfg, o), sending);
      StartsQuiet(s.log + [Finished(o)], Out(ResultFragments(cfg, o), sending), c);
    case Join => StartsSnoc(s.log, Finished(s.done[0]), c);
    case _ =>
  }

  lemma {:induction false} NothingMoreStarts(cfg: Config, s: State, steps: seq<Step>, c: uint64)
    requires Runs(cfg, s, steps) && EventsFor(steps, c) == []
    ensures Starts(Run(cfg, s, steps).log, c) == Starts(s.log, c)
    decreases |steps|
  {
    hide Next, Enabled, Starts;
    if steps != [] {
      OtherStep(cfg, s, steps[0], c);
      NothingMoreStarts(cfg, Next(cfg, s, steps[0]), steps[1..], c);
    }
  }

  // ---- the fragments of the correlation ----

  /** Before the first fragment, or with the pieces so far assembled under the stream's identity. */
  predicate Holding(s: State, st: Stream, pre: bytes, first: bool) {
    && st.correlation !in s.jobs
    && (if first then st.correlation !in s.assemblies && pre == []
        else
          && st.correlation in s.assemblies
          && var a := s.assemblies[st.correlation];
             a.body == pre && a.eventKind == st.kind && a.message.stageID == st.stageID
             && a.message.deadlineNS == st.deadlineNS && a.message.traceID == st.traceID)
  }

  predicate Served(cfg: Config, st: Stream) {
    st.operation == OP_INVOKE && SendableStream(st) && StageOf(cfg, st.kind) == st.stageID
  }

  /** What becomes of one fragment. */
  function Decision(cfg: Config, s: State, st: Stream, pre: bytes, first: bool, piece: bytes, more: bool,
                    now: uint64): Verdict
    requires Holding(s, st, pre, first) && |piece| <= MESSAGE_MAX_BODY
  {
    if first && |s.assemblies| >= MAX_IN_FLIGHT then Refuse(st.stageID, st.traceID, STATUS_INTERNAL)
    else if |pre| + |piece| > MESSAGE_MAX_BODY then Refuse(st.stageID, st.traceID, STATUS_INTERNAL)
    else if more then
      Absorb(if first then Assembly(st.kind, PartMessage(st, |piece|), piece)
             else s.assemblies[st.correlation].(body := pre + piece))
    else
      match Admission(cfg, s.jobs, st.deadlineNS, now)
      case None => Begin(PartMessage(st, |piece|), pre + piece)
      case Some(status) => Refuse(st.stageID, st.traceID, status)
  }

  lemma FragmentVerdict(cfg: Config, s: State, st: Stream, pre: bytes, first: bool, piece: bytes, more: bool,
                        e: Event, now: uint64)
    requires Served(cfg, st) && Holding(s, st, pre, first)
    requires |piece| <= MESSAGE_MAX_BODY && Delivers(e, Part(st, piece, more))
    ensures Judge(cfg, s.assemblies, s.jobs, e, now) == Decision(cfg, s, st, pre, first, piece, more, now)
    ensures e.frame.eventKind == st.kind && e.frame.correlation == st.correlation
  {
    PartDecodes(st, piece, more);
    hide DecodeMessage, BodyOf, Bits.And, Envelope;
    assert [] + piece == piece;
  }

  lemma HoldingFacts(s: State, st: Stream, pre: bytes, first: bool)
    requires Holding(s, st, pre, first)
    ensures st.correlation !in s.jobs && (st.correlation in s.assemblies <==> !first)
  {
  }

  lemma StillHolding(s: State, t: State, st: Stream, pre: bytes, first: bool)
    requires Holding(s, st, pre, first) && SameFor(s, t, st.correlation)
    ensures Holding(t, st, pre, first)
  {
  }

  lemma LaterInOrder(es: seq<Event>, fs: seq<Fragment>)
    requires InOrder(es, fs) && es != []
    ensures InOrder(es[1..], fs[1..])
  {
  }

  /** The pieces of a request are valid messages. */
  predicate PiecesFit(body: bytes, chunk: nat) { |body| <= MESSAGE_MAX_BODY || chunk <= MESSAGE_MAX_BODY }

  /** The body put together when the last of the pieces is taken, if it is, for an assembly that is open with
      `pre` or not open: a piece that finds no room for an assembly or carries the sum past the limit is refused,
      and the next one begins anew. */
  function LastAssembled(open: bool, pre: bytes, rest: bytes, chunk: nat, rooms: seq<bool>): Option<bytes>
    requires chunk > 0
    decreases |rest|
  {
    var piece := if |rest| <= chunk then rest else rest[..chunk];
    var taken := (open || rooms == [] || rooms[0]) && |pre| + |piece| <= MESSAGE_MAX_BODY;
    if |rest| <= chunk then (if taken then Some(pre + rest) else None)
    else
      LastAssembled(taken, if taken then pre + piece else [], rest[chunk..], chunk,
                    if rooms == [] then [] else rooms[1..])
  }

  /** One more handler start, on this body; or none. */
  predicate Adds(before: seq<LogItem>, after: seq<LogItem>, st: Stream, body: Option<bytes>) {
    match body
    case None => after == before
    case Some(b) => |after| == |before| + 1 && after[..|before|] == before && StartOf(st, after[|before|], b)
  }

  /** Exactly what the fragments of a request of any length start, among any other traffic, whatever the tables
      hold at any of them. */
  lemma {:induction false} FragmentsStart(
    cfg: Config, s: State, steps: seq<Step>, st: Stream, pre: bytes, first: bool, rest: bytes, chunk: nat)
    requires Served(cfg, st) && Holding(s, st, pre, first) && 0 < chunk < 0x1_0000_0000
    requires |pre| <= MESSAGE_MAX_BODY && PiecesFit(rest, chunk) && Runs(cfg, s, steps)
    requires InOrder(EventsFor(steps, st.correlation), Cut(st, rest, chunk))
    ensures Adds(Starts(s.log, st.correlation), Starts(Run(cfg, s, steps).log, st.correlation), st,
                 if LastAdmission(cfg, s, steps, st.correlation, st.deadlineNS).None?
                 then LastAssembled(!first, pre, rest, chunk, Rooms(cfg, s, steps, st.correlation)) else None)
    decreases |steps|
  {
    hide Next, Enabled, Starts, Delivers, Judge, Part, Holding, StartOf, Admission;
    var c := st.correlation;
    var es, fs := EventsFor(steps, c), Cut(st, rest, chunk);
    assert steps != [];
    var t := Next(cfg, s, steps[0]);
    var rooms := Rooms(cfg, s, steps, c);
    if !IsPollOf(steps[0], c) {
      OtherStep(cfg, s, steps[0], c);
      StillHolding(s, t, st, pre, first);
      assert rooms == Rooms(cfg, t, steps[1..], c);
      FragmentsStart(cfg, t, steps[1..], st, pre, first, rest, chunk);
    } else {
      assert es[0] == steps[0].event && es[1..] == EventsFor(steps[1..], c);
      assert Delivers(es[0], fs[0]);
      assert rooms[0] == (|s.assemblies| < MAX_IN_FLIGHT) && rooms[1..] == Rooms(cfg, t, steps[1..], c);
      if |rest| <= chunk {
        LastFragment(cfg, s, st, pre, first, rest, steps[0]);
        assert EventsFor(steps[1..], c) == [];
        NothingMoreStarts(cfg, t, steps[1..], c);
      } else {
        assert fs[1..] == Cut(st, rest[chunk..], chunk);
        LaterInOrder(es, fs);
        MiddleFragment(cfg, s, st, pre, first, rest[..chunk], steps[0]);
        if (!first || rooms[0]) && |pre| + chunk <= MESSAGE_MAX_BODY {
          FragmentsStart(cfg, t, steps[1..], st, pre + rest[..chunk], false, rest[chunk..], chunk);
        } else {
          FragmentsStart(cfg, t, steps[1..], st, [], true, rest[chunk..], chunk);
        }
      }
    }
  }

  predicate StartOf(st: Stream, x: LogItem, body: bytes) {
    && x.Started? && x.body == body && x.work.correlation == st.correlation && x.work.eventKind == st.kind
    && x.work.stageID == st.stageID && x.work.deadlineNS == st.deadlineNS && x.work.traceID == st.traceID
  }

  /** A fragment that is not refused outright. */
  predicate Taken(s: State, pre: bytes, first: bool, piece: bytes) {
    (!first || |s.assemblies| < MAX_IN_FLIGHT) && |pre| + |piece| <= MESSAGE_MAX_BODY
  }

  /** The last fragment starts the handler if it is taken and admitted. */
  lemma LastFragment(cfg: Config, s: State, st: Stream, pre: bytes, first: bool, piece: bytes, step: Step)
    requires Served(cfg, st) && Holding(s, st, pre, first) && |piece| <= MESSAGE_MAX_BODY
    requires Enabled(cfg, s, step) && IsPollOf(step, st.correlation) && Delivers(step.event, Part(st, piece, false))
    ensures Adds(Starts(s.log, st.correlation), Starts(Next(cfg, s, step).log, st.correlation), st,
                 if Admission(cfg, s.jobs, st.deadlineNS, step.now).None? && Taken(s, pre, first, piece)
                 then Some(pre + piece) else None)
  {
    hide Judge, Starts, Delivers, Admission, Part, RefusalFragments, Out;
    FragmentVerdict(cfg, s, st, pre, first, piece, false, step.event, step.now);
    var v := Judge(cfg, s.assemblies, s.jobs, step.event, step.now);
    if v.Refuse? {
      RefusedStartsNothing(cfg, s, step);
    } else {
      var t := Next(cfg, s, step);
      var polled := s.log + [Polled(step.event, false)];
      var x := t.log[|t.log| - 1];
      assert t.log == polled + [x];
      StartsSnoc(s.log, Polled(step.event, false), st.correlation);
      StartsSnoc(polled, x, st.correlation);
    }
  }

  lemma RefusedStartsNothing(cfg: Config, s: State, step: Step)
    requires Enabled(cfg, s, step) && step.PollEvent?
    requires Judge(cfg, s.assemblies, s.jobs, step.event, step.now).Refuse?
    ensures var c := step.event.frame.correlation;
      var t := Next(cfg, s, step);
      Starts(t.log, c) == Starts(s.log, c) && c !in t.assemblies && t.jobs == s.jobs
  {
    hide Judge, Starts, RefusalFragments, Out;
    var v := Judge(cfg, s.assemblies, s.jobs, step.event, step.now);
    var c := step.event.frame.correlation;
    StartsSnoc(s.log, Polled(step.event, false), c);
    OutIsReplies(RefusalFragments(cfg, step.event, v), step.sending);
    StartsQuiet(s.log + [Polled(step.event, false)], Out(RefusalFragments(cfg, step.event, v), step.sending), c);
  }

  /** A fragment that others follow is put with the rest, or refused and the assembly with it. */
  lemma MiddleFragment(cfg: Config, s: State, st: Stream, pre: bytes, first: bool, piece: bytes, step: Step)
    requires Served(cfg, st) && Holding(s, st, pre, first) && |piece| <= MESSAGE_MAX_BODY
    requires Enabled(cfg, s, step) && IsPollOf(step, st.correlation) && Delivers(step.event, Part(st, piece, true))
    ensures var t := Next(cfg, s, step);
      && Starts(t.log, st.correlation) == Starts(s.log, st.correlation)
      && if Taken(s, pre, first, piece) then Holding(t, st, pre + piece, false) else Holding(t, st, [], true)
  {
    hide Judge, Starts, Delivers, Part, RefusalFragments, Out;
    FragmentVerdict(cfg, s, st, pre, first, piece, true, step.event, step.now);
    if Taken(s, pre, first, piece) {
      StartsSnoc(s.log, Polled(step.event, true), st.correlation);
      assert [] + piece == piece;
    } else {
      RefusedStartsNothing(cfg, s, step);
    }
  }

  /** A completed send of any body up to 16 MiB, cut for any budget, starts one handler on exactly that body
      with the stream's stage, deadline and trace if its first fragment finds room to be assembled and it is
      admitted when its last is polled: the result does not depend on the chunk size, nor on what else the loop
      and the handlers do in between, nor on jobs, deadline and room at any other fragment. If it is not admitted
      no handler starts. */
  lemma RequestStartsOneHandler(cfg: Config, s: State, steps: seq<Step>, kind: uint32, c: uint64,
                                stageID: uint32, deadlineNS: uint64, traceID: uint64, request: bytes,
                                budget: uint32)
    requires budget > MESSAGE_HEADER_LEN && |request| <= MESSAGE_MAX_BODY
    requires stageID != 0 && StageOf(cfg, kind) == stageID
    requires c !in s.assemblies && c !in s.jobs && Runs(cfg, s, steps)
    requires var st := InvokeStream(kind, c, stageID, deadlineNS, traceID);
      InOrder(EventsFor(steps, c), Cut(st, request, budget - MESSAGE_HEADER_LEN))
    ensures HasPlace(cfg, s, steps, c) || LastAdmission(cfg, s, steps, c, deadlineNS).Some? ==>
      Adds(Starts(s.log, c), Starts(Run(cfg, s, steps).log, c),
           InvokeStream(kind, c, stageID, deadlineNS, traceID),
           if Ruling(cfg, s, steps, c, deadlineNS, |request|).None? then Some(request) else None)
  {
    hide Runs, Run, InOrder, EventsFor, Cut, Starts, LastAdmission, Rooms, LastAssembled;
    var st := InvokeStream(kind, c, stageID, deadlineNS, traceID);
    FragmentsStart(cfg, s, steps, st, [], true, request, budget - MESSAGE_HEADER_LEN);
    if HasPlace(cfg, s, steps, c) {
      WholeIsAssembled(false, [], request, budget - MESSAGE_HEADER_LEN, Rooms(cfg, s, steps, c));
      assert [] + request == request;
    }
  }

  lemma {:induction false} WholeIsAssembled(open: bool, pre: bytes, rest: bytes, chunk: nat, rooms: seq<bool>)
    requires chunk > 0 && |pre| + |rest| <= MESSAGE_MAX_BODY && (open || rooms == [] || rooms[0])
    ensures LastAssembled(open, pre, rest, chunk, rooms) == Some(pre + rest)
    decreases |rest|
  {
    if |rest| > chunk {
      WholeIsAssembled(true, pre + rest[..chunk], rest[chunk..], chunk, if rooms == [] then [] else rooms[1..]);
      assert pre + rest[..chunk] + rest[chunk..] == pre + rest;
    }
  }

  // ---- requests past the limit ----

  /** The bytes from one assembly's beginning to the next one's: as many pieces as fit, and the one refused. */
  function Cycle(chunk: nat): (n: nat)
    requires chunk > 0
    ensures n > MESSAGE_MAX_BODY && n - chunk <= MESSAGE_MAX_BODY && n % chunk == 0
  {
    assert (MESSAGE_MAX_BODY / chunk + 1) * chunk == MESSAGE_MAX_BODY / chunk * chunk + chunk;
    Bits.RemainderUnique((MESSAGE_MAX_BODY / chunk + 1) * chunk, MESSAGE_MAX_BODY / chunk + 1, chunk, 0);
    (MESSAGE_MAX_BODY / chunk + 1) * chunk
  }

  /** How much of a request of this length is before its last cycle. */
  function Dropped(length: nat, chunk: nat): (n: nat)
    requires chunk > 0
    ensures n <= length <= n + Cycle(chunk) && (length > 0 ==> n < length)
  {
    if length <= Cycle(chunk) then 0 else Dropped(length - Cycle(chunk), chunk) + Cycle(chunk)
  }

  /** It is whole cycles, which with its bounds says how many. */
  lemma {:induction false} DroppedIsCycles(length: nat, chunk: nat)
    requires chunk > 0
    ensures Dropped(length, chunk) % Cycle(chunk) == 0
  {
    if length > Cycle(chunk) {
      DroppedIsCycles(length - Cycle(chunk), chunk);
      var n := Dropped(length - Cycle(chunk), chunk);
      Bits.RemainderUnique(n + Cycle(chunk), n / Cycle(chunk) + 1, Cycle(chunk), 0);
    }
  }

  /** What is put together last of a request of any length: what its last cycle holds, unless even that is
      past the limit. */
  function Tail(request: bytes, chunk: nat): Option<bytes>
    requires chunk > 0
  {
    var tail := request[Dropped(|request|, chunk)..];
    if |tail| <= MESSAGE_MAX_BODY then Some(tail) else None
  }

  predicate WholePieces(n: nat, chunk: nat)
    requires chunk > 0
  {
    n % chunk == 0
  }

  lemma CycleIs(k: nat, chunk: nat)
    requires chunk > 0 && k * chunk <= MESSAGE_MAX_BODY
    ensures (k + 1) * chunk <= Cycle(chunk)
    ensures (k + 1) * chunk > MESSAGE_MAX_BODY ==> (k + 1) * chunk == Cycle(chunk)
  {
    var q := MESSAGE_MAX_BODY / chunk;
    if k > q { Bits.MultipleAtLeast(k - q, chunk); }
    if k < q { Bits.MultipleAtLeast(q - k, chunk); }
  }

  /** Whole pieces within the limit, and one more that is past it: that is a cycle. */
  lemma OneMorePiece(n: nat, chunk: nat)
    requires chunk > 0 && WholePieces(n, chunk) && n <= MESSAGE_MAX_BODY
    ensures WholePieces(0, chunk) && WholePieces(n + chunk, chunk) && n + chunk <= Cycle(chunk)
    ensures n + chunk > MESSAGE_MAX_BODY ==> n + chunk == Cycle(chunk)
  {
    hide Cycle;
    var k := n / chunk;
    assert n == k * chunk;
    assert (k + 1) * chunk == k * chunk + chunk;
    CycleIs(k, chunk);
    Bits.RemainderUnique(n + chunk, k + 1, chunk, 0);
  }

  predicate AllRoom(rooms: seq<bool>) { forall i :: 0 <= i < |rooms| ==> rooms[i] }

  lemma {:induction false} AssembledIsTail(open: bool, pre: bytes, rest: bytes, chunk: nat, rooms: seq<bool>)
    requires chunk > 0 && WholePieces(|pre|, chunk) && |pre| <= MESSAGE_MAX_BODY && AllRoom(rooms)
    ensures LastAssembled(open, pre, rest, chunk, rooms) == Tail(pre + rest, chunk)
    decreases |rest|
  {
    hide Cycle, WholePieces;
    OneMorePiece(|pre|, chunk);
    var later := if rooms == [] then [] else rooms[1..];
    if |rest| <= chunk {
    } else if |pre| + chunk <= MESSAGE_MAX_BODY {
      AssembledIsTail(true, pre + rest[..chunk], rest[chunk..], chunk, later);
      assert pre + rest[..chunk] + rest[chunk..] == pre + rest;
    } else {
      AssembledIsTail(false, [], rest[chunk..], chunk, later);
      assert [] + rest[chunk..] == rest[chunk..];
      TailSkipsCycle(pre, rest, chunk);
    }
  }

  lemma TailSkipsCycle(pre: bytes, rest: bytes, chunk: nat)
    requires chunk > 0 && |pre| + chunk == Cycle(chunk) && |rest| > chunk
    ensures Tail(pre + rest, chunk) == Tail(rest[chunk..], chunk)
  {
    hide Cycle;
    var d := Dropped(|rest| - chunk, chunk);
    assert (pre + rest)[d + Cycle(chunk)..] == rest[chunk..][d..];
  }

  /** A request longer than any module accepts, which a call lets through if its length is small modulo `2^32`,
      does start a handler: not on the request, but on its last cycle, and exactly if that fits the limit and is
      admitted. */
  lemma OversizedStartsOnTail(cfg: Config, s: State, steps: seq<Step>, st: Stream, request: bytes, chunk: nat)
    requires Served(cfg, st) && 0 < chunk < 0x1_0000_0000 && PiecesFit(request, chunk)
    requires st.correlation !in s.assemblies && st.correlation !in s.jobs
    requires Runs(cfg, s, steps) && AllRoom(Rooms(cfg, s, steps, st.correlation))
    requires InOrder(EventsFor(steps, st.correlation), Cut(st, request, chunk))
    ensures Adds(Starts(s.log, st.correlation), Starts(Run(cfg, s, steps).log, st.correlation), st,
                 if LastAdmission(cfg, s, steps, st.correlation, st.deadlineNS).None? then Tail(request, chunk)
                 else None)
  {
    hide Runs, Run, Rooms, InOrder, EventsFor, Cut, Starts, LastAdmission, Tail, LastAssembled, AllRoom;
    FragmentsStart(cfg, s, steps, st, [], true, request, chunk);
    AssembledIsTail(false, [], request, chunk, Rooms(cfg, s, steps, st.correlation));
    assert [] + request == request;
  }

  /** The smallest such request, of `2^32` bytes, in pieces of 64: its handler starts on the last 16760896. */
  lemma FourGigabytes(request: bytes)
    requires |request| == 0x1_0000_0000
    ensures Tail(request, 64) == Some(request[0xff00_3fc0..])
  {
    var cycle := 0x100_0040;
    assert Cycle(64) == cycle;
    var n := Dropped(0x1_0000_0000, 64);
    DroppedIsCycles(0x1_0000_0000, 64);
    assert n == n / cycle * cycle;
  }
}
