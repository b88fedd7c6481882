/** What the serving loop does, read off its history: assemblies are folds over the fragments accepted since
    their last reset, handlers start on exactly such a fold, and every request is answered once. */
module RuntimeLog {
  import opened Bytes
  import opened Wire
  import opened ModuleProtocol
  import opened Events
  import opened Fragments
  import opened RuntimeModel
  import opened RuntimeTables
  import Bits

  predicate CancelOf(e: Event, c: uint64) { e.frame.correlation == c && Has(e.frame.flags, F_CANCEL) }

  predicate RequestOf(e: Event, c: uint64) {
    e.frame.correlation == c && !Has(e.frame.flags, F_CANCEL) && Has(e.frame.flags, F_REQUEST)
  }

  /** The body piece of a request event. */
  function PieceOf(e: Event): bytes {
    if DecodeMessage(e.payload).Some? then BodyOf(e.payload) else []
  }

  /** One history item's effect on what correlation `c` has accumulated. */
  function Fold1(acc: bytes, x: LogItem, c: uint64): bytes {
    if !x.Polled? then acc
    else if CancelOf(x.event, c) then []
    else if !RequestOf(x.event, c) then acc
    else if x.absorbed then acc + PieceOf(x.event)
    else []
  }

  /** The accepted pieces of `c`, joined, since its last reset: a cancel, a rejection or a completion. */
  function Fold(log: seq<LogItem>, c: uint64): bytes {
    if log == [] then [] else Fold1(Fold(log[..|log| - 1], c), log[|log| - 1], c)
  }

  /** Whether the last thing that happened to `c` was that a fragment of it was absorbed. */
  function Open(log: seq<LogItem>, c: uint64): bool {
    if log == [] then false
    else
      var x := log[|log| - 1];
      if x.Polled? && (CancelOf(x.event, c) || RequestOf(x.event, c)) then RequestOf(x.event, c) && x.absorbed
      else Open(log[..|log| - 1], c)
  }

  lemma Snoc(log: seq<LogItem>, x: LogItem, c: uint64)
    ensures Fold(log + [x], c) == Fold1(Fold(log, c), x, c)
    ensures Open(log + [x], c) ==
              if x.Polled? && (CancelOf(x.event, c) || RequestOf(x.event, c))
              then RequestOf(x.event, c) && x.absorbed else Open(log, c)
  {
    assert (log + [x])[..|log|] == log;
  }

  /** Items that are not polls do not touch the fold. */
  lemma {:induction false} QuietItems(log: seq<LogItem>, more: seq<LogItem>, c: uint64)
    requires forall i :: 0 <= i < |more| ==> !more[i].Polled?
    ensures Fold(log + more, c) == Fold(log, c) && Open(log + more, c) == Open(log, c)
  {
    if more == [] {
      assert log + more == log;
    } else {
      var n := |more| - 1;
      QuietItems(log, more[..n], c);
      assert log + more == (log + more[..n]) + [more[n]];
      Snoc(log + more[..n], more[n], c);
    }
  }

  /** The open assemblies are the open folds. */
  predicate Folded(s: State, c: uint64) {
    && SoFar(s.assemblies, c) == Fold(s.log, c)
    && (c in s.assemblies <==> Open(s.log, c))
  }

  /** A start directly follows the poll of its last fragment, and its body is the fold before that fragment
      followed by the fragment's piece. */
  predicate StartAt(log: seq<LogItem>, i: nat)
    requires i < |log| && log[i].Started?
  {
    && i > 0 && log[i - 1].Polled? && !log[i - 1].absorbed
    && var c := log[i].work.correlation;
       var e := log[i - 1].event;
       RequestOf(e, c) && !Has(e.frame.flags, F_MORE)
       && log[i].body == Fold(log[..i - 1], c) + PieceOf(e)
       && |log[i].body| <= MESSAGE_MAX_BODY
  }

  predicate StartsAreFolds(log: seq<LogItem>) {
    forall i :: 0 <= i < |log| && log[i].Started? ==> StartAt(log, i)
  }

  lemma StartsExtend(log: seq<LogItem>, more: seq<LogItem>)
    requires StartsAreFolds(log) && forall i :: 0 <= i < |more| ==> !more[i].Started?
    ensures StartsAreFolds(log + more)
  {
    var all := log + more;
    forall i | 0 <= i < |all| && all[i].Started?
      ensures StartAt(all, i)
    {
      assert i < |log| && all[i] == log[i];
      assert StartAt(log, i);
      assert all[..i - 1] == log[..i - 1];
    }
  }

  lemma StartsBegin(log: seq<LogItem>, e: Event, w: Work, body: bytes)
    requires StartsAreFolds(log) && RequestOf(e, w.correlation) && !Has(e.frame.flags, F_MORE)
    requires body == Fold(log, w.correlation) + PieceOf(e) && |body| <= MESSAGE_MAX_BODY
    ensures StartsAreFolds(log + [Polled(e, false), Started(w, body)])
  {
    StartsExtend(log, [Polled(e, false)]);
    var n := |log|;
    var all := log + [Polled(e, false), Started(w, body)];
    forall i | 0 <= i < |all| && all[i].Started?
      ensures StartAt(all, i)
    {
      if i < n {
        assert all[i] == log[i];
        assert StartAt(log, i);
        assert all[..i - 1] == log[..i - 1];
      } else {
        assert all[..n] == log;
      }
    }
  }

  // ---- one answer per request ----

  /** Final replies to `c`. */
  function Answers(log: seq<LogItem>, c: uint64): nat {
    if log == [] then 0
    else Answers(log[..|log| - 1], c) + AnswerIn(log[|log| - 1], c)
  }

  function AnswerIn(x: LogItem, c: uint64): nat {
    if x.Replied? && x.fragment.correlation == c && !x.fragment.more then 1 else 0
  }

  /** Request events of `c` that were not absorbed as a partial fragment. */
  function Questions(log: seq<LogItem>, c: uint64): nat {
    if log == [] then 0
    else Questions(log[..|log| - 1], c) + QuestionIn(log[|log| - 1], c)
  }

  function QuestionIn(x: LogItem, c: uint64): nat {
    if x.Polled? && RequestOf(x.event, c) && !x.absorbed then 1 else 0
  }

  lemma CountSnoc(log: seq<LogItem>, x: LogItem, c: uint64)
    ensures Answers(log + [x], c) == Answers(log, c) + AnswerIn(x, c)
    ensures Questions(log + [x], c) == Questions(log, c) + QuestionIn(x, c)
  {
    assert (log + [x])[..|log|] == log;
  }

  lemma {:induction false} CountAppend(log: seq<LogItem>, more: seq<LogItem>, c: uint64)
    ensures Answers(log + more, c) == Answers(log, c) + Answers(more, c)
    ensures Questions(log + more, c) == Questions(log, c) + Questions(more, c)
  {
    if more == [] {
      assert log + more == log;
    } else {
      var n := |more| - 1;
      CountAppend(log, more[..n], c);
      assert log + more == (log + more[..n]) + [more[n]];
      CountSnoc(log + more[..n], more[n], c);
    }
  }

  lemma CountOne(x: LogItem, more: seq<LogItem>, c: uint64)
    ensures Answers([x] + more, c) == AnswerIn(x, c) + Answers(more, c)
    ensures Questions([x] + more, c) == QuestionIn(x, c) + Questions(more, c)
  {
    CountAppend([x], more, c);
    assert [x] == [] + [x];
    CountSnoc([], x, c);
  }

  lemma OutCons(f: Fragment, rest: seq<Fragment>)
    ensures Out([f] + rest, AllSent) == [Replied(f)] + Out(rest, AllSent)
  {
  }

  /** A cut body is answered by its last fragment alone. */
  lemma {:induction false} CutAnswersOnce(st: Stream, body: bytes, chunk: nat, c: uint64)
    requires 0 < chunk < 0x1_0000_0000
    ensures var out := Out(Cut(st, body, chunk), AllSent);
      Answers(out, c) == (if c == st.correlation then 1 else 0) && Questions(out, c) == 0
    decreases |body|
  {
    hide Out, Answers, Questions;
    if |body| <= chunk {
      LastPiece(st, body, chunk, c);
    } else {
      CutAnswersOnce(st, body[chunk..], chunk, c);
      OutCons(Part(st, body[..chunk], true), Cut(st, body[chunk..], chunk));
      CountOne(Replied(Part(st, body[..chunk], true)), Out(Cut(st, body[chunk..], chunk), AllSent), c);
    }
  }

  lemma LastPiece(st: Stream, body: bytes, chunk: nat, c: uint64)
    requires 0 < chunk < 0x1_0000_0000 && |body| <= chunk
    ensures var out := Out(Cut(st, body, chunk), AllSent);
      Answers(out, c) == (if c == st.correlation then 1 else 0) && Questions(out, c) == 0
  {
    var x := Replied(Part(st, body, false));
    assert Out(Cut(st, body, chunk), AllSent) == [x] + [];
    CountOne(x, [], c);
  }

  lemma FragmentedAnswersOnce(cfg: Config, kind: uint32, c: uint64, stageID: uint32, traceID: uint64,
                              status: uint16, body: bytes, d: uint64)
    requires cfg.budget > MESSAGE_HEADER_LEN
    ensures var out := Out(Fragmented(cfg, kind, c, stageID, traceID, status, body), AllSent);
      Answers(out, d) == (if d == c then 1 else 0) && Questions(out, d) == 0
  {
    CutAnswersOnce(ReplyStream(kind, c, stageID, traceID, status, body), SentBody(status, body),
                   cfg.budget - MESSAGE_HEADER_LEN, d);
  }

  /** While the loop serves: the final replies to `c`, and its live job if any, match its questions. */
  predicate Conserved(s: State, c: uint64) {
    Serving(s) ==> Answers(s.log, c) + Live(s, c) == Questions(s.log, c)
  }

  predicate Ledger(s: State, c: uint64) {
    Folded(s, c) && StartsAreFolds(s.log) && Conserved(s, c)
  }

  // ---- every step keeps the ledger ----

  lemma RefusalKeepsLedger(cfg: Config, s: State, event: Event, now: uint64, sending: Sending, c: uint64)
    requires Ledger(s, c) && Enabled(cfg, s, PollEvent(event, now, sending))
    requires Judge(cfg, s.assemblies, s.jobs, event, now).Refuse?
    ensures Ledger(OnEvent(cfg, s, event, now, sending), c)
  {
    hide Judge, DecodeMessage, BodyOf, RefusalFragments, Out, Bits.And, Fold, Open, Answers, Questions, Invalid,
         StageOf;
    JudgeFacts(cfg, s.assemblies, s.jobs, event, now);
    var v := Judge(cfg, s.assemblies, s.jobs, event, now);
    var out := Out(RefusalFragments(cfg, event, v), sending);
    var polled := s.log + [Polled(event, false)];
    OutIsReplies(RefusalFragments(cfg, event, v), sending);
    Snoc(s.log, Polled(event, false), c);
    QuietItems(polled, out, c);
    StartsExtend(s.log, [Polled(event, false)]);
    StartsExtend(polled, out);
    if sending.AllSent? {
      RefusalAnswers(cfg, event, v, c);
      CountSnoc(s.log, Polled(event, false), c);
      CountAppend(polled, out, c);
    }
  }

  lemma RefusalAnswers(cfg: Config, event: Event, v: Verdict, d: uint64)
    requires v.Refuse? && cfg.budget > MESSAGE_HEADER_LEN
    ensures var out := Out(RefusalFragments(cfg, event, v), AllSent);
      Answers(out, d) == (if d == event.frame.correlation then 1 else 0) && Questions(out, d) == 0
  {
    FragmentedAnswersOnce(cfg, event.frame.eventKind, event.frame.correlation, v.stageID, v.traceID, v.status, [], d);
  }

  lemma ResultAnswers(cfg: Config, o: Outcome, d: uint64)
    requires cfg.budget > MESSAGE_HEADER_LEN
    ensures var out := Out(ResultFragments(cfg, o), AllSent);
      Answers(out, d) == (if d == o.work.correlation then 1 else 0) && Questions(out, d) == 0
  {
    FragmentedAnswersOnce(cfg, o.work.eventKind, o.work.correlation, o.work.stageID, o.work.traceID, o.status,
                          o.body, d);
  }

  lemma BeginKeepsLedger(cfg: Config, s: State, event: Event, now: uint64, sending: Sending, c: uint64)
    requires Ledger(s, c) && Folded(s, event.frame.correlation)
    requires Serving(s) && Judge(cfg, s.assemblies, s.jobs, event, now).Begin?
    ensures Ledger(OnEvent(cfg, s, event, now, sending), c)
  {
    JudgeFacts(cfg, s.assemblies, s.jobs, event, now);
    hide Judge, DecodeMessage, BodyOf, Bits.And, Fold, Open, Answers, Questions, Invalid, StageOf;
    var v := Judge(cfg, s.assemblies, s.jobs, event, now);
    var w := WorkOf(s, event, v.message, StageOf(cfg, event.frame.eventKind));
    var polled := s.log + [Polled(event, false)];
    var t := OnEvent(cfg, s, event, now, sending);
    assert t.log == polled + [Started(w, v.body)] && t.log == s.log + [Polled(event, false), Started(w, v.body)];
    StartsBegin(s.log, event, w, v.body);
    hide StartsAreFolds;
    Snoc(s.log, Polled(event, false), c);
    Snoc(polled, Started(w, v.body), c);
    CountSnoc(s.log, Polled(event, false), c);
    CountSnoc(polled, Started(w, v.body), c);
  }

  lemma EventKeepsLedger(cfg: Config, s: State, event: Event, now: uint64, sending: Sending, c: uint64)
    requires Ledger(s, c) && Folded(s, event.frame.correlation)
    requires Enabled(cfg, s, PollEvent(event, now, sending))
    ensures Ledger(OnEvent(cfg, s, event, now, sending), c)
  {
    var v := Judge(cfg, s.assemblies, s.jobs, event, now);
    if v.Refuse? {
      RefusalKeepsLedger(cfg, s, event, now, sending, c);
    } else if v.Begin? {
      BeginKeepsLedger(cfg, s, event, now, sending, c);
    } else {
      QuietEventKeepsLedger(cfg, s, event, now, sending, c);
    }
  }

  lemma QuietEventKeepsLedger(cfg: Config, s: State, event: Event, now: uint64, sending: Sending, c: uint64)
    requires Ledger(s, c) && Serving(s)
    requires var v := Judge(cfg, s.assemblies, s.jobs, event, now); !v.Refuse? && !v.Begin?
    ensures Ledger(OnEvent(cfg, s, event, now, sending), c)
  {
    hide Judge, DecodeMessage, BodyOf, Bits.And, Fold, Open, Answers, Questions, Invalid, StageOf;
    JudgeFacts(cfg, s.assemblies, s.jobs, event, now);
    var v := Judge(cfg, s.assemblies, s.jobs, event, now);
    StartsExtend(s.log, [Polled(event, v.Absorb?)]);
    hide StartsAreFolds;
    Snoc(s.log, Polled(event, v.Absorb?), c);
    CountSnoc(s.log, Polled(event, v.Absorb?), c);
  }

  lemma CollectKeepsLedger(cfg: Config, s: State, sending: Sending, c: uint64)
    requires Tables(s) && Ledger(s, c) && Enabled(cfg, s, Collect(sending))
    ensures Ledger(Next(cfg, s, Collect(sending)), c)
  {
    hide ResultFragments, Out, Fold, Open, Answers, Questions;
    var o := s.done[0];
    var out := Out(ResultFragments(cfg, o), sending);
    var got := s.log + [Finished(o)];
    OutIsReplies(ResultFragments(cfg, o), sending);
    Snoc(s.log, Finished(o), c);
    QuietItems(got, out, c);
    StartsExtend(s.log, [Finished(o)]);
    StartsExtend(got, out);
    if sending.AllSent? {
      ResultAnswers(cfg, o, c);
      CountSnoc(s.log, Finished(o), c);
      CountAppend(got, out, c);
    }
  }

  lemma StepKeepsLedger(cfg: Config, s: State, step: Step, c: uint64)
    requires Tables(s) && (forall d :: Ledger(s, d)) && Enabled(cfg, s, step)
    ensures Ledger(Next(cfg, s, step), c)
  {
    hide Tables, OnEvent, Judge, ResultFragments, Out, Possible, Fold, Open, Answers, Questions;
    assert Ledger(s, c);
    match step
    case PollEvent(event, now, sending) =>
      assert Ledger(s, event.frame.correlation);
      EventKeepsLedger(cfg, s, event, now, sending, c);
    case Collect(sending) => CollectKeepsLedger(cfg, s, sending, c);
    case Join =>
      Snoc(s.log, Finished(s.done[0]), c);
      StartsExtend(s.log, [Finished(s.done[0])]);
    case _ =>
  }

  lemma InitialLedger(c: uint64)
    ensures Ledger(INITIAL, c)
  {
  }

  /** In every reachable state, for every correlation: its open assembly is the fold of its accepted
      fragments since the last reset, every handler was started on exactly such a fold, and while the loop
      serves, its final replies and its live job together match its questions. */
  lemma {:induction false} RunKeepsLedger(cfg: Config, s: State, steps: seq<Step>)
    requires Tables(s) && Runs(cfg, s, steps) && forall d :: Ledger(s, d)
    ensures Tables(Run(cfg, s, steps)) && forall c :: Ledger(Run(cfg, s, steps), c)
    decreases |steps|
  {
    hide Tables, Next, Enabled, Ledger;
    if steps != [] {
      var t := Next(cfg, s, steps[0]);
      StepKeepsTables(cfg, s, steps[0]);
      forall d
        ensures Ledger(t, d)
      {
        StepKeepsLedger(cfg, s, steps[0], d);
      }
      RunKeepsLedger(cfg, t, steps[1..]);
    }
  }

  /** Reachable states: everything at once. */
  lemma ReachableStates(cfg: Config, steps: seq<Step>, c: uint64)
    requires Runs(cfg, INITIAL, steps)
    ensures var t := Run(cfg, INITIAL, steps);
      && Tables(t) && Folded(t, c) && StartsAreFolds(t.log) && Conserved(t, c)
  {
    InitialTables();
    forall d
      ensures Ledger(INITIAL, d)
    {
      InitialLedger(d);
    }
    RunKeepsLedger(cfg, INITIAL, steps);
    assert Ledger(Run(cfg, INITIAL, steps), c);
  }
}
