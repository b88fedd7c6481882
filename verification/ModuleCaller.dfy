/** The calling side of a module stage (server-go/bus/module_caller.go): a request cut into fragments, a
    reply joined from them. */
module ModuleCaller {
  import opened Bytes
  import opened Options
  import opened Wire
  import opened ModuleProtocol
  import opened Events
  import opened Fragments
  import opened RuntimeModel
  import opened RequestRoundTrip
  import ModuleServer
  import Bits

  /** What a poll finds: an error, nothing (with what the wait observes), or an event. */
  datatype Arrival = PollFails(error: BusError) | Quiet(contextDone: bool, late: bool) | Arrived(event: Event)

  /** The outcome of waiting for a reply. `StillWaiting` stands for a schedule of arrivals that ends first. */
  datatype CallResult =
    | Body(body: bytes)
    | ModuleFailed(status: uint16)
    | CapabilityAbsent | Rejected | Cancelled | DeadlinePassed
    | Failed(error: BusError)
    | StillWaiting

  /** The caller's endpoint: what it has taken, what becomes of the sends to come, and what will arrive. */
  class CallerBus {
    const budget: uint32
    var sent: seq<Fragment>
    var cancels: seq<(uint32, uint64)>
    var sends: seq<Option<BusError>>
    var arrivals: seq<Arrival>

    constructor (budget: uint32, sends: seq<Option<BusError>>, arrivals: seq<Arrival>)
      ensures this.budget == budget && sent == [] && cancels == []
      ensures this.sends == sends && this.arrivals == arrivals
    {
      this.budget, this.sends, this.arrivals := budget, sends, arrivals;
      sent, cancels := [], [];
    }

    method RequestFragment(f: Fragment) returns (err: Option<BusError>)
      modifies `sent, `sends
      ensures err == if old(sends) == [] then None else old(sends)[0]
      ensures sends == if old(sends) == [] then [] else old(sends)[1..]
      ensures sent == if err.None? then old(sent) + [f] else old(sent)
    {
      err := None;
      if sends != [] { err, sends := sends[0], sends[1..]; }
      if err.None? { sent := sent + [f]; }
    }

    method Cancel(kind: uint32, correlation: uint64)
      modifies `cancels
      ensures cancels == old(cancels) + [(kind, correlation)]
    {
      cancels := cancels + [(kind, correlation)];
    }

    method Poll() returns (a: Arrival)
      requires arrivals != []
      modifies `arrivals
      ensures a == old(arrivals)[0] && arrivals == old(arrivals)[1..]
    {
      a, arrivals := arrivals[0], arrivals[1..];
    }
  }

  // ---- joining a reply ----

  /** What waiting returns for a schedule of arrivals, with `acc` received so far. */
  function Await(arrivals: seq<Arrival>, kind: uint32, c: uint64, limit: uint32, acc: bytes): CallResult {
    if arrivals == [] then StillWaiting
    else match arrivals[0]
      case PollFails(e) => Failed(e)
      case Quiet(contextDone, late) =>
        if contextDone then Cancelled
        else if late then DeadlinePassed
        else Await(arrivals[1..], kind, c, limit, acc)
      case Arrived(e) =>
        if e.frame.correlation == c && e.frame.eventKind == KIND_CAPABILITY_ABSENT then CapabilityAbsent
        else if e.frame.correlation == c && e.frame.eventKind == KIND_ERROR then Rejected
        else if !Answer(e, kind, c) then Await(arrivals[1..], kind, c, limit, acc)
        else
          var m := DecodeMessage(e.payload).value;
          if m.status != STATUS_OK then ModuleFailed(m.status)
          else if Wrap32(|acc| + m.bodyLen) > limit then Failed(ErrModuleRuntime)
          else if Has(e.frame.flags, F_MORE) then
            Await(arrivals[1..], kind, c, limit, acc + BodyOf(e.payload))
          else Body(acc + BodyOf(e.payload))
  }

  /** Once a wait is decided nothing that arrives later changes it: only a schedule that ends too early leaves it
      open. */
  lemma {:induction false} DecidedStays(arrivals: seq<Arrival>, more: seq<Arrival>, kind: uint32, c: uint64,
                                        limit: uint32, acc: bytes)
    requires Await(arrivals, kind, c, limit, acc) != StillWaiting
    ensures Await(arrivals + more, kind, c, limit, acc) == Await(arrivals, kind, c, limit, acc)
    decreases |arrivals|
  {
    hide DecodeMessage, BodyOf, Bits.And;
    var a := arrivals[0];
    assert (arrivals + more)[1..] == arrivals[1..] + more;
    if a.Arrived? && Answer(a.event, kind, c) {
      var longer := acc + BodyOf(a.event.payload);
      if Await(arrivals[1..], kind, c, limit, longer) != StillWaiting {
        DecidedStays(arrivals[1..], more, kind, c, limit, longer);
      }
    } else if Await(arrivals[1..], kind, c, limit, acc) != StillWaiting {
      DecidedStays(arrivals[1..], more, kind, c, limit, acc);
    }
  }

  /** An event this call takes for a piece of its answer. */
  predicate Answer(e: Event, kind: uint32, c: uint64) {
    && e.frame.eventKind == kind && e.frame.correlation == c
    && DecodeMessage(e.payload).Some? && DecodeMessage(e.payload).value.operation == OP_RESULT
  }

  /** An arrival that waiting passes over. */
  predicate Ignorable(a: Arrival, kind: uint32, c: uint64) {
    match a
    case PollFails(_) => false
    case Quiet(contextDone, late) => !contextDone && !late
    case Arrived(e) =>
      e.frame.correlation != c
      || (e.frame.eventKind != KIND_CAPABILITY_ABSENT && e.frame.eventKind != KIND_ERROR && !Answer(e, kind, c))
  }

  /** An event that delivers a reply fragment. */
  predicate DeliversReply(e: Event, f: Fragment) {
    && e.frame.correlation == f.correlation && e.frame.eventKind == f.kind && e.payload == f.payload
    && (Has(e.frame.flags, F_MORE) <==> f.more)
  }

  /** The fragments, in order, among arrivals that are passed over; anything may follow the last. */
  predicate Mixed(arrivals: seq<Arrival>, fs: seq<Fragment>, kind: uint32, c: uint64) {
    if fs == [] then true
    else if arrivals == [] then false
    else if Ignorable(arrivals[0], kind, c) then Mixed(arrivals[1..], fs, kind, c)
    else
      && arrivals[0].Arrived? && DeliversReply(arrivals[0].event, fs[0])
      && Mixed(arrivals[1..], fs[1..], kind, c)
  }

  lemma {:induction false} MixedPrefix(arrivals: seq<Arrival>, fs: seq<Fragment>, more: seq<Fragment>, kind: uint32,
                                       c: uint64)
    requires Mixed(arrivals, fs + more, kind, c)
    ensures Mixed(arrivals, fs, kind, c)
  {
    hide Ignorable, DeliversReply;
    if fs != [] {
      assert (fs + more)[1..] == fs[1..] + more;
      if Ignorable(arrivals[0], kind, c) {
        MixedPrefix(arrivals[1..], fs, more, kind, c);
      } else {
        MixedPrefix(arrivals[1..], fs[1..], more, kind, c);
      }
    }
  }

  lemma {:induction false} AwaitJoinsPieces(arrivals: seq<Arrival>, st: Stream, rest: bytes, chunk: nat, acc: bytes)
    requires st.operation == OP_RESULT && st.status == STATUS_OK && SendableStream(st)
    requires 0 < chunk < 0x1_0000_0000 && |acc| + |rest| <= MESSAGE_MAX_BODY
    requires st.kind != KIND_CAPABILITY_ABSENT && st.kind != KIND_ERROR
    requires Mixed(arrivals, Cut(st, rest, chunk), st.kind, st.correlation)
    ensures Await(arrivals, st.kind, st.correlation, MESSAGE_MAX_BODY, acc) == Body(acc + rest)
    decreases |arrivals|
  {
    hide DecodeMessage, BodyOf, Part, Envelope, Bits.And;
    if Ignorable(arrivals[0], st.kind, st.correlation) {
      AwaitJoinsPieces(arrivals[1..], st, rest, chunk, acc);
    } else if |rest| <= chunk {
      PieceIsAnswer(arrivals[0].event, st, rest, false);
    } else {
      PieceIsAnswer(arrivals[0].event, st, rest[..chunk], true);
      assert Cut(st, rest, chunk)[1..] == Cut(st, rest[chunk..], chunk);
      AwaitJoinsPieces(arrivals[1..], st, rest[chunk..], chunk, acc + rest[..chunk]);
      assert acc + rest[..chunk] + rest[chunk..] == acc + rest;
    }
  }

  lemma PieceIsAnswer(e: Event, st: Stream, piece: bytes, more: bool)
    requires st.operation == OP_RESULT && SendableStream(st) && |piece| <= MESSAGE_MAX_BODY
    requires DeliversReply(e, Part(st, piece, more))
    ensures Answer(e, st.kind, st.correlation) && (Has(e.frame.flags, F_MORE) <==> more)
    ensures DecodeMessage(e.payload) == Some(PartMessage(st, |piece|)) && BodyOf(e.payload) == piece
  {
    PartDecodes(st, piece, more);
    hide DecodeMessage, Envelope;
  }

  /** Waiting over the fragments of a reply, mixed with whatever it passes over, returns exactly the body
      sent, or exactly the status that was not OK, for every budget. It does so for every event kind but the
      two on which the host answers itself: on those a caller takes the module's first fragment for the
      host's refusal. */
  lemma ReplyRoundTrip(arrivals: seq<Arrival>, budget: uint32, kind: uint32, c: uint64, stageID: uint32,
                       traceID: uint64, status: uint16, body: bytes)
    requires budget > MESSAGE_HEADER_LEN && stageID != 0
    requires Mixed(arrivals, ReplyFragments(budget, kind, c, stageID, traceID, status, body), kind, c)
    ensures Await(arrivals, kind, c, MESSAGE_MAX_BODY, []) ==
      if kind == KIND_CAPABILITY_ABSENT then CapabilityAbsent
      else if kind == KIND_ERROR then Rejected
      else if SentStatus(status, body) != STATUS_OK then ModuleFailed(SentStatus(status, body))
      else Body(body)
  {
    var st := ReplyStream(kind, c, stageID, traceID, status, body);
    if st.status == STATUS_OK && kind != KIND_CAPABILITY_ABSENT && kind != KIND_ERROR {
      AwaitJoinsPieces(arrivals, st, body, budget - MESSAGE_HEADER_LEN, []);
      assert [] + body == body;
    } else {
      FirstPieceDecides(arrivals, st, SentBody(status, body), budget - MESSAGE_HEADER_LEN);
    }
  }

  lemma {:induction false} FirstPieceDecides(arrivals: seq<Arrival>, st: Stream, body: bytes, chunk: nat)
    requires st.operation == OP_RESULT && SendableStream(st)
    requires 0 < chunk < 0x1_0000_0000 && |body| <= MESSAGE_MAX_BODY
    requires st.status != STATUS_OK || st.kind == KIND_CAPABILITY_ABSENT || st.kind == KIND_ERROR
    requires Mixed(arrivals, Cut(st, body, chunk), st.kind, st.correlation)
    ensures Await(arrivals, st.kind, st.correlation, MESSAGE_MAX_BODY, []) ==
      if st.kind == KIND_CAPABILITY_ABSENT then CapabilityAbsent
      else if st.kind == KIND_ERROR then Rejected
      else ModuleFailed(st.status)
    decreases |arrivals|
  {
    hide DecodeMessage, BodyOf, Part, Envelope, Bits.And;
    if Ignorable(arrivals[0], st.kind, st.correlation) {
      FirstPieceDecides(arrivals[1..], st, body, chunk);
    } else if |body| <= chunk {
      PieceIsAnswer(arrivals[0].event, st, body, false);
    } else {
      PieceIsAnswer(arrivals[0].event, st, body[..chunk], true);
    }
  }

  // ---- what ends a wait ----

  /** A piece of this call's answer that more pieces follow. */
  predicate Middle(a: Arrival, kind: uint32, c: uint64) {
    && kind != KIND_CAPABILITY_ABSENT && kind != KIND_ERROR && a.Arrived? && Answer(a.event, kind, c)
    && DecodeMessage(a.event.payload).value.status == STATUS_OK && Has(a.event.frame.flags, F_MORE)
  }

  /** What such pieces among arrivals add up to. */
  function Gathered(arrivals: seq<Arrival>, kind: uint32, c: uint64): bytes {
    if arrivals == [] then []
    else (if Middle(arrivals[0], kind, c) then BodyOf(arrivals[0].event.payload) else [])
         + Gathered(arrivals[1..], kind, c)
  }

  /** Arrivals that do not decide a wait: passed over, or part of an answer within the limit. */
  predicate Pending(arrivals: seq<Arrival>, kind: uint32, c: uint64, limit: nat) {
    && (forall i :: 0 <= i < |arrivals| ==> Ignorable(arrivals[i], kind, c) || Middle(arrivals[i], kind, c))
    && |Gathered(arrivals, kind, c)| <= limit
  }

  /** A poll that fails, a context that is done, or a deadline that has passed. */
  predicate Ends(a: Arrival) { a.PollFails? || (a.Quiet? && (a.contextDone || a.late)) }

  lemma {:induction false} WaitGoesOn(pre: seq<Arrival>, more: seq<Arrival>, kind: uint32, c: uint64, limit: uint32,
                                      acc: bytes)
    requires |acc| + |Gathered(pre, kind, c)| <= limit && Pending(pre, kind, c, limit)
    ensures Await(pre + more, kind, c, limit, acc) == Await(more, kind, c, limit, acc + Gathered(pre, kind, c))
    decreases |pre|
  {
    hide DecodeMessage, BodyOf, Bits.And;
    if pre == [] {
      assert pre + more == more && acc + [] == acc;
    } else {
      assert (pre + more)[1..] == pre[1..] + more && (pre + more)[0] == pre[0];
      var piece := if Middle(pre[0], kind, c) then BodyOf(pre[0].event.payload) else [];
      if Middle(pre[0], kind, c) { BodyLength(pre[0].event.payload); } else { assert acc + piece == acc; }
      assert forall i :: 0 <= i < |pre[1..]| ==> pre[1..][i] == pre[i + 1];
      assert Gathered(pre, kind, c) == piece + Gathered(pre[1..], kind, c);
      WaitGoesOn(pre[1..], more, kind, c, limit, acc + piece);
      assert acc + piece + Gathered(pre[1..], kind, c) == acc + Gathered(pre, kind, c);
    }
  }

  lemma BodyLength(payload: bytes)
    requires DecodeMessage(payload).Some?
    ensures |BodyOf(payload)| == DecodeMessage(payload).value.bodyLen
  {
  }

  /** However much of an answer is there, a wait ends with the error of a poll that fails, as cancelled when the
      context is done, and at its deadline when that has passed. */
  lemma WaitEnds(pre: seq<Arrival>, a: Arrival, more: seq<Arrival>, kind: uint32, c: uint64, limit: uint32)
    requires Pending(pre, kind, c, limit) && Ends(a)
    ensures var result := Await(pre + [a] + more, kind, c, limit, []);
      && (a.PollFails? ==> result == Failed(a.error))
      && (a.Quiet? && a.contextDone ==> result == Cancelled)
      && (a.Quiet? && !a.contextDone ==> result == DeadlinePassed)
  {
    hide Pending, Gathered;
    SomeGathered(pre, kind, c, limit);
    WaitGoesOn(pre, [a] + more, kind, c, limit, []);
    assert pre + ([a] + more) == pre + [a] + more;
  }

  /** However much of an answer is there, the host's refusals end a wait, and so does a piece with another status
      than OK, a piece that carries the answer past the limit, and the last piece, with all of the answer. */
  lemma AnswerDecides(pre: seq<Arrival>, e: Event, more: seq<Arrival>, kind: uint32, c: uint64, limit: uint32)
    requires Pending(pre, kind, c, limit) && e.frame.correlation == c
    ensures var result := Await(pre + [Arrived(e)] + more, kind, c, limit, []);
      && (e.frame.eventKind == KIND_CAPABILITY_ABSENT ==> result == CapabilityAbsent)
      && (e.frame.eventKind == KIND_ERROR ==> result == Rejected)
    ensures Answer(e, kind, c) && kind != KIND_CAPABILITY_ABSENT && kind != KIND_ERROR ==>
      var result := Await(pre + [Arrived(e)] + more, kind, c, limit, []);
      var status := DecodeMessage(e.payload).value.status;
      var all := Gathered(pre, kind, c) + BodyOf(e.payload);
      && (status != STATUS_OK ==> result == ModuleFailed(status))
      && (status == STATUS_OK && limit < |all| < 0x1_0000_0000 ==> result == Failed(ErrModuleRuntime))
      && (status == STATUS_OK && |all| <= limit && !Has(e.frame.flags, F_MORE) ==> result == Body(all))
  {
    hide Pending, Gathered, DecodeMessage, BodyOf, Bits.And, Ignorable, Middle;
    SomeGathered(pre, kind, c, limit);
    WaitGoesOn(pre, [Arrived(e)] + more, kind, c, limit, []);
    assert pre + ([Arrived(e)] + more) == pre + [Arrived(e)] + more;
    assert [] + Gathered(pre, kind, c) == Gathered(pre, kind, c);
    if DecodeMessage(e.payload).Some? { BodyLength(e.payload); }
  }

  lemma SomeGathered(pre: seq<Arrival>, kind: uint32, c: uint64, limit: nat)
    requires Pending(pre, kind, c, limit)
    ensures |Gathered(pre, kind, c)| <= limit
  {
  }

  /** The arrivals are exactly these fragments, in order, among ones that are passed over. */
  predicate Exactly(arrivals: seq<Arrival>, fs: seq<Fragment>, kind: uint32, c: uint64) {
    if arrivals == [] then fs == []
    else if Ignorable(arrivals[0], kind, c) then Exactly(arrivals[1..], fs, kind, c)
    else
      && fs != [] && arrivals[0].Arrived? && DeliversReply(arrivals[0].event, fs[0])
      && Exactly(arrivals[1..], fs[1..], kind, c)
  }

  /** A reply that is not complete leaves a wait pending, whatever it is mixed with. */
  lemma {:induction false} PartialReplyIsPending(pre: seq<Arrival>, st: Stream, rest: bytes, chunk: nat, k: nat)
    requires st.operation == OP_RESULT && st.status == STATUS_OK && SendableStream(st)
    requires 0 < chunk < 0x1_0000_0000 && |rest| <= MESSAGE_MAX_BODY && k < |Cut(st, rest, chunk)|
    requires st.kind != KIND_CAPABILITY_ABSENT && st.kind != KIND_ERROR
    requires Exactly(pre, Cut(st, rest, chunk)[..k], st.kind, st.correlation)
    ensures Pending(pre, st.kind, st.correlation, |rest|)
    ensures Gathered(pre, st.kind, st.correlation) <= rest
    decreases |pre|
  {
    hide DecodeMessage, BodyOf, Part, Envelope, Bits.And;
    var fs := Cut(st, rest, chunk);
    if pre != [] {
      assert forall i :: 0 < i < |pre| ==> pre[i] == pre[1..][i - 1];
      if Ignorable(pre[0], st.kind, st.correlation) {
        PartialReplyIsPending(pre[1..], st, rest, chunk, k);
      } else {
        PieceIsAnswer(pre[0].event, st, rest[..chunk], true);
        assert fs[..k][1..] == Cut(st, rest[chunk..], chunk)[..k - 1];
        PartialReplyIsPending(pre[1..], st, rest[chunk..], chunk, k - 1);
        assert rest == rest[..chunk] + rest[chunk..];
      }
    }
  }

  // ---- the caller ----

  class ModuleCaller {
    const client: CallerBus
    const responseLimit: uint32
    var correlation: uint64

    constructor (client: CallerBus)
      ensures this.client == client && correlation == 0 && responseLimit == MESSAGE_MAX_BODY
    {
      this.client, correlation, responseLimit := client, 0, MESSAGE_MAX_BODY;
    }

    /** Cuts a request across the inline budget. One buffer serves every fragment. A fragment that is refused
        is not retried: what is taken is the fragment sequence up to the first refusal, which is returned. A
        request that makes no valid message fails before anything is offered. */
    method Send(kind: uint32, stageID: uint32, traceID: uint64, c: uint64, deadlineNS: uint64, request: bytes)
      returns (err: Option<BusError>, ghost taken: nat)
      modifies client`sent, client`sends
      ensures client.budget <= MESSAGE_HEADER_LEN ==>
        err == Some(ErrModuleRuntime) && taken == 0 && client.sent == old(client.sent)
      ensures client.budget > MESSAGE_HEADER_LEN ==>
        var chunk := client.budget - MESSAGE_HEADER_LEN;
        var all := Cut(InvokeStream(kind, c, stageID, deadlineNS, traceID), request, chunk);
        && (err, taken) == SendOutcome(old(client.sends), stageID, |request|, chunk, |all|)
        && client.sent == old(client.sent) + all[..taken]
    {
      hide Cut, Part, ValidMessage, OfferOnce, SendableStream;
      taken := 0;
      if client.budget <= MESSAGE_HEADER_LEN { return Some(ErrModuleRuntime), 0; }
      var chunk := client.budget - MESSAGE_HEADER_LEN;
      var st := InvokeStream(kind, c, stageID, deadlineNS, traceID);
      ghost var all := Cut(st, request, chunk);
      ghost var before := client.sent;
      var frame := new byte[client.budget];
      var first := true;
      var offset := 0;
      assert all[0..] == all && request[0..] == request;
      assert before + all[..0] == before;
      while first || offset < |request|
        invariant 0 <= offset <= |request| && taken <= |all|
        invariant client.sent == before + all[..taken]
        invariant first ==> offset == 0 && taken == 0
        invariant first || PiecesValid(stageID, |request|, chunk)
        invariant first || offset < |request| ==> taken < |all| && all[taken..] == Cut(st, request[offset..], chunk)
        invariant !first && offset == |request| ==> taken == |all|
        invariant ModuleServer.Continues(OfferOnce(old(client.sends), |all|),
                                         OfferOnce(client.sends, |all| - taken), taken)
        decreases |request| - offset + (if first then 1 else 0)
      {
        var part := |request| - offset;
        if part > chunk { part := chunk; }
        var more := offset + part < |request|;
        OneTurn(st, request, offset, chunk, part, all, taken, client.sends, before, first);
        first := false;
        var payload := FillFrame(frame, st, request[offset..offset + part], more);
        if payload.None? { return Some(ErrModuleMessage), taken; }
        err := client.RequestFragment(Fragment(kind, c, payload.value, more));
        if err.Some? { return err, taken; }
        taken := taken + 1;
        offset := offset + part;
      }
      OfferNone(client.sends);
      return None, taken;
    }

    /** Consumes arrivals until this call's result is there, looking at the time only if the call expires. */
    method AwaitReply(kind: uint32, c: uint64, expires: bool) returns (result: CallResult)
      modifies client`arrivals
      ensures result == Await(Timed(old(client.arrivals), expires), kind, c, responseLimit, [])
    {
      hide DecodeMessage, BodyOf, Bits.And;
      var body: bytes := [];
      while client.arrivals != []
        invariant Await(Timed(client.arrivals, expires), kind, c, responseLimit, body) ==
                  Await(Timed(old(client.arrivals), expires), kind, c, responseLimit, [])
        decreases |client.arrivals|
      {
        TimedNext(client.arrivals, expires);
        var a := client.Poll();
        match a {
          case PollFails(e) => return Failed(e);
          case Quiet(contextDone, late) =>
            if contextDone { return Cancelled; }
            if expires && late { return DeadlinePassed; }
          case Arrived(event) =>
            if event.frame.correlation == c {
              if event.frame.eventKind == KIND_CAPABILITY_ABSENT { return CapabilityAbsent; }
              if event.frame.eventKind == KIND_ERROR { return Rejected; }
            }
            if event.frame.eventKind != kind || event.frame.correlation != c { continue; }
            var decoded := DecodeMessage(event.payload);
            if decoded.None? || decoded.value.operation != OP_RESULT { continue; }
            var message := decoded.value;
            if message.status != STATUS_OK { return ModuleFailed(message.status); }
            if Wrap32(|body| + message.bodyLen) > responseLimit { return Failed(ErrModuleRuntime); }
            body := body + BodyOf(event.payload);
            if !Has(event.frame.flags, F_MORE) { return Body(body); }
        }
      }
      return StillWaiting;
    }

    /** One call: a fresh correlation, the request under the deadline its timeout sets, the reply. A failed send
        returns its error at once, without a cancel; a failed wait cancels the correlation first, and a wait fails
        where a poll does, the context is done or, with a timeout, the deadline has passed before the answer is
        complete. */
    method Call(kind: uint32, stageID: uint32, traceID: uint64, timeout: int, now: uint64, request: bytes)
      returns (result: CallResult, ghost taken: nat)
      modifies this, client
      ensures Wrap32(|request|) > MESSAGE_MAX_BODY ==>
        result == Failed(ErrModuleConfig) && correlation == old(correlation) && client.sent == old(client.sent)
        && client.cancels == old(client.cancels)
      ensures Wrap32(|request|) <= MESSAGE_MAX_BODY ==> correlation == Wrap64(old(correlation) + 1)
      ensures Wrap32(|request|) <= MESSAGE_MAX_BODY && client.budget <= MESSAGE_HEADER_LEN ==>
        result == Failed(ErrModuleRuntime) && client.sent == old(client.sent) && client.cancels == old(client.cancels)
      ensures Wrap32(|request|) <= MESSAGE_MAX_BODY && client.budget > MESSAGE_HEADER_LEN ==>
        var chunk := client.budget - MESSAGE_HEADER_LEN;
        var st := InvokeStream(kind, correlation, stageID, DeadlineOf(timeout, now), traceID);
        var all := Cut(st, request, chunk);
        var outcome := SendOutcome(old(client.sends), stageID, |request|, chunk, |all|);
        && taken == outcome.1 && client.sent == old(client.sent) + all[..taken]
        && (outcome.0.Some? ==> result == Failed(outcome.0.value) && client.cancels == old(client.cancels))
        && (outcome.0.None? ==>
              && result == Await(Timed(old(client.arrivals), timeout > 0), kind, correlation, responseLimit, [])
              && client.cancels == old(client.cancels)
                   + (if result.Body? || result.StillWaiting? then [] else [(kind, correlation)]))
        && (outcome.0.None? && GivesUp(Timed(old(client.arrivals), timeout > 0), kind, correlation, responseLimit) ==>
              && (result.Failed? || result == Cancelled || (timeout > 0 && result == DeadlinePassed))
              && client.cancels == old(client.cancels) + [(kind, correlation)])
    {
      hide Cut, OfferOnce, Await, Timed;
      taken := 0;
      if Wrap32(|request|) > MESSAGE_MAX_BODY { return Failed(ErrModuleConfig), 0; }
      correlation := Wrap64(correlation as int + 1);
      var deadlineNS: uint64 := 0;
      if timeout > 0 { deadlineNS := Wrap64(now + timeout); }
      var err;
      err, taken := Send(kind, stageID, traceID, correlation, deadlineNS, request);
      if err.Some? { return Failed(err.value), taken; }
      ghost var seen := Timed(client.arrivals, timeout > 0);
      result := AwaitReply(kind, correlation, timeout > 0);
      if GivesUp(seen, kind, correlation, responseLimit) {
        GivingUpFails(seen, kind, correlation, responseLimit);
        if timeout <= 0 { NeverLate(old(client.arrivals), kind, correlation, responseLimit, []); }
      }
      if !result.Body? && !result.StillWaiting? {
        client.Cancel(kind, correlation);
      }
    }
  }

  /** Some arrival ends the wait before its answer is complete. */
  predicate GivesUp(arrivals: seq<Arrival>, kind: uint32, c: uint64, limit: uint32) {
    exists k :: 0 <= k < |arrivals| && Ends(arrivals[k]) && Pending(arrivals[..k], kind, c, limit)
  }

  lemma GivingUpFails(arrivals: seq<Arrival>, kind: uint32, c: uint64, limit: uint32)
    requires GivesUp(arrivals, kind, c, limit)
    ensures var result := Await(arrivals, kind, c, limit, []);
      result.Failed? || result == Cancelled || result == DeadlinePassed
  {
    hide Await, Pending, Ends;
    var k :| 0 <= k < |arrivals| && Ends(arrivals[k]) && Pending(arrivals[..k], kind, c, limit);
    WaitEnds(arrivals[..k], arrivals[k], arrivals[k + 1..], kind, c, limit);
    assert arrivals == arrivals[..k] + [arrivals[k]] + arrivals[k + 1..];
    EndsHow(arrivals[k]);
  }

  lemma EndsHow(a: Arrival)
    requires Ends(a)
    ensures a.PollFails? || a.Quiet?
  {
  }

  /** The deadline a call puts on its request: none for a timeout that is not positive, else the time it ends. It
      reads as none, too, when the sum wraps to zero. */
  function DeadlineOf(timeout: int, now: uint64): uint64 {
    if timeout > 0 then Wrap64(now + timeout) else 0
  }

  /** A call with a timeout whose last fragment is polled by the same clock is refused as late exactly from the time
      its timeout ends, as long as that time is a 64-bit number. */
  lemma LateFromTimeout(cfg: Config, jobs: map<uint64, Work>, timeout: int, now: uint64, polled: uint64)
    requires timeout > 0 && now + timeout < 0x1_0000_0000_0000_0000
    ensures Admission(cfg, jobs, DeadlineOf(timeout, now), polled) == Some(STATUS_DEADLINE_EXCEEDED)
        <==> polled >= now + timeout
  {
    assert Wrap64(now + timeout) == now + timeout;
  }

  /** Without a timeout it is never late. */
  lemma NoTimeoutNoDeadline(cfg: Config, jobs: map<uint64, Work>, timeout: int, now: uint64, polled: uint64)
    requires timeout <= 0
    ensures Admission(cfg, jobs, DeadlineOf(timeout, now), polled) != Some(STATUS_DEADLINE_EXCEEDED)
  {
  }

  /** Arrivals as a wait sees them: without a timeout it is never late. */
  function Timed(arrivals: seq<Arrival>, expires: bool): seq<Arrival> {
    if arrivals == [] then []
    else [if arrivals[0].Quiet? && !expires then Quiet(arrivals[0].contextDone, false) else arrivals[0]]
         + Timed(arrivals[1..], expires)
  }

  lemma TimedNext(arrivals: seq<Arrival>, expires: bool)
    requires arrivals != []
    ensures var timed := Timed(arrivals, expires);
      timed != [] && timed[1..] == Timed(arrivals[1..], expires)
  {
  }

  /** A call without a timeout never ends because of its deadline. */
  lemma {:induction false} NeverLate(arrivals: seq<Arrival>, kind: uint32, c: uint64, limit: uint32, acc: bytes)
    ensures Await(Timed(arrivals, false), kind, c, limit, acc) != DeadlinePassed
  {
    hide DecodeMessage, BodyOf, Bits.And;
    if arrivals != [] {
      TimedNext(arrivals, false);
      NeverLate(arrivals[1..], kind, c, limit, acc);
      if arrivals[0].Arrived? && Answer(arrivals[0].event, kind, c) {
        NeverLate(arrivals[1..], kind, c, limit, acc + BodyOf(arrivals[0].event.payload));
      }
    }
  }

  /** Every piece makes a valid message: there is a stage, and no piece is longer than a body may be. */
  predicate PiecesValid(stageID: uint32, length: nat, chunk: nat) {
    stageID != 0 && (length <= MESSAGE_MAX_BODY || chunk <= MESSAGE_MAX_BODY)
  }

  /** What a send of a request of `length` bytes in `n` pieces returns, and how many pieces were taken. */
  function SendOutcome(sends: seq<Option<BusError>>, stageID: uint32, length: nat, chunk: nat, n: nat):
    (r: (Option<BusError>, nat))
    ensures r.1 <= n && (r.0.None? ==> r.1 == n)
  {
    if PiecesValid(stageID, length, chunk) then OfferOnce(sends, n) else (Some(ErrModuleMessage), 0)
  }

  /** One turn of the sending loop: the piece, whether it is valid, and what its offer makes of the outcome. */
  lemma OneTurn(st: Stream, request: bytes, offset: nat, chunk: nat, part: nat, all: seq<Fragment>, n: nat,
                sends: seq<Option<BusError>>, before: seq<Fragment>, first: bool)
    requires 0 < chunk < 0x1_0000_0000 && offset <= |request| && (first ==> offset == 0)
    requires st.operation == OP_INVOKE && st.status == STATUS_OK
    requires part == if |request| - offset > chunk then chunk else |request| - offset
    requires first || PiecesValid(st.stageID, |request|, chunk)
    requires n < |all| && all[n..] == Cut(st, request[offset..], chunk)
    ensures ValidMessage(PartMessage(st, part)) <==> PiecesValid(st.stageID, |request|, chunk)
    ensures var more := offset + part < |request|;
      && all[n] == Part(st, request[offset..offset + part], more)
      && all[n] == Fragment(st.kind, st.correlation, all[n].payload, more)
      && (more ==> n + 1 < |all| && all[n + 1..] == Cut(st, request[offset + part..], chunk))
      && (!more ==> n + 1 == |all| && offset + part == |request|)
    ensures var err := if sends == [] then None else sends[0];
      var rest := if sends == [] then [] else sends[1..];
      && (err.Some? ==> OfferOnce(sends, |all| - n) == (err, 0))
      && (err.None? ==>
            OfferOnce(sends, |all| - n) == (OfferOnce(rest, |all| - n - 1).0, OfferOnce(rest, |all| - n - 1).1 + 1))
    ensures before + all[..n] + [all[n]] == before + all[..n + 1]
  {
    hide Cut, Part, OfferOnce, ValidMessage;
    ModuleServer.NextPiece(st, request, offset, chunk, part, all, n);
    ModuleServer.PieceIsValid(st, part);
    OfferStep(sends, |all| - n);
    ModuleServer.OneMore(before, all, n);
  }

  /** What comes of offering `n` fragments once each: the first refusal, if any, and how many were taken
      before it. */
  function OfferOnce(sends: seq<Option<BusError>>, n: nat): (r: (Option<BusError>, nat))
    ensures r.1 <= n && (r.0.None? <==> r.1 == n)
  {
    if n == 0 then (None, 0)
    else if sends == [] then (None, n)
    else if sends[0].Some? then (sends[0], 0)
    else
      var later := OfferOnce(sends[1..], n - 1);
      (later.0, later.1 + 1)
  }

  /** Pieces are taken up to the first that is refused, whose error is returned. */
  lemma {:induction false} FirstRefusalEndsSend(sends: seq<Option<BusError>>, n: nat, k: nat)
    requires k <= n && (k < n ==> k < |sends| && sends[k].Some?)
    requires forall i :: 0 <= i < k && i < |sends| ==> sends[i].None?
    ensures OfferOnce(sends, n) == (if k < n then sends[k] else None, k)
  {
    if k > 0 && sends != [] {
      FirstRefusalEndsSend(sends[1..], n - 1, k - 1);
    }
  }

  lemma OfferStep(sends: seq<Option<BusError>>, n: nat)
    requires n > 0
    ensures var err := if sends == [] then None else sends[0];
      var rest := if sends == [] then [] else sends[1..];
      && (err.Some? ==> OfferOnce(sends, n) == (err, 0))
      && (err.None? ==> OfferOnce(sends, n) == (OfferOnce(rest, n - 1).0, OfferOnce(rest, n - 1).1 + 1))
  {
  }

  lemma OfferNone(sends: seq<Option<BusError>>)
    ensures OfferOnce(sends, 0) == (None, 0)
  {
  }

  /** Header and piece laid into the front of the buffer every fragment shares; what an earlier, longer
      piece left behind is not part of the result. */
  method FillFrame(frame: array<byte>, st: Stream, piece: bytes, ghost more: bool) returns (payload: Option<bytes>)
    requires |piece| < 0x1_0000_0000 && MESSAGE_HEADER_LEN + |piece| <= frame.Length
    modifies frame
    ensures payload.Some? <==> ValidMessage(PartMessage(st, |piece|))
    ensures payload.Some? ==> payload.value == Part(st, piece, more).payload
  {
    var encoded := EncodeMessage(PartMessage(st, |piece|), frame);
    if !encoded { return None; }
    Copy(frame, MESSAGE_HEADER_LEN, piece);
    return Some(frame[..MESSAGE_HEADER_LEN + |piece|]);
  }

  /** The size check of a call looks at the low 32 bits only: a request is let through although it is longer
      than any module accepts exactly when it has at least `2^32` bytes and its length modulo `2^32` is small. */
  lemma SizeCheckNarrows(length: nat)
    ensures Wrap32(length) <= MESSAGE_MAX_BODY && length > MESSAGE_MAX_BODY
        <==> length >= 0x1_0000_0000 && length % 0x1_0000_0000 <= MESSAGE_MAX_BODY
    ensures Wrap32(0x1_0000_0000) <= MESSAGE_MAX_BODY < 0x1_0000_0000
  {
  }

  /** A request the size check should have stopped is sent like any other, by every budget the codec accepts. */
  lemma OversizedIsSent(sends: seq<Option<BusError>>, stageID: uint32, length: nat, budget: uint32, n: nat)
    requires stageID != 0 && MESSAGE_HEADER_LEN < budget <= MAX_PAYLOAD
    ensures SendOutcome(sends, stageID, length, budget - MESSAGE_HEADER_LEN, n) == OfferOnce(sends, n)
  {
    hide OfferOnce;
  }

  /** The serving loop adds the pieces up in full: the fragment that carries the sum past the limit is refused
      and closes the assembly, so no handler starts on more than the limit. */
  lemma OversizedIsRefused(cfg: Config, s: State, st: Stream, pre: bytes, first: bool, piece: bytes, more: bool,
                           e: Event, now: uint64)
    requires |piece| <= MESSAGE_MAX_BODY < |pre| + |piece|
    requires Served(cfg, st) && Holding(s, st, pre, first) && Delivers(e, Part(st, piece, more))
    ensures var v := Judge(cfg, s.assemblies, s.jobs, e, now);
      && v == Refuse(st.stageID, st.traceID, STATUS_INTERNAL)
      && forall sending :: st.correlation !in Apply(cfg, s, e, v, sending).assemblies
  {
    hide Judge, Delivers, Part, Out, RefusalFragments;
    FragmentVerdict(cfg, s, st, pre, first, piece, more, e, now);
  }

  /** A module's OK reply on the host's own error kind is taken for the host's refusal. */
  lemma HostKindHidesReply(c: uint64, stageID: uint32, traceID: uint64, handle: uint32)
    requires c != 0 && stageID != 0
    ensures var f := ReplyFragments(1000, KIND_ERROR, c, stageID, traceID, STATUS_OK, [])[0];
      var frame := Frame(0x11, WIRE_VERSION, KIND_ERROR, 0, c, 0, 0, HDR_LEN, MESSAGE_HEADER_LEN, handle, 0, 0);
      && DeliversReply(Event(frame, f.payload), f)
      && Await([Arrived(Event(frame, f.payload))], KIND_ERROR, c, MESSAGE_MAX_BODY, []) == Rejected
  {
    var fs := ReplyFragments(1000, KIND_ERROR, c, stageID, traceID, STATUS_OK, []);
    var frame := Frame(0x11, WIRE_VERSION, KIND_ERROR, 0, c, 0, 0, HDR_LEN, MESSAGE_HEADER_LEN, handle, 0, 0);
    var arrivals := [Arrived(Event(frame, fs[0].payload))];
    assert Bits.And(0x11, F_MORE) == 0;
    hide Bits.And, Envelope, DecodeMessage;
    assert fs[1..] == [];
    assert arrivals[1..] == [];
    assert Mixed(arrivals, fs, KIND_ERROR, c);
    ReplyRoundTrip(arrivals, 1000, KIND_ERROR, c, stageID, traceID, STATUS_OK, []);
  }
}
