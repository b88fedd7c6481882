/** A governed response, end to end: the calls' names cross the wire to the module as bytes, its answer comes
    back as bytes, and what the in-place compaction leaves is a plain filter of the calls. */
module GovernanceEndToEnd {
  import opened Bits
  import opened Bytes
  import opened Options
  import opened ModuleProtocol
  import opened GovernanceWire
  import opened GovernancePolicy
  import opened GovernanceApi
  import opened GovernanceStage
  import GovernanceGo

  /** The calls an active policy allows, in order; all of them when it is not active. */
  function Surviving(calls: seq<ToolCall>, active: bool): seq<ToolCall> {
    if calls == [] then []
    else
      var last := calls[|calls| - 1];
      Surviving(calls[..|calls| - 1], active) + (if active && Denied(last.name) then [] else [last])
  }

  /** The calls an active policy denies, in order. */
  function Refused(calls: seq<ToolCall>, active: bool): seq<ToolCall> {
    if calls == [] then []
    else
      var last := calls[|calls| - 1];
      Refused(calls[..|calls| - 1], active) + (if active && Denied(last.name) then [last] else [])
  }

  function NamesOf(calls: seq<ToolCall>): (ns: seq<bytes>)
    ensures |ns| == |calls|
  {
    seq(|calls|, i requires 0 <= i < |calls| => calls[i].name)
  }

  /** The stop reason a governed response ends with. */
  function FinalisedReason(calls: seq<ToolCall>, active: bool, reason: bytes): bytes {
    if !active || calls == [] then reason
    else if Surviving(calls, active) == [] then Ascii("end_turn")
    else if reason == [] then Ascii("tool_use")
    else reason
  }

  /** It is the one the decision carries. */
  lemma DecisionFinalises(calls: seq<ToolCall>, active: bool, reason: bytes)
    requires Bounded(Request(active, NamesOf(calls), reason))
    ensures Decide(Request(active, NamesOf(calls), reason)).reason == FinalisedReason(calls, active, reason)
  {
    hide Decide, Denied, Bounded;
    ReasonSays(Request(active, NamesOf(calls), reason));
    SomeSurvive(calls, active);
    assert forall i :: 0 <= i < |calls| ==> NamesOf(calls)[i] == calls[i].name;
  }

  lemma {:induction false} SomeSurvive(calls: seq<ToolCall>, active: bool)
    ensures Surviving(calls, active) == [] <==> forall i :: 0 <= i < |calls| ==> active && Denied(calls[i].name)
  {
    hide Denied;
    if calls != [] { SomeSurvive(calls[..|calls| - 1], active); }
  }

  /** Compacting by the mask of the decision is the filter. */
  lemma {:induction false} MaskIsFilter(calls: seq<ToolCall>, active: bool, reason: bytes)
    ensures var f := Survivors(Request(active, NamesOf(calls), reason));
      KeepBy(calls, f) == Surviving(calls, active) && DropBy(calls, f) == Refused(calls, active)
  {
    if calls != [] {
      var n := |calls| - 1;
      MaskIsFilter(calls[..n], active, reason);
      var f := Survivors(Request(active, NamesOf(calls), reason));
      assert f[..n] == Survivors(Request(active, NamesOf(calls[..n]), reason));
      hide Denied;
    }
  }

  /** The names as the C side hands them to the encoder. */
  function Pointers(calls: seq<ToolCall>): (ps: seq<Option<bytes>>)
    ensures |ps| == |calls|
  {
    seq(|calls|, i requires 0 <= i < |calls| => Some(calls[i].name))
  }

  /** Asks the module: encode, handle, decode. It answers exactly when every name and the reason fit their
      slots, and then with the decision on them. */
  method AskModule(active: bool, calls: seq<ToolCall>, reason: bytes, decision: DecisionRecord) returns (answered: bool)
    requires |calls| <= TOOL_COUNT_MAX && NoZero(reason) && forall i :: 0 <= i < |calls| ==> NoZero(calls[i].name)
    requires decision.stopReason.Length == TOOL_NAME_SLOT
    modifies decision, decision.stopReason
    ensures answered <==> Bounded(Request(active, NamesOf(calls), reason))
    ensures answered ==> decision.Means(Decide(Request(active, NamesOf(calls), reason)))
  {
    hide Parse, Decide, Spells, ParseResponse, CStr;
    ghost var r := Request(active, NamesOf(calls), reason);
    var out := new byte[REQUEST_LEN](i => 0);
    var encoded := EncodeRequest(if active then 1 else 0, Some(Pointers(calls)), |calls|, Some(reason), out,
                                 REQUEST_LEN);
    NamesAgree(calls);
    if !encoded { return false; }
    assert out[..REQUEST_LEN] == out[..];
    AnswerRoundTrip(out[..], r);
    var response, status := GovernanceGo.Handle(STAGE_EVALUATE, false, out[..]);
    if status != STATUS_OK { return false; }
    answered := DecodeResponse(Some(response), |calls|, decision);
  }

  lemma NamesAgree(calls: seq<ToolCall>)
    requires forall i :: 0 <= i < |calls| ==> NoZero(calls[i].name)
    ensures NamesFit(Pointers(calls)) <==> forall i :: 0 <= i < |NamesOf(calls)| ==> Text(NamesOf(calls)[i])
    ensures NamesFit(Pointers(calls)) ==> Names(Pointers(calls)) == NamesOf(calls)
    ensures CStrings(Pointers(calls))
  {
    if forall i :: 0 <= i < |NamesOf(calls)| ==> Text(NamesOf(calls)[i]) {
      forall i | 0 <= i < |calls|
        ensures Text(Pointers(calls)[i].value)
      {
        assert Text(NamesOf(calls)[i]);
      }
    }
    if NamesFit(Pointers(calls)) {
      forall i | 0 <= i < |calls|
        ensures Text(NamesOf(calls)[i])
      {
        assert Text(Pointers(calls)[i].value);
      }
    }
  }

  /** The module can be asked: no more calls than the contract has room for, and every text fits its slot. */
  predicate Askable(callCount: int, r: Request) { callCount <= TOOL_COUNT_MAX && Bounded(r) }

  /** Governs a response, whatever its call count. When there are at most sixteen calls and every name and the
      stop reason have at most 31 bytes, nothing on the way refuses: what is left is the order-preserving filter
      of the calls the policy allows, with the final stop reason, and exactly the denied calls' blocks are freed.
      Otherwise the stage fails closed: no call is left. Either way no entry of the array, also behind what is left,
      points to a freed block. */
  method Govern(parsed: ParsedResponse, heap: Heap, active: bool) returns (interventions: int)
    requires parsed.Sized() && Owned(parsed.calls[..Clamped(parsed.callCount)], heap.live)
    requires forall i :: 0 <= i < Clamped(parsed.callCount) ==> NoZero(parsed.calls[i].name)
    modifies parsed, parsed.calls, parsed.stopReason, heap
    ensures 0 <= parsed.callCount <= Clamped(old(parsed.callCount)) && old(heap.freed) <= heap.freed
    ensures var before := old(parsed.calls[..Clamped(parsed.callCount)]);
      var reason := old(CStr(parsed.stopReason[..]));
      var left := parsed.calls[..parsed.callCount];
      var freed := heap.freed[|old(heap.freed)|..];
      && interventions == |before| - |left| && Owned(left, heap.live)
      && heap.live == old(heap.live) - Gone(freed) && NothingDangles(parsed.calls[..|before|], heap.live)
      && parsed.calls[|before|..] == old(parsed.calls[..])[|before|..]
      && (if Askable(old(parsed.callCount), Request(active, NamesOf(before), reason)) then
            && left == Surviving(before, active) && freed == Args(Refused(before, active))
            && CStr(parsed.stopReason[..]) == FinalisedReason(before, active, reason)
          else
            && left == [] && freed == Args(before)
            && (before != [] ==> CStr(parsed.stopReason[..]) == Ascii("end_turn")))
      && (before != [] && left == [] ==> CStr(parsed.stopReason[..]) == Ascii("end_turn"))
  {
    hide CStr, KeepBy, DropBy, Args, Gone, CountTrue, Flags, Consistent, Decide, Owned, Surviving, Refused, Bounded,
         FinalisedReason, NothingDangles;
    var n := Clamped(parsed.callCount);
    ghost var before := parsed.calls[..n];
    var reason := CStr(parsed.stopReason[..]);
    ghost var r := Request(active, NamesOf(before), reason);
    var decision := new DecisionRecord();
    var answered := false;
    if parsed.callCount <= TOOL_COUNT_MAX {
      answered := AskModule(active, parsed.calls[..n], reason, decision);
    }
    GovernedFlags(before, parsed.callCount, decision.keepMask, decision.dropCount, decision.stopReason[..], answered,
                  r);
    NoneSurvive(before, active);
    interventions := RunStage(parsed, heap, answered, decision);
  }

  /** A response that loses all its calls says that the turn ends. */
  lemma NoneSurvive(before: seq<ToolCall>, active: bool)
    ensures before != [] && Surviving(before, active) == [] ==>
      forall reason :: FinalisedReason(before, active, reason) == Ascii("end_turn")
  {
    hide Denied;
    SomeSurvive(before, active);
  }

  /** The flags the stage compacts by, for the module's own answer. */
  lemma GovernedFlags(before: seq<ToolCall>, callCount: int, mask: uint32, drops: uint32, reason: bytes,
                      answered: bool, r: Request)
    requires |before| == Clamped(callCount) && r.names == NamesOf(before)
    requires (answered <==> Askable(callCount, r)) && |reason| == TOOL_NAME_SLOT
    requires answered ==> Decision(mask, drops, CStr(reason)) == Decide(r)
    ensures var f := StageFlags(answered, callCount, mask, drops, reason);
      && (Applied(answered, callCount, mask, drops, reason) <==> answered)
      && (answered ==>
            KeepBy(before, f) == Surviving(before, r.active) && DropBy(before, f) == Refused(before, r.active))
      && (answered ==> CStr(reason) == FinalisedReason(before, r.active, r.reason))
      && (!answered ==> KeepBy(before, f) == [] && DropBy(before, f) == before)
  {
    hide CStr, Consistent, Flags;
    if answered {
      DecisionIsConsistent(r);
      assert Text(CStr(reason));
      MaskIsFilter(before, r.active, r.reason);
      DecisionFinalises(before, r.active, r.reason);
      KeepCount(before, Survivors(r));
    } else {
      NoneKeeps(before);
    }
  }
}
