/** The governance handler in C (src/modules/governance/module_adapter.c), on NUL-terminated buffers, and its
    agreement with the Go handler. */
module GovernanceAdapter {
  import opened Bits
  import opened Bytes
  import opened Options
  import opened ModuleProtocol
  import opened GovernanceWire
  import opened GovernancePolicy
  import opened GovernanceApi
  import GovernanceGo

  /** The C side's own list; `strcmp` sees a buffer up to its terminator. */
  predicate DeniedTool(name: bytes) {
    CStr(name) == Ascii("Agent") || CStr(name) == Ascii("spawn_agent") || CStr(name) == Ascii("RemoteTrigger")
    || CStr(name) == Ascii("Task")
  }

  /** It denies the tools the policy denies. */
  lemma DeniedAlike(name: bytes)
    ensures DeniedTool(name) <==> Denied(CStr(name))
  {
    hide CStr;
  }

  /** Mask and drops over the rows of the name table. */
  method CountDenied(names: array<byte>, callCount: nat, ghost r: Request) returns (keepMask: uint32, drops: uint32)
    requires names.Length == TOOL_COUNT_MAX * TOOL_NAME_SLOT && Bounded(r) && callCount == |r.names|
    requires forall i :: 0 <= i < callCount ==> CStr(Row(names[..], i)) == r.names[i]
    ensures keepMask == Mask(KeepFlags(r.names)) && drops == callCount - CountTrue(KeepFlags(r.names))
  {
    hide CStr, Denied, DeniedTool;
    drops, keepMask := 0, 0;
    ghost var flags: seq<bool> := [];
    for i := 0 to callCount
      invariant flags == KeepFlags(r.names)[..i]
      invariant keepMask == Mask(flags) && drops == i - CountTrue(flags)
    {
      OrNextBit(flags);
      GovernanceGo.NextFlag(r.names, i);
      CountTrueAppend(flags, !Denied(r.names[i]));
      GovernanceGo.NextMaskFits(flags);
      DeniedAlike(names[i * TOOL_NAME_SLOT..(i + 1) * TOOL_NAME_SLOT]);
      if DeniedTool(names[i * TOOL_NAME_SLOT..(i + 1) * TOOL_NAME_SLOT]) {
        drops := drops + 1;
        flags := flags + [false];
      } else {
        keepMask := Or(keepMask, Pow2(i));
        flags := flags + [true];
      }
    }
    assert flags == KeepFlags(r.names);
  }

  /** The decision, from the decoded buffers. */
  method EvaluateBuffers(policyActive: int, names: array<byte>, callCount: uint32, originalReason: array<byte>,
                         ghost r: Request) returns (keepMask: uint32, drops: uint32, finalReason: array<byte>)
    requires names.Length == TOOL_COUNT_MAX * TOOL_NAME_SLOT && originalReason.Length == TOOL_NAME_SLOT
    requires Bounded(r) && Holds(names[..], originalReason[..], policyActive, callCount, r)
    ensures Decision(keepMask, drops, CStr(finalReason[..])) == Decide(r)
    ensures fresh(finalReason)
  {
    hide CStr, KeepFlags;
    keepMask, drops := MaskForCount(callCount), 0;
    finalReason := new byte[STOP_REASON_MAX + 1];
    Snprintf(finalReason, CStr(originalReason[..]));
    if policyActive != 0 && callCount > 0 {
      keepMask, drops := CountDenied(names, callCount, r);
      var kept := callCount - drops;
      StartsEmpty(originalReason[..]);
      if originalReason[0] == 0 || kept == 0 {
        ReasonsAreText();
        Snprintf(finalReason, if kept > 0 then ToolUse() else EndTurn());
      }
    } else {
      GovernanceGo.NothingToDecide(r);
    }
  }

  lemma StartsEmpty(s: bytes)
    requires s != []
    ensures s[0] == 0 <==> CStr(s) == []
  {
  }

  /** What a handler is told besides the request. */
  datatype Invocation = Invocation(stageID: uint32, cancelled: bool)

  /** The status of the C handler, for any pointers, NULL included. Without an invocation, a request, a place for
      the length or room for a response it refuses; without a response buffer an answer that has a body is an
      internal error; otherwise it is the policy's answer. */
  ghost function StatusOf(invocation: Option<Invocation>, request: Option<bytes>, response: array?<byte>,
                          capacity: nat, responseLen: Cell?): uint16 {
    if invocation.None? || request.None? || responseLen == null || capacity < RESPONSE_LEN then STATUS_INVALID_REQUEST
    else
      var status := Answer(invocation.value.stageID, invocation.value.cancelled, request.value).status;
      if status == STATUS_OK && response == null then STATUS_INTERNAL else status
  }

  /** That status, case by case: INVALID_REQUEST for a missing pointer, too little room, another stage or bytes that
      spell no request; CANCELLED for a cancelled invocation; INTERNAL without a response buffer; else OK. */
  lemma StatusSays(invocation: Option<Invocation>, request: Option<bytes>, response: array?<byte>, capacity: nat,
                   responseLen: Cell?)
    ensures var status := StatusOf(invocation, request, response, capacity, responseLen);
      if invocation.None? || request.None? || responseLen == null || capacity < 56 || invocation.value.stageID != 1
         || (forall r :: !Spells(request.value, r)) then status == 4
      else if invocation.value.cancelled then status == 2
      else if response == null then status == 5
      else status == 0
  {
    hide Answer, Spells;
    if invocation.Some? && request.Some? {
      AnswerSays(invocation.value.stageID, invocation.value.cancelled, request.value);
    }
  }

  /** The C handler: when it is OK, the policy's answer is in the first 56 bytes of the response buffer and
      nowhere else; otherwise neither buffer nor length is touched. */
  method ModuleHandler(invocation: Option<Invocation>, request: Option<bytes>, response: array?<byte>, capacity: nat,
                       responseLen: Cell?) returns (status: uint16)
    requires response != null ==> capacity <= response.Length
    modifies response, responseLen
    ensures status == StatusOf(invocation, request, response, capacity, responseLen)
    ensures status == STATUS_OK ==>
      && responseLen.value == RESPONSE_LEN
      && response[..] == Splice(old(response[..]), 0,
                                Answer(invocation.value.stageID, invocation.value.cancelled, request.value).body)
    ensures status != STATUS_OK && response != null ==> response[..] == old(response[..])
    ensures status != STATUS_OK && responseLen != null ==> responseLen.value == old(responseLen.value)
  {
    hide Parse, Decide, ResponseBytes, Splice;
    var names := new byte[TOOL_COUNT_MAX * TOOL_NAME_SLOT];
    var originalReason := new byte[STOP_REASON_MAX + 1];
    var policyActive := new Cell();
    var callCount := new Cell();
    if invocation.None? || responseLen == null || invocation.value.stageID != STAGE_EVALUATE
       || capacity < RESPONSE_LEN { return STATUS_INVALID_REQUEST; }
    var decoded := DecodeRequest(request, policyActive, names, callCount, originalReason);
    if !decoded { return STATUS_INVALID_REQUEST; }
    if invocation.value.cancelled { return STATUS_CANCELLED; }
    ghost var r := Parse(request.value).value;
    ParseIffSpells(request.value, r);
    var keepMask, drops, finalReason :=
      EvaluateBuffers(policyActive.value, names, callCount.value, originalReason, r);
    var encoded := EncodeResponse(keepMask, drops, Some(CStr(finalReason[..])), response, capacity);
    if !encoded { return STATUS_INTERNAL; }
    responseLen.value := RESPONSE_LEN;
    return STATUS_OK;
  }

  /** For every byte string offered as a request, every stage and either cancellation state: given room for a
      response, the two handlers return the same status, and on OK the same 56 bytes. */
  method HandlersAgree(stageID: uint32, cancelled: bool, request: bytes, response: array<byte>)
    returns (goStatus: uint16, goResponse: bytes, cStatus: uint16)
    requires response.Length >= RESPONSE_LEN
    modifies response
    ensures goStatus == cStatus
    ensures goStatus == STATUS_OK ==> |goResponse| == RESPONSE_LEN && response[..RESPONSE_LEN] == goResponse
    ensures goStatus != STATUS_OK ==> goResponse == [] && response[..] == old(response[..])
  {
    goResponse, goStatus := GovernanceGo.Handle(stageID, cancelled, request);
    var length := new Cell();
    cStatus := ModuleHandler(Some(Invocation(stageID, cancelled)), Some(request), response, response.Length, length);
    AnswerShape(stageID, cancelled, request);
  }

  lemma AnswerShape(stageID: uint32, cancelled: bool, request: bytes)
    ensures var reply := Answer(stageID, cancelled, request);
      |reply.body| == (if reply.status == STATUS_OK then RESPONSE_LEN else 0)
  {
    hide Decide, ResponseBytes;
  }
}
