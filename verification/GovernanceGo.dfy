/** The governance service in Go (server-go/modules/governance/governance.go). */
module GovernanceGo {
  import opened Bits
  import opened Bytes
  import opened Options
  import opened ModuleProtocol
  import opened GovernanceWire
  import opened GovernancePolicy

  method ZeroPadding(value: bytes) returns (ok: bool)
    ensures ok <==> AllZero(value)
  {
    for i := 0 to |value|
      invariant AllZero(value[..i])
    {
      if value[i] != 0 { return false; }
    }
    assert value[..|value|] == value;
    return true;
  }

  method NonzeroText(value: bytes) returns (ok: bool)
    ensures ok <==> NoZero(value)
  {
    for i := 0 to |value|
      invariant NoZero(value[..i])
    {
      if value[i] == 0 { return false; }
    }
    assert value[..|value|] == value;
    return true;
  }

  /** A slot's text and padding, each scanned. */
  method CheckSlot(slot: bytes, n: nat) returns (ok: bool)
    requires |slot| == TOOL_NAME_SLOT && n <= TOOL_NAME_MAX
    ensures ok <==> NoZero(slot[..n]) && AllZero(slot[n..])
  {
    ok := NonzeroText(slot[..n]);
    if ok { ok := ZeroPadding(slot[n..]); }
  }

  method DecodeRequest(request: bytes) returns (r: Option<Request>)
    ensures r == Parse(request)
  {
    hide U32;
    if |request| != REQUEST_LEN || U32(request, 0) != REQUEST_MAGIC || U32(request, 4) != GOV_WIRE_VERSION
       || U32(request, 8) > 1 || U32(request, 12) > TOOL_COUNT_MAX || U32(request, 16) > STOP_REASON_MAX
       || U32(request, 20) != 0 {
      return None;
    }
    var count := U32(request, 12);
    var names := new bytes[count](i => []);
    for index := 0 to TOOL_COUNT_MAX
      invariant forall k :: 0 <= k < index ==>
        NameOk(request, count, k) && (k < count ==> names[k] == NameRead(request, k))
    {
      var nameLen := U32(request, LengthOff(index));
      var slot := request[NameOff(index)..NameOff(index) + TOOL_NAME_SLOT];
      if nameLen > TOOL_NAME_MAX || (index >= count && nameLen != 0) {
        assert !NameOk(request, count, index);
        return None;
      }
      var ok := CheckSlot(slot, nameLen);
      SlotRanges(request, NameOff(index), nameLen);
      assert ok == NameOk(request, count, index);
      if !ok { return None; }
      if index < count { names[index] := slot[..nameLen]; }
    }
    var reasonLen := U32(request, 16);
    var reasonSlot := request[REQUEST_REASON_OFF..];
    var ok := CheckSlot(reasonSlot, reasonLen);
    assert reasonSlot == request[REQUEST_REASON_OFF..REQUEST_REASON_OFF + TOOL_NAME_SLOT];
    SlotRanges(request, REQUEST_REASON_OFF, reasonLen);
    if !ok { return None; }
    assert Acceptable(request);
    assert names[..] == RequestFields(request).names;
    return Some(Request(U32(request, 8) == 1, names[..], reasonSlot[..reasonLen]));
  }

  lemma SlotRanges(s: bytes, off: nat, n: nat)
    requires off + TOOL_NAME_SLOT <= |s| && n <= TOOL_NAME_SLOT
    ensures var slot := s[off..off + TOOL_NAME_SLOT];
      slot[..n] == s[off..off + n] && slot[n..] == s[off + n..off + TOOL_NAME_SLOT]
  {
  }

  /** The survivors as a mask built bit by bit, the number dropped, and the final stop reason. */
  method Evaluate(request: Request) returns (keepMask: uint32, drops: uint32, finalReason: bytes)
    requires Bounded(request)
    ensures Decision(keepMask, drops, finalReason) == Decide(request)
  {
    var count := |request.names|;
    keepMask := 0;
    if count > 0 {
      MaskFits(count);
      keepMask := Pow2(count) - 1;
    }
    if !request.active || count == 0 {
      NothingToDecide(request);
      return keepMask, 0, request.reason;
    }
    drops, keepMask := 0, 0;
    ghost var flags: seq<bool> := [];
    for index := 0 to count
      invariant flags == KeepFlags(request.names)[..index]
      invariant keepMask == Mask(flags) && drops == index - CountTrue(flags)
    {
      OrNextBit(flags);
      NextFlag(request.names, index);
      CountTrueAppend(flags, !Denied(request.names[index]));
      NextMaskFits(flags);
      if Denied(request.names[index]) {
        drops := drops + 1;
        flags := flags + [false];
      } else {
        keepMask := Or(keepMask, Pow2(index));
        flags := flags + [true];
      }
    }
    assert flags == KeepFlags(request.names);
    var kept := count - drops;
    finalReason := request.reason;
    if finalReason == [] || kept == 0 {
      if kept > 0 { finalReason := ToolUse(); } else { finalReason := EndTurn(); }
    }
  }

  lemma MaskFits(count: nat)
    requires count <= TOOL_COUNT_MAX
    ensures 1 <= Pow2(count) <= 0x1_0000
  {
    Pow2Monotone(count, TOOL_COUNT_MAX);
    PowerOf16();
  }

  lemma NextFlag(names: seq<bytes>, i: nat)
    requires i < |names|
    ensures KeepFlags(names)[..i + 1] == KeepFlags(names)[..i] + [!Denied(names[i])]
  {
  }

  lemma NextMaskFits(flags: seq<bool>)
    requires |flags| < TOOL_COUNT_MAX
    ensures 0 <= Mask(flags + [true]) < 0x1_0000
  {
    FlagsOfMask(flags + [true]);
    MaskFits(|flags| + 1);
  }

  /** Without calls or without an active policy everything is kept and the reason stands. */
  lemma NothingToDecide(r: Request)
    requires Bounded(r) && (!r.active || r.names == [])
    ensures Decide(r).keepMask == Pow2(|r.names|) - 1 && Decide(r).dropCount == 0 && Decide(r).reason == r.reason
  {
    if !r.active {
      InactiveKeepsAll(r);
    } else {
      assert Survivors(r) == [];
    }
  }

  /** The response buffer: fields at their offsets, the reason behind them, zeros elsewhere. */
  method BuildResponse(d: Decision) returns (response: bytes)
    requires Text(d.reason)
    ensures response == ResponseBytes(d)
  {
    var out := new byte[RESPONSE_LEN](i => 0);
    ghost var before := out[..];
    Put(out, 0, RESPONSE_MAGIC, 4);
    ghost var done := Le(RESPONSE_MAGIC, 4);
    PutNext(out, 4, GOV_WIRE_VERSION, 4, before, 0, done);
    done := done + Le(GOV_WIRE_VERSION, 4);
    PutNext(out, 8, d.keepMask, 4, before, 0, done);
    done := done + Le(d.keepMask, 4);
    PutNext(out, 12, d.dropCount, 4, before, 0, done);
    done := done + Le(d.dropCount, 4);
    PutNext(out, 16, |d.reason|, 4, before, 0, done);
    done := done + Le(|d.reason|, 4);
    Copy(out, RESPONSE_REASON_OFF, d.reason);
    SpelledResponse(before, done, d);
    return out[..];
  }

  /** Twenty bytes of fields and the reason, laid over zeros, are a response. */
  lemma SpelledResponse(before: bytes, done: bytes, d: Decision)
    requires before == Zeros(RESPONSE_LEN) && Text(d.reason) && |done| == 20
    requires ResponseFront(d) == done + Le(0, 4)
    ensures Splice(Splice(before, 0, done), RESPONSE_REASON_OFF, d.reason) == ResponseBytes(d)
  {
    ZeroField();
    hide Le;
  }

  lemma ZeroField()
    ensures Le(0, 4) == Zeros(4)
  {
    assert Le(0, 4) == [0, 0] + Le(0, 2);
  }

  /** Handles one invocation. */
  method Handle(stageID: uint32, cancelled: bool, request: bytes) returns (response: bytes, status: uint16)
    ensures Reply(status, response) == Answer(stageID, cancelled, request)
  {
    hide Parse, Decide, ResponseBytes;
    var decoded := DecodeRequest(request);
    if stageID != STAGE_EVALUATE || decoded.None? { return [], STATUS_INVALID_REQUEST; }
    if cancelled { return [], STATUS_CANCELLED; }
    ParseIffSpells(request, decoded.value);
    var keepMask, drops, finalReason := Evaluate(decoded.value);
    response := BuildResponse(Decision(keepMask, drops, finalReason));
    return response, STATUS_OK;
  }
}
