/** The 40-byte AMOD envelope in front of every module payload (server-go/bus/module_protocol.go). */
module ModuleProtocol {
  import opened Bytes
  import opened Options

  const MESSAGE_MAGIC: uint32 := 0x444f4d41
  const MESSAGE_VERSION: uint16 := 1
  const MESSAGE_HEADER_LEN := 40
  const MESSAGE_MAX_BODY: uint32 := 0x100_0000

  const OP_INVOKE: uint16 := 1
  const OP_RESULT: uint16 := 2

  const STATUS_OK: uint16 := 0
  const STATUS_CAPABILITY_ABSENT: uint16 := 1
  const STATUS_CANCELLED: uint16 := 2
  const STATUS_DEADLINE_EXCEEDED: uint16 := 3
  const STATUS_INVALID_REQUEST: uint16 := 4
  const STATUS_INTERNAL: uint16 := 5

  datatype Message = Message(
    operation: uint16, status: uint16, stageID: uint32, flags: uint32, bodyLen: uint32,
    deadlineNS: uint64, traceID: uint64)

  predicate ValidStatus(status: uint16) { status <= STATUS_INTERNAL }

  predicate ValidMessage(m: Message) {
    && (m.operation == OP_INVOKE || m.operation == OP_RESULT)
    && m.status <= STATUS_INTERNAL
    && (m.operation == OP_INVOKE ==> m.status == STATUS_OK)
    && m.stageID != 0 && m.flags == 0 && m.bodyLen <= MESSAGE_MAX_BODY
  }

  /** The header fields, end to end. */
  function Envelope(m: Message): (s: bytes)
    ensures |s| == MESSAGE_HEADER_LEN
  {
    Le(MESSAGE_MAGIC, 4) + Le(MESSAGE_VERSION, 2) + Le(MESSAGE_HEADER_LEN, 2) + Le(m.operation, 2)
    + Le(m.status, 2) + Le(m.stageID, 4) + Le(m.flags, 4) + Le(m.bodyLen, 4) + Le(m.deadlineNS, 8)
    + Le(m.traceID, 8)
  }

  function MessageFields(s: bytes): Message
    requires |s| >= MESSAGE_HEADER_LEN
  {
    Message(U16(s, 8), U16(s, 10), U32(s, 12), U32(s, 16), U32(s, 20), U64(s, 24), U64(s, 32))
  }

  function DecodeMessage(s: bytes): Option<Message> {
    if |s| < MESSAGE_HEADER_LEN || U32(s, 0) != MESSAGE_MAGIC || U16(s, 4) != MESSAGE_VERSION
       || U16(s, 6) != MESSAGE_HEADER_LEN then None
    else
      var m := MessageFields(s);
      if !ValidMessage(m) || m.bodyLen > |s| - MESSAGE_HEADER_LEN then None else Some(m)
  }

  /** The body a decoded payload carries after its header. */
  function BodyOf(s: bytes): bytes
    requires DecodeMessage(s).Some?
  {
    s[MESSAGE_HEADER_LEN..MESSAGE_HEADER_LEN + DecodeMessage(s).value.bodyLen]
  }

  predicate DeadlineExpired(m: Message, nowNS: uint64) { m.deadlineNS != 0 && nowNS >= m.deadlineNS }

  method EncodeMessage(m: Message, out: array<byte>) returns (ok: bool)
    modifies out
    ensures ok <==> out.Length >= MESSAGE_HEADER_LEN && ValidMessage(m)
    ensures !ok ==> out[..] == old(out[..])
    ensures ok ==> out[..] == Splice(old(out[..]), 0, Envelope(m))
  {
    if out.Length < MESSAGE_HEADER_LEN || !ValidMessage(m) { return false; }
    Clear(out, 0, MESSAGE_HEADER_LEN);
    ghost var before := out[..];
    Put(out, 0, MESSAGE_MAGIC, 4);
    ghost var done := Le(MESSAGE_MAGIC, 4);
    PutNext(out, 4, MESSAGE_VERSION, 2, before, 0, done);
    done := done + Le(MESSAGE_VERSION, 2);
    PutNext(out, 6, MESSAGE_HEADER_LEN, 2, before, 0, done);
    done := done + Le(MESSAGE_HEADER_LEN, 2);
    PutNext(out, 8, m.operation, 2, before, 0, done);
    done := done + Le(m.operation, 2);
    PutNext(out, 10, m.status, 2, before, 0, done);
    done := done + Le(m.status, 2);
    PutNext(out, 12, m.stageID, 4, before, 0, done);
    done := done + Le(m.stageID, 4);
    PutNext(out, 16, m.flags, 4, before, 0, done);
    done := done + Le(m.flags, 4);
    PutNext(out, 20, m.bodyLen, 4, before, 0, done);
    done := done + Le(m.bodyLen, 4);
    PutNext(out, 24, m.deadlineNS, 8, before, 0, done);
    done := done + Le(m.deadlineNS, 8);
    PutNext(out, 32, m.traceID, 8, before, 0, done);
    done := done + Le(m.traceID, 8);
    SpliceOver(old(out[..]), 0, Zeros(MESSAGE_HEADER_LEN), done);
    return true;
  }

  lemma FieldsOfEnvelope(m: Message, s: bytes)
    requires |s| >= MESSAGE_HEADER_LEN && s[..MESSAGE_HEADER_LEN] == Envelope(m)
    ensures U32(s, 0) == MESSAGE_MAGIC && U16(s, 4) == MESSAGE_VERSION && U16(s, 6) == MESSAGE_HEADER_LEN
    ensures MessageFields(s) == m
  {
    Limits();
    hide Le, Limit, Val;
    var t0 := Le(MESSAGE_MAGIC, 4);
    var t1 := t0 + Le(MESSAGE_VERSION, 2);
    var t2 := t1 + Le(MESSAGE_HEADER_LEN, 2);
    var t3 := t2 + Le(m.operation, 2);
    var t4 := t3 + Le(m.status, 2);
    var t5 := t4 + Le(m.stageID, 4);
    var t6 := t5 + Le(m.flags, 4);
    var t7 := t6 + Le(m.bodyLen, 4);
    var t8 := t7 + Le(m.deadlineNS, 8);
    LastField(s, t8, m.traceID, 8);
    LastField(s, t7, m.deadlineNS, 8);
    LastField(s, t6, m.bodyLen, 4);
    LastField(s, t5, m.flags, 4);
    LastField(s, t4, m.stageID, 4);
    LastField(s, t3, m.status, 2);
    LastField(s, t2, m.operation, 2);
    LastField(s, t1, MESSAGE_HEADER_LEN, 2);
    LastField(s, t0, MESSAGE_VERSION, 2);
    LastField(s, [], MESSAGE_MAGIC, 4);
  }

  /** Decode after encode: a valid message followed by at least its body survives. */
  lemma DecodeOfEnvelope(m: Message, rest: bytes)
    requires ValidMessage(m) && m.bodyLen <= |rest|
    ensures DecodeMessage(Envelope(m) + rest) == Some(m)
    ensures BodyOf(Envelope(m) + rest) == rest[..m.bodyLen]
  {
    FieldsOfEnvelope(m, Envelope(m) + rest);
  }

  /** Encode after decode: an accepted header is the only spelling of its message. */
  lemma EnvelopeOfDecoded(s: bytes)
    requires DecodeMessage(s).Some?
    ensures ValidMessage(DecodeMessage(s).value)
    ensures s[..MESSAGE_HEADER_LEN] == Envelope(DecodeMessage(s).value)
  {
    var m := MessageFields(s);
    var t0 := Le(MESSAGE_MAGIC, 4);
    var t1 := t0 + Le(MESSAGE_VERSION, 2);
    var t2 := t1 + Le(MESSAGE_HEADER_LEN, 2);
    var t3 := t2 + Le(m.operation, 2);
    var t4 := t3 + Le(m.status, 2);
    var t5 := t4 + Le(m.stageID, 4);
    var t6 := t5 + Le(m.flags, 4);
    var t7 := t6 + Le(m.bodyLen, 4);
    var t8 := t7 + Le(m.deadlineNS, 8);
    NextField(s, [], 4); NextField(s, t0, 2); NextField(s, t1, 2); NextField(s, t2, 2); NextField(s, t3, 2);
    NextField(s, t4, 4); NextField(s, t5, 4); NextField(s, t6, 4); NextField(s, t7, 8); NextField(s, t8, 8);
  }
}
