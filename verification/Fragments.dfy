/** How a body travels: cut into AMOD messages that each fit the inline budget, in order, all but the last
    marked `more` (server-go/bus/module_caller.go:134-163, server-go/bus/module_runtime.go:223-275). */
module Fragments {
  import opened Bytes
  import opened Options
  import opened ModuleProtocol
  import opened Events
  import Bits

  /** What every fragment of one body has in common. */
  datatype Stream = Stream(kind: uint32, correlation: uint64, operation: uint16, status: uint16,
                           stageID: uint32, deadlineNS: uint64, traceID: uint64)

  function PartMessage(st: Stream, length: uint32): Message {
    Message(st.operation, st.status, st.stageID, 0, length, st.deadlineNS, st.traceID)
  }

  function Part(st: Stream, part: bytes, more: bool): Fragment
    requires |part| < 0x1_0000_0000
  {
    Fragment(st.kind, st.correlation, Envelope(PartMessage(st, |part|)) + part, more)
  }

  /** The one fragment sequence of a body for a chunk size. An empty body takes one fragment. */
  function Cut(st: Stream, body: bytes, chunk: nat): (fs: seq<Fragment>)
    requires 0 < chunk < 0x1_0000_0000
    ensures |fs| > 0
    decreases |body|
  {
    if |body| <= chunk then [Part(st, body, false)]
    else [Part(st, body[..chunk], true)] + Cut(st, body[chunk..], chunk)
  }

  predicate SendableStream(st: Stream) {
    && (st.operation == OP_INVOKE || st.operation == OP_RESULT)
    && ValidStatus(st.status) && (st.operation == OP_INVOKE ==> st.status == STATUS_OK)
    && st.stageID != 0
  }

  /** The piece of body a fragment carries. */
  function Carried(f: Fragment): bytes {
    if DecodeMessage(f.payload).Some? then BodyOf(f.payload) else []
  }

  function AllCarried(fs: seq<Fragment>): bytes {
    if fs == [] then [] else Carried(fs[0]) + AllCarried(fs[1..])
  }

  lemma PartDecodes(st: Stream, part: bytes, more: bool)
    requires SendableStream(st) && |part| <= MESSAGE_MAX_BODY
    ensures var f := Part(st, part, more);
      DecodeMessage(f.payload) == Some(PartMessage(st, |part|)) && Carried(f) == part
  {
    DecodeOfEnvelope(PartMessage(st, |part|), part);
  }

  predicate FragmentOf(st: Stream, f: Fragment) {
    && f.kind == st.kind && f.correlation == st.correlation
    && DecodeMessage(f.payload).Some?
    && DecodeMessage(f.payload).value == PartMessage(st, DecodeMessage(f.payload).value.bodyLen)
  }

  /** A fragment of the stream with a piece of at most `chunk` bytes, final or not. */
  predicate Piece(st: Stream, f: Fragment, chunk: nat, last: bool) {
    && FragmentOf(st, f) && (f.more <==> !last) && |Carried(f)| <= chunk
    && |f.payload| == MESSAGE_HEADER_LEN + |Carried(f)|
  }

  /** Cutting and joining are inverse, whatever the chunk size; every piece decodes to the same stream,
      fits the chunk, and only the last is final. */
  lemma {:induction false} CutIsFaithful(st: Stream, body: bytes, chunk: nat)
    requires SendableStream(st) && 0 < chunk < 0x1_0000_0000 && |body| <= MESSAGE_MAX_BODY
    ensures var fs := Cut(st, body, chunk);
      && AllCarried(fs) == body
      && (forall i :: 0 <= i < |fs| ==> Piece(st, fs[i], chunk, i == |fs| - 1))
    decreases |body|
  {
    hide Piece, DecodeMessage, Carried, Envelope, AllCarried;
    var fs := Cut(st, body, chunk);
    if |body| <= chunk {
      OnePiece(st, body, chunk, false);
      Carry(fs);
      assert fs[1..] == [];
      CarryNothing();
      assert body + [] == body;
    } else {
      OnePiece(st, body[..chunk], chunk, true);
      CutIsFaithful(st, body[chunk..], chunk);
      Carry(fs);
      assert fs[1..] == Cut(st, body[chunk..], chunk);
      assert body[..chunk] + body[chunk..] == body;
      forall i | 1 <= i < |fs|
        ensures Piece(st, fs[i], chunk, i == |fs| - 1)
      {
        assert fs[i] == fs[1..][i - 1];
      }
    }
  }

  lemma OnePiece(st: Stream, part: bytes, chunk: nat, more: bool)
    requires SendableStream(st) && |part| <= chunk < 0x1_0000_0000 && |part| <= MESSAGE_MAX_BODY
    ensures Piece(st, Part(st, part, more), chunk, !more) && Carried(Part(st, part, more)) == part
  {
    PartDecodes(st, part, more);
    hide DecodeMessage, Carried, Envelope;
  }

  lemma Carry(fs: seq<Fragment>)
    requires fs != []
    ensures AllCarried(fs) == Carried(fs[0]) + AllCarried(fs[1..])
  {
  }

  lemma CarryNothing()
    ensures AllCarried([]) == []
  {
  }

  /** The number of fragments: one for an empty body, else the body length over the chunk, rounded up. */
  lemma {:induction false} CutCount(st: Stream, body: bytes, chunk: nat)
    requires 0 < chunk < 0x1_0000_0000
    ensures |Cut(st, body, chunk)| == if body == [] then 1 else (|body| + chunk - 1) / chunk
    decreases |body|
  {
    if |body| > chunk {
      CutCount(st, body[chunk..], chunk);
      var n := |body| as int + chunk - 1;
      OneChunkLess(n, chunk);
    } else if body != [] {
      Bits.RemainderUnique(|body| + chunk - 1, 1, chunk, |body| - 1);
    }
  }

  lemma OneChunkLess(n: nat, chunk: nat)
    requires 0 < chunk <= n
    ensures n / chunk == (n - chunk) / chunk + 1
  {
    var q := (n - chunk) / chunk;
    assert n == (q + 1) * chunk + (n - chunk) % chunk;
    Bits.RemainderUnique(n, q + 1, chunk, (n - chunk) % chunk);
  }

  // ---- replies ----

  /** The status and body actually sent: nothing but an OK result carries a body. */
  function SentStatus(status: uint16, body: bytes): uint16 {
    if !ValidStatus(status) || |body| > MESSAGE_MAX_BODY then STATUS_INTERNAL else status
  }

  function SentBody(status: uint16, body: bytes): bytes {
    if !ValidStatus(status) || |body| > MESSAGE_MAX_BODY || status != STATUS_OK then [] else body
  }

  function ReplyStream(kind: uint32, correlation: uint64, stageID: uint32, traceID: uint64, status: uint16,
                       body: bytes): Stream {
    Stream(kind, correlation, OP_RESULT, SentStatus(status, body), stageID, 0, traceID)
  }

  /** Every fragment of a reply, for a budget that leaves room for a body. */
  function ReplyFragments(budget: uint32, kind: uint32, correlation: uint64, stageID: uint32, traceID: uint64,
                          status: uint16, body: bytes): (fs: seq<Fragment>)
    requires budget > MESSAGE_HEADER_LEN
    ensures |fs| > 0
  {
    Cut(ReplyStream(kind, correlation, stageID, traceID, status, body), SentBody(status, body),
        budget - MESSAGE_HEADER_LEN)
  }

  /** No reply that is not OK carries a byte of body. */
  lemma RefusalsCarryNothing(budget: uint32, kind: uint32, correlation: uint64, stageID: uint32,
                             traceID: uint64, status: uint16, body: bytes)
    requires budget > MESSAGE_HEADER_LEN && stageID != 0
    ensures var fs := ReplyFragments(budget, kind, correlation, stageID, traceID, status, body);
      && (forall i :: 0 <= i < |fs| ==> DecodeMessage(fs[i].payload).Some?)
      && (forall i :: 0 <= i < |fs| ==>
            DecodeMessage(fs[i].payload).value.status == SentStatus(status, body)
            && (SentStatus(status, body) != STATUS_OK ==> |fs| == 1 && Carried(fs[i]) == [] && !fs[i].more))
  {
    CutIsFaithful(ReplyStream(kind, correlation, stageID, traceID, status, body), SentBody(status, body),
                  budget - MESSAGE_HEADER_LEN);
  }

  /** What every fragment of a reply says: the kind, correlation, stage and trace it answers, the status sent, no
      deadline, and the length of its piece. */
  lemma ReplySays(budget: uint32, kind: uint32, correlation: uint64, stageID: uint32, traceID: uint64, status: uint16,
                  body: bytes, i: nat)
    requires budget > MESSAGE_HEADER_LEN && stageID != 0
    requires i < |ReplyFragments(budget, kind, correlation, stageID, traceID, status, body)|
    ensures var f := ReplyFragments(budget, kind, correlation, stageID, traceID, status, body)[i];
      && f.kind == kind && f.correlation == correlation && |Carried(f)| < 0x1_0000_0000
      && DecodeMessage(f.payload) ==
           Some(Message(OP_RESULT, SentStatus(status, body), stageID, 0, |Carried(f)|, 0, traceID))
  {
    var st := ReplyStream(kind, correlation, stageID, traceID, status, body);
    CutIsFaithful(st, SentBody(status, body), budget - MESSAGE_HEADER_LEN);
    hide Cut, Envelope, DecodeMessage, Piece, Carried;
    PieceSays(st, ReplyFragments(budget, kind, correlation, stageID, traceID, status, body)[i],
              budget - MESSAGE_HEADER_LEN);
  }

  lemma PieceSays(st: Stream, f: Fragment, chunk: nat)
    requires chunk < 0x1_0000_0000 && (Piece(st, f, chunk, true) || Piece(st, f, chunk, false))
    ensures |Carried(f)| < 0x1_0000_0000 && f.kind == st.kind && f.correlation == st.correlation
    ensures DecodeMessage(f.payload) ==
      Some(Message(st.operation, st.status, st.stageID, 0, |Carried(f)|, st.deadlineNS, st.traceID))
  {
    hide MessageFields, ValidMessage, U16, U32;
  }

  /** What is sent: the status and body given, unless no status has that number or the body is too long, which is an
      internal error; and a body only under OK. */
  lemma WhatIsSent(status: uint16, body: bytes)
    ensures status <= 5 && |body| <= 0x100_0000 ==> SentStatus(status, body) == status
    ensures status > 5 || |body| > 0x100_0000 ==> SentStatus(status, body) == 5
    ensures SentBody(status, body) == if SentStatus(status, body) == 0 then body else []
  {
  }
}
