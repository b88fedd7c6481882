/** The governance decision itself, independent of the language that computes it. */
module GovernancePolicy {
  import opened Bits
  import opened Bytes
  import opened Options
  import opened ModuleProtocol
  import opened GovernanceWire

  /** The bytes of a plain text constant. */
  function Ascii(s: string): (t: bytes)
    ensures |t| == |s|
  {
    seq(|s|, i requires 0 <= i < |s| => s[i] as int % 256)
  }

  /** The tools an active policy denies. */
  predicate Denied(name: bytes) {
    name == Ascii("Agent") || name == Ascii("spawn_agent") || name == Ascii("RemoteTrigger") || name == Ascii("Task")
  }

  /** They are four, byte for byte: the names of the tools that start or trigger another agent. */
  lemma DeniedAre(name: bytes)
    ensures Denied(name) <==>
      || name == [65, 103, 101, 110, 116]
      || name == [115, 112, 97, 119, 110, 95, 97, 103, 101, 110, 116]
      || name == [82, 101, 109, 111, 116, 101, 84, 114, 105, 103, 103, 101, 114]
      || name == [84, 97, 115, 107]
  {
    assert Ascii("Agent") == [65, 103, 101, 110, 116];
    assert Ascii("spawn_agent") == [115, 112, 97, 119, 110, 95, 97, 103, 101, 110, 116];
    assert Ascii("RemoteTrigger") == [82, 101, 109, 111, 116, 101, 84, 114, 105, 103, 103, 101, 114];
    assert Ascii("Task") == [84, 97, 115, 107];
  }

  function ToolUse(): bytes { Ascii("tool_use") }

  function EndTurn(): bytes { Ascii("end_turn") }

  /** Which calls survive an active policy. */
  function KeepFlags(names: seq<bytes>): (fs: seq<bool>)
    ensures |fs| == |names|
  {
    seq(|names|, i requires 0 <= i < |names| => !Denied(names[i]))
  }

  /** Which calls survive: all of them when the policy is not active. */
  function Survivors(r: Request): (fs: seq<bool>)
    ensures |fs| == |r.names|
  {
    if r.active then KeepFlags(r.names) else seq(|r.names|, i => true)
  }

  /** The stop reason after an active policy has kept `kept` calls. */
  function FinalReason(reason: bytes, kept: nat): bytes {
    if reason == [] || kept == 0 then (if kept > 0 then ToolUse() else EndTurn()) else reason
  }

  function Decide(r: Request): (d: Decision)
    requires Bounded(r)
    ensures Text(d.reason)
  {
    SurvivorsFit(r);
    ReasonsAreText();
    var kept := CountTrue(Survivors(r));
    Decision(Mask(Survivors(r)), |r.names| - kept,
             if r.active && r.names != [] then FinalReason(r.reason, kept) else r.reason)
  }

  lemma ReasonsAreText()
    ensures Text(ToolUse()) && Text(EndTurn())
  {
  }

  lemma SurvivorsFit(r: Request)
    requires Bounded(r)
    ensures Mask(Survivors(r)) < Pow2(|r.names|) <= 0x1_0000 && CountTrue(Survivors(r)) <= |r.names|
  {
    FlagsOfMask(Survivors(r));
    AtMostAll(Survivors(r));
    Pow2Monotone(|r.names|, TOOL_COUNT_MAX);
    PowerOf16();
  }

  lemma PowerOf16()
    ensures Pow2(16) == 0x1_0000
  {
    assert Pow2(16) == 16 * Pow2(12) && Pow2(12) == 16 * Pow2(8) && Pow2(8) == 16 * Pow2(4);
  }

  lemma {:induction false} AtMostAll(fs: seq<bool>)
    ensures CountTrue(fs) <= |fs|
  {
    if fs != [] { AtMostAll(fs[1..]); }
  }

  lemma {:induction false} Pow2Monotone(m: nat, n: nat)
    requires m <= n
    ensures Pow2(m) <= Pow2(n)
  {
    if m < n { Pow2Monotone(m, n - 1); }
  }

  /** Every decision is one the calling side accepts, and its mask says exactly who survives. */
  lemma DecisionIsConsistent(r: Request)
    requires Bounded(r)
    ensures var d := Decide(r);
      && Consistent(d.keepMask, d.dropCount, |r.names|)
      && Flags(d.keepMask, |r.names|) == Survivors(r)
  {
    SurvivorsFit(r);
    FlagsOfMask(Survivors(r));
    MaskOfFlags(Mask(Survivors(r)), |r.names|);
  }

  /** With no active policy nothing is dropped. */
  lemma {:induction false} InactiveKeepsAll(r: Request)
    requires Bounded(r) && !r.active
    ensures var d := Decide(r); d.keepMask == Pow2(|r.names|) - 1 && d.dropCount == 0 && d.reason == r.reason
  {
    MaskAllTrue(|r.names|);
    AllTrueCount(|r.names|);
    Pow2Monotone(|r.names|, TOOL_COUNT_MAX);
    PowerOf16();
  }

  lemma {:induction false} AllTrueCount(n: nat)
    ensures CountTrue(seq(n, i => true)) == n
  {
    if n > 0 {
      AllTrueCount(n - 1);
      assert seq(n, i => true)[1..] == seq(n - 1, i => true);
    }
  }

  lemma {:induction false} NoneTrue(fs: seq<bool>)
    ensures CountTrue(fs) == 0 <==> forall i :: 0 <= i < |fs| ==> !fs[i]
  {
    if fs != [] {
      NoneTrue(fs[1..]);
      assert forall i :: 0 < i < |fs| ==> fs[i] == fs[1..][i - 1];
    }
  }

  /** What the decision says: that the turn ends if an active policy leaves no call, the reason there was if it
      leaves one, or that tools are used where none was given; without a policy or calls the reason stands. */
  lemma ReasonSays(r: Request)
    requires Bounded(r)
    ensures r.active && r.names != [] && (forall i :: 0 <= i < |r.names| ==> Denied(r.names[i])) ==>
      Decide(r).reason == Ascii("end_turn")
    ensures r.active && (exists i :: 0 <= i < |r.names| && !Denied(r.names[i])) ==>
      Decide(r).reason == if r.reason == [] then Ascii("tool_use") else r.reason
    ensures !r.active || r.names == [] ==> Decide(r).reason == r.reason
  {
    hide Denied;
    NoneTrue(KeepFlags(r.names));
    if i :| 0 <= i < |r.names| && !Denied(r.names[i]) { assert KeepFlags(r.names)[i]; }
    assert forall i :: 0 <= i < |r.names| ==> KeepFlags(r.names)[i] == !Denied(r.names[i]);
  }

  // ---- what the service answers ----

  datatype Reply = Reply(status: uint16, body: bytes)

  /** The answer to any byte string: refused unless it is a request for this stage, then cancelled if the
      invocation is, else the decision. */
  function Answer(stageID: uint32, cancelled: bool, request: bytes): Reply {
    match Parse(request)
    case None => Reply(STATUS_INVALID_REQUEST, [])
    case Some(r) =>
      if stageID != STAGE_EVALUATE then Reply(STATUS_INVALID_REQUEST, [])
      else if cancelled then Reply(STATUS_CANCELLED, [])
      else
        ParseIffSpells(request, r);
        Reply(STATUS_OK, ResponseBytes(Decide(r)))
  }

  /** What is answered: INVALID_REQUEST to another stage and to bytes that spell no request; to a request CANCELLED if
      the invocation is, and else OK with the decision on it. Only OK has a body. */
  lemma AnswerSays(stageID: uint32, cancelled: bool, request: bytes)
    ensures stageID != 1 || (forall r :: !Spells(request, r)) ==> Answer(stageID, cancelled, request) == Reply(4, [])
    ensures forall r :: stageID == 1 && Spells(request, r) ==>
      Answer(stageID, cancelled, request) == if cancelled then Reply(2, []) else Reply(0, ResponseBytes(Decide(r)))
  {
    hide Parse, Spells, Decide, ResponseBytes;
    if Parse(request).Some? { ParseIffSpells(request, Parse(request).value); }
    forall r | Spells(request, r)
      ensures Parse(request) == Some(r)
    {
      ParseIffSpells(request, r);
    }
  }

  /** Asking and reading the answer back: for every bounded request, the answer to its encoding decodes to
      the decision on it. */
  lemma AnswerRoundTrip(request: bytes, r: Request)
    requires Spells(request, r)
    ensures var reply := Answer(STAGE_EVALUATE, false, request);
      reply.status == STATUS_OK && ParseResponse(reply.body, |r.names|) == Some(Decide(r))
  {
    ParseIffSpells(request, r);
    DecisionIsConsistent(r);
    hide Decide, Parse, Spells, ResponseBytes, Consistent, ParseResponse;
    ParseResponseIff(ResponseBytes(Decide(r)), |r.names|, Decide(r));
  }
}
