/** The GOVQ request and GOVR response of the governance process: what a buffer has to look like to spell a
    request or a decision (server-go/modules/governance/governance.go and
    src/modules/governance/include/aimee/governance/module_api.h). */
module GovernanceWire {
  import opened Bits
  import opened Bytes
  import opened Options

  const REQUEST_MAGIC: uint32 := 0x51564f47
  const RESPONSE_MAGIC: uint32 := 0x52564f47
  const GOV_WIRE_VERSION: uint32 := 1
  const TOOL_COUNT_MAX := 16
  const TOOL_NAME_MAX := 31
  const TOOL_NAME_SLOT := 32
  const STOP_REASON_MAX := 31
  const TOOL_LENGTHS_OFF := 24
  const TOOL_NAMES_OFF := 88
  const REQUEST_REASON_OFF := 600
  const REQUEST_LEN := 632
  const RESPONSE_REASON_OFF := 24
  const RESPONSE_LEN := 56

  const STAGE_EVALUATE: uint32 := 1

  /** A policy question. */
  datatype Request = Request(active: bool, names: seq<bytes>, reason: bytes)

  /** A policy answer: one bit per kept call, the number dropped, the final stop reason. */
  datatype Decision = Decision(keepMask: uint32, dropCount: uint32, reason: bytes)

  /** Text that fits a 32-byte slot with room for a terminator. */
  predicate Text(t: bytes) { |t| <= TOOL_NAME_MAX && NoZero(t) }

  predicate Bounded(r: Request) {
    && |r.names| <= TOOL_COUNT_MAX && Text(r.reason)
    && forall i :: 0 <= i < |r.names| ==> Text(r.names[i])
  }

  // ---- slots ----

  /** Text padded with zeros to a slot. */
  function Slot(t: bytes): (s: bytes)
    requires |t| <= TOOL_NAME_SLOT
    ensures |s| == TOOL_NAME_SLOT
  {
    t + Zeros(TOOL_NAME_SLOT - |t|)
  }

  /** `n` bytes of text, then only padding. */
  predicate SlotOk(s: bytes, off: nat, n: nat)
    requires off + TOOL_NAME_SLOT <= |s|
  {
    n <= TOOL_NAME_MAX && NoZero(s[off..off + n]) && AllZero(s[off + n..off + TOOL_NAME_SLOT])
  }

  /** A slot holds a text exactly when it passes the checks for the text's length and starts with it. */
  lemma SlotSpells(s: bytes, off: nat, t: bytes)
    requires off + TOOL_NAME_SLOT <= |s| && |t| <= TOOL_NAME_MAX
    ensures NoZero(t) && s[off..off + TOOL_NAME_SLOT] == Slot(t)
       <==> SlotOk(s, off, |t|) && s[off..off + |t|] == t
  {
    var n := |t|;
    var slot := s[off..off + TOOL_NAME_SLOT];
    assert slot[..n] == s[off..off + n] && slot[n..] == s[off + n..off + TOOL_NAME_SLOT];
    if NoZero(t) && slot == Slot(t) {
      assert slot[..n] == t;
      assert slot[n..] == Zeros(TOOL_NAME_SLOT - n);
    }
    if SlotOk(s, off, n) && s[off..off + n] == t {
      assert slot == slot[..n] + slot[n..];
      assert slot[n..] == Zeros(TOOL_NAME_SLOT - n);
    }
  }

  // ---- requests ----

  function Front(active: bool, count: uint32, reasonLen: uint32): (s: bytes)
    ensures |s| == TOOL_LENGTHS_OFF
  {
    Le(REQUEST_MAGIC, 4) + Le(GOV_WIRE_VERSION, 4) + Le(if active then 1 else 0, 4) + Le(count, 4)
    + Le(reasonLen, 4) + Le(0, 4)
  }

  /** The name in slot `i`: unused slots hold the empty name. */
  function NameIn(names: seq<bytes>, i: nat): bytes { if i < |names| then names[i] else [] }

  predicate AllShort(names: seq<bytes>) { forall i :: 0 <= i < |names| ==> |names[i]| <= TOOL_NAME_MAX }

  /** The layout: front, sixteen lengths, sixteen name slots, the reason slot. */
  predicate Laid(s: bytes, front: bytes, names: seq<bytes>, reason: bytes)
    requires |reason| <= TOOL_NAME_MAX && AllShort(names)
  {
    && |s| >= REQUEST_LEN && s[..TOOL_LENGTHS_OFF] == front
    && (forall i :: 0 <= i < TOOL_COUNT_MAX ==> LengthLaid(s, names, i))
    && (forall i :: 0 <= i < TOOL_COUNT_MAX ==> NameLaid(s, names, i))
    && s[REQUEST_REASON_OFF..REQUEST_LEN] == Slot(reason)
  }

  predicate LengthLaid(s: bytes, names: seq<bytes>, i: nat)
    requires |s| >= REQUEST_LEN && i < TOOL_COUNT_MAX
  {
    s[LengthOff(i)..LengthOff(i) + 4] == Le(|NameIn(names, i)|, 4)
  }

  predicate NameLaid(s: bytes, names: seq<bytes>, i: nat)
    requires |s| >= REQUEST_LEN && i < TOOL_COUNT_MAX
    requires AllShort(names)
  {
    s[NameOff(i)..NameOff(i) + TOOL_NAME_SLOT] == Slot(NameIn(names, i))
  }

  function LengthOff(i: nat): nat { TOOL_LENGTHS_OFF + i * 4 }

  function NameOff(i: nat): nat { TOOL_NAMES_OFF + i * TOOL_NAME_SLOT }

  /** A buffer that spells a request. */
  predicate Spells(s: bytes, r: Request) {
    && |s| == REQUEST_LEN && Bounded(r)
    && Laid(s, Front(r.active, |r.names|, |r.reason|), r.names, r.reason)
  }

  // ---- reading a request ----

  predicate FrontOk(s: bytes)
    requires |s| >= TOOL_LENGTHS_OFF
  {
    && U32(s, 0) == REQUEST_MAGIC && U32(s, 4) == GOV_WIRE_VERSION && U32(s, 8) <= 1
    && U32(s, 12) <= TOOL_COUNT_MAX && U32(s, 16) <= STOP_REASON_MAX && U32(s, 20) == 0
  }

  predicate NameOk(s: bytes, count: nat, i: nat)
    requires |s| == REQUEST_LEN && i < TOOL_COUNT_MAX
  {
    var n := U32(s, LengthOff(i));
    n <= TOOL_NAME_MAX && (i >= count ==> n == 0) && SlotOk(s, NameOff(i), n)
  }

  predicate Acceptable(s: bytes) {
    && |s| == REQUEST_LEN && FrontOk(s)
    && (forall i :: 0 <= i < TOOL_COUNT_MAX ==> NameOk(s, U32(s, 12), i))
    && SlotOk(s, REQUEST_REASON_OFF, U32(s, 16))
  }

  function NameRead(s: bytes, i: nat): bytes
    requires |s| == REQUEST_LEN && i < TOOL_COUNT_MAX && U32(s, LengthOff(i)) <= TOOL_NAME_MAX
  {
    s[NameOff(i)..NameOff(i) + U32(s, LengthOff(i))]
  }

  function RequestFields(s: bytes): Request
    requires Acceptable(s)
  {
    Request(U32(s, 8) == 1,
            seq(U32(s, 12), i requires 0 <= i < U32(s, 12) => assert NameOk(s, U32(s, 12), i); NameRead(s, i)),
            s[REQUEST_REASON_OFF..REQUEST_REASON_OFF + U32(s, 16)])
  }

  /** What a decoder returns: none unless every check passes. */
  function Parse(s: bytes): Option<Request> {
    if Acceptable(s) then Some(RequestFields(s)) else None
  }

  lemma FrontFields(s: bytes, active: bool, count: uint32, reasonLen: uint32)
    requires |s| >= TOOL_LENGTHS_OFF && s[..TOOL_LENGTHS_OFF] == Front(active, count, reasonLen)
    ensures U32(s, 0) == REQUEST_MAGIC && U32(s, 4) == GOV_WIRE_VERSION && U32(s, 8) == (if active then 1 else 0)
    ensures U32(s, 12) == count && U32(s, 16) == reasonLen && U32(s, 20) == 0
  {
    Limits();
    hide Le, Limit, Val;
    var t1 := Le(REQUEST_MAGIC, 4);
    var t2 := t1 + Le(GOV_WIRE_VERSION, 4);
    var t3 := t2 + Le(if active then 1 else 0, 4);
    var t4 := t3 + Le(count, 4);
    var t5 := t4 + Le(reasonLen, 4);
    LastField(s, t5, 0, 4);
    LastField(s, t4, reasonLen, 4);
    LastField(s, t3, count, 4);
    LastField(s, t2, if active then 1 else 0, 4);
    LastField(s, t1, GOV_WIRE_VERSION, 4);
    LastField(s, [], REQUEST_MAGIC, 4);
  }

  lemma FrontOfFields(s: bytes)
    requires |s| >= TOOL_LENGTHS_OFF && FrontOk(s)
    ensures s[..TOOL_LENGTHS_OFF] == Front(U32(s, 8) == 1, U32(s, 12), U32(s, 16))
  {
    hide Le, Val;
    var t1 := Le(REQUEST_MAGIC, 4);
    var t2 := t1 + Le(GOV_WIRE_VERSION, 4);
    var t3 := t2 + Le(U32(s, 8), 4);
    var t4 := t3 + Le(U32(s, 12), 4);
    var t5 := t4 + Le(U32(s, 16), 4);
    NextField(s, [], 4); NextField(s, t1, 4); NextField(s, t2, 4);
    NextField(s, t3, 4); NextField(s, t4, 4); NextField(s, t5, 4);
  }

  /** One field read back. */
  lemma FieldIs(s: bytes, off: nat, v: uint32)
    requires off + 4 <= |s|
    ensures s[off..off + 4] == Le(v, 4) <==> U32(s, off) == v
  {
    Limits();
    hide Le, Limit, Val;
    ValOfLe(v, 4);
    LeOfVal(s[off..off + 4]);
  }

  /** A name slot with its length spells a name exactly when the decoder's checks pass and read it. */
  lemma NameSpells(s: bytes, names: seq<bytes>, i: nat)
    requires |s| == REQUEST_LEN && i < TOOL_COUNT_MAX && |names| <= TOOL_COUNT_MAX
    requires AllShort(names)
    ensures NoZero(NameIn(names, i)) && LengthLaid(s, names, i) && NameLaid(s, names, i)
       <==> NameOk(s, |names|, i) && NameRead(s, i) == NameIn(names, i)
  {
    FieldIs(s, LengthOff(i), |NameIn(names, i)|);
    SlotSpells(s, NameOff(i), NameIn(names, i));
    hide U32, Slot, Le, SlotOk;
  }

  /** The decoder and the layout are inverse: a buffer is accepted as a request exactly when it spells it. So
      decoding what was encoded gives the request back, and an accepted buffer is the only encoding of it. */
  lemma ParseIffSpells(s: bytes, r: Request)
    ensures Parse(s) == Some(r) <==> Spells(s, r)
  {
    if Parse(s) == Some(r) { ParsedSpells(s); }
    if Spells(s, r) { SpelledParses(s, r); }
  }

  lemma ParsedSpells(s: bytes)
    requires Acceptable(s)
    ensures Spells(s, RequestFields(s))
  {
    assert U32(s, 12) <= TOOL_COUNT_MAX && U32(s, 16) <= STOP_REASON_MAX;
    hide U32, Slot, Le, SlotOk, LengthLaid, NameLaid, Front, FrontOk;
    var r := RequestFields(s);
    forall i | 0 <= i < |r.names|
      ensures Text(r.names[i])
    {
      assert NameOk(s, U32(s, 12), i);
      ReadIsText(s, NameOff(i), U32(s, LengthOff(i)));
    }
    ReadIsText(s, REQUEST_REASON_OFF, U32(s, 16));
    FrontOfFields(s);
    SlotSpells(s, REQUEST_REASON_OFF, r.reason);
    forall i | 0 <= i < TOOL_COUNT_MAX
      ensures LengthLaid(s, r.names, i) && NameLaid(s, r.names, i)
    {
      assert NameOk(s, U32(s, 12), i);
      NameSpells(s, r.names, i);
    }
  }

  lemma ReadIsText(s: bytes, off: nat, n: nat)
    requires off + TOOL_NAME_SLOT <= |s| && SlotOk(s, off, n)
    ensures Text(s[off..off + n])
  {
  }

  lemma SpelledParses(s: bytes, r: Request)
    requires Spells(s, r)
    ensures Parse(s) == Some(r)
  {
    FrontFields(s, r.active, |r.names|, |r.reason|);
    SlotSpells(s, REQUEST_REASON_OFF, r.reason);
    hide U32, Slot, Le, SlotOk, LengthLaid, NameLaid, Front;
    forall i | 0 <= i < TOOL_COUNT_MAX
      ensures NameOk(s, |r.names|, i) && NameRead(s, i) == NameIn(r.names, i)
    {
      assert LengthLaid(s, r.names, i) && NameLaid(s, r.names, i);
      NameSpells(s, r.names, i);
    }
    assert RequestFields(s).names == r.names;
  }

  /** Two buffers that spell the same request are the same buffer. */
  lemma SpellingIsUnique(s: bytes, t: bytes, r: Request)
    requires Spells(s, r) && Spells(t, r)
    ensures s == t
  {
    hide Slot, Le, Front;
    forall k | 0 <= k < REQUEST_LEN
      ensures s[k] == t[k]
    {
      if k < TOOL_LENGTHS_OFF {
        assert s[..TOOL_LENGTHS_OFF][k] == t[..TOOL_LENGTHS_OFF][k];
      } else if k < TOOL_NAMES_OFF {
        var i := (k - TOOL_LENGTHS_OFF) / 4;
        assert LengthLaid(s, r.names, i) && LengthLaid(t, r.names, i);
        SameRange(s, t, LengthOff(i), LengthOff(i) + 4, k);
      } else if k < REQUEST_REASON_OFF {
        var i := (k - TOOL_NAMES_OFF) / TOOL_NAME_SLOT;
        assert NameLaid(s, r.names, i) && NameLaid(t, r.names, i);
        SameRange(s, t, NameOff(i), NameOff(i) + TOOL_NAME_SLOT, k);
      } else {
        SameRange(s, t, REQUEST_REASON_OFF, REQUEST_LEN, k);
      }
    }
  }

  lemma SameRange(s: bytes, t: bytes, lo: nat, hi: nat, k: nat)
    requires lo <= k < hi <= |s| && hi <= |t| && s[lo..hi] == t[lo..hi]
    ensures s[k] == t[k]
  {
    assert s[lo..hi][k - lo] == t[lo..hi][k - lo];
  }

  // ---- responses ----

  function ResponseFront(d: Decision): (s: bytes)
    requires |d.reason| <= STOP_REASON_MAX
    ensures |s| == RESPONSE_REASON_OFF
  {
    Le(RESPONSE_MAGIC, 4) + Le(GOV_WIRE_VERSION, 4) + Le(d.keepMask, 4) + Le(d.dropCount, 4)
    + Le(|d.reason|, 4) + Le(0, 4)
  }

  function ResponseBytes(d: Decision): (s: bytes)
    requires |d.reason| <= STOP_REASON_MAX
    ensures |s| == RESPONSE_LEN
  {
    ResponseFront(d) + Slot(d.reason)
  }

  /** A decision about `count` calls: no bit beyond them, and every call kept or dropped. */
  predicate Consistent(mask: uint32, drops: uint32, count: nat) {
    mask < Pow2(count) && drops <= count && PopCount(mask) + drops == count
  }

  predicate AcceptableResponse(s: bytes, count: nat) {
    && |s| == RESPONSE_LEN && count <= TOOL_COUNT_MAX
    && U32(s, 0) == RESPONSE_MAGIC && U32(s, 4) == GOV_WIRE_VERSION && U32(s, 16) <= STOP_REASON_MAX
    && U32(s, 20) == 0 && Consistent(U32(s, 8), U32(s, 12), count)
    && SlotOk(s, RESPONSE_REASON_OFF, U32(s, 16))
  }

  function ParseResponse(s: bytes, count: nat): Option<Decision> {
    if AcceptableResponse(s, count) then
      Some(Decision(U32(s, 8), U32(s, 12), s[RESPONSE_REASON_OFF..RESPONSE_REASON_OFF + U32(s, 16)]))
    else None
  }

  /** A response is accepted as a decision exactly when it spells it and the decision is consistent. */
  lemma ParseResponseIff(s: bytes, count: nat, d: Decision)
    ensures ParseResponse(s, count) == Some(d)
       <==> count <= TOOL_COUNT_MAX && Text(d.reason) && Consistent(d.keepMask, d.dropCount, count)
            && s == ResponseBytes(d)
  {
    hide Consistent, U32, SlotOk;
    if ParseResponse(s, count) == Some(d) {
      SpelledFromFields(s, d);
    }
    if Text(d.reason) && s == ResponseBytes(d) {
      FieldsFromSpelled(s, d);
    }
  }

  lemma SpelledFromFields(s: bytes, d: Decision)
    requires |s| == RESPONSE_LEN && U32(s, 0) == RESPONSE_MAGIC && U32(s, 4) == GOV_WIRE_VERSION
    requires U32(s, 8) == d.keepMask && U32(s, 12) == d.dropCount && U32(s, 16) == |d.reason| && U32(s, 20) == 0
    requires |d.reason| <= STOP_REASON_MAX && SlotOk(s, RESPONSE_REASON_OFF, |d.reason|)
    requires d.reason == s[RESPONSE_REASON_OFF..RESPONSE_REASON_OFF + |d.reason|]
    ensures s == ResponseBytes(d) && Text(d.reason)
  {
    hide SlotOk, U32, ResponseFront, Slot;
    SlotSpells(s, RESPONSE_REASON_OFF, d.reason);
    SpelledFront(s, d);
    assert s == s[..RESPONSE_REASON_OFF] + s[RESPONSE_REASON_OFF..RESPONSE_LEN];
  }

  lemma SpelledFront(s: bytes, d: Decision)
    requires |s| == RESPONSE_LEN && U32(s, 0) == RESPONSE_MAGIC && U32(s, 4) == GOV_WIRE_VERSION
    requires U32(s, 8) == d.keepMask && U32(s, 12) == d.dropCount && U32(s, 16) == |d.reason| && U32(s, 20) == 0
    requires |d.reason| <= STOP_REASON_MAX
    ensures s[..RESPONSE_REASON_OFF] == ResponseFront(d)
  {
    hide Le, Val;
    var t1 := Le(RESPONSE_MAGIC, 4);
    var t2 := t1 + Le(GOV_WIRE_VERSION, 4);
    var t3 := t2 + Le(d.keepMask, 4);
    var t4 := t3 + Le(d.dropCount, 4);
    var t5 := t4 + Le(|d.reason|, 4);
    NextField(s, [], 4); NextField(s, t1, 4); NextField(s, t2, 4);
    NextField(s, t3, 4); NextField(s, t4, 4); NextField(s, t5, 4);
  }

  lemma FieldsFromSpelled(s: bytes, d: Decision)
    requires Text(d.reason) && s == ResponseBytes(d)
    ensures U32(s, 0) == RESPONSE_MAGIC && U32(s, 4) == GOV_WIRE_VERSION && U32(s, 8) == d.keepMask
    ensures U32(s, 12) == d.dropCount && U32(s, 16) == |d.reason| && U32(s, 20) == 0
    ensures SlotOk(s, RESPONSE_REASON_OFF, |d.reason|)
    ensures d.reason == s[RESPONSE_REASON_OFF..RESPONSE_REASON_OFF + |d.reason|]
  {
    Limits();
    hide Le, Limit, Val;
    var t1 := Le(RESPONSE_MAGIC, 4);
    var t2 := t1 + Le(GOV_WIRE_VERSION, 4);
    var t3 := t2 + Le(d.keepMask, 4);
    var t4 := t3 + Le(d.dropCount, 4);
    var t5 := t4 + Le(|d.reason|, 4);
    assert s[..RESPONSE_REASON_OFF] == ResponseFront(d);
    LastField(s, t5, 0, 4);
    LastField(s, t4, |d.reason|, 4);
    LastField(s, t3, d.dropCount, 4);
    LastField(s, t2, d.keepMask, 4);
    LastField(s, t1, GOV_WIRE_VERSION, 4);
    LastField(s, [], RESPONSE_MAGIC, 4);
    assert s[RESPONSE_REASON_OFF..RESPONSE_LEN] == Slot(d.reason);
    SlotSpells(s, RESPONSE_REASON_OFF, d.reason);
  }
}
