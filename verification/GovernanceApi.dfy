/** The C side of the governance wire contract
    (src/modules/governance/include/aimee/governance/module_api.h), on NUL-terminated buffers. */
module GovernanceApi {
  import opened Bits
  import opened Bytes
  import opened Options
  import opened GovernanceWire
  import opened GovernancePolicy
  import GovernanceGo

  // ---- C strings ----

  /** What a C string function sees of a buffer: the bytes before the first NUL. */
  function CStr(s: bytes): (t: bytes)
    ensures NoZero(t) && |t| <= |s|
  {
    if s == [] || s[0] == 0 then [] else [s[0]] + CStr(s[1..])
  }

  predicate Terminated(s: bytes) { |CStr(s)| < |s| }

  lemma {:induction false} CStrOfTerminated(t: bytes, rest: bytes)
    requires NoZero(t)
    ensures CStr(t + [0] + rest) == t && Terminated(t + [0] + rest)
  {
    if t == [] {
      assert t + [0] + rest == [0] + rest;
    } else {
      assert (t + [0] + rest)[1..] == t[1..] + [0] + rest;
      CStrOfTerminated(t[1..], rest);
    }
  }

  /** A text and its terminator written to the start of a region of a buffer read back as the text. */
  lemma CStrWritten(s: bytes, lo: nat, hi: nat, t: bytes)
    requires NoZero(t) && lo + |t| < hi <= |s|
    ensures CStr(Splice(s, lo, t + [0])[lo..hi]) == t
  {
    var r := Splice(s, lo, t + [0])[lo..hi];
    assert r == t + [0] + r[|t| + 1..];
    CStrOfTerminated(t, r[|t| + 1..]);
  }

  /** `snprintf(buf, size, "%s", text)` with `size` the buffer's own: as much of the text as fits, and a
      terminator. */
  method Snprintf(buf: array<byte>, text: bytes)
    requires buf.Length > 0 && NoZero(text)
    modifies buf
    ensures buf[..] == Splice(old(buf[..]), 0, Fitted(text, buf.Length) + [0])
    ensures CStr(buf[..]) == Fitted(text, buf.Length)
  {
    hide CStr, Splice, Fitted, NoZero;
    ghost var before := buf[..];
    FittedIs(text, buf.Length);
    var n := if |text| < buf.Length then |text| else buf.Length - 1;
    Copy(buf, 0, text[..n]);
    ghost var copied := buf[..];
    SpliceByte(before, 0, text[..n], 0);
    CStrWritten(before, 0, buf.Length, text[..n]);
    buf[n] := 0;
    assert buf[..] == copied[n := 0] && buf[..] == buf[0..buf.Length];
  }

  lemma FittedIs(text: bytes, size: nat)
    requires size > 0 && NoZero(text)
    ensures var n := if |text| < size then |text| else size - 1;
      Fitted(text, size) == text[..n] && NoZero(text[..n])
  {
    assert text[..|text|] == text;
  }

  /** The part of a text a buffer of `size` bytes has room for. */
  function Fitted(text: bytes, size: nat): bytes
    requires size > 0
  {
    if |text| < size then text else text[..size - 1]
  }

  // ---- fields ----

  /** The number of set bits, shifted out one by one. */
  method Popcount(given: uint32) returns (count: uint32)
    ensures count == PopCount(given)
  {
    CountFits(given);
    count := 0;
    var value := given;
    while value != 0
      invariant count + PopCount(value) == PopCount(given)
      decreases value
    {
      AndOne(value);
      count := count + And(value, 1);
      value := value / 2;
    }
  }

  lemma AndOne(v: nat)
    ensures And(v, 1) == v % 2
  {
    if v > 0 { AndZeroRight(v / 2); }
  }

  lemma CountFits(v: nat)
    requires v < 0x1_0000_0000
    ensures PopCount(v) <= 32
  {
    Pow2Of32();
    MaskOfFlags(v, 32);
    AtMostAll(Flags(v, 32));
  }

  lemma Pow2Of32()
    ensures Pow2(32) == 0x1_0000_0000
  {
    PowerOf16();
    assert Pow2(20) == 16 * Pow2(16);
    assert Pow2(24) == 16 * Pow2(20);
    assert Pow2(28) == 16 * Pow2(24);
    assert Pow2(32) == 16 * Pow2(28);
  }

  /** The low `count` bits. */
  function MaskForCount(count: nat): (mask: uint32)
    requires count <= TOOL_COUNT_MAX
  {
    GovernanceGo.MaskFits(count);
    if count == 0 then 0 else Pow2(count) - 1
  }

  /** `(mask & ~allowed) == 0`: no bit at or beyond `count`. */
  lemma WithinMask(mask: uint32, count: nat)
    requires count <= TOOL_COUNT_MAX
    ensures AndNot(mask, MaskForCount(count)) == 0 <==> mask < Pow2(count)
  {
    AndNotMask(mask, count);
  }

  /** The number in four bytes, or-ed together from shifted bytes. */
  method GetU32(s: bytes, off: nat) returns (value: uint32)
    requires off + 4 <= |s|
    ensures value == U32(s, off)
  {
    ghost var field := s[off..off + 4];
    assert Pow2(8 * 0) == 1;
    hide Or, Pow2, Val, U32;
    value := 0;
    for i := 0 to 4
      invariant value == Val(field[..i])
    {
      NextByte(field, i);
      value := Or(value, s[off + i] * Pow2(8 * i));
    }
    assert field[..4] == field;
    FieldValue(s, off);
  }

  lemma FieldValue(s: bytes, off: nat)
    requires off + 4 <= |s|
    ensures U32(s, off) == Val(s[off..off + 4])
  {
    hide Val;
  }

  lemma NextByte(field: bytes, i: nat)
    requires i < |field| == 4
    ensures Or(Val(field[..i]), field[i] * Pow2(8 * i)) == Val(field[..i + 1])
    ensures 0 <= Val(field[..i + 1]) < 0x1_0000_0000
  {
    assert field[..i + 1] == field[..i] + [field[i]];
    hide Or, Pow2, Val;
    ValBound(field[..i]);
    ValBound(field[..i + 1]);
    ValAppend(field[..i], field[i]);
    OrShifted(Val(field[..i]), field[i], 8 * i);
  }

  lemma {:induction false} ValAppend(s: bytes, b: byte)
    ensures Val(s + [b]) == Val(s) + b * Pow2(8 * |s|)
  {
    if s == [] {
      assert (s + [b])[1..] == [];
    } else {
      assert (s + [b])[1..] == s[1..] + [b];
      ValAppend(s[1..], b);
      EightBits(|s| - 1);
      Regroup(b, Pow2(8 * (|s| - 1)));
    }
  }

  lemma Regroup(b: nat, p: nat)
    ensures 256 * (b * p) == b * (256 * p)
  {
  }

  lemma EightBits(n: nat)
    ensures Pow2(8 * (n + 1)) == 256 * Pow2(8 * n)
  {
    var k := 8 * n;
    assert Pow2(k + 2) == 4 * Pow2(k) && Pow2(k + 4) == 4 * Pow2(k + 2);
    assert Pow2(k + 6) == 4 * Pow2(k + 4) && Pow2(k + 8) == 4 * Pow2(k + 6);
  }

  lemma {:induction false} ValBound(s: bytes)
    requires |s| <= 4
    ensures Val(s) < Pow2(8 * |s|) <= 0x1_0000_0000
  {
    if s == [] {
    } else {
      ValBound(s[1..]);
      EightBits(|s| - 1);
      Pow2Monotone(8 * |s|, 32);
      Pow2Of32();
    }
  }

  /** Or-ing a value with bits above it adds them. */
  lemma {:induction false} OrShifted(a: nat, b: nat, n: nat)
    requires a < Pow2(n)
    ensures Or(a, b * Pow2(n)) == a + b * Pow2(n)
  {
    if n == 0 {
    } else if b == 0 {
      AndZeroRight(a);
    } else {
      var p := Pow2(n - 1);
      assert b * Pow2(n) == 2 * (b * p);
      OrShifted(a / 2, b, n - 1);
      OrHalves(a, 2 * (b * p));
    }
  }

  // ---- requests ----

  /** Why an encode is refused before anything is written. */
  predicate RefusedAtOnce(policyActive: int, toolNames: Option<seq<Option<bytes>>>, callCount: uint32,
                          reason: bytes, out: array?<byte>, capacity: nat) {
    || out == null || capacity < REQUEST_LEN || (policyActive != 0 && policyActive != 1)
    || callCount > TOOL_COUNT_MAX || (callCount > 0 && toolNames.None?) || |reason| > STOP_REASON_MAX
  }

  /** The C strings handed in, each present and short enough. */
  predicate NamesFit(names: seq<Option<bytes>>) {
    forall i :: 0 <= i < |names| ==> names[i].Some? && Text(names[i].value)
  }

  /** Pointers to C strings: their bytes up to the terminator, or NULL. */
  predicate CStrings(names: seq<Option<bytes>>) {
    forall i :: 0 <= i < |names| && names[i].Some? ==> NoZero(names[i].value)
  }

  function Names(names: seq<Option<bytes>>): (ns: seq<bytes>)
    requires NamesFit(names)
    ensures |ns| == |names| && forall i :: 0 <= i < |ns| ==> Text(ns[i])
  {
    seq(|names|, i requires 0 <= i < |names| => names[i].value)
  }

  function ReasonOr(stopReason: Option<bytes>): bytes { if stopReason.Some? then stopReason.value else [] }

  /** Encodes a request. C strings come without their terminators, NULL pointers as none; a caller hands in
      as many names as it says. What is written spells the request; a refused call has written nothing
      outside the request's room, and nothing at all unless a name was missing or too long. */
  method EncodeRequest(policyActive: int, toolNames: Option<seq<Option<bytes>>>, callCount: uint32,
                       stopReason: Option<bytes>, out: array?<byte>, capacity: nat) returns (ok: bool)
    requires out != null ==> capacity <= out.Length
    requires toolNames.Some? ==> |toolNames.value| == callCount && CStrings(toolNames.value)
    requires NoZero(ReasonOr(stopReason))
    modifies out
    ensures ok <==> !RefusedAtOnce(policyActive, toolNames, callCount, ReasonOr(stopReason), out, capacity)
                    && (callCount > 0 ==> NamesFit(toolNames.value))
    ensures ok ==>
      var names := if callCount > 0 then Names(toolNames.value) else [];
      Spells(out[..REQUEST_LEN], Request(policyActive == 1, names, ReasonOr(stopReason)))
    ensures out != null && RefusedAtOnce(policyActive, toolNames, callCount, ReasonOr(stopReason), out, capacity) ==>
              out[..] == old(out[..])
    ensures out != null && capacity >= REQUEST_LEN ==> out[REQUEST_LEN..] == old(out[REQUEST_LEN..])
  {
    var reason := ReasonOr(stopReason);
    if RefusedAtOnce(policyActive, toolNames, callCount, reason, out, capacity) { return false; }
    ghost var given := out[..];
    WriteFront(out, policyActive, callCount, |reason|);
    ghost var front := Front(policyActive == 1, callCount, |reason|);
    hide Laid, Front, Splice;
    var names := if callCount > 0 then toolNames.value else [];
    var all := EncodeNames(out, names, given, front);
    if !all { return false; }
    ReasonLaid(given, out[..], front, Names(names), reason);
    Copy(out, REQUEST_REASON_OFF, reason);
    return true;
  }

  /** Clears the room and writes the fields in front of the names. */
  method WriteFront(out: array<byte>, policyActive: int, callCount: uint32, reasonLen: uint32)
    requires out.Length >= REQUEST_LEN && (policyActive == 0 || policyActive == 1)
    modifies out
    ensures Laid(out[..], Front(policyActive == 1, callCount, reasonLen), [], [])
    ensures TailKept(old(out[..]), out[..])
  {
    hide Laid, Le, Splice, TailKept;
    Clear(out, 0, REQUEST_LEN);
    ghost var before := out[..];
    Put(out, 0, REQUEST_MAGIC, 4);
    ghost var done := Le(REQUEST_MAGIC, 4);
    PutNext(out, 4, GOV_WIRE_VERSION, 4, before, 0, done);
    done := done + Le(GOV_WIRE_VERSION, 4);
    PutNext(out, 8, policyActive, 4, before, 0, done);
    done := done + Le(policyActive, 4);
    PutNext(out, 12, callCount, 4, before, 0, done);
    done := done + Le(callCount, 4);
    PutNext(out, 16, reasonLen, 4, before, 0, done);
    done := done + Le(reasonLen, 4);
    FrontLaid(old(out[..]), done, Front(policyActive == 1, callCount, reasonLen));
  }

  /** The bytes past the request's room are those given. */
  predicate TailKept(given: bytes, s: bytes) {
    |s| == |given| >= REQUEST_LEN && s[REQUEST_LEN..] == given[REQUEST_LEN..]
  }

  /** Writes length and bytes of every name, until one is missing or too long. */
  method EncodeNames(out: array<byte>, names: seq<Option<bytes>>, ghost given: bytes, ghost front: bytes)
    returns (ok: bool)
    requires |names| <= TOOL_COUNT_MAX && CStrings(names) && TailKept(given, out[..])
    requires Laid(out[..], front, [], [])
    modifies out
    ensures ok <==> NamesFit(names)
    ensures ok ==> Laid(out[..], front, Names(names), [])
    ensures TailKept(given, out[..])
  {
    hide Laid, Le, Splice;
    assert Names(names[..0]) == [];
    for i := 0 to |names|
      invariant NamesFit(names[..i]) && TailKept(given, out[..])
      invariant Laid(out[..], front, Names(names[..i]), [])
    {
      if names[i].None? { return false; }
      var name := names[i].value;
      if |name| > TOOL_NAME_MAX { return false; }
      NextNameLaid(given, out[..], front, Names(names[..i]), name);
      assert Names(names[..i + 1]) == Names(names[..i]) + [name];
      Put(out, LengthOff(i), |name|, 4);
      Copy(out, NameOff(i), name);
    }
    assert names[..|names|] == names;
    return true;
  }

  /** A buffer with one more name and its length. */
  function WithName(s: bytes, n: nat, name: bytes): (t: bytes)
    requires n < TOOL_COUNT_MAX && |name| <= TOOL_NAME_MAX && |s| >= REQUEST_LEN
    ensures |t| == |s|
  {
    Splice(Splice(s, LengthOff(n), Le(|name|, 4)), NameOff(n), name)
  }

  lemma Untouched(s: bytes, n: nat, name: bytes, lo: nat, hi: nat)
    requires n < TOOL_COUNT_MAX && |name| <= TOOL_NAME_MAX && |s| >= REQUEST_LEN && lo <= hi <= |s|
    requires hi <= LengthOff(n) || (LengthOff(n) + 4 <= lo && (hi <= NameOff(n) || NameOff(n) + |name| <= lo))
    ensures WithName(s, n, name)[lo..hi] == s[lo..hi]
  {
    var m := Splice(s, LengthOff(n), Le(|name|, 4));
    SpliceElsewhere(m, NameOff(n), name, lo, hi);
    SpliceElsewhere(s, LengthOff(n), Le(|name|, 4), lo, hi);
  }

  /** The slot after the names laid so far takes the next one and leaves the rest alone. */
  lemma NextNameLaid(given: bytes, s: bytes, front: bytes, names: seq<bytes>, name: bytes)
    requires |names| < TOOL_COUNT_MAX && Text(name) && TailKept(given, s)
    requires AllShort(names)
    requires Laid(s, front, names, [])
    ensures var t := WithName(s, |names|, name);
      Laid(t, front, names + [name], []) && TailKept(given, t)
  {
    var n := |names|;
    var t := WithName(s, n, name);
    Untouched(s, n, name, 0, TOOL_LENGTHS_OFF);
    Untouched(s, n, name, REQUEST_REASON_OFF, REQUEST_LEN);
    Untouched(s, n, name, REQUEST_LEN, |s|);
    assert t[..TOOL_LENGTHS_OFF] == t[0..TOOL_LENGTHS_OFF];
    hide WithName, Slot, LengthLaid, NameLaid;
    forall i | 0 <= i < TOOL_COUNT_MAX
      ensures LengthLaid(t, names + [name], i) && NameLaid(t, names + [name], i)
    {
      assert LengthLaid(s, names, i) && NameLaid(s, names, i);
      NewLength(s, n, name);
      NewName(s, names, name);
      if i != n {
        Untouched(s, n, name, LengthOff(i), LengthOff(i) + 4);
        Untouched(s, n, name, NameOff(i), NameOff(i) + TOOL_NAME_SLOT);
      }
      NextLaid(s, t, names, name, i);
    }
  }

  lemma NextLaid(s: bytes, t: bytes, names: seq<bytes>, name: bytes, i: nat)
    requires |names| < TOOL_COUNT_MAX && |name| <= TOOL_NAME_MAX && |t| == |s| >= REQUEST_LEN && i < TOOL_COUNT_MAX
    requires AllShort(names) && LengthLaid(s, names, i) && NameLaid(s, names, i)
    requires t[LengthOff(i)..LengthOff(i) + 4] ==
               if i == |names| then Le(|name|, 4) else s[LengthOff(i)..LengthOff(i) + 4]
    requires t[NameOff(i)..NameOff(i) + TOOL_NAME_SLOT] ==
               if i == |names| then Slot(name) else s[NameOff(i)..NameOff(i) + TOOL_NAME_SLOT]
    ensures LengthLaid(t, names + [name], i) && NameLaid(t, names + [name], i)
  {
    hide Le, Slot;
  }

  lemma NewLength(s: bytes, n: nat, name: bytes)
    requires n < TOOL_COUNT_MAX && |name| <= TOOL_NAME_MAX && |s| >= REQUEST_LEN
    ensures WithName(s, n, name)[LengthOff(n)..LengthOff(n) + 4] == Le(|name|, 4)
  {
    hide Le, Splice;
    var m := Splice(s, LengthOff(n), Le(|name|, 4));
    SpliceParts(s, LengthOff(n), Le(|name|, 4));
    SpliceElsewhere(m, NameOff(n), name, LengthOff(n), LengthOff(n) + 4);
  }

  lemma NewName(s: bytes, names: seq<bytes>, name: bytes)
    requires |names| < TOOL_COUNT_MAX && |name| <= TOOL_NAME_MAX && |s| >= REQUEST_LEN
    requires AllShort(names) && NameLaid(s, names, |names|)
    ensures WithName(s, |names|, name)[NameOff(|names|)..NameOff(|names|) + TOOL_NAME_SLOT] == Slot(name)
  {
    hide Le, Splice;
    var n := |names|;
    var m := Splice(s, LengthOff(n), Le(|name|, 4));
    SpliceElsewhere(s, LengthOff(n), Le(|name|, 4), NameOff(n), NameOff(n) + TOOL_NAME_SLOT);
    assert Slot([]) == Zeros(TOOL_NAME_SLOT);
    FillSlot(m, NameOff(n), name);
  }

  /** Text written into a zeroed slot. */
  lemma FillSlot(s: bytes, off: nat, t: bytes)
    requires off + TOOL_NAME_SLOT <= |s| && |t| <= TOOL_NAME_MAX
    requires s[off..off + TOOL_NAME_SLOT] == Zeros(TOOL_NAME_SLOT)
    ensures Splice(s, off, t)[off..off + TOOL_NAME_SLOT] == Slot(t)
  {
    var slot := s[off..off + TOOL_NAME_SLOT];
    var filled := Splice(s, off, t)[off..off + TOOL_NAME_SLOT];
    forall k | 0 <= k < TOOL_NAME_SLOT
      ensures filled[k] == Slot(t)[k]
    {
      assert s[off + k] == slot[k] == 0;
    }
  }

  /** The front over a cleared room lays out a request without names. */
  lemma FrontLaid(given: bytes, done: bytes, front: bytes)
    requires |given| >= REQUEST_LEN && |done| == 20 && front == done + Le(0, 4)
    ensures var s := Splice(Splice(given, 0, Zeros(REQUEST_LEN)), 0, done);
      Laid(s, front, [], []) && TailKept(given, s)
  {
    GovernanceGo.ZeroField();
    hide Le;
    var s := Splice(Splice(given, 0, Zeros(REQUEST_LEN)), 0, done);
    assert s[..TOOL_LENGTHS_OFF] == front;
    forall i | 0 <= i < TOOL_COUNT_MAX
      ensures LengthLaid(s, [], i) && NameLaid(s, [], i)
    {
      assert s[LengthOff(i)..LengthOff(i) + 4] == Zeros(4);
      assert s[NameOff(i)..NameOff(i) + TOOL_NAME_SLOT] == Zeros(TOOL_NAME_SLOT) == Slot([]);
    }
    assert s[REQUEST_REASON_OFF..REQUEST_LEN] == Slot([]);
  }

  /** The reason completes a layout. */
  lemma ReasonLaid(given: bytes, s: bytes, front: bytes, names: seq<bytes>, reason: bytes)
    requires Text(reason) && TailKept(given, s) && AllShort(names)
    requires Laid(s, front, names, [])
    ensures var t := Splice(s, REQUEST_REASON_OFF, reason);
      Laid(t[..REQUEST_LEN], front, names, reason) && TailKept(given, t)
  {
    hide Le;
    var t := Splice(s, REQUEST_REASON_OFF, reason);
    FillSlot(s, REQUEST_REASON_OFF, reason);
    var u := t[..REQUEST_LEN];
    assert u[..REQUEST_REASON_OFF] == s[..REQUEST_REASON_OFF];
    forall i | 0 <= i < TOOL_COUNT_MAX
      ensures LengthLaid(u, names, i) && NameLaid(u, names, i)
    {
      assert LengthLaid(s, names, i) && NameLaid(s, names, i);
      SamePrefix(s, u, LengthOff(i), LengthOff(i) + 4);
      SamePrefix(s, u, NameOff(i), NameOff(i) + TOOL_NAME_SLOT);
    }
    assert u[REQUEST_REASON_OFF..REQUEST_LEN] == t[REQUEST_REASON_OFF..REQUEST_LEN];
    assert u[..TOOL_LENGTHS_OFF] == s[..TOOL_LENGTHS_OFF];
    assert t[REQUEST_LEN..] == s[REQUEST_LEN..];
  }

  lemma SamePrefix(s: bytes, u: bytes, lo: nat, hi: nat)
    requires lo <= hi <= REQUEST_REASON_OFF <= |s| && REQUEST_REASON_OFF <= |u|
    requires u[..REQUEST_REASON_OFF] == s[..REQUEST_REASON_OFF]
    ensures u[lo..hi] == s[lo..hi]
  {
    InnerRange(s, 0, REQUEST_REASON_OFF, lo, hi);
    InnerRange(u, 0, REQUEST_REASON_OFF, lo, hi);
    assert s[0..REQUEST_REASON_OFF] == u[0..REQUEST_REASON_OFF];
  }

  // ---- reading a request into C buffers ----

  /** Row `i` of `char tool_names[16][32]`. */
  function Row(s: bytes, i: nat): bytes
    requires |s| == TOOL_COUNT_MAX * TOOL_NAME_SLOT && i < TOOL_COUNT_MAX
  {
    s[i * TOOL_NAME_SLOT..(i + 1) * TOOL_NAME_SLOT]
  }

  /** Copies a text and its terminator into a row. */
  method SetRow(names: array<byte>, i: nat, text: bytes)
    requires names.Length == TOOL_COUNT_MAX * TOOL_NAME_SLOT && i < TOOL_COUNT_MAX && Text(text)
    modifies names
    ensures CStr(Row(names[..], i)) == text
    ensures forall k :: 0 <= k < TOOL_COUNT_MAX && k != i ==> Row(names[..], k) == Row(old(names[..]), k)
  {
    hide CStr;
    ghost var before := names[..];
    Copy(names, i * TOOL_NAME_SLOT, text);
    SpliceByte(before, i * TOOL_NAME_SLOT, text, 0);
    names[i * TOOL_NAME_SLOT + |text|] := 0;
    CStrWritten(before, i * TOOL_NAME_SLOT, (i + 1) * TOOL_NAME_SLOT, text);
    hide Splice;
    forall k | 0 <= k < TOOL_COUNT_MAX && k != i
      ensures Row(names[..], k) == Row(before, k)
    {
      SpliceElsewhere(before, i * TOOL_NAME_SLOT, text + [0], k * TOOL_NAME_SLOT, (k + 1) * TOOL_NAME_SLOT);
    }
  }

  /** A request as the C buffers hold it. */
  ghost predicate Holds(names: bytes, reason: bytes, policyActive: int, callCount: int, r: Request)
    requires |names| == TOOL_COUNT_MAX * TOOL_NAME_SLOT
  {
    && policyActive == (if r.active then 1 else 0) && callCount == |r.names| <= TOOL_COUNT_MAX
    && (forall i :: 0 <= i < callCount ==> CStr(Row(names, i)) == r.names[i])
    && CStr(reason) == r.reason
  }

  /** An `int` or `uint32_t` a function writes through a pointer. */
  class Cell {
    var value: int

    constructor ()
      ensures value == 0
    {
      value := 0;
    }
  }

  /** Decodes a request, for any pointers, NULL included: accepts exactly what spells one, and leaves it in the
      buffers. A refused call has not touched the reason, nor the flag and the count. */
  method DecodeRequest(input: Option<bytes>, policyActive: Cell?, names: array?<byte>, callCount: Cell?,
                       reason: array?<byte>) returns (ok: bool)
    requires names != null ==> names.Length == TOOL_COUNT_MAX * TOOL_NAME_SLOT
    requires reason != null ==> reason.Length == TOOL_NAME_SLOT && names != reason
    requires policyActive == null || policyActive != callCount
    modifies policyActive, names, callCount, reason
    ensures ok <==> input.Some? && policyActive != null && names != null && callCount != null && reason != null
                    && Parse(input.value).Some?
    ensures ok ==> Holds(names[..], reason[..], policyActive.value, callCount.value, Parse(input.value).value)
    ensures !ok && reason != null ==> reason[..] == old(reason[..])
    ensures !ok && policyActive != null ==> policyActive.value == old(policyActive.value)
    ensures !ok && callCount != null ==> callCount.value == old(callCount.value)
  {
    if input.None? || policyActive == null || names == null || callCount == null || reason == null { return false; }
    var active, count;
    ok, active, count := DecodeInto(input.value, names, reason);
    if ok { policyActive.value, callCount.value := active, count; }
  }

  /** The checks and copies of a decode whose pointers are all there. */
  method DecodeInto(input: bytes, names: array<byte>, reason: array<byte>)
    returns (ok: bool, policyActive: int, callCount: uint32)
    requires names.Length == TOOL_COUNT_MAX * TOOL_NAME_SLOT && reason.Length == TOOL_NAME_SLOT && names != reason
    modifies names, reason
    ensures ok <==> Parse(input).Some?
    ensures ok ==> Holds(names[..], reason[..], policyActive, callCount, Parse(input).value)
    ensures !ok ==> reason[..] == old(reason[..])
  {
    hide U32, CStr;
    ok, policyActive, callCount := false, 0, 0;
    if |input| != REQUEST_LEN { return; }
    var front := CheckFront(input);
    if !front { return; }
    var count := GetU32(input, 12);
    for i := 0 to TOOL_COUNT_MAX
      invariant reason[..] == old(reason[..])
      invariant forall k :: 0 <= k < i ==>
        NameOk(input, count, k) && (k < count ==> CStr(Row(names[..], k)) == NameRead(input, k))
    {
      var nameLen := GetU32(input, LengthOff(i));
      if nameLen > TOOL_NAME_MAX || (i >= count && nameLen != 0) {
        assert !NameOk(input, count, i);
        return;
      }
      var slotOk := GovernanceGo.CheckSlot(input[NameOff(i)..NameOff(i) + TOOL_NAME_SLOT], nameLen);
      GovernanceGo.SlotRanges(input, NameOff(i), nameLen);
      assert slotOk == NameOk(input, count, i);
      if !slotOk { return; }
      SetRow(names, i, if i < count then input[NameOff(i)..NameOff(i) + nameLen] else []);
    }
    var reasonLen := GetU32(input, 16);
    var reasonOk := GovernanceGo.CheckSlot(input[REQUEST_REASON_OFF..REQUEST_LEN], reasonLen);
    GovernanceGo.SlotRanges(input, REQUEST_REASON_OFF, reasonLen);
    if !reasonOk { return; }
    assert Acceptable(input);
    policyActive := GetU32(input, 8);
    callCount := count;
    SetText(reason, input[REQUEST_REASON_OFF..REQUEST_REASON_OFF + reasonLen]);
    ok := true;
  }

  method CheckFront(input: bytes) returns (ok: bool)
    requires |input| >= TOOL_LENGTHS_OFF
    ensures ok <==> FrontOk(input)
  {
    var magic := GetU32(input, 0);
    var version := GetU32(input, 4);
    var active := GetU32(input, 8);
    var count := GetU32(input, 12);
    var reasonLen := GetU32(input, 16);
    var reserved := GetU32(input, 20);
    return !(magic != REQUEST_MAGIC || version != GOV_WIRE_VERSION || active > 1 || count > TOOL_COUNT_MAX
             || reasonLen > STOP_REASON_MAX || reserved != 0);
  }

  /** A text and its terminator at the start of a 32-byte buffer. */
  method SetText(buf: array<byte>, text: bytes)
    requires buf.Length == TOOL_NAME_SLOT && Text(text)
    modifies buf
    ensures CStr(buf[..]) == text
  {
    ghost var before := buf[..];
    Copy(buf, 0, text);
    SpliceByte(before, 0, text, 0);
    buf[|text|] := 0;
    CStrWritten(before, 0, TOOL_NAME_SLOT, text);
    assert buf[..] == buf[..][0..TOOL_NAME_SLOT];
  }

  // ---- responses ----

  /** `aimee_governance_decision_t`. */
  class DecisionRecord {
    var keepMask: uint32
    var dropCount: uint32
    const stopReason: array<byte>

    /** The record after `memset(&decision, 0, sizeof(decision))`. */
    constructor ()
      ensures keepMask == 0 && dropCount == 0 && fresh(stopReason) && stopReason[..] == Zeros(TOOL_NAME_SLOT)
    {
      keepMask, dropCount := 0, 0;
      stopReason := new byte[TOOL_NAME_SLOT](i => 0);
    }

    ghost predicate Means(d: Decision)
      reads this, stopReason
    {
      keepMask == d.keepMask && dropCount == d.dropCount && CStr(stopReason[..]) == d.reason
    }
  }

  /** Encodes a response into the first 56 bytes, leaving the rest. */
  method EncodeResponse(keepMask: uint32, dropCount: uint32, stopReason: Option<bytes>, out: array?<byte>,
                        capacity: nat) returns (ok: bool)
    requires out != null ==> capacity <= out.Length
    requires NoZero(ReasonOr(stopReason))
    modifies out
    ensures ok <==> out != null && capacity >= RESPONSE_LEN && |ReasonOr(stopReason)| <= STOP_REASON_MAX
    ensures out != null && !ok ==> out[..] == old(out[..])
    ensures ok ==>
      out[..] == Splice(old(out[..]), 0, ResponseBytes(Decision(keepMask, dropCount, ReasonOr(stopReason))))
  {
    var reason := ReasonOr(stopReason);
    if out == null || capacity < RESPONSE_LEN || |reason| > STOP_REASON_MAX { return false; }
    hide Splice, ResponseBytes;
    WriteResponse(out, Decision(keepMask, dropCount, reason));
    return true;
  }

  method WriteResponse(out: array<byte>, d: Decision)
    requires out.Length >= RESPONSE_LEN && Text(d.reason)
    modifies out
    ensures out[..] == Splice(old(out[..]), 0, ResponseBytes(d))
  {
    hide Le, Splice, ResponseBytes;
    Clear(out, 0, RESPONSE_LEN);
    ghost var before := out[..];
    Put(out, 0, RESPONSE_MAGIC, 4);
    ghost var done := Le(RESPONSE_MAGIC, 4);
    PutNext(out, 4, GOV_WIRE_VERSION, 4, before, 0, done);
    done := done + Le(GOV_WIRE_VERSION, 4);
    PutNext(out, 8, d.keepMask, 4, before, 0, done);
    done := done + Le(d.keepMask, 4);
    PutNext(out, 12, d.dropCount, 4, before, 0, done);
    done := done + Le(d.dropCount, 4);
    PutNext(out, 16, |d.reason|, 4, before, 0, done);
    done := done + Le(|d.reason|, 4);
    Copy(out, RESPONSE_REASON_OFF, d.reason);
    LaidResponse(old(out[..]), done, d);
  }

  lemma LaidResponse(given: bytes, done: bytes, d: Decision)
    requires |given| >= RESPONSE_LEN && Text(d.reason) && |done| == 20 && ResponseFront(d) == done + Le(0, 4)
    ensures Splice(Splice(Splice(given, 0, Zeros(RESPONSE_LEN)), 0, done), RESPONSE_REASON_OFF, d.reason)
         == Splice(given, 0, ResponseBytes(d))
  {
    GovernanceGo.SpelledResponse(Zeros(RESPONSE_LEN), done, d);
    hide Le, ResponseBytes, Splice;
    var z := Zeros(RESPONSE_LEN);
    PrefixSplice(given, z, 0, done);
    PrefixSplice(given, Splice(z, 0, done), RESPONSE_REASON_OFF, d.reason);
  }

  lemma PrefixSplice(s: bytes, front: bytes, off: nat, v: bytes)
    requires |front| <= |s| && off + |v| <= |front|
    ensures Splice(Splice(s, 0, front), off, v) == Splice(s, 0, Splice(front, off, v))
  {
  }

  /** Decodes a response about `callCount` calls into the record, for any pointers, NULL included; a refused one
      leaves the record alone. */
  method DecodeResponse(input: Option<bytes>, callCount: uint32, decision: DecisionRecord?) returns (ok: bool)
    requires decision != null ==> decision.stopReason.Length == TOOL_NAME_SLOT
    modifies decision, if decision == null then {} else {decision.stopReason}
    ensures ok <==> input.Some? && decision != null && ParseResponse(input.value, callCount).Some?
    ensures ok ==> decision.Means(ParseResponse(input.value, callCount).value)
    ensures !ok && decision != null ==>
                    decision.keepMask == old(decision.keepMask) && decision.dropCount == old(decision.dropCount)
                    && decision.stopReason[..] == old(decision.stopReason[..])
  {
    if input.None? || decision == null { return false; }
    ok := DecodeRecord(input.value, callCount, decision);
  }

  method DecodeRecord(input: bytes, callCount: uint32, decision: DecisionRecord) returns (ok: bool)
    requires decision.stopReason.Length == TOOL_NAME_SLOT
    modifies decision, decision.stopReason
    ensures ok <==> ParseResponse(input, callCount).Some?
    ensures ok ==> decision.Means(ParseResponse(input, callCount).value)
    ensures !ok ==> decision.keepMask == old(decision.keepMask) && decision.dropCount == old(decision.dropCount)
                    && decision.stopReason[..] == old(decision.stopReason[..])
  {
    hide U32, CStr;
    if |input| != RESPONSE_LEN || callCount > TOOL_COUNT_MAX { return false; }
    var magic := GetU32(input, 0);
    var version := GetU32(input, 4);
    var reasonLen := GetU32(input, 16);
    var reserved := GetU32(input, 20);
    if magic != RESPONSE_MAGIC || version != GOV_WIRE_VERSION || reasonLen > STOP_REASON_MAX || reserved != 0 {
      return false;
    }
    var mask := GetU32(input, 8);
    var drops := GetU32(input, 12);
    var consistent := CheckMask(mask, drops, callCount);
    if !consistent { return false; }
    var slotOk := GovernanceGo.CheckSlot(input[RESPONSE_REASON_OFF..RESPONSE_LEN], reasonLen);
    GovernanceGo.SlotRanges(input, RESPONSE_REASON_OFF, reasonLen);
    if !slotOk { return false; }
    decision.keepMask := mask;
    decision.dropCount := drops;
    SetText(decision.stopReason, input[RESPONSE_REASON_OFF..RESPONSE_REASON_OFF + reasonLen]);
    return true;
  }

  /** Mask within the calls, drops within their number, and both adding up to it. */
  method CheckMask(mask: uint32, drops: uint32, callCount: uint32) returns (ok: bool)
    requires callCount <= TOOL_COUNT_MAX
    ensures ok <==> Consistent(mask, drops, callCount)
  {
    WithinMask(mask, callCount);
    CountFits(mask);
    if AndNot(mask, MaskForCount(callCount)) != 0 || drops > callCount { return false; }
    var kept := Popcount(mask);
    return kept + drops == callCount;
  }
}
