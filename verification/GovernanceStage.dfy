/** The stage that applies a governance decision to a parsed response
    (src/modules/governance/gw_stage_governance.c): compaction in place, ownership of the arguments, and
    failing closed. */
module GovernanceStage {
  import opened Bits
  import opened Bytes
  import opened Options
  import opened GovernanceWire
  import opened GovernancePolicy
  import opened GovernanceApi

  // ---- calls and their arguments ----

  /** A tool call: its name up to the terminator, the heap block of its arguments or NULL, and what else the
      structure holds, which is copied along with it. */
  datatype ToolCall = ToolCall(name: bytes, arguments: Option<nat>, rest: nat)

  /** The elements whose flag is set, in order. */
  function KeepBy<T>(s: seq<T>, f: seq<bool>): seq<T>
    requires |s| == |f|
  {
    if s == [] then []
    else KeepBy(s[..|s| - 1], f[..|s| - 1]) + (if f[|s| - 1] then [s[|s| - 1]] else [])
  }

  /** The elements whose flag is not set, in order. */
  function DropBy<T>(s: seq<T>, f: seq<bool>): seq<T>
    requires |s| == |f|
  {
    if s == [] then []
    else DropBy(s[..|s| - 1], f[..|s| - 1]) + (if f[|s| - 1] then [] else [s[|s| - 1]])
  }

  /** The blocks calls own, in order. */
  function Args(s: seq<ToolCall>): seq<nat> {
    if s == [] then []
    else Args(s[..|s| - 1]) + Owns(s[|s| - 1])
  }

  function Owns(call: ToolCall): seq<nat> {
    match call.arguments case None => [] case Some(p) => [p]
  }

  /** Every block is live and belongs to one call. */
  predicate Owned(s: seq<ToolCall>, live: set<nat>) {
    && (forall i :: 0 <= i < |s| && s[i].arguments.Some? ==> s[i].arguments.value in live)
    && (forall i, j :: 0 <= i < j < |s| && s[i].arguments.Some? ==> s[i].arguments != s[j].arguments)
  }

  function Gone(ps: seq<nat>): set<nat> { set p | p in ps }

  /** The C heap: which blocks are live, and the history of `free`. Freeing NULL does nothing; freeing a
      block that is not live is not allowed. */
  class Heap {
    var live: set<nat>
    var freed: seq<nat>

    method Free(p: Option<nat>)
      requires p.Some? ==> p.value in live
      modifies this
      ensures p.None? ==> live == old(live) && freed == old(freed)
      ensures p.Some? ==> live == old(live) - {p.value} && freed == old(freed) + [p.value]
    {
      if p.Some? {
        live := live - {p.value};
        freed := freed + [p.value];
      }
    }
  }

  class ParsedResponse {
    const calls: array<ToolCall>
    var callCount: int
    const stopReason: array<byte>

    /** Room for sixteen calls and for a stop reason with its terminator. */
    ghost predicate Sized()
    {
      calls.Length >= TOOL_COUNT_MAX && stopReason.Length > STOP_REASON_MAX
    }
  }

  lemma ArgsSnoc(s: seq<ToolCall>, x: ToolCall)
    ensures Args(s + [x]) == Args(s) + Owns(x)
  {
    assert (s + [x])[..|s|] == s;
  }

  lemma GoneSnoc(ps: seq<nat>, p: nat)
    ensures Gone(ps + [p]) == Gone(ps) + {p}
  {
  }

  lemma {:induction false} KeepCount<T>(s: seq<T>, f: seq<bool>)
    requires |s| == |f|
    ensures |KeepBy(s, f)| == CountTrue(f) && |KeepBy(s, f)| + |DropBy(s, f)| == |s|
  {
    if s != [] {
      var n := |s| - 1;
      KeepCount(s[..n], f[..n]);
      assert f == f[..n] + [f[n]];
      CountTrueAppend(f[..n], f[n]);
    }
  }

  // ---- what compaction keeps ----

  /** `a` is `b` with some elements left out. */
  predicate Subsequence<T(==)>(a: seq<T>, b: seq<T>) {
    if a == [] then true
    else if b == [] then false
    else (a[|a| - 1] == b[|b| - 1] && Subsequence(a[..|a| - 1], b[..|b| - 1])) || Subsequence(a, b[..|b| - 1])
  }

  lemma {:induction false} KeepIsSubsequence<T>(s: seq<T>, f: seq<bool>)
    requires |s| == |f|
    ensures Subsequence(KeepBy(s, f), s)
  {
    if s != [] {
      var n := |s| - 1;
      var k := KeepBy(s[..n], f[..n]);
      KeepIsSubsequence(s[..n], f[..n]);
      if f[n] {
        assert KeepBy(s, f)[..|KeepBy(s, f)| - 1] == k;
      } else {
        assert KeepBy(s, f) == k;
      }
    }
  }

  lemma {:induction false} KeptComeFrom<T>(s: seq<T>, f: seq<bool>, x: T)
    requires |s| == |f|
    ensures x in KeepBy(s, f) ==> exists i :: 0 <= i < |s| && f[i] && s[i] == x
    ensures x in DropBy(s, f) ==> exists i :: 0 <= i < |s| && !f[i] && s[i] == x
  {
    if s != [] {
      var n := |s| - 1;
      KeptComeFrom(s[..n], f[..n], x);
    }
  }

  lemma {:induction false} ArgsComeFrom(s: seq<ToolCall>, p: nat)
    ensures p in Args(s) <==> exists i :: 0 <= i < |s| && s[i].arguments == Some(p)
  {
    if s != [] {
      var n := |s| - 1;
      ArgsComeFrom(s[..n], p);
      if i :| 0 <= i < |s| && s[i].arguments == Some(p) {
        if i < n { assert s[..n][i].arguments == Some(p); }
      }
    }
  }

  /** Conservation: kept and freed blocks together are the blocks there were. */
  lemma {:induction false} ArgsConserved(s: seq<ToolCall>, f: seq<bool>)
    requires |s| == |f|
    ensures multiset(Args(s)) == multiset(Args(KeepBy(s, f))) + multiset(Args(DropBy(s, f)))
  {
    if s != [] {
      var n := |s| - 1;
      assert s[..n] + [s[n]] == s && f[..n] + [f[n]] == f;
      hide KeepBy, DropBy, Args;
      ArgsConserved(s[..n], f[..n]);
      ConservedSnoc(s[..n], f[..n], s[n], f[n]);
    }
  }

  lemma ConservedSnoc(s: seq<ToolCall>, f: seq<bool>, x: ToolCall, b: bool)
    requires |s| == |f| && multiset(Args(s)) == multiset(Args(KeepBy(s, f))) + multiset(Args(DropBy(s, f)))
    ensures multiset(Args(s + [x])) ==
              multiset(Args(KeepBy(s + [x], f + [b]))) + multiset(Args(DropBy(s + [x], f + [b])))
  {
    hide KeepBy, DropBy, Args, Owns;
    KeepNext(s, f, x, b);
    ArgsSnoc(s, x);
    ArgsSnoc(KeepBy(s, f), x);
    ArgsSnoc(DropBy(s, f), x);
    Regrouped(Args(s), Args(KeepBy(s, f)), Args(DropBy(s, f)), Owns(x));
  }

  lemma KeepNext<T>(s: seq<T>, f: seq<bool>, x: T, b: bool)
    requires |s| == |f|
    ensures KeepBy(s + [x], f + [b]) == if b then KeepBy(s, f) + [x] else KeepBy(s, f)
    ensures DropBy(s + [x], f + [b]) == if b then DropBy(s, f) else DropBy(s, f) + [x]
  {
    assert (s + [x])[..|s|] == s && (f + [b])[..|s|] == f;
  }

  lemma Regrouped(a: seq<nat>, b: seq<nat>, c: seq<nat>, x: seq<nat>)
    requires multiset(a) == multiset(b) + multiset(c)
    ensures multiset(a + x) == multiset(b + x) + multiset(c) == multiset(b) + multiset(c + x)
  {
  }

  /** Each block is in the list of owned blocks once. */
  lemma {:induction false} OwnedOnce(s: seq<ToolCall>, live: set<nat>, p: nat)
    requires Owned(s, live)
    ensures multiset(Args(s))[p] <= 1
    ensures p in Args(s) ==> p in live
  {
    if s != [] {
      var n := |s| - 1;
      OwnedOnce(s[..n], live, p);
      if s[n].arguments == Some(p) { ArgsComeFrom(s[..n], p); }
    }
  }

  lemma {:induction false} TwiceCounted(s: seq<ToolCall>, i: nat, j: nat, p: nat)
    requires i < j < |s| && s[i].arguments == s[j].arguments == Some(p)
    ensures multiset(Args(s))[p] >= 2
  {
    var n := |s| - 1;
    assert Args(s) == Args(s[..n]) + Owns(s[n]);
    assert s[..n][i] == s[i];
    if j < n {
      TwiceCounted(s[..n], i, j, p);
    } else {
      ArgsComeFrom(s[..n], p);
    }
  }

  /** Owning is what it says: every block is live, and none occurs twice. */
  lemma OwnedExactly(s: seq<ToolCall>, live: set<nat>)
    ensures Owned(s, live) <==> forall p :: p in Args(s) ==> p in live && multiset(Args(s))[p] == 1
  {
    hide Args, Owned;
    if Owned(s, live) {
      forall p | p in Args(s)
        ensures p in live && multiset(Args(s))[p] == 1
      {
        OwnedOnce(s, live, p);
      }
    }
    if forall p :: p in Args(s) ==> p in live && multiset(Args(s))[p] == 1 { OnceIsOwned(s, live); }
  }

  lemma OnceIsOwned(s: seq<ToolCall>, live: set<nat>)
    requires forall p :: p in Args(s) ==> p in live && multiset(Args(s))[p] == 1
    ensures Owned(s, live)
  {
    hide Args;
    forall i | 0 <= i < |s| && s[i].arguments.Some?
      ensures s[i].arguments.value in Args(s)
    {
      ArgsComeFrom(s, s[i].arguments.value);
    }
    forall i, j | 0 <= i < j < |s| && s[i].arguments.Some?
      ensures s[i].arguments != s[j].arguments
    {
      if s[i].arguments == s[j].arguments { TwiceCounted(s, i, j, s[i].arguments.value); }
    }
  }

  /** Compaction is safe for ownership: every dropped call's block is freed exactly once, no kept call's is,
      and the kept calls still own live, distinct blocks. */
  lemma OwnershipKept(s: seq<ToolCall>, f: seq<bool>, live: set<nat>)
    requires |s| == |f| && Owned(s, live)
    ensures Owned(KeepBy(s, f), live - Gone(Args(DropBy(s, f))))
    ensures forall p :: p in Args(DropBy(s, f)) ==> multiset(Args(DropBy(s, f)))[p] == 1 && p !in Args(KeepBy(s, f))
  {
    hide KeepBy, DropBy, Args;
    FreedOnce(s, f, live);
    KeptOwned(s, f, live);
    var kept := KeepBy(s, f);
    forall i | 0 <= i < |kept| && kept[i].arguments.Some?
      ensures kept[i].arguments.value !in Args(DropBy(s, f))
    {
      ArgsComeFrom(kept, kept[i].arguments.value);
    }
  }

  lemma FreedOnce(s: seq<ToolCall>, f: seq<bool>, live: set<nat>)
    requires |s| == |f| && Owned(s, live)
    ensures forall p :: p in Args(DropBy(s, f)) ==> multiset(Args(DropBy(s, f)))[p] == 1 && p !in Args(KeepBy(s, f))
  {
    hide KeepBy, DropBy, Args, Owned;
    ArgsConserved(s, f);
    forall p | p in Args(DropBy(s, f))
      ensures multiset(Args(DropBy(s, f)))[p] == 1 && p !in Args(KeepBy(s, f))
    {
      OwnedOnce(s, live, p);
      assert p in multiset(Args(DropBy(s, f)));
      assert multiset(Args(KeepBy(s, f)))[p] == 0;
    }
  }

  lemma {:induction false} KeptOwned(s: seq<ToolCall>, f: seq<bool>, live: set<nat>)
    requires |s| == |f| && Owned(s, live)
    ensures Owned(KeepBy(s, f), live)
  {
    if s != [] {
      var n := |s| - 1;
      KeptOwned(s[..n], f[..n], live);
      var k := KeepBy(s[..n], f[..n]);
      forall i | 0 <= i < |k| && k[i].arguments.Some?
        ensures k[i].arguments != s[n].arguments
      {
        KeptComeFrom(s[..n], f[..n], k[i]);
      }
    }
  }

  // ---- applying a decision ----

  /** The entries a compaction leaves behind the live prefix: as they were, but without freed pointers. */
  predicate LeftBehind(before: seq<ToolCall>, f: seq<bool>, after: seq<ToolCall>, lo: nat, hi: nat)
    requires hi <= |before| && hi <= |f| && hi <= |after|
  {
    forall k :: lo <= k < hi ==> after[k] == if f[k] then before[k] else before[k].(arguments := None)
  }

  /** What compaction by flags leaves of a response, its heap and the history of frees, given what they were. */
  ghost predicate CompactedBy(parsed: ParsedResponse, heap: Heap, before: seq<ToolCall>, live0: set<nat>,
                              freed0: seq<nat>, n: nat, f: seq<bool>)
    requires n == |f|
    reads parsed, parsed.calls, heap
  {
    && |before| == parsed.calls.Length && 0 <= parsed.callCount == CountTrue(f) <= n <= |before|
    && parsed.calls[..parsed.callCount] == KeepBy(before[..n], f)
    && LeftBehind(before, f, parsed.calls[..], parsed.callCount, n)
    && parsed.calls[n..] == before[n..]
    && heap.freed == freed0 + Args(DropBy(before[..n], f))
    && heap.live == live0 - Gone(Args(DropBy(before[..n], f)))
  }

  lemma {:induction false} KeptIsThere<T>(s: seq<T>, f: seq<bool>, k: nat)
    requires |s| == |f| && k < |s| && f[k]
    ensures s[k] in KeepBy(s, f)
  {
    var n := |s| - 1;
    if k < n {
      KeptIsThere(s[..n], f[..n], k);
      assert s[..n][k] == s[k];
    }
  }

  /** No entry of the array, in the live prefix or left behind it, points to a block that is not live. */
  ghost predicate NothingDangles(calls: seq<ToolCall>, live: set<nat>) {
    forall k :: 0 <= k < |calls| && calls[k].arguments.Some? ==> calls[k].arguments.value in live
  }

  lemma CompactedDoesNotDangle(parsed: ParsedResponse, heap: Heap, before: seq<ToolCall>, live0: set<nat>,
                               freed0: seq<nat>, n: nat, f: seq<bool>)
    requires n == |f| && n <= |before| && CompactedBy(parsed, heap, before, live0, freed0, n, f)
    requires Owned(before[..n], live0)
    ensures NothingDangles(parsed.calls[..n], heap.live)
  {
    hide KeepBy, DropBy, Args, Gone, CountTrue;
    OwnershipKept(before[..n], f, live0);
    var kept, after := KeepBy(before[..n], f), parsed.calls[..n];
    forall k | 0 <= k < n && after[k].arguments.Some?
      ensures after[k].arguments.value in heap.live
    {
      if k < parsed.callCount {
        assert after[k] == parsed.calls[..parsed.callCount][k] == kept[k];
      } else {
        assert after[k] == parsed.calls[..][k];
        KeptIsThere(before[..n], f, k);
        assert after[k] == before[..n][k];
      }
    }
  }

  /** Compacts the calls in place: keeps those whose bit is set, frees the others' arguments, and sets the
      final stop reason. Returns how many were dropped. */
  method ApplyDecision(parsed: ParsedResponse, heap: Heap, decision: DecisionRecord) returns (dropped: int)
    requires parsed.Sized() && 0 <= parsed.callCount <= TOOL_COUNT_MAX
    requires Owned(parsed.calls[..parsed.callCount], heap.live)
    requires Terminated(decision.stopReason[..]) && decision.stopReason != parsed.stopReason
    modifies parsed, parsed.calls, parsed.stopReason, heap
    ensures var n := old(parsed.callCount);
      && CompactedBy(parsed, heap, old(parsed.calls[..]), old(heap.live), old(heap.freed), n,
                     Flags(decision.keepMask, n))
      && dropped == n - parsed.callCount && Owned(parsed.calls[..parsed.callCount], heap.live)
    ensures CStr(parsed.stopReason[..]) == Fitted(CStr(decision.stopReason[..]), parsed.stopReason.Length)
  {
    hide CStr, Terminated, Flags, KeepBy, DropBy, Args, Owned, Gone, CountTrue, LeftBehind;
    ghost var before := parsed.calls[..];
    var originalCount := parsed.callCount;
    var writeIndex := Compact(parsed, heap, decision.keepMask);
    parsed.callCount := writeIndex;
    OwnershipKept(before[..originalCount], Flags(decision.keepMask, originalCount), old(heap.live));
    Snprintf(parsed.stopReason, CStr(decision.stopReason[..]));
    return originalCount - writeIndex;
  }

  /** The loop of the compaction. */
  method Compact(parsed: ParsedResponse, heap: Heap, keepMask: uint32) returns (writeIndex: nat)
    requires parsed.Sized() && 0 <= parsed.callCount <= TOOL_COUNT_MAX
    requires Owned(parsed.calls[..parsed.callCount], heap.live)
    modifies parsed.calls, heap
    ensures var n := parsed.callCount;
      var before := old(parsed.calls[..]);
      var f := Flags(keepMask, n);
      && writeIndex == CountTrue(f) <= n
      && parsed.calls[..writeIndex] == KeepBy(before[..n], f)
      && LeftBehind(before, f, parsed.calls[..], writeIndex, n)
      && parsed.calls[n..] == before[n..]
      && heap.freed == old(heap.freed) + Args(DropBy(before[..n], f))
      && heap.live == old(heap.live) - Gone(Args(DropBy(before[..n], f)))
  {
    var originalCount := parsed.callCount;
    ghost var before := parsed.calls[..];
    ghost var f := Flags(keepMask, originalCount);
    hide Flags, Owned, CountTrue, KeepBy, DropBy, Args, Gone, LeftBehind;
    NothingYet(before, f, heap.live, heap.freed);
    hide Compacted, Released;
    writeIndex := 0;
    for i := 0 to originalCount
      invariant 0 <= writeIndex <= i
      invariant Compacted(before, f, parsed.calls[..], i, writeIndex)
      invariant Released(before, f, old(heap.live), old(heap.freed), heap.live, heap.freed, i)
    {
      writeIndex := CompactOne(parsed.calls, heap, keepMask, i, writeIndex, before, f, old(heap.live), old(heap.freed));
    }
    AllCompacted(before, f, old(heap.live), old(heap.freed), parsed.calls[..], heap.live, heap.freed, writeIndex);
  }

  /** One turn of the loop: a call whose bit is clear loses its block, any other moves to the front. */
  method CompactOne(calls: array<ToolCall>, heap: Heap, keepMask: uint32, i: nat, writeIndex: nat,
                    ghost before: seq<ToolCall>, ghost f: seq<bool>, ghost live0: set<nat>, ghost freed0: seq<nat>)
    returns (w: nat)
    requires writeIndex <= i < |f| && f == Flags(keepMask, |f|)
    requires Compacted(before, f, calls[..], i, writeIndex)
    requires Released(before, f, live0, freed0, heap.live, heap.freed, i)
    modifies calls, heap
    ensures w <= i + 1 && Compacted(before, f, calls[..], i + 1, w)
    ensures Released(before, f, live0, freed0, heap.live, heap.freed, i + 1)
  {
    w := writeIndex;
    AndPow2(keepMask, i);
    FlagsAt(keepMask, |f|, i);
    Untouched(before, f, calls[..], i, w);
    hide Flags, Bit, And, Compacted, Released;
    if And(keepMask, Pow2(i)) == 0 {
      DropStep(before, f, calls[..], i, w);
      FreeStep(before, f, live0, freed0, heap.live, heap.freed, i);
      heap.Free(calls[i].arguments);
      calls[i] := calls[i].(arguments := None);
      return;
    }
    KeepStep(before, f, calls[..], i, w);
    HoldStep(before, f, live0, freed0, heap.live, heap.freed, i);
    if w != i { calls[w] := calls[i]; }
    w := w + 1;
  }

  /** The first `i` calls dealt with: the kept ones in front, the rest as it was. */
  predicate Compacted(before: seq<ToolCall>, f: seq<bool>, calls: seq<ToolCall>, i: nat, w: nat) {
    && w <= i <= |f| <= |before| == |calls|
    && calls[..w] == KeepBy(before[..i], f[..i])
    && LeftBehind(before, f, calls, w, i)
    && forall k :: i <= k < |calls| ==> calls[k] == before[k]
  }

  /** The blocks of the dropped ones among the first `i` calls are freed, in order, and those of the calls
      still to come are live. */
  predicate Released(before: seq<ToolCall>, f: seq<bool>, live0: set<nat>, freed0: seq<nat>, live: set<nat>,
                     freed: seq<nat>, i: nat) {
    && i <= |f| <= |before|
    && Owned(before[..|f|], live0)
    && freed == freed0 + Args(DropBy(before[..i], f[..i]))
    && live == live0 - Gone(Args(DropBy(before[..i], f[..i])))
    && forall k :: i <= k < |f| && before[k].arguments.Some? ==> before[k].arguments.value in live
  }

  lemma NothingYet(before: seq<ToolCall>, f: seq<bool>, live: set<nat>, freed: seq<nat>)
    requires |f| <= |before| && Owned(before[..|f|], live)
    ensures Compacted(before, f, before, 0, 0) && Released(before, f, live, freed, live, freed, 0)
  {
    assert forall k :: 0 <= k < |f| ==> before[..|f|][k] == before[k];
    assert freed + [] == freed && Gone([]) == {};
  }

  lemma Untouched(before: seq<ToolCall>, f: seq<bool>, calls: seq<ToolCall>, i: nat, w: nat)
    requires Compacted(before, f, calls, i, w) && i < |f|
    ensures i < |calls| == |before| && calls[i] == before[i]
  {
  }

  /** One more step of keeping and dropping, on prefixes. */
  lemma PrefixStep(before: seq<ToolCall>, f: seq<bool>, i: nat)
    requires i < |f| <= |before|
    ensures var kept, dropped := KeepBy(before[..i], f[..i]), DropBy(before[..i], f[..i]);
      && KeepBy(before[..i + 1], f[..i + 1]) == (if f[i] then kept + [before[i]] else kept)
      && DropBy(before[..i + 1], f[..i + 1]) == (if f[i] then dropped else dropped + [before[i]])
  {
    assert before[..i + 1] == before[..i] + [before[i]] && f[..i + 1] == f[..i] + [f[i]];
    KeepNext(before[..i], f[..i], before[i], f[i]);
  }

  lemma DropStep(before: seq<ToolCall>, f: seq<bool>, calls: seq<ToolCall>, i: nat, w: nat)
    requires Compacted(before, f, calls, i, w) && i < |f| && !f[i]
    ensures Compacted(before, f, calls[i := calls[i].(arguments := None)], i + 1, w)
  {
    hide KeepBy, DropBy;
    PrefixStep(before, f, i);
    assert calls[i := calls[i].(arguments := None)][..w] == calls[..w];
  }

  lemma KeepStep(before: seq<ToolCall>, f: seq<bool>, calls: seq<ToolCall>, i: nat, w: nat)
    requires Compacted(before, f, calls, i, w) && i < |f| && f[i]
    ensures Compacted(before, f, if w != i then calls[w := calls[i]] else calls, i + 1, w + 1)
  {
    hide KeepBy, DropBy;
    PrefixStep(before, f, i);
    var after := if w != i then calls[w := calls[i]] else calls;
    assert after[..w + 1] == calls[..w] + [before[i]];
  }

  /** Calls own different blocks. */
  lemma Different(s: seq<ToolCall>, n: nat, live: set<nat>, i: nat, k: nat)
    requires i < k < n <= |s| && Owned(s[..n], live) && s[i].arguments.Some?
    ensures s[i].arguments != s[k].arguments
  {
    assert s[..n][i] == s[i] && s[..n][k] == s[k];
  }

  lemma FreeStep(before: seq<ToolCall>, f: seq<bool>, live0: set<nat>, freed0: seq<nat>, live: set<nat>,
                 freed: seq<nat>, i: nat)
    requires Released(before, f, live0, freed0, live, freed, i) && i < |f| && !f[i]
    ensures var p := before[i].arguments;
      && (p.Some? ==> p.value in live)
      && (p.Some? ==> Released(before, f, live0, freed0, live - {p.value}, freed + [p.value], i + 1))
      && (p.None? ==> Released(before, f, live0, freed0, live, freed, i + 1))
  {
    hide KeepBy, DropBy, Args, Gone, Owned;
    PrefixStep(before, f, i);
    var dropped := DropBy(before[..i], f[..i]);
    ArgsSnoc(dropped, before[i]);
    if before[i].arguments.Some? {
      var p := before[i].arguments.value;
      GoneSnoc(Args(dropped), p);
      assert freed0 + Args(dropped) + [p] == freed0 + (Args(dropped) + [p]);
      forall k | i < k < |f|
        ensures before[k].arguments != Some(p)
      {
        Different(before, |f|, live0, i, k);
      }
    } else {
      assert Args(dropped) + [] == Args(dropped);
    }
  }

  lemma HoldStep(before: seq<ToolCall>, f: seq<bool>, live0: set<nat>, freed0: seq<nat>, live: set<nat>,
                 freed: seq<nat>, i: nat)
    requires Released(before, f, live0, freed0, live, freed, i) && i < |f| && f[i]
    ensures Released(before, f, live0, freed0, live, freed, i + 1)
  {
    hide KeepBy, DropBy, Args, Gone, Owned;
    PrefixStep(before, f, i);
  }

  lemma AllCompacted(before: seq<ToolCall>, f: seq<bool>, live0: set<nat>, freed0: seq<nat>, calls: seq<ToolCall>,
                     live: set<nat>, freed: seq<nat>, w: nat)
    requires Compacted(before, f, calls, |f|, w) && Released(before, f, live0, freed0, live, freed, |f|)
    ensures var n := |f|;
      && w == CountTrue(f) <= n
      && calls[..w] == KeepBy(before[..n], f)
      && LeftBehind(before, f, calls, w, n)
      && calls[n..] == before[n..]
      && freed == freed0 + Args(DropBy(before[..n], f))
      && live == live0 - Gone(Args(DropBy(before[..n], f)))
  {
    hide KeepBy, DropBy, Args, Gone, CountTrue, Owned;
    assert f[..|f|] == f;
    KeepCount(before[..|f|], f);
  }

  // ---- the stage ----

  /** A decision the stage may apply: a terminated reason and a mask that accounts for every call. */
  method DecisionValid(decision: DecisionRecord, callCount: uint32) returns (ok: bool)
    ensures ok <==> callCount <= TOOL_COUNT_MAX && Terminated(decision.stopReason[..])
                    && Consistent(decision.keepMask, decision.dropCount, callCount)
    requires decision.stopReason.Length == STOP_REASON_MAX + 1
  {
    hide CStr, Consistent;
    if callCount > TOOL_COUNT_MAX { return false; }
    var reasonLen := |CStr(decision.stopReason[..])|;
    if reasonLen > STOP_REASON_MAX { return false; }
    ok := CheckMask(decision.keepMask, decision.dropCount, callCount);
  }

  function NoneKept(n: nat): (f: seq<bool>)
    ensures |f| == n
  {
    seq(n, i => false)
  }

  lemma {:induction false} ZeroMask(n: nat)
    ensures Flags(0, n) == NoneKept(n)
  {
    if n > 0 { ZeroMask(n - 1); }
  }

  lemma {:induction false} NoneCounts(n: nat)
    ensures CountTrue(NoneKept(n)) == 0
  {
    if n > 0 {
      NoneCounts(n - 1);
      assert NoneKept(n)[1..] == NoneKept(n - 1);
    }
  }

  lemma {:induction false} NoneKeeps<T>(s: seq<T>)
    ensures KeepBy(s, NoneKept(|s|)) == [] && DropBy(s, NoneKept(|s|)) == s
  {
    if s != [] {
      var n := |s| - 1;
      NoneKeeps(s[..n]);
      assert NoneKept(|s|)[..n] == NoneKept(n);
    }
  }

  /** Drops every call and says so. */
  method FailClosed(parsed: ParsedResponse, heap: Heap) returns (dropped: int)
    requires parsed.Sized() && 0 <= parsed.callCount <= TOOL_COUNT_MAX
    requires Owned(parsed.calls[..parsed.callCount], heap.live)
    modifies parsed, parsed.calls, parsed.stopReason, heap
    ensures CompactedBy(parsed, heap, old(parsed.calls[..]), old(heap.live), old(heap.freed), old(parsed.callCount),
                        NoneKept(old(parsed.callCount)))
    ensures parsed.callCount == 0 && dropped == old(parsed.callCount)
    ensures CStr(parsed.stopReason[..]) == EndTurn()
  {
    hide CStr, KeepBy, DropBy, Args, Gone, CountTrue, Flags;
    var n := parsed.callCount;
    var decision := new DecisionRecord();
    decision.dropCount := n;
    ReasonsAreText();
    Snprintf(decision.stopReason, EndTurn());
    ZeroMask(n);
    NoneCounts(n);
    dropped := ApplyDecision(parsed, heap, decision);
  }

  /** The calls a stage deals with: none for a negative count, at most sixteen. */
  function Clamped(callCount: int): nat {
    if callCount < 0 then 0 else if callCount > TOOL_COUNT_MAX then TOOL_COUNT_MAX else callCount
  }

  /** Whether a provider's decision is applied: it answered, about no more calls than the contract has room
      for, and its answer holds up. */
  ghost predicate Applied(answered: bool, callCount: int, mask: uint32, drops: uint32, reason: bytes) {
    && answered && callCount <= TOOL_COUNT_MAX && Terminated(reason)
    && Consistent(mask, drops, Clamped(callCount))
  }

  /** The flags by which a stage compacts, whatever the provider did. */
  ghost function StageFlags(answered: bool, callCount: int, mask: uint32, drops: uint32, reason: bytes): (f: seq<bool>)
    ensures |f| == Clamped(callCount)
  {
    if Applied(answered, callCount, mask, drops, reason) then Flags(mask, Clamped(callCount))
    else NoneKept(Clamped(callCount))
  }

  /** The stage. `answered` says whether a provider is there and returned success, and `decision` is then
      whatever it wrote. For every provider behaviour the calls left are the (clamped) original ones
      compacted by the stage's flags, so none at all unless the decision holds up; the reported
      interventions are the clamped count minus what is left; and the stop reason is the decision's, or
      `end_turn` after failing closed on at least one call, or untouched. */
  method RunStage(parsed: ParsedResponse, heap: Heap, answered: bool, decision: DecisionRecord)
    returns (interventions: int)
    requires parsed.Sized() && Owned(parsed.calls[..Clamped(parsed.callCount)], heap.live)
    requires decision.stopReason.Length == STOP_REASON_MAX + 1 && decision.stopReason != parsed.stopReason
    modifies parsed, parsed.calls, parsed.stopReason, heap
    ensures var n := Clamped(old(parsed.callCount));
      var f := old(StageFlags(answered, parsed.callCount, decision.keepMask, decision.dropCount,
                              decision.stopReason[..]));
      && CompactedBy(parsed, heap, old(parsed.calls[..]), old(heap.live), old(heap.freed), n, f)
      && interventions == n - parsed.callCount && Owned(parsed.calls[..parsed.callCount], heap.live)
      && NothingDangles(parsed.calls[..n], heap.live)
    ensures var applied := old(Applied(answered, parsed.callCount, decision.keepMask, decision.dropCount,
                                       decision.stopReason[..]));
      if applied then CStr(parsed.stopReason[..]) == CStr(decision.stopReason[..])
      else if Clamped(old(parsed.callCount)) > 0 then CStr(parsed.stopReason[..]) == EndTurn()
      else parsed.stopReason[..] == old(parsed.stopReason[..])
  {
    hide CStr, KeepBy, DropBy, Args, Gone, CountTrue, Flags, Consistent, NothingDangles;
    ghost var before, live0, freed0 := parsed.calls[..], heap.live, heap.freed;
    ghost var f := StageFlags(answered, parsed.callCount, decision.keepMask, decision.dropCount,
                              decision.stopReason[..]);
    if parsed.callCount < 0 { parsed.callCount := 0; }
    var callCount := parsed.callCount;
    if callCount > TOOL_COUNT_MAX {
      parsed.callCount := TOOL_COUNT_MAX;
      interventions := FailClosed(parsed, heap);
      CompactedDoesNotDangle(parsed, heap, before, live0, freed0, TOOL_COUNT_MAX, f);
      return;
    }
    var valid := false;
    if answered { valid := DecisionValid(decision, callCount); }
    if !valid {
      if callCount > 0 {
        interventions := FailClosed(parsed, heap);
      } else {
        interventions := 0;
        NothingToCompact(parsed, heap);
      }
      CompactedDoesNotDangle(parsed, heap, before, live0, freed0, callCount, f);
      return;
    }
    interventions := ApplyDecision(parsed, heap, decision);
    CompactedDoesNotDangle(parsed, heap, before, live0, freed0, callCount, f);
    if interventions <= 0 { interventions := 0; }
  }

  lemma NothingToCompact(parsed: ParsedResponse, heap: Heap)
    requires parsed.callCount == 0
    ensures CompactedBy(parsed, heap, parsed.calls[..], heap.live, heap.freed, 0, NoneKept(0))
  {
    assert parsed.calls[..][..0] == [] && heap.freed + [] == heap.freed;
  }

  lemma {:induction false} TerminatedIff(s: bytes)
    ensures Terminated(s) <==> 0 in s
  {
    if s != [] && s[0] != 0 {
      TerminatedIff(s[1..]);
      assert s == [s[0]] + s[1..];
    }
  }

  /** How many calls a stage looks at. */
  lemma ClampedIs(callCount: int)
    ensures callCount < 0 ==> Clamped(callCount) == 0
    ensures 0 <= callCount <= 16 ==> Clamped(callCount) == callCount
    ensures callCount > 16 ==> Clamped(callCount) == 16
  {
  }

  /** What a provider's decision must be to be applied: there, about at most sixteen calls, with a reason that ends,
      and with a mask inside the calls that accounts for every one of them. Then its mask decides what is kept;
      otherwise nothing is. */
  lemma AppliedExactly(before: seq<ToolCall>, answered: bool, callCount: int, mask: uint32, drops: uint32,
                       reason: bytes)
    requires |before| == Clamped(callCount)
    ensures var kept := KeepBy(before, StageFlags(answered, callCount, mask, drops, reason));
      if answered && callCount <= 16 && 0 in reason
         && mask < Pow2(|before|) && PopCount(mask) + drops == |before| then
        kept == KeepBy(before, Flags(mask, |before|))
      else kept == []
  {
    hide KeepBy, Flags, Terminated;
    TerminatedIff(reason);
    ClampedIs(callCount);
    NoneKeeps(before);
  }

  /** Failing closed: whatever the provider yields, what is left is a subsequence of the clamped calls, and
      nothing is left unless its decision is applied. */
  lemma StageFailsClosed(before: seq<ToolCall>, answered: bool, callCount: int, mask: uint32, drops: uint32,
                         reason: bytes)
    requires |before| == Clamped(callCount)
    ensures var f := StageFlags(answered, callCount, mask, drops, reason);
      && Subsequence(KeepBy(before, f), before)
      && |KeepBy(before, f)| == CountTrue(f)
      && (!Applied(answered, callCount, mask, drops, reason) ==> KeepBy(before, f) == [])
      && (Applied(answered, callCount, mask, drops, reason) ==> |DropBy(before, f)| == drops)
  {
    var f := StageFlags(answered, callCount, mask, drops, reason);
    KeepIsSubsequence(before, f);
    KeepCount(before, f);
    NoneKeeps(before);
    if Applied(answered, callCount, mask, drops, reason) { MaskOfFlags(mask, Clamped(callCount)); }
  }
}
