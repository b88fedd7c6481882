/** Laying out an empty ring (server-go/bus/ring.go:130-149). */
module RingInit {
  import opened Bits
  import opened Bytes
  import opened RingLayout
  import opened Ring

  /** The twenty bytes in front: magic, slot size, capacity, mask, where the slots start. */
  function Shapes(g: Geometry): (s: bytes)
    requires g.capacity > 0
    ensures |s| == 20
  {
    Le(RING_MAGIC, 4) + Le(g.slotSize, 4) + Le(g.capacity, 4) + Le(g.capacity - 1, 4) + Le(RING_HDR, 4)
  }

  lemma ShapeFields(g: Geometry, s: bytes)
    requires g.capacity > 0 && |s| >= RING_HDR && s[..20] == Shapes(g)
    ensures U32(s, 0) == RING_MAGIC && HeaderGeometry(s) == g
    ensures U32(s, OFF_MASK) == g.capacity - 1 && U32(s, OFF_SLOTS) == RING_HDR
  {
    Limits();
    hide Le, Limit, Val;
    var t1 := Le(RING_MAGIC, 4);
    var t2 := t1 + Le(g.slotSize, 4);
    var t3 := t2 + Le(g.capacity, 4);
    var t4 := t3 + Le(g.capacity - 1, 4);
    LastField(s, t4, RING_HDR, 4);
    LastField(s, t3, g.capacity - 1, 4);
    LastField(s, t2, g.capacity, 4);
    LastField(s, t1, g.slotSize, 4);
    LastField(s, [], RING_MAGIC, 4);
  }

  lemma {:induction false} LeZero(n: nat)
    ensures Le(0, n) == Zeros(n)
  {
    if n > 0 { LeZero(n - 1); }
  }

  lemma ZeroIndices(s: bytes)
    requires |s| >= RING_HDR && AllZero(s[20..RING_HDR])
    ensures Head(s) == 0 && Tail(s) == 0
  {
    LeZero(8);
    ValOfLe(0, 8);
    assert forall k :: 20 <= k < RING_HDR ==> s[k] == s[20..RING_HDR][k - 20];
    assert s[OFF_HEAD..OFF_HEAD + 8] == Zeros(8) && s[OFF_TAIL..OFF_TAIL + 8] == Zeros(8);
  }

  /** Writing zeros where zeros are changes nothing. */
  lemma ZerosOverZeros(s: bytes, off: nat)
    requires off + 8 <= |s| && AllZero(s[off..off + 8])
    ensures Splice(s, off, Le(0, 8)) == s
  {
    LeZero(8);
    assert s == s[..off] + s[off..off + 8] + s[off + 8..];
    assert s[off..off + 8] == Zeros(8);
  }

  lemma Prepend(s: bytes, v: bytes, w: bytes)
    requires |v| + |w| <= |s|
    ensures Splice(Splice(s, |v|, w), 0, v) == Splice(s, 0, v + w)
  {
  }

  /** The bytes an initialisation leaves: the shape, then zeros up to the end of the slots. */
  predicate LaidOut(g: Geometry, given: bytes, s: bytes)
    requires g.capacity > 0
  {
    && |s| == |given| >= RingBytes(g)
    && s[..20] == Shapes(g) && AllZero(s[20..RingBytes(g)]) && s[RingBytes(g)..] == given[RingBytes(g)..]
  }

  lemma ShapesOverZeros(g: Geometry, given: bytes)
    requires g.capacity > 0 && |given| >= RingBytes(g)
    ensures LaidOut(g, given, Splice(Splice(given, 0, Zeros(RingBytes(g))), 0, Shapes(g)))
  {
    hide RingBytes, Shapes;
    var n := RingBytes(g);
    var z := Splice(given, 0, Zeros(n));
    var s := Splice(z, 0, Shapes(g));
    assert s[20..n] == z[20..n];
    assert s[n..] == z[n..] == given[n..];
  }

  /** A header of an admissible shape, blank behind it, attaches as an empty ring whatever its slots hold. */
  lemma BlankHeaderAttaches(g: Geometry, s: bytes)
    requires Sound(g) && RingBytes(g) <= |s| && s[..20] == Shapes(g) && AllZero(s[20..RING_HDR])
    ensures Attaches(s) && HeaderGeometry(s) == g
    ensures Attached(g, s[..RingBytes(g)]) && Queue(g, s[..RingBytes(g)]) == []
  {
    ShapeFields(g, s);
    ZeroIndices(s);
    EmptyAttached(g, s);
    AttachIsSound(s);
    hide U32, U64, Attached, Sound, Shapes, Queue;
  }

  /** What is laid out attaches, as an empty ring. */
  lemma LaidOutAttaches(g: Geometry, given: bytes, s: bytes)
    requires Sound(g) && LaidOut(g, given, s)
    ensures Attaches(s) && HeaderGeometry(s) == g
    ensures Attached(g, s[..RingBytes(g)]) && Queue(g, s[..RingBytes(g)]) == []
  {
    ZeroPrefix(s, RingBytes(g));
    hide Sound, RingBytes, Shapes, Attaches, Attached, Queue;
    BlankHeaderAttaches(g, s);
  }

  lemma ZeroPrefix(s: bytes, n: nat)
    requires RING_HDR <= n <= |s| && AllZero(s[20..n])
    ensures AllZero(s[20..RING_HDR])
  {
    assert s[20..RING_HDR] == s[20..n][..RING_HDR - 20];
  }

  lemma EmptyAttached(g: Geometry, s: bytes)
    requires Sound(g) && RingBytes(g) <= |s| && Head(s) == 0 && Tail(s) == 0
    ensures Attached(g, s[..RingBytes(g)]) && Queue(g, s[..RingBytes(g)]) == []
  {
    hide RingBytes, IsPow2, SlotBytes;
    Prefix(s, RingBytes(g), OFF_HEAD, OFF_HEAD + 8);
    Prefix(s, RingBytes(g), OFF_TAIL, OFF_TAIL + 8);
    EmptyTest(0, 0);
  }

  /** Lays out an empty ring at the start of `mem`, exactly for an admissible shape that fits, and attaches
      it. Bytes behind the ring stay; a refused call writes nothing. */
  method InitRing(mem: array<byte>, slotSize: uint32, capacity: uint32) returns (r: Ring?)
    modifies mem
    ensures var g := Geometry(slotSize, capacity);
      r != null <==> Sound(g) && RingBytes(g) <= mem.Length
    ensures r != null ==> fresh(r) && r.Valid() && r.mem == mem && r.base == 0
                          && r.Shape() == Geometry(slotSize, capacity) && r.Contents() == []
                          && LaidOut(r.Shape(), old(mem[..]), mem[..])
    ensures r == null ==> mem[..] == old(mem[..])
  {
    var g := Geometry(slotSize, capacity);
    if capacity >= 2 { PowerOfTwoTest(capacity); }
    if capacity < 2 || And(capacity, capacity - 1) != 0 || slotSize == 0 { return null; }
    SoundSizeFits(g);
    if mem.Length < NeedInt64(g) { return null; }
    hide Shapes, And, IsPow2, RingBytes, Le, Splice, LaidOut, Attached, Queue, Attaches;
    WriteShape(mem, g);
    LaidOutAttaches(g, old(mem[..]), mem[..]);
    assert mem[0..] == mem[..];
    r := AttachRing(mem, 0);
    assert mem[..][0..RingBytes(g)] == mem[..][..RingBytes(g)];
  }

  method WriteShape(mem: array<byte>, g: Geometry)
    requires g.capacity > 0 && RingBytes(g) <= mem.Length
    modifies mem
    ensures LaidOut(g, old(mem[..]), mem[..])
  {
    var n := RingBytes(g);
    hide RingBytes, Le, Splice, LaidOut;
    Clear(mem, 0, n);
    ghost var zeroed := mem[..];
    Put(mem, OFF_SLOT, g.slotSize, 4);
    ghost var done := Le(g.slotSize, 4);
    PutNext(mem, OFF_CAP, g.capacity, 4, zeroed, 4, done);
    done := done + Le(g.capacity, 4);
    PutNext(mem, OFF_MASK, g.capacity - 1, 4, zeroed, 4, done);
    done := done + Le(g.capacity - 1, 4);
    PutNext(mem, OFF_SLOTS, RING_HDR, 4, zeroed, 4, done);
    done := done + Le(RING_HDR, 4);
    IndicesAreZero(old(mem[..]), n, done);
    Put(mem, OFF_HEAD, 0, 8);
    Put(mem, OFF_TAIL, 0, 8);
    Put(mem, 0, RING_MAGIC, 4);
    Prepend(zeroed, Le(RING_MAGIC, 4), done);
    assert Le(RING_MAGIC, 4) + done == Shapes(g);
    ShapesOverZeros(g, old(mem[..]));
  }

  lemma IndicesAreZero(given: bytes, n: nat, done: bytes)
    requires RING_HDR <= n <= |given| && |done| == 16
    ensures var s := Splice(Splice(given, 0, Zeros(n)), 4, done);
      Splice(s, OFF_HEAD, Le(0, 8)) == s && Splice(s, OFF_TAIL, Le(0, 8)) == s
  {
    var s := Splice(Splice(given, 0, Zeros(n)), 4, done);
    assert AllZero(s[OFF_HEAD..OFF_HEAD + 8]) && AllZero(s[OFF_TAIL..OFF_TAIL + 8]);
    ZerosOverZeros(s, OFF_HEAD);
    ZerosOverZeros(s, OFF_TAIL);
  }
}
