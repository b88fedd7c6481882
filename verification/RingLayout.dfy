/** The bytes of a single-producer/single-consumer ring (server-go/bus/ring.go): a 192-byte header
    holding the geometry and two 64-bit indices, then `capacity` slots. A ring is a byte string; what
    it holds is the queue of slots from the tail index up to the head index. */
module RingLayout {
  import opened Bits
  import opened Bytes

  const RING_MAGIC: uint32 := 0x474e4952
  const OFF_SLOT := 4
  const OFF_CAP := 8
  const OFF_MASK := 12
  const OFF_SLOTS := 16
  const OFF_HEAD := 64
  const OFF_TAIL := 128
  const RING_HDR := 192

  datatype Geometry = Geometry(slotSize: uint32, capacity: uint32)

  predicate Sound(g: Geometry) {
    g.slotSize > 0 && g.capacity >= 2 && IsPow2(g.capacity)
  }

  function RingBytes(g: Geometry): (n: nat)
    ensures n >= RING_HDR
  {
    assert g.slotSize * g.capacity >= 0;
    RING_HDR + g.slotSize * g.capacity
  }

  function Head(r: bytes): uint64
    requires |r| >= RING_HDR
  {
    U64(r, OFF_HEAD)
  }

  function Tail(r: bytes): uint64
    requires |r| >= RING_HDR
  {
    U64(r, OFF_TAIL)
  }

  /** Occupied slots: `head - tail` in 64-bit arithmetic. */
  function Count(r: bytes): uint64
    requires |r| >= RING_HDR
  {
    Wrap64(Head(r) - Tail(r))
  }

  function SlotOffset(g: Geometry, index: uint64): nat
    requires g.capacity > 0
  {
    RING_HDR + And(index, g.capacity - 1) * g.slotSize
  }

  /** What an attached ring's bytes satisfy at every moment. */
  predicate Attached(g: Geometry, r: bytes) {
    Sound(g) && |r| == RingBytes(g) && Count(r) <= g.capacity
  }

  // ---- geometry ----

  lemma OrderedProducts(a: nat, b: nat, c: nat)
    requires a < b
    ensures a * c + c <= b * c
  {
    assert (b - a - 1) * c >= 0;
    assert b * c == (a + 1) * c + (b - a - 1) * c;
  }

  /** Every 64-bit index names a slot that lies past the header and inside the ring. */
  lemma SlotBounds(g: Geometry, index: uint64)
    requires Sound(g)
    ensures SlotOffset(g, index) == RING_HDR + index % g.capacity * g.slotSize
    ensures RING_HDR <= SlotOffset(g, index) && SlotOffset(g, index) + g.slotSize <= RingBytes(g)
  {
    var m := And(index, g.capacity - 1);
    assert m == index % g.capacity && m < g.capacity by { MaskIsRemainder(index, g.capacity); }
    SlotOffsetBounds(g, m);
  }

  lemma SlotOffsetBounds(g: Geometry, m: nat)
    requires m < g.capacity
    ensures RING_HDR <= RING_HDR + m * g.slotSize
    ensures RING_HDR + m * g.slotSize + g.slotSize <= RingBytes(g)
  {
    OrderedProducts(m, g.capacity, g.slotSize);
    assert m * g.slotSize >= 0;
  }

  /** Two indices share bytes of their slots only when they are congruent, and then they share all. */
  lemma SlotsOverlapIffCongruent(g: Geometry, i: uint64, j: uint64)
    requires Sound(g)
    ensures i % g.capacity == j % g.capacity ==> SlotOffset(g, i) == SlotOffset(g, j)
    ensures i % g.capacity != j % g.capacity ==>
              SlotOffset(g, i) + g.slotSize <= SlotOffset(g, j) || SlotOffset(g, j) + g.slotSize <= SlotOffset(g, i)
  {
    SlotBounds(g, i);
    SlotBounds(g, j);
    var a, b := i % g.capacity, j % g.capacity;
    if a < b {
      OrderedProducts(a, b, g.slotSize);
    } else if b < a {
      OrderedProducts(b, a, g.slotSize);
    }
  }

  /** The capacity divides `2^64`, so wrapping an index does not change its slot. */
  lemma WrapKeepsSlot(g: Geometry, x: nat)
    requires Sound(g)
    ensures Wrap64(x) % g.capacity == x % g.capacity
  {
    assert Pow2(64) == 0x1_0000_0000_0000_0000 by { Pow2Of64(); }
    var m := PowerDivides(g.capacity, 64);
    var c := g.capacity as int;
    var full := x / 0x1_0000_0000_0000_0000;
    var q := Wrap64(x) / c;
    assert x == full * (m * c) + Wrap64(x);
    assert full * (m * c) == (full * m) * c;
    assert Wrap64(x) == q * c + Wrap64(x) % c;
    assert x == (full * m + q) * c + Wrap64(x) % c;
    RemainderUnique(x, full * m + q, c, Wrap64(x) % c);
  }

  lemma Pow2Of64()
    ensures Pow2(31) == 0x8000_0000 && Pow2(32) == 0x1_0000_0000 && Pow2(64) == 0x1_0000_0000_0000_0000
  {
    assert Pow2(8) == 256;
    assert Pow2(16) == 256 * Pow2(8);
    assert Pow2(24) == 256 * Pow2(16);
    assert Pow2(32) == 256 * Pow2(24);
    assert Pow2(40) == 256 * Pow2(32);
    assert Pow2(48) == 256 * Pow2(40);
    assert Pow2(56) == 256 * Pow2(48);
  }

  lemma NearbyIndicesDiffer(x: nat, d: nat, c: nat)
    requires 0 < d < c
    ensures (x + d) % c != x % c
  {
    var r := x % c;
    if r + d < c {
      assert x + d == (x / c) * c + (r + d);
      RemainderUnique(x + d, x / c, c, r + d);
    } else {
      assert (x / c + 1) * c == (x / c) * c + c;
      RemainderUnique(x + d, x / c + 1, c, r + d - c);
    }
  }

  /** Fewer than `capacity` steps apart, two indices name disjoint slots, also across the 64-bit wrap. */
  lemma NearbySlotsApart(g: Geometry, i: uint64, d: nat)
    requires Sound(g) && 0 < d < g.capacity
    ensures var j := Wrap64(i + d);
      SlotOffset(g, i) + g.slotSize <= SlotOffset(g, j) || SlotOffset(g, j) + g.slotSize <= SlotOffset(g, i)
  {
    WrapKeepsSlot(g, i + d);
    NearbyIndicesDiffer(i, d, g.capacity);
    SlotsOverlapIffCongruent(g, i, Wrap64(i + d));
  }

  // ---- the queue ----

  function SlotBytes(g: Geometry, r: bytes, index: uint64): (s: bytes)
    requires Sound(g) && |r| == RingBytes(g)
    ensures |s| == g.slotSize
  {
    SlotBounds(g, index);
    r[SlotOffset(g, index)..SlotOffset(g, index) + g.slotSize]
  }

  /** The committed, unconsumed slots, oldest first. */
  function Queue(g: Geometry, r: bytes): (q: seq<bytes>)
    requires Attached(g, r)
    ensures |q| == Count(r)
  {
    seq(Count(r), k requires 0 <= k < Count(r) => SlotBytes(g, r, Wrap64(Tail(r) + k)))
  }

  predicate HasRoom(g: Geometry, r: bytes)
    requires |r| >= RING_HDR
  {
    Count(r) < g.capacity
  }

  /** `s` and `r` differ at most in `[lo, hi)`. */
  predicate AgreeOutside(r: bytes, s: bytes, lo: nat, hi: nat) {
    |s| == |r| && forall k :: 0 <= k < |r| && !(lo <= k < hi) ==> s[k] == r[k]
  }

  lemma AgreeOnRange(r: bytes, s: bytes, lo: nat, hi: nat, a: nat, b: nat)
    requires AgreeOutside(r, s, lo, hi) && a <= b <= |r| && (b <= lo || hi <= a)
    ensures s[a..b] == r[a..b]
  {
  }

  lemma QueueAt(g: Geometry, r: bytes, k: nat)
    requires Attached(g, r) && k < Count(r)
    ensures Queue(g, r)[k] == SlotBytes(g, r, Wrap64(Tail(r) + k))
  {
  }

  lemma WrapOnce(x: int)
    requires -0x1_0000_0000_0000_0000 <= x < 0x2_0000_0000_0000_0000
    ensures Wrap64(x) == if x < 0 then x + 0x1_0000_0000_0000_0000
                         else if x < 0x1_0000_0000_0000_0000 then x
                         else x - 0x1_0000_0000_0000_0000
  {
  }

  /** The head is `n - k` past the index that is `k` past the tail. */
  lemma IndexToHead(h: uint64, t: uint64, k: nat)
    requires k <= Wrap64(h - t)
    ensures Wrap64(Wrap64(t + k) + (Wrap64(h - t) - k)) == h
    ensures k == Wrap64(h - t) ==> Wrap64(t + k) == h
  {
    WrapOnce(h - t);
    WrapOnce(t + k);
    WrapOnce(Wrap64(t + k) + (Wrap64(h - t) - k));
  }

  lemma IndexFrom(t: uint64, i: uint64, k: uint64)
    requires i + k <= 0x1_0000_0000_0000_0000
    ensures Wrap64(Wrap64(t + i) + k) == Wrap64(t + (i + k))
  {
    WrapOnce(t + i);
    WrapOnce(Wrap64(t + i) + k);
    WrapOnce(t + (i + k));
  }

  /** The count across one publish and across one release. */
  lemma CountSteps(h: uint64, t: uint64)
    ensures Wrap64(h - t) < 0xffff_ffff_ffff_ffff ==> Wrap64(Wrap64(h + 1) - t) == Wrap64(h - t) + 1
    ensures Wrap64(h - t) > 0 ==> Wrap64(h - Wrap64(t + 1)) == Wrap64(h - t) - 1
  {
    WrapOnce(h - t);
    WrapOnce(h + 1);
    WrapOnce(t + 1);
    WrapOnce(Wrap64(h + 1) - t);
    WrapOnce(h - Wrap64(t + 1));
  }

  lemma EmptyTest(h: uint64, t: uint64)
    ensures h == t <==> Wrap64(h - t) == 0
  {
    WrapOnce(h - t);
  }

  lemma OldestSlot(g: Geometry, r: bytes)
    requires Attached(g, r) && Count(r) > 0
    ensures Queue(g, r)[0] == SlotBytes(g, r, Tail(r))
  {
    QueueAt(g, r, 0);
    WrapOnce(Tail(r));
  }

  lemma WriteKeepsSlot(g: Geometry, r: bytes, s: bytes, k: nat)
    requires Attached(g, r) && HasRoom(g, r) && k < Count(r)
    requires AgreeOutside(r, s, SlotOffset(g, Head(r)), SlotOffset(g, Head(r)) + g.slotSize)
    ensures SlotBytes(g, s, Wrap64(Tail(r) + k)) == SlotBytes(g, r, Wrap64(Tail(r) + k))
  {
    var lo := SlotOffset(g, Head(r));
    var i := Wrap64(Tail(r) + k);
    IndexToHead(Head(r), Tail(r), k);
    NearbySlotsApart(g, i, Count(r) - k);
    SlotBounds(g, i);
    AgreeOnRange(r, s, lo, lo + g.slotSize, SlotOffset(g, i), SlotOffset(g, i) + g.slotSize);
  }

  /** Writing into the slot at the head index of a ring that is not full leaves the queue alone. */
  lemma WriteKeepsQueue(g: Geometry, r: bytes, s: bytes)
    requires Attached(g, r) && HasRoom(g, r)
    requires AgreeOutside(r, s, SlotOffset(g, Head(r)), SlotOffset(g, Head(r)) + g.slotSize)
    ensures Attached(g, s) && Head(s) == Head(r) && Tail(s) == Tail(r)
    ensures Queue(g, s) == Queue(g, r)
  {
    var lo := SlotOffset(g, Head(r));
    SlotBounds(g, Head(r));
    AgreeOnRange(r, s, lo, lo + g.slotSize, OFF_HEAD, OFF_HEAD + 8);
    AgreeOnRange(r, s, lo, lo + g.slotSize, OFF_TAIL, OFF_TAIL + 8);
    forall k | 0 <= k < Count(r)
      ensures Queue(g, s)[k] == Queue(g, r)[k]
    {
      WriteKeepsSlot(g, r, s, k);
      QueueAt(g, r, k);
      QueueAt(g, s, k);
    }
  }

  /** The ring after storing `v` in the head index, and after storing `v` in the tail index. */
  function StoreHead(r: bytes, v: uint64): (s: bytes)
    requires |r| >= RING_HDR
    ensures |s| == |r|
  {
    Splice(r, OFF_HEAD, Le(v, 8))
  }

  function StoreTail(r: bytes, v: uint64): (s: bytes)
    requires |r| >= RING_HDR
    ensures |s| == |r|
  {
    Splice(r, OFF_TAIL, Le(v, 8))
  }

  lemma StoredHead(r: bytes, v: uint64)
    requires |r| >= RING_HDR
    ensures Head(StoreHead(r, v)) == v && Tail(StoreHead(r, v)) == Tail(r)
    ensures StoreHead(r, v)[RING_HDR..] == r[RING_HDR..]
  {
    Limits();
    ValOfLe(v, 8);
    SpliceParts(r, OFF_HEAD, Le(v, 8));
    SpliceElsewhere(r, OFF_HEAD, Le(v, 8), OFF_TAIL, OFF_TAIL + 8);
  }

  lemma StoredTail(r: bytes, v: uint64)
    requires |r| >= RING_HDR
    ensures Tail(StoreTail(r, v)) == v && Head(StoreTail(r, v)) == Head(r)
    ensures StoreTail(r, v)[RING_HDR..] == r[RING_HDR..]
  {
    Limits();
    ValOfLe(v, 8);
    SpliceParts(r, OFF_TAIL, Le(v, 8));
    SpliceElsewhere(r, OFF_TAIL, Le(v, 8), OFF_HEAD, OFF_HEAD + 8);
  }

  /** Slots do not depend on the header. */
  lemma SameSlots(g: Geometry, r: bytes, s: bytes, index: uint64)
    requires Sound(g) && |r| == |s| == RingBytes(g) && s[RING_HDR..] == r[RING_HDR..]
    ensures SlotBytes(g, s, index) == SlotBytes(g, r, index)
  {
    SlotBounds(g, index);
    var lo := SlotOffset(g, index);
    SuffixRange(r, RING_HDR, lo - RING_HDR, lo - RING_HDR + g.slotSize);
    SuffixRange(s, RING_HDR, lo - RING_HDR, lo - RING_HDR + g.slotSize);
  }

  /** Publishing appends the slot at the old head index. */
  lemma PublishAppends(g: Geometry, r: bytes)
    requires Attached(g, r) && HasRoom(g, r)
    ensures var s := StoreHead(r, Wrap64(Head(r) + 1));
      && Attached(g, s) && Head(s) == Wrap64(Head(r) + 1) && Tail(s) == Tail(r)
      && Queue(g, s) == Queue(g, r) + [SlotBytes(g, r, Head(r))]
  {
    hide Wrap64;
    var s := StoreHead(r, Wrap64(Head(r) + 1));
    StoredHead(r, Wrap64(Head(r) + 1));
    IndexToHead(Head(r), Tail(r), Count(r));
    CountSteps(Head(r), Tail(r));
    WrapOnce(Tail(r));
    SameQueue(g, r, s, 0, Count(r));
    SameSlots(g, r, s, Head(r));
    QueueAt(g, s, Count(r));
    Appended(Queue(g, r), Queue(g, s), SlotBytes(g, r, Head(r)));
  }

  lemma Appended<T>(q: seq<T>, p: seq<T>, x: T)
    requires |p| == |q| + 1 && p[..|q|] == q[0..|q|] && p[|q|] == x
    ensures p == q + [x]
  {
    assert p == p[..|q|] + [p[|q|]];
  }

  /** Rings with the same slots hold the same slots at the same indices. */
  lemma SameQueue(g: Geometry, r: bytes, s: bytes, from: nat, n: nat)
    requires Attached(g, r) && Attached(g, s) && s[RING_HDR..] == r[RING_HDR..]
    requires from + n <= Count(r) && n <= Count(s) && Tail(s) == Wrap64(Tail(r) + from)
    ensures Queue(g, s)[..n] == Queue(g, r)[from..from + n]
  {
    forall k | 0 <= k < n
      ensures Queue(g, s)[k] == Queue(g, r)[from + k]
    {
      QueueAt(g, s, k);
      QueueAt(g, r, from + k);
      IndexFrom(Tail(r), from, k);
      SameSlots(g, r, s, Wrap64(Tail(s) + k));
    }
  }

  /** Releasing drops the oldest slot. */
  lemma ReleaseDrops(g: Geometry, r: bytes)
    requires Attached(g, r) && Count(r) > 0
    ensures var s := StoreTail(r, Wrap64(Tail(r) + 1));
      && Attached(g, s) && Head(s) == Head(r) && Tail(s) == Wrap64(Tail(r) + 1)
      && Queue(g, s) == Queue(g, r)[1..]
  {
    hide Wrap64;
    var s := StoreTail(r, Wrap64(Tail(r) + 1));
    StoredTail(r, Wrap64(Tail(r) + 1));
    CountSteps(Head(r), Tail(r));
    SameQueue(g, r, s, 1, Count(s));
    assert Queue(g, s)[..Count(s)] == Queue(g, s);
  }
}
