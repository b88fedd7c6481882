/** The queue-pair region: a 96-byte header and two rings in one mapping (server-go/bus/region.go and the
    size computation of server-go/bus/client.go). */
module Region {
  import opened Bytes
  import opened RingLayout
  import opened Ring
  import opened RingInit
  import Bits

  const QP_MAGIC: uint32 := 0x52504251
  const QP_BYTES := 96
  const QP_OFF_INBOUND := 24
  const QP_OFF_OUTBOUND := 28

  /** `(n + 63) &^ 63` in wrapping signed arithmetic. */
  function Align64Int64(n: int): int {
    var m := WrapInt64(n + 63);
    m - m % 64
  }

  function Align64(n: nat): nat { n + 63 - (n + 63) % 64 }

  /** The mapping size as the code computes it. */
  function QpairBytesInt64(g: Geometry): int {
    var ring := NeedInt64(g);
    var inOff := Align64Int64(QP_BYTES);
    var outOff := Align64Int64(WrapInt64(inOff + ring));
    WrapInt64(outOff + ring)
  }

  const INBOUND_AT := 128

  function OutboundAt(g: Geometry): nat { Align64(INBOUND_AT + RingBytes(g)) }

  function QpairBytes(g: Geometry): nat { OutboundAt(g) + RingBytes(g) }

  /** The size the code computes is the true size exactly when the true size is a signed 64-bit number;
      the rings it lays out are then disjoint, lie past the header, and both fit. */
  lemma QpairLayout(g: Geometry)
    ensures QpairBytesInt64(g) == QpairBytes(g) <==> QpairBytes(g) < 0x8000_0000_0000_0000
    ensures QP_BYTES <= INBOUND_AT && INBOUND_AT + RingBytes(g) <= OutboundAt(g)
    ensures OutboundAt(g) + RingBytes(g) <= QpairBytes(g)
    ensures INBOUND_AT % 64 == 0 && OutboundAt(g) % 64 == 0
  {
    hide WrapInt64, RingBytes;
    var ring := RingBytes(g);
    AlignUp(QP_BYTES);
    AlignUp(INBOUND_AT + ring);
    var outOff := Align64Int64(WrapInt64(128 + NeedInt64(g)));
    WrapIntRange(outOff + NeedInt64(g));
    if QpairBytes(g) < 0x8000_0000_0000_0000 {
      NeedFits(g);
      WrapIntFits(128 + ring);
      WrapIntFits(128 + ring + 63);
      WrapIntFits(OutboundAt(g) + ring);
    }
    WrapIntFits(QP_BYTES + 63);
  }

  lemma AlignUp(n: nat)
    ensures n <= Align64(n) && Align64(n) % 64 == 0
    ensures Align64(n) < n + 64
  {
  }

  lemma WrapIntFits(x: int)
    requires -0x8000_0000_0000_0000 <= x < 0x8000_0000_0000_0000
    ensures WrapInt64(x) == x
  {
  }

  lemma WrapIntRange(x: int)
    ensures -0x8000_0000_0000_0000 <= WrapInt64(x) < 0x8000_0000_0000_0000
  {
  }

  lemma NeedFits(g: Geometry)
    requires RingBytes(g) < 0x8000_0000_0000_0000
    ensures NeedInt64(g) == RingBytes(g)
  {
    var product := g.slotSize * g.capacity;
    assert product >= 0;
    WrapIntFits(product);
    WrapIntFits(RING_HDR + product);
  }

  /** An admissible ring always fits a signed 64-bit size, a pair of them need not. */
  lemma QpairCanOverflow()
    ensures var g := Geometry(0xffff_ffff, 0x8000_0000);
      Sound(g) && NeedInt64(g) == RingBytes(g) && QpairBytesInt64(g) != QpairBytes(g)
  {
    var g := Geometry(0xffff_ffff, 0x8000_0000);
    assert RingBytes(g) == 192 + 0xffff_ffff * 0x8000_0000;
    Pow2IsPow2(31);
    Pow2Of64();
    SoundSizeFits(g);
    QpairLayout(g);
  }

  lemma {:induction false} Pow2IsPow2(n: nat)
    ensures Bits.IsPow2(Bits.Pow2(n))
  {
    if n > 0 { Pow2IsPow2(n - 1); }
  }

  /** A mapping whose header names two offsets that differ, with an attachable ring at each. */
  predicate PairAttaches(mem: bytes) {
    && |mem| >= QP_BYTES && U32(mem, 0) == QP_MAGIC
    && var inOff, outOff := U32(mem, QP_OFF_INBOUND), U32(mem, QP_OFF_OUTBOUND);
       inOff < |mem| && outOff < |mem| && inOff != outOff && Attaches(mem[inOff..]) && Attaches(mem[outOff..])
  }

  // ---- when two attached rings share bytes ----

  /** Where the ring at an offset ends, by its own header. */
  function EndAt(mem: bytes, off: nat): nat
    requires off <= |mem| && |mem[off..]| >= RING_HDR
  {
    off + RingBytes(HeaderGeometry(mem[off..]))
  }

  /** One ring ends before the other begins: a test of header fields. */
  predicate RingsApart(mem: bytes)
    requires PairAttaches(mem)
  {
    var inOff, outOff := U32(mem, QP_OFF_INBOUND), U32(mem, QP_OFF_OUTBOUND);
    EndAt(mem, inOff) <= outOff || EndAt(mem, outOff) <= inOff
  }

  /** A byte of the ring at an offset. */
  predicate Covers(mem: bytes, off: nat, k: nat)
    requires off <= |mem| && |mem[off..]| >= RING_HDR
  {
    off <= k < EndAt(mem, off)
  }

  /** Both rings lie in the mapping. */
  lemma RingsFit(mem: bytes)
    requires PairAttaches(mem)
    ensures var inOff, outOff := U32(mem, QP_OFF_INBOUND), U32(mem, QP_OFF_OUTBOUND);
      && |mem[inOff..]| >= RING_HDR && |mem[outOff..]| >= RING_HDR
      && inOff < EndAt(mem, inOff) <= |mem| && outOff < EndAt(mem, outOff) <= |mem|
  {
    var inOff, outOff := U32(mem, QP_OFF_INBOUND), U32(mem, QP_OFF_OUTBOUND);
    AttachIsSound(mem[inOff..]);
    AttachIsSound(mem[outOff..]);
    hide U32, RingBytes, HeaderGeometry, Sound, Attached;
  }

  /** Both rings have slots of the size the client was told. */
  predicate SlotsAre(mem: bytes, slotSize: uint32)
    requires PairAttaches(mem)
  {
    && HeaderGeometry(mem[U32(mem, QP_OFF_INBOUND)..]).slotSize == slotSize
    && HeaderGeometry(mem[U32(mem, QP_OFF_OUTBOUND)..]).slotSize == slotSize
  }

  /** Two rings that attach share no byte of the mapping exactly when one ends before the other begins. */
  lemma ApartExactly(mem: bytes)
    requires PairAttaches(mem)
    ensures var inOff, outOff := U32(mem, QP_OFF_INBOUND), U32(mem, QP_OFF_OUTBOUND);
      RingsApart(mem) <==> forall k: nat :: !(Covers(mem, inOff, k) && Covers(mem, outOff, k))
  {
    RingsFit(mem);
    var inOff, outOff := U32(mem, QP_OFF_INBOUND), U32(mem, QP_OFF_OUTBOUND);
    hide Attaches, U32, EndAt;
    var k := if inOff < outOff then outOff else inOff;
    assert !RingsApart(mem) ==> Covers(mem, inOff, k) && Covers(mem, outOff, k);
  }

  /** And exactly then no write into the inbound ring, whatever its bytes, reaches the outbound one. */
  lemma ApartIsolates(mem: bytes)
    requires PairAttaches(mem)
    ensures var inOff, outOff := U32(mem, QP_OFF_INBOUND), U32(mem, QP_OFF_OUTBOUND);
      && EndAt(mem, outOff) <= |mem|
      && (RingsApart(mem) <==>
            forall s: bytes :: AgreeOutside(mem, s, inOff, EndAt(mem, inOff)) ==>
              s[outOff..EndAt(mem, outOff)] == mem[outOff..EndAt(mem, outOff)])
  {
    RingsFit(mem);
    var inOff, outOff := U32(mem, QP_OFF_INBOUND), U32(mem, QP_OFF_OUTBOUND);
    var inEnd, outEnd := EndAt(mem, inOff), EndAt(mem, outOff);
    hide Attaches, U32, EndAt;
    if RingsApart(mem) {
      forall s: bytes | AgreeOutside(mem, s, inOff, inEnd)
        ensures s[outOff..outEnd] == mem[outOff..outEnd]
      {
        AgreeOnRange(mem, s, inOff, inEnd, outOff, outEnd);
      }
    } else {
      OverlapLeaks(mem, inOff, inEnd, outOff, outEnd);
    }
  }

  /** Where two stretches overlap, some write into the one shows in the other. */
  lemma OverlapLeaks(mem: bytes, inOff: nat, inEnd: nat, outOff: nat, outEnd: nat)
    requires inOff < inEnd <= |mem| && outOff < outEnd <= |mem| && outOff < inEnd && inOff < outEnd
    ensures exists s: bytes :: AgreeOutside(mem, s, inOff, inEnd) && s[outOff..outEnd] != mem[outOff..outEnd]
  {
    var k := if inOff < outOff then outOff else inOff;
    var other: byte := if mem[k] == 0 then 1 else 0;
    var s := mem[k := other];
    assert AgreeOutside(mem, s, inOff, inEnd);
    assert s[outOff..outEnd][k - outOff] != mem[outOff..outEnd][k - outOff];
  }

  /** An inbound ring at 128, of eight slots of 64 bytes, and an outbound ring of two at 320. */
  const INNER_SHAPE: Geometry := Geometry(64, 2)
  const OUTER_SHAPE: Geometry := Geometry(64, 8)

  /** A queue pair whose outbound ring lies in the slots of its inbound ring. */
  function OverlappingPair(): (mem: bytes)
    ensures |mem| == 832
  {
    (Le(QP_MAGIC, 4) + Zeros(20) + (Le(128, 4) + Le(320, 4))) + Zeros(96)
    + (Shapes(OUTER_SHAPE) + Zeros(172)) + (Shapes(INNER_SHAPE) + Zeros(172)) + Zeros(320)
  }

  lemma OverlappingHeader()
    ensures var mem := OverlappingPair();
      U32(mem, 0) == QP_MAGIC && U32(mem, QP_OFF_INBOUND) == 128 && U32(mem, QP_OFF_OUTBOUND) == 320
  {
    Limits();
    hide Le, Limit, Val, Shapes;
    var mem := OverlappingPair();
    ValOfLe(QP_MAGIC, 4);
    ValOfLe(128, 4);
    ValOfLe(320, 4);
    assert mem[0..4] == Le(QP_MAGIC, 4);
    assert mem[24..28] == Le(128, 4);
    assert mem[28..32] == Le(320, 4);
  }

  /** Attaching does not make rings disjoint: this mapping attaches, and byte 320 belongs to both rings. */
  lemma AttachedRingsCanOverlap()
    ensures var mem := OverlappingPair();
      && PairAttaches(mem) && !RingsApart(mem)
      && U32(mem, QP_OFF_INBOUND) <= 320 < EndAt(mem, U32(mem, QP_OFF_INBOUND))
      && U32(mem, QP_OFF_OUTBOUND) <= 320 < EndAt(mem, U32(mem, QP_OFF_OUTBOUND))
  {
    var mem := OverlappingPair();
    OverlappingHeader();
    OverlappingRings();
    hide OverlappingPair, Attaches, U32, HeaderGeometry;
  }

  lemma OverlappingRings()
    ensures var mem := OverlappingPair();
      && Attaches(mem[128..]) && HeaderGeometry(mem[128..]) == OUTER_SHAPE
      && Attaches(mem[320..]) && HeaderGeometry(mem[320..]) == INNER_SHAPE
  {
    var mem := OverlappingPair();
    assert Bits.IsPow2(8) && Bits.IsPow2(2);
    hide Le, Shapes, Attaches, HeaderGeometry, Attached, Queue;
    OverlappingTails();
    BlankHeaderAttaches(OUTER_SHAPE, mem[128..]);
    BlankHeaderAttaches(INNER_SHAPE, mem[320..]);
  }

  lemma OverlappingTails()
    ensures var outer, inner := OverlappingPair()[128..], OverlappingPair()[320..];
      && outer[..20] == Shapes(OUTER_SHAPE) && outer[20..RING_HDR] == Zeros(172)
      && inner[..20] == Shapes(INNER_SHAPE) && inner[20..RING_HDR] == Zeros(172)
  {
    hide Le, Shapes;
  }

  /** The layout's offsets, with the layout's shape in both headers, keep the rings apart. */
  lemma LayoutKeepsRingsApart(mem: bytes, g: Geometry)
    requires PairAttaches(mem)
    requires U32(mem, QP_OFF_INBOUND) == INBOUND_AT && U32(mem, QP_OFF_OUTBOUND) == OutboundAt(g)
    requires HeaderGeometry(mem[INBOUND_AT..]) == g
    ensures RingsApart(mem)
  {
    QpairLayout(g);
    hide Attaches, U32, HeaderGeometry, RingBytes, OutboundAt;
  }

  /** Resolves both rings of a mapped queue pair. Nothing here makes them disjoint, two offsets that differ are
      enough; the rings are, exactly when the headers keep them apart. */
  method AttachQueuePair(mem: array<byte>) returns (inbound: Ring?, outbound: Ring?)
    ensures inbound != null <==> outbound != null
    ensures inbound != null <==> PairAttaches(mem[..])
    ensures inbound != null ==>
      && inbound.Valid() && outbound.Valid() && inbound.mem == outbound.mem == mem
      && inbound.base == U32(mem[..], QP_OFF_INBOUND) && outbound.base == U32(mem[..], QP_OFF_OUTBOUND)
      && inbound.base != outbound.base
      && inbound.Shape() == HeaderGeometry(mem[..][inbound.base..])
      && outbound.Shape() == HeaderGeometry(mem[..][outbound.base..])
      && (inbound.Limit() <= outbound.base || outbound.Limit() <= inbound.base <==> RingsApart(mem[..]))
  {
    if mem.Length < QP_BYTES { return null, null; }
    var header := mem[..QP_BYTES];
    hide Attaches;
    Prefix(mem[..], QP_BYTES, 0, 4);
    Prefix(mem[..], QP_BYTES, QP_OFF_INBOUND, QP_OFF_INBOUND + 4);
    Prefix(mem[..], QP_BYTES, QP_OFF_OUTBOUND, QP_OFF_OUTBOUND + 4);
    if U32(header, 0) != QP_MAGIC { return null, null; }
    var inOff := U32(header, QP_OFF_INBOUND);
    var outOff := U32(header, QP_OFF_OUTBOUND);
    if inOff >= mem.Length || outOff >= mem.Length || inOff == outOff { return null, null; }
    assert mem[inOff..] == mem[..][inOff..] && mem[outOff..] == mem[..][outOff..];
    inbound := AttachRing(mem, inOff);
    if inbound == null { return null, null; }
    outbound := AttachRing(mem, outOff);
    if outbound == null { return null, null; }
  }
}
