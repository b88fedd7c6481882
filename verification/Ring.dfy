/** The ring object: a view onto a stretch of shared memory (server-go/bus/ring.go). */
module Ring {
  import opened Bits
  import opened Bytes
  import opened Options
  import opened RingLayout

  /** A signed 64-bit result, wrapped. */
  function WrapInt64(x: int): int {
    (x + 0x8000_0000_0000_0000) % 0x1_0000_0000_0000_0000 - 0x8000_0000_0000_0000
  }

  /** The ring size as the code computes it, in wrapping signed 64-bit arithmetic. */
  function NeedInt64(g: Geometry): int {
    WrapInt64(RING_HDR + WrapInt64(g.slotSize * g.capacity))
  }

  function HeaderGeometry(mem: bytes): Geometry
    requires |mem| >= RING_HDR
  {
    Geometry(U32(mem, OFF_SLOT), U32(mem, OFF_CAP))
  }

  /** The tests of an attach, in the source's order and arithmetic. */
  predicate Attaches(mem: bytes) {
    && |mem| >= RING_HDR
    && U32(mem, 0) == RING_MAGIC
    && var g := HeaderGeometry(mem);
       && !(g.capacity < 2 || And(g.capacity, g.capacity - 1) != 0 || g.slotSize == 0
            || U32(mem, OFF_MASK) != g.capacity - 1 || U32(mem, OFF_SLOTS) != RING_HDR)
       && !(|mem| < NeedInt64(g))
       && !(Wrap64(Head(mem) - Tail(mem)) > g.capacity)
  }

  lemma {:induction false} PowerBelow(c: nat, n: nat)
    requires IsPow2(c) && c < Pow2(n + 1)
    ensures c <= Pow2(n)
  {
    if n > 0 && c > 1 { PowerBelow(c / 2, n - 1); }
  }

  /** The size of an admissible ring never overflows a signed 64-bit integer. */
  lemma SoundSizeFits(g: Geometry)
    requires Sound(g)
    ensures RingBytes(g) < 0x8000_0000_0000_0000 && NeedInt64(g) == RingBytes(g)
  {
    Pow2Of64();
    PowerBelow(g.capacity, 31);
    assert g.slotSize * g.capacity <= 0xffff_ffff * 0x8000_0000 by {
      Products(g.slotSize, 0xffff_ffff, g.capacity, 0x8000_0000);
    }
  }

  lemma Products(a: nat, b: nat, c: nat, d: nat)
    requires a <= b && c <= d
    ensures 0 <= a * c <= b * d
  {
    assert b * d == a * c + (b - a) * c + b * (d - c);
  }

  /** An attach succeeds exactly when the header describes a sound ring that really fits the bytes
      mapped and whose indices are consistent; in particular its size test cannot be fooled. */
  lemma AttachIsSound(mem: bytes)
    ensures Attaches(mem) <==>
      && |mem| >= RING_HDR && U32(mem, 0) == RING_MAGIC
      && var g := HeaderGeometry(mem);
         && Sound(g) && U32(mem, OFF_MASK) == g.capacity - 1 && U32(mem, OFF_SLOTS) == RING_HDR
         && RingBytes(g) <= |mem| && Attached(g, mem[..RingBytes(g)])
  {
    if |mem| >= RING_HDR {
      var g := HeaderGeometry(mem);
      if g.capacity >= 2 && g.slotSize > 0 {
        PowerOfTwoTest(g.capacity);
        if Sound(g) {
          SoundSizeFits(g);
          if RingBytes(g) <= |mem| {
            Prefix(mem, RingBytes(g), OFF_HEAD, OFF_HEAD + 8);
            Prefix(mem, RingBytes(g), OFF_TAIL, OFF_TAIL + 8);
          }
        }
      }
    }
  }

  lemma Prefix(s: bytes, n: nat, lo: nat, hi: nat)
    requires lo <= hi <= n <= |s|
    ensures s[..n][lo..hi] == s[lo..hi]
  {
  }

  class Ring {
    const mem: array<byte>
    const base: nat           // where the ring's first byte lies in the mapping
    const slotSize: uint32
    const capacity: uint32
    const mask: uint32
    const slotsOff: uint32

    ghost function Shape(): Geometry { Geometry(slotSize, capacity) }

    ghost function Limit(): nat { base + RingBytes(Shape()) }

    ghost function Region(): bytes
      requires Limit() <= mem.Length
      reads mem
    {
      mem[..][base..Limit()]
    }

    ghost predicate Valid()
      reads mem
    {
      && Limit() <= mem.Length
      && mask == capacity - 1 && slotsOff == RING_HDR
      && Attached(Shape(), Region())
    }

    ghost function Contents(): (q: seq<bytes>)
      requires Valid()
      reads mem
      ensures |q| <= capacity
    {
      Queue(Shape(), Region())
    }

    constructor (mem: array<byte>, base: nat, g: Geometry)
      requires Sound(g) && base + RingBytes(g) <= mem.Length && Attached(g, mem[..][base..base + RingBytes(g)])
      ensures Valid() && this.mem == mem && this.base == base && Shape() == g
    {
      this.mem, this.base := mem, base;
      slotSize, capacity, mask, slotsOff := g.slotSize, g.capacity, g.capacity - 1, RING_HDR;
    }

    method LoadIndex(off: nat) returns (v: uint64)
      requires off == OFF_HEAD || off == OFF_TAIL
      requires Valid()
      ensures v == U64(Region(), off)
    {
      ghost var r := Region();
      v := U64(mem[base + off..base + off + 8], 0);
      assert mem[base + off..base + off + 8] == mem[..][base + off..base + off + 8];
      assert r[off..off + 8] == mem[..][base + off..base + off + 8];
      assert mem[base + off..base + off + 8][0..8] == mem[base + off..base + off + 8];
    }

    method StoreIndex(off: nat, v: uint64)
      requires off == OFF_HEAD || off == OFF_TAIL
      requires Valid()
      modifies mem
      ensures Region() == Splice(old(Region()), off, Le(v, 8))
      ensures AgreeOutside(old(mem[..]), mem[..], base, Limit())
    {
      Put(mem, base + off, v, 8);
      SpliceInside(old(mem[..]), base, Limit(), off, Le(v, 8));
    }

    /** Where a slot starts in the mapping. */
    function Slot(index: uint64): (off: nat)
      requires capacity > 0 && mask == capacity - 1 && slotsOff == RING_HDR
      ensures off == base + SlotOffset(Shape(), index)
    {
      base + (slotsOff + And(index, mask) * slotSize)
    }

    /** A writable slot, or none exactly when the queue is full. Nothing is changed. */
    method ProduceBegin() returns (slot: Option<nat>)
      requires Valid()
      ensures slot.None? <==> |Contents()| == capacity
      ensures slot.Some? ==> slot.value == base + SlotOffset(Shape(), Head(Region()))
    {
      hide Wrap64;
      var head := LoadIndex(OFF_HEAD);
      var tail := LoadIndex(OFF_TAIL);
      if Wrap64(head as int - tail) >= capacity { return None; }
      return Some(Slot(head));
    }

    /** Publishes the slot most recently begun. */
    method ProduceCommit()
      requires Valid() && |Contents()| < capacity
      modifies mem
      ensures Valid()
      ensures Region() == StoreHead(old(Region()), Wrap64(Head(old(Region())) + 1))
      ensures Contents() == old(Contents()) + [SlotBytes(Shape(), old(Region()), Head(old(Region())))]
      ensures AgreeOutside(old(mem[..]), mem[..], base, Limit())
    {
      hide Wrap64;
      var head := LoadIndex(OFF_HEAD);
      PublishAppends(Shape(), Region());
      StoreIndex(OFF_HEAD, Wrap64(head as int + 1));
    }

    /** The oldest unread slot, or none exactly when the queue is empty. */
    method ConsumeBegin() returns (slot: Option<nat>)
      requires Valid()
      ensures slot.None? <==> Contents() == []
      ensures slot.Some? ==>
        && slot.value + slotSize <= mem.Length
        && mem[slot.value..slot.value + slotSize] == Contents()[0]
    {
      var tail := LoadIndex(OFF_TAIL);
      hide Wrap64, And, U64, Queue, Attached, SlotOffset, RingBytes;
      var head := LoadIndex(OFF_HEAD);
      EmptyTest(head, tail);
      if head == tail { return None; }
      ghost var at := SlotOffset(Shape(), tail);
      OldestSlot(Shape(), Region());
      SlotBounds(Shape(), tail);
      InnerRange(mem[..], base, Limit(), at, at + slotSize);
      hide *;
      assert mem[base + at..base + at + slotSize] == mem[..][base + at..base + at + slotSize];
      return Some(Slot(tail));
    }

    /** Releases the oldest slot. */
    method ConsumeCommit()
      requires Valid() && Contents() != []
      modifies mem
      ensures Valid()
      ensures Region() == StoreTail(old(Region()), Wrap64(Tail(old(Region())) + 1))
      ensures Contents() == old(Contents())[1..]
      ensures AgreeOutside(old(mem[..]), mem[..], base, Limit())
    {
      hide Wrap64;
      var tail := LoadIndex(OFF_TAIL);
      ReleaseDrops(Shape(), Region());
      StoreIndex(OFF_TAIL, Wrap64(tail as int + 1));
    }
  }

  lemma SpliceInside(s: bytes, lo: nat, hi: nat, off: nat, v: bytes)
    requires lo <= hi <= |s| && lo + off + |v| <= hi
    ensures Splice(s, lo + off, v)[lo..hi] == Splice(s[lo..hi], off, v)
    ensures AgreeOutside(s, Splice(s, lo + off, v), lo, hi)
  {
    SpliceParts(s, lo + off, v);
  }

  /** Adopts a ring at `base` of a mapping; nothing is changed. */
  method AttachRing(mem: array<byte>, base: nat) returns (r: Ring?)
    requires base <= mem.Length
    ensures r != null <==> Attaches(mem[base..])
    ensures r != null ==> fresh(r) && r.Valid() && r.mem == mem && r.base == base
                          && r.Shape() == HeaderGeometry(mem[base..])
  {
    ghost var all := mem[base..];
    AttachIsSound(all);
    if mem.Length - base < RING_HDR { return null; }
    var header := mem[base..base + RING_HDR];
    HeaderReads(all, header);
    if U32(header, 0) != RING_MAGIC { return null; }
    var g := Geometry(U32(header, OFF_SLOT), U32(header, OFF_CAP));
    if g.capacity < 2 || And(g.capacity, g.capacity - 1) != 0 || g.slotSize == 0
       || U32(header, OFF_MASK) != g.capacity - 1 || U32(header, OFF_SLOTS) != RING_HDR { return null; }
    if mem.Length - base < NeedInt64(g) { return null; }
    if Wrap64(U64(header, OFF_HEAD) - U64(header, OFF_TAIL)) > g.capacity { return null; }
    assert mem[..][base..base + RingBytes(g)] == all[..RingBytes(g)];
    r := new Ring(mem, base, g);
  }

  lemma HeaderReads(all: bytes, header: bytes)
    requires RING_HDR <= |all| && header == all[..RING_HDR]
    ensures U32(header, 0) == U32(all, 0) && U32(header, OFF_SLOT) == U32(all, OFF_SLOT)
    ensures U32(header, OFF_CAP) == U32(all, OFF_CAP) && U32(header, OFF_MASK) == U32(all, OFF_MASK)
    ensures U32(header, OFF_SLOTS) == U32(all, OFF_SLOTS)
    ensures Head(header) == Head(all) && Tail(header) == Tail(all)
  {
    Prefix(all, RING_HDR, 0, 4); Prefix(all, RING_HDR, 4, 8); Prefix(all, RING_HDR, 8, 12);
    Prefix(all, RING_HDR, 12, 16); Prefix(all, RING_HDR, 16, 20);
    Prefix(all, RING_HDR, 64, 72); Prefix(all, RING_HDR, 128, 136);
  }
}
