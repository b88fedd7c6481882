/** Byte strings and little-endian fields, as in Go's encoding/binary and the C `put_u32`/`get_u32`. */
module Bytes {

  type byte = b: int | 0 <= b < 256
  type bytes = seq<byte>

  type uint16 = v: int | 0 <= v < 0x1_0000
  type uint32 = v: int | 0 <= v < 0x1_0000_0000
  type uint64 = v: int | 0 <= v < 0x1_0000_0000_0000_0000

  /** Two's-complement truncation of an unsigned result. */
  function Wrap32(x: int): uint32 { x % 0x1_0000_0000 }
  function Wrap64(x: int): uint64 { x % 0x1_0000_0000_0000_0000 }

  /** `256^n`: the first value that needs more than `n` bytes. */
  function Limit(n: nat): (r: nat)
    ensures r >= 1
  {
    if n == 0 then 1 else 256 * Limit(n - 1)
  }

  /** The `n` low bytes of `v`, least significant first. */
  function Le(v: nat, n: nat): (s: bytes)
    ensures |s| == n
  {
    if n == 0 then [] else [v % 256] + Le(v / 256, n - 1)
  }

  /** The number a byte string spells, least significant byte first. */
  function Val(s: bytes): nat
  {
    if s == [] then 0 else s[0] + 256 * Val(s[1..])
  }

  lemma {:induction false} ValOfLe(v: nat, n: nat)
    requires v < Limit(n)
    ensures Val(Le(v, n)) == v
  {
    if n > 0 {
      ValOfLe(v / 256, n - 1);
      assert Le(v, n)[1..] == Le(v / 256, n - 1);
    }
  }

  lemma {:induction false} LeOfVal(s: bytes)
    ensures Le(Val(s), |s|) == s && Val(s) < Limit(|s|)
  {
    if s != [] {
      LeOfVal(s[1..]);
      assert Val(s) / 256 == Val(s[1..]);
      assert s == [s[0]] + s[1..];
    }
  }

  lemma Limits()
    ensures Limit(2) == 0x1_0000 && Limit(4) == 0x1_0000_0000 && Limit(8) == 0x1_0000_0000_0000_0000
  {
    assert Limit(2) == 256 * Limit(1);
    assert Limit(4) == 256 * 256 * Limit(2);
    assert Limit(6) == 256 * 256 * Limit(4);
  }

  function U16(s: bytes, off: nat): (v: uint16)
    requires off + 2 <= |s|
  {
    LeOfVal(s[off..off + 2]); Limits();
    Val(s[off..off + 2])
  }

  function U32(s: bytes, off: nat): (v: uint32)
    requires off + 4 <= |s|
  {
    LeOfVal(s[off..off + 4]); Limits();
    Val(s[off..off + 4])
  }

  function U64(s: bytes, off: nat): (v: uint64)
    requires off + 8 <= |s|
  {
    LeOfVal(s[off..off + 8]); Limits();
    Val(s[off..off + 8])
  }

  function Zeros(n: nat): (s: bytes)
    ensures |s| == n && forall k :: 0 <= k < n ==> s[k] == 0
  {
    seq(n, i => 0)
  }

  predicate AllZero(s: bytes) { forall k :: 0 <= k < |s| ==> s[k] == 0 }

  predicate NoZero(s: bytes) { forall k :: 0 <= k < |s| ==> s[k] != 0 }

  /** `s` with the bytes at `off` overwritten by `v`. */
  function Splice(s: bytes, off: nat, v: bytes): (r: bytes)
    requires off + |v| <= |s|
    ensures |r| == |s|
  {
    s[..off] + v + s[off + |v|..]
  }

  lemma SpliceParts(s: bytes, off: nat, v: bytes)
    requires off + |v| <= |s|
    ensures var r := Splice(s, off, v);
      && r[off..off + |v|] == v
      && (forall k :: 0 <= k < |s| && !(off <= k < off + |v|) ==> r[k] == s[k])
  {
  }

  /** A range outside the overwritten one reads as before. */
  lemma SpliceElsewhere(s: bytes, off: nat, v: bytes, lo: nat, hi: nat)
    requires off + |v| <= |s| && lo <= hi <= |s| && (hi <= off || off + |v| <= lo)
    ensures Splice(s, off, v)[lo..hi] == s[lo..hi]
  {
  }

  /** Writing the next byte of a record. */
  lemma SpliceByte(s: bytes, off: nat, done: bytes, b: byte)
    requires off + |done| < |s|
    ensures Splice(s, off, done)[off + |done| := b] == Splice(s, off, done + [b])
  {
  }

  /** `binary.LittleEndian.PutUint*`, and the C `put_u32` loop: byte `i` is `value >> (8 * i)`. */
  method Put(a: array<byte>, off: nat, value: nat, width: nat)
    requires off + width <= a.Length
    modifies a
    ensures a[..] == Splice(old(a[..]), off, Le(value, width))
  {
    ghost var before := a[..];
    ghost var done: bytes := [];
    var rest := value;
    var i := 0;
    while i < width
      invariant 0 <= i <= width && |done| == i
      invariant a[..] == Splice(before, off, done)
      invariant done + Le(rest, width - i) == Le(value, width)
    {
      SpliceByte(before, off, done, rest % 256);
      assert done + Le(rest, width - i) == (done + [(rest % 256) as byte]) + Le(rest / 256, width - i - 1);
      a[off + i] := rest % 256;
      done := done + [(rest % 256) as byte];
      rest := rest / 256;
      i := i + 1;
    }
  }

  /** `Put` right after the fields `done`, which were laid down at `start` of a buffer that read `before`. */
  method PutNext(a: array<byte>, off: nat, value: nat, width: nat,
                 ghost before: bytes, ghost start: nat, ghost done: bytes)
    requires off == start + |done| && off + width <= a.Length == |before|
    requires a[..] == Splice(before, start, done)
    modifies a
    ensures a[..] == Splice(before, start, done + Le(value, width))
  {
    Put(a, off, value, width);
    SpliceNext(before, start, done, Le(value, width));
  }

  lemma SpliceNext(s: bytes, off: nat, v: bytes, w: bytes)
    requires off + |v| + |w| <= |s|
    ensures Splice(Splice(s, off, v), off + |v|, w) == Splice(s, off, v + w)
  {
  }

  /** Overwriting a record that was just written. */
  lemma SpliceOver(s: bytes, off: nat, v: bytes, w: bytes)
    requires off + |w| <= |s| && |v| <= |w|
    ensures Splice(Splice(s, off, v), off, w) == Splice(s, off, w)
  {
  }

  /** One more field of an encoded prefix, spelled from its value. */
  lemma NextField(s: bytes, before: bytes, n: nat)
    requires |before| + n <= |s| && s[..|before|] == before
    ensures s[..|before| + n] == before + Le(Val(s[|before|..|before| + n]), n)
  {
    LeOfVal(s[|before|..|before| + n]);
    assert s[..|before| + n] == s[..|before|] + s[|before|..|before| + n];
  }

  /** The last field of a prefix: its value, and the prefix before it. */
  lemma LastField(s: bytes, before: bytes, v: nat, n: nat)
    requires v < Limit(n) && |before| + n <= |s|
    requires s[..|before| + n] == before + Le(v, n)
    ensures s[..|before|] == before
    ensures Val(s[|before|..|before| + n]) == v
  {
    ValOfLe(v, n);
    assert s[..|before|] == s[..|before| + n][..|before|];
    assert s[|before|..|before| + n] == s[..|before| + n][|before|..];
  }

  /** `clear`, `memset(p, 0, n)` and the zeroing loops. */
  method Clear(a: array<byte>, lo: nat, hi: nat)
    requires lo <= hi <= a.Length
    modifies a
    ensures a[..] == Splice(old(a[..]), lo, Zeros(hi - lo))
  {
    ghost var before := a[..];
    var i := lo;
    while i < hi
      invariant lo <= i <= hi
      invariant a[..] == Splice(before, lo, Zeros(i - lo))
    {
      SpliceByte(before, lo, Zeros(i - lo), 0);
      assert Zeros(i - lo) + [0] == Zeros(i + 1 - lo);
      a[i] := 0;
      i := i + 1;
    }
  }

  /** `copy` and `memcpy` from a value into a buffer. */
  method Copy(a: array<byte>, off: nat, data: bytes)
    requires off + |data| <= a.Length
    modifies a
    ensures a[..] == Splice(old(a[..]), off, data)
  {
    ghost var before := a[..];
    var i := 0;
    while i < |data|
      invariant 0 <= i <= |data|
      invariant a[..] == Splice(before, off, data[..i])
    {
      SpliceByte(before, off, data[..i], data[i]);
      assert data[..i] + [data[i]] == data[..i + 1];
      a[off + i] := data[i];
      i := i + 1;
    }
    assert data[..|data|] == data;
  }

  /** A range of a suffix is a range of the whole. */
  lemma SuffixRange(s: bytes, base: nat, lo: nat, hi: nat)
    requires lo <= hi && base + hi <= |s|
    ensures s[base..][lo..hi] == s[base + lo..base + hi]
  {
    assert forall k :: 0 <= k < hi - lo ==> s[base..][lo..hi][k] == s[base + lo + k];
  }

  /** A range of a range. */
  lemma InnerRange(s: bytes, lo: nat, hi: nat, a: nat, b: nat)
    requires lo <= hi <= |s| && a <= b <= hi - lo
    ensures s[lo..hi][a..b] == s[lo + a..lo + b]
  {
    assert forall k :: 0 <= k < b - a ==> s[lo..hi][a..b][k] == s[lo + a + k];
  }
}
