/** Bitwise operators on natural numbers, bit by bit from the least significant end.

    The sources use fixed-width unsigned integers with `&`, `|`, `&^` and shifts. Every value here
    stands for the content of such a register; a register's width is a bound on the value. */
module Bits {

  function Pow2(n: nat): (r: nat)
    ensures r >= 1
  {
    if n == 0 then 1 else 2 * Pow2(n - 1)
  }

  /** `a & b` */
  function And(a: nat, b: nat): nat
  {
    if a == 0 || b == 0 then 0
    else (a % 2) * (b % 2) + 2 * And(a / 2, b / 2)
  }

  /** `a | b` */
  function Or(a: nat, b: nat): nat
    decreases a + b
  {
    if a == 0 then b else if b == 0 then a
    else (if a % 2 == 1 || b % 2 == 1 then 1 else 0) + 2 * Or(a / 2, b / 2)
  }

  /** `a & ~b`, Go's `a &^ b` */
  function AndNot(a: nat, b: nat): nat
  {
    if a == 0 then 0
    else (if a % 2 == 1 && b % 2 == 0 then 1 else 0) + 2 * AndNot(a / 2, b / 2)
  }

  /** Bit `i` of `a`. */
  predicate Bit(a: nat, i: nat)
  {
    if i == 0 then a % 2 == 1 else Bit(a / 2, i - 1)
  }

  /** The number of set bits. */
  function PopCount(a: nat): nat
  {
    if a == 0 then 0 else a % 2 + PopCount(a / 2)
  }

  /** A positive power of two, by halving. */
  predicate IsPow2(n: nat)
  {
    n == 1 || (n > 0 && n % 2 == 0 && IsPow2(n / 2))
  }

  lemma {:induction false} AndSelf(a: nat)
    ensures And(a, a) == a
  {
    if a != 0 { AndSelf(a / 2); }
  }

  /** `x & (x - 1) == 0` tests for a power of two. */
  lemma {:induction false} PowerOfTwoTest(x: nat)
    requires x > 0
    ensures And(x, x - 1) == 0 <==> IsPow2(x)
  {
    if x == 1 {
    } else if x % 2 == 1 {
      assert (x - 1) / 2 == x / 2;
      AndSelf(x / 2);
    } else {
      assert (x - 1) / 2 == x / 2 - 1;
      PowerOfTwoTest(x / 2);
    }
  }

  /** Masking with a power of two minus one is the remainder. */
  lemma {:induction false} MaskIsRemainder(i: nat, c: nat)
    requires IsPow2(c)
    ensures And(i, c - 1) == i % c
  {
    if c == 1 {
    } else if i == 0 {
    } else {
      var d := c / 2;
      assert c == 2 * d && (c - 1) / 2 == d - 1 && (c - 1) % 2 == 1;
      MaskIsRemainder(i / 2, d);
      HalfRemainder(i, d);
    }
  }

  lemma HalfRemainder(i: nat, d: nat)
    requires d > 0
    ensures i % (2 * d) == i % 2 + 2 * ((i / 2) % d)
  {
    var q, r := (i / 2) / d, (i / 2) % d;
    assert i == q * (2 * d) + (i % 2 + 2 * r);
    RemainderUnique(i, q, 2 * d, i % 2 + 2 * r);
  }

  lemma MultipleAtLeast(k: int, c: int)
    requires k >= 1 && c >= 0
    ensures k * c >= c
  {
  }

  lemma RemainderUnique(x: int, q: int, c: int, r: int)
    requires c > 0 && 0 <= r < c && x == q * c + r
    ensures x % c == r && x / c == q
  {
    var q', r' := x / c, x % c;
    assert (q - q') * c == r' - r;
    if q > q' {
      MultipleAtLeast(q - q', c);
    } else if q < q' {
      MultipleAtLeast(q' - q, c);
    }
  }

  /** A power of two no larger than `2^n` divides `2^n`; the quotient is returned. */
  lemma {:induction false} PowerDivides(c: nat, n: nat) returns (q: nat)
    requires IsPow2(c) && c <= Pow2(n)
    ensures Pow2(n) == q * c
  {
    if c == 1 {
      q := Pow2(n);
    } else {
      var r := PowerDivides(c / 2, n - 1);
      q := r;
    }
  }

  lemma {:induction false} AndZeroRight(a: nat)
    ensures And(a, 0) == 0 && Or(a, 0) == a
  {
  }

  /** Testing one bit: `a & (1 << i)`. */
  lemma {:induction false} AndPow2(a: nat, i: nat)
    ensures And(a, Pow2(i)) == if Bit(a, i) then Pow2(i) else 0
  {
    if a == 0 {
      BitOfZero(i);
    } else if i == 0 {
      AndZeroRight(a / 2);
    } else {
      assert Pow2(i) / 2 == Pow2(i - 1);
      AndPow2(a / 2, i - 1);
    }
  }

  lemma {:induction false} BitOfZero(i: nat)
    ensures !Bit(0, i)
  {
    if i > 0 { BitOfZero(i - 1); }
  }

  /** A bit is the parity of the register shifted down to it. */
  lemma {:induction false} BitIsParity(a: nat, i: nat)
    ensures Bit(a, i) <==> a / Pow2(i) % 2 == 1
  {
    if i > 0 {
      BitIsParity(a / 2, i - 1);
      var p := Pow2(i - 1);
      var q, r := (a / 2) / p, (a / 2) % p;
      assert a == q * (2 * p) + (a % 2 + 2 * r);
      RemainderUnique(a, q, 2 * p, a % 2 + 2 * r);
    }
  }

  lemma {:induction false} BitOfAnd(a: nat, b: nat, i: nat)
    ensures Bit(And(a, b), i) <==> Bit(a, i) && Bit(b, i)
  {
    if a == 0 || b == 0 {
      BitOfZero(i);
    } else if i > 0 {
      BitOfAnd(a / 2, b / 2, i - 1);
    }
  }

  lemma {:induction false} AndOfOr(a: nat, b: nat, m: nat)
    ensures And(Or(a, b), m) == Or(And(a, m), And(b, m))
    decreases a + b
  {
    if a == 0 || b == 0 {
      AndZeroRight(And(a, m));
    } else {
      var x, y := And(Or(a, b), m), Or(And(a, m), And(b, m));
      AndOfOr(a / 2, b / 2, m / 2);
      OrHalves(a, b);
      AndHalves(Or(a, b), m);
      AndHalves(a, m);
      AndHalves(b, m);
      OrHalves(And(a, m), And(b, m));
      assert x / 2 == y / 2 && x % 2 == y % 2;
    }
  }

  lemma AndHalves(a: nat, b: nat)
    ensures And(a, b) / 2 == And(a / 2, b / 2)
    ensures And(a, b) % 2 == if a % 2 == 1 && b % 2 == 1 then 1 else 0
  {
  }

  lemma OrHalves(a: nat, b: nat)
    ensures Or(a, b) / 2 == Or(a / 2, b / 2)
    ensures Or(a, b) % 2 == if a % 2 == 1 || b % 2 == 1 then 1 else 0
  {
  }

  /** A power of two has one bit. */
  lemma {:induction false} OnlyBit(p: nat, i: nat)
    requires IsPow2(p) && Bit(p, i)
    ensures p == Pow2(i)
  {
    if p == 1 {
      if i > 0 { BitOfZero(i - 1); }
    } else if i > 0 {
      OnlyBit(p / 2, i - 1);
    }
  }

  /** No bit at or above `n`: the mask `(1 << n) - 1` covers `a`. */
  lemma {:induction false} AndNotMask(a: nat, n: nat)
    ensures AndNot(a, Pow2(n) - 1) == 0 <==> a < Pow2(n)
  {
    if a == 0 {
    } else if n == 0 {
      AndNotZero(a);
    } else {
      assert (Pow2(n) - 1) / 2 == Pow2(n - 1) - 1 && (Pow2(n) - 1) % 2 == 1;
      AndNotMask(a / 2, n - 1);
    }
  }

  lemma {:induction false} AndNotZero(a: nat)
    ensures AndNot(a, 0) == a
  {
    if a != 0 { AndNotZero(a / 2); }
  }

  /** The register whose bit `i` is `bs[i]`. */
  function Mask(bs: seq<bool>): nat
  {
    if bs == [] then 0 else (if bs[0] then 1 else 0) + 2 * Mask(bs[1..])
  }

  /** The low `n` bits of `m`. */
  function Flags(m: nat, n: nat): (bs: seq<bool>)
    ensures |bs| == n
  {
    if n == 0 then [] else [m % 2 == 1] + Flags(m / 2, n - 1)
  }

  function CountTrue(bs: seq<bool>): nat
  {
    if bs == [] then 0 else (if bs[0] then 1 else 0) + CountTrue(bs[1..])
  }

  lemma {:induction false} FlagsAt(m: nat, n: nat, i: nat)
    requires i < n
    ensures Flags(m, n)[i] == Bit(m, i)
  {
    if i > 0 { FlagsAt(m / 2, n - 1, i - 1); }
  }

  lemma {:induction false} FlagsOfMask(bs: seq<bool>)
    ensures Flags(Mask(bs), |bs|) == bs && Mask(bs) < Pow2(|bs|)
  {
    if bs != [] {
      FlagsOfMask(bs[1..]);
      assert Mask(bs) / 2 == Mask(bs[1..]);
      assert bs == [bs[0]] + bs[1..];
    }
  }

  lemma {:induction false} MaskOfFlags(m: nat, n: nat)
    requires m < Pow2(n)
    ensures Mask(Flags(m, n)) == m && PopCount(m) == CountTrue(Flags(m, n))
  {
    if n > 0 {
      MaskOfFlags(m / 2, n - 1);
      assert Flags(m, n)[1..] == Flags(m / 2, n - 1);
    }
  }

  /** Setting the next bit appends a flag. */
  lemma {:induction false} OrNextBit(bs: seq<bool>)
    ensures Or(Mask(bs), Pow2(|bs|)) == Mask(bs + [true])
    ensures Mask(bs) == Mask(bs + [false])
  {
    if bs == [] {
    } else {
      OrNextBit(bs[1..]);
      assert (bs + [true])[1..] == bs[1..] + [true] && (bs + [false])[1..] == bs[1..] + [false];
      var t := Mask(bs[1..]);
      assert Mask(bs) / 2 == t && Pow2(|bs|) / 2 == Pow2(|bs| - 1) && Pow2(|bs|) % 2 == 0;
      if Mask(bs) == 0 {
        assert t == 0;
      }
    }
  }

  lemma {:induction false} MaskAllTrue(n: nat)
    ensures Mask(seq(n, i => true)) == Pow2(n) - 1
  {
    if n > 0 {
      MaskAllTrue(n - 1);
      assert seq(n, i => true)[1..] == seq(n - 1, i => true);
    }
  }

  lemma {:induction false} CountTrueAppend(bs: seq<bool>, b: bool)
    ensures CountTrue(bs + [b]) == CountTrue(bs) + (if b then 1 else 0)
    ensures CountTrue(bs) <= |bs|
  {
    if bs != [] {
      CountTrueAppend(bs[1..], b);
      assert (bs + [b])[1..] == bs[1..] + [b];
    } else {
      assert (bs + [b])[1..] == [];
    }
  }
}
