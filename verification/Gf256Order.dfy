/** GF(2^8/0x11D) has no zero divisors, and 2 generates it: its powers 2^0, ..., 2^254 are pairwise different. */
module Gf256Order {
  // Both are decided on the eight bits of a byte.

  import opened Bits
  import opened FiniteSets
  import opened Gf256

  datatype Octet = Octet(b7: bool, b6: bool, b5: bool, b4: bool, b3: bool, b2: bool, b1: bool, b0: bool)

  predicate IsSet(x: nat, i: nat) {
    Bit(x, i) == 1
  }

  function OctetOf(x: nat): Octet {
    Octet(IsSet(x, 7), IsSet(x, 6), IsSet(x, 5), IsSet(x, 4), IsSet(x, 3), IsSet(x, 2), IsSet(x, 1), IsSet(x, 0))
  }

  function OctetXor(o: Octet, p: Octet): Octet {
    Octet(o.b7 != p.b7, o.b6 != p.b6, o.b5 != p.b5, o.b4 != p.b4,
          o.b3 != p.b3, o.b2 != p.b2, o.b1 != p.b1, o.b0 != p.b0)
  }

  function OctetXtime(o: Octet): Octet {
    Octet(o.b6, o.b5, o.b4, o.b3 != o.b7, o.b2 != o.b7, o.b1 != o.b7, o.b0, o.b7)
  }

  function OctetAnd(c: bool, o: Octet): Octet {
    Octet(c && o.b7, c && o.b6, c && o.b5, c && o.b4, c && o.b3, c && o.b2, c && o.b1, c && o.b0)
  }

  const ZERO := Octet(false, false, false, false, false, false, false, false)

  // One step of Horner's rule for a product.
  function OctetStep(o: Octet, z: Octet, c: bool): Octet {
    OctetXor(OctetXtime(z), OctetAnd(c, o))
  }

  function OctetMul(o: Octet, p: Octet): Octet {
    var z7 := OctetStep(o, ZERO, p.b7);
    var z6 := OctetStep(o, z7, p.b6);
    var z5 := OctetStep(o, z6, p.b5);
    var z4 := OctetStep(o, z5, p.b4);
    var z3 := OctetStep(o, z4, p.b3);
    var z2 := OctetStep(o, z3, p.b2);
    var z1 := OctetStep(o, z2, p.b1);
    OctetStep(o, z1, p.b0)
  }

  lemma ShrDouble(x: nat, i: nat)
    ensures Shr(2 * x, i + 1) == Shr(x, i)
  {
    ShrHalf(2 * x, i);
  }

  lemma {:induction false} XorIsSet(a: nat, b: nat, i: nat)
    ensures IsSet(Xor(a, b), i) == (IsSet(a, i) != IsSet(b, i))
  {
    hide Xor;
    XorStep(a / 2, a % 2, b / 2, b % 2);
    if i != 0 {
      XorIsSet(a / 2, b / 2, i - 1);
      ShrHalf(a, i - 1);
      ShrHalf(b, i - 1);
      ShrHalf(Xor(a, b), i - 1);
    }
  }

  lemma OctetOfXor(x: nat, y: nat)
    ensures OctetOf(Xor(x, y)) == OctetXor(OctetOf(x), OctetOf(y))
  {
    hide Xor, IsSet;
    XorIsSet(x, y, 7);
    XorIsSet(x, y, 6);
    XorIsSet(x, y, 5);
    XorIsSet(x, y, 4);
    XorIsSet(x, y, 3);
    XorIsSet(x, y, 2);
    XorIsSet(x, y, 1);
    XorIsSet(x, y, 0);
  }

  lemma OctetOfDouble(z: nat)
    ensures var o := OctetOf(z); OctetOf(2 * z) == Octet(o.b6, o.b5, o.b4, o.b3, o.b2, o.b1, o.b0, false)
  {
    hide Shr;
    ShrDouble(z, 6);
    ShrDouble(z, 5);
    ShrDouble(z, 4);
    ShrDouble(z, 3);
    ShrDouble(z, 2);
    ShrDouble(z, 1);
    ShrDouble(z, 0);
    ShrZero(2 * z);
  }

  lemma OctetOfZero()
    ensures OctetOf(0) == ZERO
  {
    assert Shr(0, 1) == 0;
    assert Shr(0, 2) == 0;
    assert Shr(0, 3) == 0;
    assert Shr(0, 4) == 0;
    assert Shr(0, 5) == 0;
    assert Shr(0, 6) == 0;
    assert Shr(0, 7) == 0;
  }

  lemma OctetOfModulus()
    ensures OctetOf(MODULUS) == Octet(false, false, false, true, true, true, false, true)
  {
    assert Shr(0x11D, 1) == 0x8E;
    assert Shr(0x11D, 2) == 0x47;
    assert Shr(0x11D, 3) == 0x23;
    assert Shr(0x11D, 4) == 0x11;
    assert Shr(0x11D, 5) == 8;
    assert Shr(0x11D, 6) == 4;
    assert Shr(0x11D, 7) == 2;
  }

  lemma TopBit(z: Byte)
    ensures IsSet(z, 7) == (z >= 128)
  {
    assert Shr(z, 1) == z / 2;
    assert Shr(z, 2) == z / 4;
    assert Shr(z, 3) == z / 8;
    assert Shr(z, 4) == z / 16;
    assert Shr(z, 5) == z / 32;
    assert Shr(z, 6) == z / 64;
    assert Shr(z, 7) == z / 128;
  }

  lemma OctetOfXtime(z: Byte)
    ensures OctetOf(Xtime(z)) == OctetXtime(OctetOf(z))
  {
    hide Xor, IsSet;
    OctetOfXor(2 * z, z / 128 * MODULUS);
    OctetOfDouble(z);
    TopBit(z);
    OctetOfZero();
    OctetOfModulus();
  }

  lemma OctetOfTerm(x: Byte, c: bool)
    ensures OctetOf(if c then x else 0) == OctetAnd(c, OctetOf(x))
  {
    OctetOfZero();
  }

  lemma OctetOfStep(x: Byte, y: Byte, i: nat)
    ensures OctetOf(Mul(x, Shr(y, i))) == OctetStep(OctetOf(x), OctetOf(Mul(x, Shr(y, i + 1))), IsSet(y, i))
  {
    hide Xor, Mul, Shr, Xtime;
    var z := Mul(x, Shr(y, i + 1));
    var t := if IsSet(y, i) then x else 0;
    MulLoopStep(x, y, i);
    assert Add(Xtime(z), t) == Xor(Xtime(z), t);
    hide OctetOf, OctetXtime, OctetAnd, OctetXor;
    OctetOfXor(Xtime(z), t);
    OctetOfXtime(z);
    OctetOfTerm(x, IsSet(y, i));
  }

  lemma OctetBits(y: nat)
    ensures OctetOf(y) == Octet(IsSet(y, 7), IsSet(y, 6), IsSet(y, 5), IsSet(y, 4),
                                IsSet(y, 3), IsSet(y, 2), IsSet(y, 1), IsSet(y, 0))
  {
  }

  /** A product of bytes, computed on their bits. */
  lemma OctetOfMul(x: Byte, y: Byte)
    ensures OctetOf(Mul(x, y)) == OctetMul(OctetOf(x), OctetOf(y))
  {
    hide Xor, Mul, Shr, OctetStep, IsSet, OctetOf;
    OctetOfZero();
    OctetBits(y);
    ByteShr8(y);
    MulZeroRight(x);
    OctetOfStep(x, y, 7);
    OctetOfStep(x, y, 6);
    OctetOfStep(x, y, 5);
    OctetOfStep(x, y, 4);
    OctetOfStep(x, y, 3);
    OctetOfStep(x, y, 2);
    OctetOfStep(x, y, 1);
    OctetOfStep(x, y, 0);
    ShrZero(y);
  }

  lemma {:induction false} BitsDetermine(x: nat, y: nat, n: nat)
    requires x < Pow2(n) && y < Pow2(n)
    requires forall i :: 0 <= i < n ==> IsSet(x, i) == IsSet(y, i)
    ensures x == y
  {
    if n != 0 {
      forall i | 0 <= i < n - 1
        ensures IsSet(x / 2, i) == IsSet(y / 2, i)
      {
        assert IsSet(x, i + 1) == IsSet(y, i + 1);
        ShrHalf(x, i);
        ShrHalf(y, i);
      }
      BitsDetermine(x / 2, y / 2, n - 1);
      assert IsSet(x, 0) == IsSet(y, 0);
      ShrZero(x);
      ShrZero(y);
    }
  }

  // ---- the powers of 2 ----

  lemma AlphaNext(i: nat)
    ensures OctetOf(Alpha(i + 1)) == OctetXtime(OctetOf(Alpha(i)))
  {
    hide Xor, OctetOf;
    OctetOfXtime(Alpha(i));
    MulComm(Alpha(i), 2);
    assert Xtime(1) == 2 by { XtimeSmall(1); }
    MulXtimeLeft(1, Alpha(i));
    MulOne(Alpha(i));
  }

  lemma AlphaSum(i: nat, j: nat)
    ensures OctetOf(Alpha(i + j)) == OctetMul(OctetOf(Alpha(i)), OctetOf(Alpha(j)))
  {
    hide Xor, OctetMul, OctetOf;
    PowAdd(GENERATOR, i, j);
    OctetOfMul(Alpha(i), Alpha(j));
  }

  lemma OctetOfOne()
    ensures OctetOf(1) == Octet(false, false, false, false, false, false, false, true)
  {
    assert Shr(1, 1) == 0;
    assert Shr(1, 2) == 0;
    assert Shr(1, 3) == 0;
    assert Shr(1, 4) == 0;
    assert Shr(1, 5) == 0;
    assert Shr(1, 6) == 0;
    assert Shr(1, 7) == 0;
  }

  lemma AlphaTable()
    ensures OctetOf(Alpha(15)) == Octet(false, false, true, false, false, true, true, false)
    ensures OctetOf(Alpha(17)) == Octet(true, false, false, true, true, false, false, false)
  {
    hide Xor, OctetOf, Alpha;
    assert Alpha(0) == 1 by { AlphaZero(); }
    OctetOfOne();
    AlphaNext(0);
    AlphaNext(1);
    AlphaNext(2);
    AlphaNext(3);
    AlphaNext(4);
    AlphaNext(5);
    AlphaNext(6);
    AlphaNext(7);
    AlphaNext(8);
    AlphaNext(9);
    AlphaNext(10);
    AlphaNext(11);
    AlphaNext(12);
    AlphaNext(13);
    AlphaNext(14);
    AlphaNext(15);
    AlphaNext(16);
  }

  lemma AlphaZero()
    ensures Alpha(0) == 1
  {
  }

  lemma AlphaOrders()
    ensures OctetOf(Alpha(15)) != OctetOf(1)
    ensures OctetOf(Alpha(51)) != OctetOf(1)
    ensures OctetOf(Alpha(85)) != OctetOf(1)
    ensures OctetOf(Alpha(255)) == OctetOf(1)
  {
    hide Xor, OctetOf, Alpha;
    OctetOfOne();
    AlphaTable();
    AlphaSum(17, 17);
    AlphaSum(34, 17);
    AlphaSum(51, 34);
    AlphaSum(85, 85);
    AlphaSum(170, 85);
  }

  lemma EqualOctets(x: Byte, y: Byte)
    ensures OctetOf(x) == OctetOf(y) <==> x == y
  {
    if OctetOf(x) == OctetOf(y) {
      Pow2Values();
      OctetBits(x);
      OctetBits(y);
      BitsDetermine(x, y, 8);
    }
  }

  lemma AlphaFacts()
    ensures Alpha(15) != 1 && Alpha(51) != 1 && Alpha(85) != 1 && Alpha(255) == 1
  {
    AlphaOrders();
    EqualOctets(Alpha(15), 1);
    EqualOctets(Alpha(51), 1);
    EqualOctets(Alpha(85), 1);
    EqualOctets(Alpha(255), 1);
  }

  lemma TimesStep(n: nat, d: nat)
    requires n > 0
    ensures n * d == (n - 1) * d + d
  {
  }

  lemma {:induction false} AlphaRepeat(d: nat, n: nat, m: nat)
    requires Alpha(d) == 1 && m == n * d
    ensures Alpha(m) == 1
  {
    hide *;
    if n == 0 {
      AlphaZero();
    } else {
      TimesStep(n, d);
      AlphaRepeat(d, n - 1, m - d);
      AlphaPlus(m - d, d);
      MulOne(1);
    }
  }

  // From 2^d = 1 and 2^255 = 1 to 2^e = 1, when s * d = 255 * q + e.
  lemma AlphaReduce(d: nat, s: nat, q: nat, e: nat)
    requires Alpha(d) == 1 && s * d == 255 * q + e
    ensures Alpha(e) == 1
  {
    hide *;
    AlphaFacts();
    AlphaRepeat(d, s, s * d);
    AlphaRepeat(255, q, 255 * q);
    AlphaPlus(255 * q, e);
    MulOne(Alpha(e));
  }

  lemma AlphaPlus(i: nat, j: nat)
    ensures Alpha(i + j) == Mul(Alpha(i), Alpha(j))
  {
    PowAdd(GENERATOR, i, j);
  }

  lemma MultipleOf15(d: nat)
    requires d % 3 == 0 && d % 5 == 0
    ensures d == 15 * (d / 15)
  {
    var k, l := d / 3, d / 5;
    assert d == 3 * k && d == 5 * l;
    assert d == 15 * (2 * l - k);
  }

  lemma MultipleOf255(d: nat)
    requires d % 3 == 0 && d % 5 == 0 && d % 17 == 0
    ensures d % 255 == 0
  {
    MultipleOf15(d);
    var k, l := d / 15, d / 17;
    assert d == 15 * k && d == 17 * l;
    assert d == 255 * (8 * l - 7 * k);
  }

  /** 0x02 has order 255: no smaller positive power of it is 1. */
  lemma AlphaOrder(d: nat)
    requires 0 < d <= 255
    ensures Alpha(d) == 1 <==> d == 255
  {
    hide *;
    AlphaFacts();
    if d < 255 && Alpha(d) == 1 {
      var r3, r5, r17 := d % 3, d % 5, d % 17;
      if r3 == 1 {
        AlphaReduce(d, 85, d / 3, 85);
      } else if r3 == 2 {
        AlphaReduce(d, 170, 2 * (d / 3) + 1, 85);
      } else if r5 == 1 {
        AlphaReduce(d, 51, d / 5, 51);
      } else if r5 == 2 {
        AlphaReduce(d, 153, 3 * (d / 5) + 1, 51);
      } else if r5 == 3 {
        AlphaReduce(d, 102, 2 * (d / 5) + 1, 51);
      } else if r5 == 4 {
        AlphaReduce(d, 204, 4 * (d / 5) + 3, 51);
      } else if r17 != 0 {
        AlphaOrder17(d);
      } else {
        MultipleOf255(d);
      }
    }
  }

  // With r = d % 17 and s its inverse modulo 17, 15 * s * d leaves 15 modulo 255.
  lemma AlphaOrder17(d: nat)
    requires d % 17 != 0
    ensures Alpha(d) != 1
  {
    hide *;
    AlphaFacts();
    if Alpha(d) == 1 {
      var q := d / 17;
      match d % 17 {
        case 1 => AlphaReduce(d, 15, 1 * q + 0, 15);
        case 2 => AlphaReduce(d, 135, 9 * q + 1, 15);
        case 3 => AlphaReduce(d, 90, 6 * q + 1, 15);
        case 4 => AlphaReduce(d, 195, 13 * q + 3, 15);
        case 5 => AlphaReduce(d, 105, 7 * q + 2, 15);
        case 6 => AlphaReduce(d, 45, 3 * q + 1, 15);
        case 7 => AlphaReduce(d, 75, 5 * q + 2, 15);
        case 8 => AlphaReduce(d, 225, 15 * q + 7, 15);
        case 9 => AlphaReduce(d, 30, 2 * q + 1, 15);
        case 10 => AlphaReduce(d, 180, 12 * q + 7, 15);
        case 11 => AlphaReduce(d, 210, 14 * q + 9, 15);
        case 12 => AlphaReduce(d, 150, 10 * q + 7, 15);
        case 13 => AlphaReduce(d, 60, 4 * q + 3, 15);
        case 14 => AlphaReduce(d, 165, 11 * q + 9, 15);
        case 15 => AlphaReduce(d, 120, 8 * q + 7, 15);
        case 16 => AlphaReduce(d, 240, 16 * q + 15, 15);
      }
    }
  }

  // ---- the generator generates ----

  lemma AlphaDistinct(i: nat, j: nat)
    requires i < j < 255
    ensures Alpha(i) != Alpha(j)
  {
    hide *;
    if Alpha(i) == Alpha(j) {
      AlphaPlus(i, 255 - i);
      AlphaPlus(j, 255 - i);
      AlphaPlus(255, j - i);
      AlphaFacts();
      MulOne(Alpha(j - i));
      AlphaOrder(j - i);
    }
  }

  lemma AlphaNonzero(i: nat)
    requires i <= 255
    ensures Alpha(i) != 0
  {
    hide *;
    AlphaPlus(i, 255 - i);
    AlphaFacts();
    MulZero(Alpha(255 - i));
  }

  function Powers(n: nat): set<int> {
    set i | 0 <= i < n :: Alpha(i)
  }

  lemma {:induction false} PowersAreDistinct(n: nat)
    requires n <= 255
    ensures |Powers(n)| == n
  {
    hide Alpha;
    if n == 0 {
      assert Powers(0) == {};
    } else {
      PowersAreDistinct(n - 1);
      forall i | 0 <= i < n - 1
        ensures Alpha(i) != Alpha(n - 1)
      {
        AlphaDistinct(i, n - 1);
      }
      assert Powers(n) == Powers(n - 1) + {Alpha(n - 1)};
    }
  }

  /** 0x02 generates the field: every nonzero byte is a power of it. */
  lemma EveryByteIsAPower(x: Byte) returns (i: nat)
    requires x != 0
    ensures i < 255 && Alpha(i) == x
  {
    hide Alpha;
    PowersAreDistinct(255);
    forall k | 0 <= k < 255
      ensures Alpha(k) in Interval(1, 255)
    {
      AlphaNonzero(k);
    }
    assert Powers(255) <= Interval(1, 255);
    SubsetOfSameSize(Powers(255), Interval(1, 255));
    assert x in Powers(255);
    i :| 0 <= i < 255 && Alpha(i) == x;
  }

  /** The field has no zero divisors. */
  lemma NoZeroDivisors(x: Byte, y: Byte)
    requires Mul(x, y) == 0
    ensures x == 0 || y == 0
  {
    hide *;
    if x != 0 {
      var i := EveryByteIsAPower(x);
      MulComm(x, y);
      MulAssoc(y, x, Alpha(255 - i));
      AlphaPlus(i, 255 - i);
      AlphaFacts();
      MulOne(y);
      MulZero(Alpha(255 - i));
    }
  }
}
