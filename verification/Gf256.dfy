/** Arithmetic in GF(2^8/0x11D), whose addition is XOR, and its powers of 2. */
module Gf256 {
  // As used by the Reed-Solomon code of ISO/IEC 18004:2015, section 7.5.

  import opened Bits

  const MODULUS: nat := 0x11D

  lemma Pow2Values()
    ensures Pow2(7) == 128 && Pow2(8) == 256
  {
    assert Pow2(4) == 16;
  }

  lemma ShlValues(x: nat)
    ensures Shl(x, 7) == 128 * x && Shl(x, 8) == 256 * x
  {
    assert Shl(x, 1) == 2 * x;
    assert Shl(x, 2) == 4 * x;
    assert Shl(x, 3) == 8 * x;
    assert Shl(x, 4) == 16 * x;
    assert Shl(x, 5) == 32 * x;
    assert Shl(x, 6) == 64 * x;
  }

  lemma XorIsByte(x: Byte, y: Byte)
    ensures Xor(x, y) < 256
  {
    Pow2Values();
    XorBound(x, y, 8);
  }

  function Add(x: Byte, y: Byte): Byte {
    XorIsByte(x, y);
    Xor(x, y)
  }

  // Subtracting the modulus removes bit 8.
  lemma CancelBit8(u: Byte)
    ensures Xor(256 + u, MODULUS) == Xor(u, 0x1D)
  {
    Pow2Values();
    ShlValues(1);
    ShlValues(0);
    XorSplit(1, u, 1, 0x1D, 8);
    XorSelf(1);
  }

  lemma ReducedIsByte(z: Byte)
    ensures Xor(2 * z, z / 128 * MODULUS) < 256
  {
    hide Xor;
    if z < 128 {
      XorZero(2 * z);
    } else {
      CancelBit8(2 * z - 256);
      XorIsByte(2 * z - 256, 0x1D);
    }
  }

  /** Multiplication by x: shift left and, when x^8 appears, subtract the modulus. */
  function Xtime(z: Byte): Byte {
    ReducedIsByte(z);
    Xor(2 * z, z / 128 * MODULUS)
  }

  /** `x` when the low bit of `y` is set. */
  function LowTerm(x: Byte, y: nat): Byte {
    if y % 2 == 1 then x else 0
  }

  /** The product as a sum: x times t^i for every bit i of y that is set, lowest bit first.
      (The C++ loop runs over the bits of y highest first.) */
  function Mul(x: Byte, y: nat): Byte
    decreases y
  {
    if y == 0 then 0 else Add(LowTerm(x, y), Mul(Xtime(x), y / 2))
  }

  lemma HighBitAdd(a: Byte, b: Byte)
    ensures Add(a, b) / 128 == Xor(a / 128, b / 128)
  {
    hide Xor, Shl, Pow2;
    Pow2Values();
    ShlValues(a / 128);
    ShlValues(b / 128);
    ShlValues(Xor(a / 128, b / 128));
    XorSplit(a / 128, a % 128, b / 128, b % 128, 7);
    XorBound(a % 128, b % 128, 7);
  }

  lemma BitTimesModulus(i: nat, j: nat)
    requires i < 2 && j < 2
    ensures Xor(i, j) * MODULUS == Xor(i * MODULUS, j * MODULUS)
  {
    XorSelf(i);
    XorSelf(i * MODULUS);
    XorZero(i);
    XorZero(j);
    XorZero(i * MODULUS);
    XorZero(j * MODULUS);
  }

  lemma XtimeAdd(a: Byte, b: Byte)
    ensures Xtime(Add(a, b)) == Add(Xtime(a), Xtime(b))
  {
    var i, j := a / 128, b / 128;
    assert 2 * Xor(a, b) == Xor(2 * a, 2 * b) by { XorStep(a, 0, b, 0); }
    assert Add(a, b) / 128 == Xor(i, j) by { HighBitAdd(a, b); }
    assert Xor(i, j) * MODULUS == Xor(i * MODULUS, j * MODULUS) by { BitTimesModulus(i, j); }
    XorSwap(2 * a, i * MODULUS, 2 * b, j * MODULUS);
  }

  lemma LowTermAdd(x: Byte, z: Byte, y: nat)
    ensures LowTerm(Add(x, z), y) == Add(LowTerm(x, y), LowTerm(z, y))
  {
    XorZero(0);
  }

  lemma AddSwap(a: Byte, b: Byte, c: Byte, d: Byte)
    ensures Add(Add(a, b), Add(c, d)) == Add(Add(a, c), Add(b, d))
  {
    XorSwap(a, b, c, d);
  }

  lemma {:induction false} MulAddLeft(x: Byte, z: Byte, y: nat)
    ensures Mul(Add(x, z), y) == Add(Mul(x, y), Mul(z, y))
    decreases y
  {
    if y == 0 {
      XorSelf(0);
    } else {
      var xs, zs := Mul(Xtime(x), y / 2), Mul(Xtime(z), y / 2);
      XtimeAdd(x, z);
      MulAddLeft(Xtime(x), Xtime(z), y / 2);
      LowTermAdd(x, z, y);
      AddSwap(LowTerm(x, y), LowTerm(z, y), xs, zs);
    }
  }

  lemma XtimeZero()
    ensures Xtime(0) == 0
  {
    XorZero(0);
  }

  lemma {:induction false} MulXtimeLeft(x: Byte, y: nat)
    ensures Mul(Xtime(x), y) == Xtime(Mul(x, y))
    decreases y
  {
    XtimeZero();
    if y != 0 {
      MulXtimeLeft(Xtime(x), y / 2);
      XtimeAdd(LowTerm(x, y), Mul(Xtime(x), y / 2));
    }
  }

  lemma {:induction false} MulZeroLeft(y: nat)
    ensures Mul(0, y) == 0
  {
    XorZero(0);
    XtimeZero();
    if y != 0 {
      MulZeroLeft(y / 2);
    }
  }

  lemma MulStep(x: Byte, h: nat, b: nat)
    requires b < 2
    ensures Mul(x, 2 * h + b) == Add(if b == 1 then x else 0, Mul(Xtime(x), h))
  {
    XorZero(0);
    assert (2 * h + b) / 2 == h;
  }

  lemma AddLowBit(h: nat, b: nat)
    requires b < 2 && 2 * h + b < 256
    ensures Add(b, 2 * h) == 2 * h + b
  {
    XorStep(0, b, h, 0);
    XorZero(h);
  }

  lemma XtimeSmall(z: Byte)
    requires z < 128
    ensures Xtime(z) == 2 * z
  {
    hide Xor;
    assert z / 128 * MODULUS == 0;
    XorZero(2 * z);
  }

  /** Horner's form of the product, the one the C++ loop computes. */
  lemma MulHorner(x: Byte, h: nat, b: nat)
    requires b < 2
    ensures Mul(x, 2 * h + b) == Add(if b == 1 then x else 0, Xtime(Mul(x, h)))
  {
    MulStep(x, h, b);
    MulXtimeLeft(x, h);
  }

  lemma {:induction false} MulOneLeft(y: Byte)
    ensures Mul(1, y) == y
  {
    if y != 0 {
      MulOneLeft(y / 2);
      MulHorner(1, y / 2, y % 2);
      XtimeSmall(y / 2);
      AddLowBit(y / 2, y % 2);
    }
  }

  lemma {:induction false} MulComm(x: Byte, y: Byte)
    ensures Mul(x, y) == Mul(y, x)
    decreases x
  {
    if x == 0 {
      MulZeroLeft(y);
    } else {
      var h, b := x / 2, x % 2;
      MulComm(h, y);
      MulStep(y, h, b);
      MulXtimeLeft(h, y);
      MulXtimeLeft(y, h);
      XtimeSmall(h);
      AddLowBit(h, b);
      MulAddLeft(b, 2 * h, y);
      MulZeroLeft(y);
      MulOneLeft(y);
    }
  }

  lemma MulAddRight(x: Byte, y: Byte, z: Byte)
    ensures Mul(x, Add(y, z)) == Add(Mul(x, y), Mul(x, z))
  {
    MulComm(x, Add(y, z));
    MulAddLeft(y, z, x);
    MulComm(x, y);
    MulComm(x, z);
  }

  lemma MulXtimeRight(x: Byte, y: Byte)
    ensures Mul(x, Xtime(y)) == Xtime(Mul(x, y))
  {
    MulComm(x, Xtime(y));
    MulXtimeLeft(y, x);
    MulComm(x, y);
  }

  lemma {:induction false} MulAssoc(x: Byte, y: Byte, z: nat)
    ensures Mul(Mul(x, y), z) == Mul(x, Mul(y, z))
    decreases z
  {
    if z != 0 {
      MulAssoc(x, Xtime(y), z / 2);
      MulXtimeRight(x, y);
      MulAddRight(x, LowTerm(y, z), Mul(Xtime(y), z / 2));
    }
  }

  lemma ShrBit(y: nat, i: nat)
    ensures Bit(y, i) < 2 && Shr(y, i) == 2 * Shr(y, i + 1) + Bit(y, i)
  {
  }

  lemma ByteShr8(y: Byte)
    ensures Shr(y, 8) == 0
  {
    assert Shr(y, 1) < 128;
    assert Shr(y, 2) < 64;
    assert Shr(y, 3) < 32;
    assert Shr(y, 4) < 16;
    assert Shr(y, 5) < 8;
    assert Shr(y, 6) < 4;
    assert Shr(y, 7) < 2;
  }

  lemma MulZeroRight(x: Byte)
    ensures Mul(x, 0) == 0
  {
  }

  lemma MulLoopStep(x: Byte, y: Byte, i: nat)
    ensures Add(Xtime(Mul(x, Shr(y, i + 1))), if Bit(y, i) == 1 then x else 0) == Mul(x, Shr(y, i))
  {
    hide Xor, Mul, Xtime;
    ShrBit(y, i);
    MulHorner(x, Shr(y, i + 1), Bit(y, i));
    XorComm(Xtime(Mul(x, Shr(y, i + 1))), if Bit(y, i) == 1 then x else 0);
  }

  /** Russian peasant multiplication, highest bit of `y` first. The first statement of the loop
      is `(z << 1) ^ ((z >> 7) * 0x11D)`. The C++ `z` is an `int`: that it stays below 256 is
      the type of `z` here. */
  method ReedSolomonMultiply(x: Byte, y: Byte) returns (r: Byte)
    ensures r == Mul(x, y)
  {
    var z: Byte := 0;
    var i := 7;
    hide *;
    ByteShr8(y);
    MulZeroRight(x);
    while i >= 0
      invariant -1 <= i <= 7
      invariant z == Mul(x, Shr(y, i + 1))
    {
      MulLoopStep(x, y, i);
      z := Xtime(z);
      z := Add(z, if Bit(y, i) == 1 then x else 0);
      i := i - 1;
    }
    ShrZero(y);
    r := z;
  }

  lemma ShrZero(y: nat)
    ensures Shr(y, 0) == y
  {
  }

  // The laws of the field, one lemma each.

  lemma AddComm(x: Byte, y: Byte)
    ensures Add(x, y) == Add(y, x)
  {
    XorComm(x, y);
  }

  lemma AddAssoc(x: Byte, y: Byte, z: Byte)
    ensures Add(Add(x, y), z) == Add(x, Add(y, z))
  {
    XorAssoc(x, y, z);
  }

  lemma AddZero(x: Byte)
    ensures Add(x, 0) == x && Add(0, x) == x
  {
    XorZero(x);
  }

  lemma AddSelf(x: Byte)
    ensures Add(x, x) == 0
  {
    XorSelf(x);
  }

  lemma AddIsZero(x: Byte, y: Byte)
    ensures Add(x, y) == 0 <==> x == y
  {
    XorSelf(x);
    if Add(x, y) == 0 {
      XorEqZero(x, y);
    }
  }

  lemma MulOne(x: Byte)
    ensures Mul(1, x) == x && Mul(x, 1) == x
  {
    MulOneLeft(x);
    MulComm(x, 1);
  }

  lemma MulZero(x: Byte)
    ensures Mul(0, x) == 0 && Mul(x, 0) == 0
  {
    MulZeroLeft(x);
    MulComm(x, 0);
  }

  // Swapping the last two of three factors.
  lemma MulSwap(x: Byte, y: Byte, z: Byte)
    ensures Mul(Mul(x, y), z) == Mul(Mul(x, z), y)
  {
    MulAssoc(x, y, z);
    MulAssoc(x, z, y);
    MulComm(y, z);
  }

  function Pow(v: Byte, n: nat): Byte {
    if n == 0 then 1 else Mul(Pow(v, n - 1), v)
  }

  lemma {:induction false} PowAdd(v: Byte, m: nat, n: nat)
    ensures Pow(v, m + n) == Mul(Pow(v, m), Pow(v, n))
  {
    hide Mul;
    if n == 0 {
      MulOne(Pow(v, m));
    } else {
      PowAdd(v, m, n - 1);
      MulAssoc(Pow(v, m), Pow(v, n - 1), v);
    }
  }

  const GENERATOR: Byte := 2

  /** The i-th power of the generator 0x02, the roots used by the Reed-Solomon code. */
  function Alpha(i: nat): Byte {
    Pow(GENERATOR, i)
  }
}
