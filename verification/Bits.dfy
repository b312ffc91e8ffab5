/** Bitwise arithmetic on natural numbers. */
module Bits {
  // The C++ code works on words; here they are natural numbers, and the width, where it matters, is a bound
  // that is proved.

  type Byte = x: int | 0 <= x < 256

  function Pow2(n: nat): (r: nat)
    ensures r >= 1
  {
    if n == 0 then 1 else 2 * Pow2(n - 1)
  }

  /** The value of `x << n`. */
  function Shl(x: nat, n: nat): nat {
    if n == 0 then x else 2 * Shl(x, n - 1)
  }

  /** The value of `x >> i`. */
  function Shr(x: nat, i: nat): nat {
    if i == 0 then x else Shr(x, i - 1) / 2
  }

  /** The value of `(x >> i) & 1`. */
  function Bit(x: nat, i: nat): nat {
    Shr(x, i) % 2
  }

  function Xor(a: nat, b: nat): nat
    decreases a + b
  {
    if a == 0 && b == 0 then 0 else (a + b) % 2 + 2 * Xor(a / 2, b / 2)
  }

  lemma {:induction false} XorComm(a: nat, b: nat)
    ensures Xor(a, b) == Xor(b, a)
    decreases a + b
  {
    if a != 0 || b != 0 {
      XorComm(a / 2, b / 2);
    }
  }

  lemma {:induction false} XorZero(a: nat)
    ensures Xor(a, 0) == a && Xor(0, a) == a
  {
    if a != 0 {
      XorZero(a / 2);
    }
  }

  lemma {:induction false} XorSelf(a: nat)
    ensures Xor(a, a) == 0
  {
    if a != 0 {
      XorSelf(a / 2);
    }
  }

  // One step of the definition, for arguments given as low bit and rest.
  lemma XorStep(a: nat, i: nat, b: nat, j: nat)
    requires i < 2 && j < 2
    ensures Xor(2 * a + i, 2 * b + j) == (i + j) % 2 + 2 * Xor(a, b)
  {
    assert (2 * a + i) / 2 == a && (2 * b + j) / 2 == b;
  }

  lemma ParityAssoc(i: nat, j: nat, k: nat)
    requires i < 2 && j < 2 && k < 2
    ensures ((i + j) % 2 + k) % 2 == (i + (j + k) % 2) % 2
  {
    if i == 0 {
    } else if k == 0 {
    } else {
      assert i == 1 && k == 1;
    }
  }

  lemma {:induction false} XorAssoc(a: nat, b: nat, c: nat)
    ensures Xor(Xor(a, b), c) == Xor(a, Xor(b, c))
    decreases a + b + c
  {
    if a == 0 && b == 0 {
      XorZero(c);
      XorZero(Xor(b, c));
    } else if b == 0 && c == 0 {
      XorZero(a);
      XorZero(Xor(a, b));
    } else {
      hide Xor;
      var a', i := a / 2, a % 2;
      var b', j := b / 2, b % 2;
      var c', k := c / 2, c % 2;
      XorAssoc(a', b', c');
      assert a == 2 * a' + i && b == 2 * b' + j && c == 2 * c' + k;
      XorAssocStep(a', i, b', j, c', k);
    }
  }

  lemma XorAssocStep(a: nat, i: nat, b: nat, j: nat, c: nat, k: nat)
    requires i < 2 && j < 2 && k < 2
    requires Xor(Xor(a, b), c) == Xor(a, Xor(b, c))
    ensures Xor(Xor(2 * a + i, 2 * b + j), 2 * c + k) == Xor(2 * a + i, Xor(2 * b + j, 2 * c + k))
  {
    hide Xor;
    XorStep(a, i, b, j);
    XorStep(b, j, c, k);
    XorStep(Xor(a, b), (i + j) % 2, c, k);
    XorStep(a, i, Xor(b, c), (j + k) % 2);
    ParityAssoc(i, j, k);
  }

  lemma XorSwap(a: nat, b: nat, c: nat, d: nat)
    ensures Xor(Xor(a, b), Xor(c, d)) == Xor(Xor(a, c), Xor(b, d))
  {
    XorAssoc(a, b, Xor(c, d));
    XorAssoc(b, c, d);
    XorComm(b, c);
    XorAssoc(c, b, d);
    XorAssoc(a, c, Xor(b, d));
  }

  // XORing the same value twice changes nothing.
  lemma XorCancel(a: nat, b: nat)
    ensures Xor(Xor(a, b), b) == a && Xor(b, Xor(b, a)) == a
  {
    XorAssoc(a, b, b);
    XorSelf(b);
    XorZero(a);
    XorAssoc(b, b, a);
  }

  lemma XorEqZero(a: nat, b: nat)
    requires Xor(a, b) == 0
    ensures a == b
  {
    XorCancel(a, b);
    XorZero(b);
  }

  lemma {:induction false} XorBound(a: nat, b: nat, n: nat)
    requires a < Pow2(n) && b < Pow2(n)
    ensures Xor(a, b) < Pow2(n)
  {
    if n != 0 {
      XorBound(a / 2, b / 2, n - 1);
    }
  }

  // One more low bit on both sides of an equation between XORs.
  lemma XorSplitStep(m: nat, u: nat, n: nat, v: nat, x: nat)
    requires Xor(m + u / 2, n + v / 2) == x + Xor(u / 2, v / 2)
    ensures Xor(2 * m + u, 2 * n + v) == 2 * x + Xor(u, v)
  {
    hide Xor;
    var u', i, v', j := u / 2, u % 2, v / 2, v % 2;
    assert u == 2 * u' + i && v == 2 * v' + j;
    XorStep(m + u', i, n + v', j);
    XorStep(u', i, v', j);
  }

  lemma HalfBound(u: nat, n: nat)
    requires n > 0 && u < Pow2(n)
    ensures u / 2 < Pow2(n - 1)
  {
  }

  lemma ShlUnfold(x: nat, n: nat)
    requires n > 0
    ensures Shl(x, n) == 2 * Shl(x, n - 1)
  {
  }

  // XOR works on the bits below n and on those from n up separately.
  lemma {:induction false} XorSplit(a: nat, u: nat, b: nat, v: nat, n: nat)
    requires u < Pow2(n) && v < Pow2(n)
    ensures Xor(Shl(a, n) + u, Shl(b, n) + v) == Shl(Xor(a, b), n) + Xor(u, v)
  {
    if n == 0 {
      assert u == 0 && v == 0;
      XorZero(0);
    } else {
      hide Xor, Shl, Pow2;
      HalfBound(u, n);
      HalfBound(v, n);
      ShlUnfold(a, n);
      ShlUnfold(b, n);
      ShlUnfold(Xor(a, b), n);
      XorSplit(a, u / 2, b, v / 2, n - 1);
      XorSplitStep(Shl(a, n - 1), u, Shl(b, n - 1), v, Shl(Xor(a, b), n - 1));
    }
  }

  lemma {:induction false} ShrHalf(x: nat, i: nat)
    ensures Shr(x, i + 1) == Shr(x / 2, i)
  {
    if i != 0 {
      ShrHalf(x, i - 1);
    }
  }

  function Or(a: nat, b: nat): nat
    decreases a + b
  {
    if a == 0 && b == 0 then 0 else (if a % 2 == 1 || b % 2 == 1 then 1 else 0) + 2 * Or(a / 2, b / 2)
  }

  lemma {:induction false} OrZero(a: nat)
    ensures Or(a, 0) == a
  {
    if a != 0 {
      OrZero(a / 2);
    }
  }

  // Writing a bit below the bits that are already there.
  lemma {:induction false} OrBelow(v: nat, b: nat, n: nat)
    requires b < 2
    ensures Or(Shl(v, n + 1), Shl(b, n)) == Shl(2 * v + b, n)
  {
    if n == 0 {
      OrZero(v);
    } else {
      OrBelow(v, b, n - 1);
    }
  }

  lemma {:induction false} ShlBound(v: nat, m: nat, n: nat)
    requires v < Pow2(m)
    ensures Shl(v, n) < Pow2(m + n)
  {
    if n != 0 {
      ShlBound(v, m, n - 1);
    }
  }

  // OR of numbers without common bits is their sum.
  lemma {:induction false} OrDisjoint(a: nat, u: nat, n: nat)
    requires u < Pow2(n)
    ensures Or(Shl(a, n), u) == Shl(a, n) + u
  {
    if n == 0 {
      OrZero(a);
    } else {
      OrDisjoint(a, u / 2, n - 1);
    }
  }

  lemma {:induction false} ShlIsTimes(a: nat, n: nat)
    ensures Shl(a, n) == a * Pow2(n)
  {
    if n != 0 {
      ShlIsTimes(a, n - 1);
    }
  }

  /** Bit by bit, XOR tells where two numbers differ. */
  lemma {:induction false} XorBit(a: nat, b: nat, i: nat)
    ensures Bit(Xor(a, b), i) == if Bit(a, i) == Bit(b, i) then 0 else 1
    decreases i
  {
    hide Xor, Shr;
    XorHalf(a, b);
    if i == 0 {
      LowestBit(a);
      LowestBit(b);
      LowestBit(Xor(a, b));
    } else {
      XorBit(a / 2, b / 2, i - 1);
      ShrHalf(Xor(a, b), i - 1);
      ShrHalf(a, i - 1);
      ShrHalf(b, i - 1);
    }
  }

  lemma LowestBit(x: nat)
    ensures Bit(x, 0) == x % 2
  {
  }

  lemma XorHalf(a: nat, b: nat)
    ensures Xor(a, b) / 2 == Xor(a / 2, b / 2) && Xor(a, b) % 2 == (a + b) % 2
  {
  }

  /** And OR tells where either has a one. */
  lemma {:induction false} OrBit(a: nat, b: nat, i: nat)
    ensures Bit(Or(a, b), i) == if Bit(a, i) == 1 || Bit(b, i) == 1 then 1 else 0
    decreases i
  {
    hide Or, Shr;
    OrHalf(a, b);
    if i == 0 {
      LowestBit(a);
      LowestBit(b);
      LowestBit(Or(a, b));
    } else {
      OrBit(a / 2, b / 2, i - 1);
      ShrHalf(Or(a, b), i - 1);
      ShrHalf(a, i - 1);
      ShrHalf(b, i - 1);
    }
  }

  lemma OrHalf(a: nat, b: nat)
    ensures Or(a, b) / 2 == Or(a / 2, b / 2)
    ensures Or(a, b) % 2 == if a % 2 == 1 || b % 2 == 1 then 1 else 0
  {
  }
}
