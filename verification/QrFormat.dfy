/** Data masks, format and version information. */
module QrFormat {
  // ISO/IEC 18004:2015, sections 7.8, 7.9 and 7.10.

  import opened Bits
  import opened QrTables
  import opened QrZigzag
  import opened QrPatterns

  // ---- masks ----

  predicate IsMask(msk: int) {
    0 <= msk <= 7
  }

  predicate Invert(msk: int, x: nat, y: nat) {
    match msk
    case 0 => (x + y) % 2 == 0
    case 1 => y % 2 == 0
    case 2 => x % 3 == 0
    case 3 => (x + y) % 3 == 0
    case 4 => (x / 3 + y / 2) % 2 == 0
    case 5 => x * y % 2 + x * y % 3 == 0
    case 6 => (x * y % 2 + x * y % 3) % 2 == 0
    case _ => ((x + y) % 2 + x * y % 3) % 2 == 0
  }

  function MaskedModule(g: Grid, f: Grid, size: nat, msk: int, c: Cell): bool
    requires IsSquare(g, size) && IsSquare(f, size) && c.x < size && c.y < size
  {
    At(g, size, c) != (Invert(msk, c.x, c.y) && !At(f, size, c))
  }

  /** The grid with every module that is not a function module inverted where the mask says so. */
  function Masked(g: Grid, f: Grid, size: nat, msk: int): (h: Grid)
    requires IsSquare(g, size) && IsSquare(f, size)
    ensures IsSquare(h, size)
    ensures forall c: Cell :: c.x < size && c.y < size ==> At(h, size, c) == MaskedModule(g, f, size, msk, c)
  {
    seq(size, y requires 0 <= y < size =>
      seq(size, x requires 0 <= x < size => MaskedModule(g, f, size, msk, Cell(x, y))))
  }

  lemma SameGrid(g: Grid, h: Grid, size: nat)
    requires IsSquare(g, size) && IsSquare(h, size)
    requires forall c: Cell :: c.x < size && c.y < size ==> At(g, size, c) == At(h, size, c)
    ensures g == h
  {
    forall y | 0 <= y < size
      ensures g[y] == h[y]
    {
      forall x | 0 <= x < size
        ensures g[y][x] == h[y][x]
      {
        assert At(g, size, Cell(x, y)) == At(h, size, Cell(x, y));
      }
    }
  }

  /** Applying a mask twice changes nothing. */
  lemma MaskTwice(g: Grid, f: Grid, size: nat, msk: int)
    requires IsSquare(g, size) && IsSquare(f, size)
    ensures Masked(Masked(g, f, size, msk), f, size, msk) == g
  {
    hide Invert;
    SameGrid(Masked(Masked(g, f, size, msk), f, size, msk), g, size);
  }

  // ---- format information ----

  function LevelBits(ecl: Ecl): (n: nat)
    ensures n < 4
  {
    match ecl
    case Low => 1
    case Medium => 0
    case Quartile => 3
    case High => 2
  }

  const FORMAT_GENERATOR: nat := 0x537
  const FORMAT_MASK: nat := 0x5412
  const VERSION_GENERATOR: nat := 0x1F25

  /** One step of the division that computes the check bits, `degree` being that of the generator. */
  function CheckStep(rem: nat, degree: nat, generator: nat): nat
    requires degree > 0
  {
    Xor(2 * rem, Shr(rem, degree - 1) * generator)
  }

  function CheckBits(data: nat, n: nat, degree: nat, generator: nat): nat
    requires degree > 0
  {
    if n == 0 then data else CheckStep(CheckBits(data, n - 1, degree, generator), degree, generator)
  }

  /** The fifteen bits of the format information. */
  function FormatBits(ecl: Ecl, msk: int): nat
    requires IsMask(msk)
  {
    var data := Or(Shl(LevelBits(ecl), 3), msk);
    Xor(Or(Shl(data, 10), CheckBits(data, 10, 10, FORMAT_GENERATOR)), FORMAT_MASK)
  }

  /** What a reader takes out of the format bits. */
  function FormatData(bits: nat): nat {
    Xor(bits, FORMAT_MASK) / 1024
  }

  lemma ShlAtMostOnce(rem: nat, n: nat)
    requires rem < Pow2(n + 1)
    ensures Shr(rem, n) == if rem < Pow2(n) then 0 else 1
    decreases n
  {
    if n != 0 {
      ShrHalf(rem, n - 1);
      ShlAtMostOnce(rem / 2, n - 1);
    }
  }

  // Subtracting the generator removes the top bit.
  lemma CheckStepBound(rem: nat, degree: nat, generator: nat)
    requires degree > 0 && rem < Pow2(degree)
    requires Pow2(degree) <= generator < Pow2(degree + 1)
    ensures CheckStep(rem, degree, generator) < Pow2(degree)
  {
    hide Xor, Shr;
    ShlAtMostOnce(rem, degree - 1);
    if rem < Pow2(degree - 1) {
      XorZero(2 * rem);
    } else {
      var p := Pow2(degree);
      ShlIsTimes(1, degree);
      XorSplit(1, 2 * rem - p, 1, generator - p, degree);
      XorSelf(1);
      ShlIsTimes(0, degree);
      XorBound(2 * rem - p, generator - p, degree);
    }
  }

  lemma {:induction false} CheckBitsBound(data: nat, n: nat, degree: nat, generator: nat)
    requires degree > 0 && data < Pow2(degree)
    requires Pow2(degree) <= generator < Pow2(degree + 1)
    ensures CheckBits(data, n, degree, generator) < Pow2(degree)
  {
    if n != 0 {
      hide CheckStep, Pow2;
      CheckBitsBound(data, n - 1, degree, generator);
      CheckStepBound(CheckBits(data, n - 1, degree, generator), degree, generator);
    }
  }

  lemma FormatPowers()
    ensures Pow2(3) == 8 && Pow2(10) == 1024 && Pow2(11) == 2048 && Pow2(15) == 0x8000
  {
  }

  /** The level and the mask can be read back from the format bits, which are fifteen. */
  lemma FormatRoundTrip(ecl: Ecl, msk: int)
    requires IsMask(msk)
    ensures FormatBits(ecl, msk) < 0x8000
    ensures FormatData(FormatBits(ecl, msk)) == 8 * LevelBits(ecl) + msk
  {
    hide Xor, CheckBits, Or, Shl, Pow2;
    FormatPowers();
    var data := Or(Shl(LevelBits(ecl), 3), msk);
    OrDisjoint(LevelBits(ecl), msk, 3);
    ShlIsTimes(LevelBits(ecl), 3);
    assert data == 8 * LevelBits(ecl) + msk < 32;
    var rem := CheckBits(data, 10, 10, FORMAT_GENERATOR);
    CheckBitsBound(data, 10, 10, FORMAT_GENERATOR);
    OrDisjoint(data, rem, 10);
    ShlIsTimes(data, 10);
    var word := Or(Shl(data, 10), rem);
    assert word == 1024 * data + rem < 0x8000;
    XorBound(word, FORMAT_MASK, 15);
    XorCancel(word, FORMAT_MASK);
  }

  /** The module that a format cell gets. */
  predicate FormatDark(size: int, bits: nat, c: Cell) {
    if c.x == 8 && c.y <= 5 then Bit(bits, c.y) != 0
    else if c.x == 8 && c.y == 7 then Bit(bits, 6) != 0
    else if c.x == 8 && c.y == 8 then Bit(bits, 7) != 0
    else if c.x == 7 && c.y == 8 then Bit(bits, 8) != 0
    else if c.y == 8 && c.x <= 5 then Bit(bits, 14 - c.x) != 0
    else if c.y == 8 && size - 8 <= c.x < size then Bit(bits, size - 1 - c.x) != 0
    else if c.x == 8 && size - 7 <= c.y && size >= 15 then Bit(bits, c.y - (size - 15)) != 0
    else true
  }

  // ---- version information ----

  function VersionBits(ver: int): nat
    requires IsVersion(ver)
  {
    Or(Shl(ver, 12), CheckBits(ver, 12, 12, VERSION_GENERATOR))
  }

  /** The index of the version bit of a cell. */
  function VersionIndex(ver: int, c: Cell): nat {
    var size := SizeOf(ver);
    if c.y <= 5 && size - 11 <= c.x then 3 * c.y + (c.x - (size - 11))
    else if size - 11 <= c.y then 3 * c.x + (c.y - (size - 11))
    else 0
  }

  predicate VersionDark(ver: int, c: Cell)
    requires IsVersion(ver)
  {
    Bit(VersionBits(ver), VersionIndex(ver, c)) != 0
  }

  lemma VersionCellsOfIndex(ver: int, i: nat)
    requires IsVersion(ver) && ver >= 7 && i < 18
    ensures var a, b := SizeOf(ver) - 11 + i % 3, i / 3;
      forall c: Cell :: InVersion(ver, c) && VersionIndex(ver, c) == i <==> c == Cell(a, b) || c == Cell(b, a)
  {
  }

  lemma VersionIndexBound(ver: int)
    requires IsVersion(ver)
    ensures forall c: Cell :: InVersion(ver, c) ==> VersionIndex(ver, c) < 18
  {
  }
}
