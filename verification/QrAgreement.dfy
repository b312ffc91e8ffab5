/** The encoder's geometry, masks and check bits are those of the standard. */
module QrAgreement {
  import opened Outcomes
  import opened Bits
  import opened QrTables
  import opened QrZigzag
  import opened QrStandard
  import opened QrPatterns
  import opened QrFormat
  import opened QrBlocks

  // ---- alignment patterns: table E.1 ----

  /** The computed positions start and go on as the printed ones. */
  predicate PositionsAgree(ver: int)
    requires IsVersion(ver)
  {
    ver >= 2 ==>
      && RowOf(ver).second == ver * 4 + 10 - AlignStep(ver) * (NumAlign(ver) - 2)
      && (NumAlign(ver) > 2 ==> RowOf(ver).distance == AlignStep(ver))
  }

  lemma PositionsFrom1()
    ensures PositionsAgree(1) && PositionsAgree(2) && PositionsAgree(3) && PositionsAgree(4) && PositionsAgree(5)
  {
    assert PositionsAgree(1);
    assert PositionsAgree(2);
    assert PositionsAgree(3);
    assert PositionsAgree(4);
    assert PositionsAgree(5);
  }

  lemma PositionsFrom6()
    ensures PositionsAgree(6) && PositionsAgree(7) && PositionsAgree(8) && PositionsAgree(9) && PositionsAgree(10)
  {
    assert PositionsAgree(6);
    assert PositionsAgree(7);
    assert PositionsAgree(8);
    assert PositionsAgree(9);
    assert PositionsAgree(10);
  }

  lemma PositionsFrom11()
    ensures PositionsAgree(11) && PositionsAgree(12) && PositionsAgree(13) && PositionsAgree(14) && PositionsAgree(15)
  {
    assert PositionsAgree(11);
    assert PositionsAgree(12);
    assert PositionsAgree(13);
    assert PositionsAgree(14);
    assert PositionsAgree(15);
  }

  lemma PositionsFrom16()
    ensures PositionsAgree(16) && PositionsAgree(17) && PositionsAgree(18) && PositionsAgree(19) && PositionsAgree(20)
  {
    assert PositionsAgree(16);
    assert PositionsAgree(17);
    assert PositionsAgree(18);
    assert PositionsAgree(19);
    assert PositionsAgree(20);
  }

  lemma PositionsFrom21()
    ensures PositionsAgree(21) && PositionsAgree(22) && PositionsAgree(23) && PositionsAgree(24) && PositionsAgree(25)
  {
    assert PositionsAgree(21);
    assert PositionsAgree(22);
    assert PositionsAgree(23);
    assert PositionsAgree(24);
    assert PositionsAgree(25);
  }

  lemma PositionsFrom26()
    ensures PositionsAgree(26) && PositionsAgree(27) && PositionsAgree(28) && PositionsAgree(29) && PositionsAgree(30)
  {
    assert PositionsAgree(26);
    assert PositionsAgree(27);
    assert PositionsAgree(28);
    assert PositionsAgree(29);
    assert PositionsAgree(30);
  }

  lemma PositionsFrom31()
    ensures PositionsAgree(31) && PositionsAgree(32) && PositionsAgree(33) && PositionsAgree(34) && PositionsAgree(35)
  {
    assert PositionsAgree(31);
    assert PositionsAgree(32);
    assert PositionsAgree(33);
    assert PositionsAgree(34);
    assert PositionsAgree(35);
  }

  lemma PositionsFrom36()
    ensures PositionsAgree(36) && PositionsAgree(37) && PositionsAgree(38) && PositionsAgree(39) && PositionsAgree(40)
  {
    assert PositionsAgree(36);
    assert PositionsAgree(37);
    assert PositionsAgree(38);
    assert PositionsAgree(39);
    assert PositionsAgree(40);
  }

  lemma AllPositionsAgree(ver: int)
    requires IsVersion(ver)
    ensures PositionsAgree(ver)
  {
    hide PositionsAgree;
    match (ver - 1) / 5 {
      case 0 => PositionsFrom1();
      case 1 => PositionsFrom6();
      case 2 => PositionsFrom11();
      case 3 => PositionsFrom16();
      case 4 => PositionsFrom21();
      case 5 => PositionsFrom26();
      case 6 => PositionsFrom31();
      case _ => PositionsFrom36();
    }
  }

  /** Position i, counted from the second one on. */
  lemma PositionFromSecond(ver: int, i: int)
    requires 2 <= ver <= MAX_VERSION && 1 <= i < NumAlign(ver)
    ensures var row := RowOf(ver);
      && AlignPos(ver, i) == row.second + row.distance * (i - 1) && AlignPos(ver, NumAlign(ver) - 1) == Side(ver) - 7
  {
    hide AlignPos, AlignStep, RowOf, NumAlign;
    AllPositionsAgree(ver);
    AlignPosClosed(ver, i);
    AlignPosClosed(ver, NumAlign(ver) - 1);
    var n, step := NumAlign(ver), AlignStep(ver);
    assert step * (n - 2) == step * (n - 1 - i) + step * (i - 1);
  }

  lemma CoordinateIsPosition(ver: int, p: int)
    requires 2 <= ver <= MAX_VERSION && IsCoordinate(ver, p) && p != 6
    ensures exists i :: 0 <= i < NumAlign(ver) && AlignPos(ver, i) == p
  {
    hide AlignPos, RowOf, NumAlign, AlignStep;
    TwoPositions(ver);
    var row, n := RowOf(ver), NumAlign(ver);
    PositionFromSecond(ver, n - 1);
    var k := (p - row.second) / row.distance;
    Quotient(p - row.second, row.distance);
    IndexBound(row.distance, k, n - 2);
    PositionFromSecond(ver, k + 1);
    assert AlignPos(ver, k + 1) == p;
  }

  lemma Quotient(x: nat, d: nat)
    requires d > 0 && x % d == 0
    ensures x == d * (x / d)
  {
  }

  lemma PositionIsCoordinate(ver: int, i: int)
    requires 2 <= ver <= MAX_VERSION && 0 < i < NumAlign(ver)
    ensures IsCoordinate(ver, AlignPos(ver, i))
  {
    hide AlignPos, RowOf, NumAlign, AlignStep;
    var row := RowOf(ver);
    PositionFromSecond(ver, i);
    PositionFromSecond(ver, NumAlign(ver) - 1);
    MultipleOf(row.distance, i - 1);
    IndexMono(row.distance, i - 1, NumAlign(ver) - 2);
    IndexMono(row.distance, 0, i - 1);
  }

  /** The coordinates of table E.1 are the positions that are computed. */
  lemma CoordinatesAgree(ver: int, p: int)
    requires 2 <= ver <= MAX_VERSION
    ensures IsCoordinate(ver, p) <==> exists i :: 0 <= i < NumAlign(ver) && AlignPos(ver, i) == p
  {
    hide AlignPos, NumAlign, IsCoordinate;
    FirstPosition(ver);
    assert IsCoordinate(ver, 6) by { SixIsCoordinate(ver); }
    if IsCoordinate(ver, p) && p != 6 {
      CoordinateIsPosition(ver, p);
    }
    if i :| 0 <= i < NumAlign(ver) && AlignPos(ver, i) == p && i > 0 {
      PositionIsCoordinate(ver, i);
    }
  }

  lemma SixIsCoordinate(ver: int)
    requires 2 <= ver <= MAX_VERSION
    ensures IsCoordinate(ver, 6)
  {
    hide RowOf;
  }

  lemma FirstPosition(ver: int)
    requires 2 <= ver <= MAX_VERSION
    ensures NumAlign(ver) >= 2 && AlignPos(ver, 0) == 6
  {
  }

  lemma IndexBound(d: nat, k: int, n: int)
    requires d > 0 && d * k <= d * n
    ensures k <= n
  {
    assert d * (n + 1) == d * n + d;
    if k > n {
      IndexMono(d, n + 1, k);
    }
  }

  lemma IndexMono(d: nat, k: int, n: int)
    requires k <= n
    ensures d * k <= d * n
  {
    assert d * n - d * k == d * (n - k);
  }

  lemma MultipleOf(d: nat, k: nat)
    requires d > 0
    ensures d * k % d == 0
  {
    QuotientIs(d * k, d, k, 0);
  }

  // ---- function modules ----

  /** The alignment patterns that are drawn stand where the standard has them. */
  lemma AlignmentAgrees(ver: int, c: Cell)
    requires IsVersion(ver)
    ensures InAlignment(ver, c) <==> InAlignmentPattern(ver, c.y, c.x)
  {
    if ver >= 2 {
      hide AlignPos, RowOf, NumAlign, IsCoordinate;
      TwoPositions(ver);
      FirstPosition(ver);
      PositionFromSecond(ver, NumAlign(ver) - 1);
      if i, j :| InBlock(ver, i, j, c) {
        CoordinatesAgree(ver, AlignPos(ver, i));
        CoordinatesAgree(ver, AlignPos(ver, j));
        CentreOfPositions(ver, i, j);
        assert IsCentre(ver, AlignPos(ver, j), AlignPos(ver, i));
      }
      if p: int, q: int :| IsCentre(ver, p, q) && -2 <= c.y - p <= 2 && -2 <= c.x - q <= 2 {
        CoordinatesAgree(ver, p);
        CoordinatesAgree(ver, q);
        var j :| 0 <= j < NumAlign(ver) && AlignPos(ver, j) == p;
        var i :| 0 <= i < NumAlign(ver) && AlignPos(ver, i) == q;
        CentreOfPositions(ver, i, j);
        assert InBlock(ver, i, j, c);
      }
    }
  }

  /** The corners are those of the list of positions. */
  lemma CentreOfPositions(ver: int, i: int, j: int)
    requires 2 <= ver <= MAX_VERSION && 0 <= i < NumAlign(ver) && 0 <= j < NumAlign(ver)
    ensures HasAlignment(ver, i, j) <==>
      var p, q, last := AlignPos(ver, j), AlignPos(ver, i), Side(ver) - 7;
      !(p == 6 && q == 6) && !(p == 6 && q == last) && !(p == last && q == 6)
  {
    hide AlignPos, RowOf, NumAlign;
    FirstPosition(ver);
    PositionFromSecond(ver, NumAlign(ver) - 1);
    AlignPosBounds(ver, i);
    AlignPosBounds(ver, j);
  }

  /** The encoder leaves exactly the encoding region of the standard to the data. */
  lemma FunctionModulesAgree(ver: int, c: Cell)
    requires IsVersion(ver) && c.x < SizeOf(ver) && c.y < SizeOf(ver)
    ensures IsFunctionModule(ver, c) <==> IsFunctionCell(ver, c)
  {
    hide InAlignment, InAlignmentPattern;
    AlignmentAgrees(ver, c);
  }

  // ---- the order of placement ----

  lemma SidesAgree(ver: int)
    requires IsVersion(ver)
    ensures Side(ver) == SizeOf(ver) && IsSize(Side(ver)) && Side(ver) / 2 == NumPairs(Side(ver))
  {
  }

  /** Pairs of columns are taken upwards and downwards in turn. */
  lemma PairsAgree(ver: int, p: nat, k: nat)
    requires IsVersion(ver) && p < Side(ver) / 2 && k < 2 * Side(ver)
    ensures 1 <= Right(Side(ver), p) < Side(ver) && WalkCell(ver, p, k) == PairCell(Side(ver), Right(Side(ver), p), k)
  {
    var right, half := Right(Side(ver), p), 2 * ver + 8;
    assert (right + 1) / 2 == half - p;
    assert (half - p) % 2 == p % 2;
  }

  lemma PairWalkAgrees(ver: int, p: nat)
    requires IsVersion(ver) && p < Side(ver) / 2
    ensures 1 <= Right(Side(ver), p) < Side(ver)
    ensures PairWalk(ver, p) == PairCells(Side(ver), Right(Side(ver), p), 2 * Side(ver))
  {
    hide WalkCell, PairCell, Right;
    PairsAgree(ver, p, 0);
    var cells := PairCells(Side(ver), Right(Side(ver), p), 2 * Side(ver));
    forall k: nat | k < 2 * Side(ver) ensures PairWalk(ver, p)[k] == cells[k] {
      PairsAgree(ver, p, k);
    }
  }

  /** The zigzag scan is the walk of the standard. */
  lemma {:induction false} WalkAgrees(ver: int, p: nat)
    requires IsVersion(ver) && p <= Side(ver) / 2
    ensures IsSize(Side(ver)) && p <= NumPairs(Side(ver)) && Walk(ver, p) == Scan(Side(ver), p)
  {
    hide PairWalk, PairCells, Right, IsSize;
    SidesAgree(ver);
    if p > 0 {
      WalkAgrees(ver, p - 1);
      PairWalkAgrees(ver, p - 1);
    }
  }

  // ---- masks ----

  /** The mask of the encoder, told in columns x and rows y, inverts where the condition of table 10 holds. */
  lemma MaskConditionsAgree(msk: int, c: Cell)
    requires IsMask(msk)
    ensures Invert(msk, c.x, c.y) <==> MaskCondition(msk, c.y, c.x)
  {
    assert c.x * c.y == c.y * c.x;
  }

  // ---- check bits ----

  predicate IsGenerator(degree: nat, generator: nat) {
    degree > 0 && Pow2(degree) <= generator < Pow2(degree + 1)
  }

  lemma {:induction false} SmallRemainder(data: nat, n: nat, degree: nat, generator: nat)
    requires n <= degree && data < Pow2(n)
    ensures Remainder(data, n, degree, generator) == data
  {
    if n > 0 {
      SmallRemainder(data / 2, n - 1, degree, generator);
      PowGrows(n, degree);
    }
  }

  lemma {:induction false} PowGrows(m: nat, n: nat)
    requires m <= n
    ensures Pow2(m) <= Pow2(n)
    decreases n
  {
    if m < n {
      PowGrows(m, n - 1);
    }
  }

  lemma PowDouble(n: nat)
    requires n > 0
    ensures Pow2(n) == 2 * Pow2(n - 1)
  {
  }

  // One bit more of the word, after the remainder r and the low bits s.
  lemma RemainderBit(r: nat, s: nat, k: nat, degree: nat, generator: nat)
    requires IsGenerator(degree, generator) && r < Pow2(degree) && 0 < k <= degree && s < Pow2(k)
    ensures var word := 2 * Xor(r, s / 2) + s % 2;
      Xor(CheckStep(r, degree, generator), s) == if word >= Pow2(degree) then Xor(word, generator) else word
  {
    hide Xor, Shr, Pow2, CheckStep;
    PowGrows(k, degree);
    PowDouble(degree);
    XorStep(r, 0, s / 2, s % 2);
    if r < Pow2(degree - 1) {
      NothingSubtracted(r, degree, generator);
      XorBound(2 * r, s, degree);
    } else {
      GeneratorSubtracted(r, degree, generator);
      TopBitStays(2 * r, s, degree);
      XorAssoc(2 * r, s, generator);
      XorComm(s, generator);
      XorAssoc(2 * r, generator, s);
    }
  }

  lemma NothingSubtracted(r: nat, degree: nat, generator: nat)
    requires degree > 0 && r < Pow2(degree - 1)
    ensures CheckStep(r, degree, generator) == 2 * r
  {
    hide Xor, Shr, Pow2;
    PowDouble(degree);
    ShlAtMostOnce(r, degree - 1);
    XorZero(2 * r);
  }

  lemma GeneratorSubtracted(r: nat, degree: nat, generator: nat)
    requires degree > 0 && Pow2(degree - 1) <= r < Pow2(degree)
    ensures CheckStep(r, degree, generator) == Xor(2 * r, generator)
  {
    hide Xor, Shr, Pow2;
    ShlAtMostOnce(r, degree - 1);
  }

  lemma TopBitStays(x: nat, s: nat, degree: nat)
    requires Pow2(degree) <= x < 2 * Pow2(degree) && s < Pow2(degree)
    ensures Xor(x, s) >= Pow2(degree)
  {
    hide Xor, Pow2, Shl;
    ShlIsTimes(1, degree);
    ShlIsTimes(0, degree);
    XorSplit(1, x - Pow2(degree), 0, s, degree);
    XorZero(1);
  }

  /** Data above k low bits. */
  function WithLow(data: nat, k: nat, s: nat): nat {
    data * Pow2(k) + s
  }

  lemma {:induction false} RemainderOfWord(data: nat, n: nat, s: nat, k: nat, degree: nat, generator: nat)
    requires IsGenerator(degree, generator) && n <= degree && data < Pow2(n) && k <= degree && s < Pow2(k)
    ensures Remainder(WithLow(data, k, s), n + k, degree, generator) == Xor(CheckBits(data, k, degree, generator), s)
    decreases k
  {
    hide Xor, CheckStep, IsGenerator, Pow2, Remainder, CheckBits, WithLow;
    IsGeneratorMeans(degree, generator);
    CheckUnfold(data, k, degree, generator);
    if k == 0 {
      NoLowBits(data, s);
      SmallRemainder(data, n, degree, generator);
    } else {
      HalfBound(s, k);
      DataShift(data, k, s);
      RemainderOfWord(data, n, s / 2, k - 1, degree, generator);
      PowGrows(n, degree);
      CheckBitsBound(data, k - 1, degree, generator);
      RemainderBit(CheckBits(data, k - 1, degree, generator), s, k, degree, generator);
      RemainderUnfold(WithLow(data, k, s), n + k, degree, generator);
    }
  }

  lemma CheckUnfold(data: nat, k: nat, degree: nat, generator: nat)
    requires degree > 0
    ensures CheckBits(data, k, degree, generator) ==
            if k == 0 then data else CheckStep(CheckBits(data, k - 1, degree, generator), degree, generator)
  {
    hide CheckStep;
  }

  lemma NoLowBits(data: nat, s: nat)
    requires s < Pow2(0)
    ensures WithLow(data, 0, s) == data && Xor(data, s) == data
  {
    XorZero(data);
  }

  lemma DataShift(data: nat, k: nat, s: nat)
    requires k > 0
    ensures WithLow(data, k, s) / 2 == WithLow(data, k - 1, s / 2) && WithLow(data, k, s) % 2 == s % 2
  {
    assert data * Pow2(k) == 2 * (data * Pow2(k - 1));
  }

  lemma RemainderUnfold(w: nat, n: nat, degree: nat, generator: nat)
    requires n > 0
    ensures var r := 2 * Remainder(w / 2, n - 1, degree, generator) + w % 2;
      Remainder(w, n, degree, generator) == if r >= Pow2(degree) then Xor(r, generator) else r
  {
    hide Xor, Pow2;
  }

  lemma IsGeneratorMeans(degree: nat, generator: nat)
    requires IsGenerator(degree, generator)
    ensures degree > 0 && Pow2(degree) <= generator < Pow2(degree + 1)
  {
  }

  /** Data followed by their check bits are a multiple of the generator. */
  lemma CheckedWord(data: nat, n: nat, degree: nat, generator: nat)
    requires IsGenerator(degree, generator) && n <= degree && data < Pow2(n)
    ensures var rem := CheckBits(data, degree, degree, generator);
      rem < Pow2(degree) && Remainder(data * Pow2(degree) + rem, n + degree, degree, generator) == 0
  {
    hide Remainder, CheckBits;
    PowGrows(n, degree);
    CheckBitsBound(data, degree, degree, generator);
    var rem := CheckBits(data, degree, degree, generator);
    RemainderOfWord(data, n, rem, degree, degree, generator);
    XorSelf(rem);
  }

  lemma GeneratorPowers()
    ensures Pow2(5) == 32 && Pow2(6) == 64 && Pow2(10) == 0x400 && Pow2(11) == 0x800
    ensures Pow2(12) == 0x1000 && Pow2(13) == 0x2000
  {
  }

  /** The format bits are a word of the standard, which tells level and mask. */
  lemma FormatBitsAgree(ecl: Ecl, msk: int)
    requires IsMask(msk)
    ensures FormatOf(FormatBits(ecl, msk)) == Some(8 * LevelBits(ecl) + msk)
    ensures LevelOf(LevelBits(ecl)) == ecl
  {
    hide Xor, CheckBits, Or, Shl, Pow2, Remainder;
    GeneratorPowers();
    var data := Or(Shl(LevelBits(ecl), 3), msk);
    FormatPowers();
    OrDisjoint(LevelBits(ecl), msk, 3);
    ShlIsTimes(LevelBits(ecl), 3);
    var rem := CheckBits(data, 10, 10, FORMAT_GENERATOR);
    CheckedWord(data, 5, 10, FORMAT_GENERATOR);
    OrDisjoint(data, rem, 10);
    ShlIsTimes(data, 10);
    XorCancel(Or(Shl(data, 10), rem), FORMAT_PATTERN);
  }

  /** The version bits are a word of the standard. */
  lemma VersionBitsAgree(ver: int)
    requires IsVersion(ver)
    ensures VersionBits(ver) < 0x4_0000 && VersionOf(VersionBits(ver)) == Some(ver)
  {
    hide Xor, CheckBits, Or, Shl, Pow2, Remainder;
    GeneratorPowers();
    var rem := CheckBits(ver, 12, 12, VERSION_GENERATOR);
    CheckedWord(ver, 6, 12, VERSION_GENERATOR);
    OrDisjoint(ver, rem, 12);
    ShlIsTimes(ver, 12);
  }
}
