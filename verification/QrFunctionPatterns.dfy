/** The function patterns of the finished symbol. */
module QrFunctionPatterns {
  // What a scanner looks for: finder, timing and alignment patterns and the dark module, as pictured in sections 6.3.3
  // to 6.3.6 and 7.9 of ISO/IEC 18004:2015.

  import opened Bits
  import opened QrTables
  import opened QrZigzag
  import opened QrStandard
  import opened QrPatterns
  import opened QrFormat
  import opened QrAgreement
  import opened QrPicture
  import opened QrReader

  /** A finder pattern with the separator below and to the right of it. */
  const FINDER: seq<string> := [
    "####### ",
    "#     # ",
    "# ### # ",
    "# ### # ",
    "# ### # ",
    "#     # ",
    "####### ",
    "        "
  ]

  const ALIGNMENT: seq<string> := [
    "#####",
    "#   #",
    "# # #",
    "#   #",
    "#####"
  ]

  lemma FinderPicture(i: nat, j: nat)
    requires i < 8 && j < 8
    ensures |FINDER| == 8 && |FINDER[i]| == 8
    ensures FINDER[i][j] == '#' <==> var d := Distance(Cell(j, i), 3, 3); d != 2 && d != 4
  {
    match i {
      case 0 =>
      case 1 =>
      case 2 =>
      case 3 =>
      case 4 =>
      case 5 =>
      case 6 =>
      case _ =>
    }
  }

  lemma AlignmentPicture(i: nat, j: nat)
    requires i < 5 && j < 5
    ensures |ALIGNMENT| == 5 && |ALIGNMENT[i]| == 5
    ensures ALIGNMENT[i][j] == '#' <==> Distance(Cell(j, i), 2, 2) != 1
  {
    match i {
      case 0 =>
      case 1 =>
      case 2 =>
      case 3 =>
      case _ =>
    }
  }

  /** The three finder patterns show in the finished symbol, each with its separator towards the middle. */
  lemma FindersAreDrawn(ver: int, ecl: Ecl, codewords: seq<Byte>, msk: int, i: nat, j: nat)
    requires IsVersion(ver) && IsMask(msk) && i < 8 && j < 8
    ensures |FINDER| == 8 && |FINDER[i]| == 8 && SizeOf(ver) == Side(ver)
    ensures var g, n, dark := Candidate(ver, ecl, codewords, msk), Side(ver), FINDER[i][j] == '#';
      && At(g, n, Cell(j, i)) == dark
      && At(g, n, Cell(n - 1 - j, i)) == dark
      && At(g, n, Cell(j, n - 1 - i)) == dark
  {
    hide Candidate, At;
    SidesAgree(ver);
    FinderPicture(i, j);
    var n := SizeOf(ver);
    forall c <- {Cell(j, i), Cell(n - 1 - j, i), Cell(j, n - 1 - i)}
      ensures At(Candidate(ver, ecl, codewords, msk), n, c) == FinderDark(n, c)
    {
      FinderIsPattern(ver, ecl, c);
      PatternShows(ver, ecl, codewords, msk, c);
    }
    FinderMirrored(n, i, j);
  }

  lemma FinderMirrored(n: int, i: nat, j: nat)
    requires n >= 21 && i < 8 && j < 8
    ensures var dark := var d := Distance(Cell(j, i), 3, 3); d != 2 && d != 4;
      && FinderDark(n, Cell(j, i)) == dark && FinderDark(n, Cell(n - 1 - j, i)) == dark
      && FinderDark(n, Cell(j, n - 1 - i)) == dark
  {
  }

  lemma FinderIsPattern(ver: int, ecl: Ecl, c: Cell)
    requires IsVersion(ver) && c.x < SizeOf(ver) && c.y < SizeOf(ver) && InFinder(ver, c)
    ensures IsFunctionCell(ver, c) && !InFormat(ver, c) && PatternDark(ver, ecl, c) == FinderDark(SizeOf(ver), c)
  {
    hide FinderDark, VersionDark, FormatDark, AlignDark;
    if InAlignment(ver, c) {
      hide InVersion, InFormat;
      var i, j :| InBlock(ver, i, j, c);
      AlignPosBounds(ver, i);
      AlignPosBounds(ver, j);
    }
  }

  /** Row 6 and column 6 alternate between the finder patterns, dark at even places, through alignment patterns too. */
  lemma TimingIsDrawn(ver: int, ecl: Ecl, codewords: seq<Byte>, msk: int, k: nat)
    requires IsVersion(ver) && IsMask(msk) && 8 <= k <= Side(ver) - 9
    ensures SizeOf(ver) == Side(ver)
    ensures var g, n := Candidate(ver, ecl, codewords, msk), Side(ver);
      At(g, n, Cell(k, 6)) == (k % 2 == 0) && At(g, n, Cell(6, k)) == (k % 2 == 0)
  {
    hide Candidate, At;
    SidesAgree(ver);
    TimingIsPattern(ver, ecl, k);
    hide InFormat, IsFunctionCell, PatternDark;
    PatternShows(ver, ecl, codewords, msk, Cell(k, 6));
    PatternShows(ver, ecl, codewords, msk, Cell(6, k));
  }

  lemma TimingIsPattern(ver: int, ecl: Ecl, k: nat)
    requires IsVersion(ver) && 8 <= k <= SizeOf(ver) - 9
    ensures forall c <- {Cell(k, 6), Cell(6, k)} ::
      IsFunctionCell(ver, c) && !InFormat(ver, c) && PatternDark(ver, ecl, c) == (k % 2 == 0)
  {
    hide VersionDark, FormatDark, AlignDark, InAlignment;
    forall c <- {Cell(k, 6), Cell(6, k)} ensures InAlignment(ver, c) ==> (AlignDark(ver, c) <==> k % 2 == 0) {
      if InAlignment(ver, c) {
        AlignmentOnTiming(ver, c);
      }
    }
  }

  /** An alignment pattern on a timing line continues it: its coordinates are even. */
  lemma AlignmentOnTiming(ver: int, c: Cell)
    requires IsVersion(ver) && InAlignment(ver, c) && (c.x == 6 || c.y == 6)
    ensures AlignDark(ver, c) <==> (c.x + c.y) % 2 == 0
  {
    hide AlignPos, NumAlign, AlignDark, Distance;
    var i, j :| InBlock(ver, i, j, c);
    AlignDarkIs(ver, i, j);
    AlignPosBounds(ver, i);
    AlignPosBounds(ver, j);
    PositionIsEven(ver, i);
    PositionIsEven(ver, j);
    OnLine(c, AlignPos(ver, i), AlignPos(ver, j));
  }

  lemma OnLine(c: Cell, x: int, y: int)
    requires x % 2 == 0 && y % 2 == 0 && Distance(c, x, y) <= 2
    requires (c.x == 6 && (x == 6 || x >= 18)) || (c.y == 6 && (y == 6 || y >= 18))
    ensures Distance(c, x, y) != 1 <==> (c.x + c.y) % 2 == 0
  {
  }

  lemma {:induction false} PositionIsEven(ver: int, i: int)
    requires 2 <= ver <= MAX_VERSION && 0 <= i < NumAlign(ver)
    ensures AlignPos(ver, i) % 2 == 0
    decreases NumAlign(ver) - i
  {
    if 0 < i < NumAlign(ver) - 1 {
      PositionIsEven(ver, i + 1);
      StepIsEven(ver);
    }
  }

  lemma StepIsEven(ver: int)
    requires 2 <= ver <= MAX_VERSION
    ensures AlignStep(ver) % 2 == 0
  {
  }

  /** An alignment pattern shows at each centre that table E.1 gives. */
  lemma AlignmentIsDrawn(ver: int, ecl: Ecl, codewords: seq<Byte>, msk: int, p: int, q: int, i: nat, j: nat)
    requires IsVersion(ver) && IsMask(msk) && IsCentre(ver, p, q) && i < 5 && j < 5
    ensures |ALIGNMENT| == 5 && |ALIGNMENT[i]| == 5 && SizeOf(ver) == Side(ver)
    ensures 2 <= p < Side(ver) - 2 && 2 <= q < Side(ver) - 2
    ensures At(Candidate(ver, ecl, codewords, msk), Side(ver), Cell(q - 2 + j, p - 2 + i)) <==> ALIGNMENT[i][j] == '#'
  {
    hide Candidate, At, RowOf, AlignPos, NumAlign, AlignDark;
    SidesAgree(ver);
    AlignmentPicture(i, j);
    CoordinatesAgree(ver, p);
    CoordinatesAgree(ver, q);
    var l :| 0 <= l < NumAlign(ver) && AlignPos(ver, l) == p;
    var k :| 0 <= k < NumAlign(ver) && AlignPos(ver, k) == q;
    CentreOfPositions(ver, k, l);
    AlignPosBounds(ver, k);
    AlignPosBounds(ver, l);
    AlignDarkIs(ver, k, l);
    var c := Cell(q - 2 + j, p - 2 + i);
    assert InBlock(ver, k, l, c);
    AlignmentIsPattern(ver, ecl, c, k, l);
    hide InFormat, IsFunctionCell, PatternDark;
    PatternShows(ver, ecl, codewords, msk, c);
  }

  lemma AlignmentIsPattern(ver: int, ecl: Ecl, c: Cell, k: int, l: int)
    requires IsVersion(ver) && InBlock(ver, k, l, c)
    ensures IsFunctionCell(ver, c) && !InFormat(ver, c) && PatternDark(ver, ecl, c) == AlignDark(ver, c)
  {
    hide AlignDark, VersionDark, FormatDark, AlignPos, NumAlign;
    AlignPosBounds(ver, k);
    AlignPosBounds(ver, l);
  }

  /** The module above the lower left format information is dark. */
  lemma DarkModuleIsDrawn(ver: int, ecl: Ecl, codewords: seq<Byte>, msk: int)
    requires IsVersion(ver) && IsMask(msk)
    ensures SizeOf(ver) == Side(ver) && At(Candidate(ver, ecl, codewords, msk), Side(ver), Cell(8, Side(ver) - 8))
  {
    hide BaseGrid, Masked, FormatBits;
    SidesAgree(ver);
  }
}
