/** The finished symbol: function patterns, placed codewords, mask and format information. */
module QrPicture {
  // ISO/IEC 18004:2015, section 6.3 and sections 7.7 to 7.9.

  import opened Bits
  import opened QrSegments
  import opened QrTables
  import opened QrZigzag
  import opened QrPatterns
  import opened QrCapacity
  import opened QrFormat

  /** `after` is `before` with the cells of the region painted. */
  ghost predicate Painted(before: Grid, after: Grid, size: nat, region: Cell -> bool, dark: Cell -> bool) {
    && IsSquare(before, size) && IsSquare(after, size)
    && forall c: Cell :: c.x < size && c.y < size ==>
      At(after, size, c) == if region(c) then dark(c) else At(before, size, c)
  }

  predicate FinderDark(size: int, c: Cell) {
    var d := if c.x <= 7 && c.y <= 7 then Distance(c, 3, 3)
             else if c.x > 7 then Distance(c, size - 4, 3)
             else Distance(c, 3, size - 4);
    d != 2 && d != 4
  }

  ghost predicate AlignDark(ver: int, c: Cell)
    requires IsVersion(ver)
  {
    exists i, j :: InBlock(ver, i, j, c) && Distance(c, AlignPos(ver, i), AlignPos(ver, j)) != 1
  }

  predicate TimingDark(c: Cell) {
    if c.x == 6 then c.y % 2 == 0 else c.x % 2 == 0
  }

  /** The color of a function module, with the format information of mask 0. */
  ghost predicate PatternDark(ver: int, ecl: Ecl, c: Cell)
    requires IsVersion(ver)
  {
    if InVersion(ver, c) then VersionDark(ver, c)
    else if InFormat(ver, c) then FormatDark(SizeOf(ver), FormatBits(ecl, 0), c)
    else if InAlignment(ver, c) then AlignDark(ver, c)
    else if InFinder(ver, c) then FinderDark(SizeOf(ver), c)
    else TimingDark(c)
  }

  // The three squares of radius 4, clipped to the symbol, are the finder patterns.
  lemma FinderRegions(ver: int)
    requires IsVersion(ver)
    ensures var n := SizeOf(ver);
      forall c: Cell :: c.x < n && c.y < n ==>
        var d1, d2, d3 := Distance(c, 3, 3), Distance(c, n - 4, 3), Distance(c, 3, n - 4);
        && (InFinder(ver, c) <==> d1 <= 4 || d2 <= 4 || d3 <= 4)
        && (d3 <= 4 ==> (FinderDark(n, c) <==> d3 != 2 && d3 != 4))
        && (d2 <= 4 ==> d3 > 4 && (FinderDark(n, c) <==> d2 != 2 && d2 != 4))
        && (d1 <= 4 ==> d2 > 4 && d3 > 4 && (FinderDark(n, c) <==> d1 != 2 && d1 != 4))
  {
  }

  predicate InFormat1(c: Cell) {
    (c.x == 8 && (c.y <= 5 || c.y == 7 || c.y == 8)) || (c.y == 8 && (c.x <= 5 || c.x == 7))
  }

  predicate InFormat2(size: int, c: Cell) {
    (c.x == 8 && size - 8 <= c.y) || (c.y == 8 && size - 8 <= c.x)
  }

  /** The alignment patterns drawn before (i, j). */
  ghost predicate BlocksBefore(ver: int, i: int, j: int, c: Cell)
    requires IsVersion(ver)
  {
    exists k, l :: (k < i || (k == i && l < j)) && InBlock(ver, k, l, c)
  }

  lemma BlocksBeforeNothing(ver: int)
    requires IsVersion(ver)
    ensures forall c :: !BlocksBefore(ver, 0, 0, c)
  {
    hide AlignPos, Distance;
  }

  lemma BlocksBeforeNext(ver: int, i: int, j: int)
    requires IsVersion(ver)
    ensures forall c :: BlocksBefore(ver, i, j + 1, c) <==> BlocksBefore(ver, i, j, c) || InBlock(ver, i, j, c)
  {
    hide InBlock;
  }

  lemma BlocksBeforeRow(ver: int, i: int)
    requires IsVersion(ver)
    ensures forall c :: BlocksBefore(ver, i + 1, 0, c) <==> BlocksBefore(ver, i, NumAlign(ver), c)
  {
    hide AlignPos, Distance, NumAlign;
  }

  lemma BlocksBeforeAll(ver: int)
    requires IsVersion(ver)
    ensures forall c :: BlocksBefore(ver, NumAlign(ver), 0, c) <==> InAlignment(ver, c)
  {
    hide AlignPos, Distance, NumAlign;
  }

  lemma PositionFits(ver: int, i: int)
    requires IsVersion(ver) && 0 <= i < NumAlign(ver)
    ensures 2 <= AlignPos(ver, i) < SizeOf(ver) - 2
  {
    AlignPosBounds(ver, i);
  }

  // Within one alignment pattern, the color depends on that pattern only.
  lemma AlignDarkIs(ver: int, i: int, j: int)
    requires IsVersion(ver) && HasAlignment(ver, i, j)
    ensures forall c :: InBlock(ver, i, j, c) <==> Distance(c, AlignPos(ver, i), AlignPos(ver, j)) <= 2
    ensures forall c :: InBlock(ver, i, j, c) ==>
      (AlignDark(ver, c) <==> Distance(c, AlignPos(ver, i), AlignPos(ver, j)) != 1)
  {
    assert ver >= 2;
    hide AlignPos, NumAlign, Distance;
    forall c | InBlock(ver, i, j, c)
      ensures AlignDark(ver, c) <==> Distance(c, AlignPos(ver, i), AlignPos(ver, j)) != 1
    {
      if AlignDark(ver, c) {
        var k, l :| InBlock(ver, k, l, c) && Distance(c, AlignPos(ver, k), AlignPos(ver, l)) != 1;
        BlocksApart(ver, i, j, k, l, c);
      }
    }
  }

  // ---- the grids ----

  /** The function modules of a version. */
  ghost function FunctionGrid(ver: int): (f: Grid)
    requires IsVersion(ver)
    ensures MarksFunctionCells(f, ver)
  {
    seq(SizeOf(ver), y requires 0 <= y < SizeOf(ver) =>
      seq(SizeOf(ver), x requires 0 <= x < SizeOf(ver) => IsFunctionCell(ver, Cell(x, y))))
  }

  /** The function patterns alone, everything else light. */
  ghost function PatternGrid(ver: int, ecl: Ecl): (g: Grid)
    requires IsVersion(ver)
    ensures IsSquare(g, SizeOf(ver))
    ensures forall c: Cell :: c.x < SizeOf(ver) && c.y < SizeOf(ver) ==>
      At(g, SizeOf(ver), c) == (IsFunctionCell(ver, c) && PatternDark(ver, ecl, c))
  {
    seq(SizeOf(ver), y requires 0 <= y < SizeOf(ver) =>
      seq(SizeOf(ver), x requires 0 <= x < SizeOf(ver) =>
        IsFunctionCell(ver, Cell(x, y)) && PatternDark(ver, ecl, Cell(x, y))))
  }

  /** The order in which the cells of a symbol are scanned. */
  function ScanOf(ver: int): (cells: seq<Cell>)
    requires IsVersion(ver)
    ensures InRange(cells, SizeOf(ver)) && NoRepeats(cells)
  {
    ScanColumns(SizeOf(ver), NumPairs(SizeOf(ver)));
    ScanNoRepeats(SizeOf(ver), NumPairs(SizeOf(ver)));
    Scan(SizeOf(ver), NumPairs(SizeOf(ver)))
  }

  /** The symbol before masking. */
  ghost function BaseGrid(ver: int, ecl: Ecl, codewords: seq<Byte>): (g: Grid)
    requires IsVersion(ver)
    ensures IsSquare(g, SizeOf(ver))
  {
    Place(PatternGrid(ver, ecl), FunctionGrid(ver), SizeOf(ver), ScanOf(ver), ByteBits(codewords)).grid
  }

  /** The grid with the format information of a mask. */
  function WithFormat(g: Grid, ver: int, ecl: Ecl, msk: int): (h: Grid)
    requires IsVersion(ver) && IsSquare(g, SizeOf(ver)) && IsMask(msk)
    ensures IsSquare(h, SizeOf(ver))
    ensures forall c: Cell :: c.x < SizeOf(ver) && c.y < SizeOf(ver) ==>
      At(h, SizeOf(ver), c)
        == if InFormat(ver, c) then FormatDark(SizeOf(ver), FormatBits(ecl, msk), c) else At(g, SizeOf(ver), c)
  {
    seq(SizeOf(ver), y requires 0 <= y < SizeOf(ver) =>
      seq(SizeOf(ver), x requires 0 <= x < SizeOf(ver) =>
        if InFormat(ver, Cell(x, y)) then FormatDark(SizeOf(ver), FormatBits(ecl, msk), Cell(x, y))
        else At(g, SizeOf(ver), Cell(x, y))))
  }

  /** The symbol with a mask applied and that mask's format information. */
  ghost function Candidate(ver: int, ecl: Ecl, codewords: seq<Byte>, msk: int): (g: Grid)
    requires IsVersion(ver) && IsMask(msk)
    ensures IsSquare(g, SizeOf(ver))
  {
    WithFormat(Masked(BaseGrid(ver, ecl, codewords), FunctionGrid(ver), SizeOf(ver), msk), ver, ecl, msk)
  }

  /** Format information drawn earlier does not show in the masked symbol. */
  lemma MaskOverFormat(g: Grid, ver: int, ecl: Ecl, earlier: int, msk: int)
    requires IsVersion(ver) && IsSquare(g, SizeOf(ver)) && IsMask(earlier) && IsMask(msk)
    ensures var f := FunctionGrid(ver);
      WithFormat(Masked(WithFormat(g, ver, ecl, earlier), f, SizeOf(ver), msk), ver, ecl, msk)
      == WithFormat(Masked(g, f, SizeOf(ver), msk), ver, ecl, msk)
  {
    var n, f := SizeOf(ver), FunctionGrid(ver);
    var a := WithFormat(Masked(WithFormat(g, ver, ecl, earlier), f, n, msk), ver, ecl, msk);
    var b := WithFormat(Masked(g, f, n, msk), ver, ecl, msk);
    hide FormatDark, FormatBits, Invert, IsSquare, At, FunctionGrid, InFormat, WithFormat, Masked;
    SameGrid(a, b, n);
  }

  /** Applying the mask again leaves the symbol unmasked, with that mask's format information:
      format cells are function modules, which no mask touches. */
  lemma UnmaskUnderFormat(g: Grid, ver: int, ecl: Ecl, msk: int)
    requires IsVersion(ver) && IsSquare(g, SizeOf(ver)) && IsMask(msk)
    ensures var f := FunctionGrid(ver);
      Masked(WithFormat(Masked(g, f, SizeOf(ver), msk), ver, ecl, msk), f, SizeOf(ver), msk)
      == WithFormat(g, ver, ecl, msk)
  {
    var n, f := SizeOf(ver), FunctionGrid(ver);
    var a, b := Masked(WithFormat(Masked(g, f, n, msk), ver, ecl, msk), f, n, msk), WithFormat(g, ver, ecl, msk);
    FormatIsFunction(ver);
    hide FormatDark, FormatBits, Invert, IsSquare, At, FunctionGrid, InFormat, WithFormat, Masked, IsFunctionCell;
    SameGrid(a, b, n);
  }

  lemma FormatIsFunction(ver: int)
    requires IsVersion(ver)
    ensures forall c: Cell :: InFormat(ver, c) ==> IsFunctionCell(ver, c)
  {
  }

  // The patterns are drawn with the format information of mask 0.
  lemma BaseHasFormat0(ver: int, ecl: Ecl, codewords: seq<Byte>)
    requires IsVersion(ver)
    ensures WithFormat(BaseGrid(ver, ecl, codewords), ver, ecl, 0) == BaseGrid(ver, ecl, codewords)
  {
    var n, f, g, bits := SizeOf(ver), FunctionGrid(ver), BaseGrid(ver, ecl, codewords), ByteBits(codewords);
    var cells := ScanOf(ver);
    FormatIsFunction(ver);
    hide FormatDark, FormatBits, IsSquare, At, FunctionGrid, WithFormat, IsFunctionCell, Place, ScanOf;
    hide InAlignment, InRange, NoRepeats;
    forall c: Cell | c.x < n && c.y < n && InFormat(ver, c)
      ensures At(g, n, c) == FormatDark(n, FormatBits(ecl, 0), c)
    {
      PlaceChangesFreeCellsOnly(PatternGrid(ver, ecl), f, n, cells, bits, c);
      FormatMissesVersion(ver, c);
    }
    SameGrid(WithFormat(g, ver, ecl, 0), g, n);
  }

  lemma FormatMissesVersion(ver: int, c: Cell)
    requires IsVersion(ver) && InFormat(ver, c)
    ensures !InVersion(ver, c)
  {
  }
}
