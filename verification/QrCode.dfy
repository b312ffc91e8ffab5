/** The class that draws a symbol, places the codewords, tries the masks and keeps the best one. */
module QrCodes {
  import opened Outcomes
  import opened Bits
  import opened QrBlocks
  import opened QrBitBuffer
  import opened QrSegments
  import opened QrSegmentReader
  import opened QrEncode
  import opened QrTables
  import opened QrTableChecks
  import opened QrZigzag
  import opened QrStandard
  import opened QrPatterns
  import opened QrCapacity
  import opened QrFormat
  import opened QrPicture
  import opened QrReader

  /** The cells of row dy around (x, y) up to column dx are those before it, and the one at it. */
  lemma NextOfRow(x: int, y: int, dx: int, dy: int, radius: int)
    requires -radius <= dx <= radius && -radius <= dy <= radius
    ensures forall c: Cell ::
      Distance(c, x, y) <= radius && c.y - y == dy && c.x - x < dx + 1
      <==> (Distance(c, x, y) <= radius && c.y - y == dy && c.x - x < dx) || (c.x == x + dx && c.y == y + dy)
    ensures forall c: Cell :: c.x == x + dx && c.y == y + dy ==>
      Distance(c, x, y) == if Abs(dx) < Abs(dy) then Abs(dy) else Abs(dx)
  {
  }

  /** A QR code under construction. */
  class QrCode {
    var version: int
    var errorCorrectionLevel: Ecl
    var size: nat
    var mask: int
    var modules: Grid
    var isFunction: Grid

    ghost predicate Shape()
      reads this
    {
      IsVersion(version) && size == SizeOf(version) && IsSquare(modules, size) && IsSquare(isFunction, size)
    }

    constructor (ver: int, ecl: Ecl)
      requires IsVersion(ver)
      ensures Shape() && version == ver && errorCorrectionLevel == ecl
      ensures forall c: Cell :: c.x < size && c.y < size ==> !At(modules, size, c) && !At(isFunction, size, c)
    {
      version, errorCorrectionLevel := ver, ecl;
      size := ver * 4 + 17;
      mask := -1;
      var n: nat := ver * 4 + 17;
      modules := seq(n, _ => seq(n, _ => false));
      isFunction := seq(n, _ => seq(n, _ => false));
    }

    method SetFunctionModule(x: int, y: int, isDark: bool)
      requires Shape() && 0 <= x < size && 0 <= y < size
      modifies this`modules, this`isFunction
      ensures Shape()
      ensures Painted(old(modules), modules, size, (c: Cell) => c == Cell(x, y), _ => isDark)
      ensures Painted(old(isFunction), isFunction, size, (c: Cell) => c == Cell(x, y), _ => true)
    {
      modules := Put(modules, size, Cell(x, y), isDark);
      isFunction := Put(isFunction, size, Cell(x, y), true);
    }

    method DrawTiming()
      requires Shape()
      modifies this`modules, this`isFunction
      ensures Shape()
      ensures Painted(old(modules), modules, size, (c: Cell) => InTiming(c), (c: Cell) => TimingDark(c))
      ensures Painted(old(isFunction), isFunction, size, (c: Cell) => InTiming(c), _ => true)
    {
      hide At, IsSquare;
      for i := 0 to size
        invariant Shape()
        invariant Painted(old(modules), modules, size,
          (c: Cell) => (c.x == 6 && c.y < i) || (c.y == 6 && c.x < i), (c: Cell) => TimingDark(c))
        invariant Painted(old(isFunction), isFunction, size,
          (c: Cell) => (c.x == 6 && c.y < i) || (c.y == 6 && c.x < i), _ => true)
      {
        SetFunctionModule(6, i, i % 2 == 0);
        SetFunctionModule(i, 6, i % 2 == 0);
      }
    }

    // One row of the loops of DrawFinderPattern.
    method DrawFinderRow(x: int, y: int, dy: int)
      requires Shape() && -4 <= dy <= 4
      modifies this`modules, this`isFunction
      ensures Shape()
      ensures Painted(old(modules), modules, size,
        (c: Cell) => Distance(c, x, y) <= 4 && c.y - y == dy,
        (c: Cell) => Distance(c, x, y) != 2 && Distance(c, x, y) != 4)
      ensures Painted(old(isFunction), isFunction, size,
        (c: Cell) => Distance(c, x, y) <= 4 && c.y - y == dy, _ => true)
    {
      hide At, IsSquare;
      for dx := -4 to 5
        invariant Shape()
        invariant Painted(old(modules), modules, size,
          (c: Cell) => Distance(c, x, y) <= 4 && c.y - y == dy && c.x - x < dx,
          (c: Cell) => Distance(c, x, y) != 2 && Distance(c, x, y) != 4)
        invariant Painted(old(isFunction), isFunction, size,
          (c: Cell) => Distance(c, x, y) <= 4 && c.y - y == dy && c.x - x < dx, _ => true)
      {
        NextOfRow(x, y, dx, dy, 4);
        hide Distance;
        var dist := if Abs(dx) < Abs(dy) then Abs(dy) else Abs(dx);
        DrawInside(x + dx, y + dy, dist != 2 && dist != 4);
      }
    }

    // A module that may be outside the symbol.
    method DrawInside(xx: int, yy: int, isDark: bool)
      requires Shape()
      modifies this`modules, this`isFunction
      ensures Shape()
      ensures Painted(old(modules), modules, size, (c: Cell) => c.x == xx && c.y == yy, _ => isDark)
      ensures Painted(old(isFunction), isFunction, size, (c: Cell) => c.x == xx && c.y == yy, _ => true)
    {
      if 0 <= xx < size && 0 <= yy < size {
        SetFunctionModule(xx, yy, isDark);
      }
    }

    method DrawFinderPattern(x: int, y: int)
      requires Shape()
      modifies this`modules, this`isFunction
      ensures Shape()
      ensures Painted(old(modules), modules, size,
        (c: Cell) => Distance(c, x, y) <= 4, (c: Cell) => Distance(c, x, y) != 2 && Distance(c, x, y) != 4)
      ensures Painted(old(isFunction), isFunction, size, (c: Cell) => Distance(c, x, y) <= 4, _ => true)
    {
      hide At, IsSquare;
      for dy := -4 to 5
        invariant Shape()
        invariant Painted(old(modules), modules, size,
          (c: Cell) => Distance(c, x, y) <= 4 && c.y - y < dy,
          (c: Cell) => Distance(c, x, y) != 2 && Distance(c, x, y) != 4)
        invariant Painted(old(isFunction), isFunction, size,
          (c: Cell) => Distance(c, x, y) <= 4 && c.y - y < dy, _ => true)
      {
        DrawFinderRow(x, y, dy);
      }
    }

    // One row of the loops of DrawAlignmentPattern.
    method DrawAlignmentRow(x: int, y: int, dy: int)
      requires Shape() && 2 <= x < size - 2 && 2 <= y < size - 2 && -2 <= dy <= 2
      modifies this`modules, this`isFunction
      ensures Shape()
      ensures Painted(old(modules), modules, size,
        (c: Cell) => Distance(c, x, y) <= 2 && c.y - y == dy, (c: Cell) => Distance(c, x, y) != 1)
      ensures Painted(old(isFunction), isFunction, size,
        (c: Cell) => Distance(c, x, y) <= 2 && c.y - y == dy, _ => true)
    {
      hide At, IsSquare;
      for dx := -2 to 3
        invariant Shape()
        invariant Painted(old(modules), modules, size,
          (c: Cell) => Distance(c, x, y) <= 2 && c.y - y == dy && c.x - x < dx, (c: Cell) => Distance(c, x, y) != 1)
        invariant Painted(old(isFunction), isFunction, size,
          (c: Cell) => Distance(c, x, y) <= 2 && c.y - y == dy && c.x - x < dx, _ => true)
      {
        NextOfRow(x, y, dx, dy, 2);
        hide Distance;
        SetFunctionModule(x + dx, y + dy, (if Abs(dx) < Abs(dy) then Abs(dy) else Abs(dx)) != 1);
      }
    }

    method DrawAlignmentPattern(x: int, y: int)
      requires Shape() && 2 <= x < size - 2 && 2 <= y < size - 2
      modifies this`modules, this`isFunction
      ensures Shape()
      ensures Painted(old(modules), modules, size,
        (c: Cell) => Distance(c, x, y) <= 2, (c: Cell) => Distance(c, x, y) != 1)
      ensures Painted(old(isFunction), isFunction, size, (c: Cell) => Distance(c, x, y) <= 2, _ => true)
    {
      hide At, IsSquare;
      for dy := -2 to 3
        invariant Shape()
        invariant Painted(old(modules), modules, size,
          (c: Cell) => Distance(c, x, y) <= 2 && c.y - y < dy, (c: Cell) => Distance(c, x, y) != 1)
        invariant Painted(old(isFunction), isFunction, size,
          (c: Cell) => Distance(c, x, y) <= 2 && c.y - y < dy, _ => true)
      {
        DrawAlignmentRow(x, y, dy);
      }
    }

    /** The positions of the alignment patterns, in ascending order. */
    method GetAlignmentPatternPositions() returns (result: seq<int>)
      requires IsVersion(version) && size == SizeOf(version)
      ensures |result| == NumAlign(version)
      ensures forall i :: 0 <= i < |result| ==> result[i] == AlignPos(version, i)
    {
      if version == 1 {
        return [];
      }
      var numAlign := version / 7 + 2;
      var step := if version == 32 then 26 else (version * 4 + numAlign * 2 + 1) / (numAlign * 2 - 2) * 2;
      result := [];
      var i, pos := 0, size - 7;
      while i < numAlign - 1
        invariant 0 <= i <= numAlign - 1 && |result| == i
        invariant forall k :: 0 <= k < i ==> result[k] == AlignPos(version, numAlign - i + k)
        invariant i < numAlign - 1 ==> pos == AlignPos(version, numAlign - 1 - i)
      {
        result := [pos] + result;
        i := i + 1;
        pos := pos - step;
      }
      result := [6] + result;
    }

    // Alignment pattern (i, j), unless it is one of the three finder corners.
    method DrawAlignmentAt(i: int, j: int, alignPatPos: seq<int>)
      requires Shape() && |alignPatPos| == NumAlign(version) && 0 <= i < |alignPatPos| && 0 <= j < |alignPatPos|
      requires forall k :: 0 <= k < |alignPatPos| ==> alignPatPos[k] == AlignPos(version, k)
      modifies this`modules, this`isFunction
      ensures Shape()
      ensures var ver := version;
        Painted(old(modules), modules, size, (c: Cell) => InBlock(ver, i, j, c), (c: Cell) => AlignDark(ver, c))
      ensures var ver := version;
        Painted(old(isFunction), isFunction, size, (c: Cell) => InBlock(ver, i, j, c), _ => true)
    {
      hide At, IsSquare, AlignPos, NumAlign, Distance;
      var numAlign := |alignPatPos|;
      if !((i == 0 && j == 0) || (i == 0 && j == numAlign - 1) || (i == numAlign - 1 && j == 0)) {
        PositionFits(version, i);
        PositionFits(version, j);
        DrawAlignmentPattern(alignPatPos[i], alignPatPos[j]);
        AlignDarkIs(version, i, j);
      }
    }

    method DrawAlignmentPatterns()
      requires Shape()
      modifies this`modules, this`isFunction
      ensures Shape()
      ensures var ver := version;
        Painted(old(modules), modules, size, (c: Cell) => InAlignment(ver, c), (c: Cell) => AlignDark(ver, c))
      ensures var ver := version;
        Painted(old(isFunction), isFunction, size, (c: Cell) => InAlignment(ver, c), _ => true)
    {
      ghost var ver := version;
      var alignPatPos := GetAlignmentPatternPositions();
      var numAlign := |alignPatPos|;
      BlocksBeforeNothing(ver);
      hide At, IsSquare, AlignPos, NumAlign, BlocksBefore, InAlignment, AlignDark, InBlock;
      for i := 0 to numAlign
        invariant Shape()
        invariant Painted(old(modules), modules, size,
          (c: Cell) => BlocksBefore(ver, i, 0, c), (c: Cell) => AlignDark(ver, c))
        invariant Painted(old(isFunction), isFunction, size, (c: Cell) => BlocksBefore(ver, i, 0, c), _ => true)
      {
        for j := 0 to numAlign
          invariant Shape()
          invariant Painted(old(modules), modules, size,
            (c: Cell) => BlocksBefore(ver, i, j, c), (c: Cell) => AlignDark(ver, c))
          invariant Painted(old(isFunction), isFunction, size, (c: Cell) => BlocksBefore(ver, i, j, c), _ => true)
        {
          DrawAlignmentAt(i, j, alignPatPos);
          BlocksBeforeNext(ver, i, j);
        }
        BlocksBeforeRow(ver, i);
      }
      BlocksBeforeAll(ver);
    }

    // Bits 0 to 8 of the copy around the top left finder pattern.
    method DrawFormatRight(bits: nat)
      requires Shape()
      modifies this`modules, this`isFunction
      ensures Shape()
      ensures var n := size;
        Painted(old(modules), modules, size, (c: Cell) => InFormat1(c) && c.x >= 7, (c: Cell) => FormatDark(n, bits, c))
      ensures Painted(old(isFunction), isFunction, size, (c: Cell) => InFormat1(c) && c.x >= 7, _ => true)
    {
      hide At, IsSquare, Bit;
      ghost var n := size;
      for i := 0 to 6
        invariant Shape()
        invariant Painted(old(modules), modules, size,
          (c: Cell) => c.x == 8 && c.y < i, (c: Cell) => FormatDark(n, bits, c))
        invariant Painted(old(isFunction), isFunction, size, (c: Cell) => c.x == 8 && c.y < i, _ => true)
      {
        SetFunctionModule(8, i, Bit(bits, i) != 0);
      }
      SetFunctionModule(8, 7, Bit(bits, 6) != 0);
      SetFunctionModule(8, 8, Bit(bits, 7) != 0);
      SetFunctionModule(7, 8, Bit(bits, 8) != 0);
    }

    // Bits 9 to 14 of that copy.
    method DrawFormatBottom(bits: nat)
      requires Shape()
      modifies this`modules, this`isFunction
      ensures Shape()
      ensures var n := size;
        Painted(old(modules), modules, size, (c: Cell) => c.y == 8 && c.x <= 5, (c: Cell) => FormatDark(n, bits, c))
      ensures Painted(old(isFunction), isFunction, size, (c: Cell) => c.y == 8 && c.x <= 5, _ => true)
    {
      hide At, IsSquare, Bit;
      ghost var n := size;
      for i := 9 to 15
        invariant Shape()
        invariant Painted(old(modules), modules, size,
          (c: Cell) => c.y == 8 && 14 - i < c.x <= 5, (c: Cell) => FormatDark(n, bits, c))
        invariant Painted(old(isFunction), isFunction, size, (c: Cell) => c.y == 8 && 14 - i < c.x <= 5, _ => true)
      {
        SetFunctionModule(14 - i, 8, Bit(bits, i) != 0);
      }
    }

    // The other copy, and the module that is always dark.
    method DrawFormatCopy2(bits: nat)
      requires Shape()
      modifies this`modules, this`isFunction
      ensures Shape()
      ensures var n := size;
        Painted(old(modules), modules, size, (c: Cell) => InFormat2(n, c), (c: Cell) => FormatDark(n, bits, c))
      ensures var n := size; Painted(old(isFunction), isFunction, size, (c: Cell) => InFormat2(n, c), _ => true)
    {
      hide At, IsSquare, Bit;
      DrawFormatRow(bits);
      DrawFormatColumn(bits);
      SetFunctionModule(8, size - 8, true);
    }

    method DrawFormatRow(bits: nat)
      requires Shape()
      modifies this`modules, this`isFunction
      ensures Shape()
      ensures var n := size;
        Painted(old(modules), modules, size,
          (c: Cell) => c.y == 8 && n - 8 <= c.x < n, (c: Cell) => FormatDark(n, bits, c))
      ensures var n := size;
        Painted(old(isFunction), isFunction, size, (c: Cell) => c.y == 8 && n - 8 <= c.x < n, _ => true)
    {
      hide At, IsSquare, Bit;
      ghost var n := size;
      for i := 0 to 8
        invariant Shape()
        invariant Painted(old(modules), modules, size,
          (c: Cell) => c.y == 8 && n - i <= c.x < n, (c: Cell) => FormatDark(n, bits, c))
        invariant Painted(old(isFunction), isFunction, size, (c: Cell) => c.y == 8 && n - i <= c.x < n, _ => true)
      {
        SetFunctionModule(size - 1 - i, 8, Bit(bits, i) != 0);
      }
    }

    method DrawFormatColumn(bits: nat)
      requires Shape()
      modifies this`modules, this`isFunction
      ensures Shape()
      ensures var n := size;
        Painted(old(modules), modules, size,
          (c: Cell) => c.x == 8 && n - 7 <= c.y < n, (c: Cell) => FormatDark(n, bits, c))
      ensures var n := size;
        Painted(old(isFunction), isFunction, size, (c: Cell) => c.x == 8 && n - 7 <= c.y < n, _ => true)
    {
      hide At, IsSquare, Bit;
      ghost var n := size;
      for i := 8 to 15
        invariant Shape()
        invariant Painted(old(modules), modules, size,
          (c: Cell) => c.x == 8 && n - 7 <= c.y < n - 15 + i, (c: Cell) => FormatDark(n, bits, c))
        invariant Painted(old(isFunction), isFunction, size,
          (c: Cell) => c.x == 8 && n - 7 <= c.y < n - 15 + i, _ => true)
      {
        SetFunctionModule(8, size - 15 + i, Bit(bits, i) != 0);
      }
    }

    /** Draws both copies of the format information. */
    method DrawFormatBits(msk: int)
      requires Shape() && IsMask(msk)
      modifies this`modules, this`isFunction
      ensures Shape()
      ensures var n, ver, bits := size, version, FormatBits(errorCorrectionLevel, msk);
        Painted(old(modules), modules, size, (c: Cell) => InFormat(ver, c), (c: Cell) => FormatDark(n, bits, c))
      ensures var ver := version; Painted(old(isFunction), isFunction, size, (c: Cell) => InFormat(ver, c), _ => true)
    {
      var data := Or(Shl(LevelBits(errorCorrectionLevel), 3), msk);
      var rem := data;
      for i := 0 to 10
        invariant rem == CheckBits(data, i, 10, FORMAT_GENERATOR)
      {
        rem := CheckStep(rem, 10, FORMAT_GENERATOR);
      }
      var bits := Xor(Or(Shl(data, 10), rem), FORMAT_MASK);
      hide Xor, Or, Shl, CheckBits, At, IsSquare, FormatDark;
      DrawFormatRight(bits);
      DrawFormatBottom(bits);
      DrawFormatCopy2(bits);
    }

    // Bit i of both copies of the version information.
    method DrawVersionBit(i: nat, bit: bool)
      requires Shape() && version >= 7 && i < 18
      modifies this`modules, this`isFunction
      ensures Shape()
      ensures var ver := version;
        Painted(old(modules), modules, size, (c: Cell) => InVersion(ver, c) && VersionIndex(ver, c) == i, _ => bit)
      ensures var ver := version;
        Painted(old(isFunction), isFunction, size,
          (c: Cell) => InVersion(ver, c) && VersionIndex(ver, c) == i, _ => true)
    {
      VersionCellsOfIndex(version, i);
      hide InVersion, VersionIndex, At, IsSquare;
      var a, b := size - 11 + i % 3, i / 3;
      SetFunctionModule(a, b, bit);
      SetFunctionModule(b, a, bit);
    }

    /** Draws both copies of the version information, from version 7 on. */
    method DrawVersion()
      requires Shape()
      modifies this`modules, this`isFunction
      ensures Shape()
      ensures var ver := version;
        Painted(old(modules), modules, size, (c: Cell) => InVersion(ver, c), (c: Cell) => VersionDark(ver, c))
      ensures var ver := version; Painted(old(isFunction), isFunction, size, (c: Cell) => InVersion(ver, c), _ => true)
    {
      ghost var ver := version;
      if version < 7 {
        return;
      }
      var rem := version;
      for i := 0 to 12
        invariant rem == CheckBits(version, i, 12, VERSION_GENERATOR)
      {
        rem := CheckStep(rem, 12, VERSION_GENERATOR);
      }
      var bits := Or(Shl(version, 12), rem);
      assert bits == VersionBits(ver);
      hide Xor, Or, Shl, CheckBits, At, IsSquare, Bit, VersionBits, InVersion, VersionIndex;
      VersionIndexBound(ver);
      for i := 0 to 18
        invariant Shape() && version == ver
        invariant Painted(old(modules), modules, size,
          (c: Cell) => InVersion(ver, c) && VersionIndex(ver, c) < i, (c: Cell) => VersionDark(ver, c))
        invariant Painted(old(isFunction), isFunction, size,
          (c: Cell) => InVersion(ver, c) && VersionIndex(ver, c) < i, _ => true)
      {
        DrawVersionBit(i, Bit(bits, i) != 0);
      }
    }

    /** Draws everything but the codewords, with the format information of mask 0. */
    method DrawFunctionPatterns()
      requires Shape()
      modifies this`modules, this`isFunction
      ensures Shape()
      ensures var ver, ecl := version, errorCorrectionLevel;
        Painted(old(modules), modules, size, (c: Cell) => IsFunctionCell(ver, c), (c: Cell) => PatternDark(ver, ecl, c))
      ensures var ver := version;
        Painted(old(isFunction), isFunction, size, (c: Cell) => IsFunctionCell(ver, c), _ => true)
    {
      hide At, IsSquare, InTiming, InFormat, InVersion, InAlignment;
      hide TimingDark, FormatDark, VersionDark, AlignDark, FormatBits;
      DrawTiming();
      DrawFinderPatterns();
      DrawAlignmentPatterns();
      DrawFormatBits(0);
      DrawVersion();
    }

    method DrawFinderPatterns()
      requires Shape()
      modifies this`modules, this`isFunction
      ensures Shape()
      ensures var n, ver := size, version;
        Painted(old(modules), modules, size, (c: Cell) => InFinder(ver, c), (c: Cell) => FinderDark(n, c))
      ensures var ver := version; Painted(old(isFunction), isFunction, size, (c: Cell) => InFinder(ver, c), _ => true)
    {
      hide At, IsSquare, Distance, FinderDark, InFinder;
      DrawTopFinders();
      DrawFinderPattern(3, size - 4);
      FinderRegions(version);
    }

    method DrawTopFinders()
      requires Shape()
      modifies this`modules, this`isFunction
      ensures Shape()
      ensures var n := size;
        Painted(old(modules), modules, size,
          (c: Cell) => Distance(c, 3, 3) <= 4 || Distance(c, n - 4, 3) <= 4, (c: Cell) => FinderDark(n, c))
      ensures var n := size;
        Painted(old(isFunction), isFunction, size,
          (c: Cell) => Distance(c, 3, 3) <= 4 || Distance(c, n - 4, 3) <= 4, _ => true)
    {
      hide At, IsSquare, Distance, FinderDark, InFinder;
      DrawFinderPattern(3, 3);
      DrawFinderPattern(size - 4, 3);
      FinderRegions(version);
    }

    // The innermost statement of DrawCodewords: the next bit goes to module (x, y) if it is free.
    method PlaceModule(data: seq<Byte>, x: int, y: int, i: nat, ghost start: Grid, ghost cells: seq<Cell>)
      returns (next: nat)
      requires Shape() && 0 <= x < size && 0 <= y < size
      requires Progress(start, isFunction, size, cells, ByteBits(data), modules, i)
      modifies this`modules
      ensures Shape()
      ensures Progress(start, isFunction, size, cells + [Cell(x, y)], ByteBits(data), modules, next)
    {
      next := i;
      ByteBitsLength(data);
      NextPlaced(start, isFunction, size, cells, Cell(x, y), ByteBits(data));
      if !isFunction[y][x] && i < |data| * 8 {
        ByteBitsAt(data, i);
        modules := Put(modules, size, Cell(x, y), Bit(data[i / 8], 7 - i % 8) != 0);
        next := i + 1;
      }
    }

    // One column pair of the zigzag, after the cells in `before`.
    method DrawPair(data: seq<Byte>, right: int, i: nat, ghost start: Grid, ghost before: seq<Cell>) returns (next: nat)
      requires Shape() && 1 <= right < size
      requires Progress(start, isFunction, size, before, ByteBits(data), modules, i)
      modifies this`modules
      ensures Shape()
      ensures
        Progress(start, isFunction, size, before + PairCells(size, right, 2 * size), ByteBits(data), modules, next)
    {
      next := i;
      hide Progress, PairCells, IsSquare, ByteBits, PairCell;
      ghost var cells := before;
      PairStarts(size, right);
      for vert := 0 to size
        invariant Shape()
        invariant cells == before + PairCells(size, right, 2 * vert)
        invariant Progress(start, isFunction, size, cells, ByteBits(data), modules, next)
      {
        for j := 0 to 2
          invariant Shape()
          invariant cells == before + PairCells(size, right, 2 * vert + j)
          invariant Progress(start, isFunction, size, cells, ByteBits(data), modules, next)
        {
          var x := right - j;
          var upward := (right + 1) / 2 % 2 == 0;
          var y := if upward then size - 1 - vert else vert;
          next := PlaceModule(data, x, y, next, start, cells);
          PairGrows(size, right, vert, j);
          cells := cells + [Cell(x, y)];
        }
      }
    }

    // The zigzag loop.
    method DrawZigzag(data: seq<Byte>) returns (i: nat)
      requires Shape() && IsSize(size)
      modifies this`modules
      ensures Shape()
      ensures Progress(old(modules), isFunction, size, Scan(size, NumPairs(size)), ByteBits(data), modules, i)
    {
      hide *;
      ShapeDef();
      ghost var start := modules;
      NothingPlaced(start, isFunction, size, ByteBits(data));
      ZigzagStarts(size);
      i := 0;
      var right := size - 1;
      ghost var p: nat := 0;
      while right >= 1
        invariant Shape()
        invariant p <= NumPairs(size)
        invariant right == NextRight(size, p)
        invariant Progress(start, isFunction, size, Scan(size, p), ByteBits(data), modules, i)
        decreases right
      {
        ZigzagStep(size, p);
        if right == 6 {
          right := 5;
        }
        i := DrawPair(data, right, i, start, Scan(size, p));
        right := right - 2;
        p := p + 1;
      }
      ZigzagEnds(size, p);
    }

    /** Puts the bits of the codewords into the free modules, in zigzag order. */
    method DrawCodewords(data: seq<Byte>) returns (r: Result<()>)
      requires Shape() && MarksFunctionCells(isFunction, version)
      modifies this`modules
      ensures Shape()
      ensures r == if |data| == NumRawDataModules(version) / 8 then Ok(()) else Err(InvalidArgument)
      ensures r.Err? ==> modules == old(modules)
      ensures r.Ok? ==>
        Place(old(modules), isFunction, size, ScanOf(version), ByteBits(data)) == Placed(modules, 8 * |data|)
    {
      ShapeDef();
      hide *;
      if |data| != NumRawDataModules(version) / 8 {
        return Err(InvalidArgument);
      }
      var i := DrawZigzag(data);
      ShapeDef();
      AllBitsPlaced(old(modules), isFunction, version, data, modules, i);
      r := Ok(());
    }

    // Module (x, y) of ApplyMask.
    method MaskModule(msk: int, x: nat, y: nat)
      requires Shape() && x < size && y < size && IsMask(msk)
      modifies this`modules
      ensures Shape()
      ensures modules ==
        Put(old(modules), size, Cell(x, y), MaskedModule(old(modules), isFunction, size, msk, Cell(x, y)))
    {
      var invert;
      match msk {
        case 0 => invert := (x + y) % 2 == 0;
        case 1 => invert := y % 2 == 0;
        case 2 => invert := x % 3 == 0;
        case 3 => invert := (x + y) % 3 == 0;
        case 4 => invert := (x / 3 + y / 2) % 2 == 0;
        case 5 => invert := x * y % 2 + x * y % 3 == 0;
        case 6 => invert := (x * y % 2 + x * y % 3) % 2 == 0;
        case _ => invert := ((x + y) % 2 + x * y % 3) % 2 == 0;
      }
      modules := Put(modules, size, Cell(x, y), modules[y][x] != (invert && !isFunction[y][x]));
    }

    /** Inverts the modules that the mask selects and that are no function modules. */
    method ApplyMask(msk: int) returns (r: Result<()>)
      requires Shape()
      modifies this`modules
      ensures Shape()
      ensures r == if IsMask(msk) then Ok(()) else Err(DomainError)
      ensures modules == if IsMask(msk) then Masked(old(modules), isFunction, size, msk) else old(modules)
    {
      if msk < 0 || msk > 7 {
        return Err(DomainError);
      }
      ghost var start := modules;
      hide At, Put, Masked, MaskedModule, IsSquare;
      for y := 0 to size
        invariant Shape() && IsSquare(start, size)
        invariant forall c: Cell :: c.x < size && c.y < size ==>
          At(modules, size, c) == if c.y < y then MaskedModule(start, isFunction, size, msk, c) else At(start, size, c)
      {
        for x := 0 to size
          invariant Shape() && IsSquare(start, size)
          invariant forall c: Cell :: c.x < size && c.y < size ==>
            At(modules, size, c) == if c.y < y || (c.y == y && c.x < x)
                                    then MaskedModule(start, isFunction, size, msk, c)
                                    else At(start, size, c)
        {
          SameModule(modules, start, isFunction, size, msk, Cell(x, y));
          MaskModule(msk, x, y);
        }
      }
      SameGrid(modules, Masked(start, isFunction, size, msk), size);
      r := Ok(());
    }

    // Draws the format information over a symbol whose function modules are marked.
    method OverwriteFormat(msk: int)
      requires Shape() && IsMask(msk) && isFunction == FunctionGrid(version)
      modifies this`modules, this`isFunction
      ensures Shape() && isFunction == FunctionGrid(version)
      ensures modules == WithFormat(old(modules), version, errorCorrectionLevel, msk)
    {
      ghost var ver, bits := version, FormatBits(errorCorrectionLevel, msk);
      DrawFormatBits(msk);
      FormatIsFunction(version);
      hide FormatBits, FormatDark, InFormat, IsFunctionCell, At, IsSquare, WithFormat, FunctionGrid;
      SameGrid(isFunction, FunctionGrid(version), size);
      SameGrid(modules, WithFormat(old(modules), version, errorCorrectionLevel, msk), size);
    }

    // Applies a mask and draws its format information: the symbol as it would be finished.
    method ShowMask(msk: int, ghost codewords: seq<Byte>, ghost drawn: int)
      requires Shape() && IsMask(msk) && IsMask(drawn) && isFunction == FunctionGrid(version)
      requires modules == Unmasked(version, errorCorrectionLevel, codewords, drawn)
      modifies this`modules, this`isFunction
      ensures Shape() && isFunction == FunctionGrid(version)
      ensures modules == Candidate(version, errorCorrectionLevel, codewords, msk)
    {
      hide Masked, WithFormat, BaseGrid, Candidate, FunctionGrid, IsSquare, Shape, SizeOf, IsVersion, FormatBits;
      ShapeDef();
      ghost var base := BaseGrid(version, errorCorrectionLevel, codewords);
      MaskOverFormat(base, version, errorCorrectionLevel, drawn, msk);
      CandidateDef(version, errorCorrectionLevel, codewords, msk);
      var _ := ApplyMask(msk);
      OverwriteFormat(msk);
    }

    // Takes the mask off again.
    method HideMask(msk: int, ghost codewords: seq<Byte>)
      requires Shape() && IsMask(msk) && isFunction == FunctionGrid(version)
      requires modules == Candidate(version, errorCorrectionLevel, codewords, msk)
      modifies this`modules
      ensures Shape()
      ensures modules == Unmasked(version, errorCorrectionLevel, codewords, msk)
    {
      UnmaskUnderFormat(BaseGrid(version, errorCorrectionLevel, codewords), version, errorCorrectionLevel, msk);
      CandidateDef(version, errorCorrectionLevel, codewords, msk);
      hide Masked, WithFormat, BaseGrid, Candidate, FunctionGrid, IsSquare;
      var _ := ApplyMask(msk);
    }

    // One turn of the mask loop: the penalty of the symbol with this mask; the mask is off again.
    method ScoreMask(msk: int, penalty: Grid -> int, ghost codewords: seq<Byte>, ghost drawn: int) returns (score: int)
      requires Shape() && IsMask(msk) && IsMask(drawn) && isFunction == FunctionGrid(version)
      requires modules == Unmasked(version, errorCorrectionLevel, codewords, drawn)
      modifies this`modules, this`isFunction
      ensures Shape() && isFunction == FunctionGrid(version)
      ensures modules == Unmasked(version, errorCorrectionLevel, codewords, msk)
      ensures score == Score(version, errorCorrectionLevel, codewords, penalty, msk)
    {
      hide Shape, FunctionGrid, Unmasked, Candidate;
      ShowMask(msk, codewords, drawn);
      score := penalty(modules);
      HideMask(msk, codewords);
    }

    /** The mask with the lowest penalty, the lowest index among equals; -1 if no penalty is below `LONG_MAX`. */
    method FindBestMask(penalty: Grid -> int, ghost codewords: seq<Byte>) returns (best: int)
      requires Shape() && isFunction == FunctionGrid(version)
      requires modules == Unmasked(version, errorCorrectionLevel, codewords, 0)
      modifies this`modules, this`isFunction
      ensures Shape() && isFunction == FunctionGrid(version)
      ensures best == -1 || IsMask(best)
      ensures best == -1 <==> NoMaskScores(version, errorCorrectionLevel, codewords, penalty, 8)
      ensures best != -1 ==> IsBestMask(version, errorCorrectionLevel, codewords, penalty, best, 8)
      ensures modules == Unmasked(version, errorCorrectionLevel, codewords, 7)
    {
      ghost var ver, ecl := version, errorCorrectionLevel;
      hide FunctionGrid, Unmasked, Score, IsBestMask, NoMaskScores;
      best := -1;
      var minPenalty := LONG_MAX;
      NothingScored(ver, ecl, codewords, penalty);
      for i := 0 to 8
        invariant Shape() && isFunction == FunctionGrid(ver)
        invariant modules == Unmasked(ver, ecl, codewords, if i == 0 then 0 else i - 1)
        invariant (best == -1 || 0 <= best < i) && BestSoFar(ver, ecl, codewords, penalty, best, minPenalty, i)
      {
        BestMaskStep(ver, ecl, codewords, penalty, best, minPenalty, i);
        var score := ScoreMask(i, penalty, codewords, if i == 0 then 0 else i - 1);
        if score < minPenalty {
          best := i;
          minPenalty := score;
        }
      }
    }

    /** Masks the symbol: with the given mask, or, for -1, with the one whose finished symbol has
        the lowest penalty. `penalty` stands for `getPenaltyScore`. Without a mask the assertion of the
        constructor fails. */
    method DoMasking(msk: int, penalty: Grid -> int, ghost codewords: seq<Byte>) returns (r: Result<()>)
      requires Shape() && -1 <= msk <= 7 && isFunction == FunctionGrid(version)
      requires modules == BaseGrid(version, errorCorrectionLevel, codewords)
      modifies this`modules, this`isFunction, this`mask
      ensures Shape()
      ensures r == if msk == -1 && NoMaskScores(version, errorCorrectionLevel, codewords, penalty, 8)
                   then Err(NoMask) else Ok(())
      ensures r.Ok? ==> IsMask(mask) && modules == Candidate(version, errorCorrectionLevel, codewords, mask)
      ensures r.Ok? && msk != -1 ==> mask == msk
      ensures r.Ok? && msk == -1 ==> IsBestMask(version, errorCorrectionLevel, codewords, penalty, mask, 8)
    {
      hide FunctionGrid, Unmasked, IsBestMask, Candidate, BaseGrid, SizeOf, IsVersion, IsSquare, NoMaskScores;
      ShapeDef();
      UnmaskedAtFirst(version, errorCorrectionLevel, codewords);
      var best := msk;
      ghost var drawn := 0;
      if best == -1 {
        best := FindBestMask(penalty, codewords);
        drawn := 7;
      }
      if best == -1 {
        return Err(NoMask);
      }
      mask := best;
      ShowMask(best, codewords, drawn);
      r := Ok(());
    }

    /** The constructor of the C++ class, with its checks. */
    static method Create(ver: int, ecl: Ecl, dataCodewords: seq<Byte>, msk: int, penalty: Grid -> int)
      returns (r: Result<QrCode>)
      ensures !IsVersion(ver) || msk < -1 || msk > 7 ==> r == Err(DomainError)
      ensures IsVersion(ver) && -1 <= msk <= 7 && |dataCodewords| != LayoutOf(ver, ecl).NumDataCodewords() ==>
        r == Err(InvalidArgument)
      ensures IsVersion(ver) && -1 <= msk <= 7 && |dataCodewords| == LayoutOf(ver, ecl).NumDataCodewords() ==>
        var codewords := Interleave(LayoutOf(ver, ecl), dataCodewords);
        if msk == -1 && NoMaskScores(ver, ecl, codewords, penalty, 8) then r == Err(NoMask)
        else r.Ok? && fresh(r.value) && IsFinished(r.value, ver, ecl, codewords, msk, penalty)
    {
      hide Interleave, Candidate, IsBestMask, NoMaskScores, LayoutOf, FunctionGrid, BaseGrid, Place, ScanOf;
      if ver < MIN_VERSION || ver > MAX_VERSION {
        return Err(DomainError);
      }
      if msk < -1 || msk > 7 {
        return Err(DomainError);
      }
      var qr := new QrCode(ver, ecl);
      qr.DrawFunctionPatterns();
      PatternsAreDrawn(ver, ecl, qr.size, qr.modules, qr.isFunction);
      var allCodewords := AddEccAndInterleave(LayoutOf(ver, ecl), dataCodewords);
      if allCodewords.Err? {
        return Err(allCodewords.error);
      }
      var placed := qr.DrawCodewords(allCodewords.value);
      BaseGridDef(ver, ecl, allCodewords.value);
      var masked := qr.DoMasking(msk, penalty, allCodewords.value);
      if masked.Err? {
        return Err(masked.error);
      }
      qr.isFunction := [];
      r := Ok(qr);
    }

    lemma ShapeDef()
      requires Shape()
      ensures IsVersion(version) && size == SizeOf(version) && IsSize(size)
      ensures IsSquare(modules, size) && IsSquare(isFunction, size)
    {
    }
  }

  /** The symbol without mask, but with the format information of one. */
  ghost function Unmasked(ver: int, ecl: Ecl, codewords: seq<Byte>, msk: int): Grid
    requires IsVersion(ver) && IsMask(msk)
  {
    WithFormat(BaseGrid(ver, ecl, codewords), ver, ecl, msk)
  }

  const LONG_MAX: int := 0x7FFF_FFFF_FFFF_FFFF

  /** The penalty of the symbol finished with a mask. */
  ghost function Score(ver: int, ecl: Ecl, codewords: seq<Byte>, penalty: Grid -> int, msk: int): int
    requires IsVersion(ver) && IsMask(msk)
  {
    penalty(Candidate(ver, ecl, codewords, msk))
  }

  /** Mask `best` has the lowest penalty of the first n masks, and the lowest index among equals. */
  ghost predicate IsBestMask(ver: int, ecl: Ecl, codewords: seq<Byte>, penalty: Grid -> int, best: int, n: int)
    requires IsVersion(ver) && IsMask(best) && 0 <= n <= 8
  {
    && (forall k :: 0 <= k < n ==> Score(ver, ecl, codewords, penalty, best) <= Score(ver, ecl, codewords, penalty, k))
    && (forall k :: 0 <= k < n && k < best ==>
          Score(ver, ecl, codewords, penalty, best) < Score(ver, ecl, codewords, penalty, k))
  }

  lemma UnmaskedAtFirst(ver: int, ecl: Ecl, codewords: seq<Byte>)
    requires IsVersion(ver)
    ensures Unmasked(ver, ecl, codewords, 0) == BaseGrid(ver, ecl, codewords)
  {
    BaseHasFormat0(ver, ecl, codewords);
  }

  /** None of the first n masks has a penalty below `LONG_MAX`. */
  ghost predicate NoMaskScores(ver: int, ecl: Ecl, codewords: seq<Byte>, penalty: Grid -> int, n: int)
    requires IsVersion(ver) && 0 <= n <= 8
  {
    forall k :: 0 <= k < n ==> Score(ver, ecl, codewords, penalty, k) >= LONG_MAX
  }

  /** What the mask loop knows after n masks. */
  ghost predicate BestSoFar(ver: int, ecl: Ecl, codewords: seq<Byte>, penalty: Grid -> int,
                            best: int, minPenalty: int, n: int)
    requires IsVersion(ver) && 0 <= n <= 8 && (best == -1 || 0 <= best < n)
  {
    if best == -1 then NoMaskScores(ver, ecl, codewords, penalty, n) && minPenalty == LONG_MAX
    else
      && IsBestMask(ver, ecl, codewords, penalty, best, n)
      && minPenalty == Score(ver, ecl, codewords, penalty, best) < LONG_MAX
      && !NoMaskScores(ver, ecl, codewords, penalty, n)
  }

  lemma NothingScored(ver: int, ecl: Ecl, codewords: seq<Byte>, penalty: Grid -> int)
    requires IsVersion(ver)
    ensures NoMaskScores(ver, ecl, codewords, penalty, 0)
  {
  }

  // The next mask replaces the best one so far only if its penalty is lower.
  lemma BestMaskStep(ver: int, ecl: Ecl, codewords: seq<Byte>, penalty: Grid -> int, best: int, minPenalty: int, i: int)
    requires IsVersion(ver) && 0 <= i < 8 && (best == -1 || 0 <= best < i)
    requires BestSoFar(ver, ecl, codewords, penalty, best, minPenalty, i)
    ensures IsMask(i)
    ensures var score := Score(ver, ecl, codewords, penalty, i);
      if score < minPenalty then BestSoFar(ver, ecl, codewords, penalty, i, score, i + 1)
      else BestSoFar(ver, ecl, codewords, penalty, best, minPenalty, i + 1)
  {
    hide Score;
  }

  /** The finished symbol. */
  ghost predicate IsFinished(qr: QrCode, ver: int, ecl: Ecl, codewords: seq<Byte>, msk: int, penalty: Grid -> int)
    requires IsVersion(ver)
    reads qr
  {
    && qr.version == ver && qr.errorCorrectionLevel == ecl && qr.size == SizeOf(ver)
    && IsMask(qr.mask)
    && qr.modules == Candidate(ver, ecl, codewords, qr.mask)
    && (msk != -1 ==> qr.mask == msk)
    && (msk == -1 ==> IsBestMask(ver, ecl, codewords, penalty, qr.mask, 8)
                      && !NoMaskScores(ver, ecl, codewords, penalty, 8))
  }

  lemma BaseGridDef(ver: int, ecl: Ecl, codewords: seq<Byte>)
    requires IsVersion(ver)
    ensures BaseGrid(ver, ecl, codewords)
         == Place(PatternGrid(ver, ecl), FunctionGrid(ver), SizeOf(ver), ScanOf(ver), ByteBits(codewords)).grid
  {
  }

  // On a blank canvas, the drawing of the function patterns leaves the pattern grid.
  lemma PatternsAreDrawn(ver: int, ecl: Ecl, size: nat, modules: Grid, isFunction: Grid)
    requires IsVersion(ver) && size == SizeOf(ver) && IsSquare(modules, size) && IsSquare(isFunction, size)
    requires forall c: Cell :: c.x < size && c.y < size ==>
      At(modules, size, c) == (IsFunctionCell(ver, c) && PatternDark(ver, ecl, c))
    requires forall c: Cell :: c.x < size && c.y < size ==> At(isFunction, size, c) == IsFunctionCell(ver, c)
    ensures modules == PatternGrid(ver, ecl) && isFunction == FunctionGrid(ver)
  {
    hide At, IsSquare, IsFunctionCell, PatternDark, PatternGrid, FunctionGrid;
    SameGrid(modules, PatternGrid(ver, ecl), size);
    SameGrid(isFunction, FunctionGrid(ver), size);
  }

  /** After the given cells, the grid and the bit index are what Place says. */
  ghost predicate Progress(start: Grid, f: Grid, size: nat, cells: seq<Cell>, bits: seq<bool>, modules: Grid, i: nat) {
    && IsSquare(start, size) && IsSquare(f, size) && InRange(cells, size)
    && Placed(modules, i) == Place(start, f, size, cells, bits)
  }

  lemma SameModule(g: Grid, h: Grid, f: Grid, size: nat, msk: int, c: Cell)
    requires IsSquare(g, size) && IsSquare(h, size) && IsSquare(f, size) && c.x < size && c.y < size
    requires At(g, size, c) == At(h, size, c)
    ensures MaskedModule(g, f, size, msk, c) == MaskedModule(h, f, size, msk, c)
  {
  }

  // The value of `right` at the head of the zigzag loop, after p column pairs.
  function NextRight(size: nat, p: nat): int {
    if size - 1 - 2 * p >= 6 then size - 1 - 2 * p else size - 2 - 2 * p
  }

  lemma ZigzagStarts(size: nat)
    requires IsSize(size)
    ensures Scan(size, 0) == [] && NextRight(size, 0) == size - 1
  {
  }

  lemma ZigzagStep(size: nat, p: nat)
    requires IsSize(size) && p <= NumPairs(size) && NextRight(size, p) >= 1
    ensures var right := if NextRight(size, p) == 6 then 5 else NextRight(size, p);
      && p < NumPairs(size) && 1 <= right < size
      && NextRight(size, p + 1) == right - 2
      && Scan(size, p + 1) == Scan(size, p) + PairCells(size, right, 2 * size)
  {
  }

  lemma ZigzagEnds(size: nat, p: nat)
    requires IsSize(size) && p <= NumPairs(size) && NextRight(size, p) < 1
    ensures p == NumPairs(size)
  {
  }

  lemma NothingPlaced(g: Grid, f: Grid, size: nat, bits: seq<bool>)
    requires IsSquare(g, size) && IsSquare(f, size)
    ensures Progress(g, f, size, [], bits, g, 0)
  {
  }

  // Bit i of the codewords, as `getBit` reads it.
  lemma {:induction false} ByteBitsAt(data: seq<Byte>, i: nat)
    requires i < 8 * |data|
    ensures |ByteBits(data)| == 8 * |data|
    ensures ByteBits(data)[i] == (Bit(data[i / 8], 7 - i % 8) != 0)
  {
    var n := |data| - 1;
    hide Bit, BitsOf;
    ByteBitsLength(data);
    ByteBitsLength(data[..n]);
    if i < 8 * n {
      ByteBitsAt(data[..n], i);
    } else {
      BitsOfAt(data[n], 8, i - 8 * n);
    }
  }

  lemma NextPlaced(g: Grid, f: Grid, size: nat, cells: seq<Cell>, c: Cell, bits: seq<bool>)
    requires IsSquare(g, size) && IsSquare(f, size) && InRange(cells, size) && c.x < size && c.y < size
    ensures InRange(cells + [c], size)
    ensures Place(g, f, size, cells + [c], bits) == PlaceAt(Place(g, f, size, cells, bits), f, size, c, bits)
  {
    assert (cells + [c])[..|cells|] == cells;
  }

  lemma PairStarts(size: nat, right: int)
    requires 1 <= right < size
    ensures PairCells(size, right, 0) == []
  {
  }

  // The cell that the loops of DrawCodewords visit next.
  lemma PairGrows(size: nat, right: int, vert: nat, j: nat)
    requires 1 <= right < size && vert < size && j < 2
    ensures PairCells(size, right, 2 * vert + j + 1) == PairCells(size, right, 2 * vert + j) +
      [Cell(right - j, if (right + 1) / 2 % 2 == 0 then size - 1 - vert else vert)]
  {
    var k := 2 * vert + j;
    assert k / 2 == vert && k % 2 == j;
  }

  lemma AllBitsPlaced(start: Grid, f: Grid, ver: int, data: seq<Byte>, modules: Grid, i: nat)
    requires IsVersion(ver) && MarksFunctionCells(f, ver) && IsSize(SizeOf(ver))
    requires |data| == NumRawDataModules(ver) / 8
    requires Progress(start, f, SizeOf(ver), Scan(SizeOf(ver), NumPairs(SizeOf(ver))), ByteBits(data), modules, i)
    ensures i == 8 * |data|
    ensures IsSquare(start, SizeOf(ver)) && IsSquare(f, SizeOf(ver))
    ensures Place(start, f, SizeOf(ver), ScanOf(ver), ByteBits(data)) == Placed(modules, i)
  {
    assert IsSquare(f, SizeOf(ver)) && IsSquare(start, SizeOf(ver));
    hide Place, ByteBits, MarksFunctionCells, Scan, ScanOf, IsSquare, FreeCells, Collect;
    RegionOfScan(ver);
    ScanCapacity(f, ver);
    BytesArePacked(data);
    PlacedBitsAreCollected(start, f, SizeOf(ver), ScanOf(ver), ByteBits(data));
  }

  /** The first version of the range that fits; the requested level, or with boosting the highest one that fits. */
  ghost predicate IsChoice(segs: seq<Segment>, ecl: Ecl, minVersion: int, maxVersion: int, boostEcl: bool,
                           ver: int, e: Ecl)
  {
    && MIN_VERSION <= minVersion <= ver <= maxVersion <= MAX_VERSION
    && Fits(segs, ver, ecl) && (forall v :: minVersion <= v < ver ==> !Fits(segs, v, ecl))
    && Fits(segs, ver, e) && e.Rank() >= ecl.Rank()
    && (!boostEcl ==> e == ecl)
    && (boostEcl ==> forall higher: Ecl :: higher.Rank() > e.Rank() ==> !Fits(segs, ver, higher))
  }

  /** No mask gives the symbol of the segments a penalty below `LONG_MAX`. */
  ghost predicate NoMaskFor(segs: seq<Segment>, ver: int, ecl: Ecl, penalty: Grid -> int) {
    && IsVersion(ver) && Fits(segs, ver, ecl)
    && var l := LayoutOf(ver, ecl);
       SizesAgree(segs, ver, ecl);
       NoMaskScores(ver, ecl, Interleave(l, DataCodewords(segs, ver, l.NumDataCodewords())), penalty, 8)
  }

  /** `encodeSegments`: the symbol of the smallest version that fits, and at least the requested
      error correction level. Automatic masking finds no mask only if no penalty is below `LONG_MAX`. */
  method EncodeSegments(segs: seq<Segment>, ecl: Ecl, minVersion: int, maxVersion: int, mask: int, boostEcl: bool,
                        penalty: Grid -> int)
    returns (r: Result<QrCode>)
    ensures r == Err(InvalidArgument) <==>
      !(MIN_VERSION <= minVersion <= maxVersion <= MAX_VERSION) || mask < -1 || mask > 7
    ensures r.Err? ==> r.error in {InvalidArgument, DataTooLong, NoMask}
    ensures r == Err(DataTooLong) ==> forall v :: minVersion <= v <= maxVersion ==> !Fits(segs, v, ecl)
    ensures r == Err(NoMask) ==> mask == -1 && exists v: int, e: Ecl ::
      IsChoice(segs, ecl, minVersion, maxVersion, boostEcl, v, e) && NoMaskFor(segs, v, e, penalty)
    ensures r.Ok? ==>
      && fresh(r.value)
      && IsChoice(segs, ecl, minVersion, maxVersion, boostEcl, r.value.version, r.value.errorCorrectionLevel)
      && IsSymbolOf(r.value, segs, mask, penalty)
  {
    hide Fits, StreamBits, NumDataCodewords, LayoutOf, DataCodewords, Interleave, IsFinished, NoMaskScores;
    var encoded := EncodeData(segs, ecl, minVersion, maxVersion, mask, boostEcl);
    if encoded.Err? {
      return Err(encoded.error);
    }
    var e := encoded.value;
    SizesAgree(segs, e.version, e.ecl);
    r := QrCode.Create(e.version, e.ecl, e.dataCodewords, mask, penalty);
    if r.Err? {
      assert NoMaskFor(segs, e.version, e.ecl, penalty);
      return;
    }
    IsFinishedDef(r.value, e.version, e.ecl, Interleave(LayoutOf(e.version, e.ecl), e.dataCodewords), mask, penalty);
  }

  lemma SizesAgree(segs: seq<Segment>, ver: int, ecl: Ecl)
    requires IsVersion(ver) && Fits(segs, ver, ecl)
    ensures CountsFit(segs, ver) && |StreamBits(segs, ver)| <= 8 * NumDataCodewords(ver, ecl)
    ensures NumDataCodewords(ver, ecl) == LayoutOf(ver, ecl).NumDataCodewords()
  {
    hide StreamBits, LayoutOf, CountsFit;
  }

  lemma IsFinishedDef(qr: QrCode, ver: int, ecl: Ecl, codewords: seq<Byte>, msk: int, penalty: Grid -> int)
    requires IsVersion(ver) && IsFinished(qr, ver, ecl, codewords, msk, penalty)
    ensures qr.version == ver && qr.errorCorrectionLevel == ecl
  {
    hide Candidate, IsBestMask;
  }

  /** The finished symbol of the segments at its own version and level. */
  ghost predicate IsSymbolOf(qr: QrCode, segs: seq<Segment>, msk: int, penalty: Grid -> int)
    reads qr
  {
    && IsVersion(qr.version)
    && CountsFit(segs, qr.version)
    && |StreamBits(segs, qr.version)| <= 8 * NumDataCodewords(qr.version, qr.errorCorrectionLevel)
    && var l := LayoutOf(qr.version, qr.errorCorrectionLevel);
       var data := DataCodewords(segs, qr.version, l.NumDataCodewords());
       IsFinished(qr, qr.version, qr.errorCorrectionLevel, Interleave(l, data), msk, penalty)
  }

  /** Whatever was encoded is read back from the modules of the symbol. */
  lemma SymbolOfContentsIsRead(qr: QrCode, contents: seq<Content>, msk: int, penalty: Grid -> int)
    requires forall i :: 0 <= i < |contents| ==> contents[i].Valid()
    requires IsSymbolOf(qr, ToSegments(contents), msk, penalty)
    ensures IsVersion(qr.version) && IsSquare(qr.modules, Side(qr.version))
    ensures ReadSymbol(qr.modules, qr.version) == Some(contents)
  {
    hide *;
    IsSymbolOfDef(qr, ToSegments(contents), msk, penalty);
    FittingIsEncodable(contents, qr.version);
    SymbolIsRead(contents, qr.version, qr.errorCorrectionLevel, qr.mask);
  }

  lemma IsSymbolOfDef(qr: QrCode, segs: seq<Segment>, msk: int, penalty: Grid -> int)
    requires IsSymbolOf(qr, segs, msk, penalty)
    ensures IsVersion(qr.version) && IsMask(qr.mask) && CountsFit(segs, qr.version)
    ensures var l := LayoutOf(qr.version, qr.errorCorrectionLevel);
      && l.Valid()
      && |StreamBits(segs, qr.version)| <= 8 * NumDataCodewords(qr.version, qr.errorCorrectionLevel)
      && var data := DataCodewords(segs, qr.version, NumDataCodewords(qr.version, qr.errorCorrectionLevel));
         |data| == l.NumDataCodewords()
         && qr.modules == Candidate(qr.version, qr.errorCorrectionLevel, Interleave(l, data), qr.mask)
  {
    hide StreamBits, LayoutOf, DataCodewords, Interleave, Candidate, IsBestMask, CountsFit;
  }

  lemma FittingIsEncodable(contents: seq<Content>, ver: int)
    requires IsVersion(ver)
    requires forall i :: 0 <= i < |contents| ==> contents[i].Valid()
    requires CountsFit(ToSegments(contents), ver)
    ensures Encodable(contents, ver)
  {
    hide CountFits, Content.Valid, Content.ToSegment;
    forall i | 0 <= i < |contents|
      ensures CountFits(contents[i].ToSegment(), ver)
    {
      assert CountFits(ToSegments(contents)[i], ver);
    }
  }
}
