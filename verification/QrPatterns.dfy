/** Which modules of a symbol are function modules, and how many are left: finders, timing, format, alignment. */
module QrPatterns {
  // ISO/IEC 18004:2015, section 6.3.

  import opened QrTables
  import opened QrZigzag

  function SizeOf(ver: int): int {
    ver * 4 + 17
  }

  function Abs(n: int): nat {
    if n < 0 then -n else n
  }

  /** The distance of two cells, along the longer axis. */
  function Distance(c: Cell, x: int, y: int): nat {
    var dx, dy := Abs(c.x - x), Abs(c.y - y);
    if dx < dy then dy else dx
  }

  // ---- alignment pattern positions ----

  function NumAlign(ver: int): int {
    if ver == 1 then 0 else ver / 7 + 2
  }

  function AlignStep(ver: int): int
    requires 2 <= ver <= MAX_VERSION
  {
    var numAlign := NumAlign(ver);
    if ver == 32 then 26 else (ver * 4 + numAlign * 2 + 1) / (numAlign * 2 - 2) * 2
  }

  /** Position i of the ascending list: 6, then steps up to size - 7. */
  function AlignPos(ver: int, i: int): int
    requires 2 <= ver <= MAX_VERSION && 0 <= i < NumAlign(ver)
    decreases NumAlign(ver) - i
  {
    if i == 0 then 6
    else if i == NumAlign(ver) - 1 then SizeOf(ver) - 7
    else AlignPos(ver, i + 1) - AlignStep(ver)
  }

  /** Combination (i, j) carries an alignment pattern: the three finder corners do not. */
  predicate HasAlignment(ver: int, i: int, j: int) {
    var n := NumAlign(ver);
    && 0 <= i < n && 0 <= j < n
    && !((i == 0 && j == 0) || (i == 0 && j == n - 1) || (i == n - 1 && j == 0))
  }

  // The steps are wide, and the second position is clear of the finder patterns.
  lemma StepIsWide(ver: int)
    requires 2 <= ver <= MAX_VERSION
    ensures NumAlign(ver) >= 3 ==> 16 <= AlignStep(ver) <= 28
    ensures 18 <= SizeOf(ver) - 7 - AlignStep(ver) * (NumAlign(ver) - 2)
  {
    match ver / 7 {
      case 0 =>
      case 1 =>
      case 2 =>
      case 3 =>
      case 4 =>
      case 5 =>
    }
  }

  lemma {:induction false} AlignPosClosed(ver: int, i: int)
    requires 2 <= ver <= MAX_VERSION && 1 <= i < NumAlign(ver)
    ensures AlignPos(ver, i) == SizeOf(ver) - 7 - AlignStep(ver) * (NumAlign(ver) - 1 - i)
    decreases NumAlign(ver) - i
  {
    if i < NumAlign(ver) - 1 {
      hide AlignStep, NumAlign;
      AlignPosClosed(ver, i + 1);
      var n, step := NumAlign(ver) - 1 - i, AlignStep(ver);
      assert step * n == step * (n - 1) + step;
    }
  }

  lemma {:induction false} AlignPosMono(ver: int, i: int, j: int)
    requires 2 <= ver <= MAX_VERSION && 1 <= i < j < NumAlign(ver)
    ensures AlignPos(ver, i) + 16 <= AlignPos(ver, j)
    decreases j - i
  {
    StepIsWide(ver);
    if i + 1 < j {
      AlignPosMono(ver, i + 1, j);
    }
  }

  // Where the positions lie, and how far apart.
  lemma AlignPosBounds(ver: int, i: int)
    requires 2 <= ver <= MAX_VERSION && 0 <= i < NumAlign(ver)
    ensures i == 0 ==> AlignPos(ver, i) == 6
    ensures i > 0 ==> 18 <= AlignPos(ver, i) <= SizeOf(ver) - 7
    ensures 0 < i < NumAlign(ver) - 1 ==> AlignPos(ver, i) <= SizeOf(ver) - 23
  {
    var n := NumAlign(ver);
    if i > 0 {
      StepIsWide(ver);
      AlignPosClosed(ver, 1);
      if 1 < i {
        AlignPosMono(ver, 1, i);
      }
      if i < n - 1 {
        AlignPosMono(ver, i, n - 1);
      }
    }
  }

  lemma AlignPosApart(ver: int, i: int, j: int)
    requires 2 <= ver <= MAX_VERSION && 0 <= i < j < NumAlign(ver)
    ensures AlignPos(ver, i) + 12 <= AlignPos(ver, j)
  {
    AlignPosBounds(ver, i);
    AlignPosBounds(ver, j);
    if 0 < i {
      AlignPosMono(ver, i, j);
    }
  }

  // ---- the function modules ----

  predicate InFinder(ver: int, c: Cell) {
    var size := SizeOf(ver);
    (c.x <= 7 && c.y <= 7) || (size - 8 <= c.x && c.y <= 7) || (c.x <= 7 && size - 8 <= c.y)
  }

  predicate InTiming(c: Cell) {
    c.x == 6 || c.y == 6
  }

  predicate InFormat(ver: int, c: Cell) {
    var size := SizeOf(ver);
    || (c.x == 8 && (c.y <= 5 || c.y == 7 || c.y == 8 || size - 8 <= c.y))
    || (c.y == 8 && (c.x <= 5 || c.x == 7 || size - 8 <= c.x))
  }

  predicate InVersion(ver: int, c: Cell) {
    var size := SizeOf(ver);
    ver >= 7 && ((size - 11 <= c.x <= size - 9 && c.y <= 5) || (c.x <= 5 && size - 11 <= c.y <= size - 9))
  }

  predicate InBlock(ver: int, i: int, j: int, c: Cell)
    requires IsVersion(ver)
  {
    ver >= 2 && HasAlignment(ver, i, j) && Distance(c, AlignPos(ver, i), AlignPos(ver, j)) <= 2
  }

  ghost predicate InAlignment(ver: int, c: Cell)
    requires IsVersion(ver)
  {
    exists i, j :: InBlock(ver, i, j, c)
  }

  ghost predicate IsFunctionCell(ver: int, c: Cell)
    requires IsVersion(ver)
  {
    InFinder(ver, c) || InTiming(c) || InFormat(ver, c) || InVersion(ver, c) || InAlignment(ver, c)
  }

  // ---- sets of cells ----

  function Rect(x0: nat, y0: nat, w: nat, h: nat): (r: set<Cell>)
    ensures forall c :: c in r <==> x0 <= c.x < x0 + w && y0 <= c.y < y0 + h
  {
    set x: nat, y: nat | x0 <= x < x0 + w && y0 <= y < y0 + h :: Cell(x, y)
  }

  lemma {:induction false} RowSize(x0: nat, y0: nat, w: nat)
    ensures |Rect(x0, y0, w, 1)| == w
  {
    if w == 0 {
      assert Rect(x0, y0, 0, 1) == {};
    } else {
      RowSize(x0, y0, w - 1);
      assert Rect(x0, y0, w, 1) == Rect(x0, y0, w - 1, 1) + {Cell(x0 + w - 1, y0)};
    }
  }

  lemma RectSplit(x0: nat, y0: nat, w: nat, h: nat)
    requires h > 0
    ensures Rect(x0, y0, w, h) == Rect(x0, y0, w, h - 1) + Rect(x0, y0 + h - 1, w, 1)
    ensures Rect(x0, y0, w, h - 1) !! Rect(x0, y0 + h - 1, w, 1)
  {
  }

  lemma DisjointSize<T>(a: set<T>, b: set<T>)
    requires a !! b
    ensures |a + b| == |a| + |b|
  {
  }

  lemma RectStep(x0: nat, y0: nat, w: nat, h: nat)
    requires h > 0
    ensures |Rect(x0, y0, w, h)| == |Rect(x0, y0, w, h - 1)| + w
  {
    hide *;
    RowSize(x0, y0 + h - 1, w);
    RectSplit(x0, y0, w, h);
    DisjointSize(Rect(x0, y0, w, h - 1), Rect(x0, y0 + h - 1, w, 1));
  }

  lemma EmptyRect(x0: nat, y0: nat, w: nat)
    ensures |Rect(x0, y0, w, 0)| == 0
  {
    assert Rect(x0, y0, w, 0) == {};
  }

  lemma RowMore(w: nat, h: nat)
    ensures w * 0 == 0
    ensures h > 0 ==> w * h == w * (h - 1) + w
  {
  }

  lemma {:induction false} RectSize(x0: nat, y0: nat, w: nat, h: nat)
    ensures |Rect(x0, y0, w, h)| == w * h
  {
    hide *;
    RowMore(w, h);
    if h == 0 {
      EmptyRect(x0, y0, w);
    } else {
      RectSize(x0, y0, w, h - 1);
      RectStep(x0, y0, w, h);
    }
  }

  /** The cells of alignment pattern (i, j) that are not timing modules. */
  function BlockCells(ver: int, i: int, j: int): set<Cell>
    requires 2 <= ver <= MAX_VERSION && 0 <= i < NumAlign(ver) && 0 <= j < NumAlign(ver)
  {
    AlignPosBounds(ver, i);
    AlignPosBounds(ver, j);
    var x, y := AlignPos(ver, i), AlignPos(ver, j);
    if !HasAlignment(ver, i, j) then {}
    else if i == 0 then Rect(4, y - 2, 2, 5) + Rect(7, y - 2, 2, 5)
    else if j == 0 then Rect(x - 2, 4, 5, 2) + Rect(x - 2, 7, 5, 2)
    else Rect(x - 2, y - 2, 5, 5)
  }

  lemma BlockCellsAre(ver: int, i: int, j: int, c: Cell)
    requires 2 <= ver <= MAX_VERSION && 0 <= i < NumAlign(ver) && 0 <= j < NumAlign(ver)
    ensures c in BlockCells(ver, i, j) <==> InBlock(ver, i, j, c) && !InTiming(c)
  {
    AlignPosBounds(ver, i);
    AlignPosBounds(ver, j);
    hide AlignPos, NumAlign;
  }

  function BlockSize(ver: int, i: int, j: int): nat {
    if !HasAlignment(ver, i, j) then 0 else if i == 0 || j == 0 then 20 else 25
  }

  lemma BlockCellsSize(ver: int, i: int, j: int)
    requires 2 <= ver <= MAX_VERSION && 0 <= i < NumAlign(ver) && 0 <= j < NumAlign(ver)
    ensures |BlockCells(ver, i, j)| == BlockSize(ver, i, j)
  {
    hide AlignPos, NumAlign, Rect;
    AlignPosBounds(ver, i);
    AlignPosBounds(ver, j);
    var x, y := AlignPos(ver, i), AlignPos(ver, j);
    if i == 0 && j > 0 {
      RectSize(4, y - 2, 2, 5);
      RectSize(7, y - 2, 2, 5);
      DisjointSize(Rect(4, y - 2, 2, 5), Rect(7, y - 2, 2, 5));
    } else if j == 0 && i > 0 {
      RectSize(x - 2, 4, 5, 2);
      RectSize(x - 2, 7, 5, 2);
      DisjointSize(Rect(x - 2, 4, 5, 2), Rect(x - 2, 7, 5, 2));
    } else if i > 0 {
      RectSize(x - 2, y - 2, 5, 5);
    }
  }

  // Two alignment patterns share no module.
  lemma BlocksApart(ver: int, i: int, j: int, k: int, l: int, c: Cell)
    requires 2 <= ver <= MAX_VERSION && InBlock(ver, i, j, c) && InBlock(ver, k, l, c)
    ensures i == k && j == l
  {
    if i < k { AlignPosApart(ver, i, k); }
    if k < i { AlignPosApart(ver, k, i); }
    if j < l { AlignPosApart(ver, j, l); }
    if l < j { AlignPosApart(ver, l, j); }
  }

  // The patterns (i, 0), ..., (i, j - 1).
  function ColumnOfBlocks(ver: int, i: int, j: int): set<Cell>
    requires 2 <= ver <= MAX_VERSION && 0 <= i < NumAlign(ver) && 0 <= j <= NumAlign(ver)
    decreases j
  {
    if j == 0 then {} else ColumnOfBlocks(ver, i, j - 1) + BlockCells(ver, i, j - 1)
  }

  // The patterns (k, l) with k below i.
  function Blocks(ver: int, i: int): set<Cell>
    requires 2 <= ver <= MAX_VERSION && 0 <= i <= NumAlign(ver)
    decreases i
  {
    if i == 0 then {} else Blocks(ver, i - 1) + ColumnOfBlocks(ver, i - 1, NumAlign(ver))
  }

  lemma {:induction false} ColumnOfBlocksIs(ver: int, i: int, j: int, c: Cell)
    requires 2 <= ver <= MAX_VERSION && 0 <= i < NumAlign(ver) && 0 <= j <= NumAlign(ver)
    ensures c in ColumnOfBlocks(ver, i, j) <==> !InTiming(c) && exists l :: 0 <= l < j && InBlock(ver, i, l, c)
    decreases j
  {
    hide AlignPos, NumAlign, BlockCells, Distance, HasAlignment;
    if j != 0 {
      ColumnOfBlocksIs(ver, i, j - 1, c);
      BlockCellsAre(ver, i, j - 1, c);
    }
  }

  lemma {:induction false} BlocksAre(ver: int, i: int, c: Cell)
    requires 2 <= ver <= MAX_VERSION && 0 <= i <= NumAlign(ver)
    ensures c in Blocks(ver, i) <==> !InTiming(c) && exists k, l :: 0 <= k < i && InBlock(ver, k, l, c)
    decreases i
  {
    hide AlignPos, NumAlign, Distance, ColumnOfBlocks;
    if i != 0 {
      BlocksAre(ver, i - 1, c);
      ColumnOfBlocksIs(ver, i - 1, NumAlign(ver), c);
    }
  }

  lemma ColumnApart(ver: int, i: int, j: int)
    requires 2 <= ver <= MAX_VERSION && 0 <= i < NumAlign(ver) && 0 <= j < NumAlign(ver)
    ensures ColumnOfBlocks(ver, i, j) !! BlockCells(ver, i, j)
  {
    hide AlignPos, NumAlign, BlockCells, InBlock, ColumnOfBlocks;
    if !(ColumnOfBlocks(ver, i, j) !! BlockCells(ver, i, j)) {
      var c :| c in ColumnOfBlocks(ver, i, j) && c in BlockCells(ver, i, j);
      ColumnOfBlocksIs(ver, i, j, c);
      BlockCellsAre(ver, i, j, c);
      var l :| 0 <= l < j && InBlock(ver, i, l, c);
      BlocksApart(ver, i, j, i, l, c);
    }
  }

  // The size of a column of patterns: finder corners are left out, and a pattern on a timing
  // line adds 20 modules only.
  function ColumnSize(n: int, i: int, j: int): int {
    if j == 0 then 0
    else if i == 0 then 20 * ((if j < n then j else n - 1) - 1)
    else (if i < n - 1 then 20 else 0) + 25 * (j - 1)
  }

  lemma ColumnSizeStep(ver: int, i: int, j: int)
    requires 2 <= ver <= MAX_VERSION && 0 <= i < NumAlign(ver) && 0 <= j < NumAlign(ver)
    ensures ColumnSize(NumAlign(ver), i, j + 1) == ColumnSize(NumAlign(ver), i, j) + BlockSize(ver, i, j)
  {
  }

  lemma ColumnUnfold(ver: int, i: int, j: int)
    requires 2 <= ver <= MAX_VERSION && 0 <= i < NumAlign(ver) && 0 <= j < NumAlign(ver)
    ensures ColumnOfBlocks(ver, i, 0) == {} && ColumnSize(NumAlign(ver), i, 0) == 0
    ensures ColumnOfBlocks(ver, i, j + 1) == ColumnOfBlocks(ver, i, j) + BlockCells(ver, i, j)
  {
  }

  lemma {:induction false} ColumnOfBlocksSize(ver: int, i: int, j: int)
    requires 2 <= ver <= MAX_VERSION && 0 <= i < NumAlign(ver) && 0 <= j <= NumAlign(ver)
    ensures |ColumnOfBlocks(ver, i, j)| == ColumnSize(NumAlign(ver), i, j)
    decreases j
  {
    hide *;
    ColumnUnfold(ver, i, if j == 0 then 0 else j - 1);
    if j != 0 {
      ColumnOfBlocksSize(ver, i, j - 1);
      BlockCellsSize(ver, i, j - 1);
      ColumnApart(ver, i, j - 1);
      ColumnSizeStep(ver, i, j - 1);
      DisjointSize(ColumnOfBlocks(ver, i, j - 1), BlockCells(ver, i, j - 1));
    }
  }

  lemma BlocksDisjoint(ver: int, i: int)
    requires 2 <= ver <= MAX_VERSION && 0 <= i < NumAlign(ver)
    ensures Blocks(ver, i) !! ColumnOfBlocks(ver, i, NumAlign(ver))
  {
    hide AlignPos, NumAlign, BlockCells, InBlock, ColumnOfBlocks, Blocks;
    var column := ColumnOfBlocks(ver, i, NumAlign(ver));
    if !(Blocks(ver, i) !! column) {
      var c :| c in Blocks(ver, i) && c in column;
      BlocksAre(ver, i, c);
      ColumnOfBlocksIs(ver, i, NumAlign(ver), c);
      var k, l :| 0 <= k < i && InBlock(ver, k, l, c);
      var m :| 0 <= m < NumAlign(ver) && InBlock(ver, i, m, c);
      BlocksApart(ver, k, l, i, m, c);
    }
  }

  function BlocksSize(n: int, i: int): int {
    if i == 0 then 0 else 20 * (n - 2) + (i - 1) * (20 + 25 * (n - 1)) - if i == n then 20 else 0
  }

  lemma BlocksSizeStep(n: int, i: int)
    requires n >= 2 && 0 <= i < n
    ensures BlocksSize(n, i + 1) == BlocksSize(n, i) + ColumnSize(n, i, n)
  {
  }

  lemma BlocksUnfold(ver: int, i: int)
    requires 2 <= ver <= MAX_VERSION && 0 <= i < NumAlign(ver)
    ensures NumAlign(ver) >= 2
    ensures Blocks(ver, 0) == {} && BlocksSize(NumAlign(ver), 0) == 0
    ensures Blocks(ver, i + 1) == Blocks(ver, i) + ColumnOfBlocks(ver, i, NumAlign(ver))
  {
  }

  lemma TwoPositions(ver: int)
    requires 2 <= ver <= MAX_VERSION
    ensures NumAlign(ver) >= 2
  {
  }

  lemma {:induction false} BlocksHaveSize(ver: int, i: int)
    requires 2 <= ver <= MAX_VERSION && 0 <= i <= NumAlign(ver)
    ensures |Blocks(ver, i)| == BlocksSize(NumAlign(ver), i)
    decreases i
  {
    hide *;
    TwoPositions(ver);
    BlocksUnfold(ver, if i == 0 then 0 else i - 1);
    if i != 0 {
      BlocksHaveSize(ver, i - 1);
      ColumnOfBlocksSize(ver, i - 1, NumAlign(ver));
      BlocksDisjoint(ver, i - 1);
      BlocksSizeStep(NumAlign(ver), i - 1);
      DisjointSize(Blocks(ver, i - 1), ColumnOfBlocks(ver, i - 1, NumAlign(ver)));
    }
  }

  // ---- all function modules ----

  function FinderCells(size: nat): set<Cell>
    requires size >= 21
  {
    Rect(0, 0, 8, 8) + Rect(size - 8, 0, 8, 8) + Rect(0, size - 8, 8, 8)
  }

  // The timing modules outside the finder patterns.
  function TimingCells(size: nat): set<Cell>
    requires size >= 21
  {
    Rect(6, 8, 1, size - 16) + Rect(8, 6, size - 16, 1)
  }

  // The copy around the top left finder pattern.
  function FormatCells1(): set<Cell> {
    Rect(8, 0, 1, 6) + Rect(8, 7, 1, 2) + Rect(7, 8, 1, 1) + Rect(0, 8, 6, 1)
  }

  // The other copy and the module that is always dark.
  function FormatCells2(size: nat): set<Cell>
    requires size >= 21
  {
    Rect(size - 8, 8, 8, 1) + Rect(8, size - 8, 1, 8)
  }

  function VersionCells(size: nat): set<Cell>
    requires size >= 21
  {
    Rect(size - 11, 0, 3, 6) + Rect(0, size - 11, 6, 3)
  }

  lemma FinderSize(size: nat)
    requires size >= 21
    ensures |FinderCells(size)| == 192
  {
    RectSize(0, 0, 8, 8);
    RectSize(size - 8, 0, 8, 8);
    RectSize(0, size - 8, 8, 8);
    assert Rect(0, 0, 8, 8) !! Rect(size - 8, 0, 8, 8);
    assert Rect(0, 0, 8, 8) + Rect(size - 8, 0, 8, 8) !! Rect(0, size - 8, 8, 8);
  }

  lemma TimingSize(size: nat)
    requires size >= 21
    ensures |TimingCells(size)| == 2 * (size - 16)
  {
    RectSize(6, 8, 1, size - 16);
    RectSize(8, 6, size - 16, 1);
    assert Rect(6, 8, 1, size - 16) !! Rect(8, 6, size - 16, 1);
  }

  lemma FormatSize1()
    ensures |FormatCells1()| == 15
  {
    var a, b, c, d := Rect(8, 0, 1, 6), Rect(8, 7, 1, 2), Rect(7, 8, 1, 1), Rect(0, 8, 6, 1);
    RectSize(8, 0, 1, 6);
    RectSize(8, 7, 1, 2);
    RectSize(7, 8, 1, 1);
    RectSize(0, 8, 6, 1);
    assert a !! b;
    assert a + b !! c;
    assert a + b + c !! d;
  }

  lemma FormatSize2(size: nat)
    requires size >= 21
    ensures |FormatCells2(size)| == 16
  {
    RectSize(size - 8, 8, 8, 1);
    RectSize(8, size - 8, 1, 8);
    assert Rect(size - 8, 8, 8, 1) !! Rect(8, size - 8, 1, 8);
  }

  lemma VersionSize(size: nat)
    requires size >= 21
    ensures |VersionCells(size)| == 36
  {
    RectSize(size - 11, 0, 3, 6);
    RectSize(0, size - 11, 6, 3);
    assert Rect(size - 11, 0, 3, 6) !! Rect(0, size - 11, 6, 3);
  }

  // The function modules that every symbol has, and those of the larger ones.
  function CommonCells(size: nat): set<Cell>
    requires size >= 21
  {
    FinderCells(size) + TimingCells(size) + FormatCells1() + FormatCells2(size)
  }

  function SpecificCells(ver: int): set<Cell>
    requires IsVersion(ver)
  {
    (if ver >= 2 then Blocks(ver, NumAlign(ver)) else {}) + (if ver >= 7 then VersionCells(SizeOf(ver)) else {})
  }

  lemma CommonApart(size: nat)
    requires size >= 21
    ensures FinderCells(size) !! TimingCells(size)
    ensures FormatCells1() !! FormatCells2(size)
    ensures FinderCells(size) + TimingCells(size) !! FormatCells1() + FormatCells2(size)
  {
    hide Rect;
  }

  lemma CommonParts(size: nat)
    requires size >= 21
    ensures CommonCells(size) == (FinderCells(size) + TimingCells(size)) + (FormatCells1() + FormatCells2(size))
  {
    hide FinderCells, TimingCells, FormatCells1, FormatCells2, Rect;
  }

  lemma CommonSize(size: nat)
    requires size >= 21
    ensures |CommonCells(size)| == 223 + 2 * (size - 16)
  {
    hide *;
    var a, b, c, d := FinderCells(size), TimingCells(size), FormatCells1(), FormatCells2(size);
    CommonParts(size);
    FinderSize(size);
    TimingSize(size);
    FormatSize1();
    FormatSize2(size);
    CommonApart(size);
    DisjointSize(a, b);
    DisjointSize(c, d);
    DisjointSize(a + b, c + d);
  }

  lemma CommonCellsAre(ver: int, c: Cell)
    requires IsVersion(ver) && c.x < SizeOf(ver) && c.y < SizeOf(ver)
    ensures c in CommonCells(SizeOf(ver)) <==> InFinder(ver, c) || InTiming(c) || InFormat(ver, c)
  {
    hide Rect;
  }

  lemma VersionCellsAre(ver: int, c: Cell)
    requires IsVersion(ver) && ver >= 7
    ensures c in VersionCells(SizeOf(ver)) <==> InVersion(ver, c)
  {
  }

  // Alignment patterns stay clear of everything but the timing modules.
  lemma AlignmentIsClear(ver: int, i: int, j: int, c: Cell)
    requires IsVersion(ver) && InBlock(ver, i, j, c)
    ensures !InFinder(ver, c) && !InFormat(ver, c) && !InVersion(ver, c)
    ensures c.x < SizeOf(ver) && c.y < SizeOf(ver)
  {
    AlignPosBounds(ver, i);
    AlignPosBounds(ver, j);
    hide AlignPos, NumAlign;
  }

  lemma SpecificCellsAre(ver: int, c: Cell)
    requires IsVersion(ver)
    ensures c in SpecificCells(ver) <==> InVersion(ver, c) || (InAlignment(ver, c) && !InTiming(c))
  {
    hide Blocks, VersionCells, InBlock, NumAlign, InTiming;
    if ver >= 7 {
      VersionCellsAre(ver, c);
    }
    if ver >= 2 {
      TwoPositions(ver);
      BlocksAre(ver, NumAlign(ver), c);
      BlockIndices(ver, c);
    }
    hide InVersion;
    NoAlignment(ver, c);
  }

  lemma BlockIndices(ver: int, c: Cell)
    requires 2 <= ver <= MAX_VERSION
    ensures forall i, j :: InBlock(ver, i, j, c) ==> 0 <= i < NumAlign(ver)
  {
  }

  lemma NoAlignment(ver: int, c: Cell)
    requires IsVersion(ver)
    ensures ver < 2 ==> !InAlignment(ver, c)
    ensures ver < 7 ==> !InVersion(ver, c)
  {
  }

  /** The number of function modules. */
  function NumFunctionModules(ver: int): int
    requires IsVersion(ver)
  {
    var size := SizeOf(ver);
    223 + 2 * (size - 16)
    + (if ver >= 2 then BlocksSize(NumAlign(ver), NumAlign(ver)) else 0)
    + (if ver >= 7 then 36 else 0)
  }

  /** All of them, as a set. */
  function FunctionCells(ver: int): set<Cell>
    requires IsVersion(ver)
  {
    CommonCells(SizeOf(ver)) + SpecificCells(ver)
  }

  lemma SpecificSize(ver: int)
    requires IsVersion(ver)
    ensures |SpecificCells(ver)| ==
      (if ver >= 2 then BlocksSize(NumAlign(ver), NumAlign(ver)) else 0) + (if ver >= 7 then 36 else 0)
  {
    hide Blocks, VersionCells, NumAlign, BlocksSize;
    if ver >= 2 {
      TwoPositions(ver);
      BlocksHaveSize(ver, NumAlign(ver));
      if ver >= 7 {
        VersionSize(SizeOf(ver));
        BlocksMissVersion(ver);
        DisjointSize(Blocks(ver, NumAlign(ver)), VersionCells(SizeOf(ver)));
      }
    }
  }

  lemma BlocksMissVersion(ver: int)
    requires IsVersion(ver) && ver >= 7
    ensures Blocks(ver, NumAlign(ver)) !! VersionCells(SizeOf(ver))
  {
    hide Blocks, VersionCells, NumAlign, InBlock, InVersion, InTiming;
    TwoPositions(ver);
    if !(Blocks(ver, NumAlign(ver)) !! VersionCells(SizeOf(ver))) {
      var c :| c in Blocks(ver, NumAlign(ver)) && c in VersionCells(SizeOf(ver));
      TwoPositions(ver);
      BlocksAre(ver, NumAlign(ver), c);
      VersionCellsAre(ver, c);
      var i, j :| InBlock(ver, i, j, c);
      AlignmentIsClear(ver, i, j, c);
    }
  }

  lemma SpecificMissesCommon(ver: int)
    requires IsVersion(ver)
    ensures CommonCells(SizeOf(ver)) !! SpecificCells(ver)
  {
    hide CommonCells, SpecificCells, InBlock, InFinder, InFormat, InTiming, InVersion;
    if !(CommonCells(SizeOf(ver)) !! SpecificCells(ver)) {
      var c :| c in CommonCells(SizeOf(ver)) && c in SpecificCells(ver);
      SpecificCellsAre(ver, c);
      if InVersion(ver, c) {
        VersionIsClear(ver, c);
      } else {
        var i, j :| InBlock(ver, i, j, c);
        AlignmentIsClear(ver, i, j, c);
      }
      CommonCellsAre(ver, c);
    }
  }

  lemma VersionIsClear(ver: int, c: Cell)
    requires IsVersion(ver) && InVersion(ver, c)
    ensures !InFinder(ver, c) && !InFormat(ver, c) && !InTiming(c)
    ensures c.x < SizeOf(ver) && c.y < SizeOf(ver)
  {
  }

  lemma FunctionCellsSize(ver: int)
    requires IsVersion(ver)
    ensures |FunctionCells(ver)| == NumFunctionModules(ver)
  {
    hide CommonCells, SpecificCells, BlocksSize, NumAlign;
    CommonSize(SizeOf(ver));
    SpecificSize(ver);
    SpecificMissesCommon(ver);
    DisjointSize(CommonCells(SizeOf(ver)), SpecificCells(ver));
  }

  lemma FunctionCellsAre(ver: int, c: Cell)
    requires IsVersion(ver) && c.x < SizeOf(ver) && c.y < SizeOf(ver)
    ensures c in FunctionCells(ver) <==> IsFunctionCell(ver, c)
  {
    hide CommonCells, SpecificCells, InFinder, InFormat, InTiming, InVersion, InAlignment;
    CommonCellsAre(ver, c);
    SpecificCellsAre(ver, c);
  }

  /** The formula of the C++ code: the modules that are no function modules. */
  lemma RawModulesAreTheRest(ver: int)
    requires IsVersion(ver)
    ensures NumRawDataModules(ver) == SizeOf(ver) * SizeOf(ver) - NumFunctionModules(ver)
  {
    hide NumAlign;
    var n := NumAlign(ver);
    assert ver >= 2 ==> n == ver / 7 + 2 by { AlignDef(ver); }
    assert SizeOf(ver) * SizeOf(ver) == 16 * ver * ver + 136 * ver + 289;
    assert (16 * ver + 128) * ver + 64 == 16 * ver * ver + 128 * ver + 64;
    assert ver >= 2 ==> BlocksSize(n, n) == (25 * n - 10) * n - 55;
  }

  lemma AlignDef(ver: int)
    ensures ver >= 2 ==> NumAlign(ver) == ver / 7 + 2
  {
  }
}
