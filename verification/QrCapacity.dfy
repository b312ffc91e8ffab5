/** The zigzag meets as many free modules as it must. */
module QrCapacity {
  // For every version that is what the size formula says.

  import opened FiniteSets
  import opened QrTables
  import opened QrZigzag
  import opened QrPatterns

  function FreeSet(f: Grid, size: nat, cells: seq<Cell>): set<Cell>
    requires IsSquare(f, size) && InRange(cells, size)
  {
    set i | 0 <= i < |cells| && !At(f, size, cells[i]) :: cells[i]
  }

  lemma {:induction false} FreeSetSize(f: Grid, size: nat, cells: seq<Cell>)
    requires IsSquare(f, size) && InRange(cells, size) && NoRepeats(cells)
    ensures |FreeSet(f, size, cells)| == FreeCells(f, size, cells)
  {
    hide At, IsSquare;
    if cells == [] {
      assert FreeSet(f, size, cells) == {};
    } else {
      var n := |cells| - 1;
      var before, c := cells[..n], cells[n];
      FreeSetSize(f, size, before);
      assert c !in FreeSet(f, size, before);
      if At(f, size, c) {
        assert FreeSet(f, size, cells) == FreeSet(f, size, before);
      } else {
        assert FreeSet(f, size, cells) == FreeSet(f, size, before) + {c};
      }
    }
  }

  /** The grid marks exactly the function modules of the version. */
  ghost predicate MarksFunctionCells(f: Grid, ver: int)
    requires IsVersion(ver)
  {
    && IsSquare(f, SizeOf(ver))
    && forall c: Cell :: c.x < SizeOf(ver) && c.y < SizeOf(ver) ==> (At(f, SizeOf(ver), c) <==> IsFunctionCell(ver, c))
  }

  lemma FunctionCellsInRange(ver: int, c: Cell)
    requires IsVersion(ver) && c in FunctionCells(ver)
    ensures c.x < SizeOf(ver) && c.y < SizeOf(ver)
  {
    hide Rect, Blocks, NumAlign, InBlock;
    if c in SpecificCells(ver) {
      hide *;
      SpecificInRange(ver, c);
    }
  }

  lemma SpecificInRange(ver: int, c: Cell)
    requires IsVersion(ver) && c in SpecificCells(ver)
    ensures c.x < SizeOf(ver) && c.y < SizeOf(ver)
  {
    hide SpecificCells, InBlock, InVersion;
    SpecificCellsAre(ver, c);
    if InVersion(ver, c) {
      VersionIsClear(ver, c);
    } else {
      var i, j :| InBlock(ver, i, j, c);
      AlignmentIsClear(ver, i, j, c);
    }
  }

  lemma FreeSetOfScan(f: Grid, ver: int)
    requires IsVersion(ver) && MarksFunctionCells(f, ver)
    ensures IsSize(SizeOf(ver)) && InRange(Scan(SizeOf(ver), NumPairs(SizeOf(ver))), SizeOf(ver))
    ensures FreeSet(f, SizeOf(ver), Scan(SizeOf(ver), NumPairs(SizeOf(ver))))
         == Rect(0, 0, SizeOf(ver), SizeOf(ver)) - FunctionCells(ver)
  {
    var size := SizeOf(ver);
    var cells := Scan(size, NumPairs(size));
    ScanColumns(size, NumPairs(size));
    var free, rest := FreeSet(f, size, cells), Rect(0, 0, size, size) - FunctionCells(ver);
    hide Scan, FunctionCells, At;
    forall c: Cell
      ensures c in free <==> c in rest
    {
      hide InFinder, InFormat, InVersion, InAlignment;
      if c.x < size && c.y < size {
        FunctionCellsAre(ver, c);
        if c.x != 6 {
          ScanCovers(size, c);
        }
      }
    }
  }

  lemma FunctionCellsAreInside(ver: int)
    requires IsVersion(ver)
    ensures FunctionCells(ver) <= Rect(0, 0, SizeOf(ver), SizeOf(ver))
  {
    hide FunctionCells, Rect;
    forall c | c in FunctionCells(ver)
      ensures c in Rect(0, 0, SizeOf(ver), SizeOf(ver))
    {
      FunctionCellsInRange(ver, c);
    }
  }

  /** As many modules are free for codeword bits as the formula of `getNumRawDataModules` says. */
  lemma ScanCapacity(f: Grid, ver: int)
    requires IsVersion(ver) && MarksFunctionCells(f, ver)
    ensures IsSize(SizeOf(ver)) && InRange(Scan(SizeOf(ver), NumPairs(SizeOf(ver))), SizeOf(ver))
    ensures FreeCells(f, SizeOf(ver), Scan(SizeOf(ver), NumPairs(SizeOf(ver)))) == NumRawDataModules(ver)
  {
    FreeSetOfScan(f, ver);
    assert IsSquare(f, SizeOf(ver));
    hide *;
    var size := SizeOf(ver);
    ScanNoRepeats(size, NumPairs(size));
    FreeSetSize(f, size, Scan(size, NumPairs(size)));
    RectSize(0, 0, size, size);
    FunctionCellsSize(ver);
    RawModulesAreTheRest(ver);
    FunctionCellsAreInside(ver);
    DifferenceSize(Rect(0, 0, size, size), FunctionCells(ver));
  }
}
