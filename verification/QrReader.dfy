/** A reader of the finished symbol, from the standard alone. */
module QrReader {
  // It gets the contents back from the modules. ISO/IEC 18004:2015, sections 7 and 12.

  import opened Outcomes
  import opened Bits
  import opened Gf256
  import opened QrBitBuffer
  import opened QrBlocks
  import opened QrSegments
  import opened QrSegmentReader
  import opened QrEncode
  import opened QrTables
  import opened QrTableChecks
  import opened QrZigzag
  import opened QrStandard
  import opened QrPatterns
  import opened QrCapacity
  import opened QrFormat
  import opened QrAgreement
  import opened QrPicture

  // ---- the reader ----

  /** The modules of some cells, in their order. */
  function Modules(g: Grid, size: nat, cells: seq<Cell>): (modules: seq<bool>)
    requires IsSquare(g, size) && InRange(cells, size)
    ensures |modules| == |cells|
  {
    seq(|cells|, i requires 0 <= i < |cells| => At(g, size, cells[i]))
  }

  function FormatCells(): (cells: seq<Cell>)
    ensures InRange(cells, 21)
  {
    seq(15, i requires 0 <= i < 15 => FormatCell(14 - i))
  }

  function SecondFormatCells(ver: int): (cells: seq<Cell>)
    requires IsVersion(ver)
    ensures InRange(cells, Side(ver))
  {
    seq(15, i requires 0 <= i < 15 => SecondFormatCell(ver, 14 - i))
  }

  function VersionCells(ver: int): (cells: seq<Cell>)
    requires IsVersion(ver)
    ensures InRange(cells, Side(ver))
  {
    seq(18, i requires 0 <= i < 18 => VersionCell(ver, 17 - i))
  }

  function SecondVersionCells(ver: int): (cells: seq<Cell>)
    requires IsVersion(ver)
    ensures InRange(cells, Side(ver))
  {
    seq(18, i requires 0 <= i < 18 => SecondVersionCell(ver, 17 - i))
  }

  /** Level indicator and mask, from the copy around the finder pattern at the top left. */
  function ReadFormat(g: Grid, ver: int): Option<nat>
    requires IsVersion(ver) && IsSquare(g, Side(ver))
  {
    FormatOf(NumberOf(Modules(g, Side(ver), FormatCells())))
  }

  function ReadSecondFormat(g: Grid, ver: int): Option<nat>
    requires IsVersion(ver) && IsSquare(g, Side(ver))
  {
    FormatOf(NumberOf(Modules(g, Side(ver), SecondFormatCells(ver))))
  }

  function ReadVersion(g: Grid, ver: int): Option<nat>
    requires IsVersion(ver) && IsSquare(g, Side(ver))
  {
    VersionOf(NumberOf(Modules(g, Side(ver), VersionCells(ver))))
  }

  function ReadSecondVersion(g: Grid, ver: int): Option<nat>
    requires IsVersion(ver) && IsSquare(g, Side(ver))
  {
    VersionOf(NumberOf(Modules(g, Side(ver), SecondVersionCells(ver))))
  }

  /** The bits of some modules: the mask is taken off where its condition holds. */
  function ReadModules(g: Grid, size: nat, msk: nat, cells: seq<Cell>): (bits: seq<bool>)
    requires IsSquare(g, size) && InRange(cells, size)
    ensures |bits| == |cells|
  {
    seq(|cells|, k requires 0 <= k < |cells| =>
      At(g, size, cells[k]) != MaskCondition(msk, cells[k].y, cells[k].x))
  }

  ghost function ReadCodewords(g: Grid, ver: int, msk: nat): seq<Byte>
    requires IsVersion(ver) && IsSquare(g, Side(ver))
  {
    RegionInRange(ver);
    TakeBytes(ReadModules(g, Side(ver), msk, EncodingRegion(ver)), RowOf(ver).total)
  }

  /** What a reader of a symbol of version ver does: format information, unmasking, the walk through the encoding
      region, the blocks, the segments. */
  ghost function ReadSymbol(g: Grid, ver: int): (r: Option<seq<Content>>)
    requires IsVersion(ver) && IsSquare(g, Side(ver))
  {
    var format := ReadFormat(g, ver);
    if format.None? then None
    else
      var l := StandardLayout(ver, LevelOf(format.value / 8));
      var codewords := ReadCodewords(g, ver, format.value % 8);
      if !l.Valid() || |codewords| != l.rawCodewords then None
      else ReadStream(ByteBits(ReadAllData(l, codewords, l.numBlocks)), ver)
  }

  // The first `count` bytes that the bits make up.
  function TakeBytes(bits: seq<bool>, count: int): seq<Byte> {
    if 0 <= 8 * count <= |bits| then PackBytes(bits[..8 * count]) else []
  }

  lemma RegionInRange(ver: int)
    requires IsVersion(ver)
    ensures InRange(EncodingRegion(ver), Side(ver))
  {
    hide Region, Walk, Scan, Side, IsFunctionModule;
    SidesAgree(ver);
    WalkAgrees(ver, Side(ver) / 2);
    ScanColumns(Side(ver), NumPairs(Side(ver)));
    var cells := Walk(ver, Side(ver) / 2);
    forall k | 0 <= k < |EncodingRegion(ver)|
      ensures EncodingRegion(ver)[k].x < Side(ver) && EncodingRegion(ver)[k].y < Side(ver)
    {
      assert EncodingRegion(ver)[k] in cells;
    }
  }

  // ---- format and version information ----

  lemma {:induction false} BitsOfAt(val: nat, len: nat, k: nat)
    requires k < len
    ensures BitsOf(val, len)[k] == (Bit(val, len - 1 - k) != 0)
  {
    if k == len - 1 {
    } else {
      BitsOfAt(val / 2, len - 1, k);
      ShrHalf(val, len - 2 - k);
    }
  }

  /** Modules that are the bits of a number spell it. */
  lemma ModulesSpell(modules: seq<bool>, bits: nat)
    requires bits < Pow2(|modules|)
    requires forall i :: 0 <= i < |modules| ==> modules[i] == BitsOf(bits, |modules|)[i]
    ensures NumberOf(modules) == bits
  {
    hide BitsOf, NumberOf, Pow2;
    assert modules == BitsOf(bits, |modules|);
    NumberOfBitsOf(bits, |modules|);
  }

  lemma FormatCellDark(ver: int, bits: nat, i: nat)
    requires IsVersion(ver) && i < 15
    ensures var n, c, d := SizeOf(ver), FormatCell(i), SecondFormatCell(ver, i);
      && n == Side(ver)
      && InFormat(ver, c) && (FormatDark(n, bits, c) <==> Bit(bits, i) != 0)
      && InFormat(ver, d) && (FormatDark(n, bits, d) <==> Bit(bits, i) != 0)
  {
    hide Bit;
  }

  lemma FormatModule(g: Grid, ver: int, ecl: Ecl, msk: int, i: nat)
    requires IsVersion(ver) && IsSquare(g, SizeOf(ver)) && IsMask(msk) && i < 15
    ensures var h, n, bits := WithFormat(g, ver, ecl, msk), SizeOf(ver), BitsOf(FormatBits(ecl, msk), 15);
      && n == Side(ver)
      && Modules(h, n, FormatCells())[i] == bits[i] && Modules(h, n, SecondFormatCells(ver))[i] == bits[i]
  {
    hide At, FormatBits, BitsOf, Bit, WithFormat, FormatDark, InFormat;
    SidesAgree(ver);
    FormatCellDark(ver, FormatBits(ecl, msk), 14 - i);
    BitsOfAt(FormatBits(ecl, msk), 15, i);
  }

  /** The reader finds level and mask, in either copy. */
  lemma FormatIsRead(g: Grid, ver: int, ecl: Ecl, msk: int)
    requires IsVersion(ver) && IsSquare(g, SizeOf(ver)) && IsMask(msk)
    ensures var h, data := WithFormat(g, ver, ecl, msk), 8 * LevelBits(ecl) + msk;
      && SizeOf(ver) == Side(ver)
      && ReadFormat(h, ver) == Some(data) && ReadSecondFormat(h, ver) == Some(data)
      && LevelOf(data / 8) == ecl && data % 8 == msk
  {
    hide Modules, FormatBits, BitsOf, NumberOf, WithFormat, FormatOf, FormatDark, Pow2;
    SidesAgree(ver);
    FormatPowers();
    var h, bits := WithFormat(g, ver, ecl, msk), FormatBits(ecl, msk);
    FormatRoundTrip(ecl, msk);
    FormatBitsAgree(ecl, msk);
    forall i | 0 <= i < 15
      ensures Modules(h, Side(ver), FormatCells())[i] == BitsOf(bits, 15)[i]
      ensures Modules(h, Side(ver), SecondFormatCells(ver))[i] == BitsOf(bits, 15)[i]
    {
      FormatModule(g, ver, ecl, msk, i);
    }
    ModulesSpell(Modules(h, Side(ver), FormatCells()), bits);
    ModulesSpell(Modules(h, Side(ver), SecondFormatCells(ver)), bits);
  }

  lemma VersionCellDark(ver: int, i: nat)
    requires IsVersion(ver) && ver >= 7 && i < 18
    ensures var c, d := VersionCell(ver, i), SecondVersionCell(ver, i);
      && InVersion(ver, c) && (VersionDark(ver, c) <==> Bit(VersionBits(ver), i) != 0)
      && InVersion(ver, d) && (VersionDark(ver, d) <==> Bit(VersionBits(ver), i) != 0)
  {
    hide Bit, VersionBits;
  }

  // Function modules other than those of the format information are not touched after they are drawn.
  lemma PatternShows(ver: int, ecl: Ecl, codewords: seq<Byte>, msk: int, c: Cell)
    requires IsVersion(ver) && IsMask(msk) && c.x < SizeOf(ver) && c.y < SizeOf(ver)
    requires IsFunctionCell(ver, c) && !InFormat(ver, c)
    ensures At(Candidate(ver, ecl, codewords, msk), SizeOf(ver), c) == PatternDark(ver, ecl, c)
  {
    hide Place, PatternDark, IsFunctionCell, InFormat, Invert, FormatDark, FormatBits, IsSquare, At, ScanOf;
    var bits := ByteBits(codewords);
    PlaceChangesFreeCellsOnly(PatternGrid(ver, ecl), FunctionGrid(ver), SizeOf(ver), ScanOf(ver), bits, c);
  }

  lemma VersionModule(ver: int, ecl: Ecl, codewords: seq<Byte>, msk: int, i: nat)
    requires IsVersion(ver) && IsMask(msk) && ver >= 7 && i < 18
    ensures var h, n, bits := Candidate(ver, ecl, codewords, msk), SizeOf(ver), BitsOf(VersionBits(ver), 18);
      && n == Side(ver)
      && Modules(h, n, VersionCells(ver))[i] == bits[i] && Modules(h, n, SecondVersionCells(ver))[i] == bits[i]
  {
    hide At, BitsOf, Bit, Candidate, VersionBits, VersionDark;
    SidesAgree(ver);
    VersionCellDark(ver, 17 - i);
    BitsOfAt(VersionBits(ver), 18, i);
    VersionIsPattern(ver, ecl, VersionCell(ver, 17 - i));
    VersionIsPattern(ver, ecl, SecondVersionCell(ver, 17 - i));
    hide InVersion, InFormat, IsFunctionCell, PatternDark;
    PatternShows(ver, ecl, codewords, msk, VersionCell(ver, 17 - i));
    PatternShows(ver, ecl, codewords, msk, SecondVersionCell(ver, 17 - i));
  }

  lemma VersionIsPattern(ver: int, ecl: Ecl, c: Cell)
    requires IsVersion(ver) && InVersion(ver, c)
    ensures IsFunctionCell(ver, c) && !InFormat(ver, c) && PatternDark(ver, ecl, c) == VersionDark(ver, c)
  {
    hide VersionDark, FormatDark;
  }

  /** From version 7 on the reader finds the version, in either copy. */
  lemma VersionIsRead(ver: int, ecl: Ecl, codewords: seq<Byte>, msk: int)
    requires IsVersion(ver) && IsMask(msk) && ver >= 7
    ensures var g := Candidate(ver, ecl, codewords, msk);
      && SizeOf(ver) == Side(ver)
      && ReadVersion(g, ver) == Some(ver) && ReadSecondVersion(g, ver) == Some(ver)
  {
    hide Modules, VersionBits, BitsOf, NumberOf, Candidate, VersionOf, Pow2;
    SidesAgree(ver);
    VersionPower();
    var g, bits := Candidate(ver, ecl, codewords, msk), VersionBits(ver);
    VersionBitsAgree(ver);
    forall i | 0 <= i < 18
      ensures Modules(g, Side(ver), VersionCells(ver))[i] == BitsOf(bits, 18)[i]
      ensures Modules(g, Side(ver), SecondVersionCells(ver))[i] == BitsOf(bits, 18)[i]
    {
      VersionModule(ver, ecl, codewords, msk, i);
    }
    ModulesSpell(Modules(g, Side(ver), VersionCells(ver)), bits);
    ModulesSpell(Modules(g, Side(ver), SecondVersionCells(ver)), bits);
  }

  lemma VersionPower()
    ensures Pow2(18) == 0x4_0000
  {
    assert Pow2(9) == 0x200;
  }

  // ---- codewords ----

  // Format cells are not scanned, so the scan does not see which mask's format is drawn.
  lemma {:induction false} CollectIgnoresFormat(g: Grid, ver: int, ecl: Ecl, msk: int, cells: seq<Cell>)
    requires IsVersion(ver) && IsSquare(g, SizeOf(ver)) && IsMask(msk) && InRange(cells, SizeOf(ver))
    ensures Collect(WithFormat(g, ver, ecl, msk), FunctionGrid(ver), SizeOf(ver), cells)
         == Collect(g, FunctionGrid(ver), SizeOf(ver), cells)
  {
    hide FormatBits, FormatDark, At, WithFormat, FunctionGrid, InFormat, IsFunctionCell, Collect;
    if cells == [] {
      CollectNothing(WithFormat(g, ver, ecl, msk), g, FunctionGrid(ver), SizeOf(ver));
    } else {
      CollectIgnoresFormat(g, ver, ecl, msk, cells[..|cells| - 1]);
      CollectUnfold(g, FunctionGrid(ver), SizeOf(ver), cells);
      CollectUnfold(WithFormat(g, ver, ecl, msk), FunctionGrid(ver), SizeOf(ver), cells);
      FormatIsFunction(ver);
    }
  }

  lemma CollectNothing(g: Grid, h: Grid, f: Grid, size: nat)
    requires IsSquare(g, size) && IsSquare(h, size) && IsSquare(f, size)
    ensures Collect(g, f, size, []) == Collect(h, f, size, []) == []
  {
  }

  /** Unmasking and collecting is reading the region with the condition of the standard. */
  lemma {:induction false} ReadIsCollect(g: Grid, ver: int, msk: int, cells: seq<Cell>)
    requires IsVersion(ver) && IsSquare(g, SizeOf(ver)) && IsMask(msk) && InRange(cells, SizeOf(ver))
    ensures var n, f := SizeOf(ver), FunctionGrid(ver);
      InRange(Region(ver, cells), n)
      && ReadModules(g, n, msk, Region(ver, cells)) == Collect(Masked(g, f, n, msk), f, n, cells)
  {
    hide At, Invert, MaskCondition, FunctionGrid, IsFunctionCell, IsFunctionModule, Masked, Collect, IsSquare, Region;
    var n, f := SizeOf(ver), FunctionGrid(ver);
    if cells == [] {
      RegionUnfold(ver, cells);
      CollectNothing(Masked(g, f, n, msk), g, f, n);
    } else {
      var before, c := cells[..|cells| - 1], cells[|cells| - 1];
      ReadIsCollect(g, ver, msk, before);
      RegionUnfold(ver, cells);
      CollectUnfold(Masked(g, f, n, msk), f, n, cells);
      FunctionModulesAgree(ver, c);
      MaskConditionsAgree(msk, c);
      ReadOneMore(g, n, msk, Region(ver, before), c);
    }
  }

  lemma RegionUnfold(ver: int, cells: seq<Cell>)
    requires IsVersion(ver)
    ensures cells == [] ==> Region(ver, cells) == []
    ensures cells != [] ==>
      (var before, c := Region(ver, cells[..|cells| - 1]), cells[|cells| - 1];
       Region(ver, cells) == if IsFunctionModule(ver, c) then before else before + [c])
  {
    hide IsFunctionModule;
  }

  lemma ReadOneMore(g: Grid, size: nat, msk: nat, cells: seq<Cell>, c: Cell)
    requires IsSquare(g, size) && InRange(cells, size) && c.x < size && c.y < size
    ensures InRange(cells + [c], size)
    ensures ReadModules(g, size, msk, cells + [c])
         == ReadModules(g, size, msk, cells) + [At(g, size, c) != MaskCondition(msk, c.y, c.x)]
  {
    hide At, MaskCondition;
  }

  lemma BaseHoldsBits(ver: int, ecl: Ecl, codewords: seq<Byte>)
    requires IsVersion(ver) && |codewords| == NumRawDataModules(ver) / 8
    ensures var bits := Collect(BaseGrid(ver, ecl, codewords), FunctionGrid(ver), SizeOf(ver), ScanOf(ver));
      |ByteBits(codewords)| == 8 * |codewords| <= |bits| && bits[..8 * |codewords|] == ByteBits(codewords)
  {
    var n, f, cells, bits := SizeOf(ver), FunctionGrid(ver), ScanOf(ver), ByteBits(codewords);
    hide *;
    CandidateDef(ver, ecl, codewords, 0);
    BytesArePacked(codewords);
    EnoughModules(ver, codewords);
    PlacedBitsAreCollected(PatternGrid(ver, ecl), f, n, cells, bits);
  }

  lemma EnoughModules(ver: int, codewords: seq<Byte>)
    requires IsVersion(ver) && |codewords| == NumRawDataModules(ver) / 8
    ensures 8 * |codewords| <= FreeCells(FunctionGrid(ver), SizeOf(ver), ScanOf(ver))
  {
    var f := FunctionGrid(ver);
    hide *;
    TotalIs(ver);
    RegionOfScan(ver);
    ScanCapacity(f, ver);
  }

  lemma CandidateHoldsBits(ver: int, ecl: Ecl, codewords: seq<Byte>, msk: int)
    requires IsVersion(ver) && IsMask(msk)
    ensures var n, f, g := SizeOf(ver), FunctionGrid(ver), Candidate(ver, ecl, codewords, msk);
      Collect(Masked(g, f, n, msk), f, n, ScanOf(ver)) == Collect(BaseGrid(ver, ecl, codewords), f, n, ScanOf(ver))
  {
    var base, cells := BaseGrid(ver, ecl, codewords), ScanOf(ver);
    hide *;
    UnmaskUnderFormat(base, ver, ecl, msk);
    CandidateDef(ver, ecl, codewords, msk);
    CollectIgnoresFormat(base, ver, ecl, msk, cells);
  }

  /** The modules of the encoding region, read with the mask of the symbol, start with the bits of the codewords. */
  lemma RegionHoldsBits(ver: int, ecl: Ecl, codewords: seq<Byte>, msk: int)
    requires IsVersion(ver) && IsMask(msk)
    requires |codewords| == RowOf(ver).total
    ensures SizeOf(ver) == Side(ver) && InRange(EncodingRegion(ver), Side(ver))
    ensures var bits := ReadModules(Candidate(ver, ecl, codewords, msk), Side(ver), msk, EncodingRegion(ver));
      |ByteBits(codewords)| == 8 * |codewords| <= |bits| && bits[..8 * |codewords|] == ByteBits(codewords)
  {
    hide *;
    SidesAgree(ver);
    TotalIs(ver);
    RegionOfScan(ver);
    BaseHoldsBits(ver, ecl, codewords);
    CandidateHoldsBits(ver, ecl, codewords, msk);
    ReadIsCollect(Candidate(ver, ecl, codewords, msk), ver, msk, ScanOf(ver));
  }

  lemma TotalIs(ver: int)
    requires IsVersion(ver)
    ensures RowOf(ver).total == NumRawDataModules(ver) / 8 && NumRawDataModules(ver) >= 208
  {
    hide RowOf, NumRawDataModules;
    RowsAgree(ver);
    TablesFit(Low, ver);
  }

  lemma RegionOfScan(ver: int)
    requires IsVersion(ver)
    ensures SizeOf(ver) == Side(ver) && IsSize(SizeOf(ver))
    ensures EncodingRegion(ver) == Region(ver, ScanOf(ver))
    ensures ScanOf(ver) == Scan(SizeOf(ver), NumPairs(SizeOf(ver)))
  {
    hide Region, Walk, Scan;
    SidesAgree(ver);
    WalkAgrees(ver, Side(ver) / 2);
  }

  /** Module k of the encoding region is dark just when bit k of the codewords differs from the mask condition. */
  lemma DataModuleIs(ver: int, ecl: Ecl, codewords: seq<Byte>, msk: int, k: nat)
    requires IsVersion(ver) && IsMask(msk)
    requires |codewords| == RowOf(ver).total && k < 8 * |codewords|
    ensures SizeOf(ver) == Side(ver) && InRange(EncodingRegion(ver), Side(ver)) && k < |EncodingRegion(ver)|
    ensures var c := EncodingRegion(ver)[k];
      At(Candidate(ver, ecl, codewords, msk), Side(ver), c) <==>
      (Bit(codewords[k / 8], 7 - k % 8) != 0) != MaskCondition(msk, c.y, c.x)
  {
    hide At, Candidate, MaskCondition, EncodingRegion, ByteBits, Bit, RowOf, Side;
    RegionHoldsBits(ver, ecl, codewords, msk);
    var bits := ReadModules(Candidate(ver, ecl, codewords, msk), Side(ver), msk, EncodingRegion(ver));
    assert bits[..8 * |codewords|][k] == bits[k];
    ByteBitAt(codewords, k);
  }

  lemma {:induction false} ByteBitAt(bytes: seq<Byte>, k: nat)
    requires k < 8 * |bytes|
    ensures |ByteBits(bytes)| == 8 * |bytes| && ByteBits(bytes)[k] == (Bit(bytes[k / 8], 7 - k % 8) != 0)
  {
    hide BitsOf, Bit;
    ByteBitsLength(bytes);
    var n := |bytes| - 1;
    ByteBitsLength(bytes[..n]);
    if k < 8 * n {
      ByteBitAt(bytes[..n], k);
    } else {
      BitsOfAt(bytes[n], 8, k - 8 * n);
    }
  }

  /** The reader finds the codewords, whatever the mask. */
  lemma CodewordsAreRead(ver: int, ecl: Ecl, codewords: seq<Byte>, msk: int)
    requires IsVersion(ver) && IsMask(msk)
    requires |codewords| == RowOf(ver).total
    ensures SizeOf(ver) == Side(ver)
    ensures ReadCodewords(Candidate(ver, ecl, codewords, msk), ver, msk) == codewords
  {
    hide ReadModules, Candidate, EncodingRegion, ByteBits, RowOf, Side, TakeBytes;
    RegionHoldsBits(ver, ecl, codewords, msk);
    TakeAll(ReadModules(Candidate(ver, ecl, codewords, msk), Side(ver), msk, EncodingRegion(ver)), codewords);
  }

  lemma TakeAll(bits: seq<bool>, bytes: seq<Byte>)
    requires 8 * |bytes| <= |bits| && |ByteBits(bytes)| == 8 * |bytes|
    requires bits[..8 * |bytes|] == ByteBits(bytes)
    ensures TakeBytes(bits, |bytes|) == bytes
  {
    hide ByteBits, PackBytes;
    BytesArePacked(bytes);
  }

  lemma CandidateDef(ver: int, ecl: Ecl, codewords: seq<Byte>, msk: int)
    requires IsVersion(ver) && IsMask(msk)
    ensures Candidate(ver, ecl, codewords, msk)
         == WithFormat(Masked(BaseGrid(ver, ecl, codewords), FunctionGrid(ver), SizeOf(ver), msk), ver, ecl, msk)
    ensures BaseGrid(ver, ecl, codewords)
         == Place(PatternGrid(ver, ecl), FunctionGrid(ver), SizeOf(ver), ScanOf(ver), ByteBits(codewords)).grid
  {
  }

  lemma {:induction false} BytesArePacked(bytes: seq<Byte>)
    ensures |ByteBits(bytes)| == 8 * |bytes|
    ensures PackBytes(ByteBits(bytes)) == bytes
  {
    hide PackBytes, BitsOf;
    ByteBitsLength(bytes);
    if bytes == [] {
      assert ByteBits(bytes) == [];
    } else {
      var front, b := bytes[..|bytes| - 1], bytes[|bytes| - 1];
      BytesArePacked(front);
      PackSplit(ByteBits(front), BitsOf(b, 8));
      Pow2Values();
      NumberOfBitsOf(b, 8);
    }
  }

  // ---- the contents ----

  lemma CandidateFormat(ver: int, ecl: Ecl, codewords: seq<Byte>, msk: int)
    requires IsVersion(ver) && IsMask(msk)
    ensures SizeOf(ver) == Side(ver)
    ensures var format := ReadFormat(Candidate(ver, ecl, codewords, msk), ver);
      format.Some? && LevelOf(format.value / 8) == ecl && format.value % 8 == msk
  {
    var masked := Masked(BaseGrid(ver, ecl, codewords), FunctionGrid(ver), SizeOf(ver), msk);
    hide *;
    SidesAgree(ver);
    CandidateDef(ver, ecl, codewords, msk);
    FormatIsRead(masked, ver, ecl, msk);
  }

  lemma InterleavedIsRead(ver: int, ecl: Ecl, data: seq<Byte>)
    requires IsVersion(ver) && |data| == LayoutOf(ver, ecl).NumDataCodewords()
    ensures StandardLayout(ver, ecl).Valid()
    ensures var l, codewords := StandardLayout(ver, ecl), Interleave(LayoutOf(ver, ecl), data);
      |codewords| == l.rawCodewords == RowOf(ver).total && ReadAllData(l, codewords, l.numBlocks) == data
  {
    hide StandardLayout, ReadAllData, Interleave, RowOf, NumRawDataModules;
    LayoutsAgree(ver, ecl);
    TotalIs(ver);
    InterleaveRoundTrip(LayoutOf(ver, ecl), data);
  }

  /** The reader finds the data codewords of the finished symbol, in their order. */
  lemma DataAreRead(ver: int, ecl: Ecl, data: seq<Byte>, msk: int)
    requires IsVersion(ver) && IsMask(msk) && |data| == LayoutOf(ver, ecl).NumDataCodewords()
    ensures SizeOf(ver) == Side(ver)
    ensures ReadSymbol(Candidate(ver, ecl, Interleave(LayoutOf(ver, ecl), data), msk), ver)
         == ReadStream(ByteBits(data), ver)
  {
    var codewords := Interleave(LayoutOf(ver, ecl), data);
    hide *;
    SidesAgree(ver);
    InterleavedIsRead(ver, ecl, data);
    CandidateFormat(ver, ecl, codewords, msk);
    CodewordsAreRead(ver, ecl, codewords, msk);
    ReadSymbolDef(Candidate(ver, ecl, codewords, msk), ver, ecl, msk);
  }

  /** The finished symbol is read back: whatever the contents, version, level and mask, the reader
      gets the exact segment list from the modules alone. */
  lemma SymbolIsRead(contents: seq<Content>, ver: int, ecl: Ecl, msk: int)
    requires IsVersion(ver) && IsMask(msk) && Encodable(contents, ver)
    requires |StreamBits(ToSegments(contents), ver)| <= 8 * NumDataCodewords(ver, ecl)
    ensures SizeOf(ver) == Side(ver)
    ensures var data := DataCodewords(ToSegments(contents), ver, NumDataCodewords(ver, ecl));
      |data| == LayoutOf(ver, ecl).NumDataCodewords()
      && ReadSymbol(Candidate(ver, ecl, Interleave(LayoutOf(ver, ecl), data), msk), ver) == Some(contents)
  {
    var n := NumDataCodewords(ver, ecl);
    assert n == LayoutOf(ver, ecl).NumDataCodewords();
    hide *;
    EncodableIsValid(contents, ver);
    DataAreRead(ver, ecl, DataCodewords(ToSegments(contents), ver, n), msk);
    DataCodewordsAreRead(contents, ver, n);
  }

  lemma ReadSymbolDef(g: Grid, ver: int, ecl: Ecl, msk: int)
    requires IsVersion(ver) && IsSquare(g, Side(ver)) && IsMask(msk)
    requires ReadFormat(g, ver).Some?
    requires var data := ReadFormat(g, ver).value; LevelOf(data / 8) == ecl && data % 8 == msk
    requires StandardLayout(ver, ecl).Valid()
    requires |ReadCodewords(g, ver, msk)| == StandardLayout(ver, ecl).rawCodewords
    ensures var l := StandardLayout(ver, ecl);
      ReadSymbol(g, ver) == ReadStream(ByteBits(ReadAllData(l, ReadCodewords(g, ver, msk), l.numBlocks)), ver)
  {
    hide ReadCodewords, ReadStream, ByteBits, ReadAllData, ReadFormat, StandardLayout, LevelOf;
  }
}
