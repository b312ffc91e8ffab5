/** The finite check of the size tables of the QR versions, entry by entry, and the block layout that it justifies. */
module QrTableChecks {
  import opened QrBlocks
  import opened QrTables
  import opened QrStandard

  /** The entry of the C++ tables is that of tables 1 and 9 of the standard, and meets the side conditions. */
  predicate EntryAgrees(ecl: Ecl, ver: int)
    requires IsVersion(ver)
  {
    var ecc, blocks, row := EccCodewordsPerBlock(ecl, ver), NumErrorCorrectionBlocks(ecl, ver), RowOf(ver);
    blocks == row.Blocks(ecl) && ecc * blocks == row.Ecc(ecl) && EntryFits(ecl, ver)
  }

  predicate TotalAgrees(ver: int)
    requires IsVersion(ver)
  {
    NumRawDataModules(ver) / 8 == RowOf(ver).total
  }

  predicate RowAgrees(ver: int)
    requires IsVersion(ver)
  {
    && TotalAgrees(ver)
    && EntryAgrees(Low, ver) && EntryAgrees(Medium, ver) && EntryAgrees(Quartile, ver) && EntryAgrees(High, ver)
  }

  lemma RowsFrom1()
    ensures RowAgrees(1) && RowAgrees(2) && RowAgrees(3) && RowAgrees(4) && RowAgrees(5)
  {
    assert EntryAgrees(Low, 1);
    assert EntryAgrees(Medium, 1);
    assert EntryAgrees(Quartile, 1);
    assert EntryAgrees(High, 1);
    assert TotalAgrees(1);
    assert EntryAgrees(Low, 2);
    assert EntryAgrees(Medium, 2);
    assert EntryAgrees(Quartile, 2);
    assert EntryAgrees(High, 2);
    assert TotalAgrees(2);
    assert EntryAgrees(Low, 3);
    assert EntryAgrees(Medium, 3);
    assert EntryAgrees(Quartile, 3);
    assert EntryAgrees(High, 3);
    assert TotalAgrees(3);
    assert EntryAgrees(Low, 4);
    assert EntryAgrees(Medium, 4);
    assert EntryAgrees(Quartile, 4);
    assert EntryAgrees(High, 4);
    assert TotalAgrees(4);
    assert EntryAgrees(Low, 5);
    assert EntryAgrees(Medium, 5);
    assert EntryAgrees(Quartile, 5);
    assert EntryAgrees(High, 5);
    assert TotalAgrees(5);
    hide EntryAgrees, TotalAgrees;
  }

  lemma RowsFrom6()
    ensures RowAgrees(6) && RowAgrees(7) && RowAgrees(8) && RowAgrees(9) && RowAgrees(10)
  {
    assert EntryAgrees(Low, 6);
    assert EntryAgrees(Medium, 6);
    assert EntryAgrees(Quartile, 6);
    assert EntryAgrees(High, 6);
    assert TotalAgrees(6);
    assert EntryAgrees(Low, 7);
    assert EntryAgrees(Medium, 7);
    assert EntryAgrees(Quartile, 7);
    assert EntryAgrees(High, 7);
    assert TotalAgrees(7);
    assert EntryAgrees(Low, 8);
    assert EntryAgrees(Medium, 8);
    assert EntryAgrees(Quartile, 8);
    assert EntryAgrees(High, 8);
    assert TotalAgrees(8);
    assert EntryAgrees(Low, 9);
    assert EntryAgrees(Medium, 9);
    assert EntryAgrees(Quartile, 9);
    assert EntryAgrees(High, 9);
    assert TotalAgrees(9);
    assert EntryAgrees(Low, 10);
    assert EntryAgrees(Medium, 10);
    assert EntryAgrees(Quartile, 10);
    assert EntryAgrees(High, 10);
    assert TotalAgrees(10);
    hide EntryAgrees, TotalAgrees;
  }

  lemma RowsFrom11()
    ensures RowAgrees(11) && RowAgrees(12) && RowAgrees(13) && RowAgrees(14) && RowAgrees(15)
  {
    assert EntryAgrees(Low, 11);
    assert EntryAgrees(Medium, 11);
    assert EntryAgrees(Quartile, 11);
    assert EntryAgrees(High, 11);
    assert TotalAgrees(11);
    assert EntryAgrees(Low, 12);
    assert EntryAgrees(Medium, 12);
    assert EntryAgrees(Quartile, 12);
    assert EntryAgrees(High, 12);
    assert TotalAgrees(12);
    assert EntryAgrees(Low, 13);
    assert EntryAgrees(Medium, 13);
    assert EntryAgrees(Quartile, 13);
    assert EntryAgrees(High, 13);
    assert TotalAgrees(13);
    assert EntryAgrees(Low, 14);
    assert EntryAgrees(Medium, 14);
    assert EntryAgrees(Quartile, 14);
    assert EntryAgrees(High, 14);
    assert TotalAgrees(14);
    assert EntryAgrees(Low, 15);
    assert EntryAgrees(Medium, 15);
    assert EntryAgrees(Quartile, 15);
    assert EntryAgrees(High, 15);
    assert TotalAgrees(15);
    hide EntryAgrees, TotalAgrees;
  }

  lemma RowsFrom16()
    ensures RowAgrees(16) && RowAgrees(17) && RowAgrees(18) && RowAgrees(19) && RowAgrees(20)
  {
    assert EntryAgrees(Low, 16);
    assert EntryAgrees(Medium, 16);
    assert EntryAgrees(Quartile, 16);
    assert EntryAgrees(High, 16);
    assert TotalAgrees(16);
    assert EntryAgrees(Low, 17);
    assert EntryAgrees(Medium, 17);
    assert EntryAgrees(Quartile, 17);
    assert EntryAgrees(High, 17);
    assert TotalAgrees(17);
    assert EntryAgrees(Low, 18);
    assert EntryAgrees(Medium, 18);
    assert EntryAgrees(Quartile, 18);
    assert EntryAgrees(High, 18);
    assert TotalAgrees(18);
    assert EntryAgrees(Low, 19);
    assert EntryAgrees(Medium, 19);
    assert EntryAgrees(Quartile, 19);
    assert EntryAgrees(High, 19);
    assert TotalAgrees(19);
    assert EntryAgrees(Low, 20);
    assert EntryAgrees(Medium, 20);
    assert EntryAgrees(Quartile, 20);
    assert EntryAgrees(High, 20);
    assert TotalAgrees(20);
    hide EntryAgrees, TotalAgrees;
  }

  lemma RowsFrom21()
    ensures RowAgrees(21) && RowAgrees(22) && RowAgrees(23) && RowAgrees(24) && RowAgrees(25)
  {
    assert EntryAgrees(Low, 21);
    assert EntryAgrees(Medium, 21);
    assert EntryAgrees(Quartile, 21);
    assert EntryAgrees(High, 21);
    assert TotalAgrees(21);
    assert EntryAgrees(Low, 22);
    assert EntryAgrees(Medium, 22);
    assert EntryAgrees(Quartile, 22);
    assert EntryAgrees(High, 22);
    assert TotalAgrees(22);
    assert EntryAgrees(Low, 23);
    assert EntryAgrees(Medium, 23);
    assert EntryAgrees(Quartile, 23);
    assert EntryAgrees(High, 23);
    assert TotalAgrees(23);
    assert EntryAgrees(Low, 24);
    assert EntryAgrees(Medium, 24);
    assert EntryAgrees(Quartile, 24);
    assert EntryAgrees(High, 24);
    assert TotalAgrees(24);
    assert EntryAgrees(Low, 25);
    assert EntryAgrees(Medium, 25);
    assert EntryAgrees(Quartile, 25);
    assert EntryAgrees(High, 25);
    assert TotalAgrees(25);
    hide EntryAgrees, TotalAgrees;
  }

  lemma RowsFrom26()
    ensures RowAgrees(26) && RowAgrees(27) && RowAgrees(28) && RowAgrees(29) && RowAgrees(30)
  {
    assert EntryAgrees(Low, 26);
    assert EntryAgrees(Medium, 26);
    assert EntryAgrees(Quartile, 26);
    assert EntryAgrees(High, 26);
    assert TotalAgrees(26);
    assert EntryAgrees(Low, 27);
    assert EntryAgrees(Medium, 27);
    assert EntryAgrees(Quartile, 27);
    assert EntryAgrees(High, 27);
    assert TotalAgrees(27);
    assert EntryAgrees(Low, 28);
    assert EntryAgrees(Medium, 28);
    assert EntryAgrees(Quartile, 28);
    assert EntryAgrees(High, 28);
    assert TotalAgrees(28);
    assert EntryAgrees(Low, 29);
    assert EntryAgrees(Medium, 29);
    assert EntryAgrees(Quartile, 29);
    assert EntryAgrees(High, 29);
    assert TotalAgrees(29);
    assert EntryAgrees(Low, 30);
    assert EntryAgrees(Medium, 30);
    assert EntryAgrees(Quartile, 30);
    assert EntryAgrees(High, 30);
    assert TotalAgrees(30);
    hide EntryAgrees, TotalAgrees;
  }

  lemma RowsFrom31()
    ensures RowAgrees(31) && RowAgrees(32) && RowAgrees(33) && RowAgrees(34) && RowAgrees(35)
  {
    assert EntryAgrees(Low, 31);
    assert EntryAgrees(Medium, 31);
    assert EntryAgrees(Quartile, 31);
    assert EntryAgrees(High, 31);
    assert TotalAgrees(31);
    assert EntryAgrees(Low, 32);
    assert EntryAgrees(Medium, 32);
    assert EntryAgrees(Quartile, 32);
    assert EntryAgrees(High, 32);
    assert TotalAgrees(32);
    assert EntryAgrees(Low, 33);
    assert EntryAgrees(Medium, 33);
    assert EntryAgrees(Quartile, 33);
    assert EntryAgrees(High, 33);
    assert TotalAgrees(33);
    assert EntryAgrees(Low, 34);
    assert EntryAgrees(Medium, 34);
    assert EntryAgrees(Quartile, 34);
    assert EntryAgrees(High, 34);
    assert TotalAgrees(34);
    assert EntryAgrees(Low, 35);
    assert EntryAgrees(Medium, 35);
    assert EntryAgrees(Quartile, 35);
    assert EntryAgrees(High, 35);
    assert TotalAgrees(35);
    hide EntryAgrees, TotalAgrees;
  }

  lemma RowsFrom36()
    ensures RowAgrees(36) && RowAgrees(37) && RowAgrees(38) && RowAgrees(39) && RowAgrees(40)
  {
    assert EntryAgrees(Low, 36);
    assert EntryAgrees(Medium, 36);
    assert EntryAgrees(Quartile, 36);
    assert EntryAgrees(High, 36);
    assert TotalAgrees(36);
    assert EntryAgrees(Low, 37);
    assert EntryAgrees(Medium, 37);
    assert EntryAgrees(Quartile, 37);
    assert EntryAgrees(High, 37);
    assert TotalAgrees(37);
    assert EntryAgrees(Low, 38);
    assert EntryAgrees(Medium, 38);
    assert EntryAgrees(Quartile, 38);
    assert EntryAgrees(High, 38);
    assert TotalAgrees(38);
    assert EntryAgrees(Low, 39);
    assert EntryAgrees(Medium, 39);
    assert EntryAgrees(Quartile, 39);
    assert EntryAgrees(High, 39);
    assert TotalAgrees(39);
    assert EntryAgrees(Low, 40);
    assert EntryAgrees(Medium, 40);
    assert EntryAgrees(Quartile, 40);
    assert EntryAgrees(High, 40);
    assert TotalAgrees(40);
    hide EntryAgrees, TotalAgrees;
  }

  lemma RowsAgree(ver: int)
    requires IsVersion(ver)
    ensures RowAgrees(ver)
  {
    hide RowAgrees;
    match (ver - 1) / 5 {
      case 0 => RowsFrom1();
      case 1 => RowsFrom6();
      case 2 => RowsFrom11();
      case 3 => RowsFrom16();
      case 4 => RowsFrom21();
      case 5 => RowsFrom26();
      case 6 => RowsFrom31();
      case _ => RowsFrom36();
    }
  }

  /** Every entry of the tables leaves room for data and keeps blocks below 255 bytes. */
  lemma TablesFit(ecl: Ecl, ver: int)
    requires IsVersion(ver)
    ensures EntryFits(ecl, ver)
  {
    hide EntryFits, NumRawDataModules, EccCodewordsPerBlock, NumErrorCorrectionBlocks, RowOf;
    RowsAgree(ver);
  }

  lemma LayoutFits(blocks: nat, ecc: nat, raw: nat)
    requires 1 <= ecc <= 30 && 1 <= blocks
    requires 8 * ecc * blocks < raw < 8 * 254 * blocks
    ensures var l := Layout(blocks, ecc, raw / 8);
      l.Valid() && l.NumDataCodewords() >= 0 && l.ShortBlockLen() + 1 <= 254
  {
    var n, q := raw / 8, raw / 8 / blocks;
    assert 8 * ecc * blocks == 8 * (ecc * blocks);
    assert n == q * blocks + n % blocks;
    FactorBelow(q, 254, blocks);
  }

  /** The block parameters of a version and level. */
  function LayoutOf(ver: int, ecl: Ecl): (l: Layout)
    requires IsVersion(ver)
    ensures l.Valid() && l.rawCodewords == NumRawDataModules(ver) / 8
    ensures l.NumDataCodewords() >= 0 && l.ShortBlockLen() + 1 <= 254
  {
    TablesFit(ecl, ver);
    var ecc, blocks, raw := EccCodewordsPerBlock(ecl, ver), NumErrorCorrectionBlocks(ecl, ver), NumRawDataModules(ver);
    LayoutFits(blocks, ecc, raw);
    Layout(blocks, ecc, raw / 8)
  }

  function LayoutOfRow(row: Row, ecl: Ecl): Layout {
    if row.Blocks(ecl) == 0 then Layout(0, 0, row.total)
    else Layout(row.Blocks(ecl), row.Ecc(ecl) / row.Blocks(ecl), row.total)
  }

  /** The blocks of a version and level, as table 9 has them. */
  function StandardLayout(ver: int, ecl: Ecl): Layout
    requires IsVersion(ver)
  {
    LayoutOfRow(RowOf(ver), ecl)
  }

  /** The encoder lays out its blocks as the standard prescribes. */
  lemma LayoutsAgree(ver: int, ecl: Ecl)
    requires IsVersion(ver)
    ensures LayoutOf(ver, ecl) == StandardLayout(ver, ecl)
  {
    hide EccCodewordsPerBlock, NumErrorCorrectionBlocks, NumRawDataModules, RowOf;
    RowsAgree(ver);
    var ecc, blocks := EccCodewordsPerBlock(ecl, ver), NumErrorCorrectionBlocks(ecl, ver);
    QuotientIs(ecc * blocks, blocks, ecc, 0);
  }

  /** The number of data bytes of a symbol. */
  function NumDataCodewords(ver: int, ecl: Ecl): nat
    requires IsVersion(ver)
  {
    LayoutOf(ver, ecl).NumDataCodewords()
  }
}
