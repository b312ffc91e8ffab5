/** The size tables of the QR versions: codewords, blocks and raw modules. ISO/IEC 18004:2015, tables 1 and 9. */
module QrTables {
  const MIN_VERSION := 1
  const MAX_VERSION := 40

  /** Error correction levels, lowest first. */
  datatype Ecl = Low | Medium | Quartile | High {
    function Rank(): (r: nat)
      ensures r < 4
    {
      match this
      case Low => 0
      case Medium => 1
      case Quartile => 2
      case High => 3
    }
  }

  predicate IsVersion(ver: int) {
    MIN_VERSION <= ver <= MAX_VERSION
  }

  /** The number of modules that hold data or error correction bits. */
  function NumRawDataModules(ver: int): int {
    var all := (16 * ver + 128) * ver + 64;
    if ver < 2 then all else
    var numAlign := ver / 7 + 2;
    var rest := all - ((25 * numAlign - 10) * numAlign - 55);
    if ver < 7 then rest else rest - 36
  }

  /** The number of error correction codewords of each block. */
  function EccCodewordsPerBlock(ecl: Ecl, ver: int): nat
    requires IsVersion(ver)
  {
    match ecl
    case Low => (
      match ver
      case 1 => 7 case 2 => 10 case 3 => 15 case 4 => 20 case 5 => 26 case 6 => 18 case 7 => 20 case 8 => 24
      case 9 => 30 case 10 => 18 case 11 => 20 case 12 => 24 case 13 => 26 case 14 => 30 case 15 => 22
      case 16 => 24 case 17 => 28 case 18 => 30 case 19 => 28 case 20 => 28 case 21 => 28 case 22 => 28
      case 23 => 30 case 24 => 30 case 25 => 26 case 26 => 28 case 27 => 30 case 28 => 30 case 29 => 30
      case 30 => 30 case 31 => 30 case 32 => 30 case 33 => 30 case 34 => 30 case 35 => 30 case 36 => 30
      case 37 => 30 case 38 => 30 case 39 => 30 case _ => 30)
    case Medium => (
      match ver
      case 1 => 10 case 2 => 16 case 3 => 26 case 4 => 18 case 5 => 24 case 6 => 16 case 7 => 18 case 8 => 22
      case 9 => 22 case 10 => 26 case 11 => 30 case 12 => 22 case 13 => 22 case 14 => 24 case 15 => 24
      case 16 => 28 case 17 => 28 case 18 => 26 case 19 => 26 case 20 => 26 case 21 => 26 case 22 => 28
      case 23 => 28 case 24 => 28 case 25 => 28 case 26 => 28 case 27 => 28 case 28 => 28 case 29 => 28
      case 30 => 28 case 31 => 28 case 32 => 28 case 33 => 28 case 34 => 28 case 35 => 28 case 36 => 28
      case 37 => 28 case 38 => 28 case 39 => 28 case _ => 28)
    case Quartile => (
      match ver
      case 1 => 13 case 2 => 22 case 3 => 18 case 4 => 26 case 5 => 18 case 6 => 24 case 7 => 18 case 8 => 22
      case 9 => 20 case 10 => 24 case 11 => 28 case 12 => 26 case 13 => 24 case 14 => 20 case 15 => 30
      case 16 => 24 case 17 => 28 case 18 => 28 case 19 => 26 case 20 => 30 case 21 => 28 case 22 => 30
      case 23 => 30 case 24 => 30 case 25 => 30 case 26 => 28 case 27 => 30 case 28 => 30 case 29 => 30
      case 30 => 30 case 31 => 30 case 32 => 30 case 33 => 30 case 34 => 30 case 35 => 30 case 36 => 30
      case 37 => 30 case 38 => 30 case 39 => 30 case _ => 30)
    case High => (
      match ver
      case 1 => 17 case 2 => 28 case 3 => 22 case 4 => 16 case 5 => 22 case 6 => 28 case 7 => 26 case 8 => 26
      case 9 => 24 case 10 => 28 case 11 => 24 case 12 => 28 case 13 => 22 case 14 => 24 case 15 => 24
      case 16 => 30 case 17 => 28 case 18 => 28 case 19 => 26 case 20 => 28 case 21 => 30 case 22 => 24
      case 23 => 30 case 24 => 30 case 25 => 30 case 26 => 30 case 27 => 30 case 28 => 30 case 29 => 30
      case 30 => 30 case 31 => 30 case 32 => 30 case 33 => 30 case 34 => 30 case 35 => 30 case 36 => 30
      case 37 => 30 case 38 => 30 case 39 => 30 case _ => 30)
  }

  /** The number of blocks. */
  function NumErrorCorrectionBlocks(ecl: Ecl, ver: int): nat
    requires IsVersion(ver)
  {
    match ecl
    case Low => (
      match ver
      case 1 => 1 case 2 => 1 case 3 => 1 case 4 => 1 case 5 => 1 case 6 => 2 case 7 => 2 case 8 => 2
      case 9 => 2 case 10 => 4 case 11 => 4 case 12 => 4 case 13 => 4 case 14 => 4 case 15 => 6 case 16 => 6
      case 17 => 6 case 18 => 6 case 19 => 7 case 20 => 8 case 21 => 8 case 22 => 9 case 23 => 9 case 24 => 10
      case 25 => 12 case 26 => 12 case 27 => 12 case 28 => 13 case 29 => 14 case 30 => 15 case 31 => 16
      case 32 => 17 case 33 => 18 case 34 => 19 case 35 => 19 case 36 => 20 case 37 => 21 case 38 => 22
      case 39 => 24 case _ => 25)
    case Medium => (
      match ver
      case 1 => 1 case 2 => 1 case 3 => 1 case 4 => 2 case 5 => 2 case 6 => 4 case 7 => 4 case 8 => 4
      case 9 => 5 case 10 => 5 case 11 => 5 case 12 => 8 case 13 => 9 case 14 => 9 case 15 => 10 case 16 => 10
      case 17 => 11 case 18 => 13 case 19 => 14 case 20 => 16 case 21 => 17 case 22 => 17 case 23 => 18
      case 24 => 20 case 25 => 21 case 26 => 23 case 27 => 25 case 28 => 26 case 29 => 28 case 30 => 29
      case 31 => 31 case 32 => 33 case 33 => 35 case 34 => 37 case 35 => 38 case 36 => 40 case 37 => 43
      case 38 => 45 case 39 => 47 case _ => 49)
    case Quartile => (
      match ver
      case 1 => 1 case 2 => 1 case 3 => 2 case 4 => 2 case 5 => 4 case 6 => 4 case 7 => 6 case 8 => 6
      case 9 => 8 case 10 => 8 case 11 => 8 case 12 => 10 case 13 => 12 case 14 => 16 case 15 => 12
      case 16 => 17 case 17 => 16 case 18 => 18 case 19 => 21 case 20 => 20 case 21 => 23 case 22 => 23
      case 23 => 25 case 24 => 27 case 25 => 29 case 26 => 34 case 27 => 34 case 28 => 35 case 29 => 38
      case 30 => 40 case 31 => 43 case 32 => 45 case 33 => 48 case 34 => 51 case 35 => 53 case 36 => 56
      case 37 => 59 case 38 => 62 case 39 => 65 case _ => 68)
    case High => (
      match ver
      case 1 => 1 case 2 => 1 case 3 => 2 case 4 => 4 case 5 => 4 case 6 => 4 case 7 => 5 case 8 => 6
      case 9 => 8 case 10 => 8 case 11 => 11 case 12 => 11 case 13 => 16 case 14 => 16 case 15 => 18
      case 16 => 16 case 17 => 19 case 18 => 21 case 19 => 25 case 20 => 25 case 21 => 25 case 22 => 34
      case 23 => 30 case 24 => 32 case 25 => 35 case 26 => 37 case 27 => 40 case 28 => 42 case 29 => 45
      case 30 => 48 case 31 => 51 case 32 => 54 case 33 => 57 case 34 => 60 case 35 => 63 case 36 => 66
      case 37 => 70 case 38 => 74 case 39 => 77 case _ => 81)
  }

  // What the rest of the project needs of one entry of the tables.
  predicate EntryFits(ecl: Ecl, ver: int)
    requires IsVersion(ver)
  {
    var raw, ecc, blocks := NumRawDataModules(ver), EccCodewordsPerBlock(ecl, ver), NumErrorCorrectionBlocks(ecl, ver);
    && 208 <= raw <= 29648
    && 1 <= ecc <= 30
    && 1 <= blocks
    && 8 * ecc * blocks < raw
    && raw < 8 * 254 * blocks
  }
}
