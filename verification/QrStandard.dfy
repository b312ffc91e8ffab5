/** What ISO/IEC 18004:2015 prescribes, in its own terms, for the reader. */
module QrStandard {
  // Nothing here is defined by way of the encoder: tables are the printed ones, and coordinates are row i and column j
  // where the standard uses them. The lemmas that the encoder agrees stand beside the encoder's own definitions.

  import opened Outcomes
  import opened Bits
  import opened QrTables
  import opened QrZigzag

  // ---- segments: tables 2, 3 and 5, section 7.4 ----

  const NUMERIC_MODE: nat := 1
  const ALPHANUMERIC_MODE: nat := 2
  const BYTE_MODE: nat := 4
  const KANJI_MODE: nat := 8
  const ECI_MODE: nat := 7
  const TERMINATOR: nat := 0

  /** Table 3: the number of bits of the character count indicator. */
  function CountWidth(mode: nat, ver: int): nat
    requires IsVersion(ver)
  {
    if mode == NUMERIC_MODE then (if ver <= 9 then 10 else if ver <= 26 then 12 else 14)
    else if mode == ALPHANUMERIC_MODE then (if ver <= 9 then 9 else if ver <= 26 then 11 else 13)
    else if mode == BYTE_MODE then (if ver <= 9 then 8 else 16)
    else if mode == KANJI_MODE then (if ver <= 9 then 8 else if ver <= 26 then 10 else 12)
    else 0
  }

  /** Section 7.4.3: the number of bits of one, two or three digits. */
  function GroupWidth(digits: nat): nat {
    if digits == 1 then 4 else if digits == 2 then 7 else 10
  }

  /** The n decimal digits of a value. */
  function Decimal(value: nat, n: nat): (text: string)
    ensures |text| == n
  {
    if n == 0 then [] else Decimal(value / 10, n - 1) + [Digit(value % 10)]
  }

  function Digit(d: nat): char
    requires d < 10
  {
    if d == 0 then '0' else if d == 1 then '1' else if d == 2 then '2' else if d == 3 then '3' else if d == 4 then '4'
    else if d == 5 then '5' else if d == 6 then '6' else if d == 7 then '7' else if d == 8 then '8' else '9'
  }

  /** Table 5: the character of a value. */
  function CharacterAt(value: nat): char
    requires value < 45
  {
    if value < 10 then ('0' as nat + value) as char
    else if value < 36 then ('A' as nat + value - 10) as char
    else if value == 36 then ' ' else if value == 37 then '$' else if value == 38 then '%' else if value == 39 then '*'
    else if value == 40 then '+' else if value == 41 then '-' else if value == 42 then '.' else if value == 43 then '/'
    else ':'
  }

  // ---- versions: tables 1, 9 and E.1 ----

  /**
   * One version: all codewords, the error correction codewords and the blocks of each level, and the second
   * coordinate of the alignment patterns with the distance from there on.
   */
  datatype Row = Row(total: nat, lowEcc: nat, mediumEcc: nat, quartileEcc: nat, highEcc: nat,
                     lowBlocks: nat, mediumBlocks: nat, quartileBlocks: nat, highBlocks: nat,
                     second: nat, distance: nat)
  {
    function Ecc(ecl: Ecl): nat {
      match ecl
      case Low => lowEcc
      case Medium => mediumEcc
      case Quartile => quartileEcc
      case High => highEcc
    }

    function Blocks(ecl: Ecl): nat {
      match ecl
      case Low => lowBlocks
      case Medium => mediumBlocks
      case Quartile => quartileBlocks
      case High => highBlocks
    }
  }

  function RowOf(ver: int): (r: Row)
    requires IsVersion(ver)
    ensures r.distance > 0
  {
    match ver
    case 1 => Row(26, 7, 10, 13, 17, 1, 1, 1, 1, 0, 1)
    case 2 => Row(44, 10, 16, 22, 28, 1, 1, 1, 1, 18, 1)
    case 3 => Row(70, 15, 26, 36, 44, 1, 1, 2, 2, 22, 1)
    case 4 => Row(100, 20, 36, 52, 64, 1, 2, 2, 4, 26, 1)
    case 5 => Row(134, 26, 48, 72, 88, 1, 2, 4, 4, 30, 1)
    case 6 => Row(172, 36, 64, 96, 112, 2, 4, 4, 4, 34, 1)
    case 7 => Row(196, 40, 72, 108, 130, 2, 4, 6, 5, 22, 16)
    case 8 => Row(242, 48, 88, 132, 156, 2, 4, 6, 6, 24, 18)
    case 9 => Row(292, 60, 110, 160, 192, 2, 5, 8, 8, 26, 20)
    case 10 => Row(346, 72, 130, 192, 224, 4, 5, 8, 8, 28, 22)
    case 11 => Row(404, 80, 150, 224, 264, 4, 5, 8, 11, 30, 24)
    case 12 => Row(466, 96, 176, 260, 308, 4, 8, 10, 11, 32, 26)
    case 13 => Row(532, 104, 198, 288, 352, 4, 9, 12, 16, 34, 28)
    case 14 => Row(581, 120, 216, 320, 384, 4, 9, 16, 16, 26, 20)
    case 15 => Row(655, 132, 240, 360, 432, 6, 10, 12, 18, 26, 22)
    case 16 => Row(733, 144, 280, 408, 480, 6, 10, 17, 16, 26, 24)
    case 17 => Row(815, 168, 308, 448, 532, 6, 11, 16, 19, 30, 24)
    case 18 => Row(901, 180, 338, 504, 588, 6, 13, 18, 21, 30, 26)
    case 19 => Row(991, 196, 364, 546, 650, 7, 14, 21, 25, 30, 28)
    case 20 => Row(1085, 224, 416, 600, 700, 8, 16, 20, 25, 34, 28)
    case 21 => Row(1156, 224, 442, 644, 750, 8, 17, 23, 25, 28, 22)
    case 22 => Row(1258, 252, 476, 690, 816, 9, 17, 23, 34, 26, 24)
    case 23 => Row(1364, 270, 504, 750, 900, 9, 18, 25, 30, 30, 24)
    case 24 => Row(1474, 300, 560, 810, 960, 10, 20, 27, 32, 28, 26)
    case 25 => Row(1588, 312, 588, 870, 1050, 12, 21, 29, 35, 32, 26)
    case 26 => Row(1706, 336, 644, 952, 1110, 12, 23, 34, 37, 30, 28)
    case 27 => Row(1828, 360, 700, 1020, 1200, 12, 25, 34, 40, 34, 28)
    case 28 => Row(1921, 390, 728, 1050, 1260, 13, 26, 35, 42, 26, 24)
    case 29 => Row(2051, 420, 784, 1140, 1350, 14, 28, 38, 45, 30, 24)
    case 30 => Row(2185, 450, 812, 1200, 1440, 15, 29, 40, 48, 26, 26)
    case 31 => Row(2323, 480, 868, 1290, 1530, 16, 31, 43, 51, 30, 26)
    case 32 => Row(2465, 510, 924, 1350, 1620, 17, 33, 45, 54, 34, 26)
    case 33 => Row(2611, 540, 980, 1440, 1710, 18, 35, 48, 57, 30, 28)
    case 34 => Row(2761, 570, 1036, 1530, 1800, 19, 37, 51, 60, 34, 28)
    case 35 => Row(2876, 570, 1064, 1590, 1890, 19, 38, 53, 63, 30, 24)
    case 36 => Row(3034, 600, 1120, 1680, 1980, 20, 40, 56, 66, 24, 26)
    case 37 => Row(3196, 630, 1204, 1770, 2100, 21, 43, 59, 70, 28, 26)
    case 38 => Row(3362, 660, 1260, 1860, 2220, 22, 45, 62, 74, 32, 26)
    case 39 => Row(3532, 720, 1316, 1950, 2310, 24, 47, 65, 77, 26, 28)
    case _ => Row(3706, 750, 1372, 2040, 2430, 25, 49, 68, 81, 30, 28)
  }

  // ---- the symbol: sections 6.3 and 7.7 ----

  /** The number of modules of a side. */
  function Side(ver: int): nat
    requires IsVersion(ver)
  {
    21 + 4 * (ver - 1)
  }

  /** A row or column of centres of alignment patterns. */
  predicate IsCoordinate(ver: int, p: int)
    requires IsVersion(ver)
  {
    var row := RowOf(ver);
    ver >= 2 && (p == 6 || (row.second <= p <= Side(ver) - 7 && (p - row.second) % row.distance == 0))
  }

  /** An alignment pattern stands at each crossing, but for the three that a finder pattern takes. */
  predicate IsCentre(ver: int, p: int, q: int)
    requires IsVersion(ver)
  {
    var last := Side(ver) - 7;
    && IsCoordinate(ver, p) && IsCoordinate(ver, q)
    && !(p == 6 && q == 6) && !(p == 6 && q == last) && !(p == last && q == 6)
  }

  ghost predicate InAlignmentPattern(ver: int, i: int, j: int)
    requires IsVersion(ver)
  {
    exists p: int, q: int :: IsCentre(ver, p, q) && -2 <= i - p <= 2 && -2 <= j - q <= 2
  }

  /** The finder patterns with their separators and the format information beside them. */
  predicate InCorner(ver: int, i: int, j: int)
    requires IsVersion(ver)
  {
    var n := Side(ver);
    (i <= 8 && j <= 8) || (i <= 8 && j >= n - 8) || (i >= n - 8 && j <= 8)
  }

  predicate InVersionArea(ver: int, i: int, j: int)
    requires IsVersion(ver)
  {
    var n := Side(ver);
    ver >= 7 && ((i <= 5 && n - 11 <= j <= n - 9) || (j <= 5 && n - 11 <= i <= n - 9))
  }

  /** Everything but the encoding region. */
  ghost predicate IsFunctionModule(ver: int, c: Cell)
    requires IsVersion(ver)
  {
    var i, j := c.y, c.x;
    InCorner(ver, i, j) || i == 6 || j == 6 || InVersionArea(ver, i, j) || InAlignmentPattern(ver, i, j)
  }

  /** The right column of the p-th pair of columns from the right; column 6 belongs to no pair. */
  function RightColumn(ver: int, p: nat): (right: int)
    requires IsVersion(ver) && p < Side(ver) / 2
    ensures 1 <= right < Side(ver)
  {
    var n := Side(ver);
    if n - 1 - 2 * p > 6 then n - 1 - 2 * p else n - 2 - 2 * p
  }

  /** Module k of a pair of columns: right and left in turn, upwards in the first pair, downwards in the next. */
  function WalkCell(ver: int, p: nat, k: nat): Cell
    requires IsVersion(ver) && p < Side(ver) / 2 && k < 2 * Side(ver)
  {
    var n := Side(ver);
    Cell(RightColumn(ver, p) - k % 2, if p % 2 == 0 then n - 1 - k / 2 else k / 2)
  }

  function PairWalk(ver: int, p: nat): (cells: seq<Cell>)
    requires IsVersion(ver) && p < Side(ver) / 2
    ensures |cells| == 2 * Side(ver)
  {
    seq(2 * Side(ver), k requires 0 <= k < 2 * Side(ver) => WalkCell(ver, p, k))
  }

  /** The modules of the first p pairs of columns, in the order of placement. */
  function Walk(ver: int, p: nat): seq<Cell>
    requires IsVersion(ver) && p <= Side(ver) / 2
  {
    if p == 0 then [] else Walk(ver, p - 1) + PairWalk(ver, p - 1)
  }

  /** The modules of the encoding region, in the order of placement. */
  ghost function EncodingRegion(ver: int): seq<Cell>
    requires IsVersion(ver)
  {
    Region(ver, Walk(ver, Side(ver) / 2))
  }

  ghost function Region(ver: int, cells: seq<Cell>): (r: seq<Cell>)
    requires IsVersion(ver)
    ensures forall c <- r :: c in cells
  {
    if cells == [] then []
    else
      var before, c := Region(ver, cells[..|cells| - 1]), cells[|cells| - 1];
      if IsFunctionModule(ver, c) then before else before + [c]
  }

  // ---- masks: table 10 ----

  /** The condition of a data mask pattern, for the module in row i and column j. */
  predicate MaskCondition(pattern: nat, i: nat, j: nat) {
    if pattern == 0 then (i + j) % 2 == 0
    else if pattern == 1 then i % 2 == 0
    else if pattern == 2 then j % 3 == 0
    else if pattern == 3 then (i + j) % 3 == 0
    else if pattern == 4 then (i / 2 + j / 3) % 2 == 0
    else if pattern == 5 then (i * j) % 2 + (i * j) % 3 == 0
    else if pattern == 6 then ((i * j) % 2 + (i * j) % 3) % 2 == 0
    else ((i + j) % 2 + (i * j) % 3) % 2 == 0
  }

  // ---- format and version information: sections 7.9 and 7.10, annexes C and D ----

  /** Table 12: the level of an indicator. */
  function LevelOf(indicator: nat): Ecl {
    if indicator == 1 then Low else if indicator == 0 then Medium else if indicator == 3 then Quartile else High
  }

  /** 101010000010010, XORed onto the format information. */
  const FORMAT_PATTERN: nat := 0x5412

  /** The remainder of the polynomial of the n lowest bits of w, by x^10 + x^8 + x^5 + x^4 + x^2 + x + 1. */
  function FormatRemainder(w: nat, n: nat): nat {
    Remainder(w, n, 10, 0x537)
  }

  /** By x^12 + x^11 + x^10 + x^9 + x^8 + x^5 + x^2 + 1. */
  function VersionRemainder(w: nat, n: nat): nat {
    Remainder(w, n, 12, 0x1F25)
  }

  function Remainder(w: nat, n: nat, degree: nat, generator: nat): nat {
    if n == 0 then 0
    else
      var r := 2 * Remainder(w / 2, n - 1, degree, generator) + w % 2;
      if r >= Pow2(degree) then Xor(r, generator) else r
  }

  /** Level indicator and mask of fifteen format bits, if these are one of the 32 words without an error. */
  function FormatOf(bits: nat): Option<nat> {
    var word := Xor(bits, FORMAT_PATTERN);
    if FormatRemainder(word, 15) == 0 then Some(word / 0x400) else None
  }

  /** The version of eighteen version bits, if these are a word without an error. */
  function VersionOf(bits: nat): Option<nat> {
    if VersionRemainder(bits, 18) == 0 then Some(bits / 0x1000) else None
  }

  /** Figure 25: where bit i of the format information stands, around the finder pattern at the top left. */
  function FormatCell(i: nat): Cell
    requires i < 15
  {
    if i <= 5 then Cell(8, i) else if i <= 7 then Cell(8, i + 1) else if i == 8 then Cell(7, 8) else Cell(14 - i, 8)
  }

  /** And below and beside the other two. */
  function SecondFormatCell(ver: int, i: nat): Cell
    requires IsVersion(ver) && i < 15
  {
    var n := Side(ver);
    if i <= 7 then Cell(n - 1 - i, 8) else Cell(8, n - 15 + i)
  }

  /** Figure 28: where bit i of the version information stands, at the top right and, transposed, at the bottom left. */
  function VersionCell(ver: int, i: nat): Cell
    requires IsVersion(ver) && i < 18
  {
    Cell(Side(ver) - 11 + i % 3, i / 3)
  }

  function SecondVersionCell(ver: int, i: nat): Cell
    requires IsVersion(ver) && i < 18
  {
    Cell(i / 3, Side(ver) - 11 + i % 3)
  }
}
